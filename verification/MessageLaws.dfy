/**
 * What the list handling of descriptors, messages and clones means for the bytes on the wire.
 * A registration order, the list of a descriptor and the fields of a message are all sequences
 * of entries here.
 */
module MessageLaws {
  import opened Common
  import opened Bytes
  import opened Codec
  import opened CodecProofs
  import opened Fields
  import Messages

  // ----- Order of fields ----------------------------------------------------------------------

  /** The list of a descriptor on which fields were registered in this order. */
  function Registered<T>(order: seq<T>): seq<T> {
    AddedAll([], order)
  }

  /** The fields of a message created from a descriptor with this list. */
  function Created<T>(list: seq<T>): seq<T> {
    AddedAll([], list)
  }

  /** The list of a copy of a descriptor, and the fields of a clone of a message. */
  function Cloned<T>(list: seq<T>): seq<T> {
    Reverse(list)
  }

  /** The fields of a message are in registration order, rotated left by two. */
  lemma FieldOrder<T>(order: seq<T>, k: nat)
    requires k < |order|
    ensures |Created(Registered(order))| == |order|
    ensures Created(Registered(order))[k] == order[(k + 2) % |order|]
  {
    CreatedIsRotated(order);
    hide *;
    RotateAt(order, (k + 1) % |order|);
    RotateAt(RotateLeft(order), k);
    NextOfNext(k, |order|);
  }

  lemma CreatedIsRotated<T>(order: seq<T>)
    ensures Created(Registered(order)) == RotateLeft(RotateLeft(order))
  {
    hide AddedAll, RotateLeft;
    AddsRotate(order);
    AddsRotate(RotateLeft(order));
  }

  lemma RotateAt<T>(s: seq<T>, k: nat)
    requires k < |s|
    ensures |RotateLeft(s)| == |s| && 0 <= (k + 1) % |s| < |s| && RotateLeft(s)[k] == s[(k + 1) % |s|]
  {
    Next(k, |s|);
  }

  /** A position's successor in a cycle. */
  lemma Next(k: nat, n: nat)
    requires k < n
    ensures (k + 1) % n == if k + 1 == n then 0 else k + 1
  {
  }

  lemma NextOfNext(k: nat, n: nat)
    requires k < n
    ensures 0 <= (k + 2) % n < n && ((k + 1) % n + 1) % n == (k + 2) % n
  {
    Next(k, n);
    if k + 1 < n {
      assert (k + 1) % n + 1 == k + 2;
    } else {
      assert k + 2 == n + 1;
      SmallRemainder(n);
    }
  }

  lemma SmallRemainder(n: nat)
    requires n > 0
    ensures (n + 1) % n == 1 % n
  {
    if n > 1 {
      assert n + 1 == n * 1 + 1;
    }
  }

  ghost function Views(order: seq<Messages.FieldDescriptor>): (es: seq<Entry>)
    ensures |es| == |order| && forall i :: 0 <= i < |es| ==> es[i] == order[i].View()
  {
    seq(|order|, i requires 0 <= i < |order| => order[i].View())
  }

  /** Registering fields one after the other, as a program does. */
  method RegisterAll(order: seq<Messages.FieldDescriptor>, kind: nat) returns (descriptor: Messages.MessageDescriptor)
    requires forall i, j :: 0 <= i < j < |order| ==> order[i].name != order[j].name
    ensures descriptor.Valid() && descriptor.kind == kind && fresh(descriptor)
    ensures descriptor.Entries() == Registered(Views(order))
  {
    hide Indexed, Added, AddedAll, Registered;
    descriptor := new Messages.MessageDescriptor(kind);
    ghost var views := Views(order);
    assert views[0..] == views;
    RegisteredIs(views);
    for i := 0 to |order|
      invariant descriptor.Valid() && descriptor.kind == kind
      invariant AddedAll(descriptor.Entries(), views[i..]) == Registered(views)
      invariant forall d :: d in descriptor.descriptors ==> d in order[..i]
    {
      forall n | n in descriptor.Names() ensures n != order[i].name {
        var k :| 0 <= k < |descriptor.Names()| && descriptor.Names()[k] == n;
        assert descriptor.descriptors[k] in order[..i];
      }
      ghost var before := descriptor.descriptors;
      AddedAllMore(descriptor.Entries(), views, i);
      assert order[i].name !in descriptor.Names();
      var r := descriptor.RegisterField(order[i]);
      AddedAreRegistered(order, i, before, descriptor.descriptors);
    }
    AddedAllNone(descriptor.Entries(), views[|order|..]);
  }

  /** And creating a message from the descriptor: its fields are in registration order, rotated left by two. */
  method RegisterAndCreate(order: seq<Messages.FieldDescriptor>, kind: nat, session: nat, ids: Messages.IdGenerator)
      returns (message: Messages.Message)
    requires ids.Valid()
    requires forall i, j :: 0 <= i < j < |order| ==> order[i].name != order[j].name
    modifies ids
    ensures message.Valid() && ids.Valid() && message.kind == kind && message.session == session
    ensures |message.Entries()| == |order|
    ensures forall k :: 0 <= k < |order| ==> message.Entries()[k] == order[(k + 2) % |order|].View()
  {
    hide *;
    var descriptor := RegisterAll(order, kind);
    message := new Messages.Message(descriptor, session, ids);
    CreatedIs(descriptor.Entries());
    CreatedInOrder(order);
  }

  lemma CreatedInOrder(order: seq<Messages.FieldDescriptor>)
    ensures |Created(Registered(Views(order)))| == |order|
    ensures forall k :: 0 <= k < |order| ==> Created(Registered(Views(order)))[k] == order[(k + 2) % |order|].View()
  {
    hide Created, Registered;
    forall k | 0 <= k < |order|
      ensures |Created(Registered(Views(order)))| == |order|
      ensures Created(Registered(Views(order)))[k] == order[(k + 2) % |order|].View()
    {
      FieldOrder(Views(order), k);
      NextOfNext(k, |order|);
    }
    if order == [] {
      NothingCreated(Views(order));
    } else {
      FieldOrder(Views(order), 0);
    }
  }

  lemma AddedAreRegistered<T>(order: seq<T>, i: nat, before: seq<T>, after: seq<T>)
    requires i < |order| && after == Added(before, order[i])
    requires forall d :: d in before ==> d in order[..i]
    ensures forall d :: d in after ==> d in order[..i + 1]
  {
    hide Added;
    Messages.AddedElements(before, order[i]);
    assert order[..i + 1] == order[..i] + [order[i]];
  }

  lemma RegisteredIs<T>(order: seq<T>)
    ensures AddedAll([], order) == Registered(order)
  {
  }

  lemma CreatedIs<T>(list: seq<T>)
    ensures RotateLeft(list) == Created(list)
  {
    AddsRotate(list);
  }

  lemma AddedAllMore<T>(s: seq<T>, xs: seq<T>, i: nat)
    requires i < |xs|
    ensures AddedAll(s, xs[i..]) == AddedAll(Added(s, xs[i]), xs[i + 1..])
  {
    hide Added;
    assert xs[i..][1..] == xs[i + 1..];
  }

  lemma AddedAllNone<T>(s: seq<T>, xs: seq<T>)
    requires xs == []
    ensures AddedAll(s, xs) == s
  {
  }

  lemma NothingCreated<T>(order: seq<T>)
    requires order == []
    ensures Created(Registered(order)) == []
  {
  }

  /** Messages of a descriptor and of its copy have their fields in the same order only if there is at most one. */
  lemma CopiedDescriptorOrder(list: seq<Entry>)
    requires DistinctNames(list)
    ensures Created(Cloned(list)) == Created(list) <==> |list| <= 1
  {
    AddsRotate(list);
    AddsRotate(Reverse(list));
    if |list| >= 2 {
      var n := |list|;
      assert RotateLeft(list)[n - 1] == list[0];
      assert RotateLeft(Reverse(list))[n - 1] == Reverse(list)[0] == list[n - 1];
      assert list[0].name != list[n - 1].name;
    } else if |list| == 1 {
      assert Reverse(list) == list;
    }
  }

  // ----- From message to message --------------------------------------------------------------

  /** Two sets of fields with the same names and types in the same order, as one descriptor makes them. */
  ghost predicate Alike(es: seq<Entry>, es': seq<Entry>) {
    && |es'| == |es|
    && forall i :: 0 <= i < |es| ==> es'[i].name == es[i].name && es'[i].ty == es[i].ty
  }

  ghost predicate AllDefault(es: seq<Entry>) {
    forall i :: 0 <= i < |es| ==> es[i].value == Default(es[i].ty)
  }

  lemma {:induction false} AlikeValues(es: seq<Entry>, es': seq<Entry>)
    requires Typed(es) && Typed(es') && Alike(es, es')
    ensures TyOf(es') == TyOf(es) && HasType(TyOf(es), ValueOf(es)) && HasType(TyOf(es), ValueOf(es'))
    ensures WithValues(es', ValueOf(es)) == es
  {
    hide HasType;
    WithOwnValues(es, es');
    ValueHasType(es);
    ValueHasType(es');
  }

  lemma {:induction false} SameValues(es: seq<Entry>, v: Val, v': Val)
    requires HasType(TyOf(es), v) && HasType(TyOf(es), v')
    ensures WithValues(es, v) == WithValues(es, v') <==> v == v'
  {
    if es == [] {
    } else {
      SameValues(es[1..], v.second, v'.second);
      var r, r' := WithValues(es, v), WithValues(es, v');
      assert r[1..] == WithValues(es[1..], v.second) && r'[1..] == WithValues(es[1..], v'.second);
      assert r[0].value == v.first && r'[0].value == v'.first;
    }
  }

  /**
   * Reading the bytes of a message into another one of the same descriptor gives it the first one's
   * values, and leaves the rest of the input, exactly when every container fits its count and
   * nothing of the second message's old values shows through.
   */
  lemma MessageRoundTrip(w: Host, r: Host, es: seq<Entry>, layout: seq<Image>, target: seq<Entry>, rest: seq<byte>)
    requires Lays(es, layout) && Typed(es) && Typed(target) && Alike(es, target)
    ensures HasType(TyOf(es), ValueOf(target)) && Shape(TyOf(es), ImageOf(layout))
    ensures ReadFields(r, target, Wire(w, es, layout) + rest) == Got(es, rest)
       <==> CountsFit(TyOf(es), ImageOf(layout)) && Clean(TyOf(es), ValueOf(target), ImageOf(layout))
  {
    hide *;
    var ty, v, img := TyOf(es), ValueOf(target), ImageOf(layout);
    AlikeValues(es, target);
    LayoutIsImage(es, layout);
    WireIsEncode(w, es, layout);
    var bs := Wire(w, es, layout) + rest;
    RoundTrip(w, r, ty, v, img, rest);
    ReadFieldsIsDecode(r, target, bs);
    var d := Decode(r, ty, v, bs);
    if d.Got? {
      SameValues(target, d.value, ValueOf(es));
    }
  }

  lemma WireIsEncode(h: Host, es: seq<Entry>, layout: seq<Image>)
    requires Lays(es, layout)
    ensures Shape(TyOf(es), ImageOf(layout)) && Wire(h, es, layout) == Encode(h, TyOf(es), ImageOf(layout))
  {
    hide Encode, Shape;
    LayoutIsImage(es, layout);
  }

  /** No container in any field has more items than a count can say. */
  ghost predicate AllFit(es: seq<Entry>, layout: seq<Image>)
    requires Lays(es, layout)
  {
    forall i :: 0 <= i < |es| ==> CountsFit(es[i].ty, layout[i])
  }

  /** A freshly created message reads back whatever fits. */
  lemma NewMessageReadsBack(w: Host, r: Host, es: seq<Entry>, layout: seq<Image>, target: seq<Entry>, rest: seq<byte>)
    requires Lays(es, layout) && Typed(es) && Typed(target) && Alike(es, target) && AllDefault(target)
    requires AllFit(es, layout)
    ensures ReadFields(r, target, Wire(w, es, layout) + rest) == Got(es, rest)
  {
    hide *;
    LayoutIsImage(es, layout);
    AlikeValues(es, target);
    FieldsFit(es, layout);
    DefaultFields(target);
    DefaultIsClean(TyOf(es), ImageOf(layout));
    MessageRoundTrip(w, r, es, layout, target, rest);
  }

  lemma {:induction false} FieldsFit(es: seq<Entry>, layout: seq<Image>)
    requires Lays(es, layout) && Shape(TyOf(es), ImageOf(layout))
    requires AllFit(es, layout)
    ensures CountsFit(TyOf(es), ImageOf(layout))
  {
    if es == [] {
    } else {
      FieldsFit(es[1..], layout[1..]);
    }
  }

  lemma {:induction false} DefaultFields(es: seq<Entry>)
    requires AllDefault(es)
    ensures ValueOf(es) == Default(TyOf(es))
  {
    if es == [] {
    } else {
      DefaultFields(es[1..]);
    }
  }

  // ----- Clones -------------------------------------------------------------------------------

  /** What the fields say, by name. */
  function Contents(es: seq<Entry>): map<string, (Ty, Val)> {
    if es == [] then map[] else Contents(es[1..])[es[0].name := (es[0].ty, es[0].value)]
  }

  lemma {:induction false} ContentsByName(es: seq<Entry>)
    requires DistinctNames(es)
    ensures Contents(es).Keys == set i | 0 <= i < |es| :: es[i].name
    ensures forall i :: 0 <= i < |es| ==> Contents(es)[es[i].name] == (es[i].ty, es[i].value)
  {
    if es == [] {
    } else {
      ContentsByName(es[1..]);
      forall i | 0 <= i < |es| ensures Contents(es)[es[i].name] == (es[i].ty, es[i].value) {
        if i != 0 {
          assert es[i] == es[1..][i - 1];
        }
      }
      var names := set i | 0 <= i < |es| :: es[i].name;
      forall n | n in names ensures n in Contents(es) {
        var i :| 0 <= i < |es| && es[i].name == n;
        if i != 0 {
          assert es[i] == es[1..][i - 1];
        }
      }
      forall n | n in Contents(es) ensures n in names {
        if n == es[0].name {
        } else {
          var i :| 0 <= i < |es[1..]| && es[1..][i].name == n;
          assert es[i + 1].name == n;
        }
      }
    }
  }

  lemma ContentsIncluded(es: seq<Entry>, es': seq<Entry>)
    requires DistinctNames(es) && DistinctNames(es') && forall e :: e in es ==> e in es'
    ensures forall k :: k in Contents(es) ==> k in Contents(es') && Contents(es')[k] == Contents(es)[k]
  {
    hide Contents;
    ContentsByName(es);
    ContentsByName(es');
    forall k | k in Contents(es) ensures k in Contents(es') && Contents(es')[k] == Contents(es)[k] {
      var i :| 0 <= i < |es| && es[i].name == k;
      assert es[i] in es';
      var j :| 0 <= j < |es'| && es'[j] == es[i];
    }
  }

  lemma ReverseElements<T>(s: seq<T>)
    ensures forall x :: x in s <==> x in Reverse(s)
  {
    forall x | x in s ensures x in Reverse(s) {
      var i :| 0 <= i < |s| && s[i] == x;
      assert Reverse(s)[|s| - 1 - i] == x;
    }
  }

  /** A clone has the same values under the same names. */
  lemma CloneKeepsContents(es: seq<Entry>)
    requires DistinctNames(es)
    ensures DistinctNames(Cloned(es)) && Contents(Cloned(es)) == Contents(es)
  {
    hide Contents;
    ReverseElements(es);
    ContentsIncluded(es, Reverse(es));
    ContentsIncluded(Reverse(es), es);
  }

  lemma CloneLayout(es: seq<Entry>, layout: seq<Image>)
    requires Lays(es, layout)
    ensures Lays(Cloned(es), Cloned(layout))
  {
    hide Shape, Abs;
    var c, l, n := Reverse(es), Reverse(layout), |es|;
    forall i | 0 <= i < n ensures Shape(c[i].ty, l[i]) && Abs(c[i].ty, l[i]) == c[i].value {
      assert c[i] == es[n - 1 - i] && l[i] == layout[n - 1 - i];
    }
  }

  /** A clone of a clone has the fields, and so the bytes, of the original. */
  lemma CloneOfClone(h: Host, es: seq<Entry>, layout: seq<Image>)
    requires Lays(es, layout)
    ensures Cloned(Cloned(es)) == es && Lays(Cloned(Cloned(es)), Cloned(Cloned(layout)))
    ensures Wire(h, Cloned(Cloned(es)), Cloned(Cloned(layout))) == Wire(h, es, layout)
  {
    hide Shape, Abs, Wire;
    ReverseTwice(es);
    ReverseTwice(layout);
  }

  lemma {:induction false} DeclaredSizeOfLast(es: seq<Entry>, layout: seq<Image>)
    requires Lays(es, layout) && es != []
    ensures var n := |es| - 1;
            && Lays(es[..n], layout[..n])
            && DeclaredSize(es, layout) == DeclaredSize(es[..n], layout[..n]) + Size(es[n].ty, layout[n])
  {
    hide Shape, Abs, Size, DeclaredSize;
    var n := |es| - 1;
    DeclaredSizeOfMore(es, layout);
    if n == 0 {
      EmptyWire(LittleEndian, es[1..], layout[1..]);
      EmptyWire(LittleEndian, es[..0], layout[..0]);
    } else {
      DeclaredSizeOfLast(es[1..], layout[1..]);
      assert es[1..][..n - 1] == es[..n][1..] && layout[1..][..n - 1] == layout[..n][1..];
      DeclaredSizeOfMore(es[..n], layout[..n]);
    }
  }

  /** A clone has the size of the original. */
  lemma {:induction false} CloneKeepsSize(es: seq<Entry>, layout: seq<Image>)
    requires Lays(es, layout)
    ensures Lays(Cloned(es), Cloned(layout)) && DeclaredSize(Cloned(es), Cloned(layout)) == DeclaredSize(es, layout)
  {
    hide Shape, Abs, Size, DeclaredSize;
    CloneLayout(es, layout);
    if es == [] {
      EmptyWire(LittleEndian, es, layout);
      EmptyWire(LittleEndian, Reverse(es), Reverse(layout));
    } else {
      var n := |es| - 1;
      CloneKeepsSize(es[1..], layout[1..]);
      DeclaredSizeOfMore(es, layout);
      DeclaredSizeOfLast(Reverse(es), Reverse(layout));
      assert Reverse(es)[..n] == Reverse(es[1..]) && Reverse(layout)[..n] == Reverse(layout[1..]);
    }
  }

  /** Field `i` and the one as far from the other end. */
  predicate SameTypeAcross(es: seq<Entry>, i: nat)
    requires i < |es|
  {
    es[i].ty == es[|es| - 1 - i].ty
  }

  predicate SameValueAcross(es: seq<Entry>, i: nat)
    requires i < |es|
  {
    es[i].value == es[|es| - 1 - i].value
  }

  /** The types of the fields read the same backwards, as when all are of one type. */
  ghost predicate Mirrored(es: seq<Entry>) {
    forall i :: 0 <= i < |es| ==> SameTypeAcross(es, i)
  }

  ghost predicate ValuesMirrored(es: seq<Entry>) {
    forall i :: 0 <= i < |es| ==> SameValueAcross(es, i)
  }

  /** The fields with their values in the opposite order. */
  function ValuesReversed(es: seq<Entry>): (r: seq<Entry>)
    ensures |r| == |es|
  {
    seq(|es|, i requires 0 <= i < |es| => Entry(es[i].name, es[i].ty, es[|es| - 1 - i].value))
  }

  /**
   * The bytes of a clone are in the order of the clone. A message of the original's descriptor
   * that reads them, the types of the fields reading the same backwards, gets the values in the
   * opposite order: the right ones exactly when the values too read the same backwards. So in no
   * other case does a clone have the bytes of its original.
   */
  lemma CloneIsReadBackwards(
    w: Host, r: Host, es: seq<Entry>, layout: seq<Image>, target: seq<Entry>, rest: seq<byte>)
    requires Lays(es, layout) && Typed(es) && Mirrored(es)
    requires Typed(target) && Alike(es, target) && AllDefault(target)
    requires AllFit(es, layout)
    ensures Lays(Cloned(es), Cloned(layout))
    ensures ReadFields(r, target, Wire(w, Cloned(es), Cloned(layout)) + rest) == Got(ValuesReversed(es), rest)
    ensures ValuesReversed(es) == es <==> ValuesMirrored(es)
    ensures Wire(w, Cloned(es), Cloned(layout)) == Wire(w, es, layout) ==> ValuesMirrored(es)
  {
    hide *;
    CloneLayout(es, layout);
    ReversedLayout(es, layout);
    ReversedValues(es);
    AlikeReversed(es, target);
    SameTypesSameWire(w, Cloned(es), ValuesReversed(es), Cloned(layout));
    NewMessageReadsBack(w, r, ValuesReversed(es), Cloned(layout), target, rest);
    NewMessageReadsBack(w, r, es, layout, target, rest);
  }

  /** The fields at both ends, counted `i` from each, are written alike. */
  ghost predicate SameBytesAcross(h: Host, es: seq<Entry>, layout: seq<Image>, i: nat)
    requires Lays(es, layout) && i < |es|
  {
    Encode(h, es[i].ty, layout[i]) == Encode(h, es[|es| - 1 - i].ty, layout[|es| - 1 - i])
  }

  /** A clone has the bytes of its original exactly when the fields, written, read the same backwards. */
  lemma CloneHasSameBytesExactlyIf(h: Host, es: seq<Entry>, layout: seq<Image>)
    requires Lays(es, layout) && Typed(es) && Mirrored(es) && AllFit(es, layout)
    ensures Lays(Cloned(es), Cloned(layout))
    ensures Wire(h, Cloned(es), Cloned(layout)) == Wire(h, es, layout)
            <==> forall i :: 0 <= i < |es| ==> SameBytesAcross(h, es, layout, i)
  {
    CloneLayout(es, layout);
    ReversedLayout(es, layout);
    hide *;
    var back := ValuesReversed(es);
    SameTypesSameWire(h, Cloned(es), back, Cloned(layout));
    SameWireExactlyIf(h, es, layout, back, Cloned(layout));
    assert forall i :: 0 <= i < |es| ==>
      (SameBytesAcross(h, es, layout, i) <==> SameBytesAt(h, es, layout, back, Cloned(layout), i)) by {
      forall i | 0 <= i < |es|
        ensures SameBytesAcross(h, es, layout, i) <==> SameBytesAt(h, es, layout, back, Cloned(layout), i)
      {
        AcrossIsAt(h, es, layout, i);
      }
    }
  }

  /** So the bytes of a clone do differ: here those of a message with two bytes in it. */
  lemma CloneHasOtherBytes(h: Host) returns (es: seq<Entry>, layout: seq<Image>)
    ensures DistinctNames(es) && Typed(es) && Lays(es, layout) && Lays(Cloned(es), Cloned(layout))
    ensures Wire(h, Cloned(es), Cloned(layout)) != Wire(h, es, layout)
  {
    var ty := Scalar(K8);
    es := [Entry("a", ty, VScalar(I8(1))), Entry("b", ty, VScalar(I8(2)))];
    layout := [IScalar(I8(1)), IScalar(I8(2))];
    var target := [Entry("a", ty, Default(ty)), Entry("b", ty, Default(ty))];
    DifferentEnds(es);
    TwoBytes(es, layout, target);
    hide *;
    CloneIsReadBackwards(h, h, es, layout, target, []);
  }

  lemma DifferentEnds(es: seq<Entry>)
    requires |es| == 2 && es[0].value != es[1].value
    ensures !ValuesMirrored(es)
  {
    assert !SameValueAcross(es, 0);
  }

  lemma TwoBytes(es: seq<Entry>, layout: seq<Image>, target: seq<Entry>)
    requires |es| == 2 && |layout| == 2 && |target| == 2 && es[0].name != es[1].name
    requires forall i :: 0 <= i < 2 ==> es[i].ty == Scalar(K8) && layout[i].IScalar? && layout[i].scalar.I8?
    requires forall i :: 0 <= i < 2 ==> es[i].value == VScalar(layout[i].scalar)
    requires forall i :: 0 <= i < 2 ==> target[i] == Entry(es[i].name, Scalar(K8), Default(Scalar(K8)))
    ensures DistinctNames(es) && Typed(es) && Lays(es, layout) && AllFit(es, layout) && Mirrored(es)
    ensures Typed(target) && Alike(es, target) && AllDefault(target)
  {
  }

  lemma ReversedValues(es: seq<Entry>)
    ensures ValuesReversed(es) == es <==> ValuesMirrored(es)
  {
    var back := ValuesReversed(es);
    if back == es {
      forall i | 0 <= i < |es| ensures SameValueAcross(es, i) {
        assert back[i] == es[i];
      }
    }
    if ValuesMirrored(es) {
      forall i | 0 <= i < |es| ensures back[i] == es[i] {
        assert SameValueAcross(es, i);
      }
    }
  }

  lemma AlikeReversed(es: seq<Entry>, target: seq<Entry>)
    requires Alike(es, target)
    ensures Alike(ValuesReversed(es), target)
  {
  }

  /** The clone's bytes are also those of a message with the original's names and these values. */
  lemma ReversedLayout(es: seq<Entry>, layout: seq<Image>)
    requires Lays(es, layout) && Typed(es) && Mirrored(es) && AllFit(es, layout)
    ensures var back, l := ValuesReversed(es), Cloned(layout);
            && Lays(back, l) && Typed(back) && AllFit(back, l)
            && |Cloned(es)| == |es| && forall i :: 0 <= i < |es| ==> Cloned(es)[i].ty == back[i].ty
  {
    hide Shape, Abs, HasType, CountsFit;
    var n, back, l := |es|, ValuesReversed(es), Reverse(layout);
    forall i | 0 <= i < n
      ensures Shape(back[i].ty, l[i]) && Abs(back[i].ty, l[i]) == back[i].value
      ensures HasType(back[i].ty, back[i].value) && CountsFit(back[i].ty, l[i])
      ensures Cloned(es)[i].ty == back[i].ty
    {
      assert SameTypeAcross(es, i);
      assert l[i] == layout[n - 1 - i] && back[i].ty == es[n - 1 - i].ty;
    }
  }

  /** Names are not transmitted. */
  lemma {:induction false} SameTypesSameWire(h: Host, es: seq<Entry>, es': seq<Entry>, layout: seq<Image>)
    requires Lays(es, layout) && Lays(es', layout)
    requires forall i :: 0 <= i < |es| ==> es[i].ty == es'[i].ty
    ensures Wire(h, es, layout) == Wire(h, es', layout)
  {
    hide Shape, Abs, Wire, Encode;
    if es == [] {
      EmptyWire(h, es, layout);
      EmptyWire(h, es', layout);
    } else {
      WireOfMore(h, es, layout);
      WireOfMore(h, es', layout);
      SameTypesSameWire(h, es[1..], es'[1..], layout[1..]);
    }
  }

  /** The fields at one position of two messages are written alike. */
  ghost predicate SameBytesAt(
    h: Host, es: seq<Entry>, layout: seq<Image>, es': seq<Entry>, layout': seq<Image>, i: nat)
    requires Lays(es, layout) && Lays(es', layout') && i < |es| && i < |es'|
  {
    Encode(h, es[i].ty, layout[i]) == Encode(h, es'[i].ty, layout'[i])
  }

  ghost predicate SameTypes(es: seq<Entry>, es': seq<Entry>) {
    |es| == |es'| && forall i :: 0 <= i < |es| ==> es[i].ty == es'[i].ty
  }

  lemma AcrossIsAt(h: Host, es: seq<Entry>, layout: seq<Image>, i: nat)
    requires Lays(es, layout) && Mirrored(es) && i < |es|
    requires Lays(ValuesReversed(es), Cloned(layout))
    ensures SameBytesAcross(h, es, layout, i)
            <==> SameBytesAt(h, es, layout, ValuesReversed(es), Cloned(layout), i)
  {
    hide Encode, Shape, Abs;
    assert SameTypeAcross(es, i);
    assert Reverse(layout)[i] == layout[|es| - 1 - i];
  }

  /** Bytes in which the fields follow one another are the same exactly when they are so field by field. */
  lemma {:induction false} SameWireExactlyIf(
    h: Host, es: seq<Entry>, layout: seq<Image>, es': seq<Entry>, layout': seq<Image>)
    requires Lays(es, layout) && Lays(es', layout') && SameTypes(es, es')
    requires AllFit(es, layout) && AllFit(es', layout')
    ensures Wire(h, es, layout) == Wire(h, es', layout')
            <==> forall i :: 0 <= i < |es| ==> SameBytesAt(h, es, layout, es', layout', i)
  {
    hide Shape, Abs, Wire, Encode, CountsFit;
    if es == [] {
      EmptyWire(h, es, layout);
      EmptyWire(h, es', layout');
    } else {
      var front, front' := Encode(h, es[0].ty, layout[0]), Encode(h, es'[0].ty, layout'[0]);
      WireOfMore(h, es, layout);
      WireOfMore(h, es', layout');
      SameWireExactlyIf(h, es[1..], layout[1..], es'[1..], layout'[1..]);
      if Wire(h, es, layout) == Wire(h, es', layout') {
        var more, more' := Wire(h, es[1..], layout[1..]), Wire(h, es'[1..], layout'[1..]);
        PrefixFree(h, h, es[0].ty, layout[0], layout'[0], more, more');
        SameFront(front, front', more);
      }
      SameBytesOfMore(h, es, layout, es', layout');
    }
  }

  lemma SameBytesOfMore(h: Host, es: seq<Entry>, layout: seq<Image>, es': seq<Entry>, layout': seq<Image>)
    requires Lays(es, layout) && Lays(es', layout') && SameTypes(es, es') && es != []
    ensures (forall i :: 0 <= i < |es| ==> SameBytesAt(h, es, layout, es', layout', i))
            <==> && Encode(h, es[0].ty, layout[0]) == Encode(h, es'[0].ty, layout'[0])
                 && forall i :: 0 <= i < |es[1..]| ==>
                      SameBytesAt(h, es[1..], layout[1..], es'[1..], layout'[1..], i)
  {
    hide Encode, Shape, Abs;
    if forall i :: 0 <= i < |es| ==> SameBytesAt(h, es, layout, es', layout', i) {
      assert SameBytesAt(h, es, layout, es', layout', 0);
      forall i | 0 <= i < |es[1..]|
        ensures SameBytesAt(h, es[1..], layout[1..], es'[1..], layout'[1..], i)
      {
        assert SameBytesAt(h, es, layout, es', layout', i + 1);
      }
    } else {
      var i :| 0 <= i < |es| && !SameBytesAt(h, es, layout, es', layout', i);
      assert i == 0 || !SameBytesAt(h, es[1..], layout[1..], es'[1..], layout'[1..], i - 1);
    }
  }

  lemma SameFront(front: seq<byte>, front': seq<byte>, rest: seq<byte>)
    requires front + rest == front' + rest
    ensures front == front'
  {
    assert |front| == |front'|;
    assert front == (front + rest)[..|front|];
  }

  // ----- Size ---------------------------------------------------------------------------------

  /** A message declares the size of its bytes. */
  lemma WireSize(h: Host, es: seq<Entry>, layout: seq<Image>)
    requires Lays(es, layout)
    ensures |Wire(h, es, layout)| == DeclaredSize(es, layout)
  {
    LayoutIsImage(es, layout);
    SizeIsExact(h, TyOf(es), ImageOf(layout));
  }
}
