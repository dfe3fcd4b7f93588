/** What holds of the codec for every type, value, host and previous content of the target. */
module CodecProofs {
  import opened Common
  import opened Bytes
  import opened Codec

  // ----- Declared size ------------------------------------------------------------------------

  /** `size(value)` is the number of bytes `serialize` writes. */
  lemma {:induction false} SizeIsExact(h: Host, ty: Ty, img: Image)
    requires Shape(ty, img)
    ensures |Encode(h, ty, img)| == Size(ty, img)
    decreases ty, 0
  {
    match ty {
      case Scalar(_) =>
      case Boolean =>
      case Empty =>
      case Pair(a, b) =>
        SizeIsExact(h, a, img.first);
        SizeIsExact(h, b, img.second);
      case Optional(t) =>
        if img.ISome? {
          SizeIsExact(h, t, img.value);
        }
      case Container(_, t) =>
        AccumulateIsExact(h, t, img.items, 2);
    }
  }

  lemma {:induction false} AccumulateIsExact(h: Host, ty: Ty, items: seq<Image>, sum: nat)
    requires Shapes(ty, items)
    ensures Accumulate(ty, items, sum) == sum + |EncodeAll(h, ty, items)|
    decreases ty, 1, |items|
  {
    hide Encode, Size, Shape;
    if items == [] {
    } else {
      SizeIsExact(h, ty, items[0]);
      AccumulateIsExact(h, ty, items[1..], sum + Size(ty, items[0]));
    }
  }

  // ----- Byte order ---------------------------------------------------------------------------

  /** Hosts of both byte orders write the same bytes. */
  lemma {:induction false} EncodeIgnoresHost(h: Host, h': Host, ty: Ty, img: Image)
    requires Shape(ty, img)
    ensures Encode(h, ty, img) == Encode(h', ty, img)
    decreases ty, 0
  {
    match ty {
      case Scalar(_) =>
        StoreIgnoresHost(h, img.scalar);
        StoreIgnoresHost(h', img.scalar);
      case Boolean =>
      case Empty =>
      case Pair(a, b) =>
        EncodeIgnoresHost(h, h', a, img.first);
        EncodeIgnoresHost(h, h', b, img.second);
      case Optional(t) =>
        if img.ISome? {
          EncodeIgnoresHost(h, h', t, img.value);
        }
      case Container(_, t) =>
        var n := I16(ToCount(|img.items|));
        StoreIgnoresHost(h, n);
        StoreIgnoresHost(h', n);
        EncodeAllIgnoresHost(h, h', t, img.items);
    }
  }

  lemma {:induction false} EncodeAllIgnoresHost(h: Host, h': Host, ty: Ty, items: seq<Image>)
    requires Shapes(ty, items)
    ensures EncodeAll(h, ty, items) == EncodeAll(h', ty, items)
    decreases ty, 1, |items|
  {
    hide Encode, Shape;
    if items == [] {
    } else {
      EncodeIgnoresHost(h, h', ty, items[0]);
      EncodeAllIgnoresHost(h, h', ty, items[1..]);
    }
  }

  // ----- What decoding leaves in the target ---------------------------------------------------

  /** No container, at any depth, has more items than a 16-bit count can say. */
  ghost predicate CountsFit(ty: Ty, img: Image)
    requires Shape(ty, img)
    decreases ty, 0
  {
    match ty
    case Scalar(_) => true
    case Boolean => true
    case Empty => true
    case Pair(a, b) => CountsFit(a, img.first) && CountsFit(b, img.second)
    case Optional(t) => img.ISome? ==> CountsFit(t, img.value)
    case Container(_, t) => |img.items| <= 65535 && AllCountsFit(t, img.items)
  }

  ghost predicate AllCountsFit(ty: Ty, items: seq<Image>)
    requires Shapes(ty, items)
    decreases ty, 1
  {
    forall i :: 0 <= i < |items| ==> CountsFit(ty, items[i])
  }

  /**
   * The target after decoding an object over it. Decoding an absent optional does not reset the
   * target, and a resized sequence keeps its first items; everything else is overwritten.
   */
  function Overlay(ty: Ty, target: Val, img: Image): Val
    requires Shape(ty, img) && HasType(ty, target)
    decreases ty, 0
  {
    match ty
    case Pair(a, b) => VPair(Overlay(a, target.first, img.first), Overlay(b, target.second, img.second))
    case Optional(_) => if img.ISome? then Abs(ty, img) else target
    case Container(form, t) => Collect(form, OverlayAll(t, Slots(form, t, target, |img.items|), img.items))
    case _ => Abs(ty, img)
  }

  function OverlayAll(ty: Ty, targets: seq<Val>, items: seq<Image>): (vs: seq<Val>)
    requires Shapes(ty, items) && HaveType(ty, targets) && |targets| == |items|
    ensures |vs| == |items|
    ensures forall i :: 0 <= i < |items| ==> vs[i] == Overlay(ty, targets[i], items[i])
    decreases ty, 1
  {
    seq(|items|, i requires 0 <= i < |items| => Overlay(ty, targets[i], items[i]))
  }

  /** Containers whose items are read into the items they already have. */
  predicate InPlace(form: Form) {
    form.Sequence? || form.Array?
  }

  /**
   * When the old content of the target does not show through: wherever the object has an absent
   * optional outside every optional, set and map, the target must have an absent one too. Items
   * that `resize` adds to a sequence are fresh, and so cannot disturb.
   */
  ghost predicate Clean(ty: Ty, target: Val, img: Image)
    requires Shape(ty, img) && HasType(ty, target)
    decreases ty, 0
  {
    match ty
    case Pair(a, b) => Clean(a, target.first, img.first) && Clean(b, target.second, img.second)
    case Optional(_) => img.INone? ==> target.VNone?
    case Container(form, t) => InPlace(form) ==> AllClean(t, target.items, img.items)
    case _ => true
  }

  ghost predicate AllClean(ty: Ty, targets: seq<Val>, items: seq<Image>)
    requires Shapes(ty, items) && HaveType(ty, targets)
    decreases ty, 1
  {
    forall i :: 0 <= i < |items| && i < |targets| ==> Clean(ty, targets[i], items[i])
  }

  lemma {:induction false} DefaultIsClean(ty: Ty, img: Image)
    requires Shape(ty, img)
    ensures Clean(ty, Default(ty), img)
  {
    match ty {
      case Pair(a, b) =>
        DefaultIsClean(a, img.first);
        DefaultIsClean(b, img.second);
      case Container(Array(n), t) =>
        forall i | 0 <= i < n ensures Clean(t, Default(t), img.items[i]) {
          DefaultIsClean(t, img.items[i]);
        }
      case _ =>
    }
  }

  /** The target ends up holding the value of the object exactly when it was clean. */
  lemma {:induction false} OverlayIsValue(ty: Ty, target: Val, img: Image)
    requires Shape(ty, img) && HasType(ty, target)
    ensures Overlay(ty, target, img) == Abs(ty, img) <==> Clean(ty, target, img)
    decreases ty, 0
  {
    match ty {
      case Pair(a, b) =>
        OverlayIsValue(a, target.first, img.first);
        OverlayIsValue(b, target.second, img.second);
      case Container(form, t) =>
        OverlayAllIsValue(t, Slots(form, t, target, |img.items|), img.items);
        SlotsAreClean(form, t, target, img.items);
      case _ =>
    }
  }

  lemma SlotsAreClean(form: Form, ty: Ty, target: Val, items: seq<Image>)
    requires Shapes(ty, items) && HasType(Container(form, ty), target) && CountAccepted(form, |items|)
    ensures AllClean(ty, Slots(form, ty, target, |items|), items)
       <==> (InPlace(form) ==> AllClean(ty, target.items, items))
  {
    hide Clean, Shape;
    var slots := Slots(form, ty, target, |items|);
    forall i | 0 <= i < |items| && slots[i] == Default(ty) ensures Clean(ty, slots[i], items[i]) {
      DefaultIsClean(ty, items[i]);
    }
    if InPlace(form) && AllClean(ty, slots, items) {
      forall i | 0 <= i < |items| && i < |target.items| ensures Clean(ty, target.items[i], items[i]) {
        assert slots[i] == target.items[i];
      }
    }
  }

  lemma {:induction false} OverlayAllIsValue(ty: Ty, targets: seq<Val>, items: seq<Image>)
    requires Shapes(ty, items) && HaveType(ty, targets) && |targets| == |items|
    ensures OverlayAll(ty, targets, items) == AbsAll(ty, items) <==> AllClean(ty, targets, items)
    decreases ty, 1
  {
    hide Overlay, Abs, Clean, Shape, HasType;
    forall i | 0 <= i < |items|
      ensures Overlay(ty, targets[i], items[i]) == Abs(ty, items[i]) <==> Clean(ty, targets[i], items[i])
    {
      OverlayIsValue(ty, targets[i], items[i]);
    }
    var o, a := OverlayAll(ty, targets, items), AbsAll(ty, items);
    if AllClean(ty, targets, items) {
      assert forall i :: 0 <= i < |items| ==> o[i] == a[i];
    }
    if o == a {
      forall i | 0 <= i < |items| ensures Clean(ty, targets[i], items[i]) {
        assert o[i] == a[i];
      }
    }
  }

  lemma OverlayOfDefault(ty: Ty, img: Image)
    requires Shape(ty, img)
    ensures Overlay(ty, Default(ty), img) == Abs(ty, img)
  {
    DefaultIsClean(ty, img);
    OverlayIsValue(ty, Default(ty), img);
  }

  // ----- Decoding what was encoded ------------------------------------------------------------

  lemma DecodeScalarOfStore(w: Host, r: Host, v: Bytes.Scalar, rest: seq<byte>)
    ensures DecodeScalar(r, v.Kind(), Store(w, v) + rest) == Got(v, rest)
  {
    var bs := Store(w, v);
    assert (bs + rest)[..|bs|] == bs && (bs + rest)[|bs|..] == rest;
    LoadOfStore(w, r, v);
  }

  lemma DecodeCountOfEncode(w: Host, r: Host, n: nat, rest: seq<byte>)
    ensures DecodeCount(r, EncodeCount(w, n) + rest) == Got(n % 65536, rest)
  {
    DecodeScalarOfStore(w, r, I16(ToCount(n)), rest);
    CountCast(n);
  }

  lemma DecodeBoolOfEncode(b: bool, rest: seq<byte>)
    ensures DecodeBool(EncodeBool(b) + rest) == Got(b, rest)
  {
    assert (EncodeBool(b) + rest)[1..] == rest;
  }

  /** Decoding consumes exactly the encoding and lays the object over the target. */
  lemma {:induction false} DecodeOfEncode(w: Host, r: Host, ty: Ty, target: Val, img: Image, rest: seq<byte>)
    requires Shape(ty, img) && CountsFit(ty, img) && HasType(ty, target)
    ensures Decode(r, ty, target, Encode(w, ty, img) + rest) == Got(Overlay(ty, target, img), rest)
    decreases ty, 0, 1
  {
    if ty.Pair? {
      DecodeOfEncodedPair(w, r, ty, target, img, rest);
    } else if ty.Optional? {
      DecodeOfEncodedOptional(w, r, ty, target, img, rest);
    } else if ty.Container? {
      DecodeOfEncodedContainer(w, r, ty.form, ty.item, target, img, rest);
    } else {
      DecodeOfEncodedLeaf(w, r, ty, target, img, rest);
    }
  }

  lemma DecodeOfEncodedLeaf(w: Host, r: Host, ty: Ty, target: Val, img: Image, rest: seq<byte>)
    requires ty.Scalar? || ty.Boolean? || ty.Empty?
    requires Shape(ty, img) && HasType(ty, target)
    ensures Decode(r, ty, target, Encode(w, ty, img) + rest) == Got(Overlay(ty, target, img), rest)
  {
    match ty {
      case Scalar(_) => DecodeScalarOfStore(w, r, img.scalar, rest);
      case Boolean => DecodeBoolOfEncode(img.flag, rest);
      case Empty => assert [] + rest == rest;
    }
  }

  lemma EncodedPair(w: Host, a: Ty, b: Ty, img: Image, rest: seq<byte>)
    requires Shape(Pair(a, b), img)
    ensures Encode(w, Pair(a, b), img) + rest == Encode(w, a, img.first) + (Encode(w, b, img.second) + rest)
  {
    var x, y := Encode(w, a, img.first), Encode(w, b, img.second);
    assert x + y + rest == x + (y + rest);
  }

  lemma DecodePair(r: Host, a: Ty, b: Ty, target: Val, bs: seq<byte>, x: Val, rest: seq<byte>)
    requires HasType(Pair(a, b), target) && Decode(r, a, target.first, bs) == Got(x, rest)
    ensures var d := Decode(r, b, target.second, rest);
            Decode(r, Pair(a, b), target, bs) == if d.Got? then Got(VPair(x, d.value), d.rest) else Fail
  {
  }

  lemma {:induction false} DecodeOfEncodedPair(w: Host, r: Host, ty: Ty, target: Val, img: Image, rest: seq<byte>)
    requires ty.Pair? && Shape(ty, img) && CountsFit(ty, img) && HasType(ty, target)
    ensures Decode(r, ty, target, Encode(w, ty, img) + rest) == Got(Overlay(ty, target, img), rest)
    decreases ty, 0, 0
  {
    hide Decode, Encode;
    var a, b := ty.first, ty.second;
    var x, y := Encode(w, a, img.first), Encode(w, b, img.second);
    EncodedPair(w, a, b, img, rest);
    DecodeOfEncode(w, r, a, target.first, img.first, y + rest);
    DecodeOfEncode(w, r, b, target.second, img.second, rest);
    DecodePair(r, a, b, target, x + (y + rest), Overlay(a, target.first, img.first), y + rest);
  }

  lemma {:induction false} DecodeOfEncodedOptional(w: Host, r: Host, ty: Ty, target: Val, img: Image, rest: seq<byte>)
    requires ty.Optional? && Shape(ty, img) && CountsFit(ty, img) && HasType(ty, target)
    ensures Decode(r, ty, target, Encode(w, ty, img) + rest) == Got(Overlay(ty, target, img), rest)
    decreases ty, 0, 0
  {
    if img.ISome? {
      var t := ty.inner;
      var x := Encode(w, t, img.value);
      assert Encode(w, ty, img) + rest == EncodeBool(true) + (x + rest) by {
        assert EncodeBool(true) + x + rest == EncodeBool(true) + (x + rest);
      }
      DecodeBoolOfEncode(true, x + rest);
      DecodeOfEncode(w, r, t, Default(t), img.value, rest);
      OverlayOfDefault(t, img.value);
    } else {
      DecodeBoolOfEncode(false, rest);
    }
  }

  /** What the shape of a container says about its items. */
  lemma ContainerParts(form: Form, ty: Ty, img: Image)
    requires Shape(Container(form, ty), img)
    ensures img.IItems? && Shapes(ty, img.items) && CountAccepted(form, |img.items|)
    ensures Abs(Container(form, ty), img) == Collect(form, AbsAll(ty, img.items))
    ensures CountsFit(Container(form, ty), img) <==> |img.items| <= 65535 && AllCountsFit(ty, img.items)
  {
  }

  lemma OverlayContainer(form: Form, ty: Ty, target: Val, img: Image)
    requires Shape(Container(form, ty), img) && HasType(Container(form, ty), target)
    ensures Overlay(Container(form, ty), target, img)
         == Collect(form, OverlayAll(ty, Slots(form, ty, target, |img.items|), img.items))
  {
  }

  lemma EncodedContainer(w: Host, form: Form, ty: Ty, img: Image, rest: seq<byte>)
    requires Shape(Container(form, ty), img)
    ensures Encode(w, Container(form, ty), img) + rest
         == EncodeCount(w, |img.items|) + (EncodeAll(w, ty, img.items) + rest)
  {
    hide EncodeAll, EncodeCount;
    var head, body := EncodeCount(w, |img.items|), EncodeAll(w, ty, img.items);
    assert head + body + rest == head + (body + rest);
  }

  lemma DecodeContainer(r: Host, form: Form, ty: Ty, target: Val, bs: seq<byte>, n: nat, rest: seq<byte>)
    requires HasType(Container(form, ty), target) && CountAccepted(form, n)
    requires DecodeCount(r, bs) == Got(n, rest)
    ensures var d := DecodeInto(r, ty, Slots(form, ty, target, n), rest);
            Decode(r, Container(form, ty), target, bs) == if d.Got? then Got(Collect(form, d.value), d.rest) else Fail
  {
    hide DecodeCount, DecodeInto, Slots, Collect;
  }

  lemma {:induction false} DecodeOfEncodedContainer(
    w: Host, r: Host, form: Form, ty: Ty, target: Val, img: Image, rest: seq<byte>)
    requires Shape(Container(form, ty), img) && CountsFit(Container(form, ty), img)
    requires HasType(Container(form, ty), target)
    ensures Decode(r, Container(form, ty), target, Encode(w, Container(form, ty), img) + rest)
         == Got(Overlay(Container(form, ty), target, img), rest)
    decreases Container(form, ty), 0, 0
  {
    hide *;
    ContainerParts(form, ty, img);
    OverlayContainer(form, ty, target, img);
    var n, body := |img.items|, EncodeAll(w, ty, img.items);
    EncodedContainer(w, form, ty, img, rest);
    DecodeCountOfEncode(w, r, n, body + rest);
    DecodeIntoOfEncodeAll(w, r, ty, Slots(form, ty, target, n), img.items, rest);
    DecodeContainer(r, form, ty, target, EncodeCount(w, n) + (body + rest), n, body + rest);
  }

  lemma DecodeIntoCons(r: Host, ty: Ty, slots: seq<Val>, bs: seq<byte>, v: Val, rest: seq<byte>)
    requires HaveType(ty, slots) && slots != []
    requires Decode(r, ty, slots[0], bs) == Got(v, rest)
    ensures var d := DecodeInto(r, ty, slots[1..], rest);
            DecodeInto(r, ty, slots, bs) == if d.Got? then Got([v] + d.value, d.rest) else Fail
  {
    hide Decode, HasType;
  }

  lemma OverlayAllCons(ty: Ty, targets: seq<Val>, items: seq<Image>)
    requires Shapes(ty, items) && HaveType(ty, targets) && |targets| == |items| > 0
    ensures OverlayAll(ty, targets, items)
         == [Overlay(ty, targets[0], items[0])] + OverlayAll(ty, targets[1..], items[1..])
  {
    hide Overlay, HasType, Shape;
  }

  lemma {:induction false} DecodeIntoOfEncodeAll(
    w: Host, r: Host, ty: Ty, slots: seq<Val>, items: seq<Image>, rest: seq<byte>)
    requires Shapes(ty, items) && AllCountsFit(ty, items) && HaveType(ty, slots) && |slots| == |items|
    ensures DecodeInto(r, ty, slots, EncodeAll(w, ty, items) + rest) == Got(OverlayAll(ty, slots, items), rest)
    decreases ty, 1, |items|
  {
    hide Decode, Encode, Overlay, Shape, CountsFit, HasType;
    if items == [] {
      assert [] + rest == rest;
    } else {
      var x, xs := Encode(w, ty, items[0]), EncodeAll(w, ty, items[1..]);
      assert EncodeAll(w, ty, items) + rest == x + (xs + rest) by {
        assert x + xs + rest == x + (xs + rest);
      }
      DecodeOfEncode(w, r, ty, slots[0], items[0], xs + rest);
      DecodeIntoOfEncodeAll(w, r, ty, slots[1..], items[1..], rest);
      DecodeIntoCons(r, ty, slots, x + (xs + rest), Overlay(ty, slots[0], items[0]), xs + rest);
      OverlayAllCons(ty, slots, items);
    }
  }

  // ----- Oversized containers -----------------------------------------------------------------

  lemma {:induction false} InsertAllSource(m: map<Val, Val>, vs: seq<Val>, k: Val)
    requires k in InsertAll(m, vs) && k !in m
    ensures VPair(k, InsertAll(m, vs)[k]) in vs
    decreases |vs|
  {
    if vs == [] {
    } else {
      var m' := if vs[0].VPair? && vs[0].first !in m then m[vs[0].first := vs[0].second] else m;
      assert InsertAll(m, vs) == InsertAll(m', vs[1..]);
      if k in m' {
        InsertAllKeeps(m', vs[1..], k);
      } else {
        InsertAllSource(m', vs[1..], k);
      }
    }
  }

  lemma {:induction false} InsertAllKeeps(m: map<Val, Val>, vs: seq<Val>, k: Val)
    requires k in m
    ensures k in InsertAll(m, vs) && InsertAll(m, vs)[k] == m[k]
    decreases |vs|
  {
    if vs == [] {
    } else {
      var m' := if vs[0].VPair? && vs[0].first !in m then m[vs[0].first := vs[0].second] else m;
      InsertAllKeeps(m', vs[1..], k);
    }
  }

  lemma {:induction false} InsertAllSize(m: map<Val, Val>, vs: seq<Val>)
    ensures |InsertAll(m, vs)| <= |m| + |vs|
    decreases |vs|
  {
    if vs == [] {
    } else {
      var m' := if vs[0].VPair? && vs[0].first !in m then m[vs[0].first := vs[0].second] else m;
      InsertAllSize(m', vs[1..]);
    }
  }

  /** Pairs with different keys are all inserted. */
  lemma {:induction false} InsertAllOfDistinct(m: map<Val, Val>, vs: seq<Val>)
    requires FreshPairs(m, vs)
    ensures |InsertAll(m, vs)| == |m| + |vs|
    ensures forall v :: v in vs ==> v.first in InsertAll(m, vs) && InsertAll(m, vs)[v.first] == v.second
    decreases |vs|
  {
    if vs == [] {
    } else {
      var m' := m[vs[0].first := vs[0].second];
      InsertAllOfDistinct(m', vs[1..]);
      InsertAllKeeps(m', vs[1..], vs[0].first);
      forall v | v in vs ensures v.first in InsertAll(m, vs) && InsertAll(m, vs)[v.first] == v.second {
        assert v == vs[0] || v in vs[1..];
      }
    }
  }

  lemma {:induction false} KeySetSize(vs: seq<Val>)
    ensures |KeySet(vs)| <= |vs|
    ensures (forall i, j :: 0 <= i < j < |vs| ==> vs[i] != vs[j]) ==> |KeySet(vs)| == |vs|
  {
    if vs == [] {
    } else {
      KeySetSize(vs[1..]);
      assert KeySet(vs) == {vs[0]} + KeySet(vs[1..]);
    }
  }

  /** A container has as many items as its value, and the value of each of its items is in it. */
  lemma CollectHasItems(form: Form, own: seq<Val>, vs: seq<Val>)
    requires DistinctKeys(form, own) && Collect(form, vs) == Collect(form, own)
    ensures |own| <= |vs|
    ensures forall v :: v in own ==> v in vs
  {
    match form {
      case Sequence =>
      case Array(_) =>
      case Set =>
        KeySetSize(vs);
        KeySetSize(own);
        forall v | v in own ensures v in vs {
          assert v in KeySet(own);
        }
      case Map =>
        InsertAllOfDistinct(map[], own);
        InsertAllSize(map[], vs);
        forall v | v in own ensures v in vs {
          InsertAllSource(map[], vs, v.first);
        }
    }
  }

  /** No input yields, in a fresh target, a value that has an oversized container in it. */
  lemma {:induction false} OversizedIsNeverRead(r: Host, ty: Ty, img: Image, bs: seq<byte>)
    requires Shape(ty, img) && !CountsFit(ty, img)
    ensures var d := Decode(r, ty, Default(ty), bs); d.Got? ==> d.value != Abs(ty, img)
    decreases ty, 0, 1
  {
    match ty {
      case Pair(a, b) =>
        var d := Decode(r, a, Default(a), bs);
        if !CountsFit(a, img.first) {
          OversizedIsNeverRead(r, a, img.first, bs);
        } else if d.Got? {
          OversizedIsNeverRead(r, b, img.second, d.rest);
        }
      case Optional(t) =>
        var d := DecodeBool(bs);
        if d.Got? {
          OversizedIsNeverRead(r, t, img.value, d.rest);
        }
      case Container(form, t) =>
        OversizedContainerIsNeverRead(r, form, t, Default(ty), img, bs);
      case _ =>
    }
  }

  /** The same of a container whose items are read into fresh slots, or that is itself oversized. */
  lemma {:induction false} OversizedContainerIsNeverRead(
    r: Host, form: Form, ty: Ty, target: Val, img: Image, bs: seq<byte>)
    requires Shape(Container(form, ty), img) && !CountsFit(Container(form, ty), img)
    requires HasType(Container(form, ty), target)
    requires target == Default(Container(form, ty)) || !InPlace(form) || |img.items| > 65535
    ensures var d := Decode(r, Container(form, ty), target, bs); d.Got? ==> d.value != Abs(Container(form, ty), img)
    decreases Container(form, ty), 0, 0
  {
    hide DecodeCount, DecodeInto, Collect, AbsAll;
    var count := DecodeCount(r, bs);
    if count.Got? && CountAccepted(form, count.value) {
      DecodeCountBound(r, bs);
      var slots := Slots(form, ty, target, count.value);
      DecodeContainer(r, form, ty, target, bs, count.value, count.rest);
      var d := DecodeInto(r, ty, slots, count.rest);
      if d.Got? && Collect(form, d.value) == Collect(form, AbsAll(ty, img.items)) {
        CollectHasItems(form, AbsAll(ty, img.items), d.value);
        var j :| 0 <= j < |img.items| && !CountsFit(ty, img.items[j]);
        assert AbsAll(ty, img.items)[j] == Abs(ty, img.items[j]);
        OversizedIsNeverReadInto(r, ty, slots, img.items[j], count.rest);
        assert false;
      }
    }
  }

  lemma {:induction false} OversizedIsNeverReadInto(r: Host, ty: Ty, slots: seq<Val>, img: Image, bs: seq<byte>)
    requires slots == Defaults(ty, |slots|)
    requires Shape(ty, img) && !CountsFit(ty, img)
    ensures var d := DecodeInto(r, ty, slots, bs); d.Got? ==> Abs(ty, img) !in d.value
    decreases ty, 1, |slots|
  {
    hide Decode, Shape, CountsFit, HasType, Abs, Default;
    if slots == [] {
    } else {
      var d := Decode(r, ty, slots[0], bs);
      OversizedIsNeverRead(r, ty, img, bs);
      if d.Got? {
        OversizedIsNeverReadInto(r, ty, slots[1..], img, d.rest);
        DecodeIntoCons(r, ty, slots, bs, d.value, d.rest);
      }
    }
  }

  /** The encoding of an object with an oversized container is not read back, into any target. */
  lemma {:induction false} OversizedIsNotRestored(
    w: Host, r: Host, ty: Ty, target: Val, img: Image, rest: seq<byte>)
    requires Shape(ty, img) && HasType(ty, target) && !CountsFit(ty, img)
    ensures var d := Decode(r, ty, target, Encode(w, ty, img) + rest); d.Got? ==> d.value != Abs(ty, img)
    decreases ty, 0, 1
  {
    match ty {
      case Pair(_, _) =>
        OversizedPairIsNotRestored(w, r, ty, target, img, rest);
      case Optional(t) =>
        var x := Encode(w, t, img.value);
        assert Encode(w, ty, img) + rest == EncodeBool(true) + (x + rest) by {
          assert EncodeBool(true) + x + rest == EncodeBool(true) + (x + rest);
        }
        DecodeBoolOfEncode(true, x + rest);
        OversizedIsNeverRead(r, t, img.value, x + rest);
      case Container(form, t) =>
        if InPlace(form) && |img.items| <= 65535 {
          OversizedItemIsNotRestored(w, r, form, t, target, img, rest);
        } else {
          OversizedContainerIsNeverRead(r, form, t, target, img, Encode(w, ty, img) + rest);
        }
      case _ =>
    }
  }

  lemma {:induction false} OversizedPairIsNotRestored(
    w: Host, r: Host, ty: Ty, target: Val, img: Image, rest: seq<byte>)
    requires ty.Pair? && Shape(ty, img) && HasType(ty, target) && !CountsFit(ty, img)
    ensures var d := Decode(r, ty, target, Encode(w, ty, img) + rest); d.Got? ==> d.value != Abs(ty, img)
    decreases ty, 0, 0
  {
    var a, b := ty.first, ty.second;
    var x, y := Encode(w, a, img.first), Encode(w, b, img.second);
    EncodedPair(w, a, b, img, rest);
    if CountsFit(a, img.first) {
      DecodeOfEncode(w, r, a, target.first, img.first, y + rest);
      DecodePair(r, a, b, target, x + (y + rest), Overlay(a, target.first, img.first), y + rest);
      OversizedIsNotRestored(w, r, b, target.second, img.second, rest);
    } else {
      OversizedIsNotRestored(w, r, a, target.first, img.first, y + rest);
    }
  }

  lemma {:induction false} OversizedItemIsNotRestored(
    w: Host, r: Host, form: Form, ty: Ty, target: Val, img: Image, rest: seq<byte>)
    requires InPlace(form) && Shape(Container(form, ty), img) && HasType(Container(form, ty), target)
    requires |img.items| <= 65535 && !CountsFit(Container(form, ty), img)
    ensures var d := Decode(r, Container(form, ty), target, Encode(w, Container(form, ty), img) + rest);
            d.Got? ==> d.value != Abs(Container(form, ty), img)
    decreases Container(form, ty), 0, 0
  {
    hide *;
    ContainerParts(form, ty, img);
    var n, body := |img.items|, EncodeAll(w, ty, img.items);
    EncodedContainer(w, form, ty, img, rest);
    DecodeCountOfEncode(w, r, n, body + rest);
    DecodeContainer(r, form, ty, target, EncodeCount(w, n) + (body + rest), n, body + rest);
    OversizedIsNotRestoredInto(w, r, ty, Slots(form, ty, target, n), img.items, rest);
    var d := DecodeInto(r, ty, Slots(form, ty, target, n), body + rest);
    if d.Got? {
      CollectInPlace(form, d.value, AbsAll(ty, img.items));
    }
  }

  lemma CollectInPlace(form: Form, vs: seq<Val>, vs': seq<Val>)
    requires InPlace(form) && vs != vs'
    ensures Collect(form, vs) != Collect(form, vs')
  {
  }

  lemma {:induction false} OversizedIsNotRestoredInto(
    w: Host, r: Host, ty: Ty, slots: seq<Val>, items: seq<Image>, rest: seq<byte>)
    requires Shapes(ty, items) && HaveType(ty, slots) && |slots| == |items| && !AllCountsFit(ty, items)
    ensures var d := DecodeInto(r, ty, slots, EncodeAll(w, ty, items) + rest);
            d.Got? ==> d.value != AbsAll(ty, items)
    decreases ty, 1, |items|
  {
    hide Decode, Encode, Shape, CountsFit, HasType, Abs, Overlay;
    var x, xs := Encode(w, ty, items[0]), EncodeAll(w, ty, items[1..]);
    var bs := EncodeAll(w, ty, items) + rest;
    assert bs == x + (xs + rest) by {
      assert x + xs + rest == x + (xs + rest);
    }
    if CountsFit(ty, items[0]) {
      DecodeOfEncode(w, r, ty, slots[0], items[0], xs + rest);
      OversizedIsNotRestoredInto(w, r, ty, slots[1..], items[1..], rest);
      DecodeIntoCons(r, ty, slots, bs, Overlay(ty, slots[0], items[0]), xs + rest);
      assert AbsAll(ty, items)[1..] == AbsAll(ty, items[1..]);
    } else {
      OversizedIsNotRestored(w, r, ty, slots[0], items[0], xs + rest);
    }
  }

  lemma DecodeCountBound(r: Host, bs: seq<byte>)
    ensures var d := DecodeCount(r, bs); d.Got? ==> d.value <= 65535
  {
    var d := DecodeScalar(r, K16, bs);
    if d.Got? {
      CountBound(d.value.h);
    }
  }

  // ----- Main results -------------------------------------------------------------------------

  /**
   * The round trip. Reading the encoding of an object, written on any host, into any target on any
   * host, yields the value of the object and leaves the rest of the input, exactly when every
   * container fits its count and nothing of the old target shows through an absent optional.
   */
  lemma RoundTrip(w: Host, r: Host, ty: Ty, target: Val, img: Image, rest: seq<byte>)
    requires Shape(ty, img) && HasType(ty, target)
    ensures Decode(r, ty, target, Encode(w, ty, img) + rest) == Got(Abs(ty, img), rest)
       <==> CountsFit(ty, img) && Clean(ty, target, img)
  {
    if CountsFit(ty, img) {
      DecodeOfEncode(w, r, ty, target, img, rest);
      OverlayIsValue(ty, target, img);
    } else {
      OversizedIsNotRestored(w, r, ty, target, img, rest);
    }
  }

  /** No optional lies outside a set or a map. */
  predicate NoBareOptional(ty: Ty) {
    match ty
    case Pair(a, b) => NoBareOptional(a) && NoBareOptional(b)
    case Optional(_) => false
    case Container(form, t) => InPlace(form) ==> NoBareOptional(t)
    case _ => true
  }

  lemma {:induction false} EveryTargetIsClean(ty: Ty, target: Val, img: Image)
    requires NoBareOptional(ty) && Shape(ty, img) && HasType(ty, target)
    ensures Clean(ty, target, img)
    decreases ty
  {
    match ty {
      case Pair(a, b) =>
        EveryTargetIsClean(a, target.first, img.first);
        EveryTargetIsClean(b, target.second, img.second);
      case Container(form, t) =>
        if InPlace(form) {
          forall i | 0 <= i < |img.items| && i < |target.items| ensures Clean(t, target.items[i], img.items[i]) {
            EveryTargetIsClean(t, target.items[i], img.items[i]);
          }
        }
      case _ =>
    }
  }

  /** With no bare optional in the type, what the target held before does not matter. */
  lemma RoundTripIntoAnyTarget(w: Host, r: Host, ty: Ty, target: Val, img: Image, rest: seq<byte>)
    requires NoBareOptional(ty) && Shape(ty, img) && CountsFit(ty, img) && HasType(ty, target)
    ensures Decode(r, ty, target, Encode(w, ty, img) + rest) == Got(Abs(ty, img), rest)
  {
    EveryTargetIsClean(ty, target, img);
    RoundTrip(w, r, ty, target, img, rest);
  }

  /** A fresh target always works. */
  lemma RoundTripIntoFresh(w: Host, r: Host, ty: Ty, img: Image, rest: seq<byte>)
    requires Shape(ty, img) && CountsFit(ty, img)
    ensures Decode(r, ty, Default(ty), Encode(w, ty, img) + rest) == Got(Abs(ty, img), rest)
  {
    DefaultIsClean(ty, img);
    RoundTrip(w, r, ty, Default(ty), img, rest);
  }

  /** Decoding an absent optional over a present one leaves the present one: the old value shows through. */
  lemma StaleOptional(w: Host, r: Host)
    ensures var ty, old' := Optional(Boolean), VSome(VBool(true));
            && Abs(ty, INone) == VNone
            && Decode(r, ty, old', Encode(w, ty, INone)) == Got(old', [])
  {
    var bs := Encode(w, Optional(Boolean), INone);
    DecodeBoolOfEncode(false, []);
    assert bs + [] == bs;
  }

  /**
   * Encodings of one type are prefix-free and injective: if two of them begin the same input, they
   * encode the same value and end in the same place.
   */
  lemma PrefixFree(w: Host, w': Host, ty: Ty, img: Image, img': Image, rest: seq<byte>, rest': seq<byte>)
    requires Shape(ty, img) && CountsFit(ty, img) && Shape(ty, img') && CountsFit(ty, img')
    requires Encode(w, ty, img) + rest == Encode(w', ty, img') + rest'
    ensures Abs(ty, img) == Abs(ty, img') && rest == rest'
  {
    RoundTripIntoFresh(w, LittleEndian, ty, img, rest);
    RoundTripIntoFresh(w', LittleEndian, ty, img', rest');
  }

  /** The value of a set or map does not depend on the order in which it is iterated. */
  lemma IterationOrderIsNoPartOfTheValue(form: Form, vs: seq<Val>, vs': seq<Val>)
    requires !InPlace(form) && DistinctKeys(form, vs) && DistinctKeys(form, vs')
    requires multiset(vs) == multiset(vs')
    ensures Collect(form, vs) == Collect(form, vs')
  {
    forall v ensures v in vs <==> v in vs' {
      assert v in vs <==> v in multiset(vs);
      assert v in vs' <==> v in multiset(vs');
    }
    if form.Set? {
      assert KeySet(vs) == KeySet(vs');
    } else {
      SameEntries(vs, vs');
      SameEntries(vs', vs);
      assert InsertAll(map[], vs) == InsertAll(map[], vs');
    }
  }

  lemma SameEntries(vs: seq<Val>, vs': seq<Val>)
    requires FreshPairs(map[], vs) && FreshPairs(map[], vs')
    requires forall v :: v in vs ==> v in vs'
    ensures var m, m' := InsertAll(map[], vs), InsertAll(map[], vs');
            forall k :: k in m ==> k in m' && m'[k] == m[k]
  {
    var m := InsertAll(map[], vs);
    InsertAllOfDistinct(map[], vs');
    forall k | k in m ensures k in InsertAll(map[], vs') && InsertAll(map[], vs')[k] == m[k] {
      InsertAllSource(map[], vs, k);
    }
  }

  /** So however the writer iterates a set or a map, the reader gets the same container. */
  lemma IterationOrderIsNotTransmitted(
    w: Host, w': Host, r: Host, form: Form, ty: Ty, target: Val, img: Image, img': Image, rest: seq<byte>)
    requires !InPlace(form) && HasType(Container(form, ty), target)
    requires Shape(Container(form, ty), img) && CountsFit(Container(form, ty), img)
    requires Shape(Container(form, ty), img') && CountsFit(Container(form, ty), img')
    requires multiset(AbsAll(ty, img.items)) == multiset(AbsAll(ty, img'.items))
    ensures Decode(r, Container(form, ty), target, Encode(w, Container(form, ty), img) + rest)
         == Decode(r, Container(form, ty), target, Encode(w', Container(form, ty), img') + rest)
  {
    RoundTripIntoAnyTarget(w, r, Container(form, ty), target, img, rest);
    RoundTripIntoAnyTarget(w', r, Container(form, ty), target, img', rest);
    IterationOrderIsNoPartOfTheValue(form, AbsAll(ty, img.items), AbsAll(ty, img'.items));
  }

  /** A value read from anywhere has its type. */
  lemma {:induction false} DecodeKeepsType(r: Host, ty: Ty, target: Val, bs: seq<byte>)
    requires HasType(ty, target)
    ensures var d := Decode(r, ty, target, bs); d.Got? ==> HasType(ty, d.value)
    decreases ty, 0
  {
    match ty {
      case Pair(a, b) =>
        DecodeKeepsType(r, a, target.first, bs);
        var d := Decode(r, a, target.first, bs);
        if d.Got? {
          DecodeKeepsType(r, b, target.second, d.rest);
        }
      case Optional(t) =>
        var d := DecodeBool(bs);
        if d.Got? {
          DecodeKeepsType(r, t, Default(t), d.rest);
        }
      case Container(form, t) =>
        var d := DecodeCount(r, bs);
        if d.Got? && CountAccepted(form, d.value) {
          var slots := Slots(form, t, target, d.value);
          DecodeIntoKeepsType(r, t, slots, d.rest);
          var e := DecodeInto(r, t, slots, d.rest);
          if e.Got? {
            CollectHasType(form, t, e.value);
          }
        }
      case _ =>
    }
  }

  lemma CollectHasType(form: Form, ty: Ty, vs: seq<Val>)
    requires HaveType(ty, vs) && CountAccepted(form, |vs|)
    ensures HasType(Container(form, ty), Collect(form, vs))
  {
    if form.Map? {
      var m := InsertAll(map[], vs);
      forall x | x in m ensures HasType(ty, VPair(x, m[x])) {
        InsertAllSource(map[], vs, x);
      }
    }
  }

  lemma {:induction false} DecodeIntoKeepsType(r: Host, ty: Ty, slots: seq<Val>, bs: seq<byte>)
    requires HaveType(ty, slots)
    ensures var d := DecodeInto(r, ty, slots, bs); d.Got? ==> HaveType(ty, d.value)
    decreases ty, 1, |slots|
  {
    hide Decode, HasType;
    if slots == [] {
    } else {
      DecodeKeepsType(r, ty, slots[0], bs);
      var d := Decode(r, ty, slots[0], bs);
      if d.Got? {
        DecodeIntoKeepsType(r, ty, slots[1..], d.rest);
      }
    }
  }
}
