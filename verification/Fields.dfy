/**
 * Message fields and the ordered, named set of them that a message consists of: a list of fields
 * together with an index from names to list nodes.
 */
module Fields {
  import opened Common
  import opened Bytes
  import opened Codec
  import opened CodecProofs
  import CodecStream

  /** What a field holds, as a value. */
  datatype Entry = Entry(name: string, ty: Ty, value: Val)

  ghost predicate Typed(es: seq<Entry>) {
    forall i :: 0 <= i < |es| ==> HasType(es[i].ty, es[i].value)
  }

  ghost predicate DistinctNames(es: seq<Entry>) {
    forall i, j :: 0 <= i < j < |es| ==> es[i].name != es[j].name
  }

  // ----- A field set as one serializable object -----------------------------------------------

  /** The fields one after the other: an object with these members. */
  function TyOf(es: seq<Entry>): Ty {
    if es == [] then Empty else Pair(es[0].ty, TyOf(es[1..]))
  }

  function ValueOf(es: seq<Entry>): Val {
    if es == [] then VEmpty else VPair(es[0].value, ValueOf(es[1..]))
  }

  /** The objects behind the fields, each with the order in which its containers are iterated. */
  ghost predicate Lays(es: seq<Entry>, layout: seq<Image>) {
    && |layout| == |es|
    && forall i :: 0 <= i < |es| ==> Shape(es[i].ty, layout[i]) && Abs(es[i].ty, layout[i]) == es[i].value
  }

  function ImageOf(layout: seq<Image>): Image {
    if layout == [] then IEmpty else IPair(layout[0], ImageOf(layout[1..]))
  }

  /** The same fields holding the values that `v` has for them. */
  function WithValues(es: seq<Entry>, v: Val): (r: seq<Entry>)
    requires HasType(TyOf(es), v)
    ensures |r| == |es|
  {
    if es == [] then [] else [Entry(es[0].name, es[0].ty, v.first)] + WithValues(es[1..], v.second)
  }

  lemma {:induction false} ValueHasType(es: seq<Entry>)
    requires Typed(es)
    ensures HasType(TyOf(es), ValueOf(es))
  {
    if es == [] {
    } else {
      ValueHasType(es[1..]);
    }
  }

  lemma {:induction false} LayoutIsImage(es: seq<Entry>, layout: seq<Image>)
    requires Lays(es, layout)
    ensures Shape(TyOf(es), ImageOf(layout)) && Abs(TyOf(es), ImageOf(layout)) == ValueOf(es)
  {
    if es == [] {
    } else {
      LayoutIsImage(es[1..], layout[1..]);
    }
  }

  lemma {:induction false} WithOwnValues(es: seq<Entry>, es': seq<Entry>)
    requires Typed(es) && |es'| == |es|
    requires forall i :: 0 <= i < |es| ==> es'[i].name == es[i].name && es'[i].ty == es[i].ty
    ensures TyOf(es') == TyOf(es) && HasType(TyOf(es'), ValueOf(es)) && WithValues(es', ValueOf(es)) == es
  {
    ValueHasType(es);
    if es == [] {
    } else {
      WithOwnValues(es[1..], es'[1..]);
    }
  }

  /** The bytes of the fields in list order. */
  ghost function Wire(h: Host, es: seq<Entry>, layout: seq<Image>): seq<byte>
    requires Lays(es, layout)
  {
    LayoutIsImage(es, layout);
    Encode(h, TyOf(es), ImageOf(layout))
  }

  ghost function DeclaredSize(es: seq<Entry>, layout: seq<Image>): nat
    requires Lays(es, layout)
  {
    LayoutIsImage(es, layout);
    Size(TyOf(es), ImageOf(layout))
  }

  /** Reading the fields one after the other, each over the value it has. */
  ghost function ReadFields(h: Host, es: seq<Entry>, bs: seq<byte>): (r: Read<seq<Entry>>)
    requires Typed(es)
    ensures r.Got? ==> |r.value| == |es|
  {
    if es == [] then Got([], bs)
    else match Decode(h, es[0].ty, es[0].value, bs)
         case Fail => Fail
         case Got(v, rest) => Prepend([Entry(es[0].name, es[0].ty, v)], ReadFields(h, es[1..], rest))
  }

  lemma ReadMore(h: Host, es: seq<Entry>, bs: seq<byte>)
    requires Typed(es) && es != []
    ensures var d := Decode(h, es[0].ty, es[0].value, bs);
            ReadFields(h, es, bs)
            == if d.Fail? then Fail
               else Prepend([Entry(es[0].name, es[0].ty, d.value)], ReadFields(h, es[1..], d.rest))
  {
  }

  lemma NoMoreFields(h: Host, es: seq<Entry>, bs: seq<byte>)
    requires es == []
    ensures ReadFields(h, es, bs) == Got([], bs)
  {
  }

  lemma EmptyWire(h: Host, es: seq<Entry>, layout: seq<Image>)
    requires Lays(es, layout) && es == []
    ensures Wire(h, es, layout) == [] && DeclaredSize(es, layout) == 0
  {
  }

  lemma WireOfMore(h: Host, es: seq<Entry>, layout: seq<Image>)
    requires Lays(es, layout) && es != []
    ensures Wire(h, es, layout) == Encode(h, es[0].ty, layout[0]) + Wire(h, es[1..], layout[1..])
  {
    LayoutIsImage(es, layout);
  }

  lemma DeclaredSizeOfMore(es: seq<Entry>, layout: seq<Image>)
    requires Lays(es, layout) && es != []
    ensures DeclaredSize(es, layout) == Size(es[0].ty, layout[0]) + DeclaredSize(es[1..], layout[1..])
  {
    LayoutIsImage(es, layout);
  }

  /** Reading the fields is decoding the object that has them as members. */
  lemma {:induction false} ReadFieldsIsDecode(h: Host, es: seq<Entry>, bs: seq<byte>)
    requires Typed(es)
    ensures HasType(TyOf(es), ValueOf(es))
    ensures var d, r := Decode(h, TyOf(es), ValueOf(es), bs), ReadFields(h, es, bs);
            && (d.Got? <==> r.Got?)
            && (d.Got? ==> HasType(TyOf(es), d.value) && r == Got(WithValues(es, d.value), d.rest))
  {
    ValueHasType(es);
    if es == [] {
    } else {
      var d := Decode(h, es[0].ty, es[0].value, bs);
      if d.Got? {
        DecodeKeepsType(h, es[0].ty, es[0].value, bs);
        ReadFieldsIsDecode(h, es[1..], d.rest);
      }
    }
  }

  // ----- Field --------------------------------------------------------------------------------

  /** `ValueField<T>`: the name and the type never change. */
  class Field {
    const name: string
    const ty: Ty
    var value: Val

    ghost predicate Valid()
      reads this
    {
      HasType(ty, value)
    }

    ghost function View(): Entry
      reads this
    {
      Entry(name, ty, value)
    }

    constructor (name: string, ty: Ty)
      ensures Valid() && View() == Entry(name, ty, Default(ty))
    {
      this.name, this.ty, this.value := name, ty, Default(ty);
    }

    constructor Of(other: Field)
      requires other.Valid()
      ensures Valid() && View() == other.View()
    {
      name, ty, value := other.name, other.ty, other.value;
    }

    method Clone() returns (f: Field)
      requires Valid()
      ensures fresh(f) && f.Valid() && f.View() == View()
    {
      f := new Field.Of(this);
    }

    method Deserialize(h: Host, s: CodecStream.Stream) returns (ok: bool)
      requires Valid() && s.Valid()
      modifies s`pos, this`value
      ensures s.Valid()
      ensures var d := Decode(h, ty, old(value), old(s.Unread()));
              ok == d.Got? && (ok ==> Valid() && value == d.value && s.Unread() == d.rest)
    {
      hide HasType, Decode;
      var target := new CodecStream.Target(value);
      DecodeKeepsType(h, ty, value, s.Unread());
      ok := CodecStream.Deserialize(h, s, ty, target);
      if ok {
        value := target.value;
      }
    }

    method Set(v: Val)
      requires HasType(ty, v)
      modifies this
      ensures Valid() && View() == Entry(name, ty, v)
    {
      value := v;
    }
  }

  /** The loop over the list of fields: each node reads its own value. */
  method ReadNodes(h: Host, s: CodecStream.Stream, nodes: seq<Field>, ghost es: seq<Entry>) returns (ok: bool)
    requires s.Valid() && forall i :: 0 <= i < |nodes| ==> nodes[i].Valid()
    requires forall i, j :: 0 <= i < j < |nodes| ==> nodes[i] != nodes[j]
    requires |es| == |nodes| && Typed(es) && forall i :: 0 <= i < |nodes| ==> es[i] == nodes[i].View()
    modifies s`pos, nodes
    ensures s.Valid()
    ensures var d := ReadFields(h, es, old(s.Unread()));
            && ok == d.Got?
            && (ok ==> s.Unread() == d.rest
                       && forall i :: 0 <= i < |nodes| ==> nodes[i].Valid() && nodes[i].View() == d.value[i])
  {
    hide HasType, Decode, ReadFields;
    ghost var all := ReadFields(h, es, s.Unread());
    ghost var done: seq<Entry> := [];
    assert es[0..] == es;
    PrependNothing(all);
    for i := 0 to |nodes|
      invariant s.Valid() && |done| == i
      invariant forall k :: 0 <= k < i ==> nodes[k].View() == done[k]
      invariant forall k :: i <= k < |nodes| ==> nodes[k].View() == es[k]
      invariant forall k :: 0 <= k < |nodes| ==> nodes[k].Valid()
      invariant all == Prepend(done, ReadFields(h, es[i..], s.Unread()))
    {
      var field := nodes[i];
      assert es[i..][0] == field.View() && es[i..][1..] == es[i + 1..];
      ReadMore(h, es[i..], s.Unread());
      var read := field.Deserialize(h, s);
      if !read {
        return false;
      }
      PrependTwice(done, field.View(), ReadFields(h, es[i + 1..], s.Unread()));
      done := done + [field.View()];
    }
    NoMoreFields(h, es[|nodes|..], s.Unread());
    assert done + [] == done;
    ok := true;
  }

  // ----- List insertion -----------------------------------------------------------------------

  /** `list.insert(it, x)` with `it` the place of index i. */
  function Insert<T>(s: seq<T>, i: nat, x: T): (r: seq<T>)
    requires i <= |s|
    ensures |r| == |s| + 1
  {
    s[..i] + [x] + s[i..]
  }

  lemma InsertAt<T>(s: seq<T>, i: nat, x: T, k: nat)
    requires i <= |s| && k <= |s|
    ensures Insert(s, i, x)[k] == if k < i then s[k] else if k == i then x else s[k - 1]
  {
  }

  lemma InsertElements<T>(s: seq<T>, i: nat, x: T)
    requires i <= |s|
    ensures forall y :: y in Insert(s, i, x) <==> y == x || y in s
  {
    assert s == s[..i] + s[i..];
  }

  lemma ReverseGrows<T>(s: seq<T>, i: nat)
    requires i < |s|
    ensures Reverse(s[..i + 1]) == Insert(Reverse(s[..i]), 0, s[i])
  {
    assert s[..i + 1] == s[..i] + [s[i]];
    ReverseAppend(s[..i], s[i]);
  }

  /** Where `add` inserts: at the beginning of an empty list, else before the last element. */
  function AddPosition<T>(s: seq<T>): (i: nat)
    ensures i <= |s|
  {
    if s == [] then 0 else |s| - 1
  }

  function Added<T>(s: seq<T>, x: T): seq<T> {
    Insert(s, AddPosition(s), x)
  }

  function AddedAll<T>(s: seq<T>, xs: seq<T>): seq<T>
    decreases |xs|
  {
    if xs == [] then s else AddedAll(Added(s, xs[0]), xs[1..])
  }

  /** Added one after the other, x0 .. xn-1 end up as x1 .. xn-1, x0. */
  lemma AddsRotate<T>(xs: seq<T>)
    ensures AddedAll([], xs) == RotateLeft(xs)
  {
    if xs != [] {
      assert Added([], xs[0]) == [xs[0]];
      AddsGoBeforeLast([], xs[0], xs[1..]);
    }
  }

  lemma {:induction false} AddsGoBeforeLast<T>(init: seq<T>, last: T, xs: seq<T>)
    ensures AddedAll(init + [last], xs) == init + xs + [last]
    decreases |xs|
  {
    if xs == [] {
      assert init + [] == init;
    } else {
      assert Added(init + [last], xs[0]) == init + [xs[0]] + [last];
      AddsGoBeforeLast(init + [xs[0]], last, xs[1..]);
      assert init + [xs[0]] + xs[1..] == init + xs;
    }
  }

  // ----- A list with an index of its nodes by name ----------------------------------------------

  /** The list and the index agree: names are unique, and each leads to the node that carries it. */
  ghost predicate Indexed<T>(nodes: seq<T>, names: seq<string>, index: map<string, T>) {
    && |names| == |nodes|
    && (forall i, j :: 0 <= i < j < |names| ==> names[i] != names[j])
    && (forall i :: 0 <= i < |names| ==> names[i] in index && index[names[i]] == nodes[i])
    && (forall n :: n in index ==> n in names)
  }

  lemma InsertKeepsIndex<T>(
    nodes: seq<T>, names: seq<string>, index: map<string, T>, it: nat, node: T, name: string)
    requires Indexed(nodes, names, index) && it <= |nodes| && name !in index
    ensures Indexed(Insert(nodes, it, node), Insert(names, it, name), index[name := node])
  {
    var nodes', names', index' := Insert(nodes, it, node), Insert(names, it, name), index[name := node];
    InsertElements(names, it, name);
    forall i | 0 <= i < |names'| ensures names'[i] in index' && index'[names'[i]] == nodes'[i] {
      InsertAt(nodes, it, node, i);
      InsertAt(names, it, name, i);
    }
    forall i, j | 0 <= i < j < |names'| ensures names'[i] != names'[j] {
      InsertAt(names, it, name, i);
      InsertAt(names, it, name, j);
    }
  }

  lemma IndexedName<T>(nodes: seq<T>, names: seq<string>, index: map<string, T>, name: string)
    requires Indexed(nodes, names, index)
    ensures name in index <==> name in names
    ensures name in index ==> exists i :: 0 <= i < |names| && names[i] == name && index[name] == nodes[i]
  {
  }

  lemma NameIsLater<T>(nodes: seq<T>, names: seq<string>, index: map<string, T>, i: nat)
    requires Indexed(nodes, names, index) && i < |names|
    ensures names[i] !in Reverse(names[..i])
  {
  }

  // ----- FieldSet -----------------------------------------------------------------------------

  class FieldSet {
    var fields: seq<Field>
    var byName: map<string, Field>

    ghost function Names(): (ns: seq<string>)
      reads this`fields
      ensures |ns| == |fields|
      ensures forall i :: 0 <= i < |ns| ==> ns[i] == fields[i].name
    {
      var nodes := fields;
      seq(|nodes|, i requires 0 <= i < |nodes| => nodes[i].name)
    }

    ghost predicate Valid()
      reads this, fields
    {
      Indexed(fields, Names(), byName) && forall i :: 0 <= i < |fields| ==> fields[i].Valid()
    }

    ghost function Entries(): (es: seq<Entry>)
      reads this`fields, fields
      ensures |es| == |fields|
      ensures forall i :: 0 <= i < |es| ==> es[i] == fields[i].View()
    {
      var nodes := fields;
      seq(|nodes|, i requires 0 <= i < |nodes| reads nodes => nodes[i].View())
    }

    lemma EntriesAreWellFormed()
      requires Valid()
      ensures Typed(Entries()) && DistinctNames(Entries())
    {
      hide HasType;
      assert forall i :: 0 <= i < |fields| ==> fields[i].Valid();
    }

    constructor ()
      ensures Valid() && fields == []
    {
      fields, byName := [], map[];
    }

    /** Inserting a node of a new name: the one change `add` and `assign` make to the list and the index. */
    method InsertNode(it: nat, field: Field)
      requires Valid() && field.Valid() && it <= |fields| && field.name !in Names()
      modifies this
      ensures Valid() && Names() == Insert(old(Names()), it, field.name)
      ensures fields == Insert(old(fields), it, field)
      ensures Entries() == Insert(old(Entries()), it, field.View())
    {
      hide HasType, Indexed;
      IndexedName(fields, Names(), byName, field.name);
      InsertKeepsIndex(fields, Names(), byName, it, field, field.name);
      ghost var es, ns := Insert(Entries(), it, field.View()), Insert(Names(), it, field.name);
      forall k | 0 <= k <= |fields|
        ensures Insert(fields, it, field)[k].Valid()
        ensures Insert(fields, it, field)[k].View() == es[k] && Insert(fields, it, field)[k].name == ns[k]
      {
        InsertAt(fields, it, field, k);
        InsertAt(Entries(), it, field.View(), k);
        InsertAt(Names(), it, field.name, k);
      }
      fields := Insert(fields, it, field);
      byName := byName[field.name := field];
      assert Names() == ns && Entries() == es;
    }

    /** One step of `assign`. */
    method InsertClone(it: nat, field: Field)
      requires Valid() && field.Valid() && it <= |fields| && field.name !in Names()
      modifies this
      ensures Valid() && Names() == Insert(old(Names()), it, field.name)
      ensures |fields| == |old(fields)| + 1 && forall f :: f in fields ==> f in old(fields) || fresh(f)
      ensures Entries() == Insert(old(Entries()), it, field.View())
    {
      hide HasType, Indexed;
      var clone := field.Clone();
      InsertElements(fields, it, clone);
      InsertNode(it, clone);
    }

    method Add(field: Field) returns (added: bool)
      requires Valid() && field.Valid()
      modifies this
      ensures Valid()
      ensures added <==> field.name !in old(Names())
      ensures Names() == if added then Added(old(Names()), field.name) else old(Names())
      ensures fields == if added then Added(old(fields), field) else old(fields)
      ensures Entries() == if added then Added(old(Entries()), field.View()) else old(Entries())
    {
      hide HasType, Indexed;
      IndexedName(fields, Names(), byName, field.name);
      if field.name in byName {
        return false;
      }
      InsertNode(AddPosition(fields), field);
      return true;
    }

    function Contains(name: string): (r: bool)
      requires Valid()
      reads this, fields
      ensures r <==> name in Names()
    {
      name in byName
    }

    /** `contains<T>`: there is such a field, and it has this type. */
    function ContainsOf(name: string, ty: Ty): (r: bool)
      requires Valid()
      reads this, fields
      ensures r <==> exists i :: 0 <= i < |fields| && fields[i].name == name && fields[i].ty == ty
    {
      assert name in byName ==> exists i :: 0 <= i < |fields| && Names()[i] == name && byName[name] == fields[i];
      assert forall i :: 0 <= i < |fields| && Names()[i] == name ==> name in byName && byName[name] == fields[i];
      name in byName && byName[name].ty == ty
    }

    method Get(name: string) returns (r: Option<Field>)
      requires Valid()
      ensures r.Some? <==> name in Names()
      ensures r.Some? ==> r.value in fields && r.value.name == name
    {
      IndexedName(fields, Names(), byName, name);
      if name in byName {
        return Some(byName[name]);
      }
      return None;
    }

    method Clear()
      modifies this
      ensures Valid() && fields == [] && byName == map[]
    {
      fields, byName := [], map[];
    }

    /**
     * Clones of the other set's fields, in reverse order. A set assigned to itself is cleared
     * before it is read, and stays empty.
     */
    method Assign(other: FieldSet)
      requires Valid() && other.Valid()
      modifies this
      ensures Valid() && (forall f :: f in fields ==> fresh(f))
      ensures other == this ==> fields == []
      ensures other != this ==> Entries() == Reverse(old(other.Entries()))
    {
      hide HasType, Indexed, Insert, Reverse;
      Clear();
      var it := 0;
      ghost var es := other.Entries();
      ghost var ns := other.Names();
      for i := 0 to |other.fields|
        invariant Valid() && it == 0 && |fields| == i && forall f :: f in fields ==> fresh(f)
        invariant other == this ==> fields == [] && es == []
        invariant other != this ==> other.Valid() && other.Entries() == es && other.Names() == ns
        invariant |es| == |ns| && i <= |es| && Entries() == Reverse(es[..i]) && Names() == Reverse(ns[..i])
      {
        NameIsLater(other.fields, ns, other.byName, i);
        InsertClone(it, other.fields[i]);
        ReverseGrows(es, i);
        ReverseGrows(ns, i);
      }
      assert es[..|es|] == es;
    }

    /** `operator=`, which leaves a set assigned to itself alone. */
    method CopyFrom(other: FieldSet)
      requires Valid() && other.Valid()
      modifies this
      ensures Valid()
      ensures other == this ==> fields == old(fields) && Entries() == old(Entries())
      ensures other != this ==> Entries() == Reverse(old(other.Entries())) && forall f :: f in fields ==> fresh(f)
    {
      if this != other {
        Assign(other);
      }
    }

    /** `serialize`; `layout` is how the containers in the fields happen to be iterated. */
    method Serialize(h: Host, s: CodecStream.Stream, layout: seq<Image>)
      requires Valid() && s.Valid() && Lays(Entries(), layout)
      modifies s`data
      ensures s.Valid() && s.data == old(s.data) + Wire(h, old(Entries()), layout)
    {
      hide HasType, Encode, Shape, Abs, Valid, Wire;
      ghost var es := Entries();
      ghost var all := s.data + Wire(h, es, layout);
      assert es[0..] == es && layout[0..] == layout;
      for i := 0 to |fields|
        invariant s.Valid() && Lays(es[i..], layout[i..])
        invariant s.data + Wire(h, es[i..], layout[i..]) == all
      {
        assert es[i..][0] == fields[i].View() && layout[i..][0] == layout[i];
        assert es[i..][1..] == es[i + 1..] && layout[i..][1..] == layout[i + 1..];
        WireOfMore(h, es[i..], layout[i..]);
        ConcatAssociates(s.data, Encode(h, fields[i].ty, layout[i]), Wire(h, es[i + 1..], layout[i + 1..]));
        CodecStream.Serialize(h, s, fields[i].ty, layout[i]);
      }
      EmptyWire(h, es[|fields|..], layout[|fields|..]);
      assert s.data + [] == s.data;
    }

    /** `deserialize`: every field reads over the value it has. */
    method Deserialize(h: Host, s: CodecStream.Stream) returns (ok: bool)
      requires Valid() && s.Valid() && Typed(Entries())
      modifies s`pos, fields
      ensures s.Valid()
      ensures var d := ReadFields(h, old(Entries()), old(s.Unread()));
              ok == d.Got? && (ok ==> Valid() && Entries() == d.value && s.Unread() == d.rest)
    {
      hide HasType, ReadFields;
      EntriesAreWellFormed();
      ghost var es := Entries();
      ok := ReadNodes(h, s, fields, es);
    }

    method SerializedSize(layout: seq<Image>) returns (size: nat)
      requires Valid() && Lays(Entries(), layout)
      ensures size == DeclaredSize(Entries(), layout)
    {
      hide HasType, Size, Shape, Abs, Valid, DeclaredSize;
      ghost var es := Entries();
      assert es[0..] == es && layout[0..] == layout;
      size := 0;
      for i := 0 to |fields|
        invariant Lays(es[i..], layout[i..])
        invariant size + DeclaredSize(es[i..], layout[i..]) == DeclaredSize(es, layout)
      {
        assert es[i..][0] == fields[i].View() && layout[i..][0] == layout[i];
        assert es[i..][1..] == es[i + 1..] && layout[i..][1..] == layout[i + 1..];
        DeclaredSizeOfMore(es[i..], layout[i..]);
        size := size + Size(fields[i].ty, layout[i]);
      }
      EmptyWire(LittleEndian, es[|fields|..], layout[|fields|..]);
    }

    method Swap(other: FieldSet)
      requires Valid() && other.Valid()
      modifies this, other
      ensures Valid() && other.Valid()
      ensures fields == old(other.fields) && other.fields == old(fields)
    {
      hide HasType, Indexed;
      fields, other.fields := other.fields, fields;
      byName, other.byName := other.byName, byName;
    }
  }
}
