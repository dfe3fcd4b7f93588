/**
 * The codec as the program runs it: `serialize` appends to a string stream, `deserialize` reads
 * from it and changes its target by reference, item by item.
 */
module CodecStream {
  import opened Common
  import opened Bytes
  import opened Codec
  import opened CodecProofs

  /** A `std::stringstream`: everything written so far, and the position of the next read. */
  class Stream {
    var data: seq<byte>
    var pos: nat

    ghost predicate Valid()
      reads this
    {
      pos <= |data|
    }

    function Unread(): seq<byte>
      requires Valid()
      reads this
    {
      data[pos..]
    }

    constructor ()
      ensures Valid() && data == [] && pos == 0
    {
      data, pos := [], 0;
    }

    method Write(bs: seq<byte>)
      requires Valid()
      modifies this`data
      ensures Valid() && data == old(data) + bs
    {
      data := data + bs;
    }

    /** Reads n bytes, or nothing when fewer are left. */
    method Read(n: nat) returns (r: Option<seq<byte>>)
      requires Valid()
      modifies this`pos
      ensures Valid()
      ensures r.Some? <==> n <= |old(Unread())|
      ensures r.Some? ==> r.value == old(Unread())[..n] && Unread() == old(Unread())[n..]
      ensures r.None? ==> pos == old(pos)
    {
      if pos + n <= |data| {
        r := Some(data[pos..pos + n]);
        pos := pos + n;
      } else {
        r := None;
      }
    }
  }

  /** An object that is being deserialized into. */
  class Target {
    var value: Val

    constructor (v: Val)
      ensures value == v
    {
      value := v;
    }
  }

  // ----- serialize ----------------------------------------------------------------------------

  method Serialize(h: Host, s: Stream, ty: Ty, img: Image)
    requires s.Valid() && Shape(ty, img)
    modifies s`data
    ensures s.Valid() && s.data == old(s.data) + Encode(h, ty, img)
    decreases ty, 0
  {
    match ty {
      case Scalar(_) =>
        s.Write(Store(h, img.scalar));
      case Boolean =>
        s.Write(EncodeBool(img.flag));
      case Empty =>
      case Pair(a, b) =>
        Serialize(h, s, a, img.first);
        Serialize(h, s, b, img.second);
        ConcatAssociates(old(s.data), Encode(h, a, img.first), Encode(h, b, img.second));
      case Optional(t) =>
        s.Write(EncodeBool(img.ISome?));
        if img.ISome? {
          Serialize(h, s, t, img.value);
          ConcatAssociates(old(s.data), EncodeBool(true), Encode(h, t, img.value));
        }
      case Container(_, t) =>
        s.Write(EncodeCount(h, |img.items|));
        SerializeItems(h, s, t, img.items);
        ConcatAssociates(old(s.data), EncodeCount(h, |img.items|), EncodeAll(h, t, img.items));
    }
  }

  /** The loop over the items of a container, in the order of iteration. */
  method SerializeItems(h: Host, s: Stream, ty: Ty, items: seq<Image>)
    requires s.Valid() && Shapes(ty, items)
    modifies s`data
    ensures s.Valid() && s.data == old(s.data) + EncodeAll(h, ty, items)
    decreases ty, 1
  {
    hide Encode, Shape;
    ghost var all := old(s.data) + EncodeAll(h, ty, items);
    assert items[0..] == items;
    for i := 0 to |items|
      invariant s.Valid()
      invariant s.data + EncodeAll(h, ty, items[i..]) == all
    {
      assert items[i..][0] == items[i] && items[i..][1..] == items[i + 1..];
      ConcatAssociates(s.data, Encode(h, ty, items[i]), EncodeAll(h, ty, items[i + 1..]));
      Serialize(h, s, ty, items[i]);
    }
    assert s.data + [] == s.data;
  }

  // ----- deserialize --------------------------------------------------------------------------

  /** The stream and the target after a read that gave `d`. */
  predicate Holds<T(==)>(d: Read<T>, ok: bool, value: T, unread: seq<byte>) {
    ok == d.Got? && (ok ==> value == d.value && unread == d.rest)
  }

  method ReadBool(s: Stream) returns (ok: bool, b: bool)
    requires s.Valid()
    modifies s`pos
    ensures s.Valid() && Holds(DecodeBool(old(s.Unread())), ok, b, s.Unread())
  {
    var r := s.Read(1);
    if r.None? || (r.value[0] != 0 && r.value[0] != 1) {
      return false, false;
    }
    return true, r.value[0] == 1;
  }

  method ReadScalar(h: Host, s: Stream, k: Kind) returns (ok: bool, v: Bytes.Scalar)
    requires s.Valid()
    modifies s`pos
    ensures s.Valid() && Holds(DecodeScalar(h, k, old(s.Unread())), ok, v, s.Unread())
    ensures !ok ==> s.Unread() == old(s.Unread())
  {
    var r := s.Read(Width(k));
    if r.None? {
      return false, I8(0);
    }
    return true, Load(h, k, r.value);
  }

  method ReadCount(h: Host, s: Stream) returns (ok: bool, n: nat)
    requires s.Valid()
    modifies s`pos
    ensures s.Valid() && Holds(DecodeCount(h, old(s.Unread())), ok, n, s.Unread())
  {
    var good, v := ReadScalar(h, s, K16);
    if !good {
      return false, 0;
    }
    return true, CountValue(v.h);
  }

  method Deserialize(h: Host, s: Stream, ty: Ty, target: Target) returns (ok: bool)
    requires s.Valid() && HasType(ty, target.value)
    modifies s`pos, target
    ensures s.Valid()
    ensures Holds(Decode(h, ty, old(target.value), old(s.Unread())), ok, target.value, s.Unread())
    decreases ty, 1
  {
    match ty {
      case Scalar(k) =>
        var good, v := ReadScalar(h, s, k);
        target.value := VScalar(v);
        ok := good;
      case Boolean =>
        var good, b := ReadBool(s);
        target.value := VBool(b);
        ok := good;
      case Empty =>
        ok := true;
        target.value := VEmpty;
      case Pair(a, b) =>
        var first := new Target(target.value.first);
        var second := new Target(target.value.second);
        ok := Deserialize(h, s, a, first);
        if ok {
          ok := Deserialize(h, s, b, second);
          target.value := VPair(first.value, second.value);
        }
      case Optional(t) =>
        var good, present := ReadBool(s);
        ok := good;
        if ok && present {
          var fresh' := new Target(Default(t));
          ok := Deserialize(h, s, t, fresh');
          target.value := VSome(fresh'.value);
        }
      case Container(form, t) =>
        ok := DeserializeContainer(h, s, form, t, target);
    }
  }

  /** Reads the count, makes room (or clears), and reads the items one after the other. */
  method DeserializeContainer(h: Host, s: Stream, form: Form, ty: Ty, target: Target) returns (ok: bool)
    requires s.Valid() && HasType(Container(form, ty), target.value)
    modifies s`pos, target
    ensures s.Valid()
    ensures Holds(Decode(h, Container(form, ty), old(target.value), old(s.Unread())), ok, target.value, s.Unread())
    decreases Container(form, ty), 0
  {
    hide Decode, DecodeInto, HasType;
    ghost var bs := s.Unread();
    var good, n := ReadCount(h, s);
    if !good {
      DecodeNoCount(h, form, ty, target.value, bs);
      return false;
    }
    if !CountAccepted(form, n) {
      DecodeBadCount(h, form, ty, target.value, bs);
      return false;
    }
    var slots := Slots(form, ty, target.value, n);
    DecodeContainer(h, form, ty, target.value, bs, n, s.Unread());
    var read, items := DeserializeItems(h, s, ty, slots);
    if !read {
      return false;
    }
    target.value := Collect(form, items);
    ok := true;
  }

  /** Reads the items into their slots one after the other. */
  method DeserializeItems(h: Host, s: Stream, ty: Ty, slots: seq<Val>) returns (ok: bool, items: seq<Val>)
    requires s.Valid() && HaveType(ty, slots)
    modifies s`pos
    ensures s.Valid()
    ensures Holds(DecodeInto(h, ty, slots, old(s.Unread())), ok, items, s.Unread())
    decreases ty, 2
  {
    hide Decode, HasType;
    ghost var all := DecodeInto(h, ty, slots, s.Unread());
    assert slots[0..] == slots;
    items := [];
    PrependNothing(all);
    for i := 0 to |slots|
      invariant s.Valid() && |items| == i
      invariant all == Prepend(items, DecodeInto(h, ty, slots[i..], s.Unread()))
    {
      ghost var input := s.Unread();
      assert slots[i..][0] == slots[i] && slots[i..][1..] == slots[i + 1..];
      var item := new Target(slots[i]);
      var read := Deserialize(h, s, ty, item);
      if !read {
        return false, [];
      }
      DecodeIntoCons(h, ty, slots[i..], input, item.value, s.Unread());
      PrependTwice(items, item.value, DecodeInto(h, ty, slots[i + 1..], s.Unread()));
      items := items + [item.value];
    }
    ok := true;
    assert items + [] == items;
  }

  lemma DecodeNoCount(h: Host, form: Form, ty: Ty, target: Val, bs: seq<byte>)
    requires HasType(Container(form, ty), target) && DecodeCount(h, bs).Fail?
    ensures Decode(h, Container(form, ty), target, bs).Fail?
  {
  }

  lemma DecodeBadCount(h: Host, form: Form, ty: Ty, target: Val, bs: seq<byte>)
    requires HasType(Container(form, ty), target)
    requires DecodeCount(h, bs).Got? && !CountAccepted(form, DecodeCount(h, bs).value)
    ensures Decode(h, Container(form, ty), target, bs).Fail?
  {
  }
}
