/**
 * The format on the wire, told without the codec: an object is the scalars it consists of, one after
 * the other, each in its own bytes.
 */
module WireFormat {
  import opened Common
  import opened Bytes
  import opened Codec
  import opened CodecProofs

  // ----- Scalars in order ---------------------------------------------------------------------

  /**
   * The scalars of an object in the order of their declaration: a flag is a byte, 1 or 0; an optional
   * is the flag whether it is present and then its content; a container is its length in 16 bits and
   * then its items as they are iterated.
   */
  function Leaves(ty: Ty, img: Image): (leaves: seq<Bytes.Scalar>)
    requires Shape(ty, img)
    decreases ty, 0
  {
    match ty
    case Scalar(_) => [img.scalar]
    case Boolean => [Flag(img.flag)]
    case Empty => []
    case Pair(a, b) => Leaves(a, img.first) + Leaves(b, img.second)
    case Optional(t) => [Flag(img.ISome?)] + if img.ISome? then Leaves(t, img.value) else []
    case Container(_, t) => [I16((|img.items| % 65536) as bv16)] + LeavesOfAll(t, img.items)
  }

  function Flag(b: bool): Bytes.Scalar {
    I8(if b then 1 else 0)
  }

  function LeavesOfAll(ty: Ty, items: seq<Image>): seq<Bytes.Scalar>
    requires Shapes(ty, items)
    decreases ty, 1, |items|
  {
    if items == [] then [] else Leaves(ty, items[0]) + LeavesOfAll(ty, items[1..])
  }

  function BytesOf(h: Host, leaves: seq<Bytes.Scalar>): seq<byte> {
    if leaves == [] then [] else Store(h, leaves[0]) + BytesOf(h, leaves[1..])
  }

  lemma BytesOfOne(h: Host, leaf: Bytes.Scalar, more: seq<Bytes.Scalar>)
    ensures BytesOf(h, [leaf] + more) == Store(h, leaf) + BytesOf(h, more)
    ensures BytesOf(h, []) == []
  {
    hide Store;
    assert ([leaf] + more)[1..] == more;
  }

  lemma {:induction false} BytesOfMore(h: Host, a: seq<Bytes.Scalar>, b: seq<Bytes.Scalar>)
    ensures BytesOf(h, a + b) == BytesOf(h, a) + BytesOf(h, b)
  {
    hide Store;
    if a == [] {
      assert a + b == b;
    } else {
      assert (a + b)[1..] == a[1..] + b;
      BytesOfMore(h, a[1..], b);
      ConcatAssociates(Store(h, a[0]), BytesOf(h, a[1..]), BytesOf(h, b));
    }
  }

  lemma FlagIsByte(h: Host, b: bool)
    ensures Store(h, Flag(b)) == EncodeBool(b)
  {
    StoreIgnoresHost(h, Flag(b));
  }

  /** What is written for any object is the bytes of its scalars in order. */
  lemma {:induction false} EncodeIsLeaves(h: Host, ty: Ty, img: Image)
    requires Shape(ty, img)
    ensures Encode(h, ty, img) == BytesOf(h, Leaves(ty, img))
    decreases ty, 0
  {
    hide Store, ToCount, EncodeBool, Flag;
    match ty {
      case Scalar(_) => BytesOfOne(h, img.scalar, []);
      case Boolean =>
        BytesOfOne(h, Flag(img.flag), []);
        FlagIsByte(h, img.flag);
      case Empty =>
      case Pair(a, b) =>
        EncodeIsLeaves(h, a, img.first);
        EncodeIsLeaves(h, b, img.second);
        BytesOfMore(h, Leaves(a, img.first), Leaves(b, img.second));
      case Optional(t) =>
        FlagIsByte(h, img.ISome?);
        if img.ISome? {
          EncodeIsLeaves(h, t, img.value);
          BytesOfOne(h, Flag(true), Leaves(t, img.value));
        } else {
          BytesOfOne(h, Flag(false), []);
        }
      case Container(_, t) =>
        CastIsNumber(|img.items|);
        EncodeAllIsLeaves(h, t, img.items);
        BytesOfOne(h, I16(ToCount(|img.items|)), LeavesOfAll(t, img.items));
    }
  }

  lemma {:induction false} EncodeAllIsLeaves(h: Host, ty: Ty, items: seq<Image>)
    requires Shapes(ty, items)
    ensures EncodeAll(h, ty, items) == BytesOf(h, LeavesOfAll(ty, items))
    decreases ty, 1, |items|
  {
    hide Encode, Leaves, Shape;
    if items == [] {
    } else {
      EncodeIsLeaves(h, ty, items[0]);
      EncodeAllIsLeaves(h, ty, items[1..]);
      BytesOfMore(h, Leaves(ty, items[0]), LeavesOfAll(ty, items[1..]));
    }
  }

  // ----- Value-initialised objects ------------------------------------------------------------

  /** There is no `std::array` of one item or more in the type: its length would be written. */
  predicate NoArrays(ty: Ty) {
    match ty
    case Pair(a, b) => NoArrays(a) && NoArrays(b)
    case Container(Array(n), _) => n == 0
    case _ => true
  }

  predicate Zeros(bs: seq<byte>) {
    forall i :: 0 <= i < |bs| ==> bs[i] == 0
  }

  lemma ZeroScalar(h: Host, k: Kind)
    ensures Zeros(Store(h, FromDigits(k, seq(Width(k), _ => 0))))
  {
    StoreIgnoresHost(h, FromDigits(k, seq(Width(k), _ => 0)));
    hide Store, Digits, FromDigits;
    DigitsOfFromDigits(k, seq(Width(k), _ => 0));
  }

  lemma ZerosOfTwo(a: seq<byte>, b: seq<byte>)
    requires Zeros(a) && Zeros(b)
    ensures Zeros(a + b)
  {
  }

  lemma NoItems(h: Host)
    ensures Zeros(EncodeCount(h, 0)) && EncodeCount(h, 0) + [] == EncodeCount(h, 0)
  {
    CastIsNumber(0);
    LowByteFirst(h, 0);
    hide Store, ToCount;
    var s := Store(h, I16(0));
    assert s[0] as int == 0 && s[1] as int == 0;
  }

  /** Nothing but zero bytes is written for a value-initialised object. */
  lemma {:induction false} DefaultIsZeros(h: Host, ty: Ty, img: Image)
    requires Shape(ty, img) && NoArrays(ty) && Abs(ty, img) == Default(ty)
    ensures Zeros(Encode(h, ty, img))
  {
    hide Store, ToCount, FromDigits, Zeros;
    match ty {
      case Scalar(k) => ZeroScalar(h, k);
      case Boolean => assert Zeros([0]) by { OneZero(); }
      case Empty => assert Zeros([]) by { OneZero(); }
      case Pair(a, b) =>
        DefaultIsZeros(h, a, img.first);
        DefaultIsZeros(h, b, img.second);
        ZerosOfTwo(Encode(h, a, img.first), Encode(h, b, img.second));
      case Optional(_) => assert Zeros([0]) by { OneZero(); }
      case Container(form, t) =>
        DefaultHasNoItems(form, t, img);
        NoItems(h);
    }
  }

  lemma OneZero()
    ensures Zeros([0]) && Zeros([])
  {
  }

  lemma DefaultHasNoItems(form: Form, t: Ty, img: Image)
    requires Shape(Container(form, t), img) && NoArrays(Container(form, t))
    requires Abs(Container(form, t), img) == Default(Container(form, t))
    ensures img.items == []
  {
    var vs := AbsAll(t, img.items);
    hide Shape, Abs;
    match form {
      case Set => KeySetSize(vs);
      case Map =>
        InsertAllOfDistinct(map[], vs);
      case _ =>
    }
  }

  // ----- What is read was written -------------------------------------------------------------

  /** There is no set or map in the type: of these, input with repeated keys is read as well. */
  predicate Ordered(ty: Ty) {
    match ty
    case Pair(a, b) => Ordered(a) && Ordered(b)
    case Optional(t) => Ordered(t)
    case Container(form, t) => InPlace(form) && Ordered(t)
    case _ => true
  }

  /** The input begins with the bytes of an object that has this value. */
  ghost predicate WasWritten(w: Host, ty: Ty, img: Image, v: Val, bs: seq<byte>, rest: seq<byte>) {
    Shape(ty, img) && CountsFit(ty, img) && Abs(ty, img) == v && bs == Encode(w, ty, img) + rest
  }

  ghost predicate AllWereWritten(w: Host, ty: Ty, items: seq<Image>, vs: seq<Val>, bs: seq<byte>, rest: seq<byte>) {
    && Shapes(ty, items) && AllCountsFit(ty, items)
    && AbsAll(ty, items) == vs && bs == EncodeAll(w, ty, items) + rest
  }

  lemma ScalarWasWritten(w: Host, r: Host, k: Kind, bs: seq<byte>)
    requires DecodeScalar(r, k, bs).Got?
    ensures var d := DecodeScalar(r, k, bs); d.value.Kind() == k && bs == Store(w, d.value) + d.rest
  {
    hide Store, Load;
    StoreOfLoad(w, r, k, bs[..Width(k)]);
    assert bs == bs[..Width(k)] + bs[Width(k)..];
  }

  lemma BoolWasWritten(bs: seq<byte>)
    requires DecodeBool(bs).Got?
    ensures bs == EncodeBool(DecodeBool(bs).value) + DecodeBool(bs).rest
  {
    assert bs == bs[..1] + bs[1..];
  }

  lemma CountWasWritten(w: Host, r: Host, bs: seq<byte>)
    requires DecodeCount(r, bs).Got?
    ensures var d := DecodeCount(r, bs); d.value < 65536 && bs == EncodeCount(w, d.value) + d.rest
  {
    ScalarWasWritten(w, r, K16, bs);
    hide DecodeScalar, Store, ToCount, CountValue;
    var c := DecodeScalar(r, K16, bs).value.h;
    ToCountOfValue(c);
    CountBound(c);
  }

  /** Whatever is read into a fresh object is the encoding of an object with the value that was read. */
  lemma {:induction false} ReadWasWritten(w: Host, r: Host, ty: Ty, bs: seq<byte>) returns (img: Image)
    requires Ordered(ty) && Decode(r, ty, Default(ty), bs).Got?
    ensures var d := Decode(r, ty, Default(ty), bs); WasWritten(w, ty, img, d.value, bs, d.rest)
    decreases ty, 0
  {
    hide Store, DecodeScalar, DecodeBool, EncodeBool;
    match ty {
      case Scalar(k) =>
        ScalarWasWritten(w, r, k, bs);
        img := IScalar(DecodeScalar(r, k, bs).value);
      case Boolean =>
        BoolWasWritten(bs);
        img := IBool(DecodeBool(bs).value);
      case Empty =>
        img := IEmpty;
        assert bs == [] + bs;
      case Pair(a, b) =>
        var x := ReadWasWritten(w, r, a, bs);
        var rest := Decode(r, a, Default(a), bs).rest;
        var y := ReadWasWritten(w, r, b, rest);
        img := IPair(x, y);
        EncodedPair(w, a, b, img, Decode(r, b, Default(b), rest).rest);
      case Optional(t) => img := OptionalWasWritten(w, r, t, bs);
      case Container(form, t) => img := ContainerWasWritten(w, r, form, t, bs);
    }
  }

  lemma {:induction false} OptionalWasWritten(w: Host, r: Host, t: Ty, bs: seq<byte>) returns (img: Image)
    requires Ordered(t) && Decode(r, Optional(t), VNone, bs).Got?
    ensures var d := Decode(r, Optional(t), VNone, bs); WasWritten(w, Optional(t), img, d.value, bs, d.rest)
    decreases t, 1
  {
    OptionalRead(r, t, bs);
    hide *;
    BoolWasWritten(bs);
    var present := DecodeBool(bs);
    if present.value {
      var x := ReadWasWritten(w, r, t, present.rest);
      img := ISome(x);
      var d := Decode(r, t, Default(t), present.rest);
      PresentWasWritten(w, t, x, d.value, bs, present.rest, d.rest);
    } else {
      img := INone;
      AbsentWasWritten(w, t, bs, present.rest);
    }
  }

  lemma OptionalRead(r: Host, t: Ty, bs: seq<byte>)
    requires Decode(r, Optional(t), VNone, bs).Got?
    ensures DecodeBool(bs).Got?
    ensures var present, d := DecodeBool(bs), Decode(r, Optional(t), VNone, bs);
            if !present.value then d == Got(VNone, present.rest)
            else var x := Decode(r, t, Default(t), present.rest); x.Got? && d == Got(VSome(x.value), x.rest)
  {
    hide DecodeBool;
  }

  lemma PresentWasWritten(w: Host, t: Ty, x: Image, v: Val, bs: seq<byte>, rest: seq<byte>, end: seq<byte>)
    requires WasWritten(w, t, x, v, rest, end) && bs == EncodeBool(true) + rest
    ensures WasWritten(w, Optional(t), ISome(x), VSome(v), bs, end)
  {
    hide EncodeBool;
    ConcatAssociates(EncodeBool(true), Encode(w, t, x), end);
  }

  lemma AbsentWasWritten(w: Host, t: Ty, bs: seq<byte>, rest: seq<byte>)
    requires bs == EncodeBool(false) + rest
    ensures WasWritten(w, Optional(t), INone, VNone, bs, rest)
  {
    hide EncodeBool;
  }

  lemma {:induction false} ContainerWasWritten(w: Host, r: Host, form: Form, t: Ty, bs: seq<byte>) returns (img: Image)
    requires InPlace(form) && Ordered(t) && Decode(r, Container(form, t), Default(Container(form, t)), bs).Got?
    ensures var d := Decode(r, Container(form, t), Default(Container(form, t)), bs);
            WasWritten(w, Container(form, t), img, d.value, bs, d.rest)
    decreases t, 2
  {
    var target := Default(Container(form, t));
    assert DecodeCount(r, bs).Got? && CountAccepted(form, DecodeCount(r, bs).value);
    CountWasWritten(w, r, bs);
    var n, rest := DecodeCount(r, bs).value, DecodeCount(r, bs).rest;
    var slots := Slots(form, t, target, n);
    DecodeContainer(r, form, t, target, bs, n, rest);
    assert forall i :: 0 <= i < n ==> slots[i] == Default(t);
    hide *;
    var items := ItemsWereWritten(w, r, t, slots, rest);
    img := IItems(items);
    var d := DecodeInto(r, t, slots, rest);
    WholeWasWritten(w, form, t, items, d.value, bs, rest, d.rest);
  }

  lemma WholeWasWritten(
    w: Host, form: Form, t: Ty, items: seq<Image>, vs: seq<Val>, bs: seq<byte>, rest: seq<byte>, end: seq<byte>)
    requires InPlace(form) && AllWereWritten(w, t, items, vs, rest, end)
    requires CountAccepted(form, |items|) && |items| < 65536 && bs == EncodeCount(w, |items|) + rest
    ensures WasWritten(w, Container(form, t), IItems(items), Collect(form, vs), bs, end)
  {
    hide EncodeCount;
    EncodedContainer(w, form, t, IItems(items), end);
  }

  lemma {:induction false} ItemsWereWritten(w: Host, r: Host, t: Ty, slots: seq<Val>, bs: seq<byte>)
    returns (items: seq<Image>)
    requires Ordered(t) && HaveType(t, slots) && forall i :: 0 <= i < |slots| ==> slots[i] == Default(t)
    requires DecodeInto(r, t, slots, bs).Got?
    ensures var d := DecodeInto(r, t, slots, bs); AllWereWritten(w, t, items, d.value, bs, d.rest)
    ensures |items| == |slots|
    decreases t, 1, |slots|
  {
    hide *;
    if slots == [] {
      items := [];
      NothingWasWritten(w, r, t, bs);
      assert slots == [];
    } else {
      FirstWasRead(r, t, slots, bs);
      var x := ReadWasWritten(w, r, t, bs);
      var d := Decode(r, t, slots[0], bs);
      var xs := ItemsWereWritten(w, r, t, slots[1..], d.rest);
      DecodeIntoCons(r, t, slots, bs, d.value, d.rest);
      items := [x] + xs;
      var ds := DecodeInto(r, t, slots[1..], d.rest);
      OneMoreWritten(w, t, x, d.value, xs, ds.value, bs, d.rest, ds.rest);
    }
  }

  lemma NothingWasWritten(w: Host, r: Host, t: Ty, bs: seq<byte>)
    ensures var d := DecodeInto(r, t, [], bs); d.Got? && AllWereWritten(w, t, [], d.value, bs, d.rest)
  {
    assert bs == [] + bs;
  }

  lemma FirstWasRead(r: Host, t: Ty, slots: seq<Val>, bs: seq<byte>)
    requires HaveType(t, slots) && slots != [] && DecodeInto(r, t, slots, bs).Got?
    ensures HasType(t, slots[0]) && HaveType(t, slots[1..]) && Decode(r, t, slots[0], bs).Got?
    ensures DecodeInto(r, t, slots[1..], Decode(r, t, slots[0], bs).rest).Got?
  {
    hide Decode, HasType;
  }

  lemma OneMoreWritten(
    w: Host, t: Ty, x: Image, v: Val, xs: seq<Image>, vs: seq<Val>,
    bs: seq<byte>, rest: seq<byte>, end: seq<byte>)
    requires WasWritten(w, t, x, v, bs, rest) && AllWereWritten(w, t, xs, vs, rest, end)
    ensures AllWereWritten(w, t, [x] + xs, [v] + vs, bs, end)
  {
    OneMoreShape(t, x, xs);
    hide Encode, Shape, Shapes, Abs, AbsAll, CountsFit, AllCountsFit;
    var items := [x] + xs;
    assert items[1..] == xs;
    ConcatAssociates(Encode(w, t, x), EncodeAll(w, t, xs), end);
  }

  lemma OneMoreShape(t: Ty, x: Image, xs: seq<Image>)
    requires Shape(t, x) && CountsFit(t, x) && Shapes(t, xs) && AllCountsFit(t, xs)
    ensures Shapes(t, [x] + xs) && AllCountsFit(t, [x] + xs) && AbsAll(t, [x] + xs) == [Abs(t, x)] + AbsAll(t, xs)
  {
    hide Shape, Abs, CountsFit;
  }

  /** So input is read into a fresh object exactly if it begins with the encoding of one whose counts fit. */
  lemma ReadExactlyIf(w: Host, r: Host, ty: Ty, bs: seq<byte>)
    requires Ordered(ty)
    ensures Decode(r, ty, Default(ty), bs).Got? <==> exists img, v, rest :: WasWritten(w, ty, img, v, bs, rest)
  {
    hide Decode, Default;
    if Decode(r, ty, Default(ty), bs).Got? {
      var img := ReadWasWritten(w, r, ty, bs);
    }
    if img, v, rest :| WasWritten(w, ty, img, v, bs, rest) {
      RoundTripIntoFresh(w, r, ty, img, rest);
    }
  }
}
