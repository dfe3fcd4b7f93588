/**
 * The type-directed binary codec: what `BinarySerializer` writes for a value of each supported
 * type, what it reads back into a target that already holds something, and the size it declares.
 */
module Codec {
  import opened Common
  import opened Bytes

  /** A `std::vector` or other sequence, a `std::array`, a set, or a map (whose items are pairs). */
  datatype Form = Sequence | Array(length: nat) | Set | Map

  /**
   * The supported types. A `Serializable` object whose members are serialized one after the other
   * is the nested pair of its members, ended by `Empty`.
   */
  datatype Ty =
    | Scalar(kind: Kind)
    | Boolean
    | Empty
    | Pair(first: Ty, second: Ty)
    | Optional(inner: Ty)
    | Container(form: Form, item: Ty)

  /** Values as `==` sees them: sets and maps have no order. */
  datatype Val =
    | VScalar(scalar: Bytes.Scalar)
    | VBool(flag: bool)
    | VEmpty
    | VPair(first: Val, second: Val)
    | VNone
    | VSome(value: Val)
    | VSeq(items: seq<Val>)
    | VSet(keys: set<Val>)
    | VMap(entries: map<Val, Val>)

  /**
   * Objects as they lie in memory: every container, sets and maps too, has the order in which it
   * is iterated. An item of a map is a pair.
   */
  datatype Image =
    | IScalar(scalar: Bytes.Scalar)
    | IBool(flag: bool)
    | IEmpty
    | IPair(first: Image, second: Image)
    | INone
    | ISome(value: Image)
    | IItems(items: seq<Image>)

  ghost predicate HasType(ty: Ty, v: Val)
    decreases ty, 0
  {
    match ty
    case Scalar(k) => v.VScalar? && v.scalar.Kind() == k
    case Boolean => v.VBool?
    case Empty => v.VEmpty?
    case Pair(a, b) => v.VPair? && HasType(a, v.first) && HasType(b, v.second)
    case Optional(t) => v.VNone? || (v.VSome? && HasType(t, v.value))
    case Container(Sequence, t) => v.VSeq? && HaveType(t, v.items)
    case Container(Array(n), t) => v.VSeq? && |v.items| == n && HaveType(t, v.items)
    case Container(Set, t) => v.VSet? && forall x :: x in v.keys ==> HasType(t, x)
    case Container(Map, t) => v.VMap? && forall x :: x in v.entries ==> HasType(t, VPair(x, v.entries[x]))
  }

  ghost predicate HaveType(ty: Ty, vs: seq<Val>)
    decreases ty, 1
  {
    forall i :: 0 <= i < |vs| ==> HasType(ty, vs[i])
  }

  /** A value-initialised object: `T value {}`. */
  function Default(ty: Ty): (v: Val)
    ensures HasType(ty, v)
  {
    match ty
    case Scalar(k) => VScalar(FromDigits(k, seq(Width(k), _ => 0)))
    case Boolean => VBool(false)
    case Empty => VEmpty
    case Pair(a, b) => VPair(Default(a), Default(b))
    case Optional(_) => VNone
    case Container(Sequence, _) => VSeq([])
    case Container(Array(n), t) => VSeq(seq(n, _ => Default(t)))
    case Container(Set, _) => VSet({})
    case Container(Map, _) => VMap(map[])
  }

  function Defaults(ty: Ty, n: nat): (vs: seq<Val>)
    ensures |vs| == n && HaveType(ty, vs)
    ensures forall i :: 0 <= i < n ==> vs[i] == Default(ty)
  {
    seq(n, _ => Default(ty))
  }

  /** `container.resize(n)`: the first items stay, new ones are value-initialised. */
  function Resize(ty: Ty, vs: seq<Val>, n: nat): (r: seq<Val>)
    ensures |r| == n
    ensures forall i :: 0 <= i < n ==> r[i] == if i < |vs| then vs[i] else Default(ty)
    ensures HaveType(ty, vs) ==> HaveType(ty, r)
  {
    if n <= |vs| then vs[..n] else vs + Defaults(ty, n - |vs|)
  }

  // ----- Containers of keys -------------------------------------------------------------------

  function KeySet(vs: seq<Val>): set<Val> {
    set x | x in vs
  }

  /** Inserting pairs one after the other; `insert` leaves a key that is already there alone. */
  function InsertAll(m: map<Val, Val>, vs: seq<Val>): map<Val, Val>
    decreases |vs|
  {
    if vs == [] then m
    else if vs[0].VPair? && vs[0].first !in m then InsertAll(m[vs[0].first := vs[0].second], vs[1..])
    else InsertAll(m, vs[1..])
  }

  // ----- What an object in memory stands for --------------------------------------------------

  /** The value of a container from the values of its items in iteration order. */
  function Collect(form: Form, vs: seq<Val>): Val {
    match form
    case Sequence => VSeq(vs)
    case Array(_) => VSeq(vs)
    case Set => VSet(KeySet(vs))
    case Map => VMap(InsertAll(map[], vs))
  }

  /** The value of an object (of no interest for one that does not have the shape of its type). */
  function Abs(ty: Ty, img: Image): Val
    decreases ty, 0
  {
    match (ty, img)
    case (Scalar(_), IScalar(v)) => VScalar(v)
    case (Boolean, IBool(b)) => VBool(b)
    case (Pair(a, b), IPair(x, y)) => VPair(Abs(a, x), Abs(b, y))
    case (Optional(t), ISome(x)) => VSome(Abs(t, x))
    case (Optional(_), _) => VNone
    case (Container(form, t), IItems(items)) => Collect(form, AbsAll(t, items))
    case (_, _) => VEmpty
  }

  function AbsAll(ty: Ty, items: seq<Image>): (vs: seq<Val>)
    ensures |vs| == |items|
    ensures forall i :: 0 <= i < |items| ==> vs[i] == Abs(ty, items[i])
    decreases ty, 1
  {
    seq(|items|, i requires 0 <= i < |items| => Abs(ty, items[i]))
  }

  /** The keys of a set or a map are pairwise different. */
  ghost predicate DistinctKeys(form: Form, vs: seq<Val>) {
    match form
    case Set => forall i, j :: 0 <= i < j < |vs| ==> vs[i] != vs[j]
    case Map => FreshPairs(map[], vs)
    case _ => true
  }

  /** Pairs with different keys, none of which is in the map. */
  ghost predicate FreshPairs(m: map<Val, Val>, vs: seq<Val>) {
    && (forall i :: 0 <= i < |vs| ==> vs[i].VPair? && vs[i].first !in m)
    && (forall i, j :: 0 <= i < j < |vs| ==> vs[i].first != vs[j].first)
  }

  /** A sequence longer than 65535 does not pass the assertion in `serialize`; an array has its length. */
  predicate LengthAllowed(form: Form, n: nat) {
    match form
    case Sequence => n <= 65535
    case Array(m) => n == m
    case _ => true
  }

  /** Well-formed objects of a type. */
  ghost predicate Shape(ty: Ty, img: Image)
    decreases ty, 0
  {
    match ty
    case Scalar(k) => img.IScalar? && img.scalar.Kind() == k
    case Boolean => img.IBool?
    case Empty => img.IEmpty?
    case Pair(a, b) => img.IPair? && Shape(a, img.first) && Shape(b, img.second)
    case Optional(t) => img.INone? || (img.ISome? && Shape(t, img.value))
    case Container(form, t) =>
      && img.IItems?
      && Shapes(t, img.items)
      && LengthAllowed(form, |img.items|)
      && DistinctKeys(form, AbsAll(t, img.items))
  }

  ghost predicate Shapes(ty: Ty, items: seq<Image>)
    decreases ty, 1
  {
    forall i :: 0 <= i < |items| ==> Shape(ty, items[i])
  }

  // ----- Serialization ------------------------------------------------------------------------

  function EncodeBool(b: bool): seq<byte> {
    [if b then 1 else 0]
  }

  /** A container size: the length cast to 16 bits, written as a scalar. */
  function EncodeCount(h: Host, n: nat): (s: seq<byte>)
    ensures |s| == 2
  {
    Store(h, I16(ToCount(n)))
  }

  function Encode(h: Host, ty: Ty, img: Image): seq<byte>
    requires Shape(ty, img)
    decreases ty, 0
  {
    match ty
    case Scalar(_) => Store(h, img.scalar)
    case Boolean => EncodeBool(img.flag)
    case Empty => []
    case Pair(a, b) => Encode(h, a, img.first) + Encode(h, b, img.second)
    case Optional(t) => if img.ISome? then EncodeBool(true) + Encode(h, t, img.value) else EncodeBool(false)
    case Container(_, t) => EncodeCount(h, |img.items|) + EncodeAll(h, t, img.items)
  }

  function EncodeAll(h: Host, ty: Ty, items: seq<Image>): seq<byte>
    requires Shapes(ty, items)
    decreases ty, 1, |items|
  {
    if items == [] then [] else Encode(h, ty, items[0]) + EncodeAll(h, ty, items[1..])
  }

  /** The declared size: `size(value)`. */
  function Size(ty: Ty, img: Image): nat
    requires Shape(ty, img)
    decreases ty, 0
  {
    match ty
    case Scalar(k) => Width(k)
    case Boolean => 1
    case Empty => 0
    case Pair(a, b) => 0 + Size(a, img.first) + Size(b, img.second)
    case Optional(t) => if img.ISome? then 0 + 1 + Size(t, img.value) else 0 + 1
    case Container(_, t) => Accumulate(t, img.items, 2)
  }

  /** `std::accumulate` over a container, starting from `sum`. */
  function Accumulate(ty: Ty, items: seq<Image>, sum: nat): nat
    requires Shapes(ty, items)
    decreases ty, 1, |items|
  {
    if items == [] then sum else Accumulate(ty, items[1..], sum + Size(ty, items[0]))
  }

  // ----- Deserialization ----------------------------------------------------------------------

  /** What is left of the input after the value read from its front; None when the read fails. */
  datatype Read<+T> = Fail | Got(value: T, rest: seq<byte>)

  function DecodeScalar(h: Host, k: Kind, bs: seq<byte>): Read<Bytes.Scalar> {
    if |bs| < Width(k) then Fail else Got(Load(h, k, bs[..Width(k)]), bs[Width(k)..])
  }

  /** Only 0 and 1 are valid representations of a bool. */
  function DecodeBool(bs: seq<byte>): Read<bool> {
    if |bs| < 1 || (bs[0] != 0 && bs[0] != 1) then Fail else Got(bs[0] == 1, bs[1..])
  }

  function DecodeCount(h: Host, bs: seq<byte>): Read<nat> {
    match DecodeScalar(h, K16, bs)
    case Got(I16(c), rest) => Got(CountValue(c), rest)
    case _ => Fail
  }

  /** The assertion an array makes about the count it reads. */
  predicate CountAccepted(form: Form, n: nat) {
    form.Array? ==> n == form.length
  }

  /** The items a container is filled through: its own after `resize`, or fresh ones after `clear`. */
  function Slots(form: Form, ty: Ty, target: Val, n: nat): (vs: seq<Val>)
    requires HasType(Container(form, ty), target) && CountAccepted(form, n)
    ensures |vs| == n && HaveType(ty, vs)
  {
    match form
    case Sequence => Resize(ty, target.items, n)
    case Array(_) => target.items
    case _ => Defaults(ty, n)
  }

  /** Reading a value of type `ty` into an object that holds `target`. */
  function Decode(h: Host, ty: Ty, target: Val, bs: seq<byte>): Read<Val>
    requires HasType(ty, target)
    decreases ty, 0
  {
    match ty
    case Scalar(k) => (match DecodeScalar(h, k, bs)
                       case Got(v, rest) => Got(VScalar(v), rest)
                       case Fail => Fail)
    case Boolean => (match DecodeBool(bs)
                     case Got(b, rest) => Got(VBool(b), rest)
                     case Fail => Fail)
    case Empty => Got(VEmpty, bs)
    case Pair(a, b) => (match Decode(h, a, target.first, bs)
                        case Fail => Fail
                        case Got(x, rest) =>
                          match Decode(h, b, target.second, rest)
                          case Fail => Fail
                          case Got(y, rest') => Got(VPair(x, y), rest'))
    case Optional(t) => (match DecodeBool(bs)
                         case Fail => Fail
                         case Got(present, rest) =>
                           if !present then Got(target, rest)
                           else match Decode(h, t, Default(t), rest)
                                case Fail => Fail
                                case Got(x, rest') => Got(VSome(x), rest'))
    case Container(form, t) => (match DecodeCount(h, bs)
                                case Fail => Fail
                                case Got(n, rest) =>
                                  if !CountAccepted(form, n) then Fail
                                  else match DecodeInto(h, t, Slots(form, t, target, n), rest)
                                       case Fail => Fail
                                       case Got(vs, rest') => Got(Collect(form, vs), rest'))
  }

  /** Reading the items of a container one after the other. */
  function DecodeInto(h: Host, ty: Ty, slots: seq<Val>, bs: seq<byte>): (r: Read<seq<Val>>)
    requires HaveType(ty, slots)
    ensures r.Got? ==> |r.value| == |slots|
    decreases ty, 1, |slots|
  {
    if slots == [] then Got([], bs)
    else match Decode(h, ty, slots[0], bs)
         case Fail => Fail
         case Got(v, rest) =>
           match DecodeInto(h, ty, slots[1..], rest)
           case Fail => Fail
           case Got(vs, rest') => Got([v] + vs, rest')
  }

  // ----- Reading one thing after the other ----------------------------------------------------

  /** What was read before, followed by what is read next. */
  ghost function Prepend<T>(vs: seq<T>, d: Read<seq<T>>): Read<seq<T>> {
    if d.Got? then Got(vs + d.value, d.rest) else Fail
  }

  lemma PrependNothing<T>(d: Read<seq<T>>)
    ensures Prepend([], d) == d
  {
    if d.Got? {
      assert [] + d.value == d.value;
    }
  }

  lemma PrependTwice<T>(vs: seq<T>, v: T, d: Read<seq<T>>)
    ensures Prepend(vs, Prepend([v], d)) == Prepend(vs + [v], d)
  {
    if d.Got? {
      ConcatAssociates(vs, [v], d.value);
    }
  }
}
