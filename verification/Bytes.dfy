/** Numbers in binary, lowest digit first. */
module Binary {
  function Power(k: nat): (p: nat)
    ensures p > 0
  {
    if k == 0 then 1 else 2 * Power(k - 1)
  }

  function Shift(n: nat, k: nat): nat {
    if k == 0 then n else Shift(n / 2, k - 1)
  }

  function Digits(n: nat, k: nat): (s: seq<bool>)
    ensures |s| == k
  {
    if k == 0 then [] else [n % 2 == 1] + Digits(n / 2, k - 1)
  }

  function Value(s: seq<bool>): nat {
    if s == [] then 0 else (if s[0] then 1 else 0) + 2 * Value(s[1..])
  }

  lemma ValueBound(s: seq<bool>)
    ensures Value(s) < Power(|s|)
  {
  }

  lemma {:induction false} Split(n: nat, k: nat)
    ensures n == Value(Digits(n, k)) + Power(k) * Shift(n, k)
  {
    if k == 0 {
    } else {
      Split(n / 2, k - 1);
      var s := Digits(n, k);
      assert s[1..] == Digits(n / 2, k - 1);
      assert Power(k) * Shift(n, k) == 2 * (Power(k - 1) * Shift(n / 2, k - 1)) by {
        Regroup(Power(k - 1), Shift(n / 2, k - 1));
      }
    }
  }

  lemma Regroup(p: nat, q: nat)
    ensures (2 * p) * q == 2 * (p * q)
  {
  }

  lemma Low16Digits(n: nat)
    ensures Value(Digits(n, 16)) == n % 65536
  {
    Power16();
    Split(n, 16);
    ValueBound(Digits(n, 16));
    var v, q := Value(Digits(n, 16)), Shift(n, 16);
    assert n == v + 65536 * q && v < 65536;
  }

  lemma {:induction false} DigitsOfValue(s: seq<bool>)
    ensures Digits(Value(s), |s|) == s
  {
    if s == [] {
    } else {
      DigitsOfValue(s[1..]);
      assert Value(s) / 2 == Value(s[1..]);
    }
  }

  lemma Power16()
    ensures Power(16) == 65536
  {
    assert Power(4) == 16;
    assert Power(8) == 256;
    assert Power(12) == 4096;
  }

  lemma ValueOf4(a: bool, b: bool, c: bool, d: bool)
    ensures Value([a, b, c, d]) == Weighted(a, 1) + Weighted(b, 2) + Weighted(c, 4) + Weighted(d, 8)
    ensures Power(4) == 16 && Power(8) == 256
  {
    assert [a, b, c, d][1..] == [b, c, d] && [b, c, d][1..] == [c, d] && [c, d][1..] == [d] && [d][1..] == [];
    assert Value([d]) == Weighted(d, 1);
    assert Value([c, d]) == Weighted(c, 1) + Weighted(d, 2);
    assert Value([b, c, d]) == Weighted(b, 1) + Weighted(c, 2) + Weighted(d, 4);
  }

  lemma ValueOf8(s: seq<bool>)
    requires |s| == 8
    ensures Value(s)
         == Weighted(s[0], 1) + Weighted(s[1], 2) + Weighted(s[2], 4) + Weighted(s[3], 8)
            + Weighted(s[4], 16) + Weighted(s[5], 32) + Weighted(s[6], 64) + Weighted(s[7], 128)
  {
    hide Value, Power;
    assert s == [s[0], s[1], s[2], s[3]] + [s[4], s[5], s[6], s[7]];
    ValueOfMore([s[0], s[1], s[2], s[3]], [s[4], s[5], s[6], s[7]]);
    ValueOf4(s[0], s[1], s[2], s[3]);
    ValueOf4(s[4], s[5], s[6], s[7]);
  }

  /** What a bit of this weight contributes. */
  function Weighted(bit: bool, weight: nat): nat {
    if bit then weight else 0
  }

  lemma {:induction false} ValueOfMore(s: seq<bool>, t: seq<bool>)
    ensures Value(s + t) == Value(s) + Power(|s|) * Value(t)
  {
    if s == [] {
      assert s + t == t;
    } else {
      assert (s + t)[1..] == s[1..] + t;
      ValueOfMore(s[1..], t);
      Regroup(Power(|s| - 1), Value(t));
    }
  }
}

/**
 * Byte order: `ByteUtils::swap` and what `BinarySerializer` does with it for one scalar.
 * Integers are bit vectors, so a signed integer is its two's-complement bits; a floating-point
 * value is its bytes, least significant first.
 */
module Bytes {
  import opened Common
  import Binary

  type byte = bv8

  datatype Host = LittleEndian | BigEndian

  datatype Kind = K8 | K16 | K32 | K64 | KFloat(width: nat)

  datatype Scalar =
    | I8(b: bv8)
    | I16(h: bv16)
    | I32(w: bv32)
    | I64(d: bv64)
    | Float(digits: seq<byte>)
  {
    function Kind(): Kind {
      match this
      case I8(_) => K8
      case I16(_) => K16
      case I32(_) => K32
      case I64(_) => K64
      case Float(s) => KFloat(|s|)
    }
  }

  function Width(k: Kind): nat {
    match k
    case K8 => 1
    case K16 => 2
    case K32 => 4
    case K64 => 8
    case KFloat(n) => n
  }

  // ----- ByteUtils::swap ----------------------------------------------------------------------

  function Swap16(c: bv16): bv16 {
    ((c & 0xFF00) >> 8) | ((c & 0x00FF) << 8)
  }

  function Swap32(c: bv32): bv32 {
    ((c & 0xFF000000) >> 24) | ((c & 0x00FF0000) >> 8) | ((c & 0x0000FF00) << 8) | ((c & 0x000000FF) << 24)
  }

  function Swap64(c: bv64): bv64 {
    ((c & 0xFF00000000000000) >> 56) | ((c & 0x00FF000000000000) >> 40)
    | ((c & 0x0000FF0000000000) >> 24) | ((c & 0x000000FF00000000) >> 8)
    | ((c & 0x00000000FF000000) << 8) | ((c & 0x0000000000FF0000) << 24)
    | ((c & 0x000000000000FF00) << 40) | ((c & 0x00000000000000FF) << 56)
  }

  /** The floating-point swap: every byte is copied from the mirrored place in the original. */
  method SwapFloat(value: array<byte>)
    modifies value
    ensures value[..] == Reverse(old(value[..]))
  {
    var n := value.Length;
    var original := new byte[n](i requires 0 <= i < n reads value => value[i]);
    assert original[..] == old(value[..]);
    for i := 0 to n
      invariant original[..] == old(value[..])
      invariant forall k :: 0 <= k < i ==> value[k] == original[n - 1 - k]
    {
      value[i] := original[n - 1 - i];
    }
  }

  function Swap(v: Scalar): (r: Scalar)
    ensures r.Kind() == v.Kind()
  {
    match v
    case I8(b) => I8(b)
    case I16(h) => I16(Swap16(h))
    case I32(w) => I32(Swap32(w))
    case I64(d) => I64(Swap64(d))
    case Float(s) => Float(Reverse(s))
  }

  // ----- How a scalar lies in memory ----------------------------------------------------------

  function Le16(c: bv16): seq<byte> {
    [(c & 0xFF) as byte, ((c >> 8) & 0xFF) as byte]
  }

  function Le32(c: bv32): seq<byte> {
    [(c & 0xFF) as byte, ((c >> 8) & 0xFF) as byte, ((c >> 16) & 0xFF) as byte, ((c >> 24) & 0xFF) as byte]
  }

  function Le64(c: bv64): seq<byte> {
    [(c & 0xFF) as byte, ((c >> 8) & 0xFF) as byte, ((c >> 16) & 0xFF) as byte, ((c >> 24) & 0xFF) as byte,
     ((c >> 32) & 0xFF) as byte, ((c >> 40) & 0xFF) as byte, ((c >> 48) & 0xFF) as byte, ((c >> 56) & 0xFF) as byte]
  }

  /** The bytes of a scalar, least significant first. */
  function Digits(v: Scalar): (s: seq<byte>)
    ensures |s| == Width(v.Kind())
  {
    match v
    case I8(b) => [b]
    case I16(c) => Le16(c)
    case I32(c) => Le32(c)
    case I64(c) => Le64(c)
    case Float(s) => s
  }

  function FromDigits(k: Kind, s: seq<byte>): (v: Scalar)
    requires |s| == Width(k)
    ensures v.Kind() == k
  {
    match k
    case K8 => I8(s[0])
    case K16 => I16((s[0] as bv16) | ((s[1] as bv16) << 8))
    case K32 => I32((s[0] as bv32) | ((s[1] as bv32) << 8) | ((s[2] as bv32) << 16) | ((s[3] as bv32) << 24))
    case K64 =>
      I64((s[0] as bv64) | ((s[1] as bv64) << 8) | ((s[2] as bv64) << 16) | ((s[3] as bv64) << 24)
          | ((s[4] as bv64) << 32) | ((s[5] as bv64) << 40) | ((s[6] as bv64) << 48) | ((s[7] as bv64) << 56))
    case KFloat(_) => Float(s)
  }

  /** The object representation of a scalar on a host: what `reinterpret_cast<char*>(&value)` points at. */
  function Memory(h: Host, v: Scalar): seq<byte> {
    if h.LittleEndian? then Digits(v) else Reverse(Digits(v))
  }

  function FromMemory(h: Host, k: Kind, s: seq<byte>): (v: Scalar)
    requires |s| == Width(k)
    ensures v.Kind() == k
  {
    FromDigits(k, if h.LittleEndian? then s else Reverse(s))
  }

  function SwapIfNeeded(h: Host, v: Scalar): (r: Scalar)
    ensures r.Kind() == v.Kind()
  {
    if h.BigEndian? then Swap(v) else v
  }

  /** What serializing a scalar writes. */
  function Store(h: Host, v: Scalar): (s: seq<byte>)
    ensures |s| == Width(v.Kind())
  {
    Memory(h, SwapIfNeeded(h, v))
  }

  /** What deserializing a scalar leaves in the target. */
  function Load(h: Host, k: Kind, s: seq<byte>): (v: Scalar)
    requires |s| == Width(k)
    ensures v.Kind() == k
  {
    SwapIfNeeded(h, FromMemory(h, k, s))
  }

  // ----- Laws ---------------------------------------------------------------------------------

  lemma FromDigitsOfDigits(v: Scalar)
    ensures FromDigits(v.Kind(), Digits(v)) == v
  {
  }

  lemma DigitsOfFromDigits(k: Kind, s: seq<byte>)
    requires |s| == Width(k)
    ensures Digits(FromDigits(k, s)) == s
  {
    match k {
      case K8 =>
      case K16 => DigitsOfFrom16(s);
      case K32 => DigitsOfFrom32(s);
      case K64 => DigitsOfFrom64(s);
      case KFloat(_) =>
    }
  }

  lemma DigitsOfFrom16(s: seq<byte>)
    requires |s| == 2
    ensures Digits(FromDigits(K16, s)) == s
  {
    var t := Digits(FromDigits(K16, s));
    assert t[0] == s[0] && t[1] == s[1];
  }

  lemma DigitsOfFrom32(s: seq<byte>)
    requires |s| == 4
    ensures Digits(FromDigits(K32, s)) == s
  {
    var t := Digits(FromDigits(K32, s));
    assert t[0] == s[0] && t[1] == s[1] && t[2] == s[2] && t[3] == s[3];
  }

  lemma DigitsOfFrom64(s: seq<byte>)
    requires |s| == 8
    ensures Digits(FromDigits(K64, s)) == s
  {
    var t := Digits(FromDigits(K64, s));
    assert t[0] == s[0] && t[1] == s[1] && t[2] == s[2] && t[3] == s[3];
    assert t[4] == s[4] && t[5] == s[5] && t[6] == s[6] && t[7] == s[7];
  }

  lemma Swap16Twice(c: bv16)
    ensures Swap16(Swap16(c)) == c
  {
  }

  lemma Swap32Twice(c: bv32)
    ensures Swap32(Swap32(c)) == c
  {
  }

  lemma Swap64Twice(c: bv64)
    ensures Swap64(Swap64(c)) == c
  {
  }

  lemma Swap16Bytes(c: bv16)
    ensures Le16(Swap16(c)) == Flip2(Le16(c))
  {
  }

  lemma Swap32Bytes(c: bv32)
    ensures Le32(Swap32(c)) == Flip4(Le32(c))
  {
  }

  lemma Swap64Bytes(c: bv64)
    ensures Le64(Swap64(c)) == Flip8(Le64(c))
  {
  }

  /** Swapping reverses the bytes, and swapping twice gives the value back. */
  lemma SwapReversesBytes(v: Scalar)
    ensures Digits(Swap(v)) == Reverse(Digits(v))
    ensures Swap(Swap(v)) == v
  {
    match v {
      case I8(_) =>
      case I16(c) => Swap16Bytes(c); Swap16Twice(c); ReverseOf2(Le16(c));
      case I32(c) => Swap32Bytes(c); Swap32Twice(c); ReverseOf4(Le32(c));
      case I64(c) => Swap64Bytes(c); Swap64Twice(c); ReverseOf8(Le64(c));
      case Float(s) => ReverseTwice(s);
    }
  }

  /** Every host writes the same bytes, least significant first. */
  lemma StoreIgnoresHost(h: Host, v: Scalar)
    ensures Store(h, v) == Digits(v)
  {
    SwapReversesBytes(v);
    ReverseTwice(Digits(v));
  }

  lemma LoadIgnoresHost(h: Host, k: Kind, s: seq<byte>)
    requires |s| == Width(k)
    ensures Load(h, k, s) == FromDigits(k, s)
  {
    if h.BigEndian? {
      var v := FromDigits(k, s);
      DigitsOfFromDigits(k, s);
      SwapReversesBytes(v);
      // The reversed bytes are those of Swap(v), so they load as Swap(v) and are swapped back.
      FromDigitsOfDigits(Swap(v));
    }
  }

  /** A scalar written on one host is read unchanged on any other. */
  lemma LoadOfStore(writer: Host, reader: Host, v: Scalar)
    ensures Load(reader, v.Kind(), Store(writer, v)) == v
  {
    StoreIgnoresHost(writer, v);
    LoadIgnoresHost(reader, v.Kind(), Digits(v));
    FromDigitsOfDigits(v);
  }

  /** Every byte string of the right width is the encoding of exactly one scalar. */
  lemma StoreOfLoad(writer: Host, reader: Host, k: Kind, s: seq<byte>)
    requires |s| == Width(k)
    ensures Store(writer, Load(reader, k, s)) == s
  {
    LoadIgnoresHost(reader, k, s);
    DigitsOfFromDigits(k, s);
    StoreIgnoresHost(writer, FromDigits(k, s));
  }

  // ----- The 16-bit container size ------------------------------------------------------------

  function Bits8(b: byte): (s: seq<bool>)
    ensures |s| == 8
  {
    [b & 1 != 0, b & 2 != 0, b & 4 != 0, b & 8 != 0, b & 16 != 0, b & 32 != 0, b & 64 != 0, b & 128 != 0]
  }

  function Bit(b: bool, mask: byte): byte {
    if b then mask else 0
  }

  function OfBits8(s: seq<bool>): byte
    requires |s| == 8
  {
    Bit(s[0], 1) | Bit(s[1], 2) | Bit(s[2], 4) | Bit(s[3], 8)
    | Bit(s[4], 16) | Bit(s[5], 32) | Bit(s[6], 64) | Bit(s[7], 128)
  }

  function Pack(lo: byte, hi: byte): bv16 {
    (lo as bv16) | ((hi as bv16) << 8)
  }

  function Low(c: bv16): byte {
    (c & 0xFF) as byte
  }

  function High(c: bv16): byte {
    ((c >> 8) & 0xFF) as byte
  }

  /** `static_cast<std::uint16_t>(n)`: the bits of n from the seventeenth up are dropped. */
  function ToCount(n: nat): bv16 {
    var s := Binary.Digits(n, 16);
    Pack(OfBits8(s[..8]), OfBits8(s[8..]))
  }

  /** The number a 16-bit count stands for. */
  function CountValue(c: bv16): nat {
    Binary.Value(Bits8(Low(c)) + Bits8(High(c)))
  }

  lemma Unpack(lo: byte, hi: byte)
    ensures Low(Pack(lo, hi)) == lo && High(Pack(lo, hi)) == hi
  {
  }

  lemma PackOfParts(c: bv16)
    ensures Pack(Low(c), High(c)) == c
  {
  }

  lemma Bits8OfOfBits8(s: seq<bool>)
    requires |s| == 8
    ensures Bits8(OfBits8(s)) == s
  {
    var t := Bits8(OfBits8(s));
    assert t[0] == s[0] && t[1] == s[1] && t[2] == s[2] && t[3] == s[3];
    assert t[4] == s[4] && t[5] == s[5] && t[6] == s[6] && t[7] == s[7];
  }

  lemma OfBits8OfBits8(b: byte)
    ensures OfBits8(Bits8(b)) == b
  {
  }

  lemma CountBound(c: bv16)
    ensures CountValue(c) < 65536
  {
    Binary.ValueBound(Bits8(Low(c)) + Bits8(High(c)));
    Binary.Power16();
  }

  /** The cast keeps exactly the low 16 bits. */
  lemma CountCast(n: nat)
    ensures CountValue(ToCount(n)) == n % 65536
  {
    var s := Binary.Digits(n, 16);
    Unpack(OfBits8(s[..8]), OfBits8(s[8..]));
    Bits8OfOfBits8(s[..8]);
    Bits8OfOfBits8(s[8..]);
    assert s[..8] + s[8..] == s;
    Binary.Low16Digits(n);
  }

  /** Every 16-bit count is the cast of the number it stands for. */
  lemma ToCountOfValue(c: bv16)
    ensures ToCount(CountValue(c)) == c
  {
    var lo, hi := Bits8(Low(c)), Bits8(High(c));
    Binary.DigitsOfValue(lo + hi);
    assert (lo + hi)[..8] == lo && (lo + hi)[8..] == hi;
    OfBits8OfBits8(Low(c));
    OfBits8OfBits8(High(c));
    PackOfParts(c);
  }

  // ----- Bit vectors as numbers ---------------------------------------------------------------

  lemma ByteIsSum(b: byte)
    ensures b as int
         == Binary.Weighted(b & 1 != 0, 1) + Binary.Weighted(b & 2 != 0, 2) + Binary.Weighted(b & 4 != 0, 4)
            + Binary.Weighted(b & 8 != 0, 8) + Binary.Weighted(b & 16 != 0, 16) + Binary.Weighted(b & 32 != 0, 32)
            + Binary.Weighted(b & 64 != 0, 64) + Binary.Weighted(b & 128 != 0, 128)
  {
  }

  lemma Bits8AreNumber(b: byte)
    ensures Binary.Value(Bits8(b)) == b as int
  {
    hide Binary.Value, Binary.Weighted;
    ByteIsSum(b);
    Binary.ValueOf8(Bits8(b));
  }

  lemma HalvesAreNumber(c: bv16)
    ensures c as int == Low(c) as int + 256 * (High(c) as int)
  {
    var low, high := c & 0xFF, (c >> 8) & 0xFF;
    assert c >> 8 == high;
    HalvesOf(c);
    Narrow(low);
    Narrow(high);
  }

  lemma HalvesOf(c: bv16)
    ensures (c & 0xFF) as int == c as int % 256 && (c >> 8) as int == c as int / 256
  {
  }

  lemma Narrow(x: bv16)
    requires x < 0x100
    ensures (x as byte) as int == x as int
  {
  }

  /** A count stands for itself as a number. */
  lemma CountIsNumber(c: bv16)
    ensures CountValue(c) == c as int
  {
    hide Bits8, Low, High;
    HalvesAreNumber(c);
    Bits8AreNumber(Low(c));
    Bits8AreNumber(High(c));
    Binary.ValueOfMore(Bits8(Low(c)), Bits8(High(c)));
    Binary.ValueOf4(false, false, false, false);
  }

  /** The cast of a length is the 16-bit number that the length is modulo 65536. */
  lemma CastIsNumber(n: nat)
    ensures ToCount(n) == (n % 65536) as bv16
  {
    hide ToCount, CountValue;
    CountCast(n);
    CountIsNumber(ToCount(n));
  }

  /** The bytes of a 16-bit number, whatever the host: its remainder by 256, and its quotient. */
  lemma LowByteFirst(h: Host, c: bv16)
    ensures |Store(h, I16(c))| == 2
    ensures Store(h, I16(c))[0] as int == c as int % 256 && Store(h, I16(c))[1] as int == c as int / 256
  {
    StoreIgnoresHost(h, I16(c));
    hide Store;
    assert c >> 8 == (c >> 8) & 0xFF;
    HalvesOf(c);
    Narrow(c & 0xFF);
    Narrow(c >> 8);
  }

  /** A wider number is written as its low half and then its high half. */
  lemma LowHalfFirst(h: Host, c: bv32, d: bv64)
    ensures Store(h, I32(c)) == Store(h, I16((c & 0xFFFF) as bv16)) + Store(h, I16((c >> 16) as bv16))
    ensures Store(h, I64(d)) == Store(h, I32((d & 0xFFFF_FFFF) as bv32)) + Store(h, I32((d >> 32) as bv32))
  {
    StoreIgnoresHost(h, I32(c));
    StoreIgnoresHost(h, I16((c & 0xFFFF) as bv16));
    StoreIgnoresHost(h, I16((c >> 16) as bv16));
    StoreIgnoresHost(h, I64(d));
    StoreIgnoresHost(h, I32((d & 0xFFFF_FFFF) as bv32));
    StoreIgnoresHost(h, I32((d >> 32) as bv32));
    hide Store;
    HalvesOf32(c);
    HalvesOf64(d);
  }

  lemma HalvesOf32(c: bv32)
    ensures Le32(c) == Le16((c & 0xFFFF) as bv16) + Le16((c >> 16) as bv16)
  {
    var s, t := Le32(c), Le16((c & 0xFFFF) as bv16) + Le16((c >> 16) as bv16);
    assert s[0] == t[0] && s[1] == t[1] && s[2] == t[2] && s[3] == t[3];
  }

  lemma HalvesOf64(d: bv64)
    ensures Le64(d) == Le32((d & 0xFFFF_FFFF) as bv32) + Le32((d >> 32) as bv32)
  {
    var s, t := Le64(d), Le32((d & 0xFFFF_FFFF) as bv32) + Le32((d >> 32) as bv32);
    assert s[0] == t[0] && s[1] == t[1] && s[2] == t[2] && s[3] == t[3];
    assert s[4] == t[4] && s[5] == t[5] && s[6] == t[6] && s[7] == t[7];
  }
}
