/**
 * What travels over the connection: the reader takes a 16-bit length and then that many bytes, over
 * and over; the writer puts a length in front of a message.
 */
module Frames {
  import opened Common
  import opened Bytes
  import opened Codec
  import opened CodecProofs
  import opened Fields
  import MessageLaws

  // ----- Reading ------------------------------------------------------------------------------

  /** `m_incoming_data_length` after two bytes were read straight into its memory. */
  function LengthOf(h: Host, header: seq<byte>): nat
    requires |header| == 2
  {
    CountValue(FromMemory(h, K16, header).h)
  }

  /** A length and its body, as this host reads them. */
  function Frame(h: Host, body: seq<byte>): seq<byte> {
    Memory(h, I16(ToCount(|body|))) + body
  }

  lemma FrameHeader(h: Host, body: seq<byte>)
    requires |body| < 65536
    ensures |Frame(h, body)| == 2 + |body| && LengthOf(h, Frame(h, body)[..2]) == |body|
  {
    hide Memory, FromMemory, ToCount, CountValue;
    var v := I16(ToCount(|body|));
    MemoryOf(h, v);
    CountCast(|body|);
    assert Frame(h, body)[..2] == Memory(h, v);
  }

  lemma MemoryOf(h: Host, v: Bytes.Scalar)
    ensures |Memory(h, v)| == Width(v.Kind()) && FromMemory(h, v.Kind(), Memory(h, v)) == v
  {
    hide Digits, FromDigits;
    FromDigitsOfDigits(v);
    ReverseTwice(Digits(v));
  }

  lemma HeaderOfLength(h: Host, header: seq<byte>)
    requires |header| == 2
    ensures LengthOf(h, header) < 65536 && Memory(h, I16(ToCount(LengthOf(h, header)))) == header
  {
    hide Digits, FromDigits, CountValue;
    var v := FromMemory(h, K16, header);
    CountBound(v.h);
    ToCountOfValue(v.h);
    DigitsOfFromDigits(K16, if h.LittleEndian? then header else Reverse(header));
    ReverseTwice(header);
  }

  /** The input begins with a whole frame. */
  predicate Complete(h: Host, bs: seq<byte>) {
    |bs| >= 2 && |bs| >= 2 + LengthOf(h, bs[..2])
  }

  /** The bodies of the whole frames, and what is left. */
  function Split(h: Host, bs: seq<byte>): (seq<seq<byte>>, seq<byte>)
    decreases |bs|
  {
    if !Complete(h, bs) then ([], bs)
    else
      var end := 2 + LengthOf(h, bs[..2]);
      var (bodies, rest) := Split(h, bs[end..]);
      ([bs[2..end]] + bodies, rest)
  }

  function Join(h: Host, bodies: seq<seq<byte>>): seq<byte> {
    if bodies == [] then [] else Frame(h, bodies[0]) + Join(h, bodies[1..])
  }

  ghost predicate Fit(bodies: seq<seq<byte>>) {
    forall i :: 0 <= i < |bodies| ==> |bodies[i]| < 65536
  }

  lemma SplitOff(h: Host, body: seq<byte>, bs: seq<byte>)
    requires |body| < 65536
    ensures Split(h, Frame(h, body) + bs) == ([body] + Split(h, bs).0, Split(h, bs).1)
  {
    FrameHeader(h, body);
    var all := Frame(h, body) + bs;
    hide LengthOf;
    assert all[..2] == Frame(h, body)[..2];
    assert all[2..2 + |body|] == body && all[2 + |body|..] == bs;
  }

  lemma NoFrame(h: Host, bs: seq<byte>)
    ensures !Complete(h, bs) ==> Split(h, bs) == ([], bs)
  {
    hide LengthOf;
  }

  /** Whatever list of frames the input consists of, with an incomplete frame at its end, is what the reader finds. */
  lemma {:induction false} SplitIsUnique(h: Host, bodies: seq<seq<byte>>, rest: seq<byte>)
    requires Fit(bodies) && !Complete(h, rest)
    ensures Split(h, Join(h, bodies) + rest) == (bodies, rest)
  {
    hide Frame, Complete, Split;
    if bodies == [] {
      assert [] + rest == rest;
      NoFrame(h, rest);
    } else {
      SplitIsUnique(h, bodies[1..], rest);
      SplitOff(h, bodies[0], Join(h, bodies[1..]) + rest);
      ConcatAssociates(Frame(h, bodies[0]), Join(h, bodies[1..]), rest);
      assert [bodies[0]] + bodies[1..] == bodies;
    }
  }

  lemma FrameAtFront(h: Host, bs: seq<byte>)
    requires Complete(h, bs)
    ensures var end := 2 + LengthOf(h, bs[..2]);
            end < 65538 && end <= |bs| && Frame(h, bs[2..end]) == bs[..end]
  {
    HeaderOfLength(h, bs[..2]);
    hide LengthOf, Memory, ToCount;
    var end := 2 + LengthOf(h, bs[..2]);
    assert bs[..2] + bs[2..end] == bs[..end];
  }

  lemma JoinMore(h: Host, body: seq<byte>, bodies: seq<seq<byte>>)
    ensures Join(h, [body] + bodies) == Frame(h, body) + Join(h, bodies)
  {
    hide Frame;
    assert ([body] + bodies)[1..] == bodies;
  }

  lemma SplitMore(h: Host, bs: seq<byte>)
    requires Complete(h, bs)
    ensures var end := 2 + LengthOf(h, bs[..2]);
            Split(h, bs) == ([bs[2..end]] + Split(h, bs[end..]).0, Split(h, bs[end..]).1)
  {
    hide LengthOf;
  }

  /** Every input is such a list: nothing is lost or added. */
  lemma {:induction false} SplitLosesNothing(h: Host, bs: seq<byte>)
    ensures var (bodies, rest) := Split(h, bs);
            Fit(bodies) && !Complete(h, rest) && Join(h, bodies) + rest == bs
    decreases |bs|
  {
    if !Complete(h, bs) {
      assert [] + bs == bs;
    } else {
      FrameAtFront(h, bs);
      SplitMore(h, bs);
      var end := 2 + LengthOf(h, bs[..2]);
      hide *;
      SplitLosesNothing(h, bs[end..]);
      var (bodies, rest) := Split(h, bs[end..]);
      JoinMore(h, bs[2..end], bodies);
      ConcatAssociates(bs[..end], Join(h, bodies), rest);
      assert bs[..end] + bs[end..] == bs;
      FitMore(bs[2..end], bodies);
    }
  }

  lemma FitMore(body: seq<byte>, bodies: seq<seq<byte>>)
    requires |body| < 65536 && Fit(bodies)
    ensures Fit([body] + bodies)
  {
  }

  /** Reading on after a part of the input gives the same frames as reading it all. */
  lemma SplitInParts(h: Host, a: seq<byte>, b: seq<byte>)
    ensures Split(h, a + b) == (Split(h, a).0 + Split(h, Split(h, a).1 + b).0, Split(h, Split(h, a).1 + b).1)
  {
    hide Split, Join, Complete;
    var (bodies, rest) := Split(h, a);
    var (more, last) := Split(h, rest + b);
    SplitLosesNothing(h, a);
    SplitLosesNothing(h, rest + b);
    JoinAppend(h, bodies, more);
    ConcatAssociates(Join(h, bodies), rest, b);
    ConcatAssociates(Join(h, bodies), Join(h, more), last);
    SplitIsUnique(h, bodies + more, last);
  }

  lemma {:induction false} JoinAppend(h: Host, xs: seq<seq<byte>>, ys: seq<seq<byte>>)
    ensures Join(h, xs + ys) == Join(h, xs) + Join(h, ys)
  {
    hide Frame;
    if xs == [] {
      assert xs + ys == ys;
    } else {
      JoinAppend(h, xs[1..], ys);
      assert (xs + ys)[1..] == xs[1..] + ys;
      ConcatAssociates(Frame(h, xs[0]), Join(h, xs[1..]), Join(h, ys));
    }
  }

  /** What a reader finds that is given the input in pieces. */
  function Arrive(h: Host, unread: seq<byte>, pieces: seq<seq<byte>>): (seq<seq<byte>>, seq<byte>)
    decreases |pieces|
  {
    if pieces == [] then ([], unread)
    else
      var (bodies, rest) := Split(h, unread + pieces[0]);
      var (more, last) := Arrive(h, rest, pieces[1..]);
      (bodies + more, last)
  }

  function Concat(pieces: seq<seq<byte>>): seq<byte> {
    if pieces == [] then [] else pieces[0] + Concat(pieces[1..])
  }

  /** How the connection cuts the stream makes no difference. */
  lemma {:induction false} PiecesDoNotMatter(h: Host, unread: seq<byte>, pieces: seq<seq<byte>>)
    requires !Complete(h, unread)
    ensures Arrive(h, unread, pieces) == Split(h, unread + Concat(pieces))
    decreases |pieces|
  {
    if pieces == [] {
      assert unread + [] == unread;
    } else {
      var a, b := unread + pieces[0], Concat(pieces[1..]);
      SplitLosesNothing(h, a);
      PiecesDoNotMatter(h, Split(h, a).1, pieces[1..]);
      SplitInParts(h, a, b);
      ConcatAssociates(unread, pieces[0], b);
    }
  }

  // ----- Writing ------------------------------------------------------------------------------

  /** `m_outgoing_data_length`: a 16-bit number that starts at 0 and to which two sizes are added. */
  function OutgoingLength(size: nat): nat {
    (2 + size % 65536) % 65536
  }

  /** What `writeMessage` puts into its stream. */
  ghost function Written(h: Host, es: seq<Entry>, layout: seq<Image>): (bs: seq<byte>)
    requires Lays(es, layout)
  {
    EncodeCount(h, OutgoingLength(DeclaredSize(es, layout))) + Wire(h, es, layout)
  }

  /**
   * The length says how many bytes there are, and they fill the buffer of that length, exactly when
   * the message and its length need less than 65536 bytes. The first two bytes always decode to it.
   */
  lemma BufferIsFilledExactly(w: Host, r: Host, es: seq<Entry>, layout: seq<Image>)
    requires Lays(es, layout)
    ensures |Written(w, es, layout)| == OutgoingLength(DeclaredSize(es, layout))
       <==> 2 + DeclaredSize(es, layout) < 65536
    ensures DecodeCount(r, Written(w, es, layout)) == Got(OutgoingLength(DeclaredSize(es, layout)), Wire(w, es, layout))
  {
    hide DeclaredSize, Wire, Encode, Store, ToCount, CountValue, Lays;
    MessageLaws.WireSize(w, es, layout);
    CountReadsBack(w, r, OutgoingLength(DeclaredSize(es, layout)), Wire(w, es, layout));
  }

  lemma CountReadsBack(w: Host, r: Host, n: nat, rest: seq<byte>)
    requires n < 65536
    ensures DecodeCount(r, EncodeCount(w, n) + rest) == Got(n, rest)
  {
    hide Store, Load, ToCount, CountValue;
    var v := I16(ToCount(n));
    LoadOfStore(w, r, v);
    CountCast(n);
    var bs := EncodeCount(w, n) + rest;
    assert bs[..2] == Store(w, v) && bs[2..] == rest;
  }

  lemma HeaderOfWritten(w: Host, n: nat)
    requires n < 65536
    ensures LengthOf(LittleEndian, EncodeCount(w, n)) == n
  {
    hide Digits, FromDigits, ToCount, CountValue, Swap;
    StoreIgnoresHost(w, I16(ToCount(n)));
    FromDigitsOfDigits(I16(ToCount(n)));
    CountCast(n);
  }

  /**
   * The writer's length counts its own two bytes, and the reader's does not: a reader never finds a
   * frame in a single written message. In two it finds a body that ends with the second's length.
   */
  lemma WrittenIsNoFrame(w: Host, es: seq<Entry>, layout: seq<Image>, bs: seq<byte>)
    requires Lays(es, layout) && 2 + DeclaredSize(es, layout) < 65536
    ensures var all := Written(w, es, layout) + bs;
            && (|bs| < 2 ==> Split(LittleEndian, all) == ([], all))
            && (|bs| >= 2 ==>
                  && Split(LittleEndian, all).0 != []
                  && Split(LittleEndian, all).0[0] == Wire(w, es, layout) + bs[..2])
  {
    hide DeclaredSize, Wire, EncodeCount, LengthOf, Lays;
    MessageLaws.WireSize(w, es, layout);
    var n := 2 + DeclaredSize(es, layout);
    HeaderOfWritten(w, n);
    var all := Written(w, es, layout) + bs;
    assert all[..2] == EncodeCount(w, n);
    assert LengthOf(LittleEndian, all[..2]) == n && |all| == n + |bs|;
    if |bs| >= 2 {
      SplitMore(LittleEndian, all);
      assert all[2..2 + n] == Wire(w, es, layout) + bs[..2];
    }
  }

  // ----- The body of a frame ------------------------------------------------------------------

  /** What becomes of a body: its type is not registered, reading it throws, or it is a message. */
  datatype Parsed = Unrecognised | Throws | Recognised(message: seq<Entry>)

  /** The fields of a newly created message, for each registered type. */
  type Factory = map<bv16, seq<Entry>>

  ghost predicate Prepared(factory: Factory) {
    forall kind :: kind in factory ==> Typed(factory[kind])
  }

  /** `createMessageFromStream`, for bodies that are not too short. */
  ghost function Parse(h: Host, factory: Factory, body: seq<byte>): Parsed
    requires Prepared(factory)
  {
    match DecodeScalar(h, K16, body)
    case Got(I16(kind), rest) =>
      if kind !in factory then Unrecognised
      else
        (match ReadFields(h, factory[kind], rest)
         case Got(es, _) => Recognised(es)
         case Fail => Throws)
    case _ => Throws
  }

  /** A registered type followed by the bytes of a message of that type gives that message. */
  lemma ParseOfBody(w: Host, r: Host, factory: Factory, kind: bv16, es: seq<Entry>, layout: seq<Image>)
    requires Prepared(factory) && kind in factory
    requires Lays(es, layout) && Typed(es)
    requires MessageLaws.Alike(es, factory[kind]) && MessageLaws.AllDefault(factory[kind])
    requires MessageLaws.AllFit(es, layout)
    ensures Parse(r, factory, Store(w, I16(kind)) + Wire(w, es, layout)) == Recognised(es)
  {
    hide Lays, Wire, Store, Load, ReadFields, Typed, MessageLaws.AllFit, MessageLaws.Alike, MessageLaws.AllDefault;
    MessageLaws.NewMessageReadsBack(w, r, es, layout, factory[kind], []);
    LoadOfStore(w, r, I16(kind));
    var body := Store(w, I16(kind)) + Wire(w, es, layout);
    assert body[..2] == Store(w, I16(kind)) && body[2..] == Wire(w, es, layout) == Wire(w, es, layout) + [];
  }

  /**
   * A body that begins with a type that is not registered is not recognised, whatever follows; reading
   * one that is too short for a type throws.
   */
  lemma ParseOfUnknown(w: Host, r: Host, factory: Factory, kind: bv16, rest: seq<byte>)
    requires Prepared(factory) && kind !in factory
    ensures Parse(r, factory, Store(w, I16(kind)) + rest) == Unrecognised
    ensures |rest| < 2 ==> Parse(r, factory, rest) == Throws
  {
    hide Store, Load, ReadFields;
    LoadOfStore(w, r, I16(kind));
    var body := Store(w, I16(kind)) + rest;
    assert body[..2] == Store(w, I16(kind));
  }
}
