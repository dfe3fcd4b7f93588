/** The transport's objects: the queues, the buffers, and the handlers that change them. */
module TcpTransports {
  import opened Common
  import opened Bytes
  import opened Codec
  import opened Fields
  import opened Frames
  import opened Transport
  import CodecStream
  import MessageLaws

  /** `MessageQueue`: first in, first out. */
  class MessageQueue<T> {
    var queue: seq<T>

    constructor ()
      ensures queue == []
    {
      queue := [];
    }

    method Push(msg: T)
      modifies this
      ensures queue == old(queue) + [msg]
    {
      queue := queue + [msg];
    }

    /** The oldest message, or nothing. */
    method Pull() returns (r: Option<T>)
      modifies this
      ensures r == if old(queue) == [] then None else Some(old(queue)[0])
      ensures queue == if old(queue) == [] then [] else old(queue)[1..]
    {
      if queue != [] {
        r := Some(queue[0]);
        queue := queue[1..];
      } else {
        r := None;
      }
    }

    function Size(): nat
      reads this
    {
      |queue|
    }
  }

  /**
   * The transport. `requests` holds the state of the promises; `received`, `routed` and
   * `written` record history. `unread` is what the connection has delivered and no handler has taken.
   */
  class TcpTransport {
    const host: Host
    const parse: seq<byte> -> Parsed
    const incoming: MessageQueue<Fieldset>
    const outgoing: MessageQueue<Outgoing>
    var pending: map<MessageId, nat>
    var stamps: map<MessageId, int>
    var requests: seq<Request>
    var length: nat
    var inBody: bool
    var unread: seq<byte>
    ghost var header: seq<byte>
    ghost var received: seq<Fieldset>
    ghost var routed: seq<Routed>
    ghost var written: seq<Outgoing>

    ghost function View(): State
      reads this, incoming, outgoing
    {
      State(pending, stamps, incoming.queue, outgoing.queue, requests, received, routed, written)
    }

    /** The part of the input whose frame is not complete yet. */
    ghost function Unparsed(): seq<byte>
      reads this
    {
      if inBody then header + unread else unread
    }

    ghost predicate Valid()
      reads this, incoming, outgoing
    {
      && Inv(View())
      && (inBody ==> |header| == 2 && length == LengthOf(host, header))
    }

    constructor (host: Host, parse: seq<byte> -> Parsed)
      ensures Valid() && View() == INITIAL && Unparsed() == []
      ensures this.host == host && this.parse == parse && fresh(incoming) && fresh(outgoing)
    {
      this.host, this.parse := host, parse;
      incoming := new MessageQueue<Fieldset>();
      outgoing := new MessageQueue<Outgoing>();
      pending, stamps, requests := map[], map[], [];
      length, inBody, unread := 0, false, [];
      received, routed, written := [], [], [];
      new;
      InitialInv();
    }

    method WriteMessage()
      modifies outgoing, this`written
      ensures View() == WriteNext(old(View()))
    {
      var msg := outgoing.Pull();
      if msg.None? {
        return;
      }
      written := written + [msg.value];
    }

    method DoSend(msg: Outgoing)
      modifies outgoing, this`written
      ensures View() == Sent(old(View()), msg)
      ensures if old(outgoing.queue) == [] then outgoing.queue == [] && written == old(written) + [msg]
              else outgoing.queue == old(outgoing.queue) + [msg] && written == old(written)
    {
      var inProgress := outgoing.Size() > 0;
      outgoing.Push(msg);
      if !inProgress {
        WriteMessage();
      }
    }

    method DoReceive() returns (r: Option<Fieldset>)
      modifies incoming, this`received
      ensures View() == Received(old(View()))
      ensures if old(incoming.queue) == [] then r == None && incoming.queue == []
              else r == Some(old(incoming.queue)[0]) && incoming.queue == old(incoming.queue)[1..]
    {
      r := None;
      if incoming.Size() > 0 {
        r := incoming.Pull();
        received := received + [r.value];
      }
    }

    method DoRequest(msg: Outgoing, now: int) returns (request: nat)
      modifies outgoing, this`written, this`pending, this`stamps, this`requests
      ensures request == |old(requests)|
      ensures msg.id !in old(pending) ==> pending == old(pending)[msg.id := request]
      ensures msg.id !in old(stamps) ==> stamps == old(stamps)[msg.id := now]
      ensures msg.id in old(pending) ==> pending == old(pending)
      ensures msg.id in old(stamps) ==> stamps == old(stamps)
      ensures old(outgoing.queue) == [] ==> written == old(written) + [msg]
      ensures View() == Sent(Registered(old(View()), msg.id, now), msg)
    {
      request := |requests|;
      var inserted := msg.id !in pending;
      requests := requests + [Request(msg.id, if inserted then Pending else Broken)];
      if inserted {
        pending := pending[msg.id := request];
      }
      if msg.id !in stamps {
        stamps := stamps[msg.id := now];
      }
      DoSend(msg);
    }

    /** Sets a promise; one that is set already throws. */
    method SetPromise(request: nat, outcome: Outcome) returns (ok: bool)
      requires request < |requests|
      modifies this`requests
      ensures ok == (old(requests)[request].outcome == Pending)
      ensures requests
           == if ok then old(requests)[request := old(requests)[request].(outcome := outcome)] else old(requests)
    {
      ok := requests[request].outcome == Pending;
      if ok {
        requests := requests[request := requests[request].(outcome := outcome)];
      }
    }

    /** The keys are visited in an arbitrary order; `clock` is its reading when a key is visited. */
    method RemoveExpiredRequests(clock: MessageId -> int) returns (ghost order: seq<MessageId>)
      requires Valid()
      modifies this`pending, this`stamps, this`requests
      ensures Valid() && Enumerates(order, old(stamps).Keys)
      ensures View() == ExpiredAll(old(View()), Overdues(old(View()), clock, order))
    {
      hide Correlated, Delivered, QueueOf;
      ghost var before := View();
      var ids: seq<MessageId> := [];
      var rest := stamps.Keys;
      order := [];
      while rest != {}
        invariant rest <= stamps.Keys
        invariant Enumerates(order, stamps.Keys - rest)
        invariant ids == Overdues(before, clock, order)
      {
        var id :| id in rest;
        rest := rest - {id};
        assert (order + [id])[..|order|] == order;
        order := order + [id];
        if Seconds(clock(id) - stamps[id]) > 30 {
          ids := ids + [id];
        }
      }
      for k := 0 to |ids|
        invariant View() == ExpiredAll(before, ids[..k]) && Inv(View())
      {
        assert ids[..k + 1][..k] == ids[..k];
        ExpiredAllKeeps(before, ids[..k + 1]);
        ExpireRequest(ids[k]);
      }
      assert ids[..|ids|] == ids;
    }

    /** One turn of the second loop. */
    method ExpireRequest(id: MessageId)
      requires Inv(View())
      modifies this`pending, this`stamps, this`requests
      ensures View() == ExpiredOne(old(View()), id)
    {
      stamps := stamps - {id};
      if id in pending {
        var ok := SetPromise(pending[id], Expired);
        if ok {
          pending := pending - {id};
        }
      }
    }

    /** `promise.set_value(...)`: if it throws, the rest is skipped. */
    method Answer(id: MessageId, message: Fieldset)
      requires Unset(View(), id)
      modifies this`pending, this`stamps, this`requests, this`routed
      ensures View()
           == Settled(old(View()), id, Answered(message)).(
                routed := old(routed) + [ToRequest(message, old(pending)[id])])
    {
      var request := pending[id];
      var ok := SetPromise(request, Answered(message));
      if ok {
        pending := pending - {id};
        stamps := stamps - {id};
        routed := routed + [ToRequest(message, request)];
      }
    }

    method Enqueue(message: Fieldset)
      modifies incoming, this`routed
      ensures View() == Queued(old(View()), message)
    {
      incoming.Push(message);
      routed := routed + [ToQueue(message)];
    }

    method OnMessageRead(parsed: Parsed)
      requires Valid()
      modifies incoming, this`pending, this`stamps, this`requests, this`routed
      ensures Valid() && View() == Handled(old(View()), parsed)
    {
      hide Inv, SourceOf, LengthOf, Settled, Unset, Queued;
      ReadKeeps(View(), parsed);
      if parsed.Recognised? {
        var source := SourceOf(parsed.message);
        if source.WrongType? {
          return;
        }
        if source.Id? && source.id in pending {
          PendingIsUnset(View(), source.id);
          Answer(source.id, parsed.message);
        } else {
          Enqueue(parsed.message);
        }
      }
    }

    /** The handler of `readMessageLength`. */
    method OnLength()
      requires Valid() && !inBody && |unread| >= 2
      modifies this`length, this`inBody, this`unread, this`header
      ensures Valid() && inBody && |unread| < old(|unread|)
      ensures Unparsed() == old(Unparsed()) && View() == old(View())
    {
      hide Inv, LengthOf;
      length := LengthOf(host, unread[..2]);
      header := unread[..2];
      assert unread == header + unread[2..];
      unread := unread[2..];
      inBody := true;
    }

    /** The handler of `readMessage`. */
    method OnBody() returns (body: seq<byte>)
      requires Valid() && inBody && |unread| >= length
      modifies this, incoming
      ensures Valid() && !inBody && |unread| <= old(|unread|)
      ensures View() == Handled(old(View()), parse(body))
      ensures |old(Unparsed())| >= 2 && |old(Unparsed())| >= 2 + LengthOf(host, old(Unparsed())[..2])
      ensures var end := 2 + LengthOf(host, old(Unparsed())[..2]);
              body == old(Unparsed())[2..end] && Unparsed() == old(Unparsed())[end..]
    {
      hide Inv, LengthOf, Handled;
      ghost var bs := Unparsed();
      assert bs[..2] == header && |bs| == 2 + |unread|;
      body := unread[..length];
      assert bs[2..2 + length] == body && bs[2 + length..] == unread[length..];
      unread := unread[length..];
      inBody := false;
      OnMessageRead(parse(body));
    }

    /**
     * More input arrives: each read of a length or a body completes as soon as it can, and its
     * handler starts the next. What the messages do does not depend on how the input was cut.
     */
    method Deliver(piece: seq<byte>) returns (bodies: seq<seq<byte>>)
      requires Valid()
      modifies this, incoming
      ensures Valid()
      ensures (bodies, Unparsed()) == Split(host, old(Unparsed()) + piece)
      ensures View() == ReadAll(old(View()), parse, bodies)
    {
      hide *;
      ghost var before, all := View(), Unparsed() + piece;
      bodies := [];
      Append(piece);
      NothingReadYet(host, all);
      NothingHandled(before, parse);
      while if inBody then |unread| >= length else |unread| >= 2
        invariant Valid() && View() == ReadAll(before, parse, bodies)
        invariant Reaches(host, all, bodies, Unparsed())
        decreases |unread|, inBody
      {
        if !inBody {
          OnLength();
        } else {
          FrameIsThere();
          OneFrame(host, all, bodies, Unparsed());
          var body := OnBody();
          OneMoreHandled(before, parse, bodies, body);
          bodies := bodies + [body];
        }
      }
      FrameIsMissing();
      AllRead(host, all, bodies, Unparsed());
    }

    method Append(piece: seq<byte>)
      requires Valid()
      modifies this`unread
      ensures Valid() && View() == old(View()) && Unparsed() == old(Unparsed()) + piece
    {
      hide Inv, LengthOf;
      if inBody {
        ConcatAssociates(header, unread, piece);
      }
      unread := unread + piece;
    }

    lemma FrameIsThere()
      requires Valid() && inBody && |unread| >= length
      ensures Complete(host, Unparsed())
    {
      hide Inv, LengthOf;
      assert Unparsed()[..2] == header;
    }

    lemma FrameIsMissing()
      requires Valid() && if inBody then |unread| < length else |unread| < 2
      ensures !Complete(host, Unparsed())
    {
      hide Inv, LengthOf;
      assert inBody ==> Unparsed()[..2] == header;
    }
  }

  /** The handlers of these bodies, one after the other. */
  function ReadAll(s: State, parse: seq<byte> -> Parsed, bodies: seq<seq<byte>>): State {
    if bodies == [] then s
    else Handled(ReadAll(s, parse, bodies[..|bodies| - 1]), parse(bodies[|bodies| - 1]))
  }

  lemma NothingHandled(s: State, parse: seq<byte> -> Parsed)
    ensures ReadAll(s, parse, []) == s
  {
  }

  lemma OneMoreHandled(s: State, parse: seq<byte> -> Parsed, bodies: seq<seq<byte>>, body: seq<byte>)
    ensures ReadAll(s, parse, bodies + [body]) == Handled(ReadAll(s, parse, bodies), parse(body))
  {
    hide Handled;
    assert (bodies + [body])[..|bodies|] == bodies;
  }

  lemma PendingIsUnset(s: State, id: MessageId)
    requires Inv(s) && id in s.pending
    ensures Unset(s, id)
  {
    hide Delivered, QueueOf, SourceOf;
  }

  /** The reader has found these bodies, and `bs` is left of the input. */
  predicate Reaches(h: Host, all: seq<byte>, bodies: seq<seq<byte>>, bs: seq<byte>) {
    Split(h, all) == (bodies + Split(h, bs).0, Split(h, bs).1)
  }

  lemma NothingReadYet(h: Host, all: seq<byte>)
    ensures Reaches(h, all, [], all)
  {
    hide Split;
    assert [] + Split(h, all).0 == Split(h, all).0;
  }

  lemma AllRead(h: Host, all: seq<byte>, bodies: seq<seq<byte>>, bs: seq<byte>)
    requires !Complete(h, bs) && Reaches(h, all, bodies, bs)
    ensures Split(h, all) == (bodies, bs)
  {
    NoFrame(h, bs);
    hide Split;
    assert bodies + [] == bodies;
  }

  lemma OneFrame(h: Host, all: seq<byte>, bodies: seq<seq<byte>>, bs: seq<byte>)
    requires Complete(h, bs) && Reaches(h, all, bodies, bs)
    ensures var end := 2 + LengthOf(h, bs[..2]);
            Reaches(h, all, bodies + [bs[2..end]], bs[end..])
  {
    SplitMore(h, bs);
    hide LengthOf, Split;
    var end := 2 + LengthOf(h, bs[..2]);
    ConcatAssociates(bodies, [bs[2..end]], Split(h, bs[end..]).0);
  }

  /** What `writeMessage` writes into a stream, and the length it writes in front. */
  method WriteToStream(h: Host, msg: FieldSet, layout: seq<Image>) returns (data: seq<byte>, length: nat)
    requires msg.Valid() && Lays(msg.Entries(), layout)
    ensures data == Written(h, msg.Entries(), layout)
    ensures length == OutgoingLength(DeclaredSize(msg.Entries(), layout))
  {
    hide Lays, DeclaredSize, Wire, Store, ToCount, Encode, Indexed;
    var stream := new CodecStream.Stream();
    length := 2 % 65536;
    var size := msg.SerializedSize(layout);
    length := (length + size % 65536) % 65536;
    stream.Write(EncodeCount(h, length));
    assert [] + EncodeCount(h, length) == EncodeCount(h, length);
    msg.Serialize(h, stream, layout);
    data := stream.data;
  }

  /** The buffer that `writeMessage` hands to the socket. More than 65535 bytes would not fit the buffer. */
  method FillBuffer(h: Host, msg: FieldSet, layout: seq<Image>) returns (buffer: array<byte>)
    requires msg.Valid() && Lays(msg.Entries(), layout)
    requires 2 + DeclaredSize(msg.Entries(), layout) < 65536
    ensures fresh(buffer) && buffer[..] == Written(h, msg.Entries(), layout)
  {
    hide *;
    var data, length := WriteToStream(h, msg, layout);
    BufferIsFilledExactly(h, h, msg.Entries(), layout);
    buffer := new byte[length];
    for i := 0 to |data|
      invariant buffer[..i] == data[..i]
    {
      buffer[i] := data[i];
    }
    assert buffer[..] == data;
  }
}
