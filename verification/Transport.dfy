/**
 * The TCP transport between its completion handlers: requests that wait for a reply, their expiry,
 * the queue of other incoming messages, and the messages on their way out.
 */
module Transport {
  import opened Common
  import opened Bytes
  import opened Codec
  import opened Fields
  import opened Frames
  import MessageLaws
  import CodecStream

  datatype MessageId = MessageId(number: bv32)

  type Fieldset = seq<Entry>

  datatype Outgoing = Outgoing(id: MessageId, fields: Fieldset)

  /** The field that names the message this one replies to. */
  datatype Source = NoSource | WrongType | Id(id: MessageId)

  function SourceOf(es: Fieldset): Source {
    if es == [] then NoSource
    else if es[0].name != "srcMsgId" then SourceOf(es[1..])
    else if es[0].ty == Scalar(K32) && es[0].value.VScalar? && es[0].value.scalar.I32?
    then Id(MessageId(es[0].value.scalar.w))
    else WrongType
  }

  datatype Outcome = Pending | Answered(reply: Fieldset) | Expired | Broken

  /** A call of `doRequest`, and what has become of its promise. */
  datatype Request = Request(id: MessageId, outcome: Outcome)

  /** Where a message that was read has gone. */
  datatype Routed = ToRequest(message: Fieldset, request: nat) | ToQueue(message: Fieldset)

  /**
   * `pending` maps a message identifier to the number of the request whose promise it keeps. The
   * rest of the state after `outgoing` is history.
   */
  datatype State = State(
    pending: map<MessageId, nat>,
    stamps: map<MessageId, int>,
    incoming: seq<Fieldset>,
    outgoing: seq<Outgoing>,
    requests: seq<Request>,
    received: seq<Fieldset>,
    routed: seq<Routed>,
    written: seq<Outgoing>)

  const INITIAL := State(map[], map[], [], [], [], [], [], [])

  // ----- Handlers -----------------------------------------------------------------------------

  /** `writeMessage`: the next outgoing message, if any, is given to the socket. */
  function WriteNext(s: State): State {
    if s.outgoing == [] then s
    else s.(outgoing := s.outgoing[1..], written := s.written + [s.outgoing[0]])
  }

  function Sent(s: State, message: Outgoing): State {
    var s1 := s.(outgoing := s.outgoing + [message]);
    if |s.outgoing| > 0 then s1 else WriteNext(s1)
  }

  /** `insert` keeps what is there: the promise of a repeated identifier is dropped. */
  function Registered(s: State, id: MessageId, now: int): State {
    s.(pending := if id in s.pending then s.pending else s.pending[id := |s.requests|],
       stamps := if id in s.stamps then s.stamps else s.stamps[id := now],
       requests := s.requests + [Request(id, if id in s.pending then Broken else Pending)])
  }

  predicate Unset(s: State, id: MessageId) {
    id in s.pending && s.pending[id] < |s.requests| && s.requests[s.pending[id]].outcome == Pending
  }

  /** The promise of `id` is set and forgotten. */
  function Settled(s: State, id: MessageId, outcome: Outcome): State
    requires Unset(s, id)
  {
    s.(requests := s.requests[s.pending[id] := s.requests[s.pending[id]].(outcome := outcome)],
       pending := s.pending - {id},
       stamps := s.stamps - {id})
  }

  /** A promise that is set already throws, and the handler gives up on it. */
  function ExpiredOne(s: State, id: MessageId): State {
    if Unset(s, id) then Settled(s, id, Expired) else s.(stamps := s.stamps - {id})
  }

  function ExpiredAll(s: State, ids: seq<MessageId>): State {
    if ids == [] then s else ExpiredOne(ExpiredAll(s, ids[..|ids| - 1]), ids[|ids| - 1])
  }

  const SECOND := 1_000_000_000

  /** `duration_cast` to seconds: towards zero. */
  function Seconds(ns: int): int {
    if ns >= 0 then ns / SECOND else -(-ns / SECOND)
  }

  predicate Overdue(s: State, clock: MessageId -> int, id: MessageId) {
    id in s.stamps && Seconds(clock(id) - s.stamps[id]) > 30
  }

  function Overdues(s: State, clock: MessageId -> int, order: seq<MessageId>): seq<MessageId> {
    if order == [] then []
    else
      var last := order[|order| - 1];
      Overdues(s, clock, order[..|order| - 1]) + if Overdue(s, clock, last) then [last] else []
  }

  /** `onMessageRead`. An exception drops the message. */
  function Handled(s: State, parsed: Parsed): State {
    match parsed
    case Recognised(message) =>
      (match SourceOf(message)
       case WrongType => s
       case Id(id) =>
         if id !in s.pending then Queued(s, message)
         else if !Unset(s, id) then s
         else Settled(s, id, Answered(message)).(routed := s.routed + [ToRequest(message, s.pending[id])])
       case NoSource => Queued(s, message))
    case _ => s
  }

  function Queued(s: State, message: Fieldset): State {
    s.(incoming := s.incoming + [message], routed := s.routed + [ToQueue(message)])
  }

  function Received(s: State): State {
    if s.incoming == [] then s
    else s.(incoming := s.incoming[1..], received := s.received + [s.incoming[0]])
  }

  datatype Event =
    | DoSend(message: Outgoing)
    | DoRequest(message: Outgoing, now: int)
    | WriteDone
    | Expire(order: seq<MessageId>, clock: MessageId -> int)  // the order of iteration, and the clock at each turn
    | Arrived(parsed: Parsed)
    | DoReceive

  datatype Events = Start | Then(before: Events, event: Event)

  ghost predicate Possible(s: State, e: Event) {
    e.Expire? ==> Enumerates(e.order, s.stamps.Keys)
  }

  /** An event that is not possible changes nothing. */
  ghost function Step(s: State, e: Event): State {
    if !Possible(s, e) then s
    else match e
      case DoSend(message) => Sent(s, message)
      case DoRequest(message, now) => Sent(Registered(s, message.id, now), message)
      case WriteDone => WriteNext(s)
      case Expire(order, clock) => ExpiredAll(s, Overdues(s, clock, order))
      case Arrived(parsed) => Handled(s, parsed)
      case DoReceive => Received(s)
  }

  ghost function Run(es: Events): State {
    match es
    case Start => INITIAL
    case Then(before, e) => Step(Run(before), e)
  }

  // ----- Requests -----------------------------------------------------------------------------

  /**
   * Both maps have the same keys. A request waits exactly if its identifier leads to it; a reply
   * carries the identifier it answers; and only a repeated identifier breaks a promise.
   */
  ghost predicate Correlated(pending: map<MessageId, nat>, stamps: map<MessageId, int>, requests: seq<Request>) {
    && pending.Keys == stamps.Keys
    && (forall id :: id in pending ==> pending[id] < |requests| && requests[pending[id]] == Request(id, Pending))
    && (forall r :: 0 <= r < |requests| && requests[r].outcome == Pending ==>
          requests[r].id in pending && pending[requests[r].id] == r)
    && (forall r :: 0 <= r < |requests| && requests[r].outcome.Answered? ==>
          SourceOf(requests[r].outcome.reply) == Id(requests[r].id))
    && (forall r :: 0 <= r < |requests| && requests[r].outcome == Broken ==> RepeatsId(requests, r))
  }

  ghost predicate RepeatsId(requests: seq<Request>, r: nat)
    requires r < |requests|
  {
    exists q :: 0 <= q < r && requests[q].id == requests[r].id
  }

  /**
   * Every message that was read has gone to one place: the queue, which was and will be received in
   * the order of arrival, or one request, which no other message has answered.
   */
  ghost predicate Delivered(routed: seq<Routed>, requests: seq<Request>) {
    && (forall k :: 0 <= k < |routed| && routed[k].ToRequest? ==>
          && routed[k].request < |requests|
          && requests[routed[k].request].outcome == Answered(routed[k].message))
    && (forall j, k :: 0 <= j < k < |routed| && routed[j].ToRequest? && routed[k].ToRequest? ==>
          routed[j].request != routed[k].request)
    && (forall r :: 0 <= r < |requests| && requests[r].outcome.Answered? ==> Answers(routed, r))
  }

  ghost predicate Answers(routed: seq<Routed>, r: nat) {
    exists k :: 0 <= k < |routed| && routed[k].ToRequest? && routed[k].request == r
  }

  /** Message `k` has answered request `r`, and no other has. */
  ghost predicate OnlyAnswer(routed: seq<Routed>, k: nat, r: nat, reply: Fieldset) {
    && k < |routed| && routed[k] == ToRequest(reply, r)
    && forall j :: 0 <= j < |routed| && routed[j].ToRequest? && routed[j].request == r ==> j == k
  }

  function QueueOf(routed: seq<Routed>): seq<Fieldset> {
    if routed == [] then []
    else
      var last := routed[|routed| - 1];
      QueueOf(routed[..|routed| - 1]) + if last.ToQueue? then [last.message] else []
  }

  ghost predicate Inv(s: State) {
    && Correlated(s.pending, s.stamps, s.requests)
    && Delivered(s.routed, s.requests)
    && QueueOf(s.routed) == s.received + s.incoming
    && s.outgoing == []
  }

  /** What is kept of a request: its identifier, and its outcome once there is one. */
  ghost predicate Keeps(requests: seq<Request>, requests': seq<Request>) {
    && |requests| <= |requests'|
    && forall r :: 0 <= r < |requests| ==>
         && requests'[r].id == requests[r].id
         && (requests[r].outcome != Pending ==> requests'[r].outcome == requests[r].outcome)
  }

  /** A longer list of requests, or one with other outcomes, repeats the same identifiers. */
  lemma StillRepeatsId(requests: seq<Request>, requests': seq<Request>, r: nat)
    requires Keeps(requests, requests') && r < |requests| && RepeatsId(requests, r)
    ensures RepeatsId(requests', r)
  {
    var q :| 0 <= q < r && requests[q].id == requests[r].id;
    assert requests'[q].id == requests'[r].id;
  }

  lemma RegisteredCorrelates(s: State, id: MessageId, now: int)
    requires Correlated(s.pending, s.stamps, s.requests)
    ensures var s' := Registered(s, id, now);
            Correlated(s'.pending, s'.stamps, s'.requests) && Keeps(s.requests, s'.requests)
  {
    hide SourceOf;
    var s', n := Registered(s, id, now), |s.requests|;
    assert forall r :: 0 <= r < n ==> s'.requests[r] == s.requests[r];
    assert Keeps(s.requests, s'.requests);
    forall r | 0 <= r < n + 1 && s'.requests[r].outcome == Broken ensures RepeatsId(s'.requests, r) {
      if r < n {
        StillRepeatsId(s.requests, s'.requests, r);
      } else {
        assert s'.requests[s.pending[id]].id == s'.requests[n].id;
      }
    }
  }

  lemma RegisteredDelivers(s: State, id: MessageId, now: int)
    requires Delivered(s.routed, s.requests)
    ensures Delivered(s.routed, Registered(s, id, now).requests)
  {
    hide Answers;
    assert forall r :: 0 <= r < |s.requests| ==> Registered(s, id, now).requests[r] == s.requests[r];
  }

  lemma RegisteredKeeps(s: State, id: MessageId, now: int)
    requires Inv(s)
    ensures Inv(Registered(s, id, now)) && Keeps(s.requests, Registered(s, id, now).requests)
  {
    RegisteredCorrelates(s, id, now);
    RegisteredDelivers(s, id, now);
    hide Correlated, Delivered, QueueOf, Keeps;
  }

  lemma SettledCorrelates(s: State, id: MessageId, outcome: Outcome)
    requires Correlated(s.pending, s.stamps, s.requests) && Unset(s, id)
    requires outcome == Expired || (outcome.Answered? && SourceOf(outcome.reply) == Id(id))
    ensures var s' := Settled(s, id, outcome);
            Correlated(s'.pending, s'.stamps, s'.requests) && Keeps(s.requests, s'.requests)
  {
    hide SourceOf;
    var requests, n := s.requests, s.pending[id];
    var requests' := requests[n := Request(id, outcome)];
    var pending', stamps' := s.pending - {id}, s.stamps - {id};
    assert Settled(s, id, outcome) == s.(requests := requests', pending := pending', stamps := stamps');
    hide Settled, Unset;
    assert Keeps(requests, requests');
    assert pending'.Keys == s.pending.Keys - {id} && stamps'.Keys == s.stamps.Keys - {id};
    forall other | other in pending'
      ensures pending'[other] < |requests'| && requests'[pending'[other]] == Request(other, Pending)
    {
      assert requests[s.pending[other]].id == other;
    }
    forall r | 0 <= r < |requests| && requests'[r].outcome == Broken ensures RepeatsId(requests', r) {
      StillRepeatsId(requests, requests', r);
    }
  }

  lemma ExpiredDelivers(routed: seq<Routed>, requests: seq<Request>, r: nat)
    requires Delivered(routed, requests) && r < |requests| && requests[r].outcome == Pending
    ensures Delivered(routed, requests[r := requests[r].(outcome := Expired)])
  {
    hide Answers;
  }

  lemma ExpiredOneKeeps(s: State, id: MessageId)
    requires Inv(s)
    ensures Inv(ExpiredOne(s, id)) && Keeps(s.requests, ExpiredOne(s, id).requests)
  {
    hide QueueOf, SourceOf, Answers, RepeatsId;
    if Unset(s, id) {
      SettledCorrelates(s, id, Expired);
      ExpiredDelivers(s.routed, s.requests, s.pending[id]);
      hide Correlated, Delivered, Keeps;
    } else {
      assert id !in s.pending;
      assert ExpiredOne(s, id).stamps == s.stamps;
      hide Correlated, Delivered;
    }
  }

  lemma {:induction false} ExpiredAllKeeps(s: State, ids: seq<MessageId>)
    requires Inv(s)
    ensures Inv(ExpiredAll(s, ids)) && Keeps(s.requests, ExpiredAll(s, ids).requests)
  {
    hide Inv, ExpiredOne;
    if ids == [] {
    } else {
      ExpiredAllKeeps(s, ids[..|ids| - 1]);
      ExpiredOneKeeps(ExpiredAll(s, ids[..|ids| - 1]), ids[|ids| - 1]);
    }
  }

  lemma QueueOfMore(routed: seq<Routed>, last: Routed)
    ensures QueueOf(routed + [last]) == QueueOf(routed) + if last.ToQueue? then [last.message] else []
  {
    assert (routed + [last])[..|routed|] == routed;
  }

  lemma QueuedDelivers(routed: seq<Routed>, requests: seq<Request>, message: Fieldset)
    requires Delivered(routed, requests)
    ensures Delivered(routed + [ToQueue(message)], requests)
  {
    forall r | 0 <= r < |requests| && requests[r].outcome.Answered? ensures Answers(routed + [ToQueue(message)], r) {
      StillAnswers(routed, ToQueue(message), r);
    }
  }

  lemma StillAnswers(routed: seq<Routed>, last: Routed, r: nat)
    ensures Answers(routed, r) ==> Answers(routed + [last], r)
  {
    if Answers(routed, r) {
      var k :| 0 <= k < |routed| && routed[k].ToRequest? && routed[k].request == r;
      assert (routed + [last])[k] == routed[k];
    }
  }

  lemma QueuedKeeps(s: State, message: Fieldset)
    requires Inv(s)
    ensures Inv(Queued(s, message)) && Keeps(s.requests, Queued(s, message).requests)
  {
    hide Correlated, Delivered, QueueOf;
    QueueOfMore(s.routed, ToQueue(message));
    QueuedDelivers(s.routed, s.requests, message);
    assert s.received + (s.incoming + [message]) == (s.received + s.incoming) + [message];
  }

  lemma AnsweredDelivers(routed: seq<Routed>, requests: seq<Request>, r: nat, message: Fieldset)
    requires Delivered(routed, requests) && r < |requests| && requests[r].outcome == Pending
    ensures Delivered(routed + [ToRequest(message, r)], requests[r := requests[r].(outcome := Answered(message))])
  {
    var routed' := routed + [ToRequest(message, r)];
    var requests' := requests[r := requests[r].(outcome := Answered(message))];
    forall q | 0 <= q < |requests'| && requests'[q].outcome.Answered? ensures Answers(routed', q) {
      if q == r {
        assert routed'[|routed|].request == r;
      } else {
        StillAnswers(routed, ToRequest(message, r), q);
      }
    }
  }

  lemma AnsweredKeeps(s: State, id: MessageId, message: Fieldset)
    requires Inv(s) && Unset(s, id) && SourceOf(message) == Id(id)
    ensures var s' := Settled(s, id, Answered(message)).(routed := s.routed + [ToRequest(message, s.pending[id])]);
            Inv(s') && Keeps(s.requests, s'.requests)
  {
    hide Correlated, Delivered, QueueOf, SourceOf, Keeps;
    SettledCorrelates(s, id, Answered(message));
    AnsweredDelivers(s.routed, s.requests, s.pending[id], message);
    QueueOfMore(s.routed, ToRequest(message, s.pending[id]));
  }

  lemma ReadKeeps(s: State, parsed: Parsed)
    requires Inv(s)
    ensures Inv(Handled(s, parsed)) && Keeps(s.requests, Handled(s, parsed).requests)
  {
    hide Inv, SourceOf, Settled, Unset;
    if parsed.Recognised? {
      match SourceOf(parsed.message) {
        case WrongType =>
        case NoSource => QueuedKeeps(s, parsed.message);
        case Id(id) =>
          if id !in s.pending {
            QueuedKeeps(s, parsed.message);
          } else if Unset(s, id) {
            AnsweredKeeps(s, id, parsed.message);
          }
      }
    }
  }

  /** Between two handlers nothing is queued to be written, so every message is given to the socket at once. */
  lemma SentKeeps(s: State, message: Outgoing)
    requires Inv(s)
    ensures Inv(Sent(s, message)) && Sent(s, message).requests == s.requests
  {
    hide Correlated, Delivered, QueueOf;
    assert s.outgoing + [message] == [message];
  }

  lemma ReceivedKeeps(s: State)
    requires Inv(s)
    ensures Inv(Received(s)) && Received(s).requests == s.requests
  {
    hide Correlated, Delivered, QueueOf;
    if s.incoming != [] {
      assert (s.received + [s.incoming[0]]) + s.incoming[1..] == s.received + s.incoming;
    }
  }

  lemma StepKeepsInv(s: State, e: Event)
    requires Inv(s)
    ensures Inv(Step(s, e)) && Keeps(s.requests, Step(s, e).requests)
  {
    hide Correlated, Delivered, Handled, Sent, Registered, ExpiredAll;
    if Possible(s, e) {
      match e {
        case DoSend(message) => SentKeeps(s, message);
        case DoRequest(message, now) =>
          RegisteredKeeps(s, message.id, now);
          SentKeeps(Registered(s, message.id, now), message);
        case WriteDone =>
        case Expire(order, clock) => ExpiredAllKeeps(s, Overdues(s, clock, order));
        case Arrived(parsed) => ReadKeeps(s, parsed);
        case DoReceive => ReceivedKeeps(s);
      }
    }
  }

  lemma InitialInv()
    ensures Inv(INITIAL)
  {
  }

  lemma {:induction false} RunKeepsInv(es: Events)
    ensures Inv(Run(es))
  {
    hide Inv, Step;
    match es {
      case Start => InitialInv();
      case Then(before, e) => RunKeepsInv(before); StepKeepsInv(Run(before), e);
    }
  }

  /** A promise is set at most once: what a request has become, it remains. */
  lemma SettledForGood(es: Events, e: Event)
    ensures Keeps(Run(es).requests, Run(Then(es, e)).requests)
  {
    hide Inv, Step, Keeps;
    RunKeepsInv(es);
    StepKeepsInv(Run(es), e);
  }

  ghost predicate DistinctIds(requests: seq<Request>) {
    forall q, r :: 0 <= q < r < |requests| ==> requests[q].id != requests[r].id
  }

  /**
   * After any events, if no two requests had the same identifier: each is in both maps, or was
   * answered by exactly one message, which carries its identifier, or is expired; and the maps have
   * nothing else.
   */
  lemma ExactlyOnce(es: Events, r: nat)
    requires DistinctIds(Run(es).requests) && r < |Run(es).requests|
    ensures var s, q := Run(es), Run(es).requests[r];
            && s.pending.Keys == s.stamps.Keys
            && (q.outcome == Pending <==> q.id in s.pending)
            && (q.id in s.pending ==> s.pending[q.id] == r)
            && (q.outcome.Answered? ==> SourceOf(q.outcome.reply) == Id(q.id))
            && (q.outcome.Answered? <==> Answers(s.routed, r))
            && (q.outcome.Answered? ==> exists k: nat :: OnlyAnswer(s.routed, k, r, q.outcome.reply))
            && q.outcome != Broken
  {
    hide Run;
    RunKeepsInv(es);
    var s := Run(es);
    if Answers(s.routed, r) {
      var k: nat :| 0 <= k < |s.routed| && s.routed[k].ToRequest? && s.routed[k].request == r;
      assert s.requests[r].outcome == Answered(s.routed[k].message);
      assert OnlyAnswer(s.routed, k, r, s.routed[k].message);
    }
    if s.requests[r].id in s.pending {
      assert s.requests[s.pending[s.requests[r].id]].id == s.requests[r].id;
    }
  }

  // ----- What the callers and the peer did ----------------------------------------------------

  /** The messages given to `doSend` and `doRequest`. */
  function Given(es: Events): seq<Outgoing> {
    match es
    case Start => []
    case Then(before, DoSend(message)) => Given(before) + [message]
    case Then(before, DoRequest(message, _)) => Given(before) + [message]
    case Then(before, _) => Given(before)
  }

  /** A call of `doRequest`, and when it was made. */
  datatype Issue = Issue(id: MessageId, at: int)

  function Issues(es: Events): seq<Issue> {
    match es
    case Start => []
    case Then(before, DoRequest(message, now)) => Issues(before) + [Issue(message.id, now)]
    case Then(before, _) => Issues(before)
  }

  /** The message replies to nothing that is pending. */
  predicate IsForQueue(s: State, message: Fieldset) {
    match SourceOf(message)
    case NoSource => true
    case WrongType => false
    case Id(id) => id !in s.pending
  }

  /** The messages that arrived and replied to nothing pending then. */
  ghost function Unasked(es: Events): seq<Fieldset> {
    match es
    case Start => []
    case Then(before, Arrived(Recognised(message))) =>
      if IsForQueue(Run(before), message) then Unasked(before) + [message] else Unasked(before)
    case Then(before, _) => Unasked(before)
  }

  lemma WritesWhatIsGiven(s: State, e: Event)
    requires Inv(s)
    ensures Step(s, e).written == s.written + match e
                                              case DoSend(message) => [message]
                                              case DoRequest(message, _) => [message]
                                              case _ => []
  {
    hide Correlated, Delivered, QueueOf, SourceOf, Registered, Overdues;
    match e {
      case DoSend(message) => assert s.outgoing + [message] == [message];
      case DoRequest(message, now) =>
        RegisteredKeeps(s, message.id, now);
        RegisteredWritesNothing(s, message.id, now);
        assert [] + [message] == [message];
      case Expire(order, clock) => ExpiryWritesNothing(s, Overdues(s, clock, order));
      case _ =>
    }
  }

  lemma RegisteredWritesNothing(s: State, id: MessageId, now: int)
    ensures Registered(s, id, now).written == s.written && Registered(s, id, now).outgoing == s.outgoing
  {
  }

  lemma {:induction false} ExpiryWritesNothing(s: State, ids: seq<MessageId>)
    ensures ExpiredAll(s, ids).written == s.written && ExpiredAll(s, ids).routed == s.routed
    ensures ExpiredAll(s, ids).received == s.received && ExpiredAll(s, ids).incoming == s.incoming
  {
    if ids == [] {
    } else {
      ExpiryWritesNothing(s, ids[..|ids| - 1]);
    }
  }

  /** After any events, what has been given to the socket is what was given to `doSend` and `doRequest`, in order. */
  lemma {:induction false} WrittenIsGiven(es: Events)
    ensures Run(es).written == Given(es) && Run(es).outgoing == []
  {
    RunKeepsInv(es);
    match es {
      case Start =>
      case Then(before, e) =>
        WrittenIsGiven(before);
        RunKeepsInv(before);
        hide Run, Inv, Step;
        OneMoreEvent(before, e);
        WritesWhatIsGiven(Run(before), e);
    }
  }

  lemma OneMoreEvent(before: Events, e: Event)
    ensures Run(Then(before, e)) == Step(Run(before), e)
  {
  }

  lemma QueuesUnasked(s: State, e: Event)
    requires Inv(s)
    ensures QueueOf(Step(s, e).routed)
         == QueueOf(s.routed) + if e.Arrived? && e.parsed.Recognised? && IsForQueue(s, e.parsed.message)
                                then [e.parsed.message] else []
  {
    hide Correlated, Delivered, QueueOf, SourceOf, Overdues, Settled;
    match e {
      case Expire(order, clock) => ExpiryWritesNothing(s, Overdues(s, clock, order));
      case Arrived(Recognised(message)) =>
        QueueOfMore(s.routed, ToQueue(message));
        var source := SourceOf(message);
        if source.Id? && source.id in s.pending {
          QueueOfMore(s.routed, ToRequest(message, s.pending[source.id]));
        }
      case _ =>
    }
  }

  /**
   * After any events, what `doReceive` has handed out and what is queued for it are together the
   * messages that arrived and replied to nothing pending, in the order of their arrival.
   */
  lemma ReceivedInOrder(es: Events)
    ensures Run(es).received + Run(es).incoming == Unasked(es)
  {
    RunKeepsInv(es);
    QueueIsUnasked(es);
    hide Run, Unasked;
  }

  lemma {:induction false} QueueIsUnasked(es: Events)
    ensures QueueOf(Run(es).routed) == Unasked(es)
  {
    match es {
      case Start =>
      case Then(before, e) =>
        QueueIsUnasked(before);
        RunKeepsInv(before);
        hide Run, Inv, Step, QueueOf, IsForQueue;
        OneMoreEvent(before, e);
        QueuesUnasked(Run(before), e);
    }
  }

  /** Each call of `doReceive` hands out the next of them, if there is one. */
  lemma ReceivesNext(es: Events)
    ensures var s, s' := Run(es), Run(Then(es, DoReceive));
            && |s.received| <= |Unasked(es)|
            && s'.received == Unasked(es)[..if |s.received| < |Unasked(es)| then |s.received| + 1 else |s.received|]
  {
    ReceivedInOrder(es);
    ReceivedInOrder(Then(es, DoReceive));
    assert Unasked(Then(es, DoReceive)) == Unasked(es);
    OneMoreEvent(es, DoReceive);
    hide Run, Unasked;
    var s := Run(es);
    assert s.received == Unasked(es)[..|s.received|];
    if s.incoming != [] {
      assert s.received + [s.incoming[0]] == Unasked(es)[..|s.received| + 1];
    }
  }

  /** The requests are the calls of `doRequest`, and a pending one has the time of its call for a stamp. */
  ghost predicate Stamped(pending: map<MessageId, nat>, stamps: map<MessageId, int>,
                          requests: seq<Request>, issues: seq<Issue>) {
    && |requests| == |issues|
    && (forall r :: 0 <= r < |requests| ==> requests[r].id == issues[r].id)
    && (forall id :: id in stamps ==>
          id in pending && pending[id] < |issues| && issues[pending[id]] == Issue(id, stamps[id]))
  }

  /** Nothing is pending that was not, and requests keep their identifiers. */
  ghost predicate Fewer(s: State, s': State) {
    && |s'.requests| == |s.requests|
    && (forall r :: 0 <= r < |s.requests| ==> s'.requests[r].id == s.requests[r].id)
    && (forall id :: id in s'.stamps ==> id in s.stamps && s'.stamps[id] == s.stamps[id])
    && (forall id :: id in s'.pending ==> id in s.pending && s'.pending[id] == s.pending[id])
  }

  lemma FewerAreStamped(s: State, s': State, issues: seq<Issue>)
    requires Stamped(s.pending, s.stamps, s.requests, issues) && Fewer(s, s') && s'.pending.Keys == s'.stamps.Keys
    ensures Stamped(s'.pending, s'.stamps, s'.requests, issues)
  {
  }

  lemma {:induction false} ExpiryLeavesFewer(s: State, ids: seq<MessageId>)
    ensures Fewer(s, ExpiredAll(s, ids))
  {
    if ids == [] {
    } else {
      ExpiryLeavesFewer(s, ids[..|ids| - 1]);
    }
  }

  lemma StepStamps(s: State, e: Event, issues: seq<Issue>)
    requires Inv(s) && Stamped(s.pending, s.stamps, s.requests, issues)
    ensures var s' := Step(s, e);
            Stamped(s'.pending, s'.stamps, s'.requests,
                    if e.DoRequest? then issues + [Issue(e.message.id, e.now)] else issues)
  {
    var s' := Step(s, e);
    StepKeepsInv(s, e);
    assert s'.pending.Keys == s'.stamps.Keys;
    hide Inv, Handled, Overdues, ExpiredAll, Stamped, Fewer, Registered;
    match e {
      case DoSend(_) =>
      case DoRequest(message, now) => RegisteredIsStamped(s, message.id, now, issues);
      case Expire(order, clock) =>
        ExpiryLeavesFewer(s, Overdues(s, clock, order));
        if Possible(s, e) {
          FewerAreStamped(s, s', issues);
        }
      case Arrived(parsed) =>
        HandledLeavesFewer(s, parsed);
        FewerAreStamped(s, s', issues);
      case _ =>
    }
  }

  lemma RegisteredIsStamped(s: State, id: MessageId, now: int, issues: seq<Issue>)
    requires Inv(s) && Stamped(s.pending, s.stamps, s.requests, issues)
    ensures var s' := Registered(s, id, now);
            Stamped(s'.pending, s'.stamps, s'.requests, issues + [Issue(id, now)])
  {
    hide Delivered, QueueOf, SourceOf, RepeatsId;
  }

  lemma HandledLeavesFewer(s: State, parsed: Parsed)
    ensures Fewer(s, Handled(s, parsed))
  {
    hide SourceOf;
  }

  /** After any events: a request that is pending has the time at which it was issued for a time stamp. */
  lemma {:induction false} StampIsIssueTime(es: Events)
    ensures var s := Run(es);
            && |s.requests| == |Issues(es)|
            && (forall r :: 0 <= r < |s.requests| ==> s.requests[r].id == Issues(es)[r].id)
            && (forall id :: id in s.stamps ==>
                  && id in s.pending && s.pending[id] < |Issues(es)|
                  && Issues(es)[s.pending[id]] == Issue(id, s.stamps[id]))
  {
    match es {
      case Start =>
      case Then(before, e) =>
        StampIsIssueTime(before);
        RunKeepsInv(before);
        hide Run, Inv, Step;
        OneMoreEvent(before, e);
        StepStamps(Run(before), e, Issues(before));
    }
  }

  /** A request's promise is broken exactly if its identifier is pending already when it is issued. */
  lemma BrokenExactlyIfPending(es: Events, message: Outgoing, now: int)
    ensures var s, s' := Run(es), Run(Then(es, DoRequest(message, now)));
            && |s'.requests| == |s.requests| + 1
            && (s'.requests[|s.requests|].outcome == Broken <==> message.id in s.stamps)
  {
    hide SourceOf, RepeatsId, Delivered, QueueOf;
    RunKeepsInv(es);
  }

  // ----- Expiry -------------------------------------------------------------------------------

  lemma {:induction false} OverduesAre(s: State, clock: MessageId -> int, order: seq<MessageId>, id: MessageId)
    ensures id in Overdues(s, clock, order) <==> id in order && Overdue(s, clock, id)
  {
    hide Overdue;
    if order == [] {
    } else {
      OverduesAre(s, clock, order[..|order| - 1], id);
      assert order == order[..|order| - 1] + [order[|order| - 1]];
    }
  }

  /** Exactly the pending requests of these identifiers have expired. */
  predicate ExpiredAre(requests: seq<Request>, ids: seq<MessageId>, requests': seq<Request>) {
    && |requests'| == |requests|
    && forall r :: 0 <= r < |requests| ==>
         requests'[r] == if requests[r].outcome == Pending && requests[r].id in ids
                         then Request(requests[r].id, Expired) else requests[r]
  }

  ghost predicate Without(s: State, ids: seq<MessageId>, s': State) {
    && ExpiredAre(s.requests, ids, s'.requests)
    && (forall id :: id in s'.pending <==> id in s.pending && id !in ids)
    && (forall id :: id in s'.stamps <==> id in s.stamps && id !in ids)
    && (forall id :: id in s'.stamps ==> s'.stamps[id] == s.stamps[id])
    && s'.incoming == s.incoming && s'.outgoing == s.outgoing
  }

  lemma OneMoreExpired(requests: seq<Request>, ids: seq<MessageId>, requests': seq<Request>, n: nat, id: MessageId)
    requires ExpiredAre(requests, ids, requests') && n < |requests'| && requests'[n] == Request(id, Pending)
    requires forall r :: 0 <= r < |requests'| && requests'[r] == Request(id, Pending) ==> r == n
    ensures ExpiredAre(requests, ids + [id], requests'[n := Request(id, Expired)])
  {
  }

  lemma NoMoreExpired(requests: seq<Request>, ids: seq<MessageId>, requests': seq<Request>, id: MessageId)
    requires ExpiredAre(requests, ids, requests')
    requires forall r :: 0 <= r < |requests'| ==> requests'[r] != Request(id, Pending)
    ensures ExpiredAre(requests, ids + [id], requests')
  {
  }

  lemma ExpiredOneIs(s: State, ids: seq<MessageId>, s1: State, id: MessageId)
    requires Correlated(s1.pending, s1.stamps, s1.requests) && Without(s, ids, s1)
    ensures Without(s, ids + [id], ExpiredOne(s1, id))
  {
    hide SourceOf, RepeatsId, ExpiredAre;
    if id in s1.pending {
      assert Unset(s1, id);
      OneMoreExpired(s.requests, ids, s1.requests, s1.pending[id], id);
    } else {
      NoMoreExpired(s.requests, ids, s1.requests, id);
    }
    hide Correlated;
  }

  lemma {:induction false} ExpiredAllIs(s: State, ids: seq<MessageId>)
    requires Inv(s)
    ensures Without(s, ids, ExpiredAll(s, ids))
  {
    hide Correlated, Delivered, QueueOf, ExpiredOne, Keeps;
    if ids == [] {
    } else {
      var before, id := ids[..|ids| - 1], ids[|ids| - 1];
      hide Without;
      ExpiredAllIs(s, before);
      ExpiredAllKeeps(s, before);
      ExpiredOneIs(s, before, ExpiredAll(s, before), id);
      assert before + [id] == ids;
    }
  }

  /**
   * Whatever the order in which the requests are looked at, exactly those pending ones expire that
   * were issued 31 seconds ago or earlier when their turn comes; all others remain as they are.
   */
  lemma ExpiryIsExact(es: Events, order: seq<MessageId>, clock: MessageId -> int, r: nat)
    requires Enumerates(order, Run(es).stamps.Keys) && r < |Run(es).requests|
    ensures var s, s' := Run(es), Run(Then(es, Expire(order, clock)));
            && |s'.requests| == |s.requests| == |Issues(es)|
            && s'.requests[r].id == s.requests[r].id == Issues(es)[r].id
            && s'.requests[r].outcome
               == (if
                     && s.requests[r].outcome == Pending
                     && clock(s.requests[r].id) - Issues(es)[r].at >= 31 * SECOND
                   then Expired else s.requests[r].outcome)
            && s'.pending.Keys == s'.stamps.Keys
            && (forall id :: id in s'.pending <==>
                  && id in s.pending && s.pending[id] < |Issues(es)|
                  && clock(id) - Issues(es)[s.pending[id]].at < 31 * SECOND)
  {
    hide Run, Enumerates, ExpiredAll, Overdues, Delivered, QueueOf, SourceOf, RepeatsId, Seconds;
    var s := Run(es);
    RunKeepsInv(es);
    StampIsIssueTime(es);
    hide Issues;
    ExpireStep(es, order, clock);
    ExpiredAllIs(s, Overdues(s, clock, order));
    OverdueIds(s, order, clock);
  }

  lemma ExpireStep(es: Events, order: seq<MessageId>, clock: MessageId -> int)
    requires Enumerates(order, Run(es).stamps.Keys)
    ensures Run(Then(es, Expire(order, clock))) == ExpiredAll(Run(es), Overdues(Run(es), clock, order))
  {
    hide Enumerates, ExpiredAll, Overdues;
  }

  lemma OverdueIds(s: State, order: seq<MessageId>, clock: MessageId -> int)
    requires Enumerates(order, s.stamps.Keys)
    ensures forall id :: id in Overdues(s, clock, order) <==> id in s.stamps && clock(id) - s.stamps[id] >= 31 * SECOND
  {
    forall id ensures id in Overdues(s, clock, order) <==> id in s.stamps && clock(id) - s.stamps[id] >= 31 * SECOND {
      OverduesAre(s, clock, order, id);
    }
  }

  // ----- Replies ------------------------------------------------------------------------------

  /** The field of a reply that names what it replies to. */
  function SourceField(id: MessageId): Entry {
    Entry("srcMsgId", Scalar(K32), VScalar(I32(id.number)))
  }

  /** A message names an identifier exactly if one of its fields says so, wherever that stands among them. */
  lemma {:induction false} SourceIsField(message: Fieldset, id: MessageId)
    requires DistinctNames(message)
    ensures SourceOf(message) == Id(id) <==> SourceField(id) in message
    ensures SourceOf(message) == NoSource <==> forall i :: 0 <= i < |message| ==> message[i].name != "srcMsgId"
  {
    if message == [] {
    } else {
      var first, more := message[0], message[1..];
      assert forall e :: e in message <==> e == first || e in more;
      SourceIsField(more, id);
      if forall i :: 0 <= i < |more| ==> more[i].name != "srcMsgId" {
        assert forall i :: 1 <= i < |message| ==> message[i] == more[i - 1];
      } else {
        var i :| 0 <= i < |more| && more[i].name == "srcMsgId";
        assert message[i + 1].name == "srcMsgId";
      }
    }
  }

  /** A recognised message that is not malformed goes to the pending request it names, and else to the queue's end. */
  lemma GoesToOnePlace(es: Events, message: Fieldset)
    ensures var s, s', src := Run(es), Run(Then(es, Arrived(Recognised(message)))), SourceOf(message);
            && (src.Id? && src.id in s.pending ==>
                  && s.pending[src.id] < |s.requests|
                  && s'.requests == s.requests[s.pending[src.id] := Request(src.id, Answered(message))]
                  && s'.pending == s.pending - {src.id} && s'.stamps == s.stamps - {src.id}
                  && s'.incoming == s.incoming)
            && (src.NoSource? || (src.Id? && src.id !in s.pending) ==>
                  s'.requests == s.requests && s'.pending == s.pending && s'.incoming == s.incoming + [message])
            && (src.WrongType? ==> s' == s)
  {
    RunKeepsInv(es);
    hide SourceOf, Delivered, RepeatsId;
  }

  /**
   * From byte to promise: a frame body that consists of a registered type and the bytes of a message
   * of that type, in any layout and from any host, answers the pending request the message names.
   */
  lemma ReplyReachesItsRequest(
    es: Events, w: Host, r: Host, factory: Factory, kind: bv16, message: Fieldset, layout: seq<Image>, id: MessageId)
    requires Prepared(factory) && kind in factory && Lays(message, layout) && Typed(message)
    requires MessageLaws.Alike(message, factory[kind]) && MessageLaws.AllDefault(factory[kind])
    requires MessageLaws.AllFit(message, layout)
    requires SourceOf(message) == Id(id) && id in Run(es).pending
    ensures var s := Run(es);
            var s' := Run(Then(es, Arrived(Parse(r, factory, Store(w, I16(kind)) + Wire(w, message, layout)))));
            && s.pending[id] < |s'.requests|
            && s'.requests[s.pending[id]] == Request(id, Answered(message))
            && id !in s'.pending && id !in s'.stamps && s'.incoming == s.incoming
  {
    hide *;
    ParseOfBody(w, r, factory, kind, message, layout);
    GoesToOnePlace(es, message);
  }
}
