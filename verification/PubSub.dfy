/** The publish-subscribe channel: every active subscriber gets a clone of a message; broken ones are removed. */
module PubSub {
  import opened Common
  import opened Fields
  import opened Messages

  datatype Reason = SubscriberTransportHasBeenStopped | SubscriberLeftChannelOnHisOwn

  datatype SubscribeResult = Subscribed | AlreadySubscribed

  datatype UnsubscribeResult = Unsubscribed | NotFound

  /** A message as a subscriber gets it. */
  datatype Clone = Clone(id: nat, fields: seq<Entry>)

  /** A call of `onUnsubscribed`. */
  datatype Notice = Notice(subscriber: nat, reason: Reason)

  /** A subscriber: `throws` tells whether its `send` throws. */
  class Session {
    const id: nat
    var active: bool
    var throws: bool
    var inbox: seq<Clone>

    constructor (id: nat)
      ensures this.id == id && active && !throws && inbox == []
    {
      this.id, active, throws, inbox := id, true, false, [];
    }

    predicate Healthy()
      reads this`active, this`throws
    {
      active && !throws
    }

    /** False stands for an exception. */
    method Send(clone: Clone) returns (ok: bool)
      modifies this`inbox
      ensures ok == !throws
      ensures inbox == if ok then old(inbox) + [clone] else old(inbox)
    {
      ok := !throws;
      if ok {
        inbox := inbox + [clone];
      }
    }
  }

  class PubSubMessageChannel {
    var subscribers: map<nat, Session>
    var notices: seq<Notice>

    ghost predicate Valid()
      reads this
    {
      forall id :: id in subscribers ==> subscribers[id].id == id
    }

    ghost function HealthyOnes(): (ids: set<nat>)
      reads this, subscribers.Values`active, subscribers.Values`throws
      ensures ids <= ActiveOnes()
    {
      set id | id in subscribers && subscribers[id].Healthy()
    }

    ghost function ActiveOnes(): (ids: set<nat>)
      reads this, subscribers.Values`active
      ensures ids <= subscribers.Keys
    {
      set id | id in subscribers && subscribers[id].active
    }

    constructor ()
      ensures Valid() && subscribers == map[] && notices == []
    {
      subscribers, notices := map[], [];
    }

    method Subscribe(session: Session) returns (r: SubscribeResult)
      requires Valid()
      modifies this`subscribers
      ensures Valid()
      ensures r == AlreadySubscribed <==> session.id in old(subscribers)
      ensures subscribers == if r == Subscribed then old(subscribers)[session.id := session] else old(subscribers)
    {
      if session.id !in subscribers {
        subscribers := subscribers[session.id := session];
        return Subscribed;
      }
      return AlreadySubscribed;
    }

    method HelperUnsubscribe(id: nat, reason: Reason) returns (r: UnsubscribeResult)
      requires Valid()
      modifies this
      ensures Valid()
      ensures r == Unsubscribed <==> id in old(subscribers)
      ensures subscribers == old(subscribers) - {id}
      ensures notices == old(notices) + if id in old(subscribers) then [Notice(id, reason)] else []
    {
      if id in subscribers {
        subscribers := subscribers - {id};
        notices := notices + [Notice(id, reason)];
        return Unsubscribed;
      }
      return NotFound;
    }

    method Unsubscribe(session: Session) returns (r: UnsubscribeResult)
      requires Valid()
      modifies this
      ensures Valid()
      ensures r == Unsubscribed <==> session.id in old(subscribers)
      ensures subscribers == old(subscribers) - {session.id}
      ensures notices
           == old(notices)
              + if session.id in old(subscribers) then [Notice(session.id, SubscriberLeftChannelOnHisOwn)] else []
    {
      r := HelperUnsubscribe(session.id, SubscriberLeftChannelOnHisOwn);
    }

    /**
     * Sends a message. The subscribers are visited in an arbitrary order; `sent` is the order of the
     * active ones, for each of which a clone is made, with the next identifier. Those that are active and
     * do not throw remain, and each has got its clone; all others are removed, each with one notice.
     */
    method InternalSend(fields: seq<Entry>, ids: IdGenerator) returns (broken: seq<nat>, ghost sent: seq<nat>)
      requires Valid() && ids.Valid()
      modifies this, ids, subscribers.Values`inbox
      ensures Valid() && ids.Valid() && ids.last == LaterId(old(ids.last), |sent|)
      ensures Enumerates(sent, old(ActiveOnes()))
      ensures subscribers == old(subscribers) - (old(subscribers).Keys - old(HealthyOnes()))
      ensures Enumerates(broken, old(subscribers).Keys - old(HealthyOnes()))
      ensures notices == old(notices) + Notices(broken)
      ensures forall k :: 0 <= k < |sent| && sent[k] in old(HealthyOnes()) ==>
          old(subscribers)[sent[k]].inbox
          == old(Inboxes())[sent[k]] + [Clone(LaterId(old(ids.last), k + 1), Reverse(fields))]
      ensures forall id :: id in old(subscribers) && id !in old(HealthyOnes()) ==>
          old(subscribers)[id].inbox == old(subscribers[id].inbox)
    {
      ghost var before, boxes, start := subscribers, Inboxes(), ids.last;
      broken, sent := VisitSubscribers(fields, ids);
      assert forall k :: 0 <= k < |sent| && sent[k] in HealthyOnes() ==>
          before[sent[k]].inbox == boxes[sent[k]] + [Clone(LaterId(start, k + 1), Reverse(fields))];
      RemoveBroken(broken);
    }

    ghost function Inboxes(): (boxes: map<nat, seq<Clone>>)
      reads this, subscribers.Values`inbox
      ensures boxes.Keys == subscribers.Keys
    {
      map id | id in subscribers :: subscribers[id].inbox
    }

    /** One turn of the loop over the subscribers. */
    method VisitOne(id: nat, fields: seq<Entry>, ids: IdGenerator) returns (ok: bool)
      requires Valid() && id in subscribers && ids.Valid()
      modifies ids, subscribers.Values`inbox
      ensures ok == (id in HealthyOnes())
      ensures ids.Valid() && ids.last == if id in ActiveOnes() then NextId(old(ids.last)) else old(ids.last)
      ensures id in Inboxes() && Inboxes() == old(Inboxes())[id := Inboxes()[id]]
      ensures Inboxes()[id] == old(Inboxes()[id]) + if ok then [Clone(ids.last, Reverse(fields))] else []
    {
      var subscriber := subscribers[id];
      ok := subscriber.active;
      if ok {
        var next := ids.Generate();
        ok := subscriber.Send(Clone(next, Reverse(fields)));
      }
      assert forall other :: other in subscribers && other != id ==>
          subscribers[other].inbox == old(subscribers[other].inbox);
    }

    /** The first loop: what is in `rest` has not been visited yet. */
    method VisitSubscribers(fields: seq<Entry>, ids: IdGenerator) returns (broken: seq<nat>, ghost sent: seq<nat>)
      requires Valid() && ids.Valid()
      modifies ids, subscribers.Values`inbox
      ensures ids.Valid() && ids.last == LaterId(old(ids.last), |sent|) && Enumerates(sent, ActiveOnes())
      ensures Enumerates(broken, subscribers.Keys - HealthyOnes())
      ensures Reached(Visit(HealthyOnes(), ActiveOnes(), old(Inboxes()), old(ids.last), fields), sent, Inboxes())
    {
      hide *;
      ghost var visit := Visit(HealthyOnes(), ActiveOnes(), Inboxes(), ids.last, fields);
      broken, sent := [], [];
      var rest := subscribers.Keys;
      NobodyVisited(visit, rest);
      while rest != {}
        invariant rest <= subscribers.Keys && ids.Valid()
        invariant Visited(visit, rest, broken, sent, Inboxes(), ids.last)
      {
        var id :| id in rest;
        ghost var last, boxes := ids.last, Inboxes();
        var ok := VisitOne(id, fields, ids);
        OneMoreVisited(visit, rest, broken, sent, boxes, last, id, Inboxes()[id], ids.last);
        if id in visit.active {
          sent := sent + [id];
        }
        rest := rest - {id};
        if !ok {
          broken := broken + [id];
        }
      }
      AllVisited(visit, broken, sent, Inboxes(), ids.last);
    }

    method RemoveBroken(broken: seq<nat>)
      requires Valid()
      requires forall i, j :: 0 <= i < j < |broken| ==> broken[i] != broken[j]
      requires forall id :: id in broken ==> id in subscribers
      modifies this
      ensures Valid()
      ensures subscribers == old(subscribers) - (set id | id in broken)
      ensures notices == old(notices) + Notices(broken)
    {
      for i := 0 to |broken|
        invariant Valid()
        invariant subscribers == old(subscribers) - (set id | id in broken[..i])
        invariant notices == old(notices) + Notices(broken[..i])
      {
        assert broken[..i + 1] == broken[..i] + [broken[i]];
        assert broken[i] in subscribers;
        var _ := HelperUnsubscribe(broken[i], SubscriberTransportHasBeenStopped);
        assert Notices(broken[..i + 1])
            == Notices(broken[..i]) + [Notice(broken[i], SubscriberTransportHasBeenStopped)];
      }
      assert broken[..|broken|] == broken;
    }
  }

  function Notices(ids: seq<nat>): (notices: seq<Notice>)
    ensures |notices| == |ids|
  {
    seq(|ids|, i requires 0 <= i < |ids| => Notice(ids[i], SubscriberTransportHasBeenStopped))
  }

  /** The inboxes of subscribers, by identifier. */
  type Boxes = map<nat, seq<Clone>>

  /** What a round of visits begins with. */
  datatype Visit = Visit(healthy: set<nat>, active: set<nat>, boxes: Boxes, last: nat, fields: seq<Entry>)
  {
    /** The clone for the k-th subscriber, from 1, that one is made for. Its fields are in reverse order. */
    function CloneAt(k: nat): Clone {
      Clone(LaterId(last, k), Reverse(fields))
    }
  }

  /** For `sent` clones have been made, in this order; those that are healthy have got them, and the others nothing. */
  ghost predicate Reached(v: Visit, sent: seq<nat>, boxes: Boxes) {
    && boxes.Keys == v.boxes.Keys
    && (forall k :: 0 <= k < |sent| && sent[k] in v.healthy ==>
          sent[k] in boxes && boxes[sent[k]] == v.boxes[sent[k]] + [v.CloneAt(k + 1)])
    && (forall id :: id in boxes && !(id in v.healthy && id in sent) ==> boxes[id] == v.boxes[id])
  }

  /** All but `rest` have been visited. */
  ghost predicate Visited(
    v: Visit, rest: set<nat>, broken: seq<nat>, sent: seq<nat>, boxes: map<nat, seq<Clone>>, last: nat)
  {
    && v.healthy <= v.active
    && last == LaterId(v.last, |sent|)
    && Enumerates(sent, v.active - rest)
    && Enumerates(broken, v.boxes.Keys - v.healthy - rest)
    && Reached(v, sent, boxes)
  }

  lemma NobodyVisited(v: Visit, rest: set<nat>)
    requires rest == v.boxes.Keys && v.healthy <= v.active <= rest
    ensures Visited(v, rest, [], [], v.boxes, v.last)
  {
    assert v.active - rest == {} && v.boxes.Keys - v.healthy - rest == {} && v.healthy - rest == {};
  }

  lemma AllVisited(v: Visit, broken: seq<nat>, sent: seq<nat>, boxes: map<nat, seq<Clone>>, last: nat)
    requires Visited(v, {}, broken, sent, boxes, last)
    ensures last == LaterId(v.last, |sent|)
    ensures Enumerates(sent, v.active) && Enumerates(broken, v.boxes.Keys - v.healthy)
    ensures Reached(v, sent, boxes)
  {
    assert v.active - {} == v.active && v.boxes.Keys - v.healthy - {} == v.boxes.Keys - v.healthy;
  }

  lemma OneMoreVisited(
    v: Visit, rest: set<nat>, broken: seq<nat>, sent: seq<nat>, boxes: Boxes, last: nat,
    id: nat, inbox: seq<Clone>, last': nat)
    requires Visited(v, rest, broken, sent, boxes, last) && id in rest && id in boxes && rest <= v.boxes.Keys
    requires last' == if id in v.active then NextId(last) else last
    requires inbox == boxes[id] + if id in v.healthy then [Clone(last', Reverse(v.fields))] else []
    ensures Visited(v, rest - {id}, if id in v.healthy then broken else broken + [id],
                    if id in v.active then sent + [id] else sent, boxes[id := inbox], last')
  {
    hide Reached, Enumerates;
    OneMoreListed(sent, v.active, rest, id);
    OneMoreListed(broken, v.boxes.Keys - v.healthy, rest, id);
    OneMoreReached(v, rest, sent, boxes, id, inbox);
  }

  lemma OneMoreListed(list: seq<nat>, all: set<nat>, rest: set<nat>, id: nat)
    requires id in rest && Enumerates(list, all - rest)
    ensures Enumerates(if id in all then list + [id] else list, all - (rest - {id}))
  {
    if id in all {
      assert all - (rest - {id}) == (all - rest) + {id};
    } else {
      assert all - (rest - {id}) == all - rest;
    }
  }

  lemma OneMoreReached(v: Visit, rest: set<nat>, sent: seq<nat>, boxes: Boxes, id: nat, inbox: seq<Clone>)
    requires Reached(v, sent, boxes) && Enumerates(sent, v.active - rest)
    requires id in rest && id in boxes && v.healthy <= v.active
    requires inbox == boxes[id] + if id in v.healthy then [v.CloneAt(|sent| + 1)] else []
    ensures Reached(v, if id in v.active then sent + [id] else sent, boxes[id := inbox])
  {
    assert id !in sent;
  }

  /** Fewer than 2^32 clones have different identifiers. */
  lemma ClonesDiffer(v: Visit, j: nat, k: nat)
    requires v.last < ID_RANGE && j < k < j + ID_RANGE
    ensures v.CloneAt(j).id != v.CloneAt(k).id
  {
    IdsRepeat(v.last, j, k);
  }
}
