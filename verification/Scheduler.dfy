/**
 * The scheduler: callers push delayed actions on a heap under a mutex, and one watcher thread waits
 * on a condition variable until the first of them is due. Every region under the mutex is a step;
 * inside a step the clock may advance between one reading and the next.
 */
module Scheduler {
  import opened Deadlines
  import opened Heaps

  /** `time_point::max()` of a clock that counts nanoseconds in 64 bits. */
  const MAX := 0x7FFF_FFFF_FFFF_FFFF

  const HOUR := 3600 * 1000 * MS

  function MaxWaitTime(now: int): int {
    Truncated(MAX - now - HOUR)
  }

  datatype Reason = UpdateDelay | ExecuteTask

  datatype Watcher =
    | Running              // before the wait, the mutex not held
    | Waiting(until: int)  // in the timed wait
    | Notified             // woken, the mutex not yet held again

  /** An action given to the executor, and when it was taken from the heap for that. */
  datatype Handed = Handed(id: nat, at: int)

  /**
   * Accepted actions are numbered in the order of their acceptance; the heap holds numbers. `handed`
   * is the history of what the watcher has given to the executor, `began` when its last wait began.
   */
  datatype State = State(
    now: int,
    accepted: seq<Entry>,
    heap: Tree,
    delay: int,
    updated: int,
    reason: Reason,
    watcher: Watcher,
    handed: seq<Handed>,
    began: int)

  datatype Event =
    | Tick(ns: nat)
    | Schedule(delay: int, clock: Clock, lag: nat)       // the push, with these readings, takes lag
    | BeginWait
    | Wake(clock: Clock, before: nat, lag: nat)          // pop and hand-over take before, the rest lag

  datatype Events = Start | Then(before: Events, event: Event)

  function Initial(now: int): State {
    State(now, [], [], MaxWaitTime(now), now, UpdateDelay, Running, [], now)
  }

  function Deadline(s: State, id: nat): int {
    Due(s.accepted, id)
  }

  predicate Awake(s: State) {
    match s.watcher
    case Running => false
    case Waiting(until) => s.now >= until
    case Notified => true
  }

  ghost predicate Between(clock: Clock, from: int, to: int) {
    forall k :: from <= clock(k).first <= clock(k).second <= to
  }

  /** The event can happen now. A watcher that waits continues only when it is notified or its time is over. */
  ghost predicate Possible(s: State, e: Event) {
    match e
    case Schedule(_, clock, lag) => Between(clock, s.now, s.now + lag)
    case BeginWait => s.watcher == Running
    case Wake(clock, before, _) => Awake(s) && Between(clock, s.now, s.now + before)
    case Tick(_) => true
  }

  function Pushed(s: State, delay: int, clock: Clock): State {
    var accepted := s.accepted + [Entry(s.now, delay)];
    s.(accepted := accepted, heap := Push(s.heap, |s.accepted|, accepted, clock))
  }

  function Scheduled(s: State, delay: int, clock: Clock, lag: nat): State {
    var s1 := Pushed(s, delay, clock).(now := s.now + lag);
    if TimeLeft(s.delay, s.updated, s1.now) > delay then
      s1.(delay := delay, reason := UpdateDelay, watcher := if s.watcher.Waiting? then Notified else s.watcher)
    else s1
  }

  function Popped(s: State, clock: Clock): State {
    if s.heap == [] then s
    else s.(heap := Pop(s.heap, s.accepted, clock), handed := s.handed + [Handed(s.heap[0], s.now)])
  }

  function Left(s: State, id: nat): int {
    if id < |s.accepted| then s.accepted[id].Left(s.now) else 0
  }

  function Woken(s: State, clock: Clock, before: nat, lag: nat): State {
    match s.reason
    case UpdateDelay => s.(updated := s.now, reason := ExecuteTask, watcher := Running)
    case ExecuteTask =>
      var s1 := Popped(s, clock).(now := s.now + before);
      s1.(delay := if s1.heap != [] then Left(s1, s1.heap[0]) else MaxWaitTime(s1.now),
          updated := s1.now + lag,
          now := s1.now + lag,
          watcher := Running)
  }

  /** An event that is not possible changes nothing. */
  ghost function Step(s: State, e: Event): State {
    if !Possible(s, e) then s
    else match e
      case Tick(ns) => s.(now := s.now + ns)
      case Schedule(delay, clock, lag) => Scheduled(s, delay, clock, lag)
      case BeginWait => s.(watcher := Waiting(s.now + s.delay * MS), began := s.now)
      case Wake(clock, before, lag) => Woken(s, clock, before, lag)
  }

  ghost function Run(start: int, es: Events): State {
    match es
    case Start => Initial(start)
    case Then(before, e) => Step(Run(start, before), e)
  }

  /**
   * The time by which an event delays the watcher: what calls and hand-overs take, and what passes
   * outside a wait or beyond its end.
   */
  function Lost(s: State, e: Event): nat {
    match e
    case Schedule(_, _, lag) => lag
    case BeginWait => 0
    case Wake(_, before, lag) => before + lag
    case Tick(ns) =>
      match s.watcher
      case Waiting(until) => if s.now + ns <= until then 0 else if s.now >= until then ns else s.now + ns - until
      case _ => ns
  }

  ghost function LostTime(start: int, es: Events): nat {
    match es
    case Start => 0
    case Then(before, e) => LostTime(start, before) + Lost(Run(start, before), e)
  }

  // ----- Each accepted action is waiting or handed over, once ---------------------------------

  ghost predicate HandedOver(s: State, id: nat) {
    exists i :: 0 <= i < |s.handed| && s.handed[i].id == id
  }

  /** An accepted action is in the heap once, unless and until it is handed over; nothing else is. */
  ghost predicate Conserved(s: State) {
    && (forall id: nat :: multiset(s.heap)[id] == if id < |s.accepted| && !HandedOver(s, id) then 1 else 0)
    && (forall i :: 0 <= i < |s.handed| ==> s.handed[i].id < |s.accepted|)
    && (forall i, j :: 0 <= i < j < |s.handed| ==> s.handed[i].id != s.handed[j].id)
  }

  lemma SameKeepsConserved(s: State, s': State)
    requires Conserved(s) && s'.heap == s.heap && s'.accepted == s.accepted && s'.handed == s.handed
    ensures Conserved(s')
  {
    assert forall id: nat :: HandedOver(s', id) <==> HandedOver(s, id);
  }

  lemma PushConserves(s: State, delay: int, clock: Clock, lag: nat)
    requires Conserved(s)
    ensures Conserved(Scheduled(s, delay, clock, lag))
  {
    hide Push;
    var s' := Scheduled(s, delay, clock, lag);
    PushKeeps(s.heap, |s.accepted|, s'.accepted, clock);
    assert forall id: nat :: HandedOver(s', id) <==> HandedOver(s, id);
    forall id: nat ensures multiset(s'.heap)[id] == if id < |s'.accepted| && !HandedOver(s', id) then 1 else 0 {
      assert multiset(s.heap)[id] == if id < |s.accepted| && !HandedOver(s, id) then 1 else 0;
    }
  }

  lemma PopConserves(s: State, clock: Clock)
    requires Conserved(s)
    ensures Conserved(Popped(s, clock))
  {
    hide Pop;
    if s.heap != [] {
      var s', top := Popped(s, clock), s.heap[0];
      PopKeeps(s.heap, s.accepted, clock);
      assert top in multiset(s.heap);
      forall id: nat ensures HandedOver(s', id) <==> HandedOver(s, id) || id == top {
        assert s'.handed[|s.handed|].id == top;
        if HandedOver(s, id) {
          var i :| 0 <= i < |s.handed| && s.handed[i].id == id;
          assert s'.handed[i].id == id;
        }
      }
      forall i | 0 <= i < |s.handed| ensures s.handed[i].id != top {
        assert HandedOver(s, s.handed[i].id);
      }
      forall id: nat ensures multiset(s'.heap)[id] == if id < |s'.accepted| && !HandedOver(s', id) then 1 else 0 {
        assert multiset(s.heap)[id] == if id < |s.accepted| && !HandedOver(s, id) then 1 else 0;
      }
    }
  }

  lemma StepConserves(s: State, e: Event)
    requires Conserved(s)
    ensures Conserved(Step(s, e))
  {
    hide Conserved, Popped, Scheduled;
    if Possible(s, e) {
      match e {
        case Schedule(delay, clock, lag) => PushConserves(s, delay, clock, lag);
        case Wake(clock, before, lag) =>
          PopConserves(s, clock);
          SameKeepsConserved(if s.reason == ExecuteTask then Popped(s, clock) else s, Step(s, e));
        case _ => SameKeepsConserved(s, Step(s, e));
      }
    }
  }

  /** After any events: each accepted action is in the heap or has been handed over once, and nothing else is. */
  lemma {:induction false} RunConserves(start: int, es: Events)
    ensures Conserved(Run(start, es))
  {
    hide Conserved, Step;
    match es {
      case Start => assert Conserved(Initial(start)) by { InitialConserved(start); }
      case Then(before, e) => RunConserves(start, before); StepConserves(Run(start, before), e);
    }
  }

  lemma InitialConserved(start: int)
    ensures Conserved(Initial(start))
  {
  }

  lemma HeapIsKnown(s: State)
    requires Conserved(s)
    ensures Known(s.heap, s.accepted)
  {
    forall i | 0 <= i < |s.heap| ensures s.heap[i] < |s.accepted| {
      assert s.heap[i] in multiset(s.heap);
    }
  }

  // ----- The wait -----------------------------------------------------------------------------

  predicate Executing(s: State) {
    s.reason == ExecuteTask && s.watcher.Waiting?
  }

  /** When the current wait will end, or would if the watcher began it now. */
  function Horizon(s: State): int {
    if Executing(s) then s.watcher.until else s.now + s.delay * MS
  }

  /** When that wait began. */
  function WaitStart(s: State): int {
    if Executing(s) then s.began else s.now
  }

  predicate Timed(s: State) {
    s.updated <= WaitStart(s) <= s.now && Horizon(s) == WaitStart(s) + s.delay * MS
  }

  lemma {:induction false} RunIsTimed(start: int, es: Events)
    ensures Timed(Run(start, es))
  {
    if es.Start? {
    } else {
      RunIsTimed(start, es.before);
      hide Pop, Push;
    }
  }

  // ----- Never early --------------------------------------------------------------------------

  /** Every delay ends before the longest wait does. */
  ghost predicate Bounded(start: int, es: Events) {
    match es
    case Start => true
    case Then(before, e) =>
      && Bounded(start, before)
      && (e.Schedule? ==> Run(start, before).now + e.lag + (e.delay + 1) * MS <= MAX - HOUR)
  }

  /** Some pending action is due at `instant`. */
  ghost predicate DueBy(s: State, instant: int) {
    exists i :: 0 <= i < |s.heap| && Deadline(s, s.heap[i]) <= instant
  }

  /**
   * The reason is ExecuteTask only where a wait ends no sooner than some pending deadline. With
   * nothing pending, the delay reaches to the end of the clock, so that any action shortens it.
   */
  ghost predicate Inv(s: State) {
    && s.updated <= s.now
    && (forall id :: 0 <= id < |s.accepted| ==> s.accepted[id].created <= s.now)
    && (s.watcher.Notified? ==> s.reason == UpdateDelay)
    && (s.heap != [] ==> DueBy(s, Horizon(s)))
    && (s.heap == [] ==> s.delay * MS + s.updated > MAX - HOUR - MS)
  }

  lemma InitialInv(start: int)
    ensures Inv(Initial(start))
  {
  }

  /** The pending actions stay, and the wait does not end sooner. */
  lemma LaterKeepsInv(s: State, s': State)
    requires Inv(s)
    requires s'.heap == s.heap && s'.accepted == s.accepted && s'.delay == s.delay
    requires s'.now >= s.now && s.updated <= s'.updated <= s'.now && Horizon(s') >= Horizon(s)
    requires s'.watcher.Notified? ==> s'.reason == UpdateDelay
    ensures Inv(s')
  {
    if s.heap != [] {
      var i :| 0 <= i < |s.heap| && Deadline(s, s.heap[i]) <= Horizon(s);
      assert Deadline(s', s'.heap[i]) <= Horizon(s');
    }
    assert forall id :: Deadline(s', id) == Deadline(s, id);
  }

  /** With nothing pending, a bounded delay is shorter than the time left. */
  lemma EmptyHeapIsNoticed(s: State, delay: int, now: int)
    requires s.updated <= now && s.delay * MS + s.updated > MAX - HOUR - MS
    requires now + (delay + 1) * MS <= MAX - HOUR
    ensures TimeLeft(s.delay, s.updated, now) > delay
  {
    var elapsed := now - s.updated;
    assert (elapsed / MS) * MS <= elapsed;
  }

  lemma PendingIsDueBy(s: State, id: nat, instant: int)
    requires id in s.heap && Deadline(s, id) <= instant
    ensures DueBy(s, instant)
  {
    var i :| 0 <= i < |s.heap| && s.heap[i] == id;
  }

  lemma ScheduleKeepsInv(s: State, delay: int, clock: Clock, lag: nat)
    requires Inv(s) && Conserved(s)
    requires s.now + lag + (delay + 1) * MS <= MAX - HOUR
    ensures Inv(Scheduled(s, delay, clock, lag))
  {
    hide Push, Conserved, DueBy;
    var s', n := Scheduled(s, delay, clock, lag), |s.accepted|;
    PushKeeps(s.heap, n, s'.accepted, clock);
    assert forall id :: 0 <= id < n ==> Deadline(s', id) == Deadline(s, id);
    assert n in multiset(s'.heap) && Deadline(s', n) == s.now + delay * MS;
    if s.heap == [] {
      EmptyHeapIsNoticed(s, delay, s.now + lag);
      PendingIsDueBy(s', n, Horizon(s'));
    } else {
      var id := DueNumber(s, Horizon(s));
      assert id in multiset(s.heap) && id in multiset(s'.heap);
      if Deadline(s', n) <= Horizon(s') {
        PendingIsDueBy(s', n, Horizon(s'));
      } else {
        PendingIsDueBy(s', id, Horizon(s'));
      }
    }
  }

  lemma DueNumber(s: State, instant: int) returns (id: nat)
    requires DueBy(s, instant) && Conserved(s)
    ensures id in s.heap && id < |s.accepted| && Deadline(s, id) <= instant
  {
    var i :| 0 <= i < |s.heap| && Deadline(s, s.heap[i]) <= instant;
    HeapIsKnown(s);
    id := s.heap[i];
  }

  lemma LongestWait(now: int)
    ensures MaxWaitTime(now) * MS + now > MAX - HOUR - MS
  {
  }

  lemma ExecuteKeepsInv(s: State, clock: Clock, before: nat, lag: nat)
    requires Inv(s) && Conserved(s) && s.reason == ExecuteTask
    ensures Inv(Woken(s, clock, before, lag))
  {
    hide Pop, Conserved, DueBy;
    var s' := Woken(s, clock, before, lag);
    PopConserves(s, clock);
    assert forall id :: Deadline(s', id) == Deadline(s, id);
    if s'.heap != [] {
      HeapIsKnown(Popped(s, clock));
      CeilingAfterCreation(s.accepted[s'.heap[0]], s.now + before);
      PendingIsDueBy(s', s'.heap[0], Horizon(s'));
    } else {
      LongestWait(s.now + before);
    }
  }

  lemma StepKeepsInv(s: State, e: Event)
    requires Inv(s) && Conserved(s) && Timed(s)
    requires e.Schedule? ==> s.now + e.lag + (e.delay + 1) * MS <= MAX - HOUR
    ensures Inv(Step(s, e))
  {
    hide Conserved, Scheduled, Popped, DueBy, Deadline;
    if Possible(s, e) {
      match e {
        case Schedule(delay, clock, lag) => ScheduleKeepsInv(s, delay, clock, lag);
        case Wake(clock, before, lag) =>
          if s.reason == ExecuteTask {
            ExecuteKeepsInv(s, clock, before, lag);
          } else {
            LaterKeepsInv(s, Step(s, e));
          }
        case _ => LaterKeepsInv(s, Step(s, e));
      }
    }
  }

  lemma {:induction false} RunKeepsInv(start: int, es: Events)
    requires Bounded(start, es)
    ensures Inv(Run(start, es))
  {
    hide Inv, Step, Conserved, Timed;
    match es {
      case Start => assert Inv(Initial(start)) by { InitialInv(start); }
      case Then(before, e) =>
        RunKeepsInv(start, before);
        RunConserves(start, before);
        RunIsTimed(start, before);
        StepKeepsInv(Run(start, before), e);
    }
  }

  /** While something is pending and the reason is ExecuteTask, the wait ends no sooner than some pending deadline. */
  lemma WaitCoversADeadline(start: int, es: Events) returns (id: nat)
    requires Bounded(start, es)
    requires Executing(Run(start, es)) && Run(start, es).heap != []
    ensures var s := Run(start, es); id in s.heap && Deadline(s, id) <= s.watcher.until
  {
    hide Run, Bounded;
    RunKeepsInv(start, es);
    RunConserves(start, es);
    id := DueNumber(Run(start, es), Horizon(Run(start, es)));
  }

  // ----- What is handed over ------------------------------------------------------------------

  /** No pending action is due earlier than the root of the heap by more than `slack`. */
  ghost predicate RootWithin(s: State, slack: nat) {
    s.heap != [] ==> forall i :: 0 <= i < |s.heap| ==> Deadline(s, s.heap[0]) <= Deadline(s, s.heap[i]) + slack
  }

  ghost predicate Within(start: int, es: Events, slack: nat) {
    RootWithin(Run(start, es), slack) && (es.Then? ==> Within(start, es.before, slack))
  }

  ghost predicate Punctual(s: State, slack: nat) {
    forall i :: 0 <= i < |s.handed| ==> s.handed[i].at + slack >= Deadline(s, s.handed[i].id)
  }

  /** What the watcher takes from the heap is due. */
  lemma RootIsDue(s: State, slack: nat)
    requires Inv(s) && s.reason == ExecuteTask && Awake(s) && s.heap != [] && RootWithin(s, slack)
    ensures s.now + slack >= Deadline(s, s.heap[0])
  {
    var i :| 0 <= i < |s.heap| && Deadline(s, s.heap[i]) <= Horizon(s);
  }

  lemma StepIsPunctual(s: State, e: Event, slack: nat)
    requires Inv(s) && Conserved(s) && RootWithin(s, slack) && Punctual(s, slack)
    ensures Punctual(Step(s, e), slack)
  {
    hide Push, Pop, Inv, RootWithin;
    var s' := Step(s, e);
    assert forall id :: 0 <= id < |s.accepted| ==> Deadline(s', id) == Deadline(s, id);
    assert forall i :: 0 <= i < |s.handed| ==> s.handed[i].id < |s.accepted|;
    if Possible(s, e) && e.Wake? && s.reason == ExecuteTask && s.heap != [] {
      RootIsDue(s, slack);
      HeapIsKnown(s);
    }
  }

  lemma {:induction false} RunIsPunctual(start: int, es: Events, slack: nat)
    requires Bounded(start, es) && Within(start, es, slack)
    ensures Punctual(Run(start, es), slack)
  {
    hide Inv, Step, Conserved, RootWithin;
    if es.Start? {
    } else {
      RunIsPunctual(start, es.before, slack);
      RunKeepsInv(start, es.before);
      RunConserves(start, es.before);
      assert RootWithin(Run(start, es.before), slack);
      hide Punctual;
      StepIsPunctual(Run(start, es.before), es.event, slack);
    }
  }

  /** On any clock, an action is handed over early at most by what the root of the heap was ever out of order. */
  lemma EarlyAtMostBySlack(start: int, es: Events, slack: nat, i: nat)
    requires Bounded(start, es) && Within(start, es, slack) && i < |Run(start, es).handed|
    ensures var s := Run(start, es);
            && s.handed[i].id < |s.accepted|
            && s.handed[i].at + slack >= s.accepted[s.handed[i].id].Deadline()
  {
    hide Run, Bounded, Within;
    RunIsPunctual(start, es, slack);
    RunConserves(start, es);
  }

  // ----- The heap stays in order --------------------------------------------------------------

  predicate HasClock(e: Event) {
    e.Schedule? || e.Wake?
  }

  /** No more than `width` passes between the two readings of any comparison. */
  ghost predicate SteadyRun(es: Events, width: nat) {
    es.Then? ==> SteadyRun(es.before, width) && SteadyEvent(es.event, width)
  }

  ghost predicate SteadyEvent(e: Event, width: nat) {
    HasClock(e) ==> SteadyClock(e.clock, width)
  }

  /** No action was created after the clock's present reading. */
  ghost predicate CreatedBefore(entries: seq<Entry>, now: int) {
    forall i :: 0 <= i < |entries| ==> entries[i].created <= now
  }

  /** What a step does to the clock and to the list of accepted actions. */
  lemma StepOnward(s: State, e: Event)
    ensures Step(s, e).now
         == if !Possible(s, e) then s.now
            else match e
              case Tick(ns) => s.now + ns
              case Schedule(_, _, lag) => s.now + lag
              case BeginWait => s.now
              case Wake(_, before, lag) => if s.reason == UpdateDelay then s.now else s.now + before + lag
    ensures Step(s, e).accepted
         == if Possible(s, e) && e.Schedule? then s.accepted + [Entry(s.now, e.delay)] else s.accepted
  {
    hide Push, Pop, Between;
  }

  /** The calls of `doSchedule` that were possible, with their delays and when they were made. */
  ghost function Given(start: int, es: Events): seq<Entry> {
    match es
    case Start => []
    case Then(before, e) =>
      var s := Run(start, before);
      if e.Schedule? && Possible(s, e) then Given(start, before) + [Entry(s.now, e.delay)] else Given(start, before)
  }

  /** What was accepted is what `doSchedule` was given, in order. */
  lemma {:induction false} AcceptedIsGiven(start: int, es: Events)
    ensures Run(start, es).accepted == Given(start, es)
  {
    hide Step, Possible;
    match es {
      case Start =>
      case Then(before, e) =>
        AcceptedIsGiven(start, before);
        StepOnward(Run(start, before), e);
    }
  }

  lemma {:induction false} RunCreatesBefore(start: int, es: Events)
    ensures CreatedBefore(Run(start, es).accepted, Run(start, es).now)
  {
    hide Step, Possible;
    match es {
      case Start =>
      case Then(before, e) =>
        RunCreatesBefore(start, before);
        StepOnward(Run(start, before), e);
    }
  }

  lemma OrderedWithMore(tree: Tree, entries: seq<Entry>, c: int, entry: Entry)
    requires Ordered(tree, entries, c) && Known(tree, entries)
    ensures Ordered(tree, entries + [entry], c) && Known(tree, entries + [entry])
  {
    forall i | 0 < i < |tree| ensures InOrder(tree, i, entries + [entry], c) {
      assert InOrder(tree, i, entries, c);
    }
  }

  lemma ClearBeforeFewer(s: State, e: Event, c: int, width: nat)
    requires ClearBefore(Step(s, e).accepted, c, width)
    ensures ClearBefore(s.accepted, c, width)
  {
    hide Step, Possible, IsClear;
    StepOnward(s, e);
    assert s.accepted == Step(s, e).accepted[..|s.accepted|];
  }

  lemma ClockIsFaithful(entries: seq<Entry>, c: int, width: nat, clock: Clock, from: int, to: int)
    requires ClearBefore(entries, c, width) && SteadyClock(clock, width) && width >= MS
    requires CreatedBefore(entries, from) && Between(clock, from, to)
    ensures Faithful(entries, c, clock)
  {
    hide ClearBefore, SteadyClock, Faithful;
    ClearIsFaithful(entries, c, width, clock);
  }

  lemma StepKeepsOrder(s: State, e: Event, c: int, width: nat)
    requires Ordered(s.heap, s.accepted, c) && Conserved(s) && CreatedBefore(s.accepted, s.now)
    requires ClearBefore(Step(s, e).accepted, c, width) && SteadyEvent(e, width) && width >= MS
    ensures Ordered(Step(s, e).heap, Step(s, e).accepted, c)
  {
    hide Conserved, Ordered, Push, Pop, Between, Faithful, ClearBefore, SteadyClock;
    HeapIsKnown(s);
    if Possible(s, e) {
      match e {
        case Schedule(delay, clock, lag) =>
          var entries := s.accepted + [Entry(s.now, delay)];
          ClockIsFaithful(entries, c, width, clock, s.now, s.now + lag);
          OrderedWithMore(s.heap, s.accepted, c, Entry(s.now, delay));
          PushOrders(s.heap, |s.accepted|, entries, c, clock);
        case Wake(clock, before, lag) =>
          if s.heap != [] {
            ClockIsFaithful(s.accepted, c, width, clock, s.now, s.now + before);
            PopOrders(s.heap, s.accepted, c, clock);
          }
        case _ =>
      }
    }
  }

  /**
   * On any clock, and although the pushes and pops of a run see many instants: nothing that is due
   * from `c` on is ever above something due earlier, if no action is due in the `width` before `c`
   * and no more passes between the two readings of a comparison.
   */
  lemma {:induction false} RunKeepsOrder(start: int, es: Events, c: int, width: nat)
    requires SteadyRun(es, width) && width >= MS && ClearBefore(Run(start, es).accepted, c, width)
    ensures Ordered(Run(start, es).heap, Run(start, es).accepted, c)
  {
    hide Ordered, Step, Conserved, Possible, ClearBefore, CreatedBefore, SteadyEvent;
    match es {
      case Start => NothingToOrder([], c);
      case Then(before, e) =>
        var s := Run(start, before);
        ClearBeforeFewer(s, e, c, width);
        RunKeepsOrder(start, before, c, width);
        RunConserves(start, before);
        RunCreatesBefore(start, before);
        StepKeepsOrder(s, e, c, width);
    }
  }

  /**
   * So what the watcher takes next is due first of all that is pending, unless another action is due
   * just before it.
   */
  lemma PopsEarliest(start: int, es: Events, width: nat, i: nat)
    requires SteadyRun(es, width) && width >= MS && i < |Run(start, es).heap|
    requires ClearBefore(Run(start, es).accepted, Deadline(Run(start, es), Run(start, es).heap[0]), width)
    ensures var s := Run(start, es); Deadline(s, s.heap[0]) <= Deadline(s, s.heap[i])
  {
    hide Run, ClearBefore, Ordered, Conserved;
    var s := Run(start, es);
    RunConserves(start, es);
    HeapIsKnown(s);
    RunKeepsOrder(start, es, Deadline(s, s.heap[0]), width);
    RootLeads(s.heap, s.accepted, Deadline(s, s.heap[0]), i);
  }

  // ----- Never early --------------------------------------------------------------------------

  /** What is due from `c` on has not been handed over before `c`. */
  ghost predicate PunctualFrom(s: State, c: int) {
    forall i :: 0 <= i < |s.handed| && Deadline(s, s.handed[i].id) >= c ==> s.handed[i].at >= c
  }

  /** If the root is due from `c` on, the watcher does not take it before `c`. */
  lemma RootIsDueFrom(s: State, c: int)
    requires Inv(s) && Conserved(s) && Ordered(s.heap, s.accepted, c)
    requires s.reason == ExecuteTask && Awake(s) && s.heap != []
    ensures Deadline(s, s.heap[0]) >= c ==> s.now >= c
  {
    hide Ordered, Conserved;
    HeapIsKnown(s);
    var i :| 0 <= i < |s.heap| && Deadline(s, s.heap[i]) <= Horizon(s);
    RootLeads(s.heap, s.accepted, c, i);
  }

  lemma StepIsPunctualFrom(s: State, e: Event, c: int)
    requires Inv(s) && Conserved(s) && Ordered(s.heap, s.accepted, c) && PunctualFrom(s, c)
    ensures PunctualFrom(Step(s, e), c)
  {
    hide Push, Pop, Inv, Ordered;
    var s' := Step(s, e);
    assert forall id :: 0 <= id < |s.accepted| ==> Deadline(s', id) == Deadline(s, id);
    assert forall i :: 0 <= i < |s.handed| ==> s.handed[i].id < |s.accepted|;
    if Possible(s, e) && e.Wake? && s.reason == ExecuteTask && s.heap != [] {
      RootIsDueFrom(s, c);
      HeapIsKnown(s);
    }
  }

  lemma {:induction false} RunIsPunctualFrom(start: int, es: Events, c: int, width: nat)
    requires Bounded(start, es) && SteadyRun(es, width) && width >= MS
    requires ClearBefore(Run(start, es).accepted, c, width)
    ensures PunctualFrom(Run(start, es), c)
  {
    hide Inv, Step, Conserved, Ordered, ClearBefore, SteadyEvent;
    match es {
      case Start =>
      case Then(before, e) =>
        var s := Run(start, before);
        ClearBeforeFewer(s, e, c, width);
        RunIsPunctualFrom(start, before, c, width);
        RunKeepsInv(start, before);
        RunConserves(start, before);
        RunKeepsOrder(start, before, c, width);
        hide PunctualFrom;
        StepIsPunctualFrom(s, e, c);
    }
  }

  /**
   * In every interleaving of schedule calls, timeouts and watcher steps, on any clock: an action is
   * handed to the executor only once its delay has elapsed, unless another is due just before it,
   * within a millisecond or within what passes between the two readings of a comparison.
   */
  lemma NeverEarly(start: int, es: Events, width: nat, i: nat)
    requires Bounded(start, es) && SteadyRun(es, width) && width >= MS && i < |Run(start, es).handed|
    ensures var s := Run(start, es);
            && s.handed[i].id < |s.accepted|
            && (ClearBefore(s.accepted, s.accepted[s.handed[i].id].Deadline(), width) ==>
                  s.handed[i].at >= s.accepted[s.handed[i].id].Deadline())
  {
    hide Run, Bounded, SteadyRun, ClearBefore;
    RunConserves(start, es);
    var s := Run(start, es);
    var due := s.accepted[s.handed[i].id].Deadline();
    if ClearBefore(s.accepted, due, width) {
      RunIsPunctualFrom(start, es, due, width);
    }
  }

  /** In any case it is early by less than `width` for each action that is due before it. */
  lemma EarlyByLess(start: int, es: Events, width: nat, i: nat)
    requires Bounded(start, es) && SteadyRun(es, width) && width >= MS && i < |Run(start, es).handed|
    ensures var s := Run(start, es);
            && s.handed[i].id < |s.accepted|
            && var due := s.accepted[s.handed[i].id].Deadline();
               s.handed[i].at + (width - 1) * DueBefore(s.accepted, due) >= due
  {
    hide Run, Bounded, SteadyRun, ClearBefore;
    RunConserves(start, es);
    var s := Run(start, es);
    var c := ClearInstant(s.accepted, s.accepted[s.handed[i].id].Deadline(), width);
    RunIsPunctualFrom(start, es, c, width);
  }

  /** So the root of the heap is out of order by less than `width` for each accepted action. */
  lemma {:induction false} SlackIsBounded(start: int, es: Events, width: nat, slack: nat)
    requires SteadyRun(es, width) && width >= MS && slack >= (width - 1) * |Run(start, es).accepted|
    ensures Within(start, es, slack)
  {
    hide Step, SteadyEvent;
    RootIsNear(start, es, width, slack);
    match es {
      case Start =>
      case Then(before, e) =>
        StepOnward(Run(start, before), e);
        FewerActions(width - 1, |Run(start, before).accepted|, |Run(start, es).accepted|);
        SlackIsBounded(start, before, width, slack);
    }
  }

  lemma FewerActions(w: nat, m: nat, n: nat)
    requires m <= n
    ensures w * m <= w * n
  {
  }

  lemma RootIsNear(start: int, es: Events, width: nat, slack: nat)
    requires SteadyRun(es, width) && width >= MS && slack >= (width - 1) * |Run(start, es).accepted|
    ensures RootWithin(Run(start, es), slack)
  {
    hide Run, SteadyRun, ClearBefore, Ordered, Conserved;
    var s := Run(start, es);
    if s.heap != [] {
      RunConserves(start, es);
      HeapIsKnown(s);
      var due := Deadline(s, s.heap[0]);
      var c := ClearInstant(s.accepted, due, width);
      DueBeforeBound(s.accepted, due);
      FewerActions(width - 1, DueBefore(s.accepted, due), |s.accepted|);
      RunKeepsOrder(start, es, c, width);
      forall i | 0 <= i < |s.heap| ensures due <= Deadline(s, s.heap[i]) + slack {
        RootLeads(s.heap, s.accepted, c, i);
      }
    }
  }

  // ----- On a clock of whole milliseconds -----------------------------------------------------

  ghost predicate WholeEntries(entries: seq<Entry>) {
    forall i :: 0 <= i < |entries| ==> Whole(entries[i].created)
  }

  predicate WholeReading(at: Reading) {
    Whole(at.first) && Whole(at.second)
  }

  ghost predicate WholeClock(clock: Clock) {
    forall k :: WholeReading(clock(k))
  }

  /** The clock starts at a whole millisecond and shows nothing else. */
  ghost predicate WholeRun(start: int, es: Events) {
    match es
    case Start => Whole(start)
    case Then(before, e) => WholeRun(start, before) && WholeEvent(e)
  }

  ghost predicate WholeEvent(e: Event) {
    match e
    case Tick(ns) => Whole(ns)
    case Schedule(_, clock, lag) => WholeClock(clock) && Whole(lag)
    case BeginWait => true
    case Wake(clock, before, lag) => WholeClock(clock) && Whole(before) && Whole(lag)
  }

  lemma StepIsWhole(s: State, e: Event)
    requires Whole(s.now) && WholeEntries(s.accepted) && WholeEvent(e)
    ensures Whole(Step(s, e).now) && WholeEntries(Step(s, e).accepted)
  {
    hide Step, Possible, WholeClock;
    StepOnward(s, e);
  }

  lemma {:induction false} WholeRunIsWhole(start: int, es: Events)
    requires WholeRun(start, es)
    ensures Whole(Run(start, es).now) && WholeEntries(Run(start, es).accepted)
  {
    hide Step, WholeEvent, Whole;
    match es {
      case Start =>
      case Then(before, e) =>
        WholeRunIsWhole(start, before);
        hide WholeEntries;
        StepIsWhole(Run(start, before), e);
    }
  }

  /** On such a clock, with at most a millisecond between the two readings of a comparison, no action is ever early. */
  lemma NeverEarlyOnWholeClock(start: int, es: Events, i: nat)
    requires WholeRun(start, es) && Bounded(start, es) && SteadyRun(es, MS) && i < |Run(start, es).handed|
    ensures var s := Run(start, es);
            && s.handed[i].id < |s.accepted|
            && s.handed[i].at >= s.accepted[s.handed[i].id].Deadline()
  {
    hide Run, Bounded, SteadyRun, WholeRun;
    NeverEarly(start, es, MS, i);
    WholeRunIsWhole(start, es);
    var s := Run(start, es);
    forall k | 0 <= k < |s.accepted| ensures IsClear(s.accepted[k], s.accepted[s.handed[i].id].Deadline(), MS) {
      WholeIsClear(s.accepted[k], s.accepted[s.handed[i].id]);
    }
  }

  lemma WholeIsClear(a: Entry, b: Entry)
    requires Whole(a.created) && Whole(b.created)
    ensures IsClear(a, b.Deadline(), MS)
  {
  }

  // ----- Sometimes late -----------------------------------------------------------------------

  /** A schedule call that takes `lag`, and after which the wait ends later than the delay allows. */
  predicate Overlooked(s: State, delay: int, clock: Clock, lag: nat) {
    Horizon(Scheduled(s, delay, clock, lag)) > s.now + lag + delay * MS
  }

  /**
   * A delay is compared with what is left of the current one since the watcher last updated its
   * timestamp, not since the wait began. A delay is overlooked exactly if it is no shorter than what
   * that says is left, but ends before the wait does.
   */
  lemma OverlookedExactlyIf(start: int, es: Events, delay: int, clock: Clock, lag: nat)
    ensures var s := Run(start, es);
            var later := s.(now := s.now + lag);
            Overlooked(s, delay, clock, lag)
            <==> TimeLeft(s.delay, s.updated, later.now) <= delay && later.now + delay * MS < Horizon(later)
  {
    hide Run, Push;
  }

  /**
   * There is a delay that a call would overlook exactly if more whole milliseconds have passed since
   * the timestamp than time since the wait began.
   */
  lemma OverlooksExactlyIf(start: int, es: Events, clock: Clock, lag: nat)
    ensures var s := Run(start, es);
            var later := s.(now := s.now + lag);
            (exists delay: int :: Overlooked(s, delay, clock, lag))
            <==> Truncated(later.now - s.updated) * MS > later.now - WaitStart(later)
  {
    RunIsTimed(start, es);
    var s := Run(start, es);
    var later := s.(now := s.now + lag);
    var left := TimeLeft(s.delay, s.updated, later.now);
    hide Run, Overlooked, Truncated;
    assert left == s.delay - Truncated(later.now - s.updated);
    OverlookedExactlyIf(start, es, left, clock, lag);
    if delay: int :| Overlooked(s, delay, clock, lag) {
      OverlookedExactlyIf(start, es, delay, clock, lag);
    }
  }

  /** The wait outlasts a new deadline at most by the call's lag and the age of the timestamp when the wait began. */
  lemma LateAtMostByTimestamp(start: int, es: Events, delay: int, clock: Clock, lag: nat)
    ensures var s := Run(start, es);
            var later := s.(now := s.now + lag);
            Horizon(Scheduled(s, delay, clock, lag)) <= (s.now + delay * MS) + lag + (WaitStart(later) - s.updated)
  {
    RunIsTimed(start, es);
    hide Run, Push;
  }

  // ----- Runs in which things go wrong --------------------------------------------------------

  /** One reading for both sides, at one instant. */
  function At(now: int): Clock {
    k => Reading(now, now)
  }

  /** A run so far. */
  ghost predicate Reaches(start: int, es: Events, s: State, width: nat, whole: bool) {
    Run(start, es) == s && Bounded(start, es) && SteadyRun(es, width) && (whole ==> WholeRun(start, es))
  }

  lemma After(start: int, es: Events, s: State, width: nat, whole: bool, e: Event) returns (es': Events)
    requires Reaches(start, es, s, width, whole) && SteadyEvent(e, width) && (whole ==> WholeEvent(e))
    requires e.Schedule? ==> s.now + e.lag + (e.delay + 1) * MS <= MAX - HOUR
    ensures Reaches(start, es', Step(s, e), width, whole) && LostTime(start, es') == LostTime(start, es) + Lost(s, e)
  {
    hide Step, WholeEvent, SteadyEvent;
    es' := Then(es, e);
  }

  lemma AfterTick(start: int, es: Events, s: State, width: nat, whole: bool, ns: nat) returns (es': Events)
    requires Reaches(start, es, s, width, whole) && (whole ==> Whole(ns))
    ensures Reaches(start, es', s.(now := s.now + ns), width, whole)
    ensures LostTime(start, es') == LostTime(start, es) + Lost(s, Tick(ns))
  {
    hide Reaches;
    es' := After(start, es, s, width, whole, Tick(ns));
  }

  lemma AfterBegin(start: int, es: Events, s: State, width: nat, whole: bool) returns (es': Events)
    requires Reaches(start, es, s, width, whole) && s.watcher == Running
    ensures Reaches(start, es', s.(watcher := Waiting(s.now + s.delay * MS), began := s.now), width, whole)
    ensures LostTime(start, es') == LostTime(start, es)
  {
    hide Reaches;
    es' := After(start, es, s, width, whole, BeginWait);
  }

  /** A wake-up that takes no time. */
  lemma WakeAtOnce(s: State, width: nat)
    requires Awake(s)
    ensures var e := Wake(At(s.now), 0, 0);
            && Step(s, e) == Woken(s, At(s.now), 0, 0)
            && SteadyEvent(e, width) && (Whole(s.now) ==> WholeEvent(e)) && Lost(s, e) == 0
  {
    hide Pop;
    InstantClock(s.now, s.now, s.now, width);
    hide At, Woken;
  }

  lemma AfterUpdate(start: int, es: Events, s: State, width: nat, whole: bool) returns (es': Events)
    requires Reaches(start, es, s, width, whole) && Awake(s) && s.reason == UpdateDelay && (whole ==> Whole(s.now))
    ensures Reaches(start, es', s.(updated := s.now, reason := ExecuteTask, watcher := Running), width, whole)
    ensures LostTime(start, es') == LostTime(start, es)
  {
    hide *;
    WakeAtOnce(s, width);
    UpdateAtOnce(s);
    es' := After(start, es, s, width, whole, Wake(At(s.now), 0, 0));
  }

  lemma AfterTake(start: int, es: Events, s: State, width: nat, whole: bool) returns (es': Events)
    requires Reaches(start, es, s, width, whole) && Awake(s) && s.reason == ExecuteTask && s.heap != []
    requires whole ==> Whole(s.now)
    ensures var s' := Run(start, es');
            && Reaches(start, es', s', width, whole) && LostTime(start, es') == LostTime(start, es)
            && s'.handed == s.handed + [Handed(s.heap[0], s.now)] && s'.accepted == s.accepted
  {
    hide *;
    WakeAtOnce(s, width);
    TakeAtOnce(s);
    es' := After(start, es, s, width, whole, Wake(At(s.now), 0, 0));
    ReachesRun(start, es', width, whole);
  }

  lemma ReachesRun(start: int, es: Events, width: nat, whole: bool)
    ensures forall s :: Reaches(start, es, s, width, whole) ==> s == Run(start, es)
  {
  }

  lemma UpdateAtOnce(s: State)
    requires s.reason == UpdateDelay
    ensures Woken(s, At(s.now), 0, 0) == s.(updated := s.now, reason := ExecuteTask, watcher := Running)
  {
    hide At;
  }

  lemma TakeAtOnce(s: State)
    requires s.reason == ExecuteTask && s.heap != []
    ensures var s' := Woken(s, At(s.now), 0, 0);
            s'.handed == s.handed + [Handed(s.heap[0], s.now)] && s'.accepted == s.accepted
  {
    hide Pop, At;
  }

  /** A schedule call, given the heap it makes and the time left it reads. */
  lemma AfterSchedule(
    start: int, es: Events, s: State, width: nat, whole: bool,
    delay: int, clock: Clock, lag: nat, heap: Tree, left: int)
    returns (es': Events)
    requires Reaches(start, es, s, width, whole) && Between(clock, s.now, s.now + lag) && SteadyClock(clock, width)
    requires whole ==> Whole(lag) && WholeClock(clock)
    requires s.now + lag + (delay + 1) * MS <= MAX - HOUR
    requires heap == Push(s.heap, |s.accepted|, s.accepted + [Entry(s.now, delay)], clock)
    requires left == TimeLeft(s.delay, s.updated, s.now + lag)
    ensures LostTime(start, es') == LostTime(start, es) + lag
    ensures var s1 := s.(now := s.now + lag, accepted := s.accepted + [Entry(s.now, delay)], heap := heap);
            Reaches(start, es', if left <= delay then s1
                         else s1.(delay := delay, reason := UpdateDelay,
                                  watcher := if s.watcher.Waiting? then Notified else s.watcher),
                    width, whole)
  {
    hide Reaches, Push, TimeLeft, Between, SteadyClock, WholeClock;
    es' := After(start, es, s, width, whole, Schedule(delay, clock, lag));
  }

  lemma InstantClock(now: int, from: int, to: int, width: nat)
    requires from <= now <= to
    ensures Between(At(now), from, to) && SteadyClock(At(now), width)
    ensures Whole(now) ==> WholeClock(At(now))
  {
  }

  lemma FirstGoesToTheRoot(entry: Entry, clock: Clock)
    ensures Push([], 0, [] + [entry], clock) == [0]
  {
  }

  lemma LaterStays(tree: Tree, id: nat, entries: seq<Entry>, clock: Clock)
    requires tree != [] && !Later(entries, tree[Parent(|tree|)], id, clock(2 * |tree| + 1))
    ensures Push(tree, id, entries, clock) == tree + [id]
  {
    hide Later;
  }

  lemma EarlierGoesUp(entries: seq<Entry>, clock: Clock)
    requires Later(entries, 0, 1, clock(3))
    ensures Push([0], 1, entries, clock) == [1, 0]
  {
    hide Later;
    assert [0] + [1] == [0, 1] && [0, 1][1 := 0] == [0, 0] && [0, 0][0 := 1] == [1, 0];
  }

  /** The first action: the watcher, which has waited since the start, is notified. */
  function FirstScheduled(start: int, now: int, delay: int): State {
    State(now, [Entry(now, delay)], [0], delay, start, UpdateDelay, Notified, [], start)
  }

  lemma FirstIsScheduled(start: int, now: int, delay: nat, width: nat, whole: bool) returns (es: Events)
    requires start <= now && now + (delay + 1) * MS <= HOUR && (whole ==> Whole(start) && Whole(now))
    ensures Reaches(start, es, FirstScheduled(start, now, delay), width, whole)
  {
    var s := Initial(start).(watcher := Waiting(start + MaxWaitTime(start) * MS));
    FirstIsShorter(start, now, delay);
    InstantClock(now, now, now, width);
    FirstGoesToTheRoot(Entry(now, delay), At(now));
    assert s.accepted + [Entry(now, delay)] == [Entry(now, delay)];
    es := NothingScheduled(start, width, whole);
    WholeDifference(start, now);
    hide Reaches, LostTime, TimeLeft, Between, SteadyClock, WholeClock, Push, At, MaxWaitTime, Whole;
    es := AfterTick(start, es, s, width, whole, now - start);
    s := s.(now := now);
    es := AfterSchedule(start, es, s, width, whole, delay, At(now), 0, [0], TimeLeft(s.delay, start, now));
  }

  lemma WholeDifference(start: int, now: int)
    ensures Whole(0) && (Whole(start) && Whole(now) ==> Whole(now - start))
  {
    if Whole(start) && Whole(now) {
      var a, b := start / MS, now / MS;
      assert now - start == MS * (b - a);
    }
  }

  lemma NothingScheduled(start: int, width: nat, whole: bool) returns (es: Events)
    requires whole ==> Whole(start)
    ensures Reaches(start, es, Initial(start).(watcher := Waiting(start + MaxWaitTime(start) * MS)), width, whole)
  {
    es := Start;
    assert Reaches(start, es, Initial(start), width, whole);
    hide Reaches, MaxWaitTime;
    es := AfterBegin(start, es, Initial(start), width, whole);
  }

  lemma FirstIsShorter(start: int, now: int, delay: nat)
    requires start <= now && now + (delay + 1) * MS <= MAX - HOUR
    ensures TimeLeft(MaxWaitTime(start), start, now) > delay
  {
    hide MaxWaitTime, TimeLeft;
    LongestWait(start);
    EmptyHeapIsNoticed(Initial(start), delay, now);
  }

  /** The watcher reacts at once, and waits. */
  function FirstWaits(now: int, delay: int): State {
    State(now, [Entry(now, delay)], [0], delay, now, ExecuteTask, Waiting(now + delay * MS), [], now)
  }

  lemma FirstIsAwaited(start: int, now: int, delay: nat, width: nat, whole: bool) returns (es: Events)
    requires start <= now && now + (delay + 1) * MS <= HOUR && (whole ==> Whole(start) && Whole(now))
    ensures Reaches(start, es, FirstWaits(now, delay), width, whole)
  {
    hide Reaches;
    es := FirstIsScheduled(start, now, delay, width, whole);
    es := AfterUpdate(start, es, FirstScheduled(start, now, delay), width, whole);
    var s := FirstScheduled(start, now, delay).(updated := now, reason := ExecuteTask, watcher := Running);
    es := AfterBegin(start, es, s, width, whole);
  }

  /**
   * Late: an action due in 1 ms, scheduled right after one due in 5 ms, is overlooked, and a watcher
   * that reacts at once waits 4 ms past its deadline.
   */
  lemma StaleTimestampDelays() returns (es: Events, id: nat)
    ensures WholeRun(0, es) && SteadyRun(es, 0) && Bounded(0, es)
    ensures var s := Run(0, es); Executing(s) && id in s.heap && s.watcher.until == Deadline(s, id) + 4 * MS
  {
    var now, s := 100 * MS, FirstScheduled(0, 100 * MS, 5);
    var entries := [Entry(now, 5), Entry(now, 1)];
    assert s.accepted + [Entry(now, 1)] == entries;
    EarlierGoesUp(entries, At(now));
    InstantClock(now, now, now, 0);
    assert TimeLeft(5, 0, now) == -95;
    id := 1;
    es := FirstIsScheduled(0, now, 5, 0, true);
    assert Whole(now);
    hide LostTime, Push, Later, TimeLeft, Between, SteadyClock, WholeClock, At, Whole;
    hide Bounded, WholeRun, SteadyRun, Run;
    es := AfterSchedule(0, es, s, 0, true, 1, At(now), 0, [1, 0], -95);
    s := s.(accepted := entries, heap := [1, 0]);
    es := AfterUpdate(0, es, s, 0, true);
    s := s.(updated := now, reason := ExecuteTask, watcher := Running);
    es := AfterBegin(0, es, s, 0, true);
  }

  /**
   * Early on a clock of whole milliseconds: 2 ms pass between the two readings of one comparison, an
   * action due 1 ms after another becomes the root, and is handed over when the other is due.
   */
  lemma EarlyOnWholeClock() returns (es: Events)
    ensures WholeRun(0, es) && SteadyRun(es, 2 * MS) && Bounded(0, es)
    ensures var s := Run(0, es); s.handed == [Handed(1, 110 * MS)] && Deadline(s, 1) == 111 * MS
  {
    var now, s, width := 100 * MS, FirstWaits(100 * MS, 10), 2 * MS;
    var entries := [Entry(now, 10), Entry(now, 11)];
    var clock: Clock := k => Reading(100 * MS, 102 * MS);
    assert s.accepted + [Entry(now, 11)] == entries;
    EarlierGoesUp(entries, clock);
    assert TimeLeft(10, now, 102 * MS) == 8;
    assert Between(clock, now, 102 * MS) && SteadyClock(clock, width) && WholeClock(clock);
    assert Whole(now) && Whole(2 * MS) && Whole(8 * MS) && Whole(110 * MS);
    es := FirstIsAwaited(0, now, 10, width, true);
    hide LostTime, Push, Later, TimeLeft, Between, SteadyClock, WholeClock, Bounded, WholeRun, SteadyRun, Run, Whole;
    es := AfterSchedule(0, es, s, width, true, 11, clock, 2 * MS, [1, 0], 8);
    s := s.(now := 102 * MS, accepted := entries, heap := [1, 0]);
    es := AfterTick(0, es, s, width, true, 8 * MS);
    es := AfterTake(0, es, s.(now := 110 * MS), width, true);
  }

  /** The heap of this state has an action due at 10 ms above one due almost a millisecond before that. */
  function Misordered(): State {
    State(MS, [Entry(0, 10), Entry(1, 9)], [0, 1], 10, 0, ExecuteTask, Waiting(10 * MS), [], 0)
  }

  /** On a finer clock the heap can get out of order even if each comparison sees a single instant. */
  lemma FineClockMisorders() returns (es: Events)
    ensures Reaches(0, es, Misordered(), 0, false)
    ensures Deadline(Misordered(), 0) == Deadline(Misordered(), 1) + MS - 1
  {
    var s, entries := FirstWaits(0, 10), [Entry(0, 10), Entry(1, 9)];
    assert s.accepted + [Entry(1, 9)] == entries && [0] + [1] == [0, 1];
    LaterStays([0], 1, entries, At(MS));
    InstantClock(MS, 1, MS, 0);
    assert TimeLeft(10, 0, MS) == 9;
    es := FirstIsAwaited(0, 0, 10, 0, false);
    hide Reaches, LostTime, Push, Later, TimeLeft, Between, SteadyClock, WholeClock, At;
    es := AfterTick(0, es, s, 0, false, 1);
    es := AfterSchedule(0, es, s.(now := 1), 0, false, 9, At(MS), MS - 1, [0, 1], 9);
  }

  /** Two more actions, and the watcher is notified to wait for the last, due with action 1. */
  function Distracted(): State {
    State(7 * MS + 1, [Entry(0, 10), Entry(1, 9), Entry(2 * MS, 100), Entry(7 * MS + 1, 2)], [0, 1, 2, 3],
          2, 0, UpdateDelay, Notified, [], 0)
  }

  /** After the third. */
  function ThreeScheduled(): State {
    Misordered().(now := 2 * MS, heap := [0, 1, 2], accepted := [Entry(0, 10), Entry(1, 9), Entry(2 * MS, 100)])
  }

  lemma ThirdStays()
    ensures Push([0, 1], 2, ThreeScheduled().accepted, At(2 * MS)) == [0, 1, 2] && TimeLeft(10, 0, 2 * MS) == 8
  {
    assert [0, 1] + [2] == [0, 1, 2];
    LaterStays([0, 1], 2, ThreeScheduled().accepted, At(2 * MS));
  }

  lemma ThirdAction() returns (es: Events)
    ensures Reaches(0, es, ThreeScheduled(), 0, false)
  {
    var s, now := Misordered(), 2 * MS;
    assert s.accepted + [Entry(now, 100)] == ThreeScheduled().accepted;
    ThirdStays();
    InstantClock(now, now, now, 0);
    hide Reaches, LostTime, Push, Later, TimeLeft, Between, SteadyClock, WholeClock, At;
    es := FineClockMisorders();
    es := AfterTick(0, es, s, 0, false, MS);
    es := AfterSchedule(0, es, s.(now := now), 0, false, 100, At(now), 0, [0, 1, 2], 8);
  }

  lemma WatcherIsDistracted() returns (es: Events)
    ensures Reaches(0, es, Distracted(), 0, false)
  {
    var now := 7 * MS + 1;
    var entries := [Entry(0, 10), Entry(1, 9), Entry(2 * MS, 100), Entry(now, 2)];
    var s := ThreeScheduled();
    assert s.accepted + [Entry(now, 2)] == entries && [0, 1, 2] + [3] == [0, 1, 2, 3];
    LaterStays([0, 1, 2], 3, entries, At(now));
    InstantClock(now, now, now, 0);
    assert TimeLeft(10, 0, now) == 3;
    hide Reaches, LostTime, Push, Later, TimeLeft, Between, SteadyClock, WholeClock, At;
    es := ThirdAction();
    es := AfterTick(0, es, s, 0, false, 5 * MS + 1);
    es := AfterSchedule(0, es, s.(now := now), 0, false, 2, At(now), 0, [0, 1, 2, 3], 3);
  }

  /** When they are due it takes the root, almost a millisecond early. */
  lemma EarlyOnFineClock() returns (es: Events)
    ensures SteadyRun(es, 0) && Bounded(0, es)
    ensures var s := Run(0, es);
            && s.handed == [Handed(0, 9 * MS + 1)]
            && s.accepted == [Entry(0, 10), Entry(1, 9), Entry(2 * MS, 100), Entry(7 * MS + 1, 2)]
  {
    hide SteadyRun, Bounded, Run, LostTime;
    es := WatcherIsDistracted();
    var s := Distracted();
    es := AfterUpdate(0, es, s, 0, false);
    s := s.(updated := 7 * MS + 1, reason := ExecuteTask, watcher := Running);
    es := AfterBegin(0, es, s, 0, false);
    s := s.(watcher := Waiting(9 * MS + 1), began := 7 * MS + 1);
    es := AfterTick(0, es, s, 0, false, 2 * MS);
    es := AfterTake(0, es, s.(now := 9 * MS + 1), 0, false);
  }

  /** An action due in 10 ms, and one due `width - 1` after that. */
  function Neighbours(start: int, width: nat): (es: seq<Entry>)
    requires width >= MS
    ensures |es| == 2 && es[0] == Entry(start, 10) && start <= es[1].created < start + MS
    ensures es[1].Deadline() == es[0].Deadline() + width - 1
  {
    [Entry(start, 10), Entry(start + (width - 1) % MS, 10 + (width - 1) / MS)]
  }

  /**
   * On a finer clock, if `width` passes between the two readings of a comparison, an action due almost
   * that much later than another becomes the root, and is handed over too early.
   */
  lemma EarlyAcrossReadings(start: int, width: nat) returns (es: Events)
    requires width >= MS && start <= -2 * width
    ensures SteadyRun(es, width) && Bounded(start, es)
    ensures var s := Run(start, es);
            && |s.handed| == 1 && s.handed[0].id == 1 && s.handed[0].at < Deadline(s, 1)
            && s.accepted == Neighbours(start, width)
  {
    var s, entries := FirstWaits(start, 10), Neighbours(start, width);
    var e, first, second := entries[1], start + MS - 1, start + MS - 1 + width;
    var clock: Clock := k => Reading(first, second);
    var left := TimeLeft(10, start, second);
    assert s.accepted + [e] == entries;
    LaterGoesFirst(start, width, clock);
    EarlierGoesUp(entries, clock);
    assert left <= e.delay && second + (e.delay + 1) * MS <= MAX - HOUR;
    assert Between(clock, e.created, second) && SteadyClock(clock, width);
    es := FirstIsAwaited(start, start, 10, width, false);
    hide LostTime, Push, Later, TimeLeft, Between, SteadyClock, WholeClock, Neighbours;
    hide Bounded, WholeRun, SteadyRun, Run;
    es := AfterTick(start, es, s, width, false, e.created - start);
    es := AfterSchedule(
      start, es, s.(now := e.created), width, false, e.delay, clock, second - e.created, [1, 0], left);
    var wait := if second < s.watcher.until then s.watcher.until - second else 0;
    s := s.(now := second, accepted := entries, heap := [1, 0]);
    es := AfterTick(start, es, s, width, false, wait);
    es := AfterTake(start, es, s.(now := second + wait), width, false);
  }

  lemma LaterGoesFirst(start: int, width: nat, clock: Clock)
    requires width >= MS && clock(3) == Reading(start + MS - 1, start + MS - 1 + width)
    ensures Later(Neighbours(start, width), 0, 1, clock(3))
  {
    var es := Neighbours(start, width);
    hide Neighbours;
    CeilingAfterCreation(es[0], start + MS - 1);
    CeilingAfterCreation(es[1], start + MS - 1 + width);
    CeilingIs(9 * MS + 1, 10);
    CeilingIs(9 * MS, 9);
  }

  // ----- When no action is early --------------------------------------------------------------

  /** An action has been handed over before it was due, though no other was due in the `gap` before that. */
  ghost predicate Premature(s: State, gap: nat) {
    exists i :: 0 <= i < |s.handed| && IsPremature(s, s.handed[i], gap)
  }

  ghost predicate IsPremature(s: State, h: Handed, gap: nat) {
    h.at < Deadline(s, h.id) && ClearBefore(s.accepted, Deadline(s, h.id), gap)
  }

  lemma {:induction false} SteadyWithinMore(es: Events, width: nat, more: nat)
    requires SteadyRun(es, width) && width <= more
    ensures SteadyRun(es, more)
  {
    if es.Start? {
    } else {
      SteadyWithinMore(es.before, width, more);
    }
  }

  /**
   * On any clock, a gap before its deadline is what keeps an action from being early exactly if it is
   * no shorter than a millisecond and than what may pass between the two readings of a comparison.
   */
  lemma GapSufficesExactlyIf(width: nat, gap: nat)
    ensures (forall start, es :: Bounded(start, es) && SteadyRun(es, width) ==> !Premature(Run(start, es), gap))
       <==> gap >= MS && gap >= width
  {
    hide *;
    if gap >= MS && gap >= width {
      forall start, es | Bounded(start, es) && SteadyRun(es, width) ensures !Premature(Run(start, es), gap) {
        GapSuffices(start, es, width, gap);
      }
    } else {
      var start, es := EarlyWithin(width, gap);
      assert Bounded(start, es) && SteadyRun(es, width) && Premature(Run(start, es), gap);
    }
  }

  lemma GapSuffices(start: int, es: Events, width: nat, gap: nat)
    requires Bounded(start, es) && SteadyRun(es, width) && gap >= MS && gap >= width
    ensures !Premature(Run(start, es), gap)
  {
    hide Run, Bounded, SteadyRun, ClearBefore;
    SteadyWithinMore(es, width, gap);
    forall i | 0 <= i < |Run(start, es).handed| ensures !IsPremature(Run(start, es), Run(start, es).handed[i], gap) {
      NeverEarly(start, es, gap, i);
    }
  }

  lemma EarlyWithin(width: nat, gap: nat) returns (start: int, es: Events)
    requires gap < MS || gap < width
    ensures Bounded(start, es) && SteadyRun(es, width) && Premature(Run(start, es), gap)
  {
    hide Run, Bounded, SteadyRun;
    if gap < MS {
      start := 0;
      es := EarlyOnFineClock();
      SteadyWithinMore(es, 0, width);
    } else {
      start := -2 * (gap + 1);
      es := EarlyAcrossReadings(start, gap + 1);
      SteadyWithinMore(es, gap + 1, width);
    }
    assert IsPremature(Run(start, es), Run(start, es).handed[0], gap);
  }

  lemma {:induction false} WholeIsSteady(start: int, es: Events, width: nat)
    requires WholeRun(start, es) && SteadyRun(es, width) && width < 2 * MS
    ensures SteadyRun(es, MS)
  {
    if es.Start? {
    } else {
      WholeIsSteady(start, es.before, width);
      if HasClock(es.event) {
        forall k: nat ensures Steady(es.event.clock(k), MS) {
          assert WholeReading(es.event.clock(k)) && Steady(es.event.clock(k), width);
        }
      }
    }
  }

  /**
   * On a clock of whole milliseconds no action is ever early exactly if fewer than two of them may pass
   * between the two readings of a comparison.
   */
  lemma WholeSufficesExactlyIf(width: nat)
    ensures (forall start, es :: WholeRun(start, es) && Bounded(start, es) && SteadyRun(es, width) ==>
               !Premature(Run(start, es), 0))
       <==> width < 2 * MS
  {
    hide Run, Bounded, SteadyRun, WholeRun, Premature;
    if width < 2 * MS {
      forall start, es | WholeRun(start, es) && Bounded(start, es) && SteadyRun(es, width)
        ensures !Premature(Run(start, es), 0)
      {
        WholeSuffices(start, es, width);
      }
    } else {
      var es := EarlyOnWholeClock();
      SteadyWithinMore(es, 2 * MS, width);
      assert Premature(Run(0, es), 0) by { HandedEarly(Run(0, es)); }
    }
  }

  lemma WholeSuffices(start: int, es: Events, width: nat)
    requires WholeRun(start, es) && Bounded(start, es) && SteadyRun(es, width) && width < 2 * MS
    ensures !Premature(Run(start, es), 0)
  {
    hide Run, Bounded, SteadyRun, WholeRun;
    WholeIsSteady(start, es, width);
    forall i | 0 <= i < |Run(start, es).handed| ensures !IsPremature(Run(start, es), Run(start, es).handed[i], 0) {
      NeverEarlyOnWholeClock(start, es, i);
    }
  }

  lemma HandedEarly(s: State)
    requires |s.handed| > 0 && s.handed[0].at < Deadline(s, s.handed[0].id)
    ensures Premature(s, 0)
  {
    assert IsPremature(s, s.handed[0], 0);
  }

  // ----- The object ---------------------------------------------------------------------------

  lemma KnownAfterPop(tree: Tree, entries: seq<Entry>, clock: Clock)
    requires Known(tree, entries)
    ensures tree != [] ==> Known(Pop(tree, entries, clock), entries)
  {
    if tree != [] {
      PopKeeps(tree, entries, clock);
      var rest := Pop(tree, entries, clock);
      hide Pop;
      forall i | 0 <= i < |rest| ensures rest[i] < |entries| {
        assert rest[i] in multiset(rest) && rest[i] in multiset(tree);
      }
    }
  }

  /**
   * The scheduler's fields. The readings of the clock and the watcher's position are parameters;
   * `accepted` and `handed` record history.
   */
  class TaskScheduler {
    var scheduled: Tree
    var delay: int
    var updated: int
    var reason: Reason
    var accepted: seq<Entry>
    var handed: seq<Handed>

    ghost function View(now: int, watcher: Watcher, began: int): State
      reads this
    {
      State(now, accepted, scheduled, delay, updated, reason, watcher, handed, began)
    }

    constructor (now: int)
      ensures View(now, Running, now) == Initial(now)
    {
      scheduled, delay, updated, reason := [], MaxWaitTime(now), now, UpdateDelay;
      accepted, handed := [], [];
    }

    /** `notify` tells whether the watcher is notified. */
    method DoSchedule(delay: int, created: int, clock: Clock, read: int) returns (notify: bool)
      requires created <= read
      modifies this
      ensures forall watcher: Watcher, began: int ::
          View(read, if notify && watcher.Waiting? then Notified else watcher, began)
          == Scheduled(old(View(created, watcher, began)), delay, clock, read - created)
      ensures accepted == old(accepted) + [Entry(created, delay)] && handed == old(handed)
      ensures forall id: nat ::
          multiset(scheduled)[id] == multiset(old(scheduled))[id] + if id == |old(accepted)| then 1 else 0
      ensures this.delay == if notify then delay else old(this.delay)
    {
      PushKeeps(scheduled, |accepted|, accepted + [Entry(created, delay)], clock);
      hide Push;
      accepted := accepted + [Entry(created, delay)];
      scheduled := Push(scheduled, |accepted| - 1, accepted, clock);
      notify := TimeLeft(this.delay, updated, read) > delay;
      if notify {
        this.delay := delay;
        reason := UpdateDelay;
      }
    }

    /** The switch after the wait, from `now`: the delay is computed at `read`, and the clock read again at `later`. */
    method Wake(clock: Clock, now: int, read: int, later: int)
      requires now <= read <= later
      requires Known(scheduled, accepted)
      modifies this
      ensures forall watcher: Watcher, began: int ::
          View(if old(reason) == UpdateDelay then now else later, Running, began)
          == Woken(old(View(now, watcher, began)), clock, read - now, later - read)
      ensures reason == ExecuteTask && accepted == old(accepted)
      ensures old(reason) == UpdateDelay ==>
          updated == now && delay == old(delay) && scheduled == old(scheduled) && handed == old(handed)
      ensures old(reason) == ExecuteTask ==> updated == later
      ensures old(reason) == ExecuteTask && old(scheduled) != [] ==>
          handed == old(handed) + [Handed(old(scheduled)[0], now)]
      ensures old(reason) == ExecuteTask && scheduled != [] ==>
          && scheduled[0] < |accepted|
          && (accepted[scheduled[0]].created <= read ==>
                var due := accepted[scheduled[0]].Deadline(); due <= read + delay * MS < due + MS)
    {
      KnownAfterPop(scheduled, accepted, clock);
      hide Pop;
      match reason {
        case UpdateDelay =>
          updated := now;
          reason := ExecuteTask;
        case ExecuteTask =>
          if scheduled != [] {
            handed := handed + [Handed(scheduled[0], now)];
            scheduled := Pop(scheduled, accepted, clock);
          }
          delay := if scheduled != [] then LeftOf(scheduled[0], read) else MaxWaitTime(read);
          updated := later;
          if scheduled != [] && accepted[scheduled[0]].created <= read {
            CeilingAfterCreation(accepted[scheduled[0]], read);
          }
      }
    }

    function LeftOf(id: nat, now: int): int
      reads this
    {
      if id < |accepted| then accepted[id].Left(now) else 0
    }
  }
}
