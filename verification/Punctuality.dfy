/**
 * How late the scheduler is: the wait that follows a hand-over is exact to the millisecond, and as
 * long as new delays are heeded actions are late only by lost time and by what the heap is out of order.
 */
module Punctuality {
  import opened Deadlines
  import opened Heaps
  import opened Scheduler

  // ----- The wait after a hand-over -----------------------------------------------------------

  /**
   * After any run: once an action is handed over, the next wait is to end when the root of the heap is
   * due, or less than a millisecond later, but for the time between the last two readings of the clock.
   * With nothing left it is to end an hour before the end of the clock.
   */
  lemma NextWaitIsExact(start: int, es: Events, e: Event)
    requires Possible(Run(start, es), e) && e.Wake? && Run(start, es).reason == ExecuteTask
    ensures var s := Run(start, Then(es, e));
            if s.heap != []
            then Deadline(s, s.heap[0]) <= Horizon(s) - e.lag < Deadline(s, s.heap[0]) + MS
            else MAX - HOUR - MS < Horizon(s) - e.lag < MAX - HOUR + MS
  {
    RunConserves(start, Then(es, e));
    RunCreatesBefore(start, es);
    hide Run, Pop, Conserved;
    OneMoreEvent(start, es, e);
    var s, s' := Run(start, es), Run(start, Then(es, e));
    if s'.heap != [] {
      HeapIsKnown(s');
      CeilingAfterCreation(s.accepted[s'.heap[0]], s.now + e.before);
    } else {
      LongestWait(s.now + e.before);
    }
  }

  lemma OneMoreEvent(start: int, es: Events, e: Event)
    ensures Run(start, Then(es, e)) == Step(Run(start, es), e)
  {
  }

  /** On a clock of whole milliseconds it is to end exactly then. */
  lemma NextWaitIsWhole(start: int, es: Events, e: Event)
    requires Possible(Run(start, es), e) && e.Wake? && Run(start, es).reason == ExecuteTask
    requires WholeRun(start, Then(es, e)) && Run(start, Then(es, e)).heap != []
    ensures var s := Run(start, Then(es, e)); Horizon(s) - e.lag == Deadline(s, s.heap[0])
  {
    WholeRunIsWhole(start, es);
    RunConserves(start, Then(es, e));
    OneMoreEvent(start, es, e);
    hide Run, WholeRun, Conserved, Pop, Whole;
    var s, s' := Run(start, es), Run(start, Then(es, e));
    HeapIsKnown(s');
    assert s'.accepted == s.accepted && s'.delay == Left(s'.(now := s.now + e.before), s'.heap[0]);
    SumIsWhole(s.now, e.before);
    LeftOnWholeClock(s.accepted[s'.heap[0]], s.now + e.before);
  }

  lemma SumIsWhole(a: int, b: int)
    requires Whole(a) && Whole(b)
    ensures Whole(a + b)
  {
    var x, y := a / MS, b / MS;
    assert a + b == MS * (x + y);
  }

  // ----- In time ------------------------------------------------------------------------------

  /**
   * The new delay of a call is heeded: it does not come between two waits and shorten the next, and
   * while the watcher is awake it is not overlooked.
   */
  ghost predicate Heeded(s: State, e: Event) {
    e.Schedule? && !s.watcher.Waiting? ==>
      && !Overlooked(s, e.delay, e.clock, e.lag)
      && (s.watcher.Running? ==> TimeLeft(s.delay, s.updated, s.now + e.lag) <= e.delay)
  }

  ghost predicate AllHeeded(start: int, es: Events) {
    match es
    case Start => true
    case Then(before, e) => AllHeeded(start, before) && Heeded(Run(start, before), e)
  }

  /** When an action should be handed over: a negative delay is over at once. */
  function Proper(e: Entry): int {
    if e.delay < 0 then e.created else e.Deadline()
  }

  /** The timestamp is older than the wait at most by lost time; only a notified watcher has a new delay to note. */
  ghost predicate Fresh(s: State, lost: nat) {
    && (s.reason == ExecuteTask ==> WaitStart(s) - s.updated <= lost)
    && (s.reason == UpdateDelay ==> s.watcher.Notified? || s.heap == [])
  }

  /** Everything pending will be handed over at most `late` after it should be. */
  ghost predicate WillBeInTime(s: State, late: nat) {
    forall i :: 0 <= i < |s.heap| && s.heap[i] < |s.accepted| ==> InTime(s, s.heap[i], late)
  }

  predicate InTime(s: State, id: nat, late: nat)
    requires id < |s.accepted|
  {
    s.now <= Proper(s.accepted[id]) + late && Horizon(s) <= Proper(s.accepted[id]) + late
  }

  ghost predicate WasInTime(s: State, late: nat) {
    forall i :: 0 <= i < |s.handed| && s.handed[i].id < |s.accepted| ==>
      s.handed[i].at <= Proper(s.accepted[s.handed[i].id]) + late
  }

  /** How much longer than to the next deadline a wait is. */
  ghost predicate Rounds(s: State, e: Event, s': State, grain: nat) {
    Possible(s, e) && e.Wake? && s.reason == ExecuteTask && s'.heap != [] ==>
      Horizon(s') - e.lag <= Deadline(s', s'.heap[0]) + grain
  }

  lemma ScheduleIsFresh(s: State, delay: int, clock: Clock, lag: nat, lost: nat)
    requires Inv(s) && Fresh(s, lost) && Heeded(s, Schedule(delay, clock, lag))
    requires s.now + lag + (delay + 1) * MS <= MAX - HOUR
    ensures Fresh(Scheduled(s, delay, clock, lag), lost + lag)
  {
    hide Push, DueBy, Overlooked;
    if s.heap == [] {
      EmptyHeapIsNoticed(s, delay, s.now + lag);
    }
  }

  lemma StepIsFresh(s: State, e: Event, lost: nat)
    requires Inv(s) && Fresh(s, lost) && Heeded(s, e)
    requires e.Schedule? ==> s.now + e.lag + (e.delay + 1) * MS <= MAX - HOUR
    ensures Fresh(Step(s, e), lost + Lost(s, e))
  {
    hide Scheduled, Pop, DueBy, Between, Heeded;
    if Possible(s, e) && e.Schedule? {
      ScheduleIsFresh(s, e.delay, e.clock, e.lag, lost);
    }
  }

  /** The wait is not longer than before, nor than the new delay, but for what the call takes and for lost time. */
  lemma NewHorizon(s: State, delay: int, clock: Clock, lag: nat, lost: nat)
    requires Inv(s) && Timed(s) && Fresh(s, lost) && Heeded(s, Schedule(delay, clock, lag))
    requires s.now + lag + (delay + 1) * MS <= MAX - HOUR
    ensures var s' := Scheduled(s, delay, clock, lag);
            && s'.now == s.now + lag && s'.accepted == s.accepted + [Entry(s.now, delay)]
            && Horizon(s') <= s.now + delay * MS + lag + lost
            && (s.heap != [] ==> Horizon(s') <= Horizon(s) + lag)
  {
    hide Push, DueBy;
    if s.heap == [] {
      EmptyHeapIsNoticed(s, delay, s.now + lag);
    }
  }

  lemma ScheduleIsInTime(s: State, delay: int, clock: Clock, lag: nat, lost: nat, late: nat)
    requires Inv(s) && Timed(s) && Fresh(s, lost) && Conserved(s) && Heeded(s, Schedule(delay, clock, lag))
    requires s.now + lag + (delay + 1) * MS <= MAX - HOUR
    requires WillBeInTime(s, late) && lost <= late
    ensures WillBeInTime(Scheduled(s, delay, clock, lag), late + lag)
  {
    var s', n := Scheduled(s, delay, clock, lag), |s.accepted|;
    PushKeeps(s.heap, n, s'.accepted, clock);
    HeapIsKnown(s);
    NewHorizon(s, delay, clock, lag, lost);
    hide Push, Conserved, DueBy, Scheduled, Horizon, Inv, Timed, Fresh, Heeded;
    forall i | 0 <= i < |s'.heap| && s'.heap[i] < |s'.accepted| ensures InTime(s', s'.heap[i], late + lag) {
      var id := s'.heap[i];
      assert id in multiset(s'.heap);
      if id != n {
        assert id in multiset(s.heap);
        var j :| 0 <= j < |s.heap| && s.heap[j] == id;
        assert InTime(s, s.heap[j], late);
      }
    }
  }

  lemma WakeIsInTime(s: State, e: Event, slack: nat, grain: nat, late: nat)
    requires Inv(s) && Conserved(s) && e.Wake? && Possible(s, e) && s.reason == ExecuteTask
    requires RootWithin(Step(s, e), slack) && Rounds(s, e, Step(s, e), grain)
    requires WillBeInTime(s, late) && late >= grain + slack
    ensures WillBeInTime(Step(s, e), late + Lost(s, e))
  {
    hide Inv, Conserved, DueBy, Possible, Step, RootWithin;
    var s' := Step(s, e);
    WakeTakesRoot(s, e);
    assert s'.heap != [] ==> forall i :: 0 <= i < |s'.heap| ==>
        Deadline(s', s'.heap[0]) <= Deadline(s', s'.heap[i]) + slack by { RootIsWithin(s', slack); }
    forall i | 0 <= i < |s'.heap| && s'.heap[i] < |s'.accepted| ensures InTime(s', s'.heap[i], late + Lost(s, e)) {
      assert s'.heap[i] in s.heap;
      var j :| 0 <= j < |s.heap| && s.heap[j] == s'.heap[i];
      assert InTime(s, s.heap[j], late);
    }
  }

  lemma RootIsWithin(s: State, slack: nat)
    requires RootWithin(s, slack)
    ensures forall i :: 0 <= i < |s.heap| ==> Deadline(s, s.heap[0]) <= Deadline(s, s.heap[i]) + slack
  {
  }

  lemma WakeTakesRoot(s: State, e: Event)
    requires e.Wake? && Possible(s, e) && s.reason == ExecuteTask
    ensures var s' := Step(s, e);
            && s'.accepted == s.accepted && s'.now == s.now + Lost(s, e) && s'.watcher == Running
            && Horizon(s') == s'.now + s'.delay * MS
            && forall i :: 0 <= i < |s'.heap| ==> s'.heap[i] in s.heap
  {
    var s' := Step(s, e);
    if s.heap != [] {
      PopKeeps(s.heap, s.accepted, e.clock);
    }
    hide Pop, Possible;
    assert s'.heap == if s.heap == [] then [] else Pop(s.heap, s.accepted, e.clock);
    hide Step;
    forall i | 0 <= i < |s'.heap| ensures s'.heap[i] in s.heap {
      assert s'.heap[i] in multiset(s'.heap);
      assert s'.heap[i] in multiset(s.heap);
    }
  }

  lemma StepIsInTime(s: State, e: Event, slack: nat, grain: nat, lost: nat)
    requires Inv(s) && Timed(s) && Fresh(s, lost) && Conserved(s) && Heeded(s, e)
    requires e.Schedule? ==> s.now + e.lag + (e.delay + 1) * MS <= MAX - HOUR
    requires RootWithin(Step(s, e), slack) && Rounds(s, e, Step(s, e), grain)
    requires WillBeInTime(s, grain + slack + lost)
    ensures WillBeInTime(Step(s, e), grain + slack + lost + Lost(s, e))
  {
    var s', late := Step(s, e), grain + slack + lost;
    hide RootWithin, Rounds, Conserved, DueBy, Between, Push, Pop, WillBeInTime, Heeded;
    if !Possible(s, e) {
      SameIsInTime(s, s', late, Lost(s, e));
    } else {
      match e {
        case Tick(ns) => TickIsInTime(s, ns, lost, late);
        case Schedule(delay, clock, lag) => ScheduleIsInTime(s, delay, clock, lag, lost, late);
        case BeginWait => SameIsInTime(s, s', late, 0);
        case Wake(clock, before, lag) =>
          if s.reason == ExecuteTask {
            WakeIsInTime(s, e, slack, grain, late);
          } else {
            SameIsInTime(s, s', late, Lost(s, e));
          }
      }
    }
  }

  lemma SameIsInTime(s: State, s': State, late: nat, more: nat)
    requires WillBeInTime(s, late)
    requires s'.heap == s.heap && s'.accepted == s.accepted && s'.now == s.now && Horizon(s') <= Horizon(s)
    ensures WillBeInTime(s', late + more)
  {
    forall i | 0 <= i < |s'.heap| && s'.heap[i] < |s'.accepted| ensures InTime(s', s'.heap[i], late + more) {
      assert InTime(s, s.heap[i], late);
    }
  }

  lemma TickIsInTime(s: State, ns: nat, lost: nat, late: nat)
    requires WillBeInTime(s, late) && Fresh(s, lost)
    ensures WillBeInTime(s.(now := s.now + ns), late + Lost(s, Tick(ns)))
  {
    var s' := s.(now := s.now + ns);
    forall i | 0 <= i < |s'.heap| && s'.heap[i] < |s'.accepted|
      ensures InTime(s', s'.heap[i], late + Lost(s, Tick(ns)))
    {
      assert InTime(s, s.heap[i], late);
    }
  }

  lemma StepWasInTime(s: State, e: Event, late: nat, more: nat)
    requires Conserved(s) && WasInTime(s, late) && WillBeInTime(s, late)
    ensures WasInTime(Step(s, e), late + more)
  {
    hide Push, Pop, Between;
    var s' := Step(s, e);
    HeapIsKnown(s);
    if |s'.handed| > |s.handed| {
      assert InTime(s, s.heap[0], late);
    }
  }

  /** No wait in the run goes on for more than `grain` longer than to the next deadline, whatever that takes. */
  ghost predicate RoundsAll(start: int, es: Events, grain: nat) {
    match es
    case Start => true
    case Then(before, e) =>
      RoundsAll(start, before, grain) && Rounds(Run(start, before), e, Run(start, es), grain)
  }

  lemma {:induction false} RunIsFresh(start: int, es: Events)
    requires Bounded(start, es) && AllHeeded(start, es)
    ensures Fresh(Run(start, es), LostTime(start, es))
  {
    hide Inv, Step, Fresh, Heeded, Lost;
    match es {
      case Start => assert Fresh(Initial(start), 0) by { InitialIsFresh(start); }
      case Then(before, e) =>
        RunIsFresh(start, before);
        RunKeepsInv(start, before);
        StepIsFresh(Run(start, before), e, LostTime(start, before));
    }
  }

  lemma InitialIsFresh(start: int)
    ensures Fresh(Initial(start), 0)
  {
  }

  /**
   * In every run with bounded delays in which every new delay is heeded: what is pending will be, and
   * what was handed over has been, late at most by the rounding of a wait, by what the root of the heap
   * is out of order, and by the time lost.
   */
  lemma {:induction false} RunIsInTime(start: int, es: Events, slack: nat, grain: nat)
    requires Bounded(start, es) && AllHeeded(start, es) && Within(start, es, slack) && RoundsAll(start, es, grain)
    ensures WillBeInTime(Run(start, es), grain + slack + LostTime(start, es))
    ensures WasInTime(Run(start, es), grain + slack + LostTime(start, es))
  {
    hide *;
    match es {
      case Start => NothingIsLate(start, grain + slack);
      case Then(before, e) =>
        OneMoreInTime(start, before, e, slack, grain);
        OneMoreEvent(start, before, e);
        RunIsInTime(start, before, slack, grain);
        RunKeepsInv(start, before);
        RunConserves(start, before);
        RunIsTimed(start, before);
        RunIsFresh(start, before);
        var s, lost := Run(start, before), LostTime(start, before);
        StepIsInTime(s, e, slack, grain, lost);
        StepWasInTime(s, e, grain + slack + lost, Lost(s, e));
    }
  }

  lemma NothingIsLate(start: int, late: nat)
    ensures WillBeInTime(Run(start, Start), late + LostTime(start, Start))
    ensures WasInTime(Run(start, Start), late + LostTime(start, Start))
  {
  }

  /** What is known of a run with one more event. */
  lemma OneMoreInTime(start: int, before: Events, e: Event, slack: nat, grain: nat)
    requires Bounded(start, Then(before, e)) && AllHeeded(start, Then(before, e))
    requires Within(start, Then(before, e), slack) && RoundsAll(start, Then(before, e), grain)
    ensures Bounded(start, before) && AllHeeded(start, before) && Within(start, before, slack)
    ensures RoundsAll(start, before, grain) && Heeded(Run(start, before), e)
    ensures e.Schedule? ==> Run(start, before).now + e.lag + (e.delay + 1) * MS <= MAX - HOUR
    ensures RootWithin(Run(start, Then(before, e)), slack)
    ensures Rounds(Run(start, before), e, Run(start, Then(before, e)), grain)
    ensures LostTime(start, Then(before, e)) == LostTime(start, before) + Lost(Run(start, before), e)
  {
    hide Step, Possible, Heeded, RootWithin, Rounds, Lost;
  }

  lemma {:induction false} RoundsUp(start: int, es: Events)
    ensures RoundsAll(start, es, MS - 1)
  {
    match es {
      case Start =>
      case Then(before, e) =>
        RoundsUp(start, before);
        hide Run, Step, Possible, Horizon, Deadline;
        if Possible(Run(start, before), e) && e.Wake? && Run(start, before).reason == ExecuteTask {
          NextWaitIsExact(start, before, e);
        }
    }
  }

  lemma {:induction false} WholeRoundsNothing(start: int, es: Events)
    requires WholeRun(start, es)
    ensures RoundsAll(start, es, 0)
  {
    match es {
      case Start =>
      case Then(before, e) =>
        WholeRoundsNothing(start, before);
        hide Run, Step, Possible, Horizon, Deadline;
        if && Possible(Run(start, before), e) && e.Wake? && Run(start, before).reason == ExecuteTask
           && Run(start, es).heap != [] {
          NextWaitIsWhole(start, before, e);
        }
    }
  }

  // ----- Never late ---------------------------------------------------------------------------

  /**
   * So an action is handed over less than a millisecond after it should be, but for the time lost and
   * for what the root of the heap is out of order.
   */
  lemma LateAtMost(start: int, es: Events, slack: nat, i: nat)
    requires Bounded(start, es) && AllHeeded(start, es) && Within(start, es, slack) && i < |Run(start, es).handed|
    ensures var s := Run(start, es);
            && s.handed[i].id < |s.accepted|
            && s.handed[i].at <= Proper(s.accepted[s.handed[i].id]) + (MS - 1) + slack + LostTime(start, es)
  {
    hide Run, Bounded, AllHeeded, Within, RoundsAll, Conserved, Proper;
    RoundsUp(start, es);
    RunIsInTime(start, es, slack, MS - 1);
    RunConserves(start, es);
    HandedIsKnown(Run(start, es), i);
  }

  /** Nor is anything pending that should have been handed over longer ago. */
  lemma NothingIsOverdue(start: int, es: Events, slack: nat, id: nat)
    requires Bounded(start, es) && AllHeeded(start, es) && Within(start, es, slack) && id in Run(start, es).heap
    ensures var s := Run(start, es);
            id < |s.accepted| && s.now <= Proper(s.accepted[id]) + (MS - 1) + slack + LostTime(start, es)
  {
    hide Run, Bounded, AllHeeded, Within, RoundsAll, Conserved, Proper;
    RoundsUp(start, es);
    RunIsInTime(start, es, slack, MS - 1);
    RunConserves(start, es);
    var s := Run(start, es);
    HeapIsKnown(s);
    var i :| 0 <= i < |s.heap| && s.heap[i] == id;
    assert InTime(s, s.heap[i], MS - 1 + slack + LostTime(start, es));
  }

  lemma HandedIsKnown(s: State, i: nat)
    requires Conserved(s) && i < |s.handed|
    ensures s.handed[i].id < |s.accepted|
  {
  }

  /** On a clock of whole milliseconds the root is in order. */
  lemma {:induction false} WholeWithin(start: int, es: Events)
    requires WholeRun(start, es) && SteadyRun(es, MS)
    ensures Within(start, es, 0)
  {
    WholeRootLeads(start, es);
    if es.Start? {
    } else {
      hide RootWithin;
      WholeWithin(start, es.before);
    }
  }

  lemma WholeRootLeads(start: int, es: Events)
    requires WholeRun(start, es) && SteadyRun(es, MS)
    ensures RootWithin(Run(start, es), 0)
  {
    WholeRunIsWhole(start, es);
    RunConserves(start, es);
    hide Run, WholeRun, SteadyRun, Conserved, Ordered;
    var s := Run(start, es);
    HeapIsKnown(s);
    if s.heap != [] {
      var root := s.accepted[s.heap[0]];
      forall k | 0 <= k < |s.accepted| ensures IsClear(s.accepted[k], root.Deadline(), MS) {
        WholeIsClear(s.accepted[k], root);
      }
      forall i | 0 <= i < |s.heap| ensures Deadline(s, s.heap[0]) <= Deadline(s, s.heap[i]) {
        PopsEarliest(start, es, MS, i);
      }
    }
  }

  /**
   * On a clock of whole milliseconds every action is handed over when its delay is over, and if no
   * time is lost exactly then.
   */
  lemma ExactlyOnTime(start: int, es: Events, i: nat)
    requires WholeRun(start, es) && Bounded(start, es) && AllHeeded(start, es) && SteadyRun(es, MS)
    requires i < |Run(start, es).handed|
    ensures var s := Run(start, es);
            && s.handed[i].id < |s.accepted|
            && var due := s.accepted[s.handed[i].id].Deadline();
               && s.handed[i].at >= due
               && (s.accepted[s.handed[i].id].delay >= 0 ==> s.handed[i].at <= due + LostTime(start, es))
  {
    hide Run, Bounded, AllHeeded, Within, RoundsAll, Conserved, WholeRun, SteadyRun;
    WholeRoundsNothing(start, es);
    WholeWithin(start, es);
    RunIsInTime(start, es, 0, 0);
    NeverEarlyOnWholeClock(start, es, i);
  }

  // ----- Late by the whole delay --------------------------------------------------------------

  /** The first action, scheduled before the watcher waits. */
  function BeforeWait(delay: nat): State {
    State(0, [Entry(0, delay)], [0], delay, 0, UpdateDelay, Running, [], 0)
  }

  lemma FirstBeforeWait(delay: nat) returns (es: Events)
    requires (delay + 1) * MS <= MAX - HOUR
    ensures Reaches(0, es, BeforeWait(delay), 0, true) && LostTime(0, es) == 0
  {
    var s := Initial(0);
    es := Start;
    FirstIsShorter(0, 0, delay);
    InstantClock(0, 0, 0, 0);
    FirstGoesToTheRoot(Entry(0, delay), At(0));
    assert s.accepted + [Entry(0, delay)] == [Entry(0, delay)] && Whole(0);
    assert Reaches(0, es, s, 0, true) && LostTime(0, es) == 0;
    hide LostTime, Reaches, Push, TimeLeft, Between, SteadyClock, WholeClock, At, MaxWaitTime, Whole;
    es := AfterSchedule(0, es, s, 0, true, delay, At(0), 0, [0], TimeLeft(s.delay, 0, 0));
  }

  /** A wait that ends on time. */
  lemma AfterWait(es: Events, s: State, ns: nat) returns (es': Events)
    requires Reaches(0, es, s, 0, true) && s.watcher == Running && s.delay * MS == ns && Whole(ns)
    ensures Reaches(0, es', s.(watcher := Waiting(s.now + ns), began := s.now, now := s.now + ns), 0, true)
    ensures LostTime(0, es') == LostTime(0, es)
  {
    hide LostTime, Reaches, Whole;
    es' := AfterBegin(0, es, s, 0, true);
    es' := AfterTick(0, es', s.(watcher := Waiting(s.now + ns), began := s.now), 0, true, ns);
  }

  /**
   * A call that comes between two waits: nobody is notified, the next wait is for the new delay, and at
   * its end the watcher only takes note of it and waits again. So the action is handed over after twice
   * its delay, here on a clock of whole milliseconds and with nothing taking time.
   */
  lemma DelayedTwice(delay: nat) returns (es: Events)
    requires (delay + 1) * MS <= MAX - HOUR
    ensures WholeRun(0, es) && SteadyRun(es, 0) && Bounded(0, es) && LostTime(0, es) == 0
    ensures Run(0, es).accepted == [Entry(0, delay)] && Run(0, es).handed == [Handed(0, 2 * (delay * MS))]
  {
    var s, ns := BeforeWait(delay), delay * MS;
    WholeDelay(delay);
    hide LostTime, Reaches, Run, Whole, Bounded, SteadyRun, WholeRun, At;
    es := FirstBeforeWait(delay);
    es := AfterWait(es, s, ns);
    es := AfterUpdate(0, es, s.(watcher := Waiting(ns), now := ns), 0, true);
    s := s.(now := ns, updated := ns, reason := ExecuteTask);
    es := AfterWait(es, s, ns);
    s := s.(watcher := Waiting(ns + ns), began := ns, now := ns + ns);
    es := AfterTake(0, es, s, 0, true);
    ReachesAll(es, 0);
  }

  lemma WholeDelay(delay: nat)
    ensures Whole(delay * MS) && Whole(delay * MS + delay * MS)
  {
    assert delay * MS + delay * MS == 2 * delay * MS;
  }

  lemma ReachesAll(es: Events, width: nat)
    ensures Reaches(0, es, Run(0, es), width, true) ==>
              WholeRun(0, es) && SteadyRun(es, width) && Bounded(0, es)
  {
  }
}
