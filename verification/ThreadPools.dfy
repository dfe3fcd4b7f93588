/**
 * The worker pool: any number of workers share one queue, guarded by a mutex, and sleep on one
 * condition variable. A region executed under the mutex is one step, so every interleaving of the
 * workers, of submissions and of shutdown is a schedule.
 */
module ThreadPools {
  datatype Action = Action(id: nat)

  /** A worker's number. */
  type Wid = nat

  /** What a worker does next. */
  datatype Pc =
    | Testing                              // the outer loop's condition
    | Checking                             // in the wait, holding the mutex, before the predicate
    | Asleep                               // in the wait, the mutex released
    | Leaving                              // whether to return after the wait
    | Taking                               // try_lock and, if it locks, the pop
    | Performing(action: Action, turn: nat)
    | Exited

  /** An entry of the history: the worker that took the action, and whether it has performed it. */
  datatype Taken = Taken(action: Action, worker: Wid, performed: bool)

  datatype Shared = Shared(queue: seq<Action>, done: bool, submitted: seq<Action>, taken: seq<Taken>)

  datatype Pool = Pool(shared: Shared, workers: seq<Pc>)

  datatype Event =
    | Submit(action: Action, choice: Wid)  // doExecute; choice is the sleeper notify_one picks
    | Go(worker: Wid, locked: bool)        // a worker's next step; locked is what try_lock returns
    | Spurious(worker: Wid)                // a wake-up that nobody asked for
    | Terminate                            // doTerminate: sets m_done and wakes nobody
    | Shutdown                             // the destructor: sets m_done and wakes everybody

  datatype Schedule = Start | Then(before: Schedule, event: Event)

  function Initial(workers: nat): Pool {
    Pool(Shared([], false, [], []), seq(workers, _ => Testing))
  }

  /** A step of worker `w`, which is at `pc`. */
  function Local(s: Shared, w: Wid, pc: Pc, locked: bool): (Shared, Pc) {
    match pc
    case Testing => (s, if s.done then Exited else Checking)
    case Checking => (s, if s.queue != [] || s.done then Leaving else Asleep)
    case Leaving => (s, if s.done then Exited else Taking)
    case Taking =>
      if !locked then (s, Taking)
      else if s.queue == [] then (s, Testing)
      else (s.(queue := s.queue[1..], taken := s.taken + [Taken(s.queue[0], w, false)]),
            Performing(s.queue[0], |s.taken|))
    case Performing(action, turn) =>
      (if turn < |s.taken| then s.(taken := s.taken[turn := s.taken[turn].(performed := true)]) else s, Taking)
    case _ => (s, pc)
  }

  predicate SomeAsleep(workers: seq<Pc>) {
    exists w :: 0 <= w < |workers| && workers[w] == Asleep
  }

  /** The sleeper that `notify_one` wakes: any of them, according to `choice`. */
  function Chosen(workers: seq<Pc>, choice: Wid): (w: Wid)
    requires SomeAsleep(workers)
    ensures w < |workers| && workers[w] == Asleep
    ensures choice < |workers| && workers[choice] == Asleep ==> w == choice
  {
    if choice < |workers| && workers[choice] == Asleep then choice else FirstAsleep(workers)
  }

  function FirstAsleep(workers: seq<Pc>): (w: Wid)
    requires SomeAsleep(workers)
    ensures w < |workers| && workers[w] == Asleep
  {
    if workers[0] == Asleep then 0
    else
      assert SomeAsleep(workers[1..]) by {
        var w :| 0 <= w < |workers| && workers[w] == Asleep;
        assert workers[1..][w - 1] == Asleep;
      }
      1 + FirstAsleep(workers[1..])
  }

  function NotifyOne(workers: seq<Pc>, choice: Wid): seq<Pc> {
    if SomeAsleep(workers) then workers[Chosen(workers, choice) := Checking] else workers
  }

  function NotifyAll(workers: seq<Pc>): seq<Pc> {
    seq(|workers|, w requires 0 <= w < |workers| => if workers[w] == Asleep then Checking else workers[w])
  }

  function Step(p: Pool, e: Event): Pool {
    match e
    case Submit(action, choice) =>
      Pool(p.shared.(queue := p.shared.queue + [action], submitted := p.shared.submitted + [action]),
           NotifyOne(p.workers, choice))
    case Go(w, locked) =>
      if w < |p.workers| then
        var (s, pc) := Local(p.shared, w, p.workers[w], locked);
        Pool(s, p.workers[w := pc])
      else p
    case Spurious(w) =>
      if w < |p.workers| && p.workers[w] == Asleep then p.(workers := p.workers[w := Checking]) else p
    case Terminate => p.(shared := p.shared.(done := true))
    case Shutdown => Pool(p.shared.(done := true), NotifyAll(p.workers))
  }

  function Run(p: Pool, es: Schedule): Pool {
    match es
    case Start => p
    case Then(before, e) => Step(Run(p, before), e)
  }

  // ----- Conservation and order ---------------------------------------------------------------

  function Actions(taken: seq<Taken>): (actions: seq<Action>)
    ensures |actions| == |taken|
  {
    seq(|taken|, i requires 0 <= i < |taken| => taken[i].action)
  }

  predicate Held(p: Pool, turn: nat)
    requires turn < |p.shared.taken|
  {
    var t := p.shared.taken[turn];
    t.worker < |p.workers| && p.workers[t.worker] == Performing(t.action, turn)
  }

  /**
   * What was submitted is what was taken, in the order of submission, followed by what is queued.
   * A taken action is either performed or held by the one worker that took it, and a worker holds
   * nothing else.
   */
  ghost predicate Conserved(p: Pool) {
    && p.shared.submitted == Actions(p.shared.taken) + p.shared.queue
    && (forall i :: 0 <= i < |p.shared.taken| ==> (Held(p, i) <==> !p.shared.taken[i].performed))
    && (forall w :: 0 <= w < |p.workers| && p.workers[w].Performing? ==>
          && p.workers[w].turn < |p.shared.taken|
          && p.shared.taken[p.workers[w].turn] == Taken(p.workers[w].action, w, false))
  }

  lemma StepConserves(p: Pool, e: Event)
    requires Conserved(p)
    ensures Conserved(Step(p, e))
  {
    match e {
      case Go(w, locked) =>
        if w < |p.workers| {
          WorkerConserves(p, w, locked);
        }
      case _ =>
        var p' := Step(p, e);
        assert |p'.workers| == |p.workers|;
        assert forall w :: 0 <= w < |p.workers| && (p.workers[w].Performing? || p'.workers[w].Performing?) ==>
            p'.workers[w] == p.workers[w];
        assert forall i :: 0 <= i < |p.shared.taken| ==> Held(p', i) == Held(p, i);
    }
  }

  lemma WorkerConserves(p: Pool, w: Wid, locked: bool)
    requires Conserved(p) && w < |p.workers|
    ensures Conserved(Step(p, Go(w, locked)))
  {
    if p.workers[w].Taking? && locked && p.shared.queue != [] {
      TakeConserves(p, w);
    } else if p.workers[w].Performing? {
      PerformConserves(p, w);
    } else {
      var (s, pc) := Local(p.shared, w, p.workers[w], locked);
      assert s == p.shared && !pc.Performing?;
      hide Local;
      assert forall i :: 0 <= i < |s.taken| ==> Held(Pool(s, p.workers[w := pc]), i) == Held(p, i);
    }
  }

  lemma TakeConserves(p: Pool, w: Wid)
    requires Conserved(p) && w < |p.workers| && p.workers[w].Taking? && p.shared.queue != []
    ensures Conserved(Step(p, Go(w, true)))
  {
    var s, n := p.shared, |p.shared.taken|;
    var taken := s.taken + [Taken(s.queue[0], w, false)];
    var p' := Pool(Shared(s.queue[1..], s.done, s.submitted, taken), p.workers[w := Performing(s.queue[0], n)]);
    assert p' == Step(p, Go(w, true));
    hide Step, Local;
    assert Actions(taken) == Actions(s.taken) + [s.queue[0]];
    assert s.queue == [s.queue[0]] + s.queue[1..];
    forall i | 0 <= i < n + 1 ensures Held(p', i) <==> !taken[i].performed {
      if i < n {
        assert Held(p, i) <==> !s.taken[i].performed;
      }
    }
  }

  lemma PerformConserves(p: Pool, w: Wid)
    requires Conserved(p) && w < |p.workers| && p.workers[w].Performing?
    ensures Conserved(Step(p, Go(w, true)))
  {
    var s, turn := p.shared, p.workers[w].turn;
    var taken := s.taken[turn := s.taken[turn].(performed := true)];
    var p' := Pool(s.(taken := taken), p.workers[w := Taking]);
    assert p' == Step(p, Go(w, true));
    hide Step, Local;
    assert Actions(taken) == Actions(s.taken);
    forall i | 0 <= i < |taken| ensures Held(p', i) <==> !taken[i].performed {
      assert Held(p, i) <==> !s.taken[i].performed;
    }
  }

  lemma {:induction false} RunConserves(p: Pool, es: Schedule)
    requires Conserved(p)
    ensures Conserved(Run(p, es))
  {
    hide Conserved, Step;
    match es {
      case Start =>
      case Then(before, e) => RunConserves(p, before); StepConserves(Run(p, before), e);
    }
  }

  lemma PoolConserves(workers: nat, es: Schedule)
    ensures Conserved(Run(Initial(workers), es))
  {
    RunConserves(Initial(workers), es);
  }

  /** The actions given to `doExecute`. */
  function Given(es: Schedule): seq<Action> {
    match es
    case Start => []
    case Then(before, Submit(action, _)) => Given(before) + [action]
    case Then(before, _) => Given(before)
  }

  /** What was submitted, and so what was taken followed by what is queued, is what `doExecute` was given, in order. */
  lemma {:induction false} SubmittedIsGiven(workers: nat, es: Schedule)
    ensures var s := Run(Initial(workers), es).shared;
            s.submitted == Given(es) && Actions(s.taken) + s.queue == Given(es)
  {
    PoolConserves(workers, es);
    match es {
      case Start =>
      case Then(before, e) =>
        SubmittedIsGiven(workers, before);
        hide Run, Conserved, Local, NotifyOne, NotifyAll;
        OneMoreStep(Initial(workers), before, e);
        StepSubmits(Run(Initial(workers), before), e);
        hide Step;
    }
  }

  lemma StepSubmits(p: Pool, e: Event)
    ensures Step(p, e).shared.submitted == p.shared.submitted + if e.Submit? then [e.action] else []
  {
  }

  // ----- No wake-up is lost -------------------------------------------------------------------

  predicate Awake(pc: Pc) {
    !pc.Asleep? && !pc.Exited?
  }

  ghost predicate Attended(p: Pool) {
    && (!p.shared.done ==> forall w :: 0 <= w < |p.workers| ==> !p.workers[w].Exited?)
    && (!p.shared.done && |p.workers| > 0 && p.shared.queue != [] ==>
          exists w :: 0 <= w < |p.workers| && Awake(p.workers[w]))
  }

  lemma StepAttends(p: Pool, e: Event)
    requires Attended(p)
    ensures Attended(Step(p, e))
  {
    var p' := Step(p, e);
    if !p.shared.done && |p.workers| > 0 {
      match e {
        case Submit(_, choice) =>
          if SomeAsleep(p.workers) {
            assert Awake(p'.workers[Chosen(p.workers, choice)]);
          } else {
            assert Awake(p'.workers[0]);
          }
        case Go(w, locked) =>
          if w < |p.workers| && p'.shared.queue != [] {
            var v :| 0 <= v < |p.workers| && Awake(p.workers[v]);
            assert Awake(p'.workers[v]);
          }
        case Spurious(w) =>
          if w < |p.workers| && p.workers[w] == Asleep {
            assert Awake(p'.workers[w]);
          }
        case _ =>
      }
    }
  }

  lemma {:induction false} RunAttends(workers: nat, es: Schedule)
    ensures Attended(Run(Initial(workers), es))
    ensures |Run(Initial(workers), es).workers| == workers
  {
    hide Attended, Step;
    match es {
      case Start =>
        InitialAttended(workers);
      case Then(before, e) =>
        RunAttends(workers, before);
        StepAttends(Run(Initial(workers), before), e);
        StepKeepsWorkers(Run(Initial(workers), before), e);
    }
  }

  lemma InitialAttended(workers: nat)
    ensures Attended(Initial(workers))
  {
  }

  lemma StepKeepsWorkers(p: Pool, e: Event)
    ensures |Step(p, e).workers| == |p.workers|
  {
  }

  /** `k` steps of one worker, which gets the mutex each time it tries. */
  function Alone(w: Wid, k: nat): Schedule {
    if k == 0 then Start else Then(Alone(w, k - 1), Go(w, true))
  }

  /**
   * After any schedule: if something is queued and the pool is not done, some worker is awake that,
   * given the processor, takes the head of the queue within four steps of its own. No submission
   * goes unnoticed.
   */
  lemma NoLostWakeup(workers: nat, es: Schedule) returns (w: Wid, k: nat)
    requires workers > 0
    requires !Run(Initial(workers), es).shared.done && Run(Initial(workers), es).shared.queue != []
    ensures var p := Run(Initial(workers), es);
            && k <= 4 && w < |p.workers| && Awake(p.workers[w])
            && w < |Run(p, Alone(w, k)).workers|
            && Run(p, Alone(w, k)).shared.queue == p.shared.queue[1..]
            && Run(p, Alone(w, k)).workers[w].Performing?
            && Run(p, Alone(w, k)).workers[w].action == p.shared.queue[0]
  {
    var p := Run(Initial(workers), es);
    assert Attended(p) && |p.workers| == workers by {
      hide *;
      RunAttends(workers, es);
    }
    w :| 0 <= w < |p.workers| && Awake(p.workers[w]);
    k := AwakeTakesHead(p, w);
  }

  function Distance(pc: Pc): nat {
    match pc
    case Testing => 4
    case Checking => 3
    case Leaving => 2
    case Performing(_, _) => 2
    case _ => 1
  }

  lemma AwakeTakesHead(p: Pool, w: Wid) returns (k: nat)
    requires w < |p.workers| && Awake(p.workers[w]) && !p.shared.done && p.shared.queue != []
    ensures k == Distance(p.workers[w])
    ensures Run(p, Alone(w, k)).shared.queue == p.shared.queue[1..]
    ensures |Run(p, Alone(w, k)).workers| == |p.workers|
    ensures Run(p, Alone(w, k)).workers[w].Performing?
    ensures Run(p, Alone(w, k)).workers[w].action == p.shared.queue[0]
    decreases Distance(p.workers[w])
  {
    k := Distance(p.workers[w]);
    var p' := Step(p, Go(w, true));
    if k == 1 {
      assert Alone(w, 1) == Then(Alone(w, 0), Go(w, true));
    } else {
      var k' := AwakeTakesHead(p', w);
      hide Step;
      StepsAlone(p, w, k');
    }
  }

  lemma OneMoreAlone(p: Pool, w: Wid, k: nat)
    ensures Run(p, Alone(w, 0)) == p
    ensures Run(p, Alone(w, k + 1)) == Step(Run(p, Alone(w, k)), Go(w, true))
  {
    hide Step;
  }

  lemma {:induction false} StepsAlone(p: Pool, w: Wid, k: nat)
    ensures Run(p, Alone(w, k + 1)) == Run(Step(p, Go(w, true)), Alone(w, k))
  {
    hide Step;
    if k == 0 {
      assert Alone(w, 1) == Then(Alone(w, 0), Go(w, true));
    } else {
      StepsAlone(p, w, k - 1);
    }
  }

  /** How many steps an awake worker is from falling asleep. */
  function DistanceToSleep(pc: Pc): nat {
    match pc
    case Checking => 1
    case Testing => 2
    case Taking => 3
    case _ => 4
  }

  /** With nothing queued, and unless the pool is done, an awake worker falls asleep within four steps of its own. */
  lemma AwakeFallsAsleep(p: Pool, w: Wid) returns (k: nat)
    requires w < |p.workers| && Awake(p.workers[w]) && !p.shared.done && p.shared.queue == []
    ensures k == DistanceToSleep(p.workers[w]) <= 4
    ensures |Run(p, Alone(w, k)).workers| == |p.workers| && Run(p, Alone(w, k)).workers[w] == Asleep
    ensures Run(p, Alone(w, k)).shared.queue == [] && !Run(p, Alone(w, k)).shared.done
    decreases DistanceToSleep(p.workers[w])
  {
    k := DistanceToSleep(p.workers[w]);
    var p' := Step(p, Go(w, true));
    if k == 1 {
      assert Alone(w, 1) == Then(Alone(w, 0), Go(w, true));
    } else {
      var k' := AwakeFallsAsleep(p', w);
      hide Step;
      StepsAlone(p, w, k');
    }
  }

  /** When every worker sleeps, everything submitted so far has been performed, in the sense of its history. */
  lemma AsleepMeansFinished(workers: nat, es: Schedule)
    requires workers > 0
    requires forall pc :: pc in Run(Initial(workers), es).workers ==> pc == Asleep
    requires !Run(Initial(workers), es).shared.done
    ensures var s := Run(Initial(workers), es).shared;
            && s.queue == [] && Actions(s.taken) == s.submitted
            && forall i :: 0 <= i < |s.taken| ==> s.taken[i].performed
  {
    hide Run;
    PoolConserves(workers, es);
    RunAttends(workers, es);
    var p := Run(Initial(workers), es);
    forall w | 0 <= w < |p.workers| ensures p.workers[w] == Asleep {
      assert p.workers[w] in p.workers;
    }
    forall i | 0 <= i < |p.shared.taken| ensures p.shared.taken[i].performed {
      assert !Held(p, i);
    }
  }

  // ----- Shutdown -----------------------------------------------------------------------------

  /** The worker will look at the queue again before it can leave. */
  predicate Busy(pc: Pc) {
    pc.Taking? || pc.Performing?
  }

  predicate SomeBusy(p: Pool) {
    exists w :: 0 <= w < |p.workers| && Busy(p.workers[w])
  }

  predicate AllExited(p: Pool) {
    forall w :: 0 <= w < |p.workers| ==> p.workers[w].Exited?
  }

  /** Nothing is submitted. */
  predicate Quiet(es: Schedule) {
    es.Then? ==> Quiet(es.before) && !es.event.Submit?
  }

  ghost predicate Winding(before: Pool, p: Pool) {
    && p.shared.done
    && |p.workers| == |before.workers|
    && (forall w :: 0 <= w < |p.workers| ==> p.workers[w] != Asleep)
    && (if SomeBusy(before) then p.shared.queue == [] || SomeBusy(p)
        else p.shared.queue == before.shared.queue && !SomeBusy(p))
  }

  lemma StepWinds(before: Pool, p: Pool, e: Event)
    requires Winding(before, p) && !e.Submit?
    ensures Winding(before, Step(p, e))
  {
    var p' := Step(p, e);
    match e {
      case Go(w, locked) =>
        if w < |p.workers| {
          assert !Busy(p.workers[w]) ==> !Busy(p'.workers[w]);
          if SomeBusy(p) {
            var v :| 0 <= v < |p.workers| && Busy(p.workers[v]);
            assert Busy(p'.workers[v]) || p'.shared.queue == [];
          }
        }
      case Submit(_, _) =>
      case _ =>
        assert forall w :: 0 <= w < |p.workers| ==> p'.workers[w] == p.workers[w];
        if SomeBusy(p) {
          var v :| 0 <= v < |p.workers| && Busy(p.workers[v]);
          assert Busy(p'.workers[v]);
        }
    }
  }

  lemma ShutdownWinds(p: Pool)
    ensures Winding(p, Step(p, Shutdown))
  {
    var p' := Step(p, Shutdown);
    if SomeBusy(p) {
      var v :| 0 <= v < |p.workers| && Busy(p.workers[v]);
      assert Busy(p'.workers[v]);
    }
  }

  lemma {:induction false} RunWinds(p: Pool, es: Schedule)
    requires Quiet(es)
    ensures Winding(p, Run(Step(p, Shutdown), es))
  {
    hide Winding, Step;
    match es {
      case Start => ShutdownWinds(p);
      case Then(before, e) => RunWinds(p, before); StepWinds(p, Run(Step(p, Shutdown), before), e);
    }
  }

  /** What is left of the queue when all workers have exited: nothing if at shutdown one was busy, else all of it. */
  lemma ShutdownLeaves(p: Pool, es: Schedule)
    requires Quiet(es) && AllExited(Run(Step(p, Shutdown), es))
    ensures Run(Step(p, Shutdown), es).shared.queue == if SomeBusy(p) then [] else p.shared.queue
  {
    hide Run, Step;
    RunWinds(p, es);
  }

  /** So submitted actions can be dropped: one worker, shut down before it first looks at the queue. */
  lemma ShutdownDropsAction(action: Action) returns (submitted: Schedule, es: Schedule)
    ensures Quiet(es)
    ensures var p := Run(Initial(1), submitted);
            && p.shared.submitted == [action]
            && AllExited(Run(Step(p, Shutdown), es)) && Run(Step(p, Shutdown), es).shared.queue == [action]
  {
    submitted, es := Then(Start, Submit(action, 0)), Then(Start, Go(0, true));
    var p := Pool(Shared([action], false, [action], []), [Testing]);
    assert Run(Initial(1), submitted) == p by { FirstSubmission(action); }
    assert NotifyAll([Testing]) == [Testing];
    var done := Pool(p.shared.(done := true), [Testing]);
    assert Step(p, Shutdown) == done;
    assert [Testing][0 := Exited] == [Exited];
    assert Run(done, es) == Step(done, Go(0, true)) == Pool(done.shared, [Exited]);
  }

  lemma FirstSubmission(action: Action)
    ensures Run(Initial(1), Then(Start, Submit(action, 0))) == Pool(Shared([action], false, [action], []), [Testing])
  {
    var p := Initial(1);
    assert p.workers == [Testing] && !SomeAsleep([Testing]);
    assert [] + [action] == [action];
    assert Step(p, Submit(action, 0)) == Pool(Shared([action], false, [action], []), [Testing]);
    assert Run(p, Start) == p;
  }

  /** How many steps the workers can still make once the pool is done. */
  function Remaining(p: Pool): nat {
    2 * |p.shared.queue| + Total(p.workers)
  }

  function Weight(pc: Pc): nat {
    match pc
    case Asleep => 3
    case Performing(_, _) => 3
    case Checking => 2
    case Taking => 2
    case Testing => 1
    case Leaving => 1
    case Exited => 0
  }

  function Total(workers: seq<Pc>): nat {
    if workers == [] then 0 else Weight(workers[0]) + Total(workers[1..])
  }

  lemma {:induction false} TotalUpdate(workers: seq<Pc>, w: Wid, pc: Pc)
    requires w < |workers|
    ensures Total(workers[w := pc]) == Total(workers) - Weight(workers[w]) + Weight(pc)
  {
    if w == 0 {
      assert workers[0 := pc][1..] == workers[1..];
    } else {
      TotalUpdate(workers[1..], w - 1, pc);
      assert workers[w := pc][1..] == workers[1..][w - 1 := pc];
    }
  }

  /** A worker that has not exited and is not asleep makes a step, and not just a failed `try_lock`. */
  predicate Counts(p: Pool, e: Event) {
    e.Go? && e.locked && e.worker < |p.workers| && Awake(p.workers[e.worker])
  }

  /** How often that happens. */
  function Steps(p: Pool, es: Schedule): nat {
    match es
    case Start => 0
    case Then(before, e) =>
      Steps(p, before) +
      if Counts(Run(p, before), e) then 1 else 0
  }

  lemma StepRemaining(p: Pool, e: Event)
    requires p.shared.done && !e.Submit?
    ensures Remaining(Step(p, e)) + (if Counts(p, e) then 1 else 0) <= Remaining(p)
  {
    match e {
      case Go(w, locked) =>
        if w < |p.workers| {
          TotalUpdate(p.workers, w, Local(p.shared, w, p.workers[w], locked).1);
        }
      case Spurious(w) =>
        if w < |p.workers| {
          TotalUpdate(p.workers, w, Checking);
        }
      case Shutdown => TotalOfNotified(p.workers);
      case _ =>
    }
  }

  lemma {:induction false} TotalOfNotified(workers: seq<Pc>)
    ensures Total(NotifyAll(workers)) <= Total(workers)
  {
    if workers == [] {
    } else {
      assert NotifyAll(workers)[1..] == NotifyAll(workers[1..]);
      TotalOfNotified(workers[1..]);
    }
  }

  /**
   * The destructor's joins return: after shutdown, with nothing more submitted, no worker sleeps
   * and the workers make at most `Remaining` steps between them before all have exited.
   */
  lemma {:induction false} ShutdownTerminates(p: Pool, es: Schedule)
    requires Quiet(es)
    ensures var p1 := Step(p, Shutdown);
            && Steps(p1, es) + Remaining(Run(p1, es)) <= Remaining(p1)
            && forall w :: 0 <= w < |Run(p1, es).workers| ==> Run(p1, es).workers[w] != Asleep
  {
    hide Step, Remaining;
    var p1 := Step(p, Shutdown);
    RunWinds(p, es);
    match es {
      case Start =>
      case Then(before, e) =>
        ShutdownTerminates(p, before);
        RunWinds(p, before);
        StepRemaining(Run(p1, before), e);
    }
  }

  /** After `doTerminate`, no worker goes to sleep, and those that are awake make a bounded number of steps. */
  lemma {:induction false} TerminateStops(p: Pool, es: Schedule)
    requires Quiet(es)
    ensures var p1 := Step(p, Terminate);
            && Run(p1, es).shared.done
            && Steps(p1, es) + Remaining(Run(p1, es)) <= Remaining(p1)
            && |Run(p1, es).workers| == |p.workers|
            && forall w :: 0 <= w < |p.workers| && Run(p1, es).workers[w] == Asleep ==> p.workers[w] == Asleep
  {
    var p1 := Step(p, Terminate);
    match es {
      case Start =>
      case Then(before, e) =>
        TerminateStops(p, before);
        hide Run, Remaining;
        assert Run(p1, es) == Step(Run(p1, before), e) by { OneMoreStep(p1, before, e); }
        StepRemaining(Run(p1, before), e);
    }
  }

  lemma OneMoreStep(p: Pool, before: Schedule, e: Event)
    ensures Run(p, Then(before, e)) == Step(Run(p, before), e)
  {
  }

  /** `doTerminate` wakes nobody: a pool whose workers all sleep stays as it is until its destructor notifies them. */
  lemma {:induction false} TerminateWakesNobody(p: Pool, es: Schedule)
    requires forall w :: 0 <= w < |p.workers| ==> p.workers[w] == Asleep
    requires OnlyWorkers(es)
    ensures Run(Step(p, Terminate), es) == Step(p, Terminate)
  {
    if es.Start? {
    } else {
      TerminateWakesNobody(p, es.before);
    }
  }

  predicate OnlyWorkers(es: Schedule) {
    es.Then? ==> OnlyWorkers(es.before) && (es.event.Go? || es.event.Terminate?)
  }

  // ----- The object ---------------------------------------------------------------------------

  /** The executor. `pcs` is where its threads are; `submitted` and `taken` record history. */
  class ThreadPoolTaskExecutor {
    var actions: seq<Action>
    var done: bool
    var pcs: seq<Pc>
    var submitted: seq<Action>
    var taken: seq<Taken>

    ghost function View(): Pool
      reads this
    {
      Pool(Shared(actions, done, submitted, taken), pcs)
    }

    constructor (workerCount: nat)
      ensures View() == Initial(workerCount)
    {
      actions, done, pcs := [], false, seq(workerCount, _ => Testing);
      submitted, taken := [], [];
    }

    method DoExecute(action: Action, choice: Wid)
      modifies this
      ensures View() == Step(old(View()), Submit(action, choice))
      ensures actions == old(actions) + [action] && done == old(done)
      ensures SomeAsleep(old(pcs)) ==>
          exists w :: 0 <= w < |pcs| && old(pcs)[w] == Asleep && pcs == old(pcs)[w := Checking]
    {
      actions := actions + [action];
      submitted := submitted + [action];
      if SomeAsleep(pcs) {
        pcs := pcs[Chosen(pcs, choice) := Checking];
      }
    }

    /** The first statements of the destructor; the joins are the steps that follow. */
    method Shut()
      modifies this
      ensures View() == Step(old(View()), Shutdown)
    {
      done := true;
      var w := 0;
      while w < |pcs|
        invariant 0 <= w <= |pcs| == |old(pcs)|
        invariant forall v :: 0 <= v < |pcs| ==> pcs[v] == if v < w then NotifyAll(old(pcs))[v] else old(pcs)[v]
        invariant done && actions == old(actions) && submitted == old(submitted) && taken == old(taken)
      {
        if pcs[w] == Asleep {
          pcs := pcs[w := Checking];
        }
        w := w + 1;
      }
      assert pcs == NotifyAll(old(pcs));
    }

    /** One turn of the loop that empties the queue: the pop under the mutex. */
    method Take(w: Wid) returns (action: Action, any: bool)
      requires w < |pcs| && pcs[w] == Taking
      modifies this
      ensures View() == Step(old(View()), Go(w, true))
      ensures any == (old(actions) != [])
      ensures any ==> action == old(actions)[0] && actions == old(actions)[1..] && |taken| == |old(taken)| + 1
      ensures any ==> pcs == old(pcs)[w := Performing(action, |old(taken)|)]
      ensures !any ==> actions == []
    {
      any := actions != [];
      action := Action(0);
      if any {
        action := actions[0];
        pcs := pcs[w := Performing(action, |taken|)];
        taken := taken + [Taken(action, w, false)];
        actions := actions[1..];
      } else {
        pcs := pcs[w := Testing];
      }
    }

    method Perform(w: Wid)
      requires w < |pcs| && pcs[w].Performing? && pcs[w].turn < |taken|
      modifies this
      ensures View() == Step(old(View()), Go(w, true))
      ensures actions == old(actions) && pcs == old(pcs)[w := Taking]
    {
      taken := taken[pcs[w].turn := taken[pcs[w].turn].(performed := true)];
      pcs := pcs[w := Taking];
    }

    /** The inner loop of a worker that nobody disturbs: it performs the whole queue in order. */
    method Drain(w: Wid) returns (performed: seq<Action>)
      requires w < |pcs| && pcs[w] == Taking
      modifies this
      ensures performed == old(actions) && actions == []
      ensures View() == Run(old(View()), Alone(w, 2 * |old(actions)| + 1))
    {
      hide *;
      performed := [];
      ghost var before := View();
      ghost var queue := actions;
      OneMoreAlone(before, w, 0);
      while true
        invariant performed + actions == queue
        invariant w < |pcs| && pcs[w] == Taking
        invariant View() == Run(before, Alone(w, 2 * |performed|))
        decreases |actions|
      {
        OneMoreAlone(before, w, 2 * |performed|);
        OneMoreAlone(before, w, 2 * |performed| + 1);
        var action, any := Take(w);
        if !any {
          break;
        }
        Perform(w);
        performed := performed + [action];
      }
    }
  }
}
