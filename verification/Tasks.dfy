/**
 * A task: its status is changed by compare-and-swap, and any number of threads call `perform` and
 * `tryCancel` on it at the same time. `compare_exchange_weak` may fail although the status is the
 * expected one; each exchange takes that as a parameter.
 */
module Tasks {
  datatype Status = Created | InProgress | Completed | Cancelled

  datatype CancellationResult = Success | TaskAlreadyInProgress | TaskAlreadyCompleted

  datatype Promise = Unset | Value | Exception

  // ----- One compare-and-swap -----------------------------------------------------------------

  predicate Exchanges(status: Status, expected: Status, spurious: bool) {
    status == expected && !spurious
  }

  /** The status after `compare_exchange_weak(expected, desired)`. */
  function Exchanged(status: Status, expected: Status, desired: Status, spurious: bool): Status {
    if Exchanges(status, expected, spurious) then desired else status
  }

  /** What `tryCancel` reports: the status the exchange found decides, not whether it exchanged. */
  function CancelReport(status: Status): CancellationResult {
    match status
    case InProgress => TaskAlreadyInProgress
    case Completed => TaskAlreadyCompleted
    case _ => Success
  }

  /** `tryCancel` reports success for a task it did not cancel exactly when its exchange fails spuriously. */
  lemma FalseSuccess(status: Status, spurious: bool)
    ensures CancelReport(status) == Success && Exchanged(status, Created, Cancelled, spurious) != Cancelled
       <==> status == Created && spurious
  {
  }

  // ----- Threads ------------------------------------------------------------------------------

  type Tid = nat

  /** Where a thread is: outside, or before the named step of `perform` or `tryCancel`. */
  datatype Pc =
    | Idle
    | Checking            // perform: is the task cancelled?
    | Rejecting           // perform: set_exception for a cancelled task
    | Starting            // perform: trySetInProgress
    | Calling             // perform: the call of the function
    | Setting(ok: bool)   // perform: set_value, or set_exception if the function threw
    | Finishing           // perform: trySetCompleted, inside an assertion
    | Cancelling          // tryCancel: the exchange

  datatype Action =
    | BeginPerform
    | BeginCancel
    | Go(spurious: bool, throws: bool)

  datatype Event = Event(tid: Tid, action: Action)

  /**
   * The task. The counters record history: how often the function was started, how often
   * `tryCancel` reported success, how often `perform` found the task cancelled and went on to reject
   * it. `aborted` is the end of the program: a failed assertion, or an exception leaving the
   * `noexcept` `perform`.
   */
  datatype Shared = Shared(
    status: Status,
    promise: Promise,
    starts: nat,
    successes: nat,
    rejections: nat,
    aborted: bool)
  {
    /** Setting a promise twice throws, and nothing catches that. */
    function Set(p: Promise): Shared {
      if promise.Unset? then this.(promise := p) else this.(aborted := true)
    }
  }

  /** One step of a thread that is at `pc`: what becomes of the task, and where the thread is next. */
  function Local(s: Shared, pc: Pc, action: Action): (Shared, Pc) {
    if s.aborted then (s, pc)
    else match (pc, action)
      case (Idle, BeginPerform) => (s, Checking)
      case (Idle, BeginCancel) => (s, Cancelling)
      case (Checking, Go(_, _)) => (s, if s.status.Cancelled? then Rejecting else Starting)
      case (Rejecting, Go(_, _)) => (s.(rejections := s.rejections + 1).Set(Exception), Idle)
      case (Starting, Go(spurious, _)) =>
        (s.(status := Exchanged(s.status, Created, InProgress, spurious)),
         if Exchanges(s.status, Created, spurious) then Calling else Idle)
      case (Calling, Go(_, throws)) => (s.(starts := s.starts + 1), Setting(!throws))
      case (Setting(ok), Go(_, _)) => (s.Set(if ok then Value else Exception), Finishing)
      case (Finishing, Go(spurious, _)) =>
        (s.(status := Exchanged(s.status, InProgress, Completed, spurious),
            aborted := !Exchanges(s.status, InProgress, spurious)),
         Idle)
      case (Cancelling, Go(spurious, _)) =>
        (s.(status := Exchanged(s.status, Created, Cancelled, spurious),
            successes := s.successes + if CancelReport(s.status).Success? then 1 else 0),
         Idle)
      case _ => (s, pc)
  }

  /** The task and its threads; a thread not in the map is idle. */
  datatype State = State(task: Shared, threads: map<Tid, Pc>) {
    function Pc(t: Tid): Pc {
      if t in threads then threads[t] else Idle
    }
  }

  const NEW_TASK := Shared(Created, Unset, 0, 0, 0, false)

  const INITIAL := State(NEW_TASK, map[])

  function Step(s: State, e: Event): State {
    var (task, pc) := Local(s.task, s.Pc(e.tid), e.action);
    State(task, s.threads[e.tid := pc])
  }

  /** An interleaving: which thread does what, one event after the other. */
  datatype Schedule = Start | Then(before: Schedule, event: Event)

  function Run(es: Schedule): State {
    match es
    case Start => INITIAL
    case Then(before, e) => Step(Run(before), e)
  }

  /** No exchange fails spuriously, as with `compare_exchange_strong`. */
  predicate Strong(es: Schedule) {
    es.Then? ==> Strong(es.before) && (es.event.action.Go? ==> !es.event.action.spurious)
  }

  function Performs(es: Schedule): nat {
    match es
    case Start => 0
    case Then(before, e) => Performs(before) + if e.action.BeginPerform? then 1 else 0
  }

  // ----- Safety -------------------------------------------------------------------------------

  /** The thread has set the status to InProgress and not yet to Completed. */
  predicate Owns(pc: Pc) {
    pc.Calling? || pc.Setting? || pc.Finishing?
  }

  /** What holds of the task when a thread is at `pc`. */
  predicate Fits(s: Shared, pc: Pc) {
    && (Owns(pc) ==> s.status.InProgress?)
    && (pc.Calling? ==> s.starts == 0 && s.promise.Unset?)
    && (pc.Setting? ==> s.starts == 1 && s.promise.Unset?)
    && (pc.Finishing? ==> s.starts == 1 && !s.promise.Unset?)
    && (pc.Rejecting? ==> s.status.Cancelled?)
  }

  predicate Sound(s: Shared) {
    && (s.status.Created? ==> s.starts == 0 && s.promise.Unset? && s.rejections == 0)
    && (s.status.InProgress? ==> s.starts <= 1 && s.rejections == 0)
    && (s.status.Completed? ==> s.starts == 1 && !s.promise.Unset? && s.rejections == 0)
    && (s.status.Cancelled? ==> s.starts == 0 && (s.promise.Unset? <==> s.rejections == 0))
  }

  ghost predicate Inv(s: State) {
    && Sound(s.task)
    && (forall t :: Fits(s.task, s.Pc(t)))
    && (forall t, u :: Owns(s.Pc(t)) && Owns(s.Pc(u)) ==> t == u)
  }

  /** A step keeps what holds for the thread that takes it, and for a thread that owns nothing or is not disturbed. */
  lemma LocalKeeps(s: Shared, pc: Pc, action: Action, other: Pc)
    requires Sound(s) && Fits(s, pc) && Fits(s, other) && !(Owns(pc) && Owns(other))
    ensures var (s', pc') := Local(s, pc, action);
            && Sound(s') && Fits(s', pc') && Fits(s', other)
            && !(Owns(pc') && Owns(other))
  {
  }

  lemma StepKeepsInv(s: State, e: Event)
    requires Inv(s)
    ensures Inv(Step(s, e))
  {
    var t, s' := e.tid, Step(s, e);
    LocalKeeps(s.task, s.Pc(t), e.action, Idle);
    forall u | u != t ensures s'.Pc(u) == s.Pc(u) && Fits(s'.task, s.Pc(u)) && !(Owns(s'.Pc(t)) && Owns(s.Pc(u))) {
      LocalKeeps(s.task, s.Pc(t), e.action, s.Pc(u));
    }
  }

  lemma {:induction false} RunKeepsInv(es: Schedule)
    ensures Inv(Run(es))
  {
    hide Inv, Step;
    match es {
      case Start => InitialInv();
      case Then(before, e) => RunKeepsInv(before); StepKeepsInv(Run(before), e);
    }
  }

  lemma InitialInv()
    ensures Inv(INITIAL)
  {
  }

  /** The status moves only from Created over InProgress to Completed, or from Created to Cancelled. */
  lemma StatusMoves(es: Schedule, e: Event)
    ensures var from, to := Run(es).task.status, Step(Run(es), e).task.status;
            || to == from
            || (from, to) == (Created, InProgress)
            || (from, to) == (InProgress, Completed)
            || (from, to) == (Created, Cancelled)
  {
    hide Run;
    RunKeepsInv(es);
  }

  /**
   * In every interleaving, whatever exchanges fail spuriously: the function is started at most
   * once, and never if the task is cancelled; when the task is completed it has run and its
   * promise is set; and a step that starts the function finds the task in progress.
   */
  lemma Safety(es: Schedule)
    ensures var s := Run(es);
            && s.task.starts <= 1
            && (s.task.status.Cancelled? ==> s.task.starts == 0)
            && (s.task.status.Completed? ==> s.task.starts == 1 && !s.task.promise.Unset?)
            && (forall t :: s.Pc(t).Calling? ==> s.task.status.InProgress? && s.task.starts == 0)
  {
    hide Run;
    RunKeepsInv(es);
  }

  // ----- What the promise tells ---------------------------------------------------------------

  /** What the call of the function did. */
  datatype Call = NotCalled | Returned | Threw

  /** What is known of the call after a step at `pc`. */
  function CallAt(s: Shared, pc: Pc, action: Action, call: Call): Call {
    if s.aborted || !pc.Calling? || !action.Go? then call else if action.throws then Threw else Returned
  }

  /** The last call of the function in a schedule. */
  function CallOf(es: Schedule): Call {
    match es
    case Start => NotCalled
    case Then(before, e) => CallAt(Run(before).task, Run(before).Pc(e.tid), e.action, CallOf(before))
  }

  /** A promise that tells what the call did. */
  predicate Tells(p: Promise, call: Call) {
    (p.Value? <==> call.Returned?) && (p.Exception? <==> call.Threw?)
  }

  predicate Known(s: Shared, pc: Pc, call: Call) {
    && (s.starts == 0 <==> call.NotCalled?)
    && (s.status.Cancelled? ==> !s.promise.Value?)
    && (!s.status.Cancelled? && !s.promise.Unset? ==> Tells(s.promise, call))
    && (pc.Setting? ==> call == if pc.ok then Returned else Threw)
  }

  lemma LocalKnows(s: Shared, pc: Pc, action: Action, call: Call, other: Pc)
    requires Sound(s) && Fits(s, pc) && Fits(s, other) && !(Owns(pc) && Owns(other))
    requires Known(s, pc, call) && Known(s, other, call)
    ensures var (s', pc') := Local(s, pc, action);
            var call' := CallAt(s, pc, action, call);
            Known(s', pc', call') && Known(s', other, call')
  {
  }

  lemma {:induction false} RunKnows(es: Schedule)
    ensures forall t :: Known(Run(es).task, Run(es).Pc(t), CallOf(es))
  {
    match es {
      case Start =>
      case Then(before, e) =>
        RunKnows(before);
        RunKeepsInv(before);
        hide Run, CallOf, Local, Known, Fits, Sound, Owns;
        OneMoreEvent(before, e);
        StepKnows(Run(before), e, CallOf(before));
    }
  }

  lemma OneMoreEvent(before: Schedule, e: Event)
    ensures Run(Then(before, e)) == Step(Run(before), e)
    ensures CallOf(Then(before, e)) == CallAt(Run(before).task, Run(before).Pc(e.tid), e.action, CallOf(before))
  {
  }

  lemma StepKnows(s: State, e: Event, call: Call)
    requires Inv(s) && forall t :: Known(s.task, s.Pc(t), call)
    ensures forall t :: Known(Step(s, e).task, Step(s, e).Pc(t), CallAt(s.task, s.Pc(e.tid), e.action, call))
  {
    hide Local, Known, Fits, Sound, Owns, CallAt;
    var t, s' := e.tid, Step(s, e);
    var call' := CallAt(s.task, s.Pc(t), e.action, call);
    assert !Owns(Idle) && Fits(s.task, Idle) && Known(s.task, Idle, call) by { IdleKnows(s, call); }
    LocalKnows(s.task, s.Pc(t), e.action, call, Idle);
    forall u | u != t ensures Known(s'.task, s'.Pc(u), call') {
      LocalKnows(s.task, s.Pc(t), e.action, call, s.Pc(u));
    }
  }

  lemma IdleKnows(s: State, call: Call)
    requires forall t :: Known(s.task, s.Pc(t), call)
    ensures !Owns(Idle) && Fits(s.task, Idle) && Known(s.task, Idle, call)
  {
    assert Known(s.task, s.Pc(0), call);
  }

  /**
   * In every interleaving: the function has been called as often as the history says; the promise of a
   * completed task tells whether the function returned or threw; whoever finds a value, the function
   * has returned; and a task that is cancelled has no value.
   */
  lemma PromiseTellsOutcome(es: Schedule)
    ensures var s := Run(es).task;
            && (s.starts == 1 <==> CallOf(es) != NotCalled)
            && (s.status.Completed? ==> !s.promise.Unset? && Tells(s.promise, CallOf(es)))
            && (s.promise.Value? ==> CallOf(es) == Returned)
            && (s.promise.Exception? ==> CallOf(es) == Threw || (s.status.Cancelled? && CallOf(es) == NotCalled))
            && (s.status.Cancelled? ==> CallOf(es) == NotCalled && !s.promise.Value?)
  {
    hide Run, CallOf;
    RunKeepsInv(es);
    RunKnows(es);
    assert Known(Run(es).task, Run(es).Pc(0), CallOf(es));
  }

  // ----- What tryCancel tells -----------------------------------------------------------------

  /** While the task is in progress, some thread is between its two exchanges. */
  ghost predicate Owned(s: State) {
    s.task.status.InProgress? && !s.task.aborted ==> exists t :: Owns(s.Pc(t))
  }

  lemma LocalOwns(s: Shared, pc: Pc, action: Action)
    requires Sound(s) && Fits(s, pc)
    ensures var (s', pc') := Local(s, pc, action);
            s'.status.InProgress? && !s'.aborted ==>
              Owns(pc') || (s.status.InProgress? && !s.aborted && !Owns(pc))
  {
  }

  lemma {:induction false} RunIsOwned(es: Schedule)
    ensures Owned(Run(es))
  {
    match es {
      case Start =>
      case Then(before, e) =>
        RunIsOwned(before);
        RunKeepsInv(before);
        hide Run, Local, Sound, Owns;
        var s, t := Run(before), e.tid;
        var s' := Step(s, e);
        OneMoreEvent(before, e);
        assert Fits(s.task, s.Pc(t));
        hide Fits;
        LocalOwns(s.task, s.Pc(t), e.action);
        if s'.task.status.InProgress? && !s'.task.aborted && !Owns(s'.Pc(t)) {
          var u :| Owns(s.Pc(u));
          assert s'.Pc(u) == s.Pc(u);
        }
    }
  }

  /**
   * What `tryCancel` reports is true when it looks: a task it calls in progress has a thread that is
   * performing it, one it calls completed has been performed, and otherwise nobody has started it.
   */
  lemma ReportIsTrue(es: Schedule)
    requires !Run(es).task.aborted
    ensures var s, r := Run(es), CancelReport(Run(es).task.status);
            && (r == TaskAlreadyInProgress <==> exists t :: Owns(s.Pc(t)))
            && (r == TaskAlreadyCompleted <==> s.task.starts == 1 && forall t :: !Owns(s.Pc(t)))
            && (r == Success <==> s.task.starts == 0 && forall t :: !Owns(s.Pc(t)))
  {
    hide Run;
    RunKeepsInv(es);
    RunIsOwned(es);
    var s := Run(es);
    if t :| Owns(s.Pc(t)) {
      assert Fits(s.task, s.Pc(t));
    }
  }

  // ----- What spurious failures do ------------------------------------------------------------

  /** A thread's exchange at `pc` fails although it finds the status it expects there. */
  predicate FailsAt(s: State, e: Event, pc: Pc) {
    !s.task.aborted && s.Pc(e.tid) == pc && e.action.Go? && e.action.spurious
  }

  /** The exchange at the end of some `perform` has failed spuriously. */
  predicate FinishFailed(es: Schedule) {
    es.Then? && (FinishFailed(es.before) || FailsAt(Run(es.before), es.event, Finishing))
  }

  /** The exchange of some `tryCancel` has failed spuriously, on a task that could be cancelled. */
  predicate CancelFailed(es: Schedule) {
    && es.Then?
    && (|| CancelFailed(es.before)
        || (FailsAt(Run(es.before), es.event, Cancelling) && Run(es.before).task.status.Created?))
  }

  lemma LocalAborts(s: Shared, pc: Pc, action: Action, failed: bool)
    requires Sound(s) && Fits(s, pc) && (s.aborted <==> s.rejections >= 2 || failed)
    ensures var s' := Local(s, pc, action).0;
            s'.aborted
            <==> s'.rejections >= 2 || failed || (!s.aborted && pc.Finishing? && action.Go? && action.spurious)
  {
  }

  lemma LocalReports(s: Shared, pc: Pc, action: Action, failed: bool)
    requires Sound(s) && Fits(s, pc) && (s.successes > 0 <==> s.status.Cancelled? || failed)
    ensures var s' := Local(s, pc, action).0;
            s'.successes > 0
            <==> s'.status.Cancelled? || failed
                 || (!s.aborted && pc.Cancelling? && s.status.Created? && action.Go? && action.spurious)
  {
  }

  /**
   * In every interleaving, whatever exchanges fail spuriously: the program is aborted exactly if two
   * calls of `perform` have rejected the task, or the exchange at the end of one has failed spuriously.
   */
  lemma {:induction false} AbortsExactlyIf(es: Schedule)
    ensures Run(es).task.aborted <==> Run(es).task.rejections >= 2 || FinishFailed(es)
  {
    if es.Start? {
    } else {
      AbortsExactlyIf(es.before);
      RunKeepsInv(es.before);
      hide Local, Run;
      var s := Run(es.before);
      assert Fits(s.task, s.Pc(es.event.tid));
      LocalAborts(s.task, s.Pc(es.event.tid), es.event.action, FinishFailed(es.before));
      RunMore(es);
    }
  }

  lemma RunMore(es: Schedule)
    requires es.Then?
    ensures Run(es).task == Local(Run(es.before).task, Run(es.before).Pc(es.event.tid), es.event.action).0
  {
  }

  /**
   * In every interleaving: `tryCancel` has reported success exactly if the task is cancelled or the
   * exchange of some `tryCancel` has failed spuriously. So it has misled a caller about a task that
   * was started exactly in the second case.
   */
  lemma {:induction false} SuccessReportedExactlyIf(es: Schedule)
    ensures Run(es).task.successes > 0 <==> Run(es).task.status.Cancelled? || CancelFailed(es)
    ensures Run(es).task.starts > 0 ==> (Run(es).task.successes > 0 <==> CancelFailed(es))
  {
    RunKeepsInv(es);
    if es.Start? {
    } else {
      SuccessReportedExactlyIf(es.before);
      RunKeepsInv(es.before);
      hide Local, Run;
      var s := Run(es.before);
      assert Fits(s.task, s.Pc(es.event.tid));
      LocalReports(s.task, s.Pc(es.event.tid), es.event.action, CancelFailed(es.before));
      RunMore(es);
    }
  }

  // ----- With exchanges that do not fail spuriously -------------------------------------------

  lemma {:induction false} StrongNeverFails(es: Schedule)
    requires Strong(es)
    ensures !FinishFailed(es) && !CancelFailed(es)
  {
    hide Run;
    if es.Start? {
    } else {
      StrongNeverFails(es.before);
    }
  }

  /** Then, once `tryCancel` has reported success, the task is cancelled, and the function is never started. */
  lemma SuccessMeansCancelled(es: Schedule)
    requires Strong(es) && Run(es).task.successes > 0
    ensures Run(es).task.status == Cancelled && Run(es).task.starts == 0
  {
    hide Run;
    StrongNeverFails(es);
    SuccessReportedExactlyIf(es);
    RunKeepsInv(es);
  }

  /** Then the program is aborted exactly when two calls of `perform` have found the task cancelled. */
  lemma AbortsExactlyOnSecondRejection(es: Schedule)
    requires Strong(es)
    ensures Run(es).task.aborted <==> Run(es).task.rejections >= 2
  {
    hide Run;
    StrongNeverFails(es);
    AbortsExactlyIf(es);
  }

  // ----- Counting threads ---------------------------------------------------------------------

  /** The threads inside `perform`, those about to reject the task, and those about to make the check. */
  datatype Group = Performers | Rejecters | Checkers

  predicate Belongs(g: Group, pc: Pc) {
    match g
    case Performers => !pc.Idle? && !pc.Cancelling?
    case Rejecters => pc.Rejecting?
    case Checkers => pc.Checking?
  }

  function Members(s: State, g: Group): set<Tid> {
    set t | t in s.threads && Belongs(g, s.threads[t])
  }

  function Weight(g: Group, pc: Pc): nat {
    if Belongs(g, pc) then 1 else 0
  }

  lemma MembersWithout(s: State, g: Group, t: Tid)
    ensures |Members(s, g)| == |Members(s, g) - {t}| + Weight(g, s.Pc(t))
    ensures forall u :: u in Members(s, g) <==> Belongs(g, s.Pc(u))
  {
    hide Belongs;
    assert !Belongs(g, Idle) by { IdleBelongsNowhere(g); }
    if t in Members(s, g) {
      assert Members(s, g) == (Members(s, g) - {t}) + {t};
    } else {
      assert Members(s, g) == Members(s, g) - {t};
    }
  }

  lemma IdleBelongsNowhere(g: Group)
    ensures !Belongs(g, Idle)
  {
  }

  lemma MembersOfStep(s: State, e: Event, g: Group)
    ensures |Members(Step(s, e), g)| + Weight(g, s.Pc(e.tid)) == |Members(s, g)| + Weight(g, Step(s, e).Pc(e.tid))
  {
    hide Local, Belongs;
    var t, s' := e.tid, Step(s, e);
    MembersWithout(s, g, t);
    MembersWithout(s', g, t);
    assert forall u :: u != t ==> s'.Pc(u) == s.Pc(u);
    assert Members(s, g) - {t} == Members(s', g) - {t};
  }

  lemma {:induction false} RejectionsArePerforms(es: Schedule)
    ensures Run(es).task.rejections + |Members(Run(es), Performers)| <= Performs(es)
  {
    match es {
      case Start =>
        assert Members(INITIAL, Performers) == {};
      case Then(before, e) =>
        RejectionsArePerforms(before);
        MembersOfStep(Run(before), e, Performers);
        LocalWeight(Run(before).task, Run(before).Pc(e.tid), e.action);
        hide Local, Members;
    }
  }

  lemma LocalWeight(s: Shared, pc: Pc, action: Action)
    ensures var (s', pc') := Local(s, pc, action);
            s'.rejections + Weight(Performers, pc')
            <= s.rejections + Weight(Performers, pc) + if action.BeginPerform? then 1 else 0
  {
  }

  /** So a task that is performed at most once aborts the program exactly if its last exchange fails spuriously. */
  lemma PerformedOnceAbortsExactlyIf(es: Schedule)
    requires Performs(es) <= 1
    ensures Run(es).task.aborted <==> FinishFailed(es)
  {
    hide Run, Performs, FinishFailed;
    AbortsExactlyIf(es);
    RejectionsArePerforms(es);
  }

  /** And never, as by the thread pool, if exchanges do not fail spuriously. */
  lemma PerformedOnceNeverAborts(es: Schedule)
    requires Strong(es) && Performs(es) <= 1
    ensures !Run(es).task.aborted
  {
    hide Run, Performs;
    StrongNeverFails(es);
    PerformedOnceAbortsExactlyIf(es);
  }

  /** How often a `perform` has made its check when the task was cancelled already. */
  function FoundCancelled(es: Schedule): nat {
    match es
    case Start => 0
    case Then(before, e) =>
      var s := Run(before);
      FoundCancelled(before)
      + if !s.task.aborted && s.Pc(e.tid).Checking? && e.action.Go? && s.task.status.Cancelled? then 1 else 0
  }

  lemma LocalRejects(s: Shared, pc: Pc, action: Action)
    ensures var (s', pc') := Local(s, pc, action);
            s'.rejections + Weight(Rejecters, pc')
            == s.rejections + Weight(Rejecters, pc)
               + if !s.aborted && pc.Checking? && action.Go? && s.status.Cancelled? then 1 else 0
  {
  }

  lemma {:induction false} FoundCancelledRejects(es: Schedule)
    ensures FoundCancelled(es) == Run(es).task.rejections + |Members(Run(es), Rejecters)|
  {
    match es {
      case Start =>
        assert Members(INITIAL, Rejecters) == {};
      case Then(before, e) =>
        FoundCancelledRejects(before);
        MembersOfStep(Run(before), e, Rejecters);
        LocalRejects(Run(before).task, Run(before).Pc(e.tid), e.action);
        hide Local, Members;
    }
  }

  /**
   * The promise of a cancelled task is unset exactly as long as every `perform` that made its check
   * after the cancellation still has to reject it; when no call is under way, exactly if there was none.
   */
  lemma CancelledPromise(es: Schedule)
    requires Run(es).task.status == Cancelled
    ensures Run(es).task.promise.Unset? <==> FoundCancelled(es) == |Members(Run(es), Rejecters)|
    ensures (forall t :: Run(es).Pc(t) == Idle) ==> (Run(es).task.promise.Unset? <==> FoundCancelled(es) == 0)
  {
    hide Run, FoundCancelled;
    RunKeepsInv(es);
    FoundCancelledRejects(es);
    if forall t :: Run(es).Pc(t) == Idle {
      forall t ensures t !in Members(Run(es), Rejecters) {
        assert Run(es).Pc(t) == Idle;
      }
      assert Members(Run(es), Rejecters) == {};
    }
  }

  /** How many calls of `perform` have begun on a task that was cancelled already. */
  function LatePerforms(es: Schedule): nat {
    match es
    case Start => 0
    case Then(before, e) =>
      var s := Run(before);
      LatePerforms(before)
      + if !s.task.aborted && s.Pc(e.tid).Idle? && e.action.BeginPerform? && s.task.status.Cancelled? then 1 else 0
  }

  lemma LocalChecks(s: Shared, pc: Pc, action: Action)
    ensures var (s', pc') := Local(s, pc, action);
            var found := if !s.aborted && pc.Checking? && action.Go? && s.status.Cancelled? then 1 else 0;
            var begun := if !s.aborted && pc.Idle? && action.BeginPerform? && s.status.Cancelled? then 1 else 0;
            s.status.Cancelled? ==>
              s'.status.Cancelled? && begun + Weight(Checkers, pc) == found + Weight(Checkers, pc')
  {
  }

  /** Each of them finds it cancelled when it makes its check. */
  lemma {:induction false} LatePerformsCheck(es: Schedule)
    ensures if Run(es).task.status.Cancelled?
            then LatePerforms(es) <= FoundCancelled(es) + |Members(Run(es), Checkers)|
            else LatePerforms(es) == 0
  {
    match es {
      case Start =>
      case Then(before, e) =>
        LatePerformsCheck(before);
        MembersOfStep(Run(before), e, Checkers);
        LocalChecks(Run(before).task, Run(before).Pc(e.tid), e.action);
        hide Local, Members;
    }
  }

  /** So if a call has begun after the cancellation, and all calls have returned, the promise has the exception. */
  lemma PerformRejectsCancelled(es: Schedule)
    requires LatePerforms(es) > 0 && forall t :: Run(es).Pc(t) == Idle
    ensures Run(es).task.status == Cancelled && Run(es).task.promise == Exception
  {
    hide Run, LatePerforms, FoundCancelled;
    LatePerformsCheck(es);
    forall t ensures t !in Members(Run(es), Checkers) {
      assert Run(es).Pc(t) == Idle;
    }
    assert Members(Run(es), Checkers) == {};
    CancelledPromise(es);
    PromiseTellsOutcome(es);
  }

  // ----- What does go wrong -------------------------------------------------------------------

  const PROCEED := Go(false, false)

  /** After the schedule the task is like this, threads 0 and 1 are here, and all others are idle. */
  ghost predicate Stands(es: Schedule, task: Shared, pc0: Pc, pc1: Pc) {
    && Run(es).task == task
    && forall t :: Run(es).Pc(t) == if t == 0 then pc0 else if t == 1 then pc1 else Idle
  }

  lemma Advance0(es: Schedule, task: Shared, pc0: Pc, pc1: Pc, action: Action) returns (es': Schedule)
    requires Stands(es, task, pc0, pc1)
    ensures es' == Then(es, Event(0, action))
    ensures Stands(es', Local(task, pc0, action).0, Local(task, pc0, action).1, pc1)
  {
    hide Local;
    es' := Then(es, Event(0, action));
    assert Run(es).Pc(0) == pc0;
    forall t | t != 0 ensures Run(es').Pc(t) == Run(es).Pc(t) {
    }
  }

  lemma Advance1(es: Schedule, task: Shared, pc0: Pc, pc1: Pc, action: Action) returns (es': Schedule)
    requires Stands(es, task, pc0, pc1)
    ensures es' == Then(es, Event(1, action))
    ensures Stands(es', Local(task, pc1, action).0, pc0, Local(task, pc1, action).1)
  {
    hide Local;
    es' := Then(es, Event(1, action));
    assert Run(es).Pc(1) == pc1;
    forall t | t != 1 ensures Run(es').Pc(t) == Run(es).Pc(t) {
    }
  }

  /**
   * A task cancelled between the check and the start of `perform`: every call has returned, and the
   * promise will never be set.
   */
  lemma LateCancelLeavesPromiseUnset() returns (es: Schedule)
    ensures Strong(es) && Performs(es) == 1
    ensures exists task :: Stands(es, task, Idle, Idle) && task.status == Cancelled && task.promise == Unset
  {
    hide Run, Stands;
    var cancelled := NEW_TASK.(status := Cancelled, successes := 1);
    es := Start;
    assert Stands(es, NEW_TASK, Idle, Idle) by { StartStands(); }
    es := Advance0(es, NEW_TASK, Idle, Idle, BeginPerform);
    es := Advance0(es, NEW_TASK, Checking, Idle, PROCEED);
    es := Advance1(es, NEW_TASK, Starting, Idle, BeginCancel);
    es := Advance1(es, NEW_TASK, Starting, Cancelling, PROCEED);
    es := Advance0(es, cancelled, Starting, Idle, PROCEED);
    assert Stands(es, cancelled, Idle, Idle);
  }

  lemma StartStands()
    ensures Stands(Start, NEW_TASK, Idle, Idle)
  {
  }

  /** A spurious failure in `tryCancel` reports success, and the function is started all the same. */
  lemma SpuriousSuccess() returns (es: Schedule)
    ensures exists task, pc :: Stands(es, task, pc, Idle) && task.successes == 1 && task.starts == 1
  {
    hide Run, Stands;
    var told := NEW_TASK.(successes := 1);
    var running := told.(status := InProgress);
    es := Start;
    assert Stands(es, NEW_TASK, Idle, Idle) by { StartStands(); }
    es := Advance1(es, NEW_TASK, Idle, Idle, BeginCancel);
    es := Advance1(es, NEW_TASK, Idle, Cancelling, Go(true, false));
    es := Advance0(es, told, Idle, Idle, BeginPerform);
    es := Advance0(es, told, Checking, Idle, PROCEED);
    es := Advance0(es, told, Starting, Idle, PROCEED);
    es := Advance0(es, running, Calling, Idle, PROCEED);
    assert Stands(es, running.(starts := 1), Setting(true), Idle);
  }

  /** A spurious failure of the last exchange fails the assertion, with a single call of `perform`. */
  lemma SpuriousAbort() returns (es: Schedule)
    ensures Performs(es) == 1 && exists task, pc :: Stands(es, task, pc, Idle) && task.aborted
  {
    hide Run, Stands;
    var running := NEW_TASK.(status := InProgress);
    var done := running.(starts := 1, promise := Value);
    es := Start;
    assert Stands(es, NEW_TASK, Idle, Idle) by { StartStands(); }
    es := Advance0(es, NEW_TASK, Idle, Idle, BeginPerform);
    es := Advance0(es, NEW_TASK, Checking, Idle, PROCEED);
    es := Advance0(es, NEW_TASK, Starting, Idle, PROCEED);
    es := Advance0(es, running, Calling, Idle, PROCEED);
    es := Advance0(es, running.(starts := 1), Setting(true), Idle, PROCEED);
    es := Advance0(es, done, Finishing, Idle, Go(true, false));
    assert Stands(es, done.(aborted := true), Idle, Idle);
  }

  // ----- The objects --------------------------------------------------------------------------

  /** A call of `tryCancel` is one step. */
  function CancelAlone(s: Shared, spurious: bool): Shared {
    Local(s, Cancelling, Go(spurious, false)).0
  }

  /** A call of `perform` with no other thread in between. When it returns early, the later steps do nothing. */
  function PerformAlone(s: Shared, spuriousStart: bool, throws: bool, spuriousFinish: bool): Shared {
    var (s1, pc1) := Local(s, Checking, PROCEED);
    var (s2, pc2) := Local(s1, pc1, Go(spuriousStart, false));
    var (s3, pc3) := Local(s2, pc2, Go(false, throws));
    var (s4, pc4) := Local(s3, pc3, PROCEED);
    Local(s4, pc4, Go(spuriousFinish, false)).0
  }

  /** `State` and `Action` of one task. The ghost fields record history. */
  class Task {
    var status: Status
    var promise: Promise
    ghost var starts: nat
    ghost var successes: nat
    ghost var rejections: nat
    var aborted: bool

    ghost function View(): Shared
      reads this
    {
      Shared(status, promise, starts, successes, rejections, aborted)
    }

    constructor ()
      ensures View() == NEW_TASK
    {
      status, promise, aborted := Created, Unset, false;
      starts, successes, rejections := 0, 0, 0;
    }

    method CompareExchange(expected: Status, desired: Status, spurious: bool) returns (ok: bool, actual: Status)
      modifies this`status
      ensures actual == old(status) && ok == Exchanges(old(status), expected, spurious)
      ensures status == Exchanged(old(status), expected, desired, spurious)
    {
      actual := status;
      ok := status == expected && !spurious;
      if ok {
        status := desired;
      }
    }

    method TryCancel(spurious: bool) returns (r: CancellationResult)
      requires !aborted
      modifies this
      ensures r == CancelReport(old(status))
      ensures r == TaskAlreadyInProgress <==> old(status) == InProgress
      ensures r == TaskAlreadyCompleted <==> old(status) == Completed
      ensures status == if old(status) == Created && !spurious then Cancelled else old(status)
      ensures View() == CancelAlone(old(View()), spurious)
    {
      r := Success;
      var ok, actual := CompareExchange(Created, Cancelled, spurious);
      if !ok {
        if actual == InProgress {
          r := TaskAlreadyInProgress;
        } else if actual == Completed {
          r := TaskAlreadyCompleted;
        }
      }
      if r == Success {
        successes := successes + 1;
      }
    }

    method SetPromise(p: Promise)
      modifies this`promise, this`aborted
      ensures View() == old(View()).Set(p)
    {
      if promise != Unset {
        aborted := true;
      } else {
        promise := p;
      }
    }

    /** One call of `perform` that no other thread interferes with; the function throws or it does not. */
    method Perform(spuriousStart: bool, throws: bool, spuriousFinish: bool)
      requires !aborted
      modifies this
      ensures View() == PerformAlone(old(View()), spuriousStart, throws, spuriousFinish)
      ensures old(status) == Created && !spuriousStart && old(promise) == Unset ==>
          && promise == (if throws then Exception else Value)
          && status == (if spuriousFinish then InProgress else Completed)
          && starts == old(starts) + 1 && aborted == spuriousFinish
      ensures old(status) == Cancelled ==>
          && status == Cancelled && starts == old(starts)
          && promise == (if old(promise) == Unset then Exception else old(promise))
          && aborted == (old(promise) != Unset)
      ensures old(status) != Cancelled && !(old(status) == Created && !spuriousStart) ==> View() == old(View())
    {
      if status == Cancelled {
        rejections := rejections + 1;
        SetPromise(Exception);
        return;
      }
      var started, _ := CompareExchange(Created, InProgress, spuriousStart);
      if started {
        starts := starts + 1;
        SetPromise(if throws then Exception else Value);
        if aborted {
          return;
        }
        var completed, _ := CompareExchange(InProgress, Completed, spuriousFinish);
        aborted := !completed;
      }
    }
  }
}
