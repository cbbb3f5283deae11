/** eThread: one controlling thread starts, waits for and joins a worker thread, over and over.

  The two share m_state (a semaphore whose operations are atomic, see module Semaphore), m_alive
  and m_started.  One step is one access to what they share.
 */
module ThreadHandshake {

  /** Where the controller stands in sync. */
  datatype SyncPlace =
    | Down
    | Read           // res = m_alive
    | Fatal          // value() != 0 is fatal
    | AssertTaken
    | Up

  /** Where the controller stands in runAsync, after its sync. */
  datatype StartPlace =
    | AssertRaised
    | AssertDead
    | Lower
    | AssertLowered
    | SetAlive
    | ClearStarted
    | JoinOld
    | Create

  /** `first`: the sync is the one in runAsync, not the one that run adds.  `wait`: the call is
      run, not runAsync.  `res`: what sync has read. */
  datatype Controller =
    | Ready          // between calls
    | InSync(sync: SyncPlace, first: bool, wait: bool, res: bool)
    | InStart(start: StartPlace, wait: bool)
    | InKill

  /** Where the worker stands. */
  datatype Worker =
    | NoWorker
    | Starting       // in thread(), hasStarted not called
    | AssertDown     // in hasStarted
    | SetStarted
    | Raise
    | Running        // in thread(), after hasStarted
    | Completing     // in thread_completed
    | Testing
    | Finishing      // in thread_finished
    | Exited

  /** `handle`: the_thread is not 0.  `dying`: the call of hasStarted is the one in
      thread_completed. */
  datatype State = State(
    v: int, alive: bool, started: bool, handle: bool,
    ctl: Controller, worker: Worker, dying: bool)

  datatype Step =
    | CallRun | CallRunAsync | CallKill
    | Control        // the controller goes on with its call
    | HasStarted     // the worker calls hasStarted
    | Die            // the worker returns from thread(), or is cancelled
    | Work           // the worker goes on

  predicate Initial(s: State) {
    s.v == 1 && !s.alive && !s.handle && s.ctl.Ready? && s.worker.NoWorker?
  }

  /** A down waits for the semaphore to be positive, a join for the thread to exit. */
  predicate Enabled(s: State, step: Step) {
    match step
    case CallRun | CallRunAsync | CallKill => s.ctl.Ready?
    case Control =>
      (match s.ctl
       case Ready => false
       case InSync(sync, _, _, _) => sync.Down? ==> s.v > 0
       case InStart(start, _) => (start.Lower? ==> s.v > 0) && (start.JoinOld? && s.handle ==> s.worker.Exited?)
       case InKill => s.handle ==> s.worker.Exited?)
    case HasStarted => s.worker.Starting?
    case Die => s.worker.Starting? || s.worker.Running?
    case Work =>
      s.worker.AssertDown? || s.worker.SetStarted? || s.worker.Raise?
      || s.worker.Completing? || s.worker.Testing? || s.worker.Finishing?
  }

  /** What the program checks in this step, ending in a fatal error if it does not hold. */
  predicate Holds(s: State, step: Step) {
    match step
    case Control =>
      && (s.ctl.InSync? && (s.ctl.sync.Fatal? || s.ctl.sync.AssertTaken?) ==> s.v == 0)
      && (s.ctl.InStart? ==>
            && (s.ctl.start.AssertRaised? ==> s.v == 1)
            && (s.ctl.start.AssertDead? ==> !s.alive)
            && (s.ctl.start.AssertLowered? ==> s.v == 0))
    case Work => s.worker.AssertDown? ==> s.v == 0
    case _ => true
  }

  /** eThread::sync, and what follows its return. */
  function SyncStep(s: State): State
    requires s.ctl.InSync?
  {
    var c := s.ctl;
    match c.sync
    case Down => s.(v := s.v - 1, ctl := c.(sync := Read))
    case Read => s.(ctl := c.(sync := Fatal, res := s.alive))
    case Fatal => s.(ctl := c.(sync := AssertTaken))
    case AssertTaken => s.(ctl := c.(sync := Up))
    case Up => s.(v := s.v + 1, ctl := if c.first && !c.res then InStart(AssertRaised, c.wait) else Ready)
  }

  /** eThread::runAsync after its sync, and the call of the other sync by run. */
  function StartStep(s: State): State
    requires s.ctl.InStart?
  {
    var w := s.ctl.wait;
    match s.ctl.start
    case AssertRaised => s.(ctl := InStart(AssertDead, w))
    case AssertDead => s.(ctl := InStart(Lower, w))
    case Lower => s.(v := s.v - 1, ctl := InStart(AssertLowered, w))
    case AssertLowered => s.(ctl := InStart(SetAlive, w))
    case SetAlive => s.(alive := true, ctl := InStart(ClearStarted, w))
    case ClearStarted => s.(started := false, ctl := InStart(JoinOld, w))
    case JoinOld => s.(handle := false, worker := NoWorker, ctl := InStart(Create, w))
    case Create =>
      s.(handle := true, worker := Starting, ctl := if w then InSync(Down, false, true, false) else Ready)
  }

  /** hasStarted and thread_completed. */
  function WorkStep(s: State): State
    requires Enabled(s, Work)
  {
    match s.worker
    case AssertDown => s.(worker := SetStarted)
    case SetStarted => s.(started := true, worker := Raise)
    case Raise => s.(v := s.v + 1, worker := if s.dying then Finishing else Running)
    case Completing => s.(alive := false, worker := Testing)
    case Testing =>
      if s.started then s.(worker := Finishing) else s.(worker := AssertDown, dying := true)
    case Finishing => s.(worker := Exited)
  }

  function Apply(s: State, step: Step): State
    requires Enabled(s, step)
  {
    match step
    case CallRun => s.(ctl := InSync(Down, true, true, false))
    case CallRunAsync => s.(ctl := InSync(Down, true, false, false))
    case CallKill => s.(ctl := InKill)
    case Control =>
      if s.ctl.InSync? then SyncStep(s)
      else if s.ctl.InStart? then StartStep(s)
      else s.(handle := false, worker := NoWorker, ctl := Ready)
    case HasStarted => s.(worker := AssertDown, dying := false)
    case Die => s.(worker := Completing)
    case Work => WorkStep(s)
  }

  predicate IsCall(step: Step) { step.CallRun? || step.CallRunAsync? || step.CallKill? }

  predicate IsStart(step: Step) { step.CallRun? || step.CallRunAsync? }

  ghost predicate Runs(s: State, steps: seq<Step>, t: State)
    decreases steps
  {
    if steps == [] then t == s
    else Enabled(s, steps[0]) && Runs(Apply(s, steps[0]), steps[1..], t)
  }

  // ---------------------------------------------------------------- one thread at a time, always

  /** The handle says whether there is a thread, and none is left when one is created. */
  predicate OneThread(s: State) {
    (s.handle <==> !s.worker.NoWorker?) && (s.ctl.InStart? && s.ctl.start.Create? ==> s.worker.NoWorker?)
  }

  lemma StepKeepsOneThread(s: State, step: Step)
    requires OneThread(s) && Enabled(s, step)
    ensures OneThread(Apply(s, step))
  {
    match step {
      case Control =>
        if s.ctl.InStart? {
          assert OneThread(StartStep(s));
        } else if s.ctl.InSync? {
          assert OneThread(SyncStep(s));
        }
      case Work => assert OneThread(WorkStep(s));
      case _ =>
    }
  }

  /** A thread is created only when there is none, and joined only when it has exited; otherwise it goes
      on by its own steps. */
  lemma ThreadsComeAndGo(s: State, step: Step)
    requires OneThread(s) && Enabled(s, step)
    ensures var t := Apply(s, step);
      && (t.worker != s.worker && t.worker.Starting? ==> s.worker.NoWorker?)
      && (t.worker != s.worker && t.worker.NoWorker? ==> s.worker.Exited?)
      && (t.worker != s.worker && !t.worker.Starting? && !t.worker.NoWorker? ==> step.HasStarted? || step.Die? || step.Work?)
  {
    StepKeepsOneThread(s, step);
    match step {
      case Control =>
        if s.ctl.InStart? {
          assert StartStep(s).worker == s.worker || s.ctl.start.JoinOld? || s.ctl.start.Create?;
        }
      case _ =>
    }
  }

  /** Whatever the controller calls and whenever, a second thread is never created while one is
      alive. */
  lemma {:induction false} NeverTwoThreads(s: State, steps: seq<Step>, t: State)
    requires OneThread(s) && Runs(s, steps, t)
    ensures OneThread(t)
    decreases steps
  {
    if steps != [] {
      StepKeepsOneThread(s, steps[0]);
      hide Enabled, Apply;
      NeverTwoThreads(Apply(s, steps[0]), steps[1..], t);
    }
  }

  // ------------------------------------------------------------ when may the next start be called

  predicate InHasStarted(s: State) { s.worker.AssertDown? || s.worker.SetStarted? || s.worker.Raise? }

  /** The worker has raised the semaphore in hasStarted, or may do so by itself, and is still to
      test m_started in thread_completed. */
  predicate TestAhead(s: State) {
    || s.worker.Starting? || s.worker.Running? || (InHasStarted(s) && !s.dying)
    || ((s.worker.Completing? || s.worker.Testing?) && s.started)
  }

  /** The controller is in runAsync, up to the creation of the thread. */
  predicate Beginning(c: Controller) { c.InStart? || (c.InSync? && c.first) }

  /** How many times the worker is still to raise the semaphore. */
  function Owed(s: State): nat {
    if s.worker.Starting? || InHasStarted(s) || ((s.worker.Completing? || s.worker.Testing?) && !s.started)
    then 1 else 0
  }

  /** How many of the semaphore's units the controller has taken and is to put back. */
  function Borrowed(c: Controller): nat { if c.InSync? && !c.sync.Down? then 1 else 0 }

  /** The unit that a start has taken on the new worker's behalf. */
  function Pending(c: Controller): nat {
    if c.InStart? && !c.start.AssertRaised? && !c.start.AssertDead? && !c.start.Lower? then 1 else 0
  }

  /** The flags follow the worker, or the start that is about to create one. */
  predicate FlagsMatch(s: State) {
    && (s.worker.Starting? ==> s.alive && !s.started)
    && (s.worker.AssertDown? || s.worker.SetStarted? ==> s.alive == !s.dying && !s.started)
    && (s.worker.Raise? ==> s.alive == !s.dying && s.started)
    && (s.worker.Running? ==> s.alive && s.started)
    && (s.worker.Completing? ==> s.alive)
    && (s.worker.Testing? ==> !s.alive)
    && (s.worker.NoWorker? || s.worker.Finishing? || s.worker.Exited? ==>
          s.alive == (s.ctl.InStart? && (s.ctl.start.ClearStarted? || s.ctl.start.JoinOld? || s.ctl.start.Create?)))
  }

  /** What a start has made sure of so far. */
  predicate StartOnCourse(s: State) {
    if s.ctl.InSync? then s.ctl.sync.Down? || s.ctl.sync.Read? || !s.ctl.res
    else
      && s.ctl.InStart?
      && (Pending(s.ctl) == 0 ==> s.v == 1)
      && (s.ctl.start.JoinOld? || s.ctl.start.Create? ==> !s.started)
  }

  /** There is one unit in all; the flags follow the worker; a start is not under way while the
      old worker's test is ahead. */
  predicate Inv(s: State) {
    && OneThread(s)
    && s.v >= 0 && s.v + Owed(s) + Borrowed(s.ctl) + Pending(s.ctl) == 1
    && FlagsMatch(s)
    && (Beginning(s.ctl) ==> !TestAhead(s) && StartOnCourse(s))
  }

  /** The rule for calling run and runAsync.  The joined worker's handle is 0, so a caller that
      joins before it starts again keeps to it. */
  predicate MayStart(s: State) { !s.handle || !TestAhead(s) }

  predicate Disciplined(s: State, step: Step) { IsStart(step) ==> MayStart(s) }

  ghost predicate DisciplinedRun(s: State, steps: seq<Step>, t: State)
    decreases steps
  {
    if steps == [] then t == s
    else Enabled(s, steps[0]) && Disciplined(s, steps[0])
         && DisciplinedRun(Apply(s, steps[0]), steps[1..], t)
  }

  lemma SyncKeepsInv(s: State)
    requires Inv(s) && Enabled(s, Control) && s.ctl.InSync?
    ensures Holds(s, Control) && Inv(SyncStep(s))
  {
    var t := SyncStep(s);
    match s.ctl.sync {
      case Down => assert Inv(t);
      case Read => assert Inv(t);
      case Fatal => assert Inv(t);
      case AssertTaken => assert Inv(t);
      case Up => assert Inv(t);
    }
  }

  lemma ChecksKeepInv(s: State)
    requires Inv(s) && Enabled(s, Control) && s.ctl.InStart? && Pending(s.ctl) == 0
    ensures Holds(s, Control) && Inv(StartStep(s))
  {
    var t := StartStep(s);
    match s.ctl.start {
      case AssertRaised => assert Inv(t);
      case AssertDead => assert Inv(t);
      case Lower => assert Inv(t);
      case _ => assert false;
    }
  }

  lemma StartKeepsInv(s: State)
    requires Inv(s) && Enabled(s, Control) && s.ctl.InStart? && Pending(s.ctl) == 1
    ensures Holds(s, Control) && Inv(StartStep(s))
  {
    var t := StartStep(s);
    match s.ctl.start {
      case AssertLowered => assert Inv(t);
      case SetAlive => assert Inv(t);
      case ClearStarted => assert Inv(t);
      case JoinOld => assert Inv(t);
      case Create => assert Inv(t);
      case _ => assert false;
    }
  }

  lemma WorkKeepsInv(s: State)
    requires Inv(s) && Enabled(s, Work)
    ensures Holds(s, Work) && Inv(WorkStep(s))
  {
  }

  lemma ControlKeepsInv(s: State)
    requires Inv(s) && Enabled(s, Control)
    ensures Holds(s, Control) && Inv(Apply(s, Control))
  {
    if s.ctl.InSync? {
      SyncKeepsInv(s);
      hide Inv, Holds, SyncStep;
    } else if s.ctl.InStart? {
      if Pending(s.ctl) == 0 {
        ChecksKeepInv(s);
      } else {
        StartKeepsInv(s);
      }
      hide Inv, Holds, StartStep;
    }
  }

  lemma MayStartMeans(s: State)
    requires OneThread(s) && MayStart(s)
    ensures !TestAhead(s)
  {
  }

  lemma FlagsOfWorker(s: State, c: Controller)
    requires FlagsMatch(s) && !s.ctl.InStart? && !c.InStart?
    ensures FlagsMatch(s.(ctl := c))
  {
  }

  /** A call takes nothing yet. */
  lemma CallKeepsInv(s: State, step: Step)
    requires Inv(s) && Enabled(s, step) && IsCall(step) && Disciplined(s, step)
    ensures Inv(Apply(s, step))
  {
    var t := Apply(s, step);
    assert t == s.(ctl := t.ctl) && Borrowed(t.ctl) == Pending(t.ctl) == 0;
    assert Owed(t) == Owed(s);
    FlagsOfWorker(s, t.ctl);
    if IsStart(step) {
      MayStartMeans(s);
    }
    assert OneThread(t) && TestAhead(t) == TestAhead(s);
    hide FlagsMatch, OneThread, TestAhead, MayStart, Owed, Apply;
  }

  lemma StepKeepsInv(s: State, step: Step)
    requires Inv(s) && Enabled(s, step) && Disciplined(s, step)
    ensures Holds(s, step) && Inv(Apply(s, step))
  {
    match step {
      case Control => ControlKeepsInv(s);
      case Work => WorkKeepsInv(s);
      case CallRun => CallKeepsInv(s, step);
      case CallRunAsync => CallKeepsInv(s, step);
      case CallKill => CallKeepsInv(s, step);
      case HasStarted => assert Inv(s.(worker := AssertDown, dying := false));
      case Die => assert Inv(s.(worker := Completing));
    }
  }

  /** Starts that have taken the semaphore's unit for their worker. */
  function Starts(s: State, steps: seq<Step>): nat
    decreases steps
  {
    if steps == [] || !Enabled(s, steps[0]) then 0
    else (if steps[0].Control? && s.ctl.InStart? && s.ctl.start.Lower? then 1 else 0) + Starts(Apply(s, steps[0]), steps[1..])
  }

  /** Times a worker has raised the semaphore. */
  function Raises(s: State, steps: seq<Step>): nat
    decreases steps
  {
    if steps == [] || !Enabled(s, steps[0]) then 0
    else (if steps[0].Work? && s.worker.Raise? then 1 else 0) + Raises(Apply(s, steps[0]), steps[1..])
  }

  lemma {:induction false} DisciplinedRunKeepsInv(s: State, steps: seq<Step>, t: State)
    requires Inv(s) && DisciplinedRun(s, steps, t)
    ensures Runs(s, steps, t) && Inv(t)
    ensures Starts(s, steps) + Owed(s) + Pending(s.ctl) == Raises(s, steps) + Owed(t) + Pending(t.ctl)
    decreases steps
  {
    if steps != [] {
      StepKeepsInv(s, steps[0]);
      StepCounts(s, steps[0]);
      DisciplinedRunKeepsInv(Apply(s, steps[0]), steps[1..], t);
      hide Inv, Enabled, Apply, Disciplined, Owed, Pending;
    }
  }

  lemma StepCounts(s: State, step: Step)
    requires Inv(s) && Enabled(s, step) && Disciplined(s, step)
    ensures (if step.Control? && s.ctl.InStart? && s.ctl.start.Lower? then 1 else 0) + Owed(s) + Pending(s.ctl)
         == (if step.Work? && s.worker.Raise? then 1 else 0) + Owed(Apply(s, step)) + Pending(Apply(s, step).ctl)
  {
    match step {
      case Control =>
        if s.ctl.InStart? {
          StartCounts(s);
        } else if s.ctl.InSync? {
          SyncCounts(s);
        }
      case Work => WorkCounts(s);
      case _ =>
    }
  }

  lemma StartCounts(s: State)
    requires Inv(s) && s.ctl.InStart? && Enabled(s, Control)
    ensures (if s.ctl.start.Lower? then 1 else 0) + Owed(s) + Pending(s.ctl)
         == Owed(StartStep(s)) + Pending(StartStep(s).ctl)
  {
    var t := StartStep(s);
    if s.ctl.start.JoinOld? {
      assert Owed(s) == Owed(t) == 0;
    } else if s.ctl.start.Create? {
      assert Owed(s) == 0 && Owed(t) == 1;
    } else if s.ctl.start.ClearStarted? {
      assert Owed(s) == Owed(t) == 0;
    } else {
      assert Owed(s) == Owed(t);
    }
  }

  lemma SyncCounts(s: State)
    requires Inv(s) && s.ctl.InSync?
    ensures Owed(s) + Pending(s.ctl) == Owed(SyncStep(s)) + Pending(SyncStep(s).ctl)
  {
    var t := SyncStep(s);
    assert t.worker == s.worker && t.started == s.started;
    hide Inv;
  }

  lemma WorkCounts(s: State)
    requires Inv(s) && Enabled(s, Work)
    ensures Owed(s) == (if s.worker.Raise? then 1 else 0) + Owed(WorkStep(s)) && WorkStep(s).ctl == s.ctl
  {
    hide OneThread, StartOnCourse, TestAhead;
  }

  /** In every interleaving in which no start is called while the old worker's test is ahead: the
      semaphore stays in {0, 1}, every check holds, it is raised once for each start (or is about
      to be), even if the worker dies early. */
  lemma HandshakeIsSafe(s: State, steps: seq<Step>, t: State, step: Step)
    requires Initial(s) && DisciplinedRun(s, steps, t)
    ensures 0 <= t.v <= 1
    ensures Enabled(t, step) && Disciplined(t, step) ==> Holds(t, step)
    ensures Runs(s, steps, t) && Starts(s, steps) == Raises(s, steps) + Owed(t) + Pending(t.ctl)
  {
    DisciplinedRunKeepsInv(s, steps, t);
    if Enabled(t, step) && Disciplined(t, step) {
      StepKeepsInv(t, step);
    }
  }

  /** When run returns after a start, the worker has passed hasStarted or has died; and the test
      that lets a start proceed finds the old worker gone from thread(). */
  lemma RunWaitsForTheWorker(s: State)
    requires Inv(s) && s.ctl.InSync? && s.ctl.sync.Up?
    ensures Owed(s) == 0
    ensures s.ctl.first ==> s.worker in {NoWorker, Finishing, Exited}
  {
  }

  /** A call never hangs for good: while the controller is in one, it can go on or the worker
      can. */
  lemma NoDeadlock(s: State)
    requires Inv(s) && !s.ctl.Ready?
    ensures exists step :: !IsCall(step) && Enabled(s, step)
  {
    if !Enabled(s, Control) {
      var step := if s.worker.Starting? || s.worker.Running? then Die else Work;
      assert !IsCall(step) && Enabled(s, step);
    }
  }

  // ------------------------------------------------------------------------- and when it may not

  /** A run in which the controller makes no new call. */
  ghost predicate QuietRun(s: State, steps: seq<Step>, t: State) {
    Runs(s, steps, t) && forall i :: 0 <= i < |steps| ==> !IsCall(steps[i])
  }

  /** A start: run, which waits for the worker, or runAsync. */
  function Call(wait: bool): Step { if wait then CallRun else CallRunAsync }

  /** Where the controller stands when the thread has been created. */
  function AfterCreate(wait: bool): Controller { if wait then InSync(Down, false, true, false) else Ready }

  /** No check can fail from the call of run or runAsync until the controller's next call. */
  ghost predicate SafeStart(s: State, wait: bool) {
    s.ctl.Ready?
    && forall steps, t, step | QuietRun(Apply(s, Call(wait)), steps, t) && !IsCall(step) && Enabled(t, step)
         :: Holds(t, step)
  }

  lemma {:induction false} RunsThen(s: State, steps: seq<Step>, t: State, step: Step)
    requires Runs(s, steps, t) && Enabled(t, step)
    ensures Runs(s, steps + [step], Apply(t, step))
    decreases steps
  {
    if steps == [] {
      assert [step][1..] == [];
    } else {
      RunsThen(Apply(s, steps[0]), steps[1..], t, step);
      assert (steps + [step])[1..] == steps[1..] + [step];
    }
  }

  ghost predicate Reaches(s: State, t: State) {
    exists steps :: QuietRun(s, steps, t)
  }

  lemma Then(s: State, t: State, step: Step, next: State)
    requires Reaches(s, t) && Enabled(t, step) && !IsCall(step) && next == Apply(t, step)
    ensures Reaches(s, next)
  {
    var steps :| QuietRun(s, steps, t);
    RunsThen(s, steps, t, step);
    assert QuietRun(s, steps + [step], next);
  }

  /** The controller waits in runAsync, and the worker gets to its test after the wait is over. */
  lemma LateTest(s: State, wait: bool)
    requires Inv(s) && s.ctl.Ready? && s.handle && TestAhead(s)
    ensures exists dying :: Reaches(Apply(s, Call(wait)), State(1, false, true, true, InSync(Down, true, wait, false), Testing, dying))
  {
    var u := Apply(s, Call(wait));
    assert QuietRun(u, [], u);
    hide Reaches;
    var t := UntilRaised(u);
    if t.worker.Running? {
      t := GoOn(u, t, Die);
    }
    if t.worker.Completing? {
      t := GoOn(u, t, Work);
    }
    assert t == State(1, false, true, true, InSync(Down, true, wait, false), Testing, t.dying);
  }

  /** The worker goes on until it has raised the semaphore. */
  lemma UntilRaised(u: State) returns (t: State)
    requires Reaches(u, u) && FlagsMatch(u) && TestAhead(u) && u.v + Owed(u) == 1
    ensures Reaches(u, t) && (t.worker.Running? || t.worker.Completing? || t.worker.Testing?)
    ensures t == u.(v := 1, started := true, worker := t.worker, dying := t.dying)
    ensures t.worker.Testing? || t.worker.Completing? ==> t == u
  {
    hide Reaches;
    t := u;
    if t.worker.Starting? {
      t := GoOn(u, t, HasStarted);
    }
    if t.worker.AssertDown? {
      t := GoOn(u, t, Work);
    }
    if t.worker.SetStarted? {
      t := GoOn(u, t, Work);
    }
    if t.worker.Raise? {
      t := GoOn(u, t, Work);
    }
  }

  lemma GoOn(s: State, t: State, step: Step) returns (next: State)
    requires Reaches(s, t) && Enabled(t, step) && !IsCall(step)
    ensures next == Apply(t, step) && Reaches(s, next)
  {
    next := Apply(t, step);
    Then(s, t, step, next);
  }

  lemma SyncWhileTesting(u: State, wait: bool, dying: bool)
    requires Reaches(u, State(1, false, true, true, InSync(Down, true, wait, false), Testing, dying))
    ensures Reaches(u, State(1, false, true, true, InStart(AssertRaised, wait), Testing, dying))
  {
    hide Reaches;
    Then(u, State(1, false, true, true, InSync(Down, true, wait, false), Testing, dying), Control,
      State(0, false, true, true, InSync(Read, true, wait, false), Testing, dying));
    Then(u, State(0, false, true, true, InSync(Read, true, wait, false), Testing, dying), Control,
      State(0, false, true, true, InSync(Fatal, true, wait, false), Testing, dying));
    Then(u, State(0, false, true, true, InSync(Fatal, true, wait, false), Testing, dying), Control,
      State(0, false, true, true, InSync(AssertTaken, true, wait, false), Testing, dying));
    Then(u, State(0, false, true, true, InSync(AssertTaken, true, wait, false), Testing, dying), Control,
      State(0, false, true, true, InSync(Up, true, wait, false), Testing, dying));
    Then(u, State(0, false, true, true, InSync(Up, true, wait, false), Testing, dying), Control,
      State(1, false, true, true, InStart(AssertRaised, wait), Testing, dying));
  }

  lemma StartWhileTesting(u: State, wait: bool, dying: bool)
    requires Reaches(u, State(1, false, true, true, InStart(AssertRaised, wait), Testing, dying))
    ensures Reaches(u, State(0, true, false, true, InStart(JoinOld, wait), Testing, dying))
  {
    hide Reaches;
    Then(u, State(1, false, true, true, InStart(AssertRaised, wait), Testing, dying), Control,
      State(1, false, true, true, InStart(AssertDead, wait), Testing, dying));
    Then(u, State(1, false, true, true, InStart(AssertDead, wait), Testing, dying), Control,
      State(1, false, true, true, InStart(Lower, wait), Testing, dying));
    Then(u, State(1, false, true, true, InStart(Lower, wait), Testing, dying), Control,
      State(0, false, true, true, InStart(AssertLowered, wait), Testing, dying));
    Then(u, State(0, false, true, true, InStart(AssertLowered, wait), Testing, dying), Control,
      State(0, false, true, true, InStart(SetAlive, wait), Testing, dying));
    Then(u, State(0, false, true, true, InStart(SetAlive, wait), Testing, dying), Control,
      State(0, true, true, true, InStart(ClearStarted, wait), Testing, dying));
    Then(u, State(0, true, true, true, InStart(ClearStarted, wait), Testing, dying), Control,
      State(0, true, false, true, InStart(JoinOld, wait), Testing, dying));
  }

  /** The old worker takes the new start's cleared flag for its own, raises the semaphore once
      more, and the new worker meets its check with the semaphore up. */
  lemma LateTestBreaks(u: State, wait: bool, dying: bool)
    requires Reaches(u, State(0, true, false, true, InStart(JoinOld, wait), Testing, dying))
    ensures Reaches(u, State(1, true, true, true, AfterCreate(wait), AssertDown, false))
  {
    hide Reaches;
    Then(u, State(0, true, false, true, InStart(JoinOld, wait), Testing, dying), Work,
      State(0, true, false, true, InStart(JoinOld, wait), AssertDown, true));
    Then(u, State(0, true, false, true, InStart(JoinOld, wait), AssertDown, true), Work,
      State(0, true, false, true, InStart(JoinOld, wait), SetStarted, true));
    Then(u, State(0, true, false, true, InStart(JoinOld, wait), SetStarted, true), Work,
      State(0, true, true, true, InStart(JoinOld, wait), Raise, true));
    Then(u, State(0, true, true, true, InStart(JoinOld, wait), Raise, true), Work,
      State(1, true, true, true, InStart(JoinOld, wait), Finishing, true));
    Then(u, State(1, true, true, true, InStart(JoinOld, wait), Finishing, true), Work,
      State(1, true, true, true, InStart(JoinOld, wait), Exited, true));
    Then(u, State(1, true, true, true, InStart(JoinOld, wait), Exited, true), Control,
      State(1, true, true, false, InStart(Create, wait), NoWorker, true));
    Then(u, State(1, true, true, false, InStart(Create, wait), NoWorker, true), Control,
      State(1, true, true, true, AfterCreate(wait), Starting, true));
    Then(u, State(1, true, true, true, AfterCreate(wait), Starting, true), HasStarted,
      State(1, true, true, true, AfterCreate(wait), AssertDown, false));
  }

  lemma {:induction false} QuietRunIsDisciplined(s: State, steps: seq<Step>, t: State)
    requires QuietRun(s, steps, t)
    ensures DisciplinedRun(s, steps, t)
    decreases steps
  {
    if steps != [] {
      QuietRunIsDisciplined(Apply(s, steps[0]), steps[1..], t);
    }
  }

  lemma DisciplinedStartIsSafe(s: State, wait: bool, steps: seq<Step>, t: State, step: Step)
    requires Inv(s) && s.ctl.Ready? && MayStart(s)
    requires QuietRun(Apply(s, Call(wait)), steps, t) && !IsCall(step) && Enabled(t, step)
    ensures Holds(t, step)
  {
    StepKeepsInv(s, Call(wait));
    hide Inv, Apply, Holds, Enabled, MayStart;
    QuietRunIsDisciplined(Apply(s, Call(wait)), steps, t);
    DisciplinedRunKeepsInv(Apply(s, Call(wait)), steps, t);
    StepKeepsInv(t, step);
  }

  lemma LateStartBreaks(s: State, wait: bool) returns (steps: seq<Step>, t: State)
    requires Inv(s) && s.ctl.Ready? && !MayStart(s)
    ensures QuietRun(Apply(s, Call(wait)), steps, t) && Enabled(t, Work) && !Holds(t, Work)
  {
    var u := Apply(s, Call(wait));
    LateTest(s, wait);
    hide Inv, Apply;
    var dying :| Reaches(u, State(1, false, true, true, InSync(Down, true, wait, false), Testing, dying));
    SyncWhileTesting(u, wait, dying);
    StartWhileTesting(u, wait, dying);
    LateTestBreaks(u, wait, dying);
    t := State(1, true, true, true, AfterCreate(wait), AssertDown, false);
    steps :| QuietRun(u, steps, t);
  }

  /** A start is safe in every interleaving if and only if the old worker is joined, or has its
      test of m_started behind it, or died before hasStarted. */
  lemma StartIsSafeIff(s: State, wait: bool)
    requires Inv(s) && s.ctl.Ready?
    ensures SafeStart(s, wait) <==> MayStart(s)
  {
    hide Inv, Apply, Holds, QuietRun;
    if MayStart(s) {
      forall steps, t, step | QuietRun(Apply(s, Call(wait)), steps, t) && !IsCall(step) && Enabled(t, step)
        ensures Holds(t, step)
      {
        DisciplinedStartIsSafe(s, wait, steps, t, step);
      }
    } else {
      var steps, t := LateStartBreaks(s, wait);
      assert !IsCall(Work);
    }
  }

  /** A state that the program gets to while it keeps to the rule. */
  ghost predicate Reachable(s: State) {
    exists from, steps :: Initial(from) && DisciplinedRun(from, steps, s)
  }

  lemma ReachableInv(s: State)
    requires Reachable(s)
    ensures Inv(s)
  {
    var from, steps :| Initial(from) && DisciplinedRun(from, steps, s);
    DisciplinedRunKeepsInv(from, steps, s);
  }

  /** The first start: runAsync from the beginning. */
  lemma FirstSync() returns (u: State, t: State)
    ensures u == State(1, false, false, false, InSync(Down, true, false, false), NoWorker, false) && Reaches(u, t)
    ensures t == u.(ctl := InStart(AssertRaised, false))
  {
    u := State(1, false, false, false, InSync(Down, true, false, false), NoWorker, false);
    assert QuietRun(u, [], u);
    hide Reaches;
    t := GoOn(u, u, Control);
    t := GoOn(u, t, Control);
    t := GoOn(u, t, Control);
    t := GoOn(u, t, Control);
    t := GoOn(u, t, Control);
  }

  lemma FirstCreate(u: State, before: State) returns (t: State)
    requires Reaches(u, before) && before == State(1, false, false, false, InStart(AssertRaised, false), NoWorker, false)
    ensures Reaches(u, t) && t == State(0, true, false, true, Ready, Starting, false)
  {
    hide Reaches;
    t := GoOn(u, before, Control);
    t := GoOn(u, t, Control);
    t := GoOn(u, t, Control);
    t := GoOn(u, t, Control);
    t := GoOn(u, t, Control);
    t := GoOn(u, t, Control);
    t := GoOn(u, t, Control);
    t := GoOn(u, t, Control);
  }

  /** The controller is between calls, and the worker it has started is at its work. */
  function AtWork(): State { State(1, true, true, true, Ready, Running, false) }

  lemma AtWorkIsReachable()
    ensures Reachable(AtWork())
  {
    var u, t := FirstSync();
    t := FirstCreate(u, t);
    t := UntilRunning(u, t);
    var steps :| QuietRun(u, steps, AtWork());
    QuietRunIsDisciplined(u, steps, AtWork());
    var from := State(1, false, false, false, Ready, NoWorker, false);
    assert Apply(from, CallRunAsync) == u;
    assert ([CallRunAsync] + steps)[1..] == steps;
    assert Initial(from) && DisciplinedRun(from, [CallRunAsync] + steps, AtWork());
  }

  lemma UntilRunning(u: State, before: State) returns (t: State)
    requires Reaches(u, before) && before == State(0, true, false, true, Ready, Starting, false)
    ensures Reaches(u, t) && t == AtWork()
  {
    hide Reaches;
    t := GoOn(u, before, HasStarted);
    t := GoOn(u, t, Work);
    t := GoOn(u, t, Work);
    t := GoOn(u, t, Work);
  }

  /** What the controller itself can tell is its handle: starting is safe whatever the worker is
      doing, in every state that the program gets to, if and only if the_thread is 0. */
  lemma StartIsSafeOnceJoined(handle: bool, wait: bool)
    ensures (forall s | Reachable(s) && s.ctl.Ready? && s.handle == handle :: SafeStart(s, wait)) <==> !handle
  {
    forall s | Reachable(s) && s.ctl.Ready?
      ensures SafeStart(s, wait) <==> MayStart(s)
    {
      ReachableInv(s);
      StartIsSafeIff(s, wait);
    }
    AtWorkIsReachable();
    assert !MayStart(AtWork());
    hide Reachable, SafeStart;
  }
}
