/** TimerThread on top of Task: the controller's start() and stop() around Task's, and the loop of
    run() in the worker.  Every step is one step of TaskProtocol or leaves its state alone. */
module TimerThreadProtocol {
  import opened Machine
  import opened Options
  import T = TaskProtocol

  /** Where the controller is in TimerThread's own code. */
  datatype Control =
    | Outside
    | SetExit(restart: bool)
    | Stopping(restart: bool)
    | SetFields(msec: uint32, repeat: bool)
    | ClearExit
    | Starting

  /** Where the worker is in run(); `expiry` is the local expireTime. */
  datatype Loop =
    | AtTest
    | AtSleep(expiry: uint64) | InSleep(expiry: uint64)
    | AtCheck(expiry: uint64) | AtHandler(expiry: uint64) | AtRepeat(expiry: uint64) | AtStore(expiry: uint64)
    | AtEnd

  /** What is remembered since the last start(): its tick and interval, whether the interval has
      stayed the same, whether repeating was ever asked for, and what the worker has done. */
  datatype History = History(origin: uint64, interval: int32, steady: bool, repeated: bool,
                             deadlines: seq<uint64>, calls: nat)

  datatype TimerThread = TimerThread(task: T.Task, control: Control, args: (uint32, bool), loop: Loop,
                                     exitTask: bool, repeat: bool, startTime: uint64, interval: int32,
                                     history: History)

  const FRESH := TimerThread(T.FRESH, Outside, (0, false), AtEnd, false, false, 0, 0,
                             History(0, 0, true, false, [], 0))

  datatype Step =
    | CallStart(msec: uint32, repeat: bool)
    | CallStop
    /** The setters take no lock, so any thread may call them at any time, a handler included. */
    | CallSetInterval(msec: uint32)
    | CallSetRepeat(repeat: bool)
    /** The controller goes on; `now` is the tick count if it reads the clock. */
    | Controller(ok: bool, now: uint64)
    /** The worker goes on. */
    | Worker

  // ----- the worker -----

  predicate HasCurrent(s: TimerThread) {
    s.task.workers != []
  }

  function Current(s: TimerThread): nat
    requires HasCurrent(s)
  {
    |s.task.workers| - 1
  }

  /** The step of TaskProtocol that the worker's next step is, if it is one. */
  function WorkerStep(s: TimerThread): T.Step
    requires HasCurrent(s)
  {
    if s.task.workers[Current(s)].Body?
    then T.Work(Current(s), if s.loop.AtSleep? then T.Sleep else T.Return)
    else T.Work(Current(s), T.Continue)
  }

  /** The worker is in run()'s own code and its next step touches only TimerThread's fields. */
  predicate InLoopCode(s: TimerThread) {
    HasCurrent(s) && s.task.workers[Current(s)].Body? && !s.loop.AtSleep? && !s.loop.AtEnd?
  }

  /** One step of the loop in run() between two calls into Task. */
  function LoopStep(s: TimerThread): TimerThread {
    match s.loop
    case AtTest =>
      if s.exitTask then s.(loop := AtEnd)
      else
        var expiry := (s.startTime + s.interval) % TWO64;
        s.(loop := AtSleep(expiry), history := s.history.(deadlines := s.history.deadlines + [expiry]))
    case InSleep(expiry) => s.(loop := AtCheck(expiry))
    case AtCheck(expiry) => s.(loop := if s.task.state == T.STOPPING then AtTest else AtHandler(expiry))
    case AtHandler(expiry) => s.(loop := AtRepeat(expiry), history := s.history.(calls := s.history.calls + 1))
    case AtRepeat(expiry) => s.(loop := if s.repeat then AtStore(expiry) else AtEnd)
    case AtStore(expiry) => s.(startTime := expiry, loop := AtTest)
    case _ => s
  }

  // ----- all steps -----

  predicate Enabled(s: TimerThread, step: Step) {
    match step
    case CallStart(_, _) => s.control.Outside?
    case CallStop => s.control.Outside?
    case CallSetInterval(_) => true
    case CallSetRepeat(_) => true
    case Controller(ok, _) =>
      !s.control.Outside? && ((s.control.Stopping? || s.control.Starting?) ==> T.Enabled(s.task, T.Control(ok)))
    case Worker => HasCurrent(s) && (InLoopCode(s) || T.Enabled(s.task, WorkerStep(s)))
  }

  function NextController(s: TimerThread, ok: bool, now: uint64): TimerThread
    requires Enabled(s, Controller(ok, now)) && |s.task.joins| == |s.task.workers|
  {
    match s.control
    case SetExit(restart) =>
      s.(exitTask := true, task := s.task.(pc := T.StopLock(false)), control := Stopping(restart))
    case Stopping(restart) =>
      var task := T.NextControl(s.task, ok);
      s.(task := task, control :=
        if !task.pc.Idle? then s.control else if restart then SetFields(s.args.0, s.args.1) else Outside)
    case SetFields(msec, repeat) =>
      // mIntervalMs is an int: a large unsigned argument is stored as a negative interval
      s.(repeat := repeat, startTime := now, interval := Narrow(msec), control := ClearExit,
         history := History(now, Narrow(msec), true, repeat, [], 0))
    case ClearExit =>
      s.(exitTask := false, task := s.task.(pc := T.StartLock), control := Starting)
    case Starting =>
      var task := T.NextControl(s.task, ok);
      s.(task := task,
         loop := if |task.workers| > |s.task.workers| then AtTest else s.loop,
         control := if task.pc.Idle? then Outside else s.control)
  }

  function NextWorker(s: TimerThread): TimerThread
    requires Enabled(s, Worker) && |s.task.joins| == |s.task.workers|
  {
    if InLoopCode(s) then LoopStep(s)
    else
      s.(task := T.Next(s.task, WorkerStep(s)),
         loop := if s.loop.AtSleep? then InSleep(s.loop.expiry) else s.loop)
  }

  function Next(s: TimerThread, step: Step): TimerThread
    requires Enabled(s, step) && |s.task.joins| == |s.task.workers|
  {
    match step
    case CallStart(msec, repeat) => s.(args := (msec, repeat), control := SetExit(true))
    case CallStop => s.(control := SetExit(false))
    case CallSetInterval(msec) =>
      var h := s.history;
      s.(interval := Narrow(msec), history := h.(steady := h.steady && Narrow(msec) == h.interval))
    case CallSetRepeat(repeat) =>
      s.(repeat := repeat, history := s.history.(repeated := s.history.repeated || repeat))
    case Controller(ok, now) => NextController(s, ok, now)
    case Worker => NextWorker(s)
  }

  // ----- the invariant -----

  /** TimerThread's control and Task's controller location fit together. */
  predicate ControlFits(s: TimerThread) {
    match s.control
    case Outside => s.task.pc.Idle?
    case SetExit(_) => s.task.pc.Idle?
    case Stopping(_) =>
      match s.task.pc {
        case StopLock(nested) => !nested
        case StopCheck(nested) => !nested
        case StopSignal(nested) => !nested
        case StopRelease(nested) => !nested
        case StopJoin(nested) => !nested
        case StopRelock(nested) => !nested
        case StopClear(nested) => !nested
        case StopReset(nested) => !nested
        case StopUnlock(nested) => !nested
        case _ => false
      }
    case SetFields(_, _) => s.task.pc.Idle? && T.NoWorker(s.task)
    case ClearExit => s.task.pc.Idle? && T.NoWorker(s.task)
    case Starting =>
      || ((s.task.pc.StartLock? || s.task.pc.StartCheck? || s.task.pc.StartCreate?) && T.NoWorker(s.task))
      || s.task.pc.StartMark?
      || s.task.pc.StartUnlock?
  }

  /** exitTask is set from the stop on, and cleared only while no worker is left. */
  predicate ExitFits(s: TimerThread) {
    && (s.control.Stopping? || s.control.SetFields? || s.control.ClearExit? ==> s.exitTask)
    && (s.task.state == T.STOPPING ==> s.exitTask)
  }

  /** Outside the body of run() the loop is at a sleep or at its end. */
  predicate LoopFits(s: TimerThread) {
    T.Unjoined(s.task) && !T.Last(s.task).Body? ==>
      if T.Marked(T.Last(s.task)) || T.Last(s.task).EndLock? || T.Last(s.task).EndMark? then s.loop.AtEnd?
      else s.loop.InSleep?
  }

  ghost predicate Inv(s: TimerThread) {
    T.Inv(s.task) && ControlFits(s) && ExitFits(s) && LoopFits(s)
  }

  /** The step of TaskProtocol that a step makes, if it changes that state. */
  function TaskStep(s: TimerThread, step: Step): T.Step
    requires step.Worker? ==> HasCurrent(s)
  {
    match step
    case Controller(ok, _) =>
      if s.control.SetExit? then T.CallStop else if s.control.ClearExit? then T.CallStart else T.Control(ok)
    case Worker => WorkerStep(s)
    case _ => T.CallWakeup
  }

  /** Each step leaves the state of TaskProtocol alone or is one enabled step of it. */
  lemma {:induction false} StepRefinesTask(s: TimerThread, step: Step)
    requires Inv(s) && Enabled(s, step)
    ensures var s' := Next(s, step);
      || s'.task == s.task
      || (T.Enabled(s.task, TaskStep(s, step)) && s'.task == T.Next(s.task, TaskStep(s, step)))
    ensures T.Inv(Next(s, step).task)
  {
    if T.Enabled(s.task, TaskStep(s, step)) {
      T.StepKeepsInv(s.task, TaskStep(s, step));
    }
  }

  lemma ControllerKeepsControl(s: TimerThread, ok: bool, now: uint64)
    requires Inv(s) && Enabled(s, Controller(ok, now))
    ensures ControlFits(NextController(s, ok, now))
  {
  }

  lemma ControllerKeepsExit(s: TimerThread, ok: bool, now: uint64)
    requires Inv(s) && Enabled(s, Controller(ok, now))
    ensures ExitFits(NextController(s, ok, now))
  {
  }

  lemma ControllerKeepsLoop(s: TimerThread, ok: bool, now: uint64)
    requires Inv(s) && Enabled(s, Controller(ok, now))
    ensures LoopFits(NextController(s, ok, now))
  {
  }

  lemma WorkerKeepsControl(s: TimerThread)
    requires Inv(s) && Enabled(s, Worker)
    ensures ControlFits(NextWorker(s))
  {
  }

  lemma WorkerKeepsExit(s: TimerThread)
    requires Inv(s) && Enabled(s, Worker)
    ensures ExitFits(NextWorker(s))
  {
  }

  lemma WorkerKeepsLoop(s: TimerThread)
    requires Inv(s) && Enabled(s, Worker)
    ensures LoopFits(NextWorker(s))
  {
    if !InLoopCode(s) {
      T.WorkMovesLast(s.task, Current(s), WorkerStep(s).act);
    }
  }

  lemma {:induction false} StepKeepsInv(s: TimerThread, step: Step)
    requires Inv(s) && Enabled(s, step)
    ensures Inv(Next(s, step))
  {
    StepRefinesTask(s, step);
    match step
    case Controller(ok, now) =>
      ControllerKeepsControl(s, ok, now);
      ControllerKeepsExit(s, ok, now);
      ControllerKeepsLoop(s, ok, now);
    case Worker =>
      WorkerKeepsControl(s);
      WorkerKeepsExit(s);
      WorkerKeepsLoop(s);
    case _ =>
  }

  // ----- runs, and their refinement of Task runs -----

  ghost predicate Run(s: TimerThread, steps: seq<Step>)
    requires Inv(s)
    decreases |steps|
  {
    steps == [] || (Enabled(s, steps[0]) && (StepKeepsInv(s, steps[0]); Run(Next(s, steps[0]), steps[1..])))
  }

  ghost function Exec(s: TimerThread, steps: seq<Step>): TimerThread
    requires Inv(s) && Run(s, steps)
    decreases |steps|
  {
    if steps == [] then s else StepKeepsInv(s, steps[0]); Exec(Next(s, steps[0]), steps[1..])
  }

  /** Every run of a TimerThread projects to a run of TaskProtocol. */
  lemma {:induction false} RunRefinesTask(s: TimerThread, steps: seq<Step>) returns (tasks: seq<T.Step>)
    requires Inv(s) && Run(s, steps)
    ensures T.Run(s.task, tasks) && T.Exec(s.task, tasks) == Exec(s, steps).task
    decreases |steps|
  {
    if steps == [] {
      return [];
    }
    var s', one := Next(s, steps[0]), TaskStep(s, steps[0]);
    StepKeepsInv(s, steps[0]);
    StepRefinesTask(s, steps[0]);
    var tail := RunRefinesTask(s', steps[1..]);
    if s'.task == s.task {
      tasks := tail;
    } else {
      tasks := [one] + tail;
      assert tasks[1..] == tail && T.Enabled(s.task, one) && T.Next(s.task, one) == s'.task;
    }
  }

  // ----- quiescence -----

  /** No worker is left and the controller is not on its way to a new one. */
  predicate Silent(s: TimerThread) {
    !T.Unjoined(s.task) && (s.control.Outside? || s.control == SetExit(false) || s.control == Stopping(false))
  }

  /** When stop() returns the TimerThread is silent. */
  lemma StopSilences(s: TimerThread, ok: bool, now: uint64)
    requires Inv(s) && s.control == Stopping(false) && Enabled(s, Controller(ok, now))
    requires Next(s, Controller(ok, now)).control.Outside?
    ensures Silent(Next(s, Controller(ok, now))) && Next(s, Controller(ok, now)).task.state == T.INIT
  {
  }

  lemma SilentStep(s: TimerThread, step: Step)
    requires Inv(s) && Enabled(s, step) && Silent(s) && !step.CallStart?
    ensures Silent(Next(s, step)) && Next(s, step).history.calls == s.history.calls && !step.Worker?
  {
  }

  /** Until the next start(), a silent TimerThread calls no handler, whatever else is called. */
  lemma {:induction false} SilentUntilStart(s: TimerThread, steps: seq<Step>)
    requires Inv(s) && Run(s, steps) && Silent(s)
    requires forall i :: 0 <= i < |steps| ==> !steps[i].CallStart?
    ensures Silent(Exec(s, steps)) && Exec(s, steps).history.calls == s.history.calls
    decreases |steps|
  {
    if steps != [] {
      StepKeepsInv(s, steps[0]);
      SilentStep(s, steps[0]);
      SilentUntilStart(Next(s, steps[0]), steps[1..]);
    }
  }

  /** exitTask goes back to false only when every worker ever created has been joined. */
  lemma ExitClearedWithoutWorkers(s: TimerThread, step: Step)
    requires Inv(s) && Enabled(s, step) && s.exitTask && !Next(s, step).exitTask
    ensures forall i :: 0 <= i < |s.task.workers| ==> s.task.workers[i].Joined?
  {
  }

  // ----- schedule -----

  /** The k-th deadline after the start, in 64 bits. */
  function Deadline(h: History, k: nat): uint64 {
    (h.origin + k * h.interval) % TWO64
  }

  lemma {:induction false} NextDeadline(h: History, k: nat)
    ensures (Deadline(h, k) + h.interval) % TWO64 == Deadline(h, k + 1)
  {
    ModAdd(h.origin + k * h.interval, h.interval);
    assert (k + 1) * h.interval == k * h.interval + h.interval;
  }

  lemma ModAdd(x: int, y: int)
    ensures (x % TWO64 + y) % TWO64 == (x + y) % TWO64
  {
  }

  /** The local expireTime in run(), where the loop has one. */
  function Pending(l: Loop): Option<uint64> {
    match l
    case AtSleep(e) => Some(e)
    case InSleep(e) => Some(e)
    case AtCheck(e) => Some(e)
    case AtHandler(e) => Some(e)
    case AtRepeat(e) => Some(e)
    case AtStore(e) => Some(e)
    case _ => None
  }

  /** The fields are set for a start and no worker has run yet. */
  predicate Prepared(s: TimerThread) {
    s.control.ClearExit? || (s.control.Starting? && !T.Unjoined(s.task) && !s.task.pc.StartUnlock?)
  }

  /** With a steady interval every deadline computed so far lies on the grid of the start. */
  ghost predicate OnGrid(s: TimerThread) {
    var h := s.history;
    h.steady ==>
      && s.interval == h.interval
      && (forall k :: 0 <= k < |h.deadlines| ==> h.deadlines[k] == Deadline(h, k + 1))
      && (Prepared(s) ==> h.deadlines == [] && s.startTime == Deadline(h, 0))
      && (T.Unjoined(s.task) ==>
            && (Pending(s.loop).Some? ==> Pending(s.loop).value == Deadline(h, |h.deadlines|))
            && (s.loop.AtTest? ==> s.exitTask || s.startTime == Deadline(h, |h.deadlines|)))
  }

  /** Without a request to repeat, the handler is called at most once, and not before its turn. */
  predicate CalledOnce(s: TimerThread) {
    var h := s.history;
    && (s.repeat ==> h.repeated)
    && (!h.repeated ==>
          && h.calls <= 1
          && (Prepared(s) ==> h.calls == 0)
          && (T.Unjoined(s.task) ==>
                !s.loop.AtStore? && (s.loop.AtEnd? || s.loop.AtRepeat? || h.calls == 0)))
  }

  /** The controller makes a worker only in pthread_create. */
  lemma ControlMakesNoWorker(t: T.Task, ok: bool)
    requires T.Inv(t) && T.Enabled(t, T.Control(ok)) && !t.pc.StartCreate?
    ensures T.Unjoined(T.NextControl(t, ok)) ==> T.Unjoined(t)
    ensures |T.NextControl(t, ok).workers| == |t.workers|
  {
  }

  lemma ControllerKeepsOnGrid(s: TimerThread, ok: bool, now: uint64)
    requires Inv(s) && Enabled(s, Controller(ok, now)) && OnGrid(s)
    ensures OnGrid(NextController(s, ok, now))
  {
    match s.control
    case SetExit(_) =>
    case Stopping(_) => ControlMakesNoWorker(s.task, ok);
    case SetFields(msec, repeat) =>
      assert Deadline(History(now, Narrow(msec), true, repeat, [], 0), 0) == now;
    case ClearExit =>
    case Starting =>
      if !s.task.pc.StartCreate? { ControlMakesNoWorker(s.task, ok); }
  }

  /** One step of the loop keeps its deadlines on the grid. */
  lemma {:induction false} LoopKeepsOnGrid(s: TimerThread)
    requires OnGrid(s) && InLoopCode(s) && T.Unjoined(s.task) && !Prepared(s)
    requires s.task.state == T.STOPPING ==> s.exitTask
    ensures OnGrid(LoopStep(s))
  {
    NextDeadline(s.history, |s.history.deadlines|);
  }

  lemma {:induction false} WorkerKeepsOnGrid(s: TimerThread)
    requires Inv(s) && Enabled(s, Worker) && OnGrid(s)
    ensures OnGrid(NextWorker(s))
  {
    if InLoopCode(s) {
      LoopKeepsOnGrid(s);
    }
  }

  lemma {:induction false} StepKeepsOnGrid(s: TimerThread, step: Step)
    requires Inv(s) && Enabled(s, step) && OnGrid(s)
    ensures OnGrid(Next(s, step))
  {
    match step
    case Controller(ok, now) => ControllerKeepsOnGrid(s, ok, now);
    case Worker => WorkerKeepsOnGrid(s);
    case _ =>
  }

  lemma StepKeepsCalledOnce(s: TimerThread, step: Step)
    requires Inv(s) && Enabled(s, step) && CalledOnce(s)
    ensures CalledOnce(Next(s, step))
  {
    match step
    case Controller(ok, now) => ControllerKeepsCalledOnce(s, ok, now);
    case Worker => WorkerKeepsCalledOnce(s);
    case _ =>
  }

  lemma ControllerKeepsCalledOnce(s: TimerThread, ok: bool, now: uint64)
    requires Inv(s) && Enabled(s, Controller(ok, now)) && CalledOnce(s)
    ensures CalledOnce(NextController(s, ok, now))
  {
    if (s.control.Stopping? || s.control.Starting?) && !s.task.pc.StartCreate? {
      ControlMakesNoWorker(s.task, ok);
    }
  }

  lemma WorkerKeepsCalledOnce(s: TimerThread)
    requires Inv(s) && Enabled(s, Worker) && CalledOnce(s)
    ensures CalledOnce(NextWorker(s))
  {
  }

  /** Over every run: while the interval stays what start() was given, the k-th deadline computed is
      the start tick plus k intervals, with no drift; and a start that is never asked to repeat calls
      the handler at most once. */
  lemma {:induction false} ScheduleOverRuns(s: TimerThread, steps: seq<Step>)
    requires Inv(s) && Run(s, steps) && OnGrid(s) && CalledOnce(s)
    ensures OnGrid(Exec(s, steps)) && CalledOnce(Exec(s, steps))
    decreases |steps|
  {
    if steps != [] {
      StepKeepsInv(s, steps[0]);
      StepKeepsOnGrid(s, steps[0]);
      StepKeepsCalledOnce(s, steps[0]);
      ScheduleOverRuns(Next(s, steps[0]), steps[1..]);
    }
  }

  lemma FreshIsReady()
    ensures Inv(FRESH) && OnGrid(FRESH) && CalledOnce(FRESH)
  {
  }
}
