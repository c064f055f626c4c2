/** The life cycle of a Task as an interleaving of one controller thread, which calls start() and
    stop(), with the worker threads it creates.  A step is what a thread does between two points at
    which another thread can see a difference: taking or giving up the lock, reading or writing
    mState or mId, signalling, joining. */
module TaskProtocol {
  import opened Options

  datatype TaskState = INIT | RUNNING | STOPPING | STOPPED

  datatype Owner = Free | ByController | ByWorker(index: nat)

  /** Where the controller is.  `nested` marks a stop() called from inside start(). */
  datatype Controller =
    | Idle
    | StartLock | StartCheck | StartRelock | StartCreate | StartMark | StartUnlock(ok: bool)
    | StopLock(nested: bool) | StopCheck(nested: bool) | StopSignal(nested: bool) | StopRelease(nested: bool)
    | StopJoin(nested: bool) | StopRelock(nested: bool) | StopClear(nested: bool) | StopReset(nested: bool)
    | StopUnlock(nested: bool)

  /** Where a worker is: in the body of run(), inside sleep(), in the epilogue, or gone. */
  datatype Worker =
    | Body
    | SleepLock | SleepCheck | CondWait(signalled: bool) | CondRelock | SleepUnlock
    | EndLock | EndMark | EndUnlock
    | Exited | Joined

  /** `joins` counts how often each worker has been joined. */
  datatype Task = Task(state: TaskState, id: Option<nat>, lock: Owner, pc: Controller,
                       workers: seq<Worker>, joins: seq<nat>)

  const FRESH := Task(INIT, None, Free, Idle, [], [])

  datatype Act = Sleep | Return | Continue

  datatype Step =
    | CallStart
    | CallStop
    /** wakeup() takes no lock, so any thread may call it at any time. */
    | CallWakeup
    /** The controller goes on; `ok` is what onPreStart and pthread_create answer when asked. */
    | Control(ok: bool)
    | Work(index: nat, act: Act)

  predicate ControllerHolds(pc: Controller) {
    pc.StartCheck? || pc.StartCreate? || pc.StartMark? || pc.StartUnlock? || pc.StopCheck? || pc.StopSignal?
    || pc.StopRelease? || pc.StopClear? || pc.StopReset? || pc.StopUnlock?
  }

  predicate WorkerHolds(w: Worker) {
    w.SleepCheck? || w.SleepUnlock? || w.EndMark? || w.EndUnlock?
  }

  predicate Alive(w: Worker) {
    !w.Exited? && !w.Joined?
  }

  predicate Enabled(t: Task, step: Step) {
    match step
    case CallStart => t.pc.Idle?
    case CallStop => t.pc.Idle?
    case CallWakeup => true
    case Control(_) =>
      (match t.pc
       case Idle => false
       case StartLock => t.lock.Free?
       case StartRelock => t.lock.Free?
       case StopLock(_) => t.lock.Free?
       case StopRelock(_) => t.lock.Free?
       case StopJoin(_) => t.id.Some? && t.id.value < |t.workers| && !Alive(t.workers[t.id.value])
       case _ => true)
    case Work(i, act) =>
      && i < |t.workers|
      && (match t.workers[i]
          case Body => act.Sleep? || act.Return?
          case SleepLock => act.Continue? && t.lock.Free?
          case CondRelock => act.Continue? && t.lock.Free?
          case EndLock => act.Continue? && t.lock.Free?
          case Exited => false
          case Joined => false
          case _ => act.Continue?)
  }

  /** pthread_cond_signal: the waiting worker gets a wakeup. */
  function Signal(workers: seq<Worker>): (r: seq<Worker>)
    ensures |r| == |workers|
    ensures forall i :: 0 <= i < |r| ==> r[i] == if workers[i].CondWait? then CondWait(true) else workers[i]
  {
    seq(|workers|, i requires 0 <= i < |workers| => if workers[i].CondWait? then CondWait(true) else workers[i])
  }

  function AfterStop(nested: bool): Controller {
    if nested then StartRelock else Idle
  }

  function NextControl(t: Task, ok: bool): Task
    requires Enabled(t, Control(ok)) && |t.joins| == |t.workers|
  {
    match t.pc
    case StartLock => t.(lock := ByController, pc := StartCheck)
    case StartCheck =>
      if t.state == STOPPED then t.(lock := Free, pc := StopLock(true))
      else if t.state == INIT then t.(pc := StartCreate)
      else t.(pc := StartUnlock(false))
    case StartRelock => t.(lock := ByController, pc := StartCreate)
    case StartCreate =>
      if ok then t.(id := Some(|t.workers|), workers := t.workers + [Body], joins := t.joins + [0], pc := StartMark)
      else t.(pc := StartUnlock(false))
    case StartMark => t.(state := RUNNING, pc := StartUnlock(true))
    case StartUnlock(_) => t.(lock := Free, pc := Idle)
    case StopLock(n) => t.(lock := ByController, pc := StopCheck(n))
    case StopCheck(n) =>
      if t.state != RUNNING && t.state != STOPPED then t.(pc := StopUnlock(n))
      else t.(state := STOPPING, pc := StopSignal(n))
    case StopSignal(n) => t.(workers := Signal(t.workers), pc := StopRelease(n))
    case StopRelease(n) =>
      if t.id != None then t.(lock := Free, pc := StopJoin(n)) else t.(pc := StopReset(n))
    case StopJoin(n) =>
      var i := t.id.value;
      t.(workers := t.workers[i := Joined], joins := t.joins[i := t.joins[i] + 1], pc := StopRelock(n))
    case StopRelock(n) => t.(lock := ByController, pc := StopClear(n))
    case StopClear(n) => t.(id := None, pc := StopReset(n))
    case StopReset(n) => t.(state := INIT, pc := StopUnlock(n))
    case StopUnlock(n) => t.(lock := Free, pc := AfterStop(n))
  }

  function NextWork(t: Task, i: nat, act: Act): Task
    requires Enabled(t, Work(i, act))
  {
    match t.workers[i]
    case Body => t.(workers := t.workers[i := if act.Sleep? then SleepLock else EndLock])
    case SleepLock => t.(lock := ByWorker(i), workers := t.workers[i := SleepCheck])
    case SleepCheck =>
      if t.state == STOPPING then t.(workers := t.workers[i := SleepUnlock])
      else if t.id == Some(i) then t.(lock := Free, workers := t.workers[i := CondWait(false)])
      else t.(workers := t.workers[i := SleepUnlock])
    // by a signal, by the timeout, or spuriously
    case CondWait(_) => t.(workers := t.workers[i := CondRelock])
    case CondRelock => t.(lock := ByWorker(i), workers := t.workers[i := SleepUnlock])
    case SleepUnlock => t.(lock := Free, workers := t.workers[i := Body])
    case EndLock => t.(lock := ByWorker(i), workers := t.workers[i := EndMark])
    case EndMark => t.(state := STOPPED, workers := t.workers[i := EndUnlock])
    case EndUnlock => t.(lock := Free, workers := t.workers[i := Exited])
  }

  function Next(t: Task, step: Step): Task
    requires Enabled(t, step) && |t.joins| == |t.workers|
  {
    match step
    case CallStart => t.(pc := StartLock)
    case CallStop => t.(pc := StopLock(false))
    case CallWakeup => t.(workers := Signal(t.workers))
    case Control(ok) => NextControl(t, ok)
    case Work(i, act) => NextWork(t, i, act)
  }

  // ----- the invariant -----

  /** The worker created last. */
  function Last(t: Task): Worker
    requires t.workers != []
  {
    t.workers[|t.workers|-1]
  }

  /** The worker created last has not been joined. */
  predicate Unjoined(t: Task) {
    t.workers != [] && !Last(t).Joined?
  }

  /** The worker has written STOPPED. */
  predicate Marked(w: Worker) {
    w.EndUnlock? || w.Exited? || w.Joined?
  }

  ghost predicate LockAgrees(t: Task) {
    && (t.lock == ByController <==> ControllerHolds(t.pc))
    && (forall i :: 0 <= i < |t.workers| ==> (t.lock == ByWorker(i) <==> WorkerHolds(t.workers[i])))
    && (t.lock.ByWorker? ==> t.lock.index < |t.workers|)
  }

  /** Every worker before the last has been joined, and joined means once. */
  ghost predicate JoinsAgree(t: Task) {
    && |t.joins| == |t.workers|
    && (forall i :: 0 <= i < |t.workers| ==> t.joins[i] == if t.workers[i].Joined? then 1 else 0)
    && (forall i :: 0 <= i < |t.workers| - 1 ==> t.workers[i].Joined?)
  }

  predicate NoWorker(t: Task) {
    t.state == INIT && t.id == None && !Unjoined(t)
  }

  predicate HasWorker(t: Task) {
    t.workers != [] && t.id == Some(|t.workers| - 1)
  }

  /** mState tells what the worker is doing while the controller is outside stop(). */
  predicate AtRest(t: Task) {
    || NoWorker(t)
    || (t.state == RUNNING && HasWorker(t) && !Marked(Last(t)))
    || (t.state == STOPPED && HasWorker(t) && Marked(Last(t)) && Unjoined(t))
  }

  predicate Phase(t: Task) {
    match t.pc
    case Idle => AtRest(t)
    case StartLock => AtRest(t)
    case StartCheck => AtRest(t)
    case StartRelock => NoWorker(t)
    case StartCreate => NoWorker(t)
    case StartMark => t.state == INIT && HasWorker(t) && !Marked(Last(t))
    case StartUnlock(ok) => AtRest(t) && (ok ==> t.state == RUNNING)
    case StopLock(nested) => AtRest(t) && (nested ==> t.state == STOPPED)
    case StopCheck(nested) => AtRest(t) && (nested ==> t.state == STOPPED)
    case StopSignal(_) => t.state == STOPPING && HasWorker(t) && Unjoined(t)
    case StopRelease(_) => t.state == STOPPING && HasWorker(t) && Unjoined(t) && Last(t) != CondWait(false)
    case StopJoin(_) =>
      && HasWorker(t) && Unjoined(t) && Last(t) != CondWait(false)
      && (t.state == STOPPING || (t.state == STOPPED && Marked(Last(t))))
    case StopRelock(_) => HasWorker(t) && Last(t).Joined?
    case StopClear(_) => HasWorker(t) && Last(t).Joined?
    case StopReset(_) => t.id == None && !Unjoined(t)
    case StopUnlock(_) => NoWorker(t)
  }

  ghost predicate Inv(t: Task) {
    LockAgrees(t) && JoinsAgree(t) && Phase(t)
  }

  lemma ControlKeepsLock(t: Task, ok: bool)
    requires Inv(t) && Enabled(t, Control(ok))
    ensures LockAgrees(NextControl(t, ok))
  {
  }

  lemma ControlKeepsJoins(t: Task, ok: bool)
    requires Inv(t) && Enabled(t, Control(ok))
    ensures JoinsAgree(NextControl(t, ok))
  {
  }

  lemma ControlKeepsPhase(t: Task, ok: bool)
    requires Inv(t) && Enabled(t, Control(ok))
    ensures Phase(NextControl(t, ok))
  {
  }

  /** Only the last worker can move, and it moves alone. */
  lemma WorkMovesLast(t: Task, i: nat, act: Act)
    requires Inv(t) && Enabled(t, Work(i, act))
    ensures i == |t.workers| - 1 && HasWorker(t) && Unjoined(t)
    ensures NextWork(t, i, act).workers == t.workers[i := NextWork(t, i, act).workers[i]]
  {
  }

  lemma WorkKeepsLock(t: Task, i: nat, act: Act)
    requires Inv(t) && Enabled(t, Work(i, act))
    ensures LockAgrees(NextWork(t, i, act))
  {
    WorkMovesLast(t, i, act);
  }

  lemma WorkKeepsJoins(t: Task, i: nat, act: Act)
    requires Inv(t) && Enabled(t, Work(i, act))
    ensures JoinsAgree(NextWork(t, i, act))
  {
  }

  lemma WorkKeepsPhase(t: Task, i: nat, act: Act)
    requires Inv(t) && Enabled(t, Work(i, act))
    ensures Phase(NextWork(t, i, act))
  {
    WorkMovesLast(t, i, act);
  }

  lemma SignalKeepsInv(t: Task)
    requires Inv(t)
    ensures Inv(t.(workers := Signal(t.workers)))
  {
  }

  lemma {:induction false} StepKeepsInv(t: Task, step: Step)
    requires Inv(t) && Enabled(t, step)
    ensures Inv(Next(t, step))
  {
    match step
    case CallStart =>
    case CallStop =>
    case CallWakeup => SignalKeepsInv(t);
    case Control(ok) =>
      ControlKeepsLock(t, ok);
      ControlKeepsJoins(t, ok);
      ControlKeepsPhase(t, ok);
    case Work(i, act) =>
      WorkKeepsLock(t, i, act);
      WorkKeepsJoins(t, i, act);
      WorkKeepsPhase(t, i, act);
  }

  // ----- runs -----

  ghost predicate Run(t: Task, steps: seq<Step>)
    requires Inv(t)
    decreases |steps|
  {
    steps == [] || (Enabled(t, steps[0]) && (StepKeepsInv(t, steps[0]); Run(Next(t, steps[0]), steps[1..])))
  }

  ghost function Exec(t: Task, steps: seq<Step>): Task
    requires Inv(t) && Run(t, steps)
    decreases |steps|
  {
    if steps == [] then t else StepKeepsInv(t, steps[0]); Exec(Next(t, steps[0]), steps[1..])
  }

  lemma {:induction false} InvOverRuns(t: Task, steps: seq<Step>)
    requires Inv(t) && Run(t, steps)
    ensures Inv(Exec(t, steps))
    decreases |steps|
  {
    if steps != [] {
      StepKeepsInv(t, steps[0]);
      InvOverRuns(Next(t, steps[0]), steps[1..]);
    }
  }

  // ----- what every reachable state satisfies -----

  ghost predicate Reachable(t: Task) {
    exists steps :: Run(FRESH, steps) && Exec(FRESH, steps) == t
  }

  lemma ReachableInv(t: Task)
    requires Reachable(t)
    ensures Inv(t)
  {
    var steps :| Run(FRESH, steps) && Exec(FRESH, steps) == t;
    InvOverRuns(FRESH, steps);
  }

  /** At most one worker is alive. */
  lemma AtMostOneAlive(t: Task, i: nat, j: nat)
    requires Reachable(t) && i < |t.workers| && j < |t.workers| && Alive(t.workers[i]) && Alive(t.workers[j])
    ensures i == j
  {
    ReachableInv(t);
  }

  /** A worker is created only when every earlier one has been joined, exactly once. */
  lemma JoinedBeforeNextCreate(t: Task, step: Step)
    requires Reachable(t) && Enabled(t, step) && |t.joins| == |t.workers|
    requires |Next(t, step).workers| > |t.workers|
    ensures forall i :: 0 <= i < |t.workers| ==> t.workers[i].Joined? && t.joins[i] == 1
  {
    ReachableInv(t);
  }

  /** No thread is ever joined twice. */
  lemma JoinedAtMostOnce(t: Task, i: nat)
    requires Reachable(t) && i < |t.joins|
    ensures t.joins[i] <= 1
  {
    ReachableInv(t);
  }

  /** When stop() returns, the state is INIT and every worker ever created has been joined. */
  lemma StopReturnsInInit(t: Task, step: Step)
    requires Reachable(t) && t.pc.StopUnlock? && step.Control? && |t.joins| == |t.workers|
    ensures var t' := Next(t, step);
      && t'.state == INIT && t'.id == None && t'.lock == Free
      && forall i :: 0 <= i < |t'.workers| ==> t'.workers[i].Joined? && t'.joins[i] == 1
  {
    ReachableInv(t);
  }

  /** While the controller joins, no worker is left in the condition wait without a wakeup, a worker
      that sleeps again is sent back at once, and mState can only have become STOPPED by the
      worker's own end. */
  lemma NoLostWakeup(t: Task, i: nat)
    requires Reachable(t) && t.pc.StopJoin? && i < |t.workers|
    ensures t.workers[i] != CondWait(false)
    ensures t.workers[i].SleepCheck? ==>
      Enabled(t, Work(i, Continue)) && NextWork(t, i, Continue).workers[i] == SleepUnlock
    ensures t.state == STOPPING || (t.state == STOPPED && Marked(t.workers[|t.workers|-1]))
  {
    ReachableInv(t);
  }

  /** While the controller joins, the worker that it waits for can take a step that is no new sleep, or
      is gone. */
  lemma JoinNeverStuck(t: Task)
    requires Reachable(t) && t.pc.StopJoin?
    ensures t.id.Some? && t.id.value < |t.workers|
    ensures Enabled(t, Control(true)) || exists act: Act :: !act.Sleep? && Enabled(t, Work(t.id.value, act))
  {
    ReachableInv(t);
    if Alive(Last(t)) {
      var act := if Last(t).Body? then Return else Continue;
      assert t.lock.Free? || WorkerHolds(Last(t));
      assert Enabled(t, Work(t.id.value, act));
    }
  }

  /** How many steps of its own the worker is from its end when it is told to stop. */
  function Remaining(w: Worker): nat {
    match w
    case SleepLock => 7
    case SleepCheck => 6
    case CondWait(_) => 7
    case CondRelock => 6
    case SleepUnlock => 5
    case Body => 4
    case EndLock => 3
    case EndMark => 2
    case EndUnlock => 1
    case Exited => 0
    case Joined => 0
  }

  /** The steps that workers take in a run, and how many of them go to sleep. */
  function Works(steps: seq<Step>): nat {
    if steps == [] then 0 else (if steps[0].Work? then 1 else 0) + Works(steps[1..])
  }

  function Sleeps(steps: seq<Step>): nat {
    if steps == [] then 0 else (if steps[0].Work? && steps[0].act.Sleep? then 1 else 0) + Sleeps(steps[1..])
  }

  lemma StepInJoin(t: Task, step: Step)
    requires Inv(t) && t.pc.StopJoin? && Enabled(t, step) && !step.Control?
    ensures var t' := Next(t, step);
      && t'.pc == t.pc && t'.workers != []
      && Works([step]) + Remaining(Last(t')) == Remaining(Last(t)) + 4 * Sleeps([step])
  {
    if step.Work? { WorkMovesLast(t, step.index, step.act); }
    assert [step][1..] == [];
  }

  lemma {:induction false} JoinAccount(t: Task, steps: seq<Step>)
    requires Inv(t) && t.pc.StopJoin? && Run(t, steps)
    requires forall i :: 0 <= i < |steps| ==> !steps[i].Control?
    ensures var t' := Exec(t, steps);
      && Inv(t') && t'.pc == t.pc
      && Works(steps) + Remaining(Last(t')) == Remaining(Last(t)) + 4 * Sleeps(steps)
    decreases |steps|
  {
    if steps != [] {
      StepKeepsInv(t, steps[0]);
      StepInJoin(t, steps[0]);
      JoinAccount(Next(t, steps[0]), steps[1..]);
      assert [steps[0]][1..] == [];
    }
  }

  lemma JoinEnabledIff(t: Task)
    requires Inv(t) && t.pc.StopJoin?
    ensures Remaining(Last(t)) <= 7 && (Enabled(t, Control(true)) <==> Remaining(Last(t)) == 0)
  {
  }

  /** Over every run of the other threads during the join: it can complete exactly when the worker has
      taken its remaining steps, at most 7, and 4 more for every sleep that its body has tried. */
  lemma JoinCompletesIff(t: Task, steps: seq<Step>)
    requires Inv(t) && t.pc.StopJoin? && Run(t, steps)
    requires forall i :: 0 <= i < |steps| ==> !steps[i].Control?
    ensures var due := Remaining(Last(t)) + 4 * Sleeps(steps);
      && Works(steps) <= due <= 7 + 4 * Sleeps(steps)
      && (Enabled(Exec(t, steps), Control(true)) <==> Works(steps) == due)
  {
    JoinAccount(t, steps);
    JoinEnabledIff(Exec(t, steps));
  }
}
