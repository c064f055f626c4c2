/** What start(), sleep() and wakeup() of a Task achieve, over every interleaving with the workers. */
module TaskLaws {
  import opened Options
  import opened TaskProtocol

  // ----- start() creates a worker -----

  /** Steps while the controller is inside one call: what it asks is answered with true, the other
      threads do what they like, and it makes no other call. */
  ghost predicate OneCall(steps: seq<Step>) {
    forall i :: 0 <= i < |steps| ==>
      !steps[i].CallStart? && !steps[i].CallStop? && (steps[i].Control? ==> steps[i].ok)
  }

  /** The worker number n has been created and not joined, mId names it, and mState is RUNNING, or
      STOPPED if it has marked its end. */
  predicate Created(t: Task, n: nat) {
    && |t.workers| == n + 1 && |t.joins| == n + 1 && t.id == Some(n)
    && !t.workers[n].Joined? && t.joins[n] == 0
    && t.state == if Marked(t.workers[n]) then STOPPED else RUNNING
  }

  /** Where a start() with n workers behind it stands. */
  predicate Starting(t: Task, n: nat) {
    match t.pc
    case StartLock => |t.workers| == n && (t.state == INIT || t.state == STOPPED)
    case StartCheck => |t.workers| == n && (t.state == INIT || t.state == STOPPED)
    case StopLock(nested) => nested && |t.workers| == n
    case StopCheck(nested) => nested && |t.workers| == n
    case StopSignal(nested) => nested && |t.workers| == n
    case StopRelease(nested) => nested && |t.workers| == n
    case StopJoin(nested) => nested && |t.workers| == n
    case StopRelock(nested) => nested && |t.workers| == n
    case StopClear(nested) => nested && |t.workers| == n
    case StopReset(nested) => nested && |t.workers| == n
    case StopUnlock(nested) => nested && |t.workers| == n
    case StartRelock => |t.workers| == n
    case StartCreate => |t.workers| == n
    case StartMark => |t.workers| == n + 1
    case StartUnlock(ok) => ok && Created(t, n)
    case Idle => Created(t, n)
  }

  lemma ControlKeepsStarting(t: Task, n: nat)
    requires Inv(t) && Starting(t, n) && Enabled(t, Control(true))
    ensures Starting(NextControl(t, true), n)
  {
    ControlKeepsPhase(t, true);
    ControlKeepsJoins(t, true);
  }

  lemma WorkKeepsStarting(t: Task, n: nat, i: nat, act: Act)
    requires Inv(t) && Starting(t, n) && Enabled(t, Work(i, act))
    ensures Starting(NextWork(t, i, act), n)
  {
    WorkMovesLast(t, i, act);
    WorkKeepsPhase(t, i, act);
    WorkKeepsJoins(t, i, act);
  }

  lemma StepKeepsStarting(t: Task, n: nat, step: Step)
    requires Inv(t) && Starting(t, n) && Enabled(t, step)
    requires !step.CallStart? && !step.CallStop? && (step.Control? ==> step.ok)
    ensures Starting(Next(t, step), n)
  {
    match step
    case CallWakeup =>
    case Control(ok) => ControlKeepsStarting(t, n);
    case Work(i, act) => WorkKeepsStarting(t, n, i, act);
  }

  lemma {:induction false} RunKeepsStarting(t: Task, n: nat, steps: seq<Step>)
    requires Inv(t) && Starting(t, n) && Run(t, steps) && OneCall(steps)
    ensures Starting(Exec(t, steps), n)
    decreases |steps|
  {
    if steps != [] {
      StepKeepsStarting(t, n, steps[0]);
      StepKeepsInv(t, steps[0]);
      RunKeepsStarting(Next(t, steps[0]), n, steps[1..]);
    }
  }

  /** From a reachable idle task in INIT or STOPPED, over every interleaving: a start() whose onPreStart
      and pthread_create succeed is on its way out with true once the worker is marked as running, and
      when it has returned there is exactly one worker more, running or just ended, and not joined. */
  lemma {:induction false} StartCreates(t: Task, steps: seq<Step>)
    requires Reachable(t) && Inv(t) && t.pc.Idle? && (t.state == INIT || t.state == STOPPED)
    requires Run(t, [CallStart] + steps) && OneCall(steps)
    ensures var t' := Exec(t, [CallStart] + steps);
      && (t'.pc.StartUnlock? ==> t'.pc.ok && Created(t', |t.workers|))
      && (t'.pc.Idle? ==> Created(t', |t.workers|))
  {
    var t1 := Next(t, CallStart);
    StepKeepsInv(t, CallStart);
    assert ([CallStart] + steps)[1..] == steps;
    RunKeepsStarting(t1, |t.workers|, steps);
  }

  /** The run of these steps ends in the given state. */
  ghost predicate RunsTo(t: Task, steps: seq<Step>, last: Task) {
    Inv(t) && Run(t, steps) && Exec(t, steps) == last
  }

  lemma StepThen(t: Task, step: Step, steps: seq<Step>, last: Task)
    requires Inv(t) && Enabled(t, step) && RunsTo(Next(t, step), steps, last)
    ensures RunsTo(t, [step] + steps, last)
  {
    assert ([step] + steps)[1..] == steps;
  }

  /** n steps of the controller, all answered with true. */
  function Controls(n: nat): seq<Step> {
    if n == 0 then [] else [Control(true)] + Controls(n - 1)
  }

  lemma ControlThen(t: Task, n: nat, last: Task)
    requires Inv(t) && Enabled(t, Control(true))
    requires Inv(NextControl(t, true)) ==> RunsTo(NextControl(t, true), Controls(n), last)
    ensures RunsTo(t, Controls(n + 1), last)
  {
    StepKeepsInv(t, Control(true));
    StepThen(t, Control(true), Controls(n), last);
  }

  /** Left alone, a start() in INIT returns behind five steps of its own, with its worker. */
  lemma StartReturns(t: Task)
    requires Inv(t) && t.pc.Idle? && t.state == INIT && t.lock == Free
    ensures var steps := [CallStart] + Controls(5);
      Run(t, steps) && Exec(t, steps).pc == Idle && Created(Exec(t, steps), |t.workers|)
  {
    StepKeepsInv(t, CallStart);
    FromLock(Next(t, CallStart));
    StepThen(t, CallStart, Controls(5), Started(Next(t, CallStart)));
  }

  /** What is left by a start() that is alone. */
  function Started(t: Task): Task {
    t.(pc := Idle, lock := Free, state := RUNNING, id := Some(|t.workers|),
       workers := t.workers + [Body], joins := t.joins + [0])
  }

  lemma FromLock(t: Task)
    requires Inv(t) && t.pc.StartLock? && t.state == INIT && t.lock == Free
    ensures RunsTo(t, Controls(5), Started(t))
  {
    var t1 := NextControl(t, true);
    StepKeepsInv(t, Control(true));
    var t2 := NextControl(t1, true);
    StepKeepsInv(t1, Control(true));
    FromCreate(t2);
    ControlThen(t1, 3, Started(t));
    ControlThen(t, 4, Started(t));
  }

  lemma FromCreate(t: Task)
    requires Inv(t) && t.pc.StartCreate?
    ensures RunsTo(t, Controls(3), Started(t))
  {
    var t1 := NextControl(t, true);
    StepKeepsInv(t, Control(true));
    var t2 := NextControl(t1, true);
    StepKeepsInv(t1, Control(true));
    var t3 := NextControl(t2, true);
    StepKeepsInv(t2, Control(true));
    assert t3 == Started(t) && RunsTo(t3, Controls(0), t3);
    ControlThen(t2, 0, t3);
    ControlThen(t1, 1, t3);
    ControlThen(t, 2, t3);
  }

  // ----- start() that refuses -----

  /** A start() that finds the task running, or whose onPreStart or pthread_create fails, goes out with
      false and has created no worker. */
  lemma StartRefuses(t: Task, ok: bool)
    requires Inv(t) && Enabled(t, Control(ok))
    requires (t.pc.StartCheck? && t.state != INIT && t.state != STOPPED) || (t.pc.StartCreate? && !ok)
    ensures var t' := NextControl(t, ok);
      t'.pc == StartUnlock(false) && t'.workers == t.workers && t'.state == t.state && t'.id == t.id
  {
  }

  /** On its way out it creates none either, over every interleaving. */
  lemma {:induction false} RefusedCreatesNone(t: Task, steps: seq<Step>)
    requires Inv(t) && Run(t, steps) && (t.pc == StartUnlock(false) || t.pc == Idle)
    requires forall i :: 0 <= i < |steps| ==> !steps[i].CallStart? && !steps[i].CallStop?
    ensures |Exec(t, steps).workers| == |t.workers|
    ensures Exec(t, steps).pc == StartUnlock(false) || Exec(t, steps).pc == Idle
    decreases |steps|
  {
    if steps != [] {
      StepKeepsInv(t, steps[0]);
      RefusedStep(t, steps[0]);
      RefusedCreatesNone(Next(t, steps[0]), steps[1..]);
    }
  }

  lemma RefusedStep(t: Task, step: Step)
    requires Inv(t) && Enabled(t, step) && (t.pc == StartUnlock(false) || t.pc == Idle)
    requires !step.CallStart? && !step.CallStop?
    ensures |Next(t, step).workers| == |t.workers|
    ensures Next(t, step).pc == StartUnlock(false) || Next(t, step).pc == Idle
  {
  }

  /** A call of the controller never gets stuck: it can go on, or the current worker can take a step
      that is no new sleep. */
  lemma CallNeverStuck(t: Task)
    requires Reachable(t) && !t.pc.Idle?
    ensures Enabled(t, Control(true)) ||
      (t.workers != [] && exists act: Act :: !act.Sleep? && Enabled(t, Work(|t.workers| - 1, act)))
  {
    ReachableInv(t);
    if !Enabled(t, Control(true)) {
      if t.pc.StopJoin? {
        JoinNeverStuck(t);
        var act: Act :| !act.Sleep? && Enabled(t, Work(t.id.value, act));
        assert Enabled(t, Work(|t.workers| - 1, act));
      } else {
        HolderCanWork(t);
        var act := Continue;
        assert !act.Sleep? && Enabled(t, Work(|t.workers| - 1, act));
      }
    }
  }

  /** Who else has the lock is the last worker, and it can go on. */
  lemma HolderCanWork(t: Task)
    requires Inv(t) && t.lock.ByWorker?
    ensures t.workers != [] && t.lock.index == |t.workers| - 1 && Enabled(t, Work(|t.workers| - 1, Continue))
  {
  }

  // ----- stop() -----

  /** Where a stop() stands; when it has returned, no worker is left. */
  predicate Stopping(t: Task) {
    match t.pc
    case StopLock(nested) => !nested
    case StopCheck(nested) => !nested
    case StopSignal(nested) => !nested
    case StopRelease(nested) => !nested
    case StopJoin(nested) => !nested
    case StopRelock(nested) => !nested
    case StopClear(nested) => !nested
    case StopReset(nested) => !nested
    case StopUnlock(nested) => !nested
    case Idle => NoWorker(t)
    case _ => false
  }

  lemma StepKeepsStopping(t: Task, step: Step)
    requires Inv(t) && Stopping(t) && Enabled(t, step) && !step.CallStart? && !step.CallStop?
    ensures Stopping(Next(t, step))
  {
  }

  /** Over every interleaving: when a stop() has returned, mState is INIT, mId is cleared, and every
      worker that was ever created has been joined, once. */
  lemma {:induction false} StopJoinsAll(t: Task, steps: seq<Step>)
    requires Inv(t) && t.pc.Idle? && Run(t, [CallStop] + steps)
    requires forall i :: 0 <= i < |steps| ==> !steps[i].CallStart? && !steps[i].CallStop?
    ensures var t' := Exec(t, [CallStop] + steps);
      t'.pc.Idle? ==>
        && t'.state == INIT && t'.id == None && |t'.joins| == |t'.workers|
        && forall i :: 0 <= i < |t'.workers| ==> t'.workers[i].Joined? && t'.joins[i] == 1
  {
    var t1 := Next(t, CallStop);
    StepKeepsInv(t, CallStop);
    assert ([CallStop] + steps)[1..] == steps;
    RunKeepsStopping(t1, steps);
  }

  lemma {:induction false} RunKeepsStopping(t: Task, steps: seq<Step>)
    requires Inv(t) && Stopping(t) && Run(t, steps)
    requires forall i :: 0 <= i < |steps| ==> !steps[i].CallStart? && !steps[i].CallStop?
    ensures Stopping(Exec(t, steps)) && Inv(Exec(t, steps))
    decreases |steps|
  {
    if steps != [] {
      StepKeepsInv(t, steps[0]);
      StepKeepsStopping(t, steps[0]);
      RunKeepsStopping(Next(t, steps[0]), steps[1..]);
    }
  }

  // ----- sleep() -----

  /** A worker that calls sleep() waits on the condition, with the lock given up, unless stop() has
      asked it to end; it is the thread that mId names. */
  lemma SleepWaits(t: Task, i: nat)
    requires Reachable(t) && i < |t.workers| && t.workers[i].SleepCheck?
    ensures Enabled(t, Work(i, Continue)) && t.id == Some(i)
    ensures var t' := NextWork(t, i, Continue);
      if t.state == STOPPING then t'.workers[i] == SleepUnlock else t'.workers[i] == CondWait(false) && t'.lock == Free
  {
    ReachableInv(t);
    WorkMovesLast(t, i, Continue);
  }

  /** A wakeup signals the worker that waits, and nobody else notices. */
  lemma WakeupSignals(t: Task, i: nat)
    requires |t.joins| == |t.workers| && i < |t.workers|
    ensures var t' := Next(t, CallWakeup);
      && t' == t.(workers := t'.workers) && |t'.workers| == |t.workers|
      && t'.workers[i] == if t.workers[i].CondWait? then CondWait(true) else t.workers[i]
  {
  }

  /** What a worker is at next when it goes on with the lock in reach. */
  lemma SleepReturns(t: Task, i: nat)
    requires Inv(t) && i < |t.workers| && Enabled(t, Work(i, Continue))
    ensures var w, w' := t.workers[i], NextWork(t, i, Continue).workers[i];
      && (w.CondWait? ==> w' == CondRelock) && (w.CondRelock? ==> w' == SleepUnlock)
      && (w.SleepUnlock? ==> w' == Body) && (w.SleepLock? ==> w' == SleepCheck)
  {
  }

  /** The body of a worker goes into sleep() or into the epilogue, which ends with the worker gone. */
  lemma BodyGoes(t: Task, i: nat, act: Act)
    requires Inv(t) && i < |t.workers| && Enabled(t, Work(i, act))
    ensures var w, w' := t.workers[i], NextWork(t, i, act).workers[i];
      && (w.Body? ==> w' == if act.Sleep? then SleepLock else EndLock)
      && (w.EndLock? ==> w' == EndMark) && (w.EndMark? ==> w' == EndUnlock) && (w.EndUnlock? ==> w' == Exited)
  {
  }
}
