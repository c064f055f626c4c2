/** What start(), stop() and the loop of a TimerThread achieve. */
module TimerThreadLaws {
  import opened Machine
  import opened Options
  import opened TimerThreadProtocol
  import T = TaskProtocol
  import TaskLaws

  // ----- the fields -----

  /** The interval that an unsigned argument is stored as, in an int. */
  function Stored(msec: uint32): int {
    if msec < 2147483648 then msec else msec - 4294967296
  }

  lemma StoredIsNarrow(msec: uint32)
    ensures Narrow(msec) == Stored(msec)
  {
  }

  /** start() reads the clock and stores what it was given; the history of this start begins here. */
  lemma StartSetsFields(s: TimerThread, ok: bool, now: uint64)
    requires Inv(s) && s.control.SetFields?
    ensures var s' := Next(s, Controller(ok, now));
      && s'.startTime == now && s'.repeat == s.control.repeat && s'.interval == Stored(s.control.msec)
      && s'.control == ClearExit && s'.task == s.task && s'.exitTask == s.exitTask
      && s'.history.origin == now && s'.history.interval == s'.interval && s'.history.calls == 0
  {
    StoredIsNarrow(s.control.msec);
  }

  lemma SettersSet(s: TimerThread, msec: uint32, repeat: bool)
    requires Inv(s)
    ensures var s' := Next(s, CallSetInterval(msec)); s' == s.(interval := Stored(msec), history := s'.history)
    ensures var s' := Next(s, CallSetRepeat(repeat)); s' == s.(repeat := repeat, history := s'.history)
  {
    StoredIsNarrow(msec);
  }

  // ----- start() over runs -----

  /** Steps while the controller is inside start(): what it asks is answered with true, nobody sets
      anything, and the worker does what it likes. */
  ghost predicate OneCall(steps: seq<Step>) {
    forall i :: 0 <= i < |steps| ==> steps[i].Worker? || (steps[i].Controller? && steps[i].ok)
  }

  /** The fields are those that start(msec, repeat) was called with. */
  predicate Given(s: TimerThread, msec: uint32, repeat: bool) {
    s.interval == Stored(msec) && s.repeat == repeat
  }

  /** Where a start(msec, repeat) with n workers behind it stands. */
  predicate StartingAs(s: TimerThread, msec: uint32, repeat: bool, n: nat) {
    match s.control
    case SetExit(restart) => restart && s.args == (msec, repeat) && |s.task.workers| == n
    case Stopping(restart) => restart && s.args == (msec, repeat) && |s.task.workers| == n
    case SetFields(m, r) => m == msec && r == repeat && |s.task.workers| == n
    case ClearExit => Given(s, msec, repeat) && |s.task.workers| == n
    case Starting => Given(s, msec, repeat) && !s.exitTask && TaskLaws.Starting(s.task, n)
    case Outside => Given(s, msec, repeat) && !s.exitTask && TaskLaws.Created(s.task, n)
  }

  lemma ControllerKeepsStarting(s: TimerThread, msec: uint32, repeat: bool, n: nat, now: uint64)
    requires Inv(s) && StartingAs(s, msec, repeat, n) && Enabled(s, Controller(true, now))
    ensures StartingAs(NextController(s, true, now), msec, repeat, n)
  {
    match s.control
    case SetFields(_, _) => StartSetsFields(s, true, now);
    case Stopping(_) => T.ControlKeepsJoins(s.task, true); T.ControlKeepsPhase(s.task, true);
    case Starting => TaskLaws.ControlKeepsStarting(s.task, n);
    case _ =>
  }

  lemma WorkerKeepsStarting(s: TimerThread, msec: uint32, repeat: bool, n: nat)
    requires Inv(s) && StartingAs(s, msec, repeat, n) && Enabled(s, Worker)
    ensures StartingAs(NextWorker(s), msec, repeat, n)
  {
    if !InLoopCode(s) {
      TaskMoves(s, n, WorkerStep(s));
    }
  }

  /** A worker's step in Task's code makes no worker, and a start() stays where it is. */
  lemma TaskMoves(s: TimerThread, n: nat, step: T.Step)
    requires T.Inv(s.task) && step.Work? && T.Enabled(s.task, step)
    ensures |T.Next(s.task, step).workers| == |s.task.workers|
    ensures TaskLaws.Starting(s.task, n) ==> TaskLaws.Starting(T.Next(s.task, step), n)
    ensures TaskLaws.Created(s.task, n) ==> TaskLaws.Created(T.Next(s.task, step), n)
  {
    T.WorkMovesLast(s.task, step.index, step.act);
    if TaskLaws.Starting(s.task, n) {
      TaskLaws.WorkKeepsStarting(s.task, n, step.index, step.act);
    }
  }

  lemma {:induction false} RunKeepsStarting(s: TimerThread, msec: uint32, repeat: bool, n: nat, steps: seq<Step>)
    requires Inv(s) && StartingAs(s, msec, repeat, n) && Run(s, steps) && OneCall(steps)
    ensures StartingAs(Exec(s, steps), msec, repeat, n)
    decreases |steps|
  {
    if steps != [] {
      var step := steps[0];
      if step.Worker? {
        WorkerKeepsStarting(s, msec, repeat, n);
      } else {
        ControllerKeepsStarting(s, msec, repeat, n, step.now);
      }
      StepKeepsInv(s, step);
      RunKeepsStarting(Next(s, step), msec, repeat, n, steps[1..]);
    }
  }

  /** Over every interleaving with an old worker and with the new one: once a start(msec, repeat) has
      returned, interval and repeat are the given ones, the loop is not asked to end, and there is
      exactly one worker more, running or just ended, and not joined. */
  lemma {:induction false} StartLeaves(s: TimerThread, msec: uint32, repeat: bool, steps: seq<Step>)
    requires Inv(s) && s.control.Outside?
    requires Run(s, [CallStart(msec, repeat)] + steps) && OneCall(steps)
    ensures var s' := Exec(s, [CallStart(msec, repeat)] + steps);
      s'.control.Outside? ==>
        && Given(s', msec, repeat) && !s'.exitTask && TaskLaws.Created(s'.task, |s.task.workers|)
  {
    var call := CallStart(msec, repeat);
    StepKeepsInv(s, call);
    assert ([call] + steps)[1..] == steps;
    RunKeepsStarting(Next(s, call), msec, repeat, |s.task.workers|, steps);
  }

  /** The worker of a start() begins with the test of its loop. */
  lemma WorkerBegins(s: TimerThread, now: uint64)
    requires Inv(s) && s.control.Starting? && s.task.pc.StartCreate?
    ensures var s' := Next(s, Controller(true, now));
      && InLoopCode(s') && s'.loop == AtTest && Current(s') == |s.task.workers|
      && s'.startTime == s.startTime && s'.exitTask == s.exitTask
  {
  }

  // ----- the loop -----

  /** A worker behind its sleep calls the handler, unless stop() has been called. */
  lemma HandlerCalled(s: TimerThread)
    requires Inv(s) && InLoopCode(s) && s.loop.AtCheck?
    ensures var s' := Next(s, Worker);
      if s.task.state == T.STOPPING then s'.loop == AtTest && s'.history == s.history
      else InLoopCode(s') && Next(s', Worker).history == s.history.(calls := s.history.calls + 1)
  {
  }

  /** The worker is alone: the controller is outside, nobody has the lock, and the loop goes on. */
  predicate Alone(s: TimerThread) {
    && s.control.Outside? && s.task.lock == T.Free && s.task.state == T.RUNNING && !s.exitTask
    && HasCurrent(s) && s.task.workers[Current(s)].Body?
    && |s.task.joins| == |s.task.workers| && s.task.id == Some(Current(s))
  }

  /** One step of the worker leads from s to s'. */
  predicate Goes(s: TimerThread, s': TimerThread) {
    |s.task.joins| == |s.task.workers| && Enabled(s, Worker) && Next(s, Worker) == s'
  }

  ghost predicate Path(ss: seq<TimerThread>) {
    forall i, j :: 0 <= i < |ss| - 1 && j == i + 1 ==> Goes(ss[i], ss[j])
  }

  /** n steps of the worker lead from s to s'. */
  ghost predicate Leads(s: TimerThread, n: nat, s': TimerThread) {
    exists ss: seq<TimerThread> :: |ss| == n + 1 && ss[0] == s && ss[n] == s' && Path(ss)
  }

  lemma LeadsOne(s: TimerThread, s': TimerThread)
    requires Goes(s, s')
    ensures Leads(s, 1, s')
  {
    var ss := [s, s'];
    assert ss[0] == s && ss[1] == s' && Path(ss);
  }

  lemma LeadsOn(s: TimerThread, m: nat, s1: TimerThread, n: nat, s2: TimerThread)
    requires Leads(s, m, s1) && Leads(s1, n, s2)
    ensures Leads(s, m + n, s2)
  {
    var ss: seq<TimerThread> :| |ss| == m + 1 && ss[0] == s && ss[m] == s1 && Path(ss);
    var tt: seq<TimerThread> :| |tt| == n + 1 && tt[0] == s1 && tt[n] == s2 && Path(tt);
    Joined(ss, tt);
    var st := ss + tt[1..];
    assert |st| == m + n + 1 && st[0] == s && st[m+n] == s2;
  }

  lemma Joined(ss: seq<TimerThread>, tt: seq<TimerThread>)
    requires ss != [] && tt != [] && ss[|ss|-1] == tt[0] && Path(ss) && Path(tt)
    ensures Path(ss + tt[1..])
  {
    var st, m := ss + tt[1..], |ss| - 1;
    forall i, j | 0 <= i < |st| - 1 && j == i + 1 ensures Goes(st[i], st[j]) {
      if i < m {
        assert Goes(ss[i], ss[j]);
      } else {
        assert Goes(tt[i-m], tt[j-m]);
      }
    }
  }

  /** n steps of the worker, as a run. */
  function Workers(n: nat): seq<Step> {
    if n == 0 then [] else [Worker] + Workers(n - 1)
  }

  lemma RunOn(s: TimerThread, s': TimerThread, steps: seq<Step>)
    requires Inv(s) && Inv(s') && Goes(s, s')
    ensures Run(s, [Worker] + steps) <==> Run(s', steps)
    ensures Run(s', steps) ==> Exec(s, [Worker] + steps) == Exec(s', steps)
  {
    assert ([Worker] + steps)[1..] == steps;
  }

  lemma OneMore(s: TimerThread, s': TimerThread, n: nat, last: TimerThread)
    requires Inv(s) && Enabled(s, Worker) && Next(s, Worker) == s' && RunsTo(s', n, last)
    ensures RunsTo(s, n + 1, last)
  {
    RunOn(s, s', Workers(n));
  }

  /** The run of n steps of the worker ends in the given state. */
  ghost predicate RunsTo(s: TimerThread, n: nat, last: TimerThread) {
    Inv(s) && Run(s, Workers(n)) && Exec(s, Workers(n)) == last
  }

  /** The end of a path, from its state number k on, is a run. */
  lemma {:induction false} PathIsRun(ss: seq<TimerThread>, k: nat, n: nat)
    requires k + n == |ss| - 1 && Path(ss) && Inv(ss[k])
    ensures RunsTo(ss[k], n, ss[|ss|-1])
    decreases n
  {
    if n > 0 {
      PathStep(ss, k);
      PathIsRun(ss, k + 1, n - 1);
      OneMore(ss[k], ss[k+1], n - 1, ss[|ss|-1]);
    }
  }

  lemma PathStep(ss: seq<TimerThread>, k: nat)
    requires k < |ss| - 1 && Path(ss) && Inv(ss[k])
    ensures Enabled(ss[k], Worker) && Next(ss[k], Worker) == ss[k+1] && Inv(ss[k+1])
  {
    assert Goes(ss[k], ss[k+1]);
    StepKeepsInv(ss[k], Worker);
  }

  lemma LeadsIsRun(s: TimerThread, n: nat, s': TimerThread)
    requires Leads(s, n, s') && Inv(s)
    ensures Run(s, Workers(n)) && Exec(s, Workers(n)) == s'
  {
    var ss: seq<TimerThread> :| |ss| == n + 1 && ss[0] == s && ss[n] == s' && Path(ss);
    PathIsRun(ss, 0, n);
  }

  /** The worker is at the given points of the loop and of sleep(). */
  function At(s: TimerThread, loop: Loop, w: T.Worker): TimerThread
    requires HasCurrent(s)
  {
    var lock := if T.WorkerHolds(w) then T.ByWorker(Current(s)) else T.Free;
    s.(loop := loop, task := s.task.(lock := lock, workers := s.task.workers[Current(s) := w]))
  }

  /** Where sleep() goes on. */
  function InsideSleep(w: T.Worker): T.Worker {
    match w
    case SleepLock => T.SleepCheck
    case SleepCheck => T.CondWait(false)
    case CondWait(_) => T.CondRelock
    case CondRelock => T.SleepUnlock
    case _ => T.Body
  }

  lemma SleepStep(s: TimerThread, e: uint64, w: T.Worker)
    requires Alone(s)
    requires w.SleepLock? || w.SleepCheck? || w.CondWait? || w.CondRelock? || w.SleepUnlock?
    ensures Leads(At(s, InSleep(e), w), 1, At(s, InSleep(e), InsideSleep(w)))
  {
    var s1, s2 := At(s, InSleep(e), w), At(s, InSleep(e), InsideSleep(w));
    assert s1.task.workers[Current(s1)] == w;
    assert Next(s1, Worker).task.workers == s2.task.workers;
    LeadsOne(s1, s2);
  }

  /** sleep(): the worker takes the lock, waits, comes back, and gives the lock up. */
  lemma SleepOnce(s: TimerThread)
    requires Alone(s) && s.loop.AtSleep?
    ensures Leads(s, 6, s.(loop := InSleep(s.loop.expiry)))
  {
    var e := s.loop.expiry;
    var l := InSleep(e);
    LeadsOne(s, At(s, l, T.SleepLock));
    SleepStep(s, e, T.SleepLock);
    LeadsOn(s, 1, At(s, l, T.SleepLock), 1, At(s, l, T.SleepCheck));
    SleepStep(s, e, T.SleepCheck);
    LeadsOn(s, 2, At(s, l, T.SleepCheck), 1, At(s, l, T.CondWait(false)));
    SleepStep(s, e, T.CondWait(false));
    LeadsOn(s, 3, At(s, l, T.CondWait(false)), 1, At(s, l, T.CondRelock));
    SleepStep(s, e, T.CondRelock);
    LeadsOn(s, 4, At(s, l, T.CondRelock), 1, At(s, l, T.SleepUnlock));
    SleepStep(s, e, T.SleepUnlock);
    LeadsOn(s, 5, At(s, l, T.SleepUnlock), 1, At(s, l, T.Body));
    assert At(s, l, T.Body) == s.(loop := l);
  }

  lemma LoopOnce(s: TimerThread, s': TimerThread)
    requires Alone(s) && !s.loop.AtSleep? && !s.loop.AtEnd? && s' == LoopStep(s)
    ensures Leads(s, 1, s')
  {
    LeadsOne(s, s');
  }

  /** The loop with the given location, start tick and history. */
  function Moved(s: TimerThread, loop: Loop, start: uint64, deadlines: seq<uint64>, calls: nat): TimerThread {
    s.(loop := loop, startTime := start, history := s.history.(deadlines := deadlines, calls := calls))
  }

  /** One turn of the loop: the deadline is one interval behind the start tick, the worker sleeps, the
      handler is called once, and a repeating timer goes on from the deadline. */
  lemma OneTurn(s: TimerThread)
    requires Alone(s) && s.loop.AtTest?
    ensures var e := (s.startTime + s.interval) % 18446744073709551616;
      var h := s.history;
      && (s.repeat ==> Leads(s, 12, Moved(s, AtTest, e, h.deadlines + [e], h.calls + 1)))
      && (!s.repeat ==> Leads(s, 11, Moved(s, AtEnd, s.startTime, h.deadlines + [e], h.calls + 1)))
  {
    var e := (s.startTime + s.interval) % TWO64;
    var d, c := s.history.deadlines + [e], s.history.calls;
    var s1 := Moved(s, AtSleep(e), s.startTime, d, c);
    var s2 := Moved(s, InSleep(e), s.startTime, d, c);
    LoopOnce(s, s1);
    SleepOnce(s1);
    LeadsOn(s, 1, s1, 6, s2);
    BehindSleep(s2, e);
    if s.repeat {
      LeadsOn(s, 7, s2, 5, Moved(s2, AtTest, e, d, c + 1));
    } else {
      LeadsOn(s, 7, s2, 4, Moved(s2, AtEnd, s.startTime, d, c + 1));
    }
  }

  /** Behind its sleep the worker calls the handler, once. */
  lemma BehindSleep(s: TimerThread, e: uint64)
    requires Alone(s) && s.loop == InSleep(e)
    ensures var h := s.history;
      && (s.repeat ==> Leads(s, 5, Moved(s, AtTest, e, h.deadlines, h.calls + 1)))
      && (!s.repeat ==> Leads(s, 4, Moved(s, AtEnd, s.startTime, h.deadlines, h.calls + 1)))
  {
    var d, c := s.history.deadlines, s.history.calls;
    var s1 := Moved(s, AtCheck(e), s.startTime, d, c);
    var s2 := Moved(s, AtHandler(e), s.startTime, d, c);
    var s3 := Moved(s, AtRepeat(e), s.startTime, d, c + 1);
    LoopOnce(s, s1);
    LoopOnce(s1, s2);
    LeadsOn(s, 1, s1, 1, s2);
    LoopOnce(s2, s3);
    LeadsOn(s, 2, s2, 1, s3);
    BehindHandler(s3, e);
    if s.repeat {
      LeadsOn(s, 3, s3, 2, Moved(s, AtTest, e, d, c + 1));
    } else {
      LeadsOn(s, 3, s3, 1, Moved(s, AtEnd, s.startTime, d, c + 1));
    }
  }

  lemma BehindHandler(s: TimerThread, e: uint64)
    requires Alone(s) && s.loop == AtRepeat(e)
    ensures s.repeat ==> Leads(s, 2, s.(startTime := e, loop := AtTest))
    ensures !s.repeat ==> Leads(s, 1, s.(loop := AtEnd))
  {
    var s1 := LoopStep(s);
    LoopOnce(s, s1);
    if s.repeat {
      LoopOnce(s1, LoopStep(s1));
      LeadsOn(s, 1, s1, 1, LoopStep(s1));
    }
  }

  /** A repeating timer behind one turn. */
  function Turned(s: TimerThread): TimerThread {
    var e := (s.startTime + s.interval) % TWO64;
    Moved(s, AtTest, e, s.history.deadlines + [e], s.history.calls + 1)
  }

  /** s' is s with k turns behind it. */
  predicate TurnsOn(s: TimerThread, k: nat, s': TimerThread) {
    && Alone(s') && s'.loop.AtTest? && s'.repeat && s'.interval == s.interval
    && s'.startTime == (s.startTime + k * s.interval) % 18446744073709551616
    && s'.history.calls == s.history.calls + k
  }

  lemma TurnOn(s: TimerThread, k: nat, s': TimerThread)
    requires TurnsOn(s, k, s')
    ensures TurnsOn(s, k + 1, Turned(s')) && Leads(s', 12, Turned(s'))
  {
    OneTurn(s');
    NextStart(s.startTime, s.interval, k + 1);
  }

  lemma NoTurn(s: TimerThread)
    requires Alone(s) && s.loop.AtTest? && s.repeat
    ensures TurnsOn(s, 0, s) && Leads(s, 0, s)
  {
    assert [s][0] == s && Path([s]);
  }

  /** The k-th turn of a repeating timer that is left alone starts k intervals behind the first, and
      the handler has been called k times. */
  lemma {:induction false} Turns(s: TimerThread, k: nat) returns (s': TimerThread)
    requires Alone(s) && s.loop.AtTest? && s.repeat
    ensures Leads(s, 12 * k, s') && TurnsOn(s, k, s')
    decreases k
  {
    if k == 0 {
      NoTurn(s);
      s' := s;
    } else {
      var s1 := Turns(s, k - 1);
      TurnOn(s, k - 1, s1);
      s' := Turned(s1);
      LeadsOn(s, 12 * (k - 1), s1, 12, s');
    }
  }

  lemma NextStart(start: uint64, interval: int, k: nat)
    requires k > 0
    ensures ((start + (k - 1) * interval) % TWO64 + interval) % TWO64 == (start + k * interval) % TWO64
  {
    ModAdd(start + (k - 1) * interval, interval);
    assert k * interval == (k - 1) * interval + interval;
  }

  /** The same, as a run: twelve steps of the worker for each turn. */
  lemma TurnsAsRun(s: TimerThread, k: nat)
    requires Inv(s) && Alone(s) && s.loop.AtTest? && s.repeat
    ensures Run(s, Workers(12 * k))
    ensures var s' := Exec(s, Workers(12 * k));
      && s'.history.calls == s.history.calls + k
      && s'.startTime == (s.startTime + k * s.interval) % 18446744073709551616
  {
    var s' := Turns(s, k);
    LeadsIsRun(s, 12 * k, s');
  }

  // ----- stop() comes back -----

  /** How many steps the worker takes at most until it is gone, once stop() has asked it to end. */
  function Distance(s: TimerThread): nat
    requires HasCurrent(s)
  {
    match s.task.workers[Current(s)]
    case SleepLock => 15
    case SleepCheck => 14
    case CondWait(_) => 13
    case CondRelock => 12
    case SleepUnlock => 11
    case EndLock => 3
    case EndMark => 2
    case EndUnlock => 1
    case Exited => 0
    case Joined => 0
    case Body =>
      match s.loop {
        case AtSleep(_) => 16
        case InSleep(_) => 10
        case AtCheck(_) => 9
        case AtHandler(_) => 8
        case AtRepeat(_) => 7
        case AtStore(_) => 6
        case AtTest => 5
        case AtEnd => 4
      }
  }

  /** The worker is just about to call the handler. */
  function Due(s: TimerThread): nat {
    if InLoopCode(s) && s.loop.AtHandler? then 1 else 0
  }

  /** stop() waits for the worker. */
  ghost predicate Joining(s: TimerThread) {
    Inv(s) && s.control.Stopping? && s.task.pc.StopJoin?
  }

  lemma LoopInJoin(s: TimerThread)
    requires Joining(s) && InLoopCode(s)
    ensures Joining(Next(s, Worker)) && Distance(Next(s, Worker)) < Distance(s)
    ensures Next(s, Worker).history.calls + Due(Next(s, Worker)) == s.history.calls + Due(s)
  {
    StepKeepsInv(s, Worker);
  }

  lemma TaskInJoin(s: TimerThread)
    requires Joining(s) && HasCurrent(s) && !InLoopCode(s) && T.Alive(s.task.workers[Current(s)])
    ensures Enabled(s, Worker) && Joining(Next(s, Worker)) && Distance(Next(s, Worker)) < Distance(s)
    ensures Next(s, Worker).history.calls + Due(Next(s, Worker)) == s.history.calls + Due(s)
  {
    NotBlocked(s);
    StepKeepsInv(s, Worker);
    T.WorkMovesLast(s.task, Current(s), WorkerStep(s).act);
  }

  /** While stop() waits, nobody keeps the worker from its next step. */
  lemma NotBlocked(s: TimerThread)
    requires Joining(s) && HasCurrent(s) && T.Alive(s.task.workers[Current(s)])
    ensures Enabled(s, Worker)
  {
  }

  /** Behind n steps of the worker stop() can go on, and the handler has been called as often as was due. */
  ghost predicate Back(s: TimerThread, n: nat) {
    && Inv(s) && Run(s, Workers(n)) && Enabled(Exec(s, Workers(n)), Controller(true, 0))
    && Exec(s, Workers(n)).history.calls == s.history.calls + Due(s)
  }

  lemma GoneIsBack(s: TimerThread)
    requires Joining(s)
    ensures HasCurrent(s) && (!T.Alive(s.task.workers[Current(s)]) ==> Back(s, 0))
  {
  }

  lemma BackStep(s: TimerThread, n: nat)
    requires Inv(s) && Enabled(s, Worker) && Back(Next(s, Worker), n)
    requires Next(s, Worker).history.calls + Due(Next(s, Worker)) == s.history.calls + Due(s)
    ensures Back(s, n + 1)
  {
    OneMore(s, Next(s, Worker), n, Exec(Next(s, Worker), Workers(n)));
  }

  /** Whatever the worker is doing when stop() begins to wait for it: it is gone behind at most 16 of its
      steps, and stop() goes on; only a handler call that was already decided is still made. */
  lemma {:induction false} StopComesBack(s: TimerThread) returns (n: nat)
    requires Joining(s)
    ensures n <= 16 && Back(s, n)
    ensures HasCurrent(s) && n <= Distance(s)
    decreases if HasCurrent(s) then Distance(s) else 0
  {
    GoneIsBack(s);
    if !T.Alive(s.task.workers[Current(s)]) {
      n := 0;
    } else {
      if InLoopCode(s) { LoopInJoin(s); } else { TaskInJoin(s); }
      n := StopComesBack(Next(s, Worker));
      BackStep(s, n);
      n := n + 1;
    }
  }

  /** Where a stop() stands; when it has returned, no worker is left. */
  predicate StoppingAs(s: TimerThread) {
    s.control == SetExit(false) || s.control == Stopping(false) || (s.control.Outside? && Silent(s))
  }

  lemma StepKeepsStopping(s: TimerThread, step: Step)
    requires Inv(s) && StoppingAs(s) && Enabled(s, step) && !step.CallStart? && !step.CallStop?
    ensures StoppingAs(Next(s, step))
  {
    if step.Controller? && s.control == Stopping(false) && Next(s, step).control.Outside? {
      StopSilences(s, step.ok, step.now);
    } else if s.control.Outside? {
      SilentStep(s, step);
    }
  }

  lemma {:induction false} RunKeepsStopping(s: TimerThread, steps: seq<Step>)
    requires Inv(s) && StoppingAs(s) && Run(s, steps)
    requires forall i :: 0 <= i < |steps| ==> !steps[i].CallStart? && !steps[i].CallStop?
    ensures StoppingAs(Exec(s, steps))
    decreases |steps|
  {
    if steps != [] {
      StepKeepsInv(s, steps[0]);
      StepKeepsStopping(s, steps[0]);
      RunKeepsStopping(Next(s, steps[0]), steps[1..]);
    }
  }

  /** Over every interleaving: when a stop() has returned, the TimerThread is silent. */
  lemma {:induction false} StopLeavesSilent(s: TimerThread, steps: seq<Step>)
    requires Inv(s) && s.control.Outside? && Run(s, [CallStop] + steps)
    requires forall i :: 0 <= i < |steps| ==> !steps[i].CallStart? && !steps[i].CallStop?
    ensures var s' := Exec(s, [CallStop] + steps); s'.control.Outside? ==> Silent(s')
  {
    StepKeepsInv(s, CallStop);
    assert ([CallStop] + steps)[1..] == steps;
    RunKeepsStopping(Next(s, CallStop), steps);
  }
}
