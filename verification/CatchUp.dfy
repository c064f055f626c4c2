/** How often runTimers serves a timer: over runs in which handlers do anything to the other timers, and
    over calls with handlers that leave all timers alone, which is what DrainLoop is about. */
module CatchUp {
  import opened Machine
  import opened TimerQueue
  import opened TimerTheorems

  /** A due repeating timer with interval 0: its deadline never gets above now. */
  predicate Stuck(rec: Rec, now: uint64) {
    rec.running && rec.repeat && rec.interval == 0 && rec.expiry <= now
  }

  /** What every run of timer calls keeps, at a tick at which no deadline can wrap. */
  ghost predicate Ready<T>(s: Sched<T>, now: uint64) {
    now < LAST_TICK && Ordered(s, 0) && Member(s)
  }

  /** How often the deadlines of this record have passed by now. */
  function Passed(rec: Rec, now: uint64): nat
    requires !Stuck(rec, now)
  {
    if !rec.running || rec.expiry > now then 0
    else if rec.repeat then (now - rec.expiry) / rec.interval + 1
    else 1
  }

  /** The record once all of its passed deadlines have been served. */
  function Served(rec: Rec, now: uint64): Rec
    requires !Stuck(rec, now) && now < LAST_TICK
  {
    if Passed(rec, now) == 0 then rec
    else if rec.repeat then
      NextDeadline(rec.expiry, rec.interval, now);
      rec.(expiry := rec.expiry + Passed(rec, now) * rec.interval)
    else rec.(running := false)
  }

  /** With k = (now-e)/d + 1, e + k*d is the least such deadline above now. */
  lemma NextDeadline(e: uint64, d: uint32, now: uint64)
    requires e <= now && d >= 1
    ensures var k := (now - e) / d + 1; e + (k - 1) * d <= now < e + k * d <= now + d
  {
  }

  /** The number of passed deadlines is the only multiple of d in the window (now - e, now - e + d]. */
  lemma {:induction false} PassedIs(rec: Rec, now: uint64, k: int)
    requires rec.running && rec.repeat && !Stuck(rec, now) && rec.expiry <= now
    requires (k - 1) * rec.interval <= now - rec.expiry < k * rec.interval
    ensures Passed(rec, now) == k
  {
    var e, d := rec.expiry, rec.interval;
    var j := Passed(rec, now);
    NextDeadline(e, d, now);
    if k < j { MulMonotone(k, j - 1, d); }
    if j < k { MulMonotone(j, k - 1, d); }
  }

  lemma MulMonotone(a: int, b: int, d: int)
    requires a <= b && d >= 0
    ensures a * d <= b * d
  {
  }

  lemma MulLess(k: int, d: int)
    ensures (k - 1) * d == k * d - d
  {
  }

  /** Serving one deadline leaves one fewer, and the same final record. */
  lemma {:induction false} ServeOne(rec: Rec, now: uint64)
    requires rec.running && rec.repeat && !Stuck(rec, now) && rec.expiry <= now < LAST_TICK
    ensures rec.expiry + rec.interval < TWO64 && !Stuck(rec.(expiry := rec.expiry + rec.interval), now)
    ensures var rec' := rec.(expiry := rec.expiry + rec.interval);
      Passed(rec, now) == Passed(rec', now) + 1 && Served(rec, now) == Served(rec', now)
  {
    var e, d, k := rec.expiry, rec.interval, Passed(rec, now);
    var rec' := rec.(expiry := e + d);
    NextDeadline(e, d, now);
    assert (k - 1) * d <= now - e < k * d;
    MulLess(k, d);
    if e + d <= now {
      MulLess(k - 1, d);
      PassedIs(rec', now, k - 1);
    } else {
      PassedIs(rec, now, 1);
    }
    assert e + k * d == e + d + (k - 1) * d;
  }

  // ----- the work measure -----

  lemma {:induction false} WorkCons<T>(t: T, q: seq<T>, recs: map<T, Rec>, now: uint64)
    ensures Work([t] + q, recs, now) == Lateness(Key(recs, t), now) + Work(q, recs, now)
  {
    if q == [] {
      assert [t] + q == [t] && [t][..0] == [];
      assert Work([t][..0], recs, now) == 0;
    } else {
      WorkCons(t, q[..|q|-1], recs, now);
      assert ([t] + q)[..|q|] == [t] + q[..|q|-1];
    }
  }

  lemma {:induction false} WorkIgnores<T>(q: seq<T>, recs: map<T, Rec>, recs': map<T, Rec>, now: uint64)
    requires forall u :: u in q ==> Key(recs, u) == Key(recs', u)
    ensures Work(q, recs, now) == Work(q, recs', now)
  {
    if q != [] {
      WorkIgnores(q[..|q|-1], recs, recs', now);
    }
  }

  // ----- one firing of a ready scheduler -----

  /** Firing with a handler that leaves timers alone: the record advances, and a one-shot is popped. */
  lemma QuietShape<T>(s: Sched<T>, now: uint64)
    requires Ready(s, now) && Due(s, now)
    ensures var t := s.queue[0]; var recs' := s.recs[t := Advanced(s.recs[t])];
      Fire(s, []) == Sched(recs', Sort(if s.recs[t].repeat then s.queue else s.queue[1..], recs'))
  {
  }

  lemma FrontRuns<T>(s: Sched<T>)
    requires Ordered(s, 0) && Member(s) && s.queue != []
    ensures s.queue[0] in s.recs && s.recs[s.queue[0]].running && s.queue[0] !in s.queue[1..]
  {
    var t := s.queue[0];
    assert s.queue == [t] + s.queue[1..];
    assert multiset(s.queue)[t] == 1 + multiset(s.queue[1..])[t];
  }

  /** Advancing a front record does not wrap its deadline. */
  lemma AdvanceFits(rec: Rec, now: uint64)
    requires rec.expiry <= now < LAST_TICK
    ensures rec.repeat ==> rec.expiry + rec.interval < TWO64 && Advanced(rec).expiry == rec.expiry + rec.interval
  {
  }

  /** Advancing a front record that is not stuck serves one deadline. */
  lemma {:induction false} AdvanceServes(rec: Rec, now: uint64)
    requires rec.running && rec.expiry <= now < LAST_TICK && !Stuck(rec, now)
    ensures !Stuck(Advanced(rec), now)
    ensures Passed(rec, now) == 1 + Passed(Advanced(rec), now) && Served(rec, now) == Served(Advanced(rec), now)
  {
    if rec.repeat { ServeOne(rec, now); }
  }

  lemma QuietFire<T>(s: Sched<T>, now: uint64)
    requires Ready(s, now) && Due(s, now)
    ensures Ready(Fire(s, []), now)
  {
    var t := s.queue[0];
    FrontRuns(s);
    AdvanceFits(s.recs[t], now);
    assert RunScript(s, []) == s;
    assert Member(Fire(s, [])) by { FireKeepsMemberIff(s, []); }
    assert Ordered(Fire(s, []), 0) by { FireOrders(s, now, []); }
    assert Fire(s, []).recs == s.recs[t := Advanced(s.recs[t])] by { QuietShape(s, now); }
  }

  lemma QuietFireWorks<T>(s: Sched<T>, now: uint64)
    requires Ready(s, now) && Due(s, now) && !Stuck(s.recs[s.queue[0]], now)
    ensures var s' := Fire(s, []); Work(s'.queue, s'.recs, now) < Work(s.queue, s.recs, now)
  {
    var t, rest := s.queue[0], s.queue[1..];
    var recs' := s.recs[t := Advanced(s.recs[t])];
    QuietShape(s, now);
    FrontRuns(s);
    AdvanceFits(s.recs[t], now);
    assert s.queue == [t] + rest;
    assert Work(s.queue, s.recs, now) == Lateness(Key(s.recs, t), now) + Work(rest, s.recs, now) by {
      WorkCons(t, rest, s.recs, now);
    }
    assert Work(s.queue, recs', now) == Lateness(Key(recs', t), now) + Work(rest, recs', now) by {
      WorkCons(t, rest, recs', now);
    }
    assert Work(rest, s.recs, now) == Work(rest, recs', now) by { WorkIgnores(rest, s.recs, recs', now); }
    SortKeepsWork(if s.recs[t].repeat then s.queue else rest, recs', now);
  }

  // ----- calls of runTimers at given ticks -----

  ghost predicate QueueKnown<T>(s: Sched<T>) {
    forall t :: t in s.queue ==> t in s.recs
  }

  /** A quiet call queues no timer that is not known, and its front() is defined. */
  lemma QuietKnown<T>(s: Sched<T>, tick: uint64)
    requires QueueKnown(s)
    ensures QueueKnown(RunTimers(s, tick, []).state) && (Due(s, tick) ==> FrontDefined(s, []))
  {
    if Due(s, tick) {
      var s1 := Execute(s, s.queue[0], []);
      var q := Popped(s1, s.queue[0]);
      assert RunScript(s, []) == s && s1.queue == s.queue;
      SortLaws(q, s1.recs);
      forall t | t in Sort(q, s1.recs) ensures t in s.recs {
        assert t in multiset(Sort(q, s1.recs));
      }
    }
  }

  /** runTimers called once at each of the ticks: the last state and wait, and all firings. */
  ghost function Calls<T>(s: Sched<T>, ticks: seq<uint64>): (r: Outcome<T>)
    requires QueueKnown(s)
    ensures QueueKnown(r.state) && r.state.recs.Keys == s.recs.Keys
  {
    if ticks == [] then Outcome(s, 0, [])
    else
      var k := |ticks| - 1;
      var before := Calls(s, ticks[..k]);
      var o := RunTimers(before.state, ticks[k], []);
      QuietKnown(before.state, ticks[k]);
      Outcome(o.state, o.wait, before.fired + o.fired)
  }

  /** Of the first n calls all but the last return 0, so that the loop gets to make them. */
  ghost predicate ZeroBefore<T>(s: Sched<T>, ticks: seq<uint64>, n: nat)
    requires QueueKnown(s) && n <= |ticks|
  {
    n <= 1 || (Calls(s, ticks[..n-1]).wait == 0 && ZeroBefore(s, ticks, n - 1))
  }

  lemma ZeroBeforeLast<T>(s: Sched<T>, ticks: seq<uint64>, n: nat, m: nat)
    requires QueueKnown(s) && n <= |ticks| && ZeroBefore(s, ticks, n) && m + 1 == n > 1
    ensures Calls(s, ticks[..m]).wait == 0 && ZeroBefore(s, ticks, m)
  {
  }

  lemma {:induction false} ZeroBeforeMeans<T>(s: Sched<T>, ticks: seq<uint64>, n: nat, m: nat)
    requires QueueKnown(s) && n <= |ticks| && ZeroBefore(s, ticks, n) && 1 <= m < n
    ensures Calls(s, ticks[..m]).wait == 0
    decreases n
  {
    ZeroBeforeLast(s, ticks, n, n - 1);
    if m < n - 1 {
      ZeroBeforeMeans(s, ticks, n - 1, m);
    }
  }

  predicate UpTo(ticks: seq<uint64>, now: uint64) {
    forall i :: 0 <= i < |ticks| ==> ticks[i] <= now
  }

  /** A call at any tick up to now keeps a scheduler ready; its wait is the one for the state it leaves. */
  lemma QuietCall<T>(s: Sched<T>, tick: uint64, now: uint64)
    requires Ready(s, now) && tick <= now
    ensures var o := RunTimers(s, tick, []);
      && Ready(o.state, now) && o.wait == NextWait(o.state, tick)
      && (if Due(s, tick) then o.state == Fire(s, []) else o.state == s && o.fired == [])
  {
    if Due(s, tick) { QuietFire(s, now); }
  }

  lemma {:induction false} CallsReady<T>(s: Sched<T>, ticks: seq<uint64>, now: uint64)
    requires Ready(s, now) && UpTo(ticks, now)
    ensures Ready(Calls(s, ticks).state, now)
    ensures ticks != [] ==> Calls(s, ticks).wait == NextWait(Calls(s, ticks).state, ticks[|ticks|-1])
    decreases |ticks|
  {
    if ticks != [] {
      var k := |ticks| - 1;
      CallsReady(s, ticks[..k], now);
      QuietCall(Calls(s, ticks[..k]).state, ticks[k], now);
    }
  }

  ghost function Count<T>(log: seq<Fired<T>>, t: T): nat {
    if log == [] then 0 else (if log[0].timer == t then 1 else 0) + Count(log[1..], t)
  }

  /** One call serves one deadline of the front timer and touches no other record. */
  lemma OneService<T>(s: Sched<T>, tick: uint64, now: uint64, t: T)
    requires Ready(s, now) && tick <= now && t in s.recs && !Stuck(s.recs[t], now)
    ensures var o := RunTimers(s, tick, []);
      && t in o.state.recs && !Stuck(o.state.recs[t], now)
      && Passed(s.recs[t], now) == Count(o.fired, t) + Passed(o.state.recs[t], now)
      && Served(s.recs[t], now) == Served(o.state.recs[t], now)
  {
    var o := RunTimers(s, tick, []);
    if Due(s, tick) {
      var front := s.queue[0];
      FrontRuns(s);
      assert o.state.recs == s.recs[front := Advanced(s.recs[front])] by { QuietShape(s, now); }
      assert o.fired[1..] == [] && o.fired[0].timer == front;
      if t == front { AdvanceServes(s.recs[t], now); }
    }
  }

  lemma {:induction false} CountConcat<T>(a: seq<Fired<T>>, b: seq<Fired<T>>, t: T)
    ensures Count(a + b, t) == Count(a, t) + Count(b, t)
  {
    if a == [] {
      assert a + b == b;
    } else {
      CountConcat(a[1..], b, t);
      assert (a + b)[1..] == a[1..] + b;
    }
  }

  lemma {:induction false} CallsServe<T>(s: Sched<T>, ticks: seq<uint64>, now: uint64, t: T)
    requires Ready(s, now) && UpTo(ticks, now) && t in s.recs && !Stuck(s.recs[t], now)
    ensures var r := Calls(s, ticks);
      && t in r.state.recs && !Stuck(r.state.recs[t], now)
      && Passed(s.recs[t], now) == Count(r.fired, t) + Passed(r.state.recs[t], now)
      && Served(s.recs[t], now) == Served(r.state.recs[t], now)
    decreases |ticks|
  {
    if ticks != [] {
      var k := |ticks| - 1;
      var before := Calls(s, ticks[..k]);
      CallsServe(s, ticks[..k], now, t);
      CallsReady(s, ticks[..k], now);
      OneService(before.state, ticks[k], now, t);
      CountConcat(before.fired, RunTimers(before.state, ticks[k], []).fired, t);
    }
  }

  /** A stuck timer stays as it is: firing it changes nothing. */
  lemma StuckCall<T>(s: Sched<T>, tick: uint64, now: uint64, t: T)
    requires Ready(s, now) && tick <= now && t in s.recs && Stuck(s.recs[t], now)
    ensures var o := RunTimers(s, tick, []); t in o.state.recs && o.state.recs[t] == s.recs[t]
  {
    if Due(s, tick) {
      var front := s.queue[0];
      assert RunTimers(s, tick, []).state.recs == s.recs[front := Advanced(s.recs[front])] by { QuietShape(s, now); }
      StuckAdvance(s.recs[t], now);
    }
  }

  lemma StuckAdvance(rec: Rec, now: uint64)
    requires Stuck(rec, now)
    ensures Advanced(rec) == rec
  {
  }

  lemma {:induction false} StuckStays<T>(s: Sched<T>, ticks: seq<uint64>, now: uint64, t: T)
    requires Ready(s, now) && UpTo(ticks, now) && t in s.recs && Stuck(s.recs[t], now)
    ensures t in Calls(s, ticks).state.recs && Calls(s, ticks).state.recs[t] == s.recs[t]
    decreases |ticks|
  {
    if ticks != [] {
      var k := |ticks| - 1;
      StuckStays(s, ticks[..k], now, t);
      CallsReady(s, ticks[..k], now);
      StuckCall(Calls(s, ticks[..k]).state, ticks[k], now, t);
    }
  }

  /** No running timer expires before the front one. */
  lemma FrontIsFirst<T>(s: Sched<T>, t: T)
    requires Ordered(s, 0) && Member(s) && t in s.recs && s.recs[t].running
    ensures s.queue != [] && Key(s.recs, s.queue[0]) <= s.recs[t].expiry
  {
    assert multiset(s.queue)[t] == 1;
    var i :| 0 <= i < |s.queue| && s.queue[i] == t;
    assert i > 0 ==> Key(s.recs, s.queue[0]) <= Key(s.recs, s.queue[i]);
  }

  /** Nothing is left to serve when the front timer is not due. */
  lemma NothingLeft<T>(s: Sched<T>, now: uint64, t: T)
    requires Ordered(s, 0) && Member(s) && !Due(s, now) && t in s.recs
    ensures !Stuck(s.recs[t], now) && Passed(s.recs[t], now) == 0
  {
    if s.recs[t].running && s.recs[t].expiry <= now { FrontIsFirst(s, t); }
  }

  // ----- a timer that nobody touches, while handlers do anything to the others -----

  ghost predicate ScriptLeaves<T>(script: seq<Timed<T>>, t: T) {
    forall i :: 0 <= i < |script| ==> script[i].op.timer != t
  }

  /** Neither the call nor the handler that the step runs operates on t. */
  ghost predicate StepLeaves<T>(step: Step<T>, t: T) {
    match step
    case Call(op, _) => op.timer != t
    case Run(script, _) => ScriptLeaves(script, t)
  }

  lemma ApplyLeaves<T>(s: Sched<T>, op: Op<T>, now: uint64, t: T)
    requires op.timer in s.recs && t in s.recs && op.timer != t
    ensures Apply(s, op, now).recs[t] == s.recs[t]
  {
  }

  lemma {:induction false} RunLeaves<T>(s: Sched<T>, script: seq<Timed<T>>, t: T)
    requires Known(script, s.recs.Keys) && t in s.recs && ScriptLeaves(script, t)
    ensures RunScript(s, script).recs[t] == s.recs[t]
  {
    if script != [] {
      var k := |script| - 1;
      RunLeaves(s, script[..k], t);
      ApplyLeaves(RunScript(s, script[..k]), script[k].op, script[k].now, t);
    }
  }

  /** What a firing does to the record of a timer that the handler leaves alone. */
  lemma FireLeaves<T>(s: Sched<T>, script: seq<Timed<T>>, t: T)
    requires s.queue != [] && s.queue[0] in s.recs && Known(script, s.recs.Keys)
    requires t in s.recs && ScriptLeaves(script, t)
    ensures Fire(s, script).recs[t] == if t == s.queue[0] then Advanced(s.recs[t]) else s.recs[t]
  {
    RunLeaves(s, script, t);
  }

  /** Deadlines passed by now: those still to be served after `from` fired `log` and became `to`. */
  ghost predicate Accounts<T>(from: Rec, log: seq<Fired<T>>, to: Rec, now: uint64, t: T)
    requires now < LAST_TICK && !Stuck(from, now)
  {
    && !Stuck(to, now)
    && Passed(from, now) == Count(log, t) + Passed(to, now)
    && Served(from, now) == Served(to, now)
  }

  lemma StepAccounts<T>(s: Sched<T>, step: Step<T>, clock: nat, now: uint64, t: T)
    requires Ordered(s, 0) && Member(s) && LegalStep(s, step, clock) && step.now <= now < LAST_TICK
    requires t in s.recs && StepLeaves(step, t) && !Stuck(s.recs[t], now)
    ensures var o := DoStep(s, step, clock); t in o.state.recs && Accounts(s.recs[t], o.fired, o.state.recs[t], now, t)
  {
    match step
    case Call(op, tick) => ApplyLeaves(s, op, tick, t);
    case Run(script, tick) =>
      if Due(s, tick) {
        FrontRuns(s);
        FireLeaves(s, script, t);
        var fired := DoStep(s, step, clock).fired;
        assert fired[1..] == [] && fired[0].timer == s.queue[0];
        if t == s.queue[0] { AdvanceServes(s.recs[t], now); }
      }
  }

  lemma AccountsConcat<T>(a: Rec, log: seq<Fired<T>>, b: Rec, log': seq<Fired<T>>, c: Rec, now: uint64, t: T)
    requires now < LAST_TICK && !Stuck(a, now) && !Stuck(b, now)
    requires Accounts(a, log, b, now, t) && Accounts(b, log', c, now, t)
    ensures Accounts(a, log + log', c, now, t)
  {
    CountConcat(log, log', t);
  }

  /** Over every run of timer calls and runTimers with handlers that do what they like to the other
      timers: the firings of t and its deadlines still unserved are those that have passed by now. */
  lemma {:induction false} RunAccounts<T>(s: Sched<T>, steps: seq<Step<T>>, clock: nat, now: uint64, t: T)
    requires Ordered(s, 0) && Member(s) && LegalRun(s, steps, clock) && TameRun(s, steps, clock)
    requires forall i :: 0 <= i < |steps| ==> steps[i].now <= now && StepLeaves(steps[i], t)
    requires now < LAST_TICK && t in s.recs && !Stuck(s.recs[t], now)
    ensures var r := Exec(s, steps, clock); t in r.state.recs && Accounts(s.recs[t], r.fired, r.state.recs[t], now, t)
    decreases |steps|
  {
    if steps != [] {
      StepOrders(s, steps[0], clock, 0);
      StepKeepsMember(s, steps[0], clock);
      StepAccounts(s, steps[0], clock, now, t);
      var o := DoStep(s, steps[0], clock);
      var r := Exec(o.state, steps[1..], steps[0].now);
      RunAccounts(o.state, steps[1..], steps[0].now, now, t);
      AccountsConcat(s.recs[t], o.fired, o.state.recs[t], r.fired, r.state.recs[t], now, t);
    }
  }

  /** When such a run ends with nothing due, t has fired once per deadline passed and is at its next. */
  lemma {:induction false} UntouchedCatchUp<T>(s: Sched<T>, steps: seq<Step<T>>, clock: nat, now: uint64, t: T)
    requires Ordered(s, 0) && Member(s) && LegalRun(s, steps, clock) && TameRun(s, steps, clock)
    requires forall i :: 0 <= i < |steps| ==> steps[i].now <= now && StepLeaves(steps[i], t)
    requires now < LAST_TICK && t in s.recs && !Stuck(s.recs[t], now)
    ensures var r := Exec(s, steps, clock);
      !Due(r.state, now) ==>
        && t in r.state.recs
        && Count(r.fired, t) == Passed(s.recs[t], now)
        && r.state.recs[t] == Served(s.recs[t], now)
  {
    RunAccounts(s, steps, clock, now, t);
    RunOrders(s, steps, clock);
    MembershipOverRuns(s, steps, clock);
    if !Due(Exec(s, steps, clock).state, now) { NothingLeft(Exec(s, steps, clock).state, now, t); }
  }

  lemma {:induction false} RunOrders<T>(s: Sched<T>, steps: seq<Step<T>>, clock: nat)
    requires Ordered(s, 0) && LegalRun(s, steps, clock)
    ensures Ordered(Exec(s, steps, clock).state, 0)
    decreases |steps|
  {
    if steps != [] {
      StepOrders(s, steps[0], clock, 0);
      RunOrders(DoStep(s, steps[0], clock).state, steps[1..], steps[0].now);
    }
  }

  // ----- a one-shot restarted by its own handler -----

  lemma {:induction false} InsertInFrontIff<T>(q: seq<T>, t: T, recs: map<T, Rec>)
    requires Sorted(q, recs) && t !in q
    ensures Insert(q, t, recs) != []
    ensures Insert(q, t, recs)[0] == t <==> q == [] || Key(recs, t) < Key(recs, q[0])
  {
    if q != [] && Key(recs, q[|q|-1]) > Key(recs, t) {
      InsertInFrontIff(q[..|q|-1], t, recs);
    }
  }

  /** The queue after the front one-shot's handler restarts it at the given tick. */
  lemma OwnRestart<T>(s: Sched<T>, tick: uint64)
    requires Ordered(s, 0) && Member(s) && s.queue != []
    ensures var t := s.queue[0]; var recs := s.recs[t := Restarted(s.recs[t], tick)];
      RestartTimer(s, t, tick) == Sched(recs, Insert(s.queue[1..], t, recs))
  {
    var t, rest := s.queue[0], s.queue[1..];
    FrontRuns(s);
    StopFront(s);
    var recs, recs' := s.recs[t := s.recs[t].(running := false)], s.recs[t := Restarted(s.recs[t], tick)];
    assert recs[t := Restarted(s.recs[t], tick)] == recs';
    SortBehind(rest, t, recs');
  }

  /** Stopping the front timer takes it off the queue. */
  lemma StopFront<T>(s: Sched<T>)
    requires Ordered(s, 0) && Member(s) && s.queue != []
    ensures var t := s.queue[0];
      StopTimer(s, t) == Sched(s.recs[t := s.recs[t].(running := false)], s.queue[1..])
  {
    FrontRuns(s);
    SortedIsFixed(s.queue[1..], s.recs[s.queue[0] := s.recs[s.queue[0]].(running := false)]);
  }

  lemma SortBehind<T>(q: seq<T>, t: T, recs: map<T, Rec>)
    requires Sorted(q, recs)
    ensures Sort(q + [t], recs) == Insert(q, t, recs)
  {
    assert (q + [t])[..|q|] == q;
    SortedIsFixed(q, recs);
  }

  function Restarted(rec: Rec, tick: uint64): Rec {
    rec.(expiry := Deadline(tick, rec.interval), running := true)
  }

  /** A handler that does nothing but one operation. */
  ghost function Only<T>(op: Op<T>, tick: uint64): seq<Timed<T>> {
    [Timed(op, tick)]
  }

  lemma RunOnly<T>(s: Sched<T>, op: Op<T>, tick: uint64)
    requires op.timer in s.recs
    ensures Known(Only(op, tick), s.recs.Keys) && RunScript(s, Only(op, tick)) == Apply(s, op, tick)
  {
  }

  /** A one-shot that its own handler restarts ends with its running flag cleared; it also stays
      queued, and so breaks the agreement, exactly when another timer expires no later. */
  lemma OwnRestartIff<T>(s: Sched<T>, tick: uint64)
    requires Ordered(s, 0) && Member(s) && s.queue != [] && !s.recs[s.queue[0]].repeat
    ensures var t, script := s.queue[0], Only(Op.Restart(s.queue[0]), tick);
      && Known(script, s.recs.Keys)
      && !Fire(s, script).recs[t].running
      && (Member(Fire(s, script)) <==>
            |s.queue| == 1 || Deadline(tick, s.recs[t].interval) < Key(s.recs, s.queue[1]))
  {
    var t, rest := s.queue[0], s.queue[1..];
    var script, recs := Only(Op.Restart(t), tick), s.recs[t := Restarted(s.recs[t], tick)];
    FrontRuns(s);
    RunOnly(s, Op.Restart(t), tick);
    OwnRestart(s, tick);
    InsertInFrontIff(rest, t, recs);
    assert Settles(s, script) <==> t == Insert(rest, t, recs)[0] by { InsertHas(rest, t, recs); }
    assert Member(Fire(s, script)) <==> Settles(s, script) by { FireKeepsMemberIff(s, script); }
    FireCounts(s, script, t);
  }

  lemma InsertHas<T>(q: seq<T>, t: T, recs: map<T, Rec>)
    ensures t in Insert(q, t, recs)
  {
    InsertPermutes(q, t, recs);
    assert t in multiset(Insert(q, t, recs));
  }
}
