/** Laws of the timer scheduler over single steps and over whole runs. */
module TimerTheorems {
  import opened Machine
  import opened TimerQueue

  // ----- the sort is the stable sort -----

  /** The elements of q whose key is e, in order. */
  ghost function WithKey<T>(q: seq<T>, recs: map<T, Rec>, e: uint64): seq<T> {
    if q == [] then []
    else WithKey(q[..|q|-1], recs, e) + (if Key(recs, q[|q|-1]) == e then [q[|q|-1]] else [])
  }

  /** Work left for the drain at time now: every due timer counts its lateness plus one. */
  ghost function Work<T>(q: seq<T>, recs: map<T, Rec>, now: uint64): nat {
    if q == [] then 0
    else Work(q[..|q|-1], recs, now) + Lateness(Key(recs, q[|q|-1]), now)
  }

  ghost function Lateness(expiry: uint64, now: uint64): nat {
    if expiry <= now then now - expiry + 1 else 0
  }

  lemma {:induction false} InsertPermutes<T>(q: seq<T>, t: T, recs: map<T, Rec>)
    ensures multiset(Insert(q, t, recs)) == multiset(q) + multiset{t}
  {
    if q != [] && Key(recs, q[|q|-1]) > Key(recs, t) {
      InsertPermutes(q[..|q|-1], t, recs);
      assert q == q[..|q|-1] + [q[|q|-1]];
    }
  }

  lemma {:induction false} InsertSorts<T>(q: seq<T>, t: T, recs: map<T, Rec>)
    requires Sorted(q, recs)
    ensures Sorted(Insert(q, t, recs), recs)
  {
    if q != [] && Key(recs, q[|q|-1]) > Key(recs, t) {
      var front, last := q[..|q|-1], q[|q|-1];
      InsertSorts(front, t, recs);
      InsertPermutes(front, t, recs);
      var r := Insert(front, t, recs);
      forall i | 0 <= i < |r| ensures Key(recs, r[i]) <= Key(recs, last) {
        assert r[i] in multiset(r);
        assert r[i] == t || r[i] in front;
      }
    }
  }

  lemma {:induction false} InsertKeepsWork<T>(q: seq<T>, t: T, recs: map<T, Rec>, now: uint64)
    ensures Work(Insert(q, t, recs), recs, now) == Work(q, recs, now) + Lateness(Key(recs, t), now)
  {
    assert (q + [t])[..|q|] == q;
    if q != [] && Key(recs, q[|q|-1]) > Key(recs, t) {
      InsertKeepsWork(q[..|q|-1], t, recs, now);
      var r := Insert(q[..|q|-1], t, recs);
      assert (r + [q[|q|-1]])[..|r|] == r;
    }
  }

  lemma {:induction false} InsertIsStable<T>(q: seq<T>, t: T, recs: map<T, Rec>, e: uint64)
    ensures WithKey(Insert(q, t, recs), recs, e) == WithKey(q + [t], recs, e)
  {
    assert (q + [t])[..|q|] == q;
    if q != [] && Key(recs, q[|q|-1]) > Key(recs, t) {
      var front := q[..|q|-1];
      InsertIsStable(front, t, recs, e);
      var r := Insert(front, t, recs);
      assert (r + [q[|q|-1]])[..|r|] == r;
      assert (front + [t])[..|front|] == front;
    }
  }

  /** A timer that expires no earlier than the front one is placed behind it. */
  lemma {:induction false} InsertBehindFront<T>(q: seq<T>, t: T, recs: map<T, Rec>)
    requires q != [] && Key(recs, q[0]) <= Key(recs, t)
    ensures Insert(q, t, recs)[0] == q[0]
  {
    if Key(recs, q[|q|-1]) > Key(recs, t) {
      InsertBehindFront(q[..|q|-1], t, recs);
    }
  }

  lemma {:induction false} SortLaws<T>(q: seq<T>, recs: map<T, Rec>)
    ensures Sorted(Sort(q, recs), recs)
    ensures multiset(Sort(q, recs)) == multiset(q)
  {
    if q != [] {
      var front, last := q[..|q|-1], q[|q|-1];
      SortLaws(front, recs);
      InsertSorts(Sort(front, recs), last, recs);
      InsertPermutes(Sort(front, recs), last, recs);
      assert q == front + [last];
    }
  }

  lemma {:induction false} SortKeepsWork<T>(q: seq<T>, recs: map<T, Rec>, now: uint64)
    ensures Work(Sort(q, recs), recs, now) == Work(q, recs, now)
  {
    if q != [] {
      SortKeepsWork(q[..|q|-1], recs, now);
      InsertKeepsWork(Sort(q[..|q|-1], recs), q[|q|-1], recs, now);
    }
  }

  /** std::list::sort keeps elements that compare equal in their order. */
  lemma {:induction false} SortIsStable<T>(q: seq<T>, recs: map<T, Rec>, e: uint64)
    ensures WithKey(Sort(q, recs), recs, e) == WithKey(q, recs, e)
  {
    if q != [] {
      var sorted := Sort(q[..|q|-1], recs);
      SortIsStable(q[..|q|-1], recs, e);
      InsertIsStable(sorted, q[|q|-1], recs, e);
      assert (sorted + [q[|q|-1]])[..|sorted|] == sorted;
    }
  }

  /** Sorting a sorted list changes nothing. */
  lemma {:induction false} SortedIsFixed<T>(q: seq<T>, recs: map<T, Rec>)
    requires Sorted(q, recs)
    ensures Sort(q, recs) == q
  {
    if q != [] {
      SortedIsFixed(q[..|q|-1], recs);
      assert q == q[..|q|-1] + [q[|q|-1]];
    }
  }

  lemma {:induction false} RemoveFirstPermutes<T>(q: seq<T>, t: T)
    requires t in q
    ensures multiset(RemoveFirst(q, t)) == multiset(q) - multiset{t}
  {
    assert q == [q[0]] + q[1..];
    if q[0] != t {
      RemoveFirstPermutes(q[1..], t);
    }
  }

  /** A front timer that expires first keeps its place when the list is sorted again. */
  lemma {:induction false} SortKeepsFront<T>(q: seq<T>, recs: map<T, Rec>)
    requires q != [] && forall i :: 0 <= i < |q| ==> Key(recs, q[0]) <= Key(recs, q[i])
    ensures Sort(q, recs) != [] && Sort(q, recs)[0] == q[0]
  {
    var front, last := q[..|q|-1], q[|q|-1];
    if front == [] {
      assert Sort(front, recs) == [];
    } else {
      SortKeepsFront(front, recs);
      InsertBehindFront(Sort(front, recs), last, recs);
      InsertPermutes(Sort(front, recs), last, recs);
    }
  }

  // ----- order: the queue is sorted and nothing in it expires before a floor -----

  ghost predicate Ordered<T>(s: Sched<T>, floor: int) {
    && Sorted(s.queue, s.recs)
    && (forall t :: t in s.queue ==> t in s.recs && floor <= s.recs[t].expiry)
  }

  /** Ticks at which no start() can wrap around 64 bits. */
  const LAST_TICK: int := TWO64 - TWO32

  /** Sorting any list whose elements respect the floor gives an ordered scheduler. */
  lemma SortOrders<T>(q: seq<T>, recs: map<T, Rec>, floor: int)
    requires forall t :: t in q ==> t in recs && floor <= recs[t].expiry
    ensures Ordered(Sched(recs, Sort(q, recs)), floor)
  {
    SortLaws(q, recs);
    forall t | t in Sort(q, recs) ensures t in q {
      assert t in multiset(Sort(q, recs));
    }
  }

  lemma StopOrders<T>(s: Sched<T>, t: T, floor: int)
    requires Ordered(s, floor) && t in s.recs
    ensures Ordered(StopTimer(s, t), floor)
  {
    var recs := s.recs[t := s.recs[t].(running := false)];
    assert Sorted(s.queue, recs);
    if t in s.queue {
      var q := RemoveFirst(s.queue, t);
      forall u | u in q ensures u in s.queue {
        RemoveFirstAmong(s.queue, t, u);
      }
      SortOrders(q, recs, floor);
    }
  }

  lemma RemoveFirstAmong<T>(q: seq<T>, t: T, u: T)
    requires t in q && u in RemoveFirst(q, t)
    ensures u in q
  {
    RemoveFirstPermutes(q, t);
    assert u in multiset(RemoveFirst(q, t));
  }

  lemma StartOrders<T>(s: Sched<T>, t: T, msec: uint32, repeat: bool, now: uint64, floor: int)
    requires Ordered(s, floor) && t in s.recs && floor <= now < LAST_TICK
    ensures Ordered(StartTimer(s, t, msec, repeat, now), floor)
  {
    if !s.recs[t].running {
      SortOrders(s.queue + [t], s.recs[t := Rec(msec, repeat, Deadline(now, msec), true)], floor);
    }
  }

  lemma ApplyOrders<T>(s: Sched<T>, op: Op<T>, now: uint64, floor: int)
    requires Ordered(s, floor) && op.timer in s.recs && floor <= now < LAST_TICK
    ensures Ordered(Apply(s, op, now), floor)
  {
    match op
    case Start(t, msec, repeat) => StartOrders(s, t, msec, repeat, now, floor);
    case Stop(t) => StopOrders(s, t, floor);
    case Restart(t) =>
      if s.recs[t].running { StopOrders(s, t, floor); }
      var s1 := if s.recs[t].running then StopTimer(s, t) else s;
      StartOrders(s1, t, s1.recs[t].interval, s1.recs[t].repeat, now, floor);
    case SetInterval(_, _) =>
    case SetRepeat(_, _) =>
  }

  /** Every tick of the script is read at or after `from`. */
  ghost predicate ClockOk<T>(script: seq<Timed<T>>, from: uint64) {
    forall i :: 0 <= i < |script| ==> from <= script[i].now < LAST_TICK
  }

  lemma {:induction false} ScriptOrders<T>(s: Sched<T>, script: seq<Timed<T>>, from: uint64, floor: int)
    requires Ordered(s, floor) && floor <= from && ClockOk(script, from) && Known(script, s.recs.Keys)
    ensures Ordered(RunScript(s, script), floor)
  {
    if script != [] {
      var k := |script| - 1;
      ScriptOrders(s, script[..k], from, floor);
      ApplyOrders(RunScript(s, script[..k]), script[k].op, script[k].now, floor);
    }
  }

  /** The next deadline of a repeating timer fits in 64 bits. */
  ghost predicate NoWrap<T>(s: Sched<T>, script: seq<Timed<T>>)
    requires s.queue != [] && s.queue[0] in s.recs && Known(script, s.recs.Keys)
  {
    var rec := RunScript(s, script).recs[s.queue[0]];
    rec.repeat ==> rec.expiry + rec.interval < TWO64
  }

  /** After execute() no queued timer expires before the floor. */
  lemma ExecuteOrders<T>(s: Sched<T>, script: seq<Timed<T>>, floor: int)
    requires s.queue != [] && s.queue[0] in s.recs && Known(script, s.recs.Keys) && NoWrap(s, script)
    requires Ordered(RunScript(s, script), floor)
    ensures var s1 := Execute(s, s.queue[0], script);
      forall u :: u in s1.queue ==> u in s1.recs && floor <= s1.recs[u].expiry
  {
  }

  /** One due firing, whatever the handler does: nothing left in the queue expires before the
      timer that fired. */
  lemma FireOrders<T>(s: Sched<T>, now: uint64, script: seq<Timed<T>>)
    requires Ordered(s, 0) && Due(s, now) && now < LAST_TICK
    requires Known(script, s.recs.Keys) && ClockOk(script, now) && NoWrap(s, script)
    ensures Ordered(Fire(s, script), Key(s.recs, s.queue[0]))
  {
    var t := s.queue[0];
    var e := s.recs[t].expiry;
    assert Ordered(s, e);
    ScriptOrders(s, script, now, e);
    ExecuteOrders(s, script, e);
    var s1 := Execute(s, t, script);
    var q := Popped(s1, t);
    forall u | u in q ensures u in s1.recs && e <= s1.recs[u].expiry {
      assert u in s1.queue;
    }
    SortOrders(q, s1.recs, e);
  }

  lemma WrapIsSmall(expiry: uint64, interval: uint32)
    requires expiry + interval >= TWO64
    ensures (expiry + interval) % TWO64 < TWO32
  {
  }

  /** Once the fired expiry has passed 2^32 ms, a timer still queued after its handler keeps the
      order exactly when its next deadline does not wrap. */
  lemma {:induction false} FireOrdersIff<T>(s: Sched<T>, now: uint64, script: seq<Timed<T>>)
    requires Ordered(s, 0) && Due(s, now) && now < LAST_TICK
    requires Known(script, s.recs.Keys) && ClockOk(script, now)
    requires Key(s.recs, s.queue[0]) >= TWO32 && s.queue[0] in RunScript(s, script).queue
    ensures Ordered(Fire(s, script), Key(s.recs, s.queue[0])) <==> NoWrap(s, script)
  {
    var t := s.queue[0];
    if NoWrap(s, script) {
      FireOrders(s, now, script);
    } else {
      WrappedStaysQueued(s, script);
    }
  }

  /** A repeating deadline that wraps leaves its timer queued with an expiry below 2^32. */
  lemma {:induction false} WrappedStaysQueued<T>(s: Sched<T>, script: seq<Timed<T>>)
    requires s.queue != [] && s.queue[0] in s.recs && Known(script, s.recs.Keys)
    requires !NoWrap(s, script) && s.queue[0] in RunScript(s, script).queue
    ensures s.queue[0] in Fire(s, script).queue && Key(Fire(s, script).recs, s.queue[0]) < TWO32
  {
    var t, s1 := s.queue[0], Execute(s, s.queue[0], script);
    var rec := RunScript(s, script).recs[t];
    assert Advanced(rec).expiry < TWO32 by { WrapIsSmall(rec.expiry, rec.interval); }
    assert s1.recs[t] == Advanced(rec);
    QueuedAfterFire(s, script);
  }

  lemma {:induction false} QueuedAfterFire<T>(s: Sched<T>, script: seq<Timed<T>>)
    requires s.queue != [] && s.queue[0] in s.recs && Known(script, s.recs.Keys)
    requires RunScript(s, script).recs[s.queue[0]].repeat && s.queue[0] in RunScript(s, script).queue
    ensures s.queue[0] in Fire(s, script).queue
  {
    var t, s1 := s.queue[0], Execute(s, s.queue[0], script);
    assert Popped(s1, t) == s1.queue;
    SortLaws(s1.queue, s1.recs);
    assert t in multiset(Sort(s1.queue, s1.recs));
  }

  // ----- whole runs -----

  /** One atomic step of a run: a timer call from outside, or one runTimers with what the handler
      of the timer it fires does. */
  datatype Step<T> = Call(op: Op<T>, now: uint64) | Run(script: seq<Timed<T>>, now: uint64)

  /** The step stays inside what the source defines: the clock does not run backwards, timers are
      known, front() is not taken of an empty list, and no repeating deadline exceeds 64 bits. */
  ghost predicate LegalStep<T>(s: Sched<T>, step: Step<T>, clock: int)
    requires Ordered(s, 0)
  {
    && clock <= step.now < LAST_TICK
    && match step {
         case Call(op, _) => op.timer in s.recs
         case Run(script, now) =>
           && Known(script, s.recs.Keys) && ClockOk(script, now)
           && (Due(s, now) ==> FrontDefined(s, script) && NoWrap(s, script))
       }
  }

  ghost function DoStep<T>(s: Sched<T>, step: Step<T>, clock: int): Outcome<T>
    requires Ordered(s, 0) && LegalStep(s, step, clock)
  {
    match step
    case Call(op, now) => Outcome(Apply(s, op, now), 0, [])
    case Run(script, now) => RunTimers(s, now, script)
  }

  lemma StepOrders<T>(s: Sched<T>, step: Step<T>, clock: int, floor: int)
    requires 0 <= floor <= clock && Ordered(s, floor) && LegalStep(s, step, clock)
    ensures var o := DoStep(s, step, clock);
      && |o.fired| <= 1
      && Ordered(o.state, floor)
      && forall f :: f in o.fired ==> floor <= f.expiry <= f.now == step.now && Ordered(o.state, f.expiry)
  {
    match step
    case Call(op, now) => ApplyOrders(s, op, now, floor);
    case Run(script, now) =>
      if Due(s, now) {
        FireOrders(s, now, script);
      }
  }

  /** A scheduler in which no timer has been started meets the assumptions of the theorems below. */
  lemma IdleIsReady<T>(s: Sched<T>)
    requires s.queue == [] && forall t :: t in s.recs ==> !s.recs[t].running
    ensures Ordered(s, 0) && Member(s)
  {
  }

  ghost predicate LegalRun<T>(s: Sched<T>, steps: seq<Step<T>>, clock: nat)
    requires Ordered(s, 0)
    decreases |steps|
  {
    steps == [] ||
    (&& LegalStep(s, steps[0], clock)
     && (StepOrders(s, steps[0], clock, 0); LegalRun(DoStep(s, steps[0], clock).state, steps[1..], steps[0].now)))
  }

  /** The final scheduler and the log of firings of a run. */
  ghost function Exec<T>(s: Sched<T>, steps: seq<Step<T>>, clock: nat): Outcome<T>
    requires Ordered(s, 0) && LegalRun(s, steps, clock)
    decreases |steps|
  {
    if steps == [] then Outcome(s, 0, [])
    else
      StepOrders(s, steps[0], clock, 0);
      var o := DoStep(s, steps[0], clock);
      var r := Exec(o.state, steps[1..], steps[0].now);
      Outcome(r.state, r.wait, o.fired + r.fired)
  }

  /** Firings are never early and their expiries never decrease, from the floor up. */
  ghost predicate InOrder<T>(log: seq<Fired<T>>, floor: int) {
    && (forall i :: 0 <= i < |log| ==> floor <= log[i].expiry <= log[i].now)
    && (forall i, j :: 0 <= i < j < |log| ==> log[i].expiry <= log[j].expiry)
  }

  /** Over every run, with handlers that may do anything to any timer, timers fire in the order of
      their expiries and never early. */
  lemma {:induction false} FiringOrder<T>(s: Sched<T>, steps: seq<Step<T>>, clock: nat, floor: nat)
    requires floor <= clock && Ordered(s, floor) && LegalRun(s, steps, clock)
    ensures InOrder(Exec(s, steps, clock).fired, floor)
    decreases |steps|
  {
    if steps != [] {
      StepOrders(s, steps[0], clock, floor);
      var o := DoStep(s, steps[0], clock);
      var floor' := if o.fired == [] then floor else o.fired[0].expiry;
      FiringOrder(o.state, steps[1..], steps[0].now, floor');
      InOrderConcat(o.fired, Exec(o.state, steps[1..], steps[0].now).fired, floor, floor');
    }
  }

  /** At most one firing, and then firings from its expiry up. */
  lemma InOrderConcat<T>(first: seq<Fired<T>>, rest: seq<Fired<T>>, floor: int, floor': int)
    requires |first| <= 1 && floor' == (if first == [] then floor else first[0].expiry)
    requires first != [] ==> floor <= first[0].expiry <= first[0].now
    requires InOrder(rest, floor')
    ensures InOrder(first + rest, floor)
  {
    if first == [] { assert first + rest == rest; }
  }

  // ----- membership: running timers are exactly the queued ones, once each -----

  ghost predicate Member<T>(s: Sched<T>) {
    forall t :: t in s.recs ==> multiset(s.queue)[t] == if s.recs[t].running then 1 else 0
  }

  lemma StopKeepsMember<T>(s: Sched<T>, t: T)
    requires Member(s) && t in s.recs
    ensures Member(StopTimer(s, t))
  {
    if t in s.queue {
      RemoveFirstPermutes(s.queue, t);
      SortLaws(RemoveFirst(s.queue, t), s.recs[t := s.recs[t].(running := false)]);
    }
  }

  lemma StartKeepsMember<T>(s: Sched<T>, t: T, msec: uint32, repeat: bool, now: uint64)
    requires Member(s) && t in s.recs
    ensures Member(StartTimer(s, t, msec, repeat, now))
  {
    SortLaws(s.queue + [t], s.recs[t := Rec(msec, repeat, Deadline(now, msec), true)]);
  }

  lemma ApplyKeepsMember<T>(s: Sched<T>, op: Op<T>, now: uint64)
    requires Member(s) && op.timer in s.recs
    ensures Member(Apply(s, op, now))
  {
    match op
    case Start(t, msec, repeat) => StartKeepsMember(s, t, msec, repeat, now);
    case Stop(t) => StopKeepsMember(s, t);
    case Restart(t) =>
      if s.recs[t].running { StopKeepsMember(s, t); }
      var s1 := if s.recs[t].running then StopTimer(s, t) else s;
      StartKeepsMember(s1, t, s1.recs[t].interval, s1.recs[t].repeat, now);
    case SetInterval(_, _) =>
    case SetRepeat(_, _) =>
  }

  lemma {:induction false} ScriptKeepsMember<T>(s: Sched<T>, script: seq<Timed<T>>)
    requires Member(s) && Known(script, s.recs.Keys)
    ensures Member(RunScript(s, script))
  {
    if script != [] {
      var k := |script| - 1;
      ScriptKeepsMember(s, script[..k]);
      ApplyKeepsMember(RunScript(s, script[..k]), script[k].op, script[k].now);
    }
  }

  /** After the handler the fired timer repeats, has left the queue, or is still its front. */
  ghost predicate Settles<T>(s: Sched<T>, script: seq<Timed<T>>)
    requires s.queue != [] && s.queue[0] in s.recs && Known(script, s.recs.Keys)
  {
    var t, s1 := s.queue[0], RunScript(s, script);
    s1.recs[t].repeat || t !in s1.queue || t == s1.queue[0]
  }

  /** What popping removes from the queue. */
  lemma PoppedQueue<T>(s: Sched<T>, t: T)
    requires t in s.recs
    ensures multiset(Popped(s, t)) ==
      if !s.recs[t].repeat && s.queue != [] && s.queue[0] == t then multiset(s.queue) - multiset{t}
      else multiset(s.queue)
  {
    if s.queue != [] {
      assert s.queue == [s.queue[0]] + s.queue[1..];
    }
  }

  /** What a firing does to how often a timer is queued, and to its flag. */
  lemma FireCounts<T>(s: Sched<T>, script: seq<Timed<T>>, u: T)
    requires s.queue != [] && s.queue[0] in s.recs && Known(script, s.recs.Keys) && u in s.recs
    ensures var t, s0, s2 := s.queue[0], RunScript(s, script), Fire(s, script);
      && s2.recs[u].running == (s0.recs[u].running && (u != t || s0.recs[t].repeat))
      && multiset(s2.queue)[u] == multiset(s0.queue)[u] -
         if u == t && !s0.recs[t].repeat && s0.queue != [] && s0.queue[0] == t then 1 else 0
  {
    var t := s.queue[0];
    var s1 := Execute(s, t, script);
    PoppedQueue(s1, t);
    SortLaws(Popped(s1, t), s1.recs);
    assert s1.queue == RunScript(s, script).queue;
  }

  /** Exactly when one firing keeps the list and the running flags in agreement. */
  lemma {:induction false} FireKeepsMemberIff<T>(s: Sched<T>, script: seq<Timed<T>>)
    requires Member(s) && s.queue != [] && s.queue[0] in s.recs && Known(script, s.recs.Keys)
    ensures Member(Fire(s, script)) <==> Settles(s, script)
  {
    var t, s0 := s.queue[0], RunScript(s, script);
    ScriptKeepsMember(s, script);
    QueuedIffCounted(s0, t);
    FireCounts(s, script, t);
    if Settles(s, script) {
      forall u | u in s.recs
        ensures multiset(Fire(s, script).queue)[u] == if Fire(s, script).recs[u].running then 1 else 0
      {
        FireCounts(s, script, u);
      }
    }
  }

  lemma QueuedIffCounted<T>(s: Sched<T>, t: T)
    ensures t in s.queue <==> multiset(s.queue)[t] >= 1
  {
  }

  /** The script neither starts nor restarts t. */
  ghost predicate LeavesOwn<T>(script: seq<Timed<T>>, t: T) {
    forall i :: 0 <= i < |script| && script[i].op.timer == t ==> !script[i].op.Start? && !script[i].op.Restart?
  }

  /** Timer t keeps its expiry e and is either out of the queue or in front of it. */
  ghost predicate FrontOrGone<T>(s: Sched<T>, t: T, e: int) {
    t in s.recs && s.recs[t].expiry == e && (t !in s.queue || t == s.queue[0])
  }

  lemma ResortKeepsFront<T>(q: seq<T>, recs: map<T, Rec>, t: T, e: int)
    requires t in recs && recs[t].expiry == e && (t !in q || t == q[0])
    requires forall u :: u in q ==> u in recs && e <= recs[u].expiry
    ensures FrontOrGone(Sched(recs, Sort(q, recs)), t, e)
  {
    SortLaws(q, recs);
    if t in q {
      SortKeepsFront(q, recs);
    } else {
      assert t !in multiset(Sort(q, recs));
    }
  }

  lemma StopKeepsFront<T>(s: Sched<T>, u: T, t: T, e: int)
    requires Member(s) && Ordered(s, e) && FrontOrGone(s, t, e) && u in s.recs
    ensures FrontOrGone(StopTimer(s, u), t, e)
  {
    if u in s.queue {
      RemoveFirstPermutes(s.queue, u);
      var q := RemoveFirst(s.queue, u);
      forall v | v in q ensures v in s.queue && (t in q ==> q[0] == t) {
        assert v in multiset(q);
        assert t in q ==> t in multiset(q);
        assert s.queue[0] == u && t == u ==> t !in multiset(q);
      }
      assert t in q ==> q[0] == t;
      ResortKeepsFront(q, s.recs[u := s.recs[u].(running := false)], t, e);
    }
  }

  lemma StartKeepsFront<T>(s: Sched<T>, u: T, msec: uint32, repeat: bool, now: uint64, t: T, e: int)
    requires Ordered(s, e) && FrontOrGone(s, t, e) && u in s.recs && u != t && e <= now < LAST_TICK
    ensures FrontOrGone(StartTimer(s, u, msec, repeat, now), t, e)
  {
    ResortKeepsFront(s.queue + [u], s.recs[u := Rec(msec, repeat, Deadline(now, msec), true)], t, e);
  }

  /** A handler that does not start its own timer leaves it in front, or stopped. */
  lemma {:induction false} OwnTimerStays<T>(s: Sched<T>, script: seq<Timed<T>>, now: uint64)
    requires Member(s) && Ordered(s, 0) && Due(s, now)
    requires Known(script, s.recs.Keys) && ClockOk(script, now) && LeavesOwn(script, s.queue[0])
    ensures FrontOrGone(RunScript(s, script), s.queue[0], Key(s.recs, s.queue[0]))
  {
    var t, e := s.queue[0], Key(s.recs, s.queue[0]);
    if script != [] {
      var k := |script| - 1;
      var op, tick, s0 := script[k].op, script[k].now, RunScript(s, script[..k]);
      OwnTimerStays(s, script[..k], now);
      ScriptKeepsMember(s, script[..k]);
      ScriptOrders(s, script[..k], now, e);
      match op
      case Start(u, msec, repeat) => StartKeepsFront(s0, u, msec, repeat, tick, t, e);
      case Stop(u) => StopKeepsFront(s0, u, t, e);
      case Restart(u) =>
        if s0.recs[u].running {
          StopKeepsFront(s0, u, t, e);
          StopOrders(s0, u, e);
        }
        var s1 := if s0.recs[u].running then StopTimer(s0, u) else s0;
        StartKeepsFront(s1, u, s1.recs[u].interval, s1.recs[u].repeat, tick, t, e);
      case SetInterval(_, _) =>
      case SetRepeat(_, _) =>
    }
  }

  /** The handler that the step runs, if any, leaves its own timer unstarted or repeating. */
  ghost predicate TameStep<T>(s: Sched<T>, step: Step<T>, clock: nat)
    requires Ordered(s, 0) && LegalStep(s, step, clock)
  {
    step.Run? && Due(s, step.now) ==>
      || LeavesOwn(step.script, s.queue[0])
      || RunScript(s, step.script).recs[s.queue[0]].repeat
  }

  lemma StepKeepsMember<T>(s: Sched<T>, step: Step<T>, clock: nat)
    requires Ordered(s, 0) && Member(s) && LegalStep(s, step, clock) && TameStep(s, step, clock)
    ensures Member(DoStep(s, step, clock).state)
  {
    match step
    case Call(op, now) => ApplyKeepsMember(s, op, now);
    case Run(script, now) =>
      if Due(s, now) {
        if LeavesOwn(script, s.queue[0]) { OwnTimerStays(s, script, now); }
        FireKeepsMemberIff(s, script);
      }
  }

  ghost predicate TameRun<T>(s: Sched<T>, steps: seq<Step<T>>, clock: nat)
    requires Ordered(s, 0) && LegalRun(s, steps, clock)
    decreases |steps|
  {
    steps == [] ||
    (&& TameStep(s, steps[0], clock)
     && (StepOrders(s, steps[0], clock, 0); TameRun(DoStep(s, steps[0], clock).state, steps[1..], steps[0].now)))
  }

  /** Over every such run a timer is running exactly when it is queued, and it is queued once. */
  lemma {:induction false} MembershipOverRuns<T>(s: Sched<T>, steps: seq<Step<T>>, clock: nat)
    requires Ordered(s, 0) && Member(s) && LegalRun(s, steps, clock) && TameRun(s, steps, clock)
    ensures Member(Exec(s, steps, clock).state)
    decreases |steps|
  {
    if steps != [] {
      StepOrders(s, steps[0], clock, 0);
      StepKeepsMember(s, steps[0], clock);
      MembershipOverRuns(DoStep(s, steps[0], clock).state, steps[1..], steps[0].now);
    }
  }
}
