/** What the operations on a timer do to its fields and to the list, in numbers, and what they mean for
    whole runs: a timer that has been started does not fire before its time. */
module TimerLaws {
  import opened Machine
  import opened TimerQueue
  import opened TimerTheorems
  import opened DrainLoop

  // ----- single operations -----

  /** Everything but timer t is as before. */
  ghost predicate OthersStay<T>(s: Sched<T>, r: Sched<T>, t: T) {
    && r.recs.Keys == s.recs.Keys
    && (forall u :: u in s.recs && u != t ==> r.recs[u] == s.recs[u])
    && (forall u :: u in s.recs && u != t ==> multiset(r.queue)[u] == multiset(s.queue)[u])
  }

  /** An expiry msec behind now; 2^32 - 1 stands for never. */
  predicate ExpiresAfter(expiry: int, now: int, msec: int) {
    && (msec == 0xFFFF_FFFF ==> expiry == 0xFFFF_FFFF_FFFF_FFFF)
    && (msec != 0xFFFF_FFFF && now + msec <= 0xFFFF_FFFF_FFFF_FFFF ==> expiry == now + msec)
    && (msec != 0xFFFF_FFFF && now + msec > 0xFFFF_FFFF_FFFF_FFFF ==> expiry == now + msec - 0x1_0000_0000_0000_0000)
  }

  /** start() of a timer that is not running. */
  lemma StartSets<T>(s: Sched<T>, t: T, msec: uint32, repeat: bool, now: uint64)
    requires t in s.recs && !s.recs[t].running && Member(s)
    ensures var r := Apply(s, Op.Start(t, msec, repeat), now);
      && r.recs[t].interval == msec && r.recs[t].repeat == repeat && r.recs[t].running
      && ExpiresAfter(r.recs[t].expiry, now, msec)
      && multiset(r.queue)[t] == 1 && OthersStay(s, r, t)
  {
    var rec := Rec(msec, repeat, Deadline(now, msec), true);
    var recs := s.recs[t := rec];
    DeadlineIs(now, msec);
    assert Apply(s, Op.Start(t, msec, repeat), now) == Sched(recs, Sort(s.queue + [t], recs));
    SortLaws(s.queue + [t], recs);
  }

  lemma DeadlineIs(now: uint64, msec: uint32)
    ensures ExpiresAfter(Deadline(now, msec), now, msec)
  {
  }

  lemma StartOfRunning<T>(s: Sched<T>, t: T, msec: uint32, repeat: bool, now: uint64)
    requires t in s.recs && s.recs[t].running
    ensures Apply(s, Op.Start(t, msec, repeat), now) == s
  {
  }

  /** stop() of any timer, at the front or not. */
  lemma StopRetires<T>(s: Sched<T>, t: T, now: uint64)
    requires t in s.recs && Member(s)
    ensures var r := Apply(s, Op.Stop(t), now);
      && !r.recs[t].running && t !in r.queue && OthersStay(s, r, t)
      && r.recs[t].interval == s.recs[t].interval && r.recs[t].repeat == s.recs[t].repeat
      && r.recs[t].expiry == s.recs[t].expiry
  {
    if t in s.queue {
      RemoveFirstPermutes(s.queue, t);
      SortLaws(RemoveFirst(s.queue, t), s.recs[t := s.recs[t].(running := false)]);
      assert t !in multiset(Apply(s, Op.Stop(t), now).queue);
    }
  }

  /** restart() of any timer, running or not. */
  lemma {:induction false} RestartSets<T>(s: Sched<T>, t: T, now: uint64)
    requires t in s.recs && Member(s)
    ensures var r := Apply(s, Op.Restart(t), now);
      && r.recs[t].interval == s.recs[t].interval && r.recs[t].repeat == s.recs[t].repeat && r.recs[t].running
      && ExpiresAfter(r.recs[t].expiry, now, s.recs[t].interval)
      && multiset(r.queue)[t] == 1 && OthersStay(s, r, t)
  {
    if s.recs[t].running {
      StopRetires(s, t, now);
      StopKeepsMember(s, t);
      StartSets(StopTimer(s, t), t, s.recs[t].interval, s.recs[t].repeat, now);
    } else {
      StartSets(s, t, s.recs[t].interval, s.recs[t].repeat, now);
    }
  }

  /** The setters change one field and no expiry. */
  lemma SettersSet<T>(s: Sched<T>, t: T, msec: uint32, repeat: bool, now: uint64)
    requires t in s.recs
    ensures var r := Apply(s, Op.SetInterval(t, msec), now);
      r.queue == s.queue && r.recs == s.recs[t := Rec(msec, s.recs[t].repeat, s.recs[t].expiry, s.recs[t].running)]
    ensures var r := Apply(s, Op.SetRepeat(t, repeat), now);
      r.queue == s.queue && r.recs == s.recs[t := Rec(s.recs[t].interval, repeat, s.recs[t].expiry, s.recs[t].running)]
  {
  }

  /** The operations of a handler take place one after the other. */
  lemma {:induction false} ScriptConcat<T>(s: Sched<T>, first: seq<Timed<T>>, second: seq<Timed<T>>)
    requires Known(first, s.recs.Keys) && Known(second, s.recs.Keys)
    ensures Known(first + second, s.recs.Keys)
    ensures RunScript(s, first + second) == RunScript(RunScript(s, first), second)
    decreases |second|
  {
    if second == [] {
      assert first + [] == first;
    } else {
      var k := |second| - 1;
      LastOfBoth(first, second);
      ScriptConcat(s, first, second[..k]);
    }
  }

  lemma LastOfBoth<T>(a: seq<T>, b: seq<T>)
    requires b != []
    ensures (a + b)[..|a+b|-1] == a + b[..|b|-1] && (a + b)[|a+b|-1] == b[|b|-1]
  {
  }

  /** A handler that does one thing does it on the timers as they are, and an idle one does nothing. */
  lemma ScriptOfOne<T>(s: Sched<T>, op: Op<T>, now: uint64)
    requires op.timer in s.recs
    ensures RunScript(s, []) == s && RunScript(s, [Timed(op, now)]) == Apply(s, op, now)
  {
    assert [Timed(op, now)][..0] == [];
  }

  /** A repeating timer gets its next expiry, in 64 bits; a one-shot ends. */
  predicate MovesOn(from: Rec, to: Rec) {
    && to.interval == from.interval && to.repeat == from.repeat
    && (from.repeat ==> to.running == from.running)
    && (from.repeat ==> to.expiry == (from.expiry + from.interval) % 0x1_0000_0000_0000_0000)
    && (!from.repeat ==> !to.running && to.expiry == from.expiry)
  }

  lemma AdvancedMovesOn(rec: Rec)
    ensures MovesOn(rec, Advanced(rec))
  {
  }

  /** execute(): the handler, and then the next expiry of a repeating timer or the end of a one-shot. */
  lemma ExecuteSets<T>(s: Sched<T>, t: T, script: seq<Timed<T>>)
    requires t in s.recs && Known(script, s.recs.Keys)
    ensures var r0, r := RunScript(s, script), Execute(s, t, script);
      && r.queue == r0.queue && r.recs == r0.recs[t := r.recs[t]]
      && MovesOn(r0.recs[t], r.recs[t])
  {
    var r0 := RunScript(s, script);
    AdvancedMovesOn(r0.recs[t]);
    assert Execute(s, t, script).recs[t] == Advanced(r0.recs[t]);
  }

  /** A firing is the execution of the front timer; a one-shot that is still in front then leaves the
      list, and nothing else enters or leaves it. */
  lemma FireRuns<T>(s: Sched<T>, script: seq<Timed<T>>)
    requires s.queue != [] && s.queue[0] in s.recs && Known(script, s.recs.Keys)
    ensures var t := s.queue[0]; var e, r := Execute(s, t, script), Fire(s, script);
      && r.recs == e.recs
      && multiset(r.queue) == multiset(e.queue) -
           if !e.recs[t].repeat && e.queue != [] && e.queue[0] == t then multiset{t} else multiset{}
  {
    var t := s.queue[0];
    var e := Execute(s, t, script);
    SortLaws(Popped(e, t), e.recs);
    if e.queue != [] { assert e.queue == [e.queue[0]] + e.queue[1..]; }
  }

  // ----- the wait of runTimers, whatever the handler has done -----

  lemma {:induction false} RunTimersWait<T>(s: Sched<T>, now: uint64, script: seq<Timed<T>>, clock: int)
    requires Ordered(s, 0) && 0 <= clock && LegalStep(s, Step.Run(script, now), clock)
    ensures var o := RunTimers(s, now, script);
      && Ordered(o.state, 0)
      && (o.state.queue == [] ==> o.wait == 10000)
      && (o.state.queue != [] ==>
            var gap := Key(o.state.recs, o.state.queue[0]) - now;
            && (0 <= gap < 0x8000_0000 ==> o.wait == if gap < 10000 then gap else 10000)
            && (-0x8000_0000 <= gap < 0 ==> o.wait == 0))
  {
    StepOrders(s, Step.Run(script, now), clock, 0);
    var r := RunTimers(s, now, script).state;
    if r.queue != [] { NarrowIs(Key(r.recs, r.queue[0]) - now); }
  }

  lemma NarrowIs(x: int)
    ensures -0x8000_0000 <= Narrow(x) < 0x8000_0000 && (x - Narrow(x)) % 0x1_0000_0000 == 0
    ensures -0x8000_0000 <= x < 0x8000_0000 ==> Narrow(x) == x
  {
  }

  // ----- a started timer does not fire before its time -----

  /** The operation may give timer t a new deadline. */
  predicate Restarts<T(==)>(op: Op<T>, t: T) {
    op.timer == t && (op.Start? || op.Restart?)
  }

  ghost predicate NoRestart<T>(step: Step<T>, t: T) {
    match step
    case Call(op, _) => !Restarts(op, t)
    case Run(script, _) => forall i :: 0 <= i < |script| ==> !Restarts(script[i].op, t)
  }

  lemma ApplyKeepsExpiry<T>(s: Sched<T>, op: Op<T>, now: uint64, t: T)
    requires op.timer in s.recs && t in s.recs && !Restarts(op, t)
    ensures Apply(s, op, now).recs[t].expiry == s.recs[t].expiry
  {
  }

  lemma {:induction false} ScriptKeepsExpiry<T>(s: Sched<T>, script: seq<Timed<T>>, t: T)
    requires Known(script, s.recs.Keys) && t in s.recs
    requires forall i :: 0 <= i < |script| ==> !Restarts(script[i].op, t)
    ensures RunScript(s, script).recs[t].expiry == s.recs[t].expiry
  {
    if script != [] {
      var k := |script| - 1;
      ScriptKeepsExpiry(s, script[..k], t);
      ApplyKeepsExpiry(RunScript(s, script[..k]), script[k].op, script[k].now, t);
    }
  }

  /** No firing of t in the log is before the floor. */
  ghost predicate NotBefore<T>(log: seq<Fired<T>>, t: T, floor: int) {
    forall i :: 0 <= i < |log| && log[i].timer == t ==> floor <= log[i].expiry && floor <= log[i].now
  }

  lemma FireKeepsFloor<T>(s: Sched<T>, now: uint64, script: seq<Timed<T>>, t: T, floor: int)
    requires Ordered(s, 0) && Due(s, now) && Known(script, s.recs.Keys) && NoWrap(s, script)
    requires t in s.recs && floor <= s.recs[t].expiry
    requires forall i :: 0 <= i < |script| ==> !Restarts(script[i].op, t)
    ensures t in Fire(s, script).recs && floor <= Fire(s, script).recs[t].expiry
  {
    ScriptKeepsExpiry(s, script, t);
  }

  lemma StepKeepsFloor<T>(s: Sched<T>, step: Step<T>, clock: nat, t: T, floor: int)
    requires Ordered(s, 0) && LegalStep(s, step, clock) && NoRestart(step, t)
    requires t in s.recs && floor <= s.recs[t].expiry
    ensures var o := DoStep(s, step, clock);
      t in o.state.recs && floor <= o.state.recs[t].expiry && NotBefore(o.fired, t, floor)
  {
    match step
    case Call(op, now) => ApplyKeepsExpiry(s, op, now, t);
    case Run(script, now) =>
      if Due(s, now) { FireKeepsFloor(s, now, script, t, floor); }
  }

  lemma {:induction false} RunKeepsFloor<T>(s: Sched<T>, steps: seq<Step<T>>, clock: nat, t: T, floor: int)
    requires Ordered(s, 0) && LegalRun(s, steps, clock) && t in s.recs && floor <= s.recs[t].expiry
    requires forall i :: 0 <= i < |steps| ==> NoRestart(steps[i], t)
    ensures NotBefore(Exec(s, steps, clock).fired, t, floor)
    decreases |steps|
  {
    if steps != [] {
      StepOrders(s, steps[0], clock, 0);
      StepKeepsFloor(s, steps[0], clock, t, floor);
      RunKeepsFloor(DoStep(s, steps[0], clock).state, steps[1..], steps[0].now, t, floor);
    }
  }

  /** After a start() or restart() at tick now, over every run of legal steps up to the next one,
      whatever is done to any timer meanwhile, t does not fire before now plus its interval. */
  lemma {:induction false} StartedNeverEarly<T>(s: Sched<T>, op: Op<T>, now: uint64, steps: seq<Step<T>>)
    requires Ordered(s, 0) && Member(s) && op.timer in s.recs && now < LAST_TICK
    requires op.Restart? || (op.Start? && !s.recs[op.timer].running)
    requires Ordered(Apply(s, op, now), 0) && LegalRun(Apply(s, op, now), steps, now)
    requires forall i :: 0 <= i < |steps| ==> NoRestart(steps[i], op.timer)
    ensures var msec := if op.Start? then op.msec else s.recs[op.timer].interval;
      NotBefore(Exec(Apply(s, op, now), steps, now).fired, op.timer, now + msec)
  {
    var t := op.timer;
    if op.Start? { StartSets(s, t, op.msec, op.repeat, now); } else { RestartSets(s, t, now); }
    RunKeepsFloor(Apply(s, op, now), steps, now, t, now + if op.Start? then op.msec else s.recs[t].interval);
  }
}
