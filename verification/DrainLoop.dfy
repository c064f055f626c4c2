/** The loop over runTimers in EventLoop::loop, with handlers that leave timers alone: exactly when it
    ends, exactly when it does so with a timer still due, and what it has done when it ends otherwise. */
module DrainLoop {
  import opened Machine
  import opened TimerQueue
  import opened TimerTheorems
  import opened CatchUp

  // ----- calls at one tick -----

  /** n calls at the same tick. */
  function Same(now: uint64, n: nat): (r: seq<uint64>)
    ensures |r| == n && UpTo(r, now)
  {
    seq(n, _ => now)
  }

  lemma SameNext<T>(s: Sched<T>, now: uint64, n: nat)
    requires Ready(s, now)
    ensures var o := RunTimers(Calls(s, Same(now, n)).state, now, []);
      Calls(s, Same(now, n + 1)).state == o.state && Calls(s, Same(now, n + 1)).wait == o.wait
  {
    assert Same(now, n + 1)[..n] == Same(now, n);
  }

  // ----- the 32-bit wait -----

  lemma ModOf(hi: int, lo: int)
    requires 0 <= lo < TWO32
    ensures (hi * TWO32 + lo) % TWO32 == lo
  {
  }

  lemma NegativeMod(q: int, m: int)
    requires 0 <= m < TWO32
    ensures (-q * TWO32 - m) % TWO32 == if m == 0 then 0 else TWO32 - m
  {
    if m != 0 { ModOf(-q - 1, TWO32 - m); } else { ModOf(-q, 0); }
  }

  /** Cut down to 32 bits, the lateness of this deadline looks like a time to wait. */
  predicate SeemsAhead(x: int, now: uint64) {
    (now - x) % TWO32 > TWO31
  }

  /** A call that leaves a timer due returns a positive wait exactly when its deadline seems ahead. */
  lemma DueWaitIff<T>(s: Sched<T>, now: uint64)
    requires Due(s, now)
    ensures NextWait(s, now) != 0 <==> SeemsAhead(Key(s.recs, s.queue[0]), now)
  {
    var late := now - Key(s.recs, s.queue[0]);
    var q, m := late / TWO32, late % TWO32;
    assert -late == -q * TWO32 - m;
    NegativeMod(q, m);
  }

  /** With nothing due no wait is longer than the time to any deadline. */
  lemma NoOversleep<T>(s: Sched<T>, now: uint64)
    requires Ready(s, now) && !Due(s, now)
    ensures WaitFits(s, now, NextWait(s, now))
  {
    if s.queue != [] {
      LowBitsBelow(Key(s.recs, s.queue[0]) - now);
    }
  }

  lemma LowBitsBelow(gap: nat)
    ensures Narrow(gap) <= gap
  {
    assert gap % TWO32 <= gap;
  }

  /** The wait is capped at WAIT_TIME and does not reach behind any deadline; when the next deadline
      is less than 2^31 ms away, it reaches exactly to it or to the cap. */
  ghost predicate WaitFits<T>(s: Sched<T>, now: uint64, wait: uint32) {
    && wait <= WAIT_TIME
    && (forall t :: t in s.queue ==> t in s.recs && now + wait <= s.recs[t].expiry)
    && (s.queue != [] && Key(s.recs, s.queue[0]) - now < TWO31 ==>
          wait == if Key(s.recs, s.queue[0]) - now < WAIT_TIME then Key(s.recs, s.queue[0]) - now else WAIT_TIME)
  }

  // ----- which deadlines come up in front of the queue -----

  /** x is a deadline of this record, its own or one that it gets later, and has passed by now. */
  predicate PassedAt(rec: Rec, x: int, now: uint64)
    decreases x - rec.expiry
  {
    && rec.running && rec.expiry <= x <= now
    && (|| x == rec.expiry
        || (&& rec.repeat && 0 < rec.interval <= x - rec.expiry
            && PassedAt(rec.(expiry := rec.expiry + rec.interval), x, now)))
  }

  /** No stuck timer is in the way to a deadline at x. */
  ghost predicate Reached<T>(s: Sched<T>, x: int, now: uint64) {
    forall u :: u in s.recs && Stuck(s.recs[u], now) ==> x <= s.recs[u].expiry
  }

  /** x is the deadline of t that the first call serves. */
  predicate IsFirst<T(==)>(s: Sched<T>, t: T, x: int) {
    t in s.recs && s.queue != [] && t == s.queue[0] && x == s.recs[t].expiry
  }

  /** The passed deadline x of t will be in front of the queue behind some call. */
  ghost predicate ComesUp<T>(s: Sched<T>, now: uint64, t: T, x: int) {
    && t in s.recs && PassedAt(s.recs[t], x, now) && Reached(s, x, now)
    && (IsFirst(s, t, x) ==> Stuck(s.recs[t], now))
  }

  /** Some deadline that comes up seems to be ahead. */
  ghost predicate EndsEarly<T>(s: Sched<T>, now: uint64) {
    exists t, x: int :: t in s.recs && ComesUp(s, now, t, x) && SeemsAhead(x, now)
  }

  lemma ModStep(y: int, d: int)
    requires d > 0
    ensures (y - d) % d == y % d
    ensures y > 0 && y % d == 0 ==> y >= d
  {
    if 0 < y < d { assert y % d == y; }
    assert y == y / d * d + y % d;
    assert y - d == (y / d - 1) * d + y % d;
    RemainderIs(y - d, y / d - 1, d, y % d);
  }

  lemma RemainderIs(y: int, q: int, d: int, m: int)
    requires d > 0 && y == q * d + m && 0 <= m < d
    ensures y % d == m
  {
    var q', m' := y / d, y % d;
    assert y == q' * d + m';
    if q' < q { MulMonotone(q' + 1, q, d); MulLess(q' + 1, d); }
    if q < q' { MulMonotone(q + 1, q', d); MulLess(q + 1, d); }
  }

  /** y is d taken a number of times. */
  predicate Multiple(y: nat, d: nat)
    requires d > 0
  {
    y == 0 || (y >= d && Multiple(y - d, d))
  }

  lemma {:induction false} MultipleIff(y: nat, d: nat)
    requires d > 0
    ensures Multiple(y, d) <==> y % d == 0
  {
    ModStep(y, d);
    if y >= d { MultipleIff(y - d, d); }
  }

  lemma {:induction false} PassedIsMultiple(rec: Rec, x: int, now: uint64)
    requires rec.running && rec.repeat && rec.interval > 0 && rec.expiry <= x <= now
    ensures PassedAt(rec, x, now) <==> Multiple(x - rec.expiry, rec.interval)
    decreases x - rec.expiry
  {
    if rec.expiry + rec.interval <= x {
      PassedIsMultiple(rec.(expiry := rec.expiry + rec.interval), x, now);
    }
  }

  /** The deadlines of a repeating timer are a whole number of intervals apart. */
  lemma {:induction false} PassedAtIff(rec: Rec, x: int, now: uint64)
    requires rec.running && rec.repeat && rec.interval > 0
    ensures PassedAt(rec, x, now) <==> rec.expiry <= x <= now && (x - rec.expiry) % rec.interval == 0
  {
    if rec.expiry <= x <= now {
      PassedIsMultiple(rec, x, now);
      MultipleIff(x - rec.expiry, rec.interval);
    }
  }

  /** Serving the record's own deadline leaves its later ones, and adds none. */
  lemma {:induction false} AdvanceKeeps(rec: Rec, x: int, now: uint64)
    requires rec.running && rec.expiry <= now < LAST_TICK
    ensures PassedAt(rec, x, now) && (x != rec.expiry || Stuck(rec, now)) ==> PassedAt(Advanced(rec), x, now)
    ensures PassedAt(Advanced(rec), x, now) ==> PassedAt(rec, x, now) && (x != rec.expiry || Stuck(rec, now))
  {
    AdvanceFits(rec, now);
  }

  lemma CallRecs<T>(r: Sched<T>, tick: uint64, now: uint64)
    requires Ready(r, now) && tick <= now
    ensures var recs' := RunTimers(r, tick, []).state.recs;
      if Due(r, tick) then
        && r.queue[0] in r.recs && r.recs[r.queue[0]].running
        && recs' == r.recs[r.queue[0] := Advanced(r.recs[r.queue[0]])]
      else recs' == r.recs
  {
    if Due(r, tick) {
      FrontRuns(r);
      QuietShape(r, now);
    }
  }

  /** A call leaves all passed deadlines but the front one, and adds none. */
  lemma CallKeeps<T>(r: Sched<T>, tick: uint64, now: uint64, t: T, x: int)
    requires Ready(r, now) && tick <= now && t in r.recs
    ensures var r' := RunTimers(r, tick, []).state;
      && t in r'.recs
      && (PassedAt(r'.recs[t], x, now) <==>
            PassedAt(r.recs[t], x, now) && (Due(r, tick) && IsFirst(r, t, x) ==> Stuck(r.recs[t], now)))
  {
    CallRecs(r, tick, now);
    if Due(r, tick) && t == r.queue[0] { AdvanceKeeps(r.recs[t], x, now); }
  }

  lemma CallReaches<T>(r: Sched<T>, tick: uint64, now: uint64, x: int)
    requires Ready(r, now) && tick <= now && Reached(r, x, now)
    ensures Reached(RunTimers(r, tick, []).state, x, now)
  {
    CallRecs(r, tick, now);
    if Due(r, tick) { StuckBefore(r.recs[r.queue[0]], now); }
  }

  lemma StuckBefore(rec: Rec, now: uint64)
    requires rec.running && rec.expiry <= now < LAST_TICK
    ensures Stuck(Advanced(rec), now) ==> Advanced(rec) == rec
  {
  }

  // ----- every deadline that comes up is in front behind some call -----

  /** One more call towards the deadline x of t. */
  lemma OneCloser<T>(s: Sched<T>, now: uint64, n: nat, t: T, x: int)
    requires Ready(s, now)
    requires var r := Calls(s, Same(now, n)).state;
      t in r.recs && PassedAt(r.recs[t], x, now) && Reached(r, x, now) && (IsFirst(r, t, x) ==> Stuck(r.recs[t], now))
    ensures var r := Calls(s, Same(now, n + 1)).state;
      t in r.recs && PassedAt(r.recs[t], x, now) && Reached(r, x, now)
  {
    var r := Calls(s, Same(now, n)).state;
    CallsReady(s, Same(now, n), now);
    SameNext(s, now, n);
    CallKeeps(r, now, now, t, x);
    CallReaches(r, now, now, x);
  }

  /** A passed deadline that is reached is not before the front one, which is due. */
  lemma FrontAtMost<T>(r: Sched<T>, now: uint64, t: T, x: int)
    requires Ready(r, now) && t in r.recs && PassedAt(r.recs[t], x, now) && Reached(r, x, now)
    ensures Due(r, now) && r.queue[0] in r.recs && Key(r.recs, r.queue[0]) <= x
    ensures Key(r.recs, r.queue[0]) < x ==> !Stuck(r.recs[r.queue[0]], now) && !IsFirst(r, t, x)
  {
    FrontIsFirst(r, t);
  }

  lemma Surfaces<T>(s: Sched<T>, now: uint64, t: T, x: int) returns (n: nat)
    requires Ready(s, now) && ComesUp(s, now, t, x)
    ensures var r := Calls(s, Same(now, n)).state; n >= 1 && Due(r, now) && Key(r.recs, r.queue[0]) == x
  {
    assert Same(now, 0) == [];
    OneCloser(s, now, 0, t, x);
    n := 1;
    CallsReady(s, Same(now, n), now);
    FrontAtMost(Calls(s, Same(now, n)).state, now, t, x);
    while Key(Calls(s, Same(now, n)).state.recs, Calls(s, Same(now, n)).state.queue[0]) != x
      invariant n >= 1
      invariant var r := Calls(s, Same(now, n)).state;
        && Ready(r, now) && t in r.recs && PassedAt(r.recs[t], x, now) && Reached(r, x, now)
        && Due(r, now) && r.queue[0] in r.recs && Key(r.recs, r.queue[0]) <= x
      decreases Work(Calls(s, Same(now, n)).state.queue, Calls(s, Same(now, n)).state.recs, now)
    {
      FrontAtMost(Calls(s, Same(now, n)).state, now, t, x);
      QuietFireWorks(Calls(s, Same(now, n)).state, now);
      SameNext(s, now, n);
      OneCloser(s, now, n, t, x);
      n := n + 1;
      CallsReady(s, Same(now, n), now);
      FrontAtMost(Calls(s, Same(now, n)).state, now, t, x);
    }
  }

  // ----- and no other deadline is -----

  /** A deadline that is still unserved behind the calls was there from the start. */
  lemma {:induction false} PassedBefore<T>(s: Sched<T>, ticks: seq<uint64>, now: uint64, t: T, x: int)
    requires Ready(s, now) && UpTo(ticks, now) && t in s.recs
    requires PassedAt(Calls(s, ticks).state.recs[t], x, now)
    ensures PassedAt(s.recs[t], x, now)
    decreases |ticks|
  {
    if ticks != [] {
      var k := |ticks| - 1;
      CallsReady(s, ticks[..k], now);
      CallKeeps(Calls(s, ticks[..k]).state, ticks[k], now, t, x);
      PassedBefore(s, ticks[..k], now, t, x);
    }
  }

  /** The calls, of which the last was at tick `last`, have found nothing due yet, or have served the
      first deadline x of t. */
  ghost predicate ServedIfDue<T>(s: Sched<T>, last: int, r: Sched<T>, now: uint64, t: T, x: int)
    requires t in r.recs
  {
    (r == s && last < x) || !PassedAt(r.recs[t], x, now)
  }

  lemma FirstCall<T>(s: Sched<T>, last: int, r: Sched<T>, tick: uint64, now: uint64, t: T, x: int)
    requires Ready(r, now) && tick <= now && IsFirst(s, t, x) && !Stuck(s.recs[t], now)
    requires t in r.recs && ServedIfDue(s, last, r, now, t, x)
    ensures var r' := RunTimers(r, tick, []).state; t in r'.recs && ServedIfDue(s, tick, r', now, t, x)
  {
    CallKeeps(r, tick, now, t, x);
  }

  /** The tick of the last call, if there is one. */
  function LastOf(ticks: seq<uint64>): int {
    if ticks == [] then -1 else ticks[|ticks|-1]
  }

  lemma LastCall<T>(s: Sched<T>, ticks: seq<uint64>)
    requires QueueKnown(s) && ticks != []
    ensures var k := |ticks| - 1;
      Calls(s, ticks).state == RunTimers(Calls(s, ticks[..k]).state, ticks[k], []).state
  {
  }

  /** The first deadline is served by the first call that finds it due. */
  lemma {:induction false} FirstServed<T>(s: Sched<T>, ticks: seq<uint64>, now: uint64, t: T, x: int)
    requires Ready(s, now) && UpTo(ticks, now) && IsFirst(s, t, x) && !Stuck(s.recs[t], now)
    ensures ServedIfDue(s, LastOf(ticks), Calls(s, ticks).state, now, t, x)
    decreases |ticks|
  {
    if ticks != [] {
      var k := |ticks| - 1;
      FirstServed(s, ticks[..k], now, t, x);
      CallsReady(s, ticks[..k], now);
      FirstCall(s, LastOf(ticks[..k]), Calls(s, ticks[..k]).state, ticks[k], now, t, x);
      LastCall(s, ticks);
    }
  }

  /** If a timer is due behind a call at the latest tick, its deadline is one that comes up. */
  lemma DueComesUp<T>(s: Sched<T>, ticks: seq<uint64>, now: uint64)
    requires ticks != [] && now == ticks[|ticks|-1] && UpTo(ticks, now) && Ready(s, now)
    requires Due(Calls(s, ticks).state, now)
    ensures var r := Calls(s, ticks).state; ComesUp(s, now, r.queue[0], Key(r.recs, r.queue[0]))
  {
    var r := Calls(s, ticks).state;
    var t, x := r.queue[0], Key(r.recs, r.queue[0]);
    CallsReady(s, ticks, now);
    FrontRuns(r);
    PassedBefore(s, ticks, now, t, x);
    forall u | u in s.recs && Stuck(s.recs[u], now) ensures x <= s.recs[u].expiry {
      StuckStays(s, ticks, now, u);
      FrontIsFirst(r, u);
    }
    if IsFirst(s, t, x) && !Stuck(s.recs[t], now) { FirstServed(s, ticks, now, t, x); }
  }

  /** The loop can end with a timer still due exactly when a deadline that comes up, which is every
      passed one up to a stuck timer but the first, is so late that it seems to be ahead. */
  lemma {:induction false} EarlyEndIff<T>(s: Sched<T>, now: uint64)
    requires Ready(s, now)
    ensures EndsEarly(s, now) <==>
      exists n: nat :: Calls(s, Same(now, n)).wait != 0 && Due(Calls(s, Same(now, n)).state, now)
  {
    if EndsEarly(s, now) {
      var n := EarlyEnds(s, now);
    }
    if n: nat :| Calls(s, Same(now, n)).wait != 0 && Due(Calls(s, Same(now, n)).state, now) {
      DueIsEarly(s, Same(now, n), now);
    }
  }

  lemma EarlyEnds<T>(s: Sched<T>, now: uint64) returns (n: nat)
    requires Ready(s, now) && EndsEarly(s, now)
    ensures Calls(s, Same(now, n)).wait != 0 && Due(Calls(s, Same(now, n)).state, now)
  {
    var t, x: int :| t in s.recs && ComesUp(s, now, t, x) && SeemsAhead(x, now);
    n := Surfaces(s, now, t, x);
    CallsReady(s, Same(now, n), now);
    DueWaitIff(Calls(s, Same(now, n)).state, now);
  }

  lemma DueIsEarly<T>(s: Sched<T>, ticks: seq<uint64>, now: uint64)
    requires ticks != [] && now == ticks[|ticks|-1] && UpTo(ticks, now) && Ready(s, now)
    requires Calls(s, ticks).wait != 0 && Due(Calls(s, ticks).state, now)
    ensures EndsEarly(s, now)
  {
    CallsReady(s, ticks, now);
    DueComesUp(s, ticks, now);
    DueWaitIff(Calls(s, ticks).state, now);
  }

  /** Deadlines that passed no more than 2^31 ms ago do not end the loop early. */
  lemma PunctualEndsNotEarly<T>(s: Sched<T>, now: uint64)
    requires forall t :: t in s.recs && s.recs[t].running ==> now - s.recs[t].expiry <= TWO31
    ensures !EndsEarly(s, now)
  {
    forall t, x: int | t in s.recs && ComesUp(s, now, t, x) ensures !SeemsAhead(x, now) {
      assert 0 <= now - x <= TWO31;
    }
  }

  /** Timers 0 and 1 are one-shots that expired at tick 0. */
  const TWO_LATE: Sched<nat> := Sched(map[0 := Rec(1, false, 0, true), 1 := Rec(1, false, 0, true)], [0, 1])
  const ONE_LATE: Sched<nat> := Sched(map[0 := Rec(1, false, 0, true)], [0])

  const LATE: uint64 := TWO31 + 1

  /** What a call leaves of the two. */
  const ONE_LEFT: Sched<nat> := Sched(map[0 := Rec(1, false, 0, false), 1 := Rec(1, false, 0, true)], [1])

  lemma TwoLateComesUp()
    ensures Ready(TWO_LATE, LATE) && EndsEarly(TWO_LATE, LATE)
  {
    assert ComesUp(TWO_LATE, LATE, 1, 0) && SeemsAhead(0, LATE);
  }

  lemma TwoLateRun()
    ensures Due(TWO_LATE, LATE) && Fire(TWO_LATE, []) == ONE_LEFT
  {
    TwoLateComesUp();
    assert TWO_LATE.queue[1..] == [1] && TWO_LATE.recs[0 := Rec(1, false, 0, false)] == ONE_LEFT.recs;
    SortedIsFixed([1], ONE_LEFT.recs);
    QuietShape(TWO_LATE, LATE);
  }

  lemma OneLeftWait()
    ensures Due(ONE_LEFT, LATE) && NextWait(ONE_LEFT, LATE) == WAIT_TIME
  {
    assert Key(ONE_LEFT.recs, 1) == 0 && Narrow(0 - LATE as int) == TWO31 - 1;
  }

  /** Two one-shots that are 2^31 + 1 ms late end the loop with one of them unserved. */
  lemma TwoLateOneShots()
    ensures Ready(TWO_LATE, LATE) && EndsEarly(TWO_LATE, LATE)
    ensures RunTimers(TWO_LATE, LATE, []).wait == WAIT_TIME && Due(RunTimers(TWO_LATE, LATE, []).state, LATE)
  {
    TwoLateComesUp();
    TwoLateRun();
    OneLeftWait();
  }

  /** One alone, as late, does not. */
  lemma OneLateOneShot()
    ensures Ready(ONE_LATE, LATE) && !EndsEarly(ONE_LATE, LATE) && !Due(RunTimers(ONE_LATE, LATE, []).state, LATE)
  {
    assert ONE_LATE.queue[1..] == [];
    QuietShape(ONE_LATE, LATE);
  }

  // ----- what the loop has done when it does not end early -----

  /** As long as a repeating timer with interval 0 is due anywhere in the queue, every call leaves it
      due and, unless the loop ends early, returns 0. */
  lemma {:induction false} ZeroIntervalSpins<T>(s: Sched<T>, ticks: seq<uint64>, now: uint64, t: T)
    requires ticks != [] && now == ticks[|ticks|-1] && UpTo(ticks, now)
    requires Ready(s, now) && t in s.recs && Stuck(s.recs[t], now)
    ensures Due(Calls(s, ticks).state, now)
    ensures !EndsEarly(s, now) ==> Calls(s, ticks).wait == 0
  {
    CallsReady(s, ticks, now);
    StuckStays(s, ticks, now, t);
    FrontIsFirst(Calls(s, ticks).state, t);
    if Calls(s, ticks).wait != 0 { DueIsEarly(s, ticks, now); }
  }

  /** Whatever ticks the calls read, once one of them returns a positive wait at the latest tick,
      nothing is due, and the wait does not oversleep. */
  lemma LoopSettles<T>(s: Sched<T>, ticks: seq<uint64>, now: uint64)
    requires ticks != [] && now == ticks[|ticks|-1] && UpTo(ticks, now)
    requires Ready(s, now) && !EndsEarly(s, now) && Calls(s, ticks).wait != 0
    ensures var r := Calls(s, ticks); Ready(r.state, now) && !Due(r.state, now) && WaitFits(r.state, now, r.wait)
  {
    CallsReady(s, ticks, now);
    if Due(Calls(s, ticks).state, now) { DueIsEarly(s, ticks, now); }
    NoOversleep(Calls(s, ticks).state, now);
  }

  /** Then every timer has been fired once per deadline passed by that tick; a repeating timer is at
      its first deadline above it, a one-shot that was due is retired, no other timer is touched. */
  lemma {:induction false} ExactCatchUp<T>(s: Sched<T>, ticks: seq<uint64>, now: uint64, t: T)
    requires ticks != [] && now == ticks[|ticks|-1] && UpTo(ticks, now) && t in s.recs
    requires Ready(s, now) && !EndsEarly(s, now) && Calls(s, ticks).wait != 0
    ensures !Stuck(s.recs[t], now)
    ensures var r := Calls(s, ticks);
      && t in r.state.recs
      && Count(r.fired, t) == Passed(s.recs[t], now)
      && r.state.recs[t] == Served(s.recs[t], now)
  {
    var r := Calls(s, ticks);
    LoopSettles(s, ticks, now);
    if Stuck(s.recs[t], now) {
      ZeroIntervalSpins(s, ticks, now, t);
    } else {
      CallsServe(s, ticks, now, t);
      NothingLeft(r.state, now, t);
    }
  }

  // ----- when the loop ends -----

  /** Once all passed deadlines have been served, t runs and no running timer expires before it. */
  ghost predicate ComesNext<T>(s: Sched<T>, now: uint64, t: T)
    requires now < LAST_TICK && forall u :: u in s.recs ==> !Stuck(s.recs[u], now)
  {
    && t in s.recs && Served(s.recs[t], now).running
    && (forall u :: u in s.recs && Served(s.recs[u], now).running ==>
          Served(s.recs[t], now).expiry <= Served(s.recs[u], now).expiry)
  }

  /** The low 32 bits of the time to this deadline are a positive signed number. */
  predicate Waits(expiry: uint64, now: uint64) {
    0 < (expiry - now) % TWO32 < TWO31
  }

  /** No timer is stuck, and the wait for the deadline that comes next, if any, is positive. */
  ghost predicate ComesToRest<T>(s: Sched<T>, now: uint64)
    requires now < LAST_TICK
  {
    && (forall t :: t in s.recs ==> !Stuck(s.recs[t], now))
    && (forall t :: t in s.recs && ComesNext(s, now, t) ==> Waits(Served(s.recs[t], now).expiry, now))
  }

  /** r is s with all passed deadlines served. */
  ghost predicate AllServed<T>(s: Sched<T>, r: Sched<T>, now: uint64)
    requires now < LAST_TICK
  {
    && r.recs.Keys == s.recs.Keys
    && (forall t :: t in s.recs ==> !Stuck(s.recs[t], now) && r.recs[t] == Served(s.recs[t], now))
  }

  /** What comes next is what is in front of the queue in the end. */
  lemma NextIsFront<T>(s: Sched<T>, r: Sched<T>, now: uint64, t: T)
    requires Ready(r, now) && AllServed(s, r, now) && ComesNext(s, now, t)
    ensures r.queue != [] && Served(s.recs[t], now).expiry == Key(r.recs, r.queue[0])
  {
    FrontIsFirst(r, t);
    FrontRuns(r);
  }

  lemma FrontComesNext<T>(s: Sched<T>, r: Sched<T>, now: uint64)
    requires Ready(r, now) && r.queue != [] && AllServed(s, r, now)
    ensures ComesNext(s, now, r.queue[0])
  {
    FrontRuns(r);
    forall u | u in s.recs && r.recs[u].running ensures r.recs[r.queue[0]].expiry <= r.recs[u].expiry {
      FrontIsFirst(r, u);
    }
  }

  lemma WaitsIff(expiry: uint64, now: uint64)
    ensures Clamp(Narrow(expiry - now)) != 0 <==> Waits(expiry, now)
  {
  }

  /** In a state with everything served the wait is positive exactly when that condition holds. */
  lemma ServedWaitIff<T>(s: Sched<T>, r: Sched<T>, now: uint64)
    requires Ready(r, now) && !Due(r, now) && AllServed(s, r, now)
    ensures NextWait(r, now) != 0 <==> ComesToRest(s, now)
  {
    QueueWaitIff(r, now);
    if r.queue == [] {
      NothingNext(s, r, now);
    } else {
      NextsAgree(s, r, now);
    }
  }

  lemma QueueWaitIff<T>(r: Sched<T>, now: uint64)
    ensures NextWait(r, now) != 0 <==> r.queue == [] || Waits(Key(r.recs, r.queue[0]), now)
  {
    if r.queue != [] { WaitsIff(Key(r.recs, r.queue[0]), now); }
  }

  lemma NothingNext<T>(s: Sched<T>, r: Sched<T>, now: uint64)
    requires Ready(r, now) && r.queue == [] && AllServed(s, r, now)
    ensures ComesToRest(s, now)
  {
    forall t | t in s.recs && ComesNext(s, now, t) ensures false {
      NextIsFront(s, r, now, t);
    }
  }

  /** All timers that come next wait as the front one does. */
  lemma NextsAgree<T>(s: Sched<T>, r: Sched<T>, now: uint64)
    requires Ready(r, now) && r.queue != [] && AllServed(s, r, now)
    ensures ComesToRest(s, now) <==> Waits(Key(r.recs, r.queue[0]), now)
  {
    FrontRuns(r);
    FrontComesNext(s, r, now);
    assert Served(s.recs[r.queue[0]], now).expiry == Key(r.recs, r.queue[0]);
    forall t | t in s.recs && ComesNext(s, now, t) ensures Served(s.recs[t], now).expiry == Key(r.recs, r.queue[0]) {
      NextIsFront(s, r, now, t);
    }
  }

  /** Without a stuck timer a call that finds one due leaves less work. */
  lemma LessWork<T>(s: Sched<T>, now: uint64, n: nat)
    requires Ready(s, now) && forall t :: t in s.recs ==> !Stuck(s.recs[t], now)
    requires Due(Calls(s, Same(now, n)).state, now)
    ensures var r, r' := Calls(s, Same(now, n)).state, Calls(s, Same(now, n + 1)).state;
      Work(r'.queue, r'.recs, now) < Work(r.queue, r.recs, now)
  {
    var r := Calls(s, Same(now, n)).state;
    CallsReady(s, Same(now, n), now);
    CallsServe(s, Same(now, n), now, r.queue[0]);
    QuietFireWorks(r, now);
    SameNext(s, now, n);
  }

  /** Then some number of calls leaves nothing due. */
  lemma NothingDueAfter<T>(s: Sched<T>, now: uint64) returns (n: nat)
    requires Ready(s, now) && forall t :: t in s.recs ==> !Stuck(s.recs[t], now)
    ensures !Due(Calls(s, Same(now, n)).state, now)
  {
    n := 0;
    while Due(Calls(s, Same(now, n)).state, now)
      decreases Work(Calls(s, Same(now, n)).state.queue, Calls(s, Same(now, n)).state.recs, now)
    {
      LessWork(s, now, n);
      n := n + 1;
    }
  }

  lemma {:induction false} EndServes<T>(s: Sched<T>, ticks: seq<uint64>, now: uint64)
    requires Ready(s, now) && UpTo(ticks, now) && !Due(Calls(s, ticks).state, now)
    requires forall t :: t in s.recs ==> !Stuck(s.recs[t], now)
    ensures AllServed(s, Calls(s, ticks).state, now)
  {
    CallsReady(s, ticks, now);
    forall t | t in s.recs ensures Calls(s, ticks).state.recs[t] == Served(s.recs[t], now) {
      CallsServe(s, ticks, now, t);
      NothingLeft(Calls(s, ticks).state, now, t);
    }
  }

  lemma EndedAtRest<T>(s: Sched<T>, now: uint64, n: nat)
    requires Ready(s, now) && !EndsEarly(s, now) && Calls(s, Same(now, n)).wait != 0
    ensures ComesToRest(s, now)
  {
    LoopSettles(s, Same(now, n), now);
    forall t | t in s.recs ensures !Stuck(s.recs[t], now) { ExactCatchUp(s, Same(now, n), now, t); }
    EndServes(s, Same(now, n), now);
    CallsReady(s, Same(now, n), now);
    ServedWaitIff(s, Calls(s, Same(now, n)).state, now);
  }

  lemma RestEnds<T>(s: Sched<T>, now: uint64) returns (n: nat)
    requires Ready(s, now) && ComesToRest(s, now)
    ensures Calls(s, Same(now, n)).wait != 0
  {
    n := NothingDueAfter(s, now);
    CallsReady(s, Same(now, n), now);
    EndServes(s, Same(now, n), now);
    ServedWaitIff(s, Calls(s, Same(now, n)).state, now);
    SameNext(s, now, n);
    n := n + 1;
  }

  /** At a fixed tick the loop ends exactly when it ends early, or no repeating timer with interval 0 is
      due and, once all passed deadlines are served, no timer runs or the low 32 bits of the time to the
      deadline that comes next are a positive signed number. */
  lemma {:induction false} LoopEndsIff<T>(s: Sched<T>, now: uint64)
    requires Ready(s, now)
    ensures (exists n: nat :: Calls(s, Same(now, n)).wait != 0) <==> EndsEarly(s, now) || ComesToRest(s, now)
  {
    if n: nat :| Calls(s, Same(now, n)).wait != 0 {
      if !EndsEarly(s, now) { EndedAtRest(s, now, n); }
    }
    if EndsEarly(s, now) {
      var n := EarlyEnds(s, now);
    } else if ComesToRest(s, now) {
      var n := RestEnds(s, now);
    }
  }

  /** With a front timer that is not due, runTimers changes nothing, and it asks for an immediate
      retry exactly when the low 32 bits of the gap are not a positive signed number. */
  lemma SpinIff<T>(s: Sched<T>, now: uint64)
    requires s.queue != [] && !Due(s, now) && forall t :: t in s.queue ==> t in s.recs
    ensures var o := RunTimers(s, now, []); var gap := Key(s.recs, s.queue[0]) - now;
      o.state == s && o.fired == [] && (o.wait == 0 <==> gap % TWO32 == 0 || gap % TWO32 >= TWO31)
  {
  }

  /** A queue with only TIMER_INFINITE timers spins whenever the low half of the tick is below 2^31,
      or is 2^32 - 1. */
  lemma {:induction false} InfiniteFrontSpinsIff<T>(s: Sched<T>, now: uint64)
    requires s.queue != [] && s.queue[0] in s.recs && s.recs[s.queue[0]].expiry == NEVER && now < NEVER
    requires forall t :: t in s.queue ==> t in s.recs
    ensures RunTimers(s, now, []).wait == 0 <==> now % TWO32 < TWO31 || now % TWO32 == TWO32 - 1
  {
    var gap := NEVER - now;
    var hi, lo := now / TWO32, now % TWO32;
    assert gap == (TWO32 - 1 - hi) * TWO32 + (TWO32 - 1 - lo);
    ModOf(TWO32 - 1 - hi, TWO32 - 1 - lo);
  }
}
