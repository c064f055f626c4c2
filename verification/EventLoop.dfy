/** The classes Timer and EventLoop, whose methods update their fields in place.  Every method is
    proved to do to the fields what TimerQueue says it does to their value. */
module Scheduler {
  import opened Machine
  import opened TimerQueue
  import opened TimerTheorems
  import opened CatchUp
  import opened TimerLaws

  class Timer {
    var interval: uint32
    var repeat: bool
    var expiry: uint64
    var running: bool

    constructor ()
      ensures interval == TIMER_INFINITE && !repeat && !running
    {
      interval, repeat, running := TIMER_INFINITE, false, false;
    }

    function Fields(): Rec
      reads this
    {
      Rec(interval, repeat, expiry, running)
    }

    method Start(loop: EventLoop, now: uint64, msec: uint32, rep: bool)
      requires loop.Valid() && this in loop.timers
      modifies this, loop`list
      ensures loop.Valid() && loop.Value() == StartTimer(old(loop.Value()), this, msec, rep, now)
      ensures old(running) ==> Fields() == old(Fields()) && loop.list == old(loop.list)
      ensures !old(running) ==> interval == msec && repeat == rep && running && ExpiresAfter(expiry, now, msec)
    {
      if running {
        return;
      }
      interval := msec;
      repeat := rep;
      if interval != TIMER_INFINITE {
        expiry := (now + interval) % TWO64;
      } else {
        expiry := NEVER;
      }
      running := true;
      assert loop.Records() == old(loop.Records())[this := Rec(msec, rep, Deadline(now, msec), true)];
      loop.AddTimer(this);
    }

    method Stop(loop: EventLoop)
      requires loop.Valid() && this in loop.timers
      modifies this, loop`list
      ensures loop.Valid() && loop.Value() == StopTimer(old(loop.Value()), this)
      ensures !running && interval == old(interval) && repeat == old(repeat) && expiry == old(expiry)
    {
      running := false;
      assert loop.Records() == old(loop.Records())[this := old(Fields()).(running := false)];
      loop.RemoveTimer(this);
    }

    method Restart(loop: EventLoop, now: uint64)
      requires loop.Valid() && this in loop.timers
      modifies this, loop`list
      ensures loop.Valid() && loop.Value() == RestartTimer(old(loop.Value()), this, now)
      ensures interval == old(interval) && repeat == old(repeat) && running && ExpiresAfter(expiry, now, interval)
    {
      if running {
        Stop(loop);
      }
      assert loop.Records()[this] == Fields();
      Start(loop, now, interval, repeat);
    }

    method SetInterval(msec: uint32)
      modifies this`interval
      ensures Fields() == old(Fields()).(interval := msec)
    {
      interval := msec;
    }

    method SetRepeat(rep: bool)
      modifies this`repeat
      ensures Fields() == old(Fields()).(repeat := rep)
    {
      repeat := rep;
    }

    /** Runs the handler, whose effect on the timers is `script`, and prepares the next expiry. */
    method Execute(loop: EventLoop, script: seq<Timed<Timer>>) returns (again: bool)
      requires loop.Valid() && this in loop.timers && Known(script, loop.timers)
      modifies loop.timers, loop`list
      ensures loop.Valid() && loop.Value() == TimerQueue.Execute(old(loop.Value()), this, script)
      ensures again == repeat
    {
      loop.Perform(script);
      ghost var s1 := loop.Value();
      if repeat {
        expiry := (expiry + interval) % TWO64;
      } else {
        running := false;
      }
      assert loop.Records() == s1.recs[this := Fields()];
      again := repeat;
    }
  }

  class EventLoop {
    /** mTimers */
    var list: seq<Timer>
    /** Every timer that may be used with this loop. */
    ghost const timers: set<Timer>

    constructor (ghost known: set<Timer>)
      ensures Valid() && list == [] && timers == known
    {
      list, timers := [], known;
    }

    ghost predicate Valid()
      reads this
    {
      forall t :: t in list ==> t in timers
    }

    ghost function Records(): map<Timer, Rec>
      reads timers
    {
      map t | t in timers :: t.Fields()
    }

    ghost function Value(): Sched<Timer>
      reads this, timers
    {
      Sched(Records(), list)
    }

    /** The element that std::list::sort places next: q with t after all that are not later. */
    method InsertByExpiry(q: seq<Timer>, t: Timer) returns (r: seq<Timer>)
      requires t in timers && forall u :: u in q ==> u in timers
      ensures r == Insert(q, t, Records())
    {
      var i := |q|;
      assert q[..i] == q && q[i..] == [];
      assert Insert(q, t, Records()) == Insert(q[..i], t, Records()) + q[i..];
      while i > 0 && q[i-1].expiry > t.expiry
        invariant 0 <= i <= |q|
        invariant Insert(q, t, Records()) == Insert(q[..i], t, Records()) + q[i..]
      {
        assert q[i-1] in q;
        assert q[..i][..i-1] == q[..i-1] && [q[i-1]] + q[i..] == q[i-1..];
        i := i - 1;
      }
      assert i > 0 ==> q[i-1] in q;
      r := q[..i] + [t] + q[i..];
    }

    /** std::list::sort(timer_sort) on q. */
    method SortByExpiry(q: seq<Timer>) returns (r: seq<Timer>)
      requires forall u :: u in q ==> u in timers
      ensures r == Sort(q, Records())
      ensures forall u :: u in r ==> u in timers
    {
      r := [];
      for i := 0 to |q|
        invariant r == Sort(q[..i], Records())
        invariant forall u :: u in r ==> u in timers
      {
        assert q[..i+1][..i] == q[..i] && q[i] in q;
        ghost var before := r;
        r := InsertByExpiry(r, q[i]);
        InsertPermutes(before, q[i], Records());
        forall u | u in r ensures u in timers {
          assert u in multiset(r);
        }
      }
      assert q[..|q|] == q;
    }

    method AddTimer(t: Timer)
      requires Valid() && t in timers
      modifies this`list
      ensures Valid() && Value() == TimerQueue.AddTimer(old(Value()), t)
    {
      list := SortByExpiry(list + [t]);
    }

    method RemoveTimer(t: Timer)
      requires Valid() && t in timers
      modifies this`list
      ensures Valid() && Value() == TimerQueue.RemoveTimer(old(Value()), t)
    {
      var i := 0;
      while i < |list|
        invariant 0 <= i <= |list| && list == old(list)
        invariant t !in list[..i]
      {
        if t == list[i] {
          ErasedIsRemoved(list, t, i);
          var rest := list[..i] + list[i+1..];
          list := SortByExpiry(rest);
          return;
        }
        i := i + 1;
      }
    }

    method PerformOne(op: Op<Timer>, now: uint64)
      requires Valid() && op.timer in timers
      modifies timers, this`list
      ensures Valid() && Value() == Apply(old(Value()), op, now)
    {
      match op
      case Start(t, msec, rep) => t.Start(this, now, msec, rep);
      case Stop(t) => t.Stop(this);
      case Restart(t) => t.Restart(this, now);
      case SetInterval(t, msec) =>
        t.SetInterval(msec);
        assert Records() == old(Records())[t := old(t.Fields()).(interval := msec)];
      case SetRepeat(t, rep) =>
        t.SetRepeat(rep);
        assert Records() == old(Records())[t := old(t.Fields()).(repeat := rep)];
    }

    /** Carries out what a handler does to the timers. */
    method Perform(script: seq<Timed<Timer>>)
      requires Valid() && Known(script, timers)
      modifies timers, this`list
      ensures Valid() && Value() == RunScript(old(Value()), script)
    {
      assert script[..0] == [];
      for i := 0 to |script|
        invariant Valid()
        invariant Value() == RunScript(old(Value()), script[..i])
      {
        assert script[..i+1][..i] == script[..i];
        PerformOne(script[i].op, script[i].now);
      }
      assert script[..|script|] == script;
    }

    /** The due branch of runTimers: execute the front timer, pop it if finished, sort again. */
    method FireFront(script: seq<Timed<Timer>>)
      requires Valid() && list != [] && Known(script, timers) && FrontDefined(Value(), script)
      modifies timers, this`list
      ensures Valid() && Value() == Fire(old(Value()), script)
    {
      var timer := list[0];
      var again := timer.Execute(this, script);
      ghost var s1 := Value();
      assert s1 == TimerQueue.Execute(old(Value()), timer, script);
      if !again {
        if timer == list[0] {
          list := list[1..];
        }
      }
      assert list == Popped(s1, timer) && Records() == s1.recs;
      list := SortByExpiry(list);
    }

    /** Executes the front timer if it is due and returns how long to wait for the next one. */
    method RunTimers(now: uint64, script: seq<Timed<Timer>>) returns (wait: uint32, ghost fired: seq<Fired<Timer>>)
      requires Valid() && Known(script, timers)
      requires list != [] && list[0].expiry <= now ==> FrontDefined(Value(), script)
      modifies timers, this`list
      ensures Valid() && Outcome(Value(), wait, fired) == TimerQueue.RunTimers(old(Value()), now, script)
    {
      ghost var s := Value();
      var timeout: int := WAIT_TIME;
      fired := [];
      if |list| != 0 {
        var expiry := list[0].expiry;
        assert expiry == Key(s.recs, s.queue[0]);
        if expiry <= now {
          fired := [Fired(list[0], expiry, now)];
          FireFront(script);
          if |list| != 0 {
            assert list[0].expiry == Key(Value().recs, list[0]);
            timeout := Narrow(list[0].expiry - now);
          }
        } else {
          timeout := Narrow(expiry - now);
        }
      }
      wait := Capped(timeout);
      assert wait == NextWait(Value(), now);
    }

    /** The wait is kept between 0 and WAIT_TIME. */
    static method Capped(timeout: int) returns (wait: uint32)
      ensures wait == Clamp(timeout)
    {
      var t := timeout;
      if t < 0 {
        t := 0;
      } else if t > WAIT_TIME {
        t := WAIT_TIME;
      }
      wait := t;
    }

    /** The call number n (from 0) of the drain, which has started from s. */
    method DrainCall(ghost s: Sched<Timer>, clock: seq<uint64>, n: nat) returns (wait: uint32)
      requires Valid() && QueueKnown(s) && n < |clock| && Value() == Calls(s, clock[..n]).state
      requires ZeroBefore(s, clock, n) && Calls(s, clock[..n]).wait == 0
      modifies timers, this`list
      ensures Valid() && Value() == Calls(s, clock[..n+1]).state && wait == Calls(s, clock[..n+1]).wait
      ensures ZeroBefore(s, clock, n + 1)
    {
      OneMore(s, clock, n);
      ghost var one;
      wait, one := RunTimers(clock[n], []);
    }

    /** The drain in loop(), with handlers that leave timers alone.  `clock` holds the ticks that the
        calls of runTimers read; the loop is followed for as many calls as there are ticks. */
    method DrainTimers(clock: seq<uint64>) returns (wait: uint32, calls: nat)
      requires Valid()
      modifies timers, this`list
      ensures Valid() && calls <= |clock|
      ensures var r := Calls(old(Value()), clock[..calls]); Value() == r.state && wait == r.wait
      ensures ZeroBefore(old(Value()), clock, calls)
      ensures wait == 0 ==> calls == |clock|
    {
      ghost var s := Value();
      wait, calls := 0, 0;
      while wait == 0 && calls < |clock|
        invariant Valid() && calls <= |clock|
        invariant Value() == Calls(s, clock[..calls]).state && wait == Calls(s, clock[..calls]).wait
        invariant ZeroBefore(s, clock, calls)
        decreases |clock| - calls
      {
        wait := DrainCall(s, clock, calls);
        calls := calls + 1;
      }
    }
  }

  lemma OneMore(s: Sched<Timer>, clock: seq<uint64>, n: nat)
    requires QueueKnown(s) && n < |clock|
    ensures var before := Calls(s, clock[..n]); var o := TimerQueue.RunTimers(before.state, clock[n], []);
      && (Due(before.state, clock[n]) ==> FrontDefined(before.state, []))
      && Calls(s, clock[..n+1]) == Outcome(o.state, o.wait, before.fired + o.fired)
  {
    assert clock[..n+1][..n] == clock[..n];
    QuietKnown(Calls(s, clock[..n]).state, clock[n]);
  }

  lemma {:induction false} ErasedIsRemoved<T>(q: seq<T>, t: T, i: nat)
    requires i < |q| && q[i] == t && t !in q[..i]
    ensures q[..i] + q[i+1..] == RemoveFirst(q, t)
  {
    if i > 0 {
      assert q[0] in q[..i];
      assert q[1..][..i-1] == q[..i][1..];
      ErasedIsRemoved(q[1..], t, i - 1);
      assert q[..i] + q[i+1..] == [q[0]] + (q[1..][..i-1] + q[1..][i..]);
    }
  }
}
