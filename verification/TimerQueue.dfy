/** The timer scheduler as a value: what every operation of Timer and EventLoop does to the timer
    records and to the queue `mTimers`.  The classes in EventLoop.dfy are proved against these
    functions; the run-level theorems are in TimerTheorems.dfy. */
module TimerQueue {
  import opened Machine

  const TIMER_INFINITE: uint32 := 0xFFFF_FFFF
  const NEVER: uint64 := TWO64 - 1
  const WAIT_TIME: uint32 := 10 * 1000

  /** The fields of one Timer. */
  datatype Rec = Rec(interval: uint32, repeat: bool, expiry: uint64, running: bool)

  /** Every known timer's record, and the list `mTimers`. */
  datatype Sched<T> = Sched(recs: map<T, Rec>, queue: seq<T>)

  /** Sort key of a timer. */
  function Key<T>(recs: map<T, Rec>, t: T): uint64 {
    if t in recs then recs[t].expiry else 0
  }

  // ----- the stable sort of std::list, with timer_sort as its order -----

  ghost predicate Sorted<T>(q: seq<T>, recs: map<T, Rec>) {
    forall i, j :: 0 <= i < j < |q| ==> Key(recs, q[i]) <= Key(recs, q[j])
  }

  /** Places t after every element of q that does not expire later than t. */
  function Insert<T>(q: seq<T>, t: T, recs: map<T, Rec>): seq<T> {
    if q == [] || Key(recs, q[|q|-1]) <= Key(recs, t) then q + [t]
    else Insert(q[..|q|-1], t, recs) + [q[|q|-1]]
  }

  function Sort<T>(q: seq<T>, recs: map<T, Rec>): seq<T> {
    if q == [] then [] else Insert(Sort(q[..|q|-1], recs), q[|q|-1], recs)
  }

  function RemoveFirst<T(==)>(q: seq<T>, t: T): seq<T> {
    if q == [] then []
    else if q[0] == t then q[1..]
    else [q[0]] + RemoveFirst(q[1..], t)
  }

  // ----- fixed-width arithmetic -----

  function Clamp(timeout: int): uint32 {
    if timeout < 0 then 0 else if timeout > WAIT_TIME then WAIT_TIME else timeout
  }

  /** The expiry that start() computes at time now. */
  function Deadline(now: uint64, msec: uint32): uint64 {
    if msec != TIMER_INFINITE then (now + msec) % TWO64 else NEVER
  }

  // ----- the operations -----

  datatype Op<T> =
    | Start(timer: T, msec: uint32, repeat: bool)
    | Stop(timer: T)
    | Restart(timer: T)
    | SetInterval(timer: T, msec: uint32)
    | SetRepeat(timer: T, repeat: bool)

  /** An operation and the tick count that is current while it runs. */
  datatype Timed<T> = Timed(op: Op<T>, now: uint64)

  function AddTimer<T>(s: Sched<T>, t: T): Sched<T> {
    s.(queue := Sort(s.queue + [t], s.recs))
  }

  function RemoveTimer<T(==)>(s: Sched<T>, t: T): Sched<T> {
    if t in s.queue then s.(queue := Sort(RemoveFirst(s.queue, t), s.recs)) else s
  }

  function StartTimer<T>(s: Sched<T>, t: T, msec: uint32, repeat: bool, now: uint64): Sched<T>
    requires t in s.recs
  {
    if s.recs[t].running then s
    else AddTimer(s.(recs := s.recs[t := Rec(msec, repeat, Deadline(now, msec), true)]), t)
  }

  function StopTimer<T(==)>(s: Sched<T>, t: T): Sched<T>
    requires t in s.recs
  {
    RemoveTimer(s.(recs := s.recs[t := s.recs[t].(running := false)]), t)
  }

  function RestartTimer<T(==)>(s: Sched<T>, t: T, now: uint64): Sched<T>
    requires t in s.recs
  {
    var s1 := if s.recs[t].running then StopTimer(s, t) else s;
    StartTimer(s1, t, s1.recs[t].interval, s1.recs[t].repeat, now)
  }

  function Apply<T(==)>(s: Sched<T>, op: Op<T>, now: uint64): (r: Sched<T>)
    requires op.timer in s.recs
    ensures r.recs.Keys == s.recs.Keys
  {
    var t := op.timer;
    match op
    case Start(_, msec, repeat) => StartTimer(s, t, msec, repeat, now)
    case Stop(_) => StopTimer(s, t)
    case Restart(_) => RestartTimer(s, t, now)
    case SetInterval(_, msec) => s.(recs := s.recs[t := s.recs[t].(interval := msec)])
    case SetRepeat(_, repeat) => s.(recs := s.recs[t := s.recs[t].(repeat := repeat)])
  }

  /** What an expiry handler does: a sequence of operations on timers, each at its own tick. */
  ghost predicate Known<T>(script: seq<Timed<T>>, timers: set<T>) {
    forall i :: 0 <= i < |script| ==> script[i].op.timer in timers
  }

  function RunScript<T(==)>(s: Sched<T>, script: seq<Timed<T>>): (r: Sched<T>)
    requires Known(script, s.recs.Keys)
    ensures r.recs.Keys == s.recs.Keys
  {
    if script == [] then s
    else
      var k := |script| - 1;
      Apply(RunScript(s, script[..k]), script[k].op, script[k].now)
  }

  /** The record of a timer that has just fired: its next deadline, or its end. */
  function Advanced(rec: Rec): Rec {
    if rec.repeat then rec.(expiry := (rec.expiry + rec.interval) % TWO64) else rec.(running := false)
  }

  /** Timer::execute: the handler, then the next deadline or the end of the timer. */
  function Execute<T(==)>(s: Sched<T>, t: T, script: seq<Timed<T>>): (r: Sched<T>)
    requires t in s.recs && Known(script, s.recs.Keys)
    ensures r.recs.Keys == s.recs.Keys
  {
    var s1 := RunScript(s, script);
    s1.(recs := s1.recs[t := Advanced(s1.recs[t])])
  }

  datatype Fired<T> = Fired(timer: T, expiry: uint64, now: uint64)

  datatype Outcome<T> = Outcome(state: Sched<T>, wait: uint32, fired: seq<Fired<T>>)

  predicate Due<T>(s: Sched<T>, now: uint64) {
    s.queue != [] && Key(s.recs, s.queue[0]) <= now
  }

  /** The queue once t has been executed: a finished timer that is still in front is popped. */
  function Popped<T(==)>(s: Sched<T>, t: T): seq<T>
    requires t in s.recs
  {
    if !s.recs[t].repeat && s.queue != [] && s.queue[0] == t then s.queue[1..] else s.queue
  }

  /** The scheduler after its front timer has been executed, popped if finished, and the queue
      sorted again. */
  function Fire<T(==)>(s: Sched<T>, script: seq<Timed<T>>): (r: Sched<T>)
    requires s.queue != [] && s.queue[0] in s.recs && Known(script, s.recs.Keys)
    ensures r.recs.Keys == s.recs.Keys
  {
    var s1 := Execute(s, s.queue[0], script);
    Sched(s1.recs, Sort(Popped(s1, s.queue[0]), s1.recs))
  }

  /** The front() that runTimers takes after a finished one-shot's handler exists. */
  predicate FrontDefined<T(==)>(s: Sched<T>, script: seq<Timed<T>>)
    requires s.queue != [] && s.queue[0] in s.recs && Known(script, s.recs.Keys)
  {
    var s1 := Execute(s, s.queue[0], script);
    s1.recs[s.queue[0]].repeat || s1.queue != []
  }

  /** How long until the front timer, cut down to 32 bits and clamped. */
  function NextWait<T>(s: Sched<T>, now: uint64): uint32 {
    Clamp(if s.queue == [] then WAIT_TIME else Narrow(Key(s.recs, s.queue[0]) - now))
  }

  /** EventLoop::runTimers. */
  function RunTimers<T(==)>(s: Sched<T>, now: uint64, script: seq<Timed<T>>): (r: Outcome<T>)
    requires (forall t :: t in s.queue ==> t in s.recs) && Known(script, s.recs.Keys)
    ensures r.state.recs.Keys == s.recs.Keys
  {
    if Due(s, now) then
      var s' := Fire(s, script);
      Outcome(s', NextWait(s', now), [Fired(s.queue[0], Key(s.recs, s.queue[0]), now)])
    else
      Outcome(s, NextWait(s, now), [])
  }
}
