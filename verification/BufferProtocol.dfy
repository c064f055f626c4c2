/** One producer and one consumer on a byte buffer, as interleaved critical sections.  A waiting
    thread may be resumed by a signal or spuriously; a timed wait may also expire. */
module BufferProtocol {
  import opened Machine
  import opened ByteQueue

  datatype Producer = WriterIdle | WriterWaits(data: seq<byte>, timed: bool, signalled: bool)
  datatype Consumer = ReaderIdle | ReaderWaits(len: nat, timed: bool, signalled: bool)

  /** The buffer, the two threads, and since the last flush the bytes accepted and returned. */
  datatype System = System(queue: Queue, producer: Producer, consumer: Consumer,
                           accepted: seq<byte>, returned: seq<byte>)

  datatype Step =
    | WriteCall(data: seq<byte>, timeout: int)
    | WriteResume
    | WriteTimeout
    | ReadCall(len: int, timeout: int)
    | ReadResume
    | ReadTimeout
    | SetEOS(eos: bool)
    | Flush

  const FOREVER := -1

  function Init(capacity: nat): System {
    System(Queue(false, capacity, []), WriterIdle, ReaderIdle, [], [])
  }

  predicate Enabled(s: System, step: Step) {
    match step
    case WriteCall(_, _) => s.producer.WriterIdle?
    case WriteResume => s.producer.WriterWaits?
    case WriteTimeout => s.producer.WriterWaits? && s.producer.timed
    case ReadCall(_, _) => s.consumer.ReaderIdle?
    case ReadResume => s.consumer.ReaderWaits?
    case ReadTimeout => s.consumer.ReaderWaits? && s.consumer.timed
    case SetEOS(_) => true
    case Flush => true
  }

  function SignalProducer(p: Producer): Producer {
    if p.WriterWaits? then p.(signalled := true) else p
  }

  function SignalConsumer(c: Consumer): Consumer {
    if c.ReaderWaits? then c.(signalled := true) else c
  }

  /** The producer transfers its bytes and, unless the stream has ended, signals the consumer. */
  function Transfer(s: System, data: seq<byte>): System
    requires s.queue.Valid()
  {
    var r := FinishWrite(s.queue, data);
    System(r.queue, WriterIdle, if s.queue.eos then s.consumer else SignalConsumer(s.consumer),
           s.accepted + r.bytes, s.returned)
  }

  /** The consumer takes its bytes and, unless the stream has ended, signals the producer. */
  function Take(s: System, len: nat): System {
    var r := FinishRead(s.queue, len);
    System(r.queue, if s.queue.eos then s.producer else SignalProducer(s.producer), ReaderIdle,
           s.accepted, s.returned + r.bytes)
  }

  function Next(guard: Guard, s: System, step: Step): (r: System)
    requires s.queue.Valid() && Enabled(s, step)
    ensures r.queue.Valid() && r.queue.capacity == s.queue.capacity
  {
    match step
    case WriteCall(data, timeout) =>
      (match EnterWrite(s.queue, |data|, timeout)
       case Return(_) => s
       case Wait => s.(producer := WriterWaits(data, timeout != FOREVER, false))
       case Go => Transfer(s, data))
    case WriteResume => Transfer(s, s.producer.data)
    case WriteTimeout => s.(producer := WriterIdle)
    case ReadCall(len, timeout) =>
      (match EnterRead(guard, s.queue, len, timeout)
       case Return(_) => s
       case Wait => s.(consumer := ReaderWaits(len, timeout != FOREVER, false))
       case Go => Take(s, len))
    case ReadResume => Take(s, s.consumer.len)
    case ReadTimeout => s.(consumer := ReaderIdle)
    case SetEOS(eos) =>
      System(s.queue.(eos := eos), SignalProducer(s.producer), SignalConsumer(s.consumer), s.accepted, s.returned)
    case Flush => System(s.queue.(contents := []), s.producer, s.consumer, [], [])
  }

  /** Every step of the run is enabled where it is taken. */
  ghost predicate Run(guard: Guard, s: System, steps: seq<Step>)
    requires s.queue.Valid()
    decreases |steps|
  {
    steps == [] || (Enabled(s, steps[0]) && Run(guard, Next(guard, s, steps[0]), steps[1..]))
  }

  ghost function Exec(guard: Guard, s: System, steps: seq<Step>): (r: System)
    requires s.queue.Valid() && Run(guard, s, steps)
    ensures r.queue.Valid() && r.queue.capacity == s.queue.capacity
    decreases |steps|
  {
    if steps == [] then s else Exec(guard, Next(guard, s, steps[0]), steps[1..])
  }

  lemma InitIsReady(guard: Guard, capacity: nat)
    ensures var s := Init(capacity); s.queue.Valid() && Fifo(s) && Inv(guard, s) && Explained(s)
  {
  }

  // ----- FIFO: what has been returned, then what is still inside, is what was accepted -----

  ghost predicate Fifo(s: System) {
    s.returned + s.queue.contents == s.accepted
  }

  lemma StepKeepsFifo(guard: Guard, s: System, step: Step)
    requires s.queue.Valid() && Enabled(s, step) && Fifo(s)
    ensures Fifo(Next(guard, s, step))
  {
  }

  /** Over every interleaving, with either guard, timeouts and spurious wakeups included, bytes come
      out in the order in which they went in, and none is lost or repeated. */
  lemma {:induction false} FifoOverRuns(guard: Guard, s: System, steps: seq<Step>)
    requires s.queue.Valid() && Run(guard, s, steps) && Fifo(s)
    ensures Fifo(Exec(guard, s, steps))
    decreases |steps|
  {
    if steps != [] {
      StepKeepsFifo(guard, s, steps[0]);
      FifoOverRuns(guard, Next(guard, s, steps[0]), steps[1..]);
    }
  }

  // ----- blocked threads -----

  /** The producer waits without a timeout and without a signal on the way. */
  predicate ProducerStuck(s: System) {
    s.producer.WriterWaits? && !s.producer.timed && !s.producer.signalled
  }

  predicate ConsumerStuck(s: System) {
    s.consumer.ReaderWaits? && !s.consumer.timed && !s.consumer.signalled
  }

  predicate Deadlock(s: System) {
    ProducerStuck(s) && ConsumerStuck(s)
  }

  /** The thread can only go on by finishing its transfer. */
  predicate ProducerDue(s: System) {
    s.producer.WriterWaits? && !s.producer.timed && s.producer.signalled
  }

  predicate ConsumerDue(s: System) {
    s.consumer.ReaderWaits? && !s.consumer.timed && s.consumer.signalled
  }

  /** The two calls that can block both threads for good: an endless read of a full buffer, where
      the read guard makes it wait, and a flush under a waiting producer.  Neither does harm while
      the other thread is about to finish a transfer and signal. */
  predicate Hazard(guard: Guard, s: System, step: Step) {
    match step
    case ReadCall(len, timeout) =>
      guard == AsWritten && len >= 1 && timeout == FOREVER && WriteWaits(s.queue) && !ProducerDue(s)
    case Flush => ProducerStuck(s) && !ConsumerDue(s)
    case _ => false
  }

  /** Why a blocked thread is blocked. */
  ghost predicate Inv(guard: Guard, s: System) {
    && s.queue.Valid()
    && (ProducerStuck(s) ==> !s.queue.eos && (s.queue.Full() || ConsumerDue(s)))
    && (ConsumerStuck(s) ==>
          match guard
          case Intended => ReadWaits(Intended, s.queue)
          case AsWritten => !WriteWaits(s.queue) || ProducerDue(s))
  }

  lemma StepKeepsInv(guard: Guard, s: System, step: Step)
    requires Inv(guard, s) && s.queue.capacity > 0 && Enabled(s, step) && !Hazard(guard, s, step)
    ensures Inv(guard, Next(guard, s, step))
  {
  }

  lemma InvNoDeadlock(guard: Guard, s: System)
    requires Inv(guard, s) && s.queue.capacity > 0
    ensures !Deadlock(s)
  {
  }

  ghost predicate Careful(guard: Guard, s: System, steps: seq<Step>)
    requires s.queue.Valid() && Run(guard, s, steps)
    decreases |steps|
  {
    steps == [] || (!Hazard(guard, s, steps[0]) && Careful(guard, Next(guard, s, steps[0]), steps[1..]))
  }

  /** A run without a hazard never blocks both threads. */
  lemma {:induction false} CarefulRunsNeverDeadlock(guard: Guard, s: System, steps: seq<Step>)
    requires Inv(guard, s) && s.queue.capacity > 0 && Run(guard, s, steps) && Careful(guard, s, steps)
    ensures Inv(guard, Exec(guard, s, steps)) && !Deadlock(Exec(guard, s, steps))
    decreases |steps|
  {
    if steps == [] {
      InvNoDeadlock(guard, s);
    } else {
      StepKeepsInv(guard, s, steps[0]);
      CarefulRunsNeverDeadlock(guard, Next(guard, s, steps[0]), steps[1..]);
    }
  }

  /** The run goes on from s without a hazard and ends with both threads blocked. */
  ghost predicate LeadsToDeadlock(guard: Guard, s: System, steps: seq<Step>)
    requires s.queue.Valid()
  {
    Run(guard, s, steps) && Careful(guard, s, steps) && Deadlock(Exec(guard, s, steps))
  }

  /** What the other thread does after a hazard to close the deadlock. */
  function Closing(s: System, step: Step): seq<Step> {
    if step.Flush? then
      (if s.consumer.ReaderWaits? then [ReadTimeout] else []) + [ReadCall(1, FOREVER)]
    else if ProducerStuck(s) then []
    else (if s.producer.WriterWaits? then [WriteTimeout] else []) + [WriteCall([0], FOREVER)]
  }

  lemma HazardCloses(guard: Guard, s: System, step: Step)
    requires Inv(guard, s) && s.queue.capacity > 0 && Enabled(s, step) && Hazard(guard, s, step)
    ensures LeadsToDeadlock(guard, Next(guard, s, step), Closing(s, step))
  {
    var s1, steps := Next(guard, s, step), Closing(s, step);
    if |steps| == 1 {
      LeadsInOne(guard, s1, steps[0]);
    } else if |steps| == 2 {
      LeadsInOne(guard, Next(guard, s1, steps[0]), steps[1]);
      assert steps[1..] == [steps[1]];
    }
  }

  lemma LeadsInOne(guard: Guard, s: System, step: Step)
    requires s.queue.Valid() && Enabled(s, step) && !Hazard(guard, s, step) && Deadlock(Next(guard, s, step))
    ensures LeadsToDeadlock(guard, s, [step])
  {
  }

  /** A step opens the way to a deadlock exactly when it is a hazard.  With the intended guard only
      a flush can be one. */
  lemma HazardIff(guard: Guard, s: System, step: Step)
    requires Inv(guard, s) && s.queue.capacity > 0 && Enabled(s, step)
    ensures Hazard(guard, s, step) <==> exists steps :: LeadsToDeadlock(guard, Next(guard, s, step), steps)
  {
    if Hazard(guard, s, step) {
      HazardCloses(guard, s, step);
    } else {
      StepKeepsInv(guard, s, step);
      forall steps | Run(guard, Next(guard, s, step), steps) && Careful(guard, Next(guard, s, step), steps)
        ensures !Deadlock(Exec(guard, Next(guard, s, step), steps))
      {
        CarefulRunsNeverDeadlock(guard, Next(guard, s, step), steps);
      }
    }
  }

  ghost predicate FlushesSafely(guard: Guard, s: System, steps: seq<Step>)
    requires s.queue.Valid() && Run(guard, s, steps)
    decreases |steps|
  {
    steps == [] ||
    ((steps[0].Flush? ==> !ProducerStuck(s)) && FlushesSafely(guard, Next(guard, s, steps[0]), steps[1..]))
  }

  /** A blocked producer finds the buffer full and open, a blocked consumer finds it empty and open. */
  ghost predicate Explained(s: System) {
    && (ProducerStuck(s) ==> WriteWaits(s.queue))
    && (ConsumerStuck(s) ==> ReadWaits(Intended, s.queue))
  }

  lemma StepKeepsExplained(s: System, step: Step)
    requires s.queue.Valid() && Enabled(s, step) && Explained(s) && (step.Flush? ==> !ProducerStuck(s))
    ensures Explained(Next(Intended, s, step))
  {
  }

  /** With the read guard that mirrors the write guard, and no flush under a blocked producer, every
      blocked thread is rightly blocked over every interleaving, and so not both are. */
  lemma {:induction false} IntendedGuardNeverDeadlocks(s: System, steps: seq<Step>)
    requires s.queue.Valid() && s.queue.capacity > 0 && Explained(s)
    requires Run(Intended, s, steps) && FlushesSafely(Intended, s, steps)
    ensures Explained(Exec(Intended, s, steps)) && !Deadlock(Exec(Intended, s, steps))
    decreases |steps|
  {
    if steps != [] {
      StepKeepsExplained(s, steps[0]);
      IntendedGuardNeverDeadlocks(Next(Intended, s, steps[0]), steps[1..]);
    }
  }

  /** With the guard as written, filling a buffer of any capacity and then reading it without a
      timeout blocks the reader, and the next write blocks the writer too. */
  lemma WrittenGuardDeadlocks(data: seq<byte>)
    requires data != []
    ensures LeadsToDeadlock(AsWritten, Next(AsWritten, Next(AsWritten, Init(|data|), WriteCall(data, FOREVER)),
                                            ReadCall(1, FOREVER)), [WriteCall([0], FOREVER)])
  {
  }

  /** As written, a read waits although it need not exactly when the buffer is empty at the end of
      the stream, or holds bytes before it. */
  lemma GuardsDifferIff(q: Queue, len: int, timeout: int)
    requires len >= 1 && timeout != 0
    ensures EnterRead(AsWritten, q, len, timeout) == Wait && EnterRead(Intended, q, len, timeout) == Go
      <==> (q.Empty() <==> q.eos)
  {
  }

  // ----- which reads deliver -----

  /** How many bytes a step asks for that comes to a transfer of an open, non-empty buffer: with the
      guard as written only a read that has waited does. */
  function Asks(guard: Guard, s: System, step: Step): int
    requires Enabled(s, step)
  {
    match step
    case ReadCall(len, _) => if guard == Intended then len else 0
    case ReadResume => s.consumer.len
    case _ => 0
  }

  /** A step delivers bytes exactly when the stream is open, the buffer holds some, and the step asks
      for some; it then delivers as many from the front as it asks for and finds. */
  lemma DeliversIff(guard: Guard, s: System, step: Step)
    requires s.queue.Valid() && Enabled(s, step) && !step.Flush?
    ensures var n := Asks(guard, s, step);
      if !s.queue.eos && !s.queue.Empty() && n >= 1
      then Next(guard, s, step).returned == s.returned + s.queue.contents[..Min(n, |s.queue.contents|)]
      else Next(guard, s, step).returned == s.returned
  {
  }

  /** The bytes that a step has to write. */
  function Offers(s: System, step: Step): seq<byte>
    requires Enabled(s, step)
  {
    match step
    case WriteCall(data, _) => data
    case WriteResume => s.producer.data
    case _ => []
  }

  /** Into an open stream a step accepts exactly the first bytes that it has to write and that fit, and
      at the end of the stream none.  A write call that waits finds no room for any. */
  lemma AcceptsIff(guard: Guard, s: System, step: Step)
    requires s.queue.Valid() && Enabled(s, step) && !step.Flush?
    ensures var d, room := Offers(s, step), s.queue.capacity - |s.queue.contents|;
      Next(guard, s, step).accepted ==
        s.accepted + if s.queue.eos then [] else if |d| <= room then d else d[..room]
  {
  }

  /** What a call that waits leaves for its continuation, and whether its wait can expire. */
  lemma WaitsRemember(guard: Guard, s: System, data: seq<byte>, len: int, timeout: int)
    requires s.queue.Valid()
    ensures s.producer.WriterIdle? && EnterWrite(s.queue, |data|, timeout) == Wait ==>
      var s' := Next(guard, s, WriteCall(data, timeout));
      s'.producer.WriterWaits? && Offers(s', WriteResume) == data && (Enabled(s', WriteTimeout) <==> timeout != -1)
    ensures s.consumer.ReaderIdle? && EnterRead(guard, s.queue, len, timeout) == Wait ==>
      var s' := Next(guard, s, ReadCall(len, timeout));
      s'.consumer.ReaderWaits? && Asks(guard, s', ReadResume) == len && (Enabled(s', ReadTimeout) <==> timeout != -1)
  {
  }

  /** With the guard as written a consumer whose waits all time out, or who never waits, gets nothing
      over a whole run, whatever is written. */
  lemma {:induction false} OnlyWaitersReceive(s: System, steps: seq<Step>)
    requires s.queue.Valid() && Run(AsWritten, s, steps)
    requires forall i :: 0 <= i < |steps| ==> !steps[i].ReadResume? && !steps[i].Flush?
    ensures Exec(AsWritten, s, steps).returned == s.returned
    decreases |steps|
  {
    if steps != [] {
      DeliversIff(AsWritten, s, steps[0]);
      OnlyWaitersReceive(Next(AsWritten, s, steps[0]), steps[1..]);
    }
  }

  /** The consumer is left waiting at the end of the stream. */
  predicate Abandoned(s: System) {
    s.queue.eos && ConsumerStuck(s)
  }

  /** At the end of the stream an endless read of an empty buffer waits with the guard as written, while
      with the mirrored guard it returns. */
  lemma ReadAtEndIsAbandoned(s: System, len: int)
    requires s.queue.Valid() && s.consumer.ReaderIdle? && s.queue.eos && s.queue.Empty() && len >= 1
    ensures Abandoned(Next(AsWritten, s, ReadCall(len, FOREVER)))
    ensures Next(Intended, s, ReadCall(len, FOREVER)).consumer.ReaderIdle?
  {
  }

  /** A consumer that waits at the end of the stream is not released by any write, read or flush, over
      every run in which nobody sets the end-of-stream mark again and no wakeup is spurious. */
  lemma {:induction false} AbandonedForEver(guard: Guard, s: System, steps: seq<Step>)
    requires s.queue.Valid() && Abandoned(s) && Run(guard, s, steps)
    requires forall i :: 0 <= i < |steps| ==> !steps[i].SetEOS? && !steps[i].ReadResume?
    ensures Abandoned(Exec(guard, s, steps)) && Exec(guard, s, steps).consumer == s.consumer
    decreases |steps|
  {
    if steps != [] {
      AbandonedForEver(guard, Next(guard, s, steps[0]), steps[1..]);
    }
  }

  /** Setting the mark, again or not, is what wakes it up. */
  lemma SetEOSReleases(guard: Guard, s: System, eos: bool)
    requires s.queue.Valid() && Abandoned(s)
    ensures ConsumerDue(Next(guard, s, SetEOS(eos))) && Next(guard, s, SetEOS(eos)).queue.eos == eos
  {
  }

  /** From the end of the stream on, whatever the threads do, nothing is accepted or delivered until the
      stream is opened again, which finds the bytes as they were, or the buffer is flushed. */
  lemma {:induction false} EndedStreamIsFrozen(guard: Guard, s: System, steps: seq<Step>)
    requires s.queue.Valid() && s.queue.eos && Run(guard, s, steps)
    requires forall i :: 0 <= i < |steps| ==> !steps[i].Flush? && steps[i] != SetEOS(false)
    ensures var s' := Exec(guard, s, steps);
      && s'.queue == s.queue && s'.accepted == s.accepted && s'.returned == s.returned
      && Next(guard, s', SetEOS(false)).queue == s.queue.(eos := false)
    decreases |steps|
  {
    if steps != [] {
      var s1 := Next(guard, s, steps[0]);
      DeliversIff(guard, s, steps[0]);
      assert s1.accepted == s.accepted && s1.queue == s.queue;
      EndedStreamIsFrozen(guard, s1, steps[1..]);
    }
  }
}
