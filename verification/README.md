# Verification of the base and utils layers of MyDirectFB

This project models the timer scheduler, the task and timer threads, the blocking byte buffer, the
parcel, the text scanners and the id allocator of MyDirectFB, and proves properties of them.

How the model is laid out:

- `TimerQueue.dfy` says what every operation of `Timer` and `EventLoop` does to the value of the
  timers and of `mTimers`; `EventLoop.dfy` holds the two classes, whose methods update their fields
  in place and are proved against it. `TimerTheorems.dfy` proves the laws of whole runs, `CatchUp.dfy`
  what is served in a run, and `DrainLoop.dfy` when the drain loop ends, when it does so too early, and
  what it has done otherwise; `TimerLaws.dfy` says in numbers what each operation does, and that no
  started timer fires before its time. A handler is an arbitrary sequence of timer operations, each
  with the tick at which it runs. `std::list::sort` is an insertion sort proved to be the stable sort.
- `ByteBuffer.dfy` holds the circular buffer and the FIFO queue that it refines. Each call is split
  where it may drop the lock. `BufferProtocol.dfy` interleaves those critical sections for one
  producer and one consumer, with signals, spurious wakeups and timeouts.
- `Task.dfy` is the protocol between one controller and the workers it creates, step by step;
  `TimerThread.dfy` puts the loop of `run()` and its own `start`/`stop` on top and refines it.
  `TaskLaws.dfy` and `TimerThreadLaws.dfy` prove that the calls achieve what they are for: `start()`
  creates its worker with the given fields, the loop calls the handler, and `stop()` comes back.
- `Parcel.dfy` and `ParcelClass.dfy` are the marshalling buffer, its growth and its frames. The
  specification is about the append phase; the class also covers writes at any position, and what
  `recv` makes of a descriptor that ends too early.
- `Text.dfy`, `Trim.dfy`, `KeyValue.dfy`, `MakeArgs.dfy` and `Ini.dfy` are the scanners: for each a
  specification over texts, the laws of printing and scanning, and the method that cuts up its buffer.
- `IdGen.dfy` is the id bitmap with bitwise operations on natural numbers. `Machine.dfy` holds the
  fixed-width integers.

What the proofs found, where the code and its evident intention differ:

- `ByteBuffer_Read` waits on "empty or not at end of stream" (utils/byte_buffer.cpp:204), while
  `ByteBuffer_Write` waits on "full and not at end of stream". The model keeps the code's guard
  (`AsWritten`) and the mirrored one (`Intended`) side by side. As written, an endless read of a full
  buffer blocks the reader and then the writer; `BufferProtocol.HazardIff` says exactly when. As
  written, only a read that has waited delivers bytes, never one with timeout 0
  (`BufferProtocol.OnlyWaitersReceive`). With either guard nothing is delivered at the end of the
  stream; what is still buffered stays until the stream is opened again or the buffer is flushed
  (`BufferProtocol.EndedStreamIsFrozen`). An endless read of an empty buffer at the end of the stream
  waits as written, and no write releases it (`BufferProtocol.AbandonedForEver`).
- `ByteBuffer_Flush` signals nobody, so a flush under a blocked producer is the other hazard.
- The 32-bit narrowing in `runTimers` can make the drain loop endless when the next deadline is 2^31 ms
  or more away, as it is when only `TIMER_INFINITE` timers are left, and so does a repeating timer with
  interval 0 that is due anywhere in the queue; `DrainLoop.LoopEndsIff` says exactly when the loop ends.
  With deadlines more than 2^31 ms late it can also end with a timer still due, as with two one-shots
  that are 2^31 + 1 ms late (`DrainLoop.TwoLateOneShots`); `DrainLoop.EarlyEndIff` says exactly when.
- A one-shot timer restarted by its own handler is lost when it is alone or would expire before all
  others, and otherwise stays queued with its flag cleared (`CatchUp.OwnRestartIff`).
- A write to a rewound or received parcel makes room for the position and not for the size, and a
  received parcel counts as having capacity 0, so that a write can shrink its block
  (`ParcelModel.WriteFitsIff`); `recv` reads for ever when the file ends inside a payload
  (`ParcelModel.ReceiveEndsIff`), and takes the end of the file itself for an empty parcel
  (`ParcelModel.ShortReceived`).
- A key of one character never gets a value (`KeyValue.PairComesBackIff`); from 2047 characters on the
  key/value scanner can read behind its buffer (`KeyValue.OverrunIff`); a command line that ends in
  a bare word of one character, or in a lone opening quote, loses it (`MakeArgs.SplitInvertsJoinIff`).

## Model

| member | source | states |
|---|---|---|
| TimerTheorems.SortLaws | base/event_loop.cpp:19-22 | sorting by expiry yields a sorted permutation of the list |
| TimerTheorems.SortIsStable | base/event_loop.cpp:78 | timers with equal expiry keep their order |
| TimerTheorems.FireOrders | base/event_loop.cpp:111-120 | after one due firing, whatever its handler does to any timer, nothing queued expires before the timer that fired |
| TimerTheorems.FireOrdersIff | base/timer.cpp:79 | with the fired expiry past 2^32, a timer still queued keeps the order exactly when its next 64-bit deadline does not wrap |
| TimerTheorems.FiringOrder | base/event_loop.cpp:101-134 | over every run of timer calls and runTimers with a non-decreasing clock and arbitrary handlers, fired expiries never decrease and no timer fires early |
| TimerTheorems.ApplyKeepsMember | base/timer.cpp:28-69 | every timer operation keeps "running exactly when queued, and queued once" |
| TimerTheorems.FireKeepsMemberIff | base/event_loop.cpp:113-118 | one firing keeps that agreement exactly when, after the handler, the timer repeats, has left the list, or is still its front |
| TimerTheorems.OwnTimerStays | base/event_loop.cpp:116 | a handler that does not start its own timer leaves it in front of the list or out of it, with its expiry unchanged |
| TimerTheorems.MembershipOverRuns | base/event_loop.cpp:64-134 | the agreement holds after every run whose handlers leave their own one-shot unstarted |
| TimerLaws.StartSets | base/timer.cpp:28-44 | start(msec, repeat) at now of a timer that is not running leaves it with that interval and repeat, running, queued exactly once, and with expiry now + msec (less 2^64 where that overflows), or 2^64-1 for msec 2^32-1; every other timer is as before |
| TimerLaws.StartOfRunning | base/timer.cpp:30-31 | start of a running timer changes nothing at all |
| TimerLaws.StopRetires | base/timer.cpp:54-59 | stop leaves any timer, at the front or not, neither running nor queued, and every other timer as before |
| TimerLaws.RestartSets | base/timer.cpp:46-52 | restart at now leaves any timer, running or not, running, queued once, with its stored interval and repeat and with expiry now + interval |
| TimerLaws.ExecuteSets | base/timer.cpp:71-85 | behind the handler a repeating timer has its expiry moved on by one interval in 64 bits, and a one-shot is no longer running, with its expiry as it was |
| TimerLaws.FireRuns | base/event_loop.cpp:111-120 | a firing is the execution of the front timer, after which a one-shot that is still in front leaves the list and nothing else enters or leaves it |
| TimerLaws.RunTimersWait | base/event_loop.cpp:101-134 | for every handler: the wait is 10000 when no timer is left, otherwise the time to the front deadline but at most 10000, and 0 when that deadline is up to 2^31 ms behind |
| TimerLaws.StartedNeverEarly | base/timer.cpp:28-52 | over every run up to its next start or restart, whatever is done to any timer meanwhile, a timer started or restarted at now does not fire before now + its interval |
| CatchUp.NextDeadline | base/timer.cpp:79 | floor((now-e)/d)+1 intervals lead to the first deadline above now |
| CatchUp.QuietFireWorks | base/event_loop.cpp:161 | each firing of a timer that is not a repeater with interval 0 lowers the sum of now - expiry + 1 over the due timers, so only finitely many firings are due |
| DrainLoop.ExactCatchUp | base/event_loop.cpp:161 | with idle handlers, whatever ticks the calls read: once a call returns a positive wait at the latest tick, and unless the loop ends early, each due one-shot has fired once and each repeating timer floor((now-e)/d)+1 times and is at its least deadline above that tick; no other timer is touched |
| CatchUp.RunAccounts | base/event_loop.cpp:101-134 | over every run of timer calls and runTimers whose handlers leave this timer and their own one-shot alone and do anything else, its firings and its deadlines still unserved add up to its deadlines passed |
| CatchUp.UntouchedCatchUp | base/event_loop.cpp:101-134 | when such a run ends with nothing due, the timer has fired exactly once per deadline passed and is at its next one |
| DrainLoop.LoopSettles | base/event_loop.cpp:120-133 | when the loop ends and not early nothing is due; its wait is at most 10 s and never reaches past a deadline, and with the next deadline less than 2^31 ms away it is exactly the smaller of the two |
| DrainLoop.PassedAtIff | base/timer.cpp:79 | the passed deadlines of a repeating timer are those a whole number of intervals behind its expiry |
| DrainLoop.EarlyEndIff | base/event_loop.cpp:122-161 | some call ends the loop with a timer still due exactly when some deadline that has passed, up to that of a stuck timer and other than the one that the first call serves for good, is late by a time whose low 32 bits exceed 2^31 |
| DrainLoop.TwoLateOneShots | base/event_loop.cpp:122 | two one-shots that are 2^31 + 1 ms late end the loop with one of them unserved and a wait of 10 s |
| DrainLoop.PunctualEndsNotEarly | base/event_loop.cpp:105-122 | deadlines that passed at most 2^31 ms ago never end the loop early |
| DrainLoop.LoopEndsIff | base/event_loop.cpp:161 | at a fixed tick the loop ends exactly when it ends early, or no repeating timer with interval 0 is due and, with all passed deadlines served, no timer runs or the low 32 bits of the time to the least expiry are a positive signed number |
| DrainLoop.SpinIff | base/event_loop.cpp:125-131 | with a front timer that is not due nothing changes, and runTimers returns 0 exactly when the low 32 bits of the gap are 0 or at least 2^31 |
| DrainLoop.InfiniteFrontSpinsIff | base/timer.cpp:36-39 | with TIMER_INFINITE in front the loop spins exactly for ticks whose low half is below 2^31 or is 2^32-1 |
| DrainLoop.ZeroIntervalSpins | base/timer.cpp:79 | while a repeating timer with interval 0 is due anywhere in the queue, every call leaves it due and, unless the loop ends early, returns 0 |
| CatchUp.OwnRestartIff | base/event_loop.cpp:114-118 | a one-shot restarted by its own handler ends not running, and list and flag still agree exactly when it was alone or would expire before the next timer |
| Scheduler.Timer.Start | base/timer.cpp:28-44 | start on the fields: nothing when running; else interval msec, repeat rep, running, and expiry now + msec in 64 bits or 2^64-1 for msec 2^32-1, with the timer queued in order |
| Scheduler.Timer.Stop | base/timer.cpp:54-59 | stop on the fields: flag cleared, all others as before, timer taken out of the list |
| Scheduler.Timer.Restart | base/timer.cpp:46-52 | restart on the fields: interval and repeat as before, running, and expiry now + interval, running before or not |
| Scheduler.Timer.Execute | base/timer.cpp:71-85 | the handler's effect, then the next deadline or the end of the timer |
| Scheduler.EventLoop.RemoveTimer | base/event_loop.cpp:81-97 | the first occurrence leaves the list and no timer's fields change |
| Scheduler.EventLoop.RunTimers | base/event_loop.cpp:101-134 | list, fields and returned wait after runTimers are those of TimerQueue.RunTimers for every handler |
| Scheduler.EventLoop.DrainTimers | base/event_loop.cpp:161 | the loop over runTimers makes exactly the calls of CatchUp.Calls, one per tick read, up to the first that returns a positive wait |
| RingBuffer.ByteBuffer.EnterWrite | utils/byte_buffer.cpp:110-131 | which writes return at once, wait, or go on |
| RingBuffer.ByteBuffer.EnterRead | utils/byte_buffer.cpp:199-215 | which reads return at once, wait, or go on, with the guard as written |
| RingBuffer.ByteBuffer.FinishWrite | utils/byte_buffer.cpp:159-188 | across the wrap, a write returns -3 at the end of the stream, and otherwise appends the first n bytes to the FIFO contents and returns n, where n is the smaller of the bytes asked for and capacity - size; the ring stays valid |
| RingBuffer.ByteBuffer.FinishRead | utils/byte_buffer.cpp:240-269 | across the wrap, a read delivers and removes exactly min(requested, available) bytes of the front, or fails at end of stream; the ring stays valid |
| ByteQueue.EnterWriteCases | utils/byte_buffer.cpp:110-131 | a write of no bytes returns -1; one on a full open buffer returns 0 with timeout 0 and waits otherwise; any other goes on |
| ByteQueue.EnterReadCases | utils/byte_buffer.cpp:199-215 | the same for a read, with the guard as written and with the mirrored one |
| ByteQueue.FinishWriteCases | utils/byte_buffer.cpp:159-188 | -3 and no change at the end of the stream; else the bytes accepted are the first min(requested, space), stand behind the old contents, and their number is returned |
| ByteQueue.FinishReadCases | utils/byte_buffer.cpp:240-269 | -3 and no change at the end of the stream; else min(requested, available) bytes are returned, and with what is left behind them they are the old contents |
| RingBuffer.WriteWraps | utils/byte_buffer.cpp:170-175 | the two copies of a wrapping write append to the ring contents |
| RingBuffer.ReadWraps | utils/byte_buffer.cpp:251-256 | the two copies of a wrapping read are the head of the ring contents and leave its tail |
| RingBuffer.ByteBuffer.AvailableData | utils/byte_buffer.cpp:272-284 | returns the number of bytes held |
| RingBuffer.ByteBuffer.SetEOS | utils/byte_buffer.cpp:300-313 | sets the end-of-stream mark and nothing else |
| RingBuffer.ByteBuffer.Flush | utils/byte_buffer.cpp:315-329 | empties the buffer and changes nothing else |
| BufferProtocol.FifoOverRuns | utils/byte_buffer.cpp:105-270 | over every interleaving, with either guard, the bytes returned since the last flush followed by the contents are the bytes accepted since |
| BufferProtocol.CarefulRunsNeverDeadlock | utils/byte_buffer.cpp:123-238 | a run without a hazard never blocks producer and consumer together, with either guard |
| BufferProtocol.HazardIff | utils/byte_buffer.cpp:204-214 | a step opens a continuation that blocks both threads exactly when it is an endless read of a full open buffer under the written guard, or a flush under a blocked producer, with no transfer pending on the other side |
| BufferProtocol.IntendedGuardNeverDeadlocks | utils/byte_buffer.cpp:123-184 | with the mirrored guard and no flush under a blocked producer, a blocked producer finds the buffer full and open, a blocked consumer empty and open, over every interleaving, so not both are blocked |
| BufferProtocol.WrittenGuardDeadlocks | utils/byte_buffer.cpp:204 | for every non-empty capacity: fill, read, write blocks both threads under the written guard |
| BufferProtocol.GuardsDifferIff | utils/byte_buffer.cpp:204 | the written guard waits where the mirrored one goes on exactly when the buffer is empty at the end of the stream or holds bytes before it |
| BufferProtocol.DeliversIff | utils/byte_buffer.cpp:204-263 | a step delivers bytes exactly when the stream is open, the buffer holds some and it comes to a transfer of at least one: with the written guard only after a wait |
| BufferProtocol.AcceptsIff | utils/byte_buffer.cpp:110-188 | into an open stream a write call, or the end of its wait, accepts exactly the first min(length, space) bytes that it has to write; at the end of the stream and in every other step nothing is accepted |
| BufferProtocol.OnlyWaitersReceive | utils/byte_buffer.cpp:204-211 | with the written guard a consumer that never comes back from a wait receives nothing over a whole run, whatever is written |
| BufferProtocol.EndedStreamIsFrozen | utils/byte_buffer.cpp:240-245 | from the end of the stream on nothing is accepted or delivered, over every run without a flush, and opening the stream again finds the bytes as they were |
| BufferProtocol.AbandonedForEver | utils/byte_buffer.cpp:184-238 | a consumer that waits at the end of the stream is released by no write, read or flush over any run in which the mark is not set again and no wakeup is spurious |
| BufferProtocol.ReadAtEndIsAbandoned | utils/byte_buffer.cpp:204 | an endless read of an empty buffer at the end of the stream waits with the written guard and returns with the mirrored one |
| TaskProtocol.StepKeepsInv | base/task.cpp:20-114 | every step of controller or worker keeps the agreement of lock, mState, mId, joins and program locations |
| TaskProtocol.AtMostOneAlive | base/task.cpp:43 | in every reachable state at most one worker is alive |
| TaskProtocol.JoinedBeforeNextCreate | base/task.cpp:30-43 | a worker is created only when every earlier one has been joined exactly once |
| TaskProtocol.JoinedAtMostOnce | base/task.cpp:68-74 | no worker is joined twice |
| TaskLaws.StartCreates | base/task.cpp:20-54 | over every interleaving, a start() of a task in INIT or STOPPED whose onPreStart and pthread_create succeed goes out with true and, when it has returned, there is exactly one worker more, unjoined, named by mId, and mState is RUNNING, or STOPPED if that worker has marked its end |
| TaskLaws.StartReturns | base/task.cpp:20-54 | left alone, such a start() in INIT returns behind five steps with its worker |
| TaskLaws.StartRefuses | base/task.cpp:24-48 | a start() that finds the task running, or whose onPreStart or pthread_create fails, goes out with false, with workers, mState and mId as they were |
| TaskLaws.RefusedCreatesNone | base/task.cpp:24-48 | on its way out, over every interleaving, it creates no worker |
| TaskLaws.StopJoinsAll | base/task.cpp:56-78 | over every interleaving, when a stop() of an idle task in any state has returned, mState is INIT, mId is cleared and every worker ever created has been joined once |
| TaskLaws.CallNeverStuck | base/task.cpp:20-78 | in every reachable state a call of the controller can go on, or the worker can take a step that is no new sleep |
| TaskLaws.SleepWaits | base/task.cpp:80-91 | a worker in sleep() is the thread that mId names, and waits on the condition with the lock given up exactly when mState is not STOPPING |
| TaskLaws.WakeupSignals | base/task.cpp:98-101 | wakeup signals the waiting worker and changes nothing else |
| TaskProtocol.StopReturnsInInit | base/task.cpp:56-78 | when stop() returns, mState is INIT, mId is cleared and every worker has been joined once, although the worker may write STOPPED during the join |
| TaskProtocol.NoLostWakeup | base/task.cpp:65-91 | during the join no worker is left waiting without a wakeup, a worker that sleeps again is sent back at once, and mState is STOPPING or the worker's own STOPPED |
| TaskProtocol.JoinNeverStuck | base/task.cpp:70-72 | during the join either the worker is gone or it can take a step that is no new sleep |
| TaskProtocol.JoinCompletesIff | base/task.cpp:70-114 | over every run of the other threads during the join, it can complete exactly when the worker has taken its remaining steps, at most 7, and 4 more for every sleep it has tried |
| TimerThreadProtocol.StepRefinesTask | base/timer_thread.cpp:30-91 | every step is one step of the task protocol or leaves its state alone |
| TimerThreadProtocol.RunRefinesTask | base/timer_thread.cpp:30-91 | every run projects to a run of the task protocol with the same end state |
| TimerThreadProtocol.StopSilences | base/timer_thread.cpp:45-49 | when stop() returns, no worker is left and none is on its way |
| TimerThreadProtocol.SilentUntilStart | base/timer_thread.cpp:71-91 | from then on no handler is called before the next start(), whatever else is called |
| TimerThreadProtocol.ExitClearedWithoutWorkers | base/timer_thread.cpp:37 | mExitTask goes back to false only when every worker ever created has been joined |
| TimerThreadProtocol.ScheduleOverRuns | base/timer_thread.cpp:75-89 | with an unchanged interval the k-th computed deadline is start + k*interval in 64 bits, and a start never asked to repeat calls the handler at most once |
| TimerThreadLaws.StartSetsFields | base/timer_thread.cpp:34-37 | start(msec, repeat) stores the tick, repeat, and msec as an int: msec - 2^32 from 2^31 on |
| TimerThreadLaws.StartLeaves | base/timer_thread.cpp:30-43 | over every interleaving with an old and the new worker, when start(msec, repeat) has returned, interval and repeat are the given ones, mExitTask is false, and there is exactly one worker more, unjoined |
| TimerThreadLaws.HandlerCalled | base/timer_thread.cpp:80-84 | a worker behind its sleep calls the handler, once, unless mState is STOPPING, and then goes back to the test |
| TimerThreadLaws.TurnsAsRun | base/timer_thread.cpp:73-90 | k turns of a repeating timer that is left alone, for every k: the handler has been called k times and the start tick is k intervals on, in 64 bits |
| TimerThreadLaws.StopLeavesSilent | base/timer_thread.cpp:45-49 | over every interleaving, when stop() has returned, no worker is left, so that no handler is called until the next start() |
| TimerThreadLaws.OneTurn | base/timer_thread.cpp:73-90 | one turn computes the deadline one interval behind the start tick, sleeps and calls the handler; with repeat the next turn starts from that deadline, without it the loop ends |
| TimerThreadLaws.StopComesBack | base/timer_thread.cpp:45-91 | wherever the worker is when stop() begins to wait for it, it is gone behind at most 16 of its steps, and of the handler only a call that was already decided is still made |
| ParcelModel.NumberOfLittleEndian | utils/parcel.cpp:120-146 | a number of k bytes stored little-endian is read back unchanged |
| ParcelModel.LittleEndianAt | utils/parcel.cpp:120-146 | byte i of a stored number v is v / 256^i % 256 |
| ParcelModel.FrameBytes | utils/parcel.cpp:32-38 | a frame is the four bytes of the payload's length, lowest first, and the payload |
| ParcelModel.GrownNumbers | utils/parcel.cpp:74-78 | without overflow the new capacity is 3 * (capacity + n) / 2, but at least 256 |
| ParcelModel.ReadOne | utils/parcel.cpp:170-259 | where a value's bytes start, the matching read delivers the value and moves just behind it |
| ParcelModel.TypedRoundTrip | utils/parcel.cpp:105-259 | any list of numbers, strings and byte blocks whose writes have room in a fresh parcel stays inside the block at every moment and, rewound, is read back, with the position ending at the size |
| ParcelModel.FitsAllIff | utils/parcel.cpp:72-168 | all writes have room, by the arithmetic of their lengths, exactly when the block holds the stream after each of them |
| ParcelModel.GrowthFits | utils/parcel.cpp:72-86 | writes whose capacity computations do not overflow have room |
| ParcelModel.GrownHasRoom | utils/parcel.cpp:74-85 | without 32-bit overflow the grown capacity has room for old capacity and request and is at most 3/2 of both (or 256) |
| ParcelModel.FullBlockHasRoomIff | utils/parcel.cpp:74 | for a full block there is room after growing exactly when the computation does not overflow |
| ParcelModel.AmortisedGrowth | utils/parcel.cpp:72-168 | after any writes the capacity holds the stream, is at most max(256, 3*size), and all reallocations have moved at most twice the capacity, which is linear in the bytes written |
| ParcelModel.SmallWritesCanGrow | utils/parcel.cpp:74 | up to 400 million bytes no capacity computation overflows |
| ParcelModel.WriteFitsIff | utils/parcel.cpp:72-112 | for every position, size and capacity, rewound and received parcels and 32-bit overflow included, exactly when a write stays inside the block, and when it leaves the size inside the block |
| ParcelModel.FrameStreamRoundTrip | utils/parcel.cpp:26-70 | concatenated frames are taken apart into their payloads, in order, with nothing left over |
| ParcelModel.UnframeAllKeeps | utils/parcel.cpp:43-70 | any stream is the frames taken off it followed by what holds no whole frame |
| ParcelModel.ReceivedIsUnframe | utils/parcel.cpp:50-66 | with four bytes or more on the descriptor, what is received is the first frame |
| ParcelModel.ShortReceived | utils/parcel.cpp:50-58 | with fewer than four bytes only zeros are received, as an empty payload |
| ParcelModel.ReceiveEndsIff | utils/parcel.cpp:58-67 | for all results that the reads can have, the receive loop ends exactly when the descriptor holds the payload or a read fails |
| Marshalling.Parcel.GrowData | utils/parcel.cpp:72-86 | for every parcel the block is replaced by one of the grown capacity that keeps what both have in common |
| Marshalling.Parcel.Write32 | utils/parcel.cpp:126-135 | at any position stores the four little-endian bytes, growing the block when needed, keeps the rest and moves position and size on; in the append phase it appends |
| Marshalling.Parcel.WroteIsValidIff | utils/parcel.cpp:105-168 | a write leaves the size inside the block exactly when there is room behind the size |
| Marshalling.Parcel.WriteString | utils/parcel.cpp:148-158 | the same for the string and its terminator |
| Marshalling.Parcel.Read32 | utils/parcel.cpp:200-213 | with four bytes left delivers the number in them and moves by four; with fewer returns 2^32-1 and does not move; exactly where the 32-bit test wraps it reads behind the block |
| Marshalling.Parcel.ReadString | utils/parcel.cpp:230-241 | delivers the bytes up to the first zero and moves behind it; null without moving exactly when there is no zero before the size |
| Marshalling.Parcel.ReadBytes | utils/parcel.cpp:243-259 | points at the next block, copied out if asked, or null without moving; a negative length moves back |
| Marshalling.Send | utils/parcel.cpp:26-41 | rewinds, and on success puts exactly the parcel's frame on the descriptor |
| Marshalling.WriteAndRead | utils/parcel.cpp:72-259 | values written by the write calls to a new parcel, with whatever reallocations that takes, come back from the read calls |
| Marshalling.Recv | utils/parcel.cpp:43-70 | for every descriptor and every chunking of the payload, success takes exactly what was sent off it and leaves the payload in the parcel, with position 0 and capacity 0; failure leaves a fresh parcel; it is still reading only with bytes missing or reads to come |
| Marshalling.SendAndReceive | utils/parcel.cpp:26-70 | parcels sent one after the other are received with their payloads, in order |
| KeyValue.KeyValueRoundTrip | utils/key_value.cpp:14-63 | printing bare keys and pairs with blank gaps and parsing calls back exactly the items, quotes kept, also when the last quote is not closed, without reading behind the buffer |
| KeyValue.PrintOfScan | utils/key_value.cpp:23-62 | every text is blanks and a print, with blank gaps, of the items that its scan calls back |
| KeyValue.PairComesBackIff | utils/key_value.cpp:29-46 | a printed pair comes back as that pair exactly when its key has at least two characters |
| KeyValue.SafeLengthIff | utils/key_value.cpp:20-21 | no text of length n is read behind the buffer exactly when n is at most 2046 |
| KeyValue.OverrunIff | utils/key_value.cpp:23-56 | a text is read behind the buffer exactly when it has 2047 characters or more and, cut off there, can be split up into items with blank gaps of which the last is a bare key not of two characters, or has an empty value or an unclosed quote |
| KeyValue.Iterate | utils/key_value.cpp:23-56 | each turn of the loop moves the cursor forward by at least one and calls back the next item, if one ends |
| KeyValue.ParseKeyValueStr | utils/key_value.cpp:14-63 | call number i is made with index i and item i of the specification, one for each item, unless the buffer is overrun, which happens exactly when the specification says so |
| MakeArgs.SplitOfPrint | utils/popen2.cpp:42-74 | splitting printed arguments, bare, quoted or with the closing quote missing, gives the arguments, less a last one of one character |
| MakeArgs.SplitInvertsJoinIff | utils/popen2.cpp:29-83 | within 4095 characters splitting inverts joining exactly when the line does not end in a bare word of one character or in a lone opening quote |
| MakeArgs.EveryCommandPrints | utils/popen2.cpp:42-74 | every command line is blanks and printed arguments with blank gaps, so what is proved of printed ones holds of all |
| MakeArgs.VectorOfCommand | utils/popen2.cpp:29-83 | with the first 4095 characters of any command seen as printed arguments, the vector has argument i as element i, less a last one of one character, and a null behind them; without arguments there is no vector |
| MakeArgs.SplitCommand | utils/popen2.cpp:29-83 | null exactly for a null command or one without arguments; else argument i of the specification is element i, and one null follows the last |
| Trim.LTrimAt | utils/trim.cpp:8-15 | points at the first non-blank of the string |
| Trim.RTrimAt | utils/trim.cpp:17-29 | cuts the string behind its last non-blank and writes nothing else |
| Ini.FirstErrorLaw | utils/ini.cpp:27-94 | the first line without separator or bracket, or refused by the handler, ends the parse with its number and with the calls of the lines up to it; without one the result is 0 and all calls are made (Ini.ClassifyIff says which lines those are) |
| Ini.ClassifyIff | utils/ini.cpp:31-63 | on characters: a line is skipped exactly when it is blank or its first non-blank is ';' or '#', is a bad header exactly when that is '[' and no ']' follows, and has no separator exactly when that is none of the three and neither '=' nor ':' is in the line |
| Ini.EveryLinePrints | utils/ini.cpp:31-76 | every other line, whatever stands in it and with or without a newline, is a printed element and is read as what that stands for |
| Ini.LineLengthLaw | utils/ini.cpp:27 | a line ends at its only newline, at the end of the file, or after 1023 characters |
| Ini.JoinOfLines | utils/ini.cpp:27 | the lines of a file, one after the other, are the file |
| Ini.ZeroIff | utils/ini.cpp:94 | the result is 0 exactly when every line can be read and the handler refuses no call with a negative number |
| Ini.PrintedLine | utils/ini.cpp:31-76 | a printed blank line, comment, section header or setting, of any length, is read as what it stands for; of a section name 63 characters are kept |
| Ini.IniRoundTrip | utils/ini.cpp:11-95 | parsing a printed document calls back exactly its (section, name, value) settings in order and returns 0 |
| Ini.ReadLine | utils/ini.cpp:31-69 | cutting the line up in its buffer yields exactly what Classify says of its text: skipped, section, bad header, no separator, or name and value |
| Ini.ParseIni | utils/ini.cpp:11-95 | calls, result and the fatal header of the loop over the file are those of Parse on its lines |
| Bits.MaskTestsBit | utils/id_gen.cpp:25 | the masked test is non-zero exactly when the bit is set |
| IdGen.FullWordIff | utils/id_gen.cpp:19-31 | the whole-word test holds exactly when the bit-by-bit scan finds every bit set |
| IdGen.AllocTakesLeast | utils/id_gen.cpp:14-38 | alloc_id returns the least id not in use and adds just it, and -1 exactly when all are in use |
| IdGen.ReleaseFrees | utils/id_gen.cpp:40-51 | release_id takes just the given id out of use, and ignores ids out of range |
| IdGen.BitmapIsOutstanding | utils/id_gen.cpp:14-51 | after every run the bitmap is exactly the set of ids returned and not released since |
| IdGen.AllocId | utils/id_gen.cpp:14-38 | the nested loops compute the specified allocation for any number of words |
| IdGen.ReleaseId | utils/id_gen.cpp:40-51 | the bitmap afterwards is the specified one |

## Left out

- The DirectFB UI, GPIO, IRQ, step motor, netlink, sockets, Wi-Fi and input layers: device and library calls, or finite tables.
- `EventLoop::loop` around the drain: select, the pipe and the descriptor watchers are system calls.
- The timer lock: handlers run inside it, so timer operations are atomic; handlers on other threads are not modelled.
- The end() that `addTimer` dereferences after a failed search, and front() of a list emptied by a one-shot's own handler: undefined in the source, excluded by precondition.
- DrainLoop.ExactCatchUp: needs idle handlers; CatchUp.UntouchedCatchUp covers other handlers, for the timers that they leave alone.
- DrainLoop.LoopEndsIff: is about one tick, like DrainLoop.EarlyEndIff; with a clock that moves during the loop its end depends on how fast the clock is.
- Task and TimerThread in place: both are modelled on values, as state machines over the steps of their threads, so aliasing of the object is not captured.
- Task: several controllers, stop() from inside the worker, and what the overridden start and stop hooks do beyond refusing a start; a failed pthread_create is assumed to leave mId alone.
- Task: the usleep branch of sleep() for a thread that is not the worker.
- TimerThread: how long a sleep lasts; it may end at any time, as the condition wait may. Without a handler, the place of its call counts as the call.
- TimerThreadLaws.StopComesBack: the handler itself is one step, so a handler that does not return is not covered.
- TaskProtocol.StepKeepsInv: says what every state keeps, not that calls get anywhere; TaskLaws does.
- More than one producer or consumer on a byte buffer, calls with a null handle, and the clock arithmetic of its timed waits.
- Allocation failures of the byte buffer and the parcel, and pthread initialisation failures.
- Scheduler.EventLoop.DrainTimers: follows the loop for as many calls as it is given ticks, since the loop itself need not end; Marshalling.Recv likewise, for a number of reads.
- Marshalling.Recv: the header arrives in one piece, unless the descriptor holds fewer than four bytes.
- Marshalling.Send: write() either fails or takes all bytes, because the source does not look at short writes.
- Marshalling.Parcel.Write32: like all writes needs room at the position, because without it the source stores behind the block; ParcelModel.WriteFitsIff says when there is.
- Marshalling.Parcel.ReadBytes: a copy to the caller's buffer needs a length that is not negative and ends inside 32 bits, as memcpy does.
- What realloc() leaves in the part of a block that was not there before.
- Marshalling.Parcel.ReadString: needs a terminator inside the block, as strlen does.
- The fork and exec half of popen2, and all printing and logging.
- A null string or callback of the key/value parser, and characters outside the C locale's isspace.
- Ini.IniRoundTrip: is stated for a handler that accepts every call; Ini.FirstErrorLaw covers the others.
