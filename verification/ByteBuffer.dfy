/** The blocking byte buffer.  ByteQueue says what each critical section does to a FIFO queue of
    bytes; the class is the circular buffer that refines it. */
module ByteQueue {
  import opened Machine

  const BUFFER_ERROR := -1
  const BUFFER_ERROR_TIMEOUT := -2
  const BUFFER_ERROR_EOS := -3

  datatype Queue = Queue(eos: bool, capacity: nat, contents: seq<byte>) {
    ghost predicate Valid() { |contents| <= capacity }
    predicate Full() { capacity == |contents| }
    predicate Empty() { contents == [] }
  }

  /** How a call leaves its first critical section: it returns, waits on a condition, or goes on. */
  datatype Entry = Return(code: int) | Wait | Go

  /** The read guard as the source has it, and the one that mirrors the write guard. */
  datatype Guard = AsWritten | Intended

  predicate WriteWaits(q: Queue) {
    q.Full() && !q.eos
  }

  predicate ReadWaits(guard: Guard, q: Queue) {
    match guard
    case AsWritten => q.Empty() || !q.eos
    case Intended => q.Empty() && !q.eos
  }

  function EnterWrite(q: Queue, len: int, timeout: int): Entry {
    if len < 1 then Return(BUFFER_ERROR)
    else if WriteWaits(q) then if timeout == 0 then Return(0) else Wait
    else Go
  }

  function EnterRead(guard: Guard, q: Queue, len: int, timeout: int): Entry {
    if len < 1 then Return(BUFFER_ERROR)
    else if ReadWaits(guard, q) then if timeout == 0 then Return(0) else Wait
    else Go
  }

  datatype Result = Result(queue: Queue, code: int, bytes: seq<byte>)

  /** The critical section that transfers the bytes of a write. */
  function FinishWrite(q: Queue, data: seq<byte>): Result
    requires q.Valid()
  {
    if q.eos then Result(q, BUFFER_ERROR_EOS, [])
    else
      var n := Min(|data|, q.capacity - |q.contents|);
      Result(q.(contents := q.contents + data[..n]), n, data[..n])
  }

  /** The critical section that transfers the bytes of a read. */
  function FinishRead(q: Queue, len: nat): Result {
    if q.eos then Result(q, BUFFER_ERROR_EOS, [])
    else
      var n := Min(len, |q.contents|);
      Result(q.(contents := q.contents[n..]), n, q.contents[..n])
  }

  // ----- what the calls return, in numbers -----

  /** A write call with no bytes fails; one on a full open buffer waits, or returns 0 if it may not. */
  lemma EnterWriteCases(q: Queue, len: int, timeout: int)
    ensures var e, full := EnterWrite(q, len, timeout), |q.contents| == q.capacity && !q.eos;
      && (len < 1 <==> e == Return(-1))
      && (len >= 1 && full && timeout == 0 <==> e == Return(0))
      && (len >= 1 && full && timeout != 0 <==> e == Wait)
      && (len >= 1 && !full <==> e == Go)
  {
  }

  lemma EnterReadCases(guard: Guard, q: Queue, len: int, timeout: int)
    ensures var e, empty := EnterRead(guard, q, len, timeout), |q.contents| == 0;
      var waits := if guard == AsWritten then empty || !q.eos else empty && !q.eos;
      && (len < 1 <==> e == Return(-1))
      && (len >= 1 && waits && timeout == 0 <==> e == Return(0))
      && (len >= 1 && waits && timeout != 0 <==> e == Wait)
      && (len >= 1 && !waits <==> e == Go)
  {
  }

  /** The smaller of the two numbers. */
  predicate IsMin(n: int, x: int, y: int) {
    n <= x && n <= y && (n == x || n == y)
  }

  /** A write accepts as many bytes from the front as fit, behind those that are there, and returns
      their number; at the end of the stream it returns -3. */
  lemma FinishWriteCases(q: Queue, data: seq<byte>)
    requires q.Valid()
    ensures var r := FinishWrite(q, data);
      && r.queue.eos == q.eos && r.queue.capacity == q.capacity
      && (q.eos ==> r.code == -3 && r.bytes == [] && r.queue.contents == q.contents)
      && (!q.eos ==> IsMin(r.code, |data|, q.capacity - |q.contents|) && |r.bytes| == r.code
                     && r.bytes <= data && r.queue.contents == q.contents + r.bytes)
  {
  }

  /** A read takes as many bytes from the front as are asked for and there, and returns their number. */
  lemma FinishReadCases(q: Queue, len: nat)
    ensures var r := FinishRead(q, len);
      && r.queue.eos == q.eos && r.queue.capacity == q.capacity
      && (q.eos ==> r.code == -3 && r.bytes == [] && r.queue.contents == q.contents)
      && (!q.eos ==> IsMin(r.code, len, |q.contents|) && |r.bytes| == r.code)
      && (!q.eos ==> r.bytes + r.queue.contents == q.contents)
  {
  }
}

module RingBuffer {
  import opened Machine
  import opened ByteQueue

  /** s with t written over it from position at. */
  ghost function Splice(s: seq<byte>, at: nat, t: seq<byte>): (r: seq<byte>)
    requires at + |t| <= |s|
    ensures |r| == |s|
  {
    s[..at] + t + s[at+|t|..]
  }

  lemma SpliceNext(s: seq<byte>, at: nat, t: seq<byte>, b: byte)
    requires at + |t| < |s|
    ensures Splice(s, at, t)[at+|t| := b] == Splice(s, at, t + [b])
  {
  }

  lemma CutInTwo(s: seq<byte>, len: nat, k: nat)
    requires k <= len <= |s|
    ensures s[0..k] == s[..len][..k] && s[k..k+(len-k)] == s[..len][k..]
  {
  }

  /** memcpy between two different blocks. */
  method MemCopy(dst: array<byte>, to: nat, src: array<byte>, from: nat, n: nat)
    requires dst != src && to + n <= dst.Length && from + n <= src.Length
    modifies dst
    ensures dst[..] == Splice(old(dst[..]), to, src[..][from..from+n])
  {
    ghost var before, out := src[..], dst[..];
    for i := 0 to n
      invariant src[..] == before && dst[..] == Splice(out, to, before[from..from+i])
    {
      SpliceNext(out, to, before[from..from+i], before[from+i]);
      assert before[from..from+i] + [before[from+i]] == before[from..from+i+1];
      ghost var was := dst[..];
      dst[to+i] := src[from+i];
      assert dst[..] == was[to+i := before[from+i]];
    }
  }

  /** Position k, counted on past the end of a block of n bytes. */
  function Wrap(k: nat, n: nat): nat
    requires k < 2 * n
  {
    if k < n then k else k - n
  }

  /** The size bytes that start at front, going round the end of mem. */
  ghost function Ring(mem: seq<byte>, front: nat, size: nat): (r: seq<byte>)
    requires front <= |mem| && size <= |mem|
    ensures |r| == size
  {
    seq(size, i requires 0 <= i < size => mem[Wrap(front + i, |mem|)])
  }

  lemma RingAt(mem: seq<byte>, front: nat, size: nat)
    requires front <= |mem| && size <= |mem|
    ensures forall i :: 0 <= i < size ==> Ring(mem, front, size)[i] == mem[Wrap(front + i, |mem|)]
  {
  }

  class ByteBuffer {
    const capacity: nat
    const buffer: array<byte>
    var eos: bool
    var size: int
    var front: int
    var rear: int

    /** front and rear may rest at capacity: the wrap is made by the next transfer. */
    ghost predicate Valid()
      reads this
    {
      && buffer.Length == capacity
      && 0 <= size <= capacity && 0 <= front <= capacity && 0 <= rear <= capacity
      && (front + size == rear || front + size == rear + capacity)
    }

    ghost function Value(): Queue
      requires Valid()
      reads this, buffer
    {
      Queue(eos, capacity, Ring(buffer[..], front, size))
    }

    constructor Create(capacity: nat)
      ensures Valid() && Value() == Queue(false, capacity, []) && fresh(buffer)
    {
      this.capacity := capacity;
      buffer := new byte[capacity](_ => 0);
      eos, size, front, rear := false, 0, 0, 0;
    }

    /** The first critical section of Write, up to the condition wait. */
    method EnterWrite(data: array?<byte>, len: int, timeout: int) returns (entry: Entry)
      requires Valid()
      ensures entry == if data == null then Return(BUFFER_ERROR) else ByteQueue.EnterWrite(Value(), len, timeout)
      ensures entry == Return(-1) <==> (data == null || len < 1)
      ensures data != null && len >= 1 && !(size == capacity && !eos) <==> entry == Go
      ensures data != null && len >= 1 && size == capacity && !eos && timeout == 0 <==> entry == Return(0)
    {
      if data == null || len < 1 {
        return Return(BUFFER_ERROR);
      }
      if capacity - size == 0 && !eos {
        if timeout == 0 {
          return Return(0);
        }
        return Wait;
      }
      return Go;
    }

    /** The copies of a write that goes round the end. */
    method CopyInTwice(data: array<byte>, len: nat, writeSize: nat)
      requires Valid() && len <= data.Length && size + len <= capacity && data != buffer
      requires writeSize == capacity - rear < len
      modifies buffer
      ensures Ring(buffer[..], front, size + len) == Ring(old(buffer[..]), front, size) + data[..len]
    {
      ghost var mem, src, all := buffer[..], data[..len], data[..];
      CutInTwo(all, len, writeSize);
      MemCopy(buffer, rear, data, 0, writeSize);
      assert data[..] == all;
      MemCopy(buffer, 0, data, writeSize, len - writeSize);
      WriteWraps(mem, front, size, rear, src);
    }

    /** The copy of a write: len bytes from rear on, in two pieces if they pass the end. */
    method CopyIn(data: array<byte>, len: nat)
      requires Valid() && len <= data.Length && size + len <= capacity && data != buffer
      modifies this`rear, buffer
      ensures 0 <= rear <= capacity && (front + size + len == rear || front + size + len == rear + capacity)
      ensures Ring(buffer[..], front, size + len) == Ring(old(buffer[..]), front, size) + data[..len]
    {
      ghost var mem, src := buffer[..], data[..len];
      var writeSize := capacity - rear;
      if writeSize < len {
        CopyInTwice(data, len, writeSize);
        rear := len - writeSize;
      } else {
        MemCopy(buffer, rear, data, 0, len);
        assert data[..][0..len] == src;
        WriteFits(mem, front, size, rear, src);
        rear := rear + len;
      }
    }

    /** The rest of Write, with the lock held again. */
    method FinishWrite(data: array<byte>, length: nat) returns (code: int)
      requires Valid() && length <= data.Length && data != buffer
      modifies this`size, this`rear, buffer
      ensures Valid()
      ensures var r := ByteQueue.FinishWrite(old(Value()), data[..length]); Value() == r.queue && code == r.code
      ensures if eos then code == -3 else IsMin(code, length, capacity - old(size)) && size == old(size) + code
    {
      if eos {
        return BUFFER_ERROR_EOS;
      }
      var len := length;
      if len > capacity - size {
        len := capacity - size;
      }
      CopyIn(data, len);
      size := size + len;
      assert data[..length][..len] == data[..len];
      code := len;
    }

    /** The first critical section of Read, up to the condition wait. */
    method EnterRead(data: array?<byte>, len: int, timeout: int) returns (entry: Entry)
      requires Valid()
      ensures entry ==
        if data == null then Return(BUFFER_ERROR) else ByteQueue.EnterRead(AsWritten, Value(), len, timeout)
      ensures entry == Return(-1) <==> (data == null || len < 1)
      ensures data != null && len >= 1 && size != 0 && eos <==> entry == Go
      ensures data != null && len >= 1 && !(size != 0 && eos) && timeout == 0 <==> entry == Return(0)
    {
      if data == null || len < 1 {
        return Return(BUFFER_ERROR);
      }
      if size == 0 || !eos {
        if timeout == 0 {
          return Return(0);
        }
        return Wait;
      }
      return Go;
    }

    /** The copies of a read that goes round the end. */
    method CopyOutTwice(data: array<byte>, len: nat, readSize: nat)
      requires Valid() && len <= data.Length && len <= size && data != buffer
      requires readSize == capacity - front < len
      modifies data
      ensures data[..] == Splice(old(data[..]), 0, Ring(buffer[..], front, size)[..len])
    {
      ghost var mem, out := buffer[..], data[..];
      ghost var bytes := Ring(mem, front, size)[..len];
      ReadWraps(mem, front, size, len);
      assert mem[front..front+readSize] == bytes[..readSize] && mem[0..0+(len-readSize)] == bytes[readSize..];
      SpliceTwice(out, bytes, readSize);
      MemCopy(data, 0, buffer, front, readSize);
      assert buffer[..] == mem && data[..] == Splice(out, 0, bytes[..readSize]);
      MemCopy(data, readSize, buffer, 0, len - readSize);
    }

    /** The copy of a read: len bytes from front on, in two pieces if they pass the end. */
    method CopyOut(data: array<byte>, len: nat)
      requires Valid() && len <= data.Length && len <= size && data != buffer
      modifies this`front, data
      ensures 0 <= front <= capacity && (front + size - len == rear || front + size - len == rear + capacity)
      ensures data[..] == Splice(old(data[..]), 0, Ring(buffer[..], old(front), size)[..len])
      ensures Ring(buffer[..], front, size - len) == Ring(buffer[..], old(front), size)[len..]
    {
      ghost var mem := buffer[..];
      var readSize := capacity - front;
      if readSize < len {
        ReadWraps(mem, front, size, len);
        CopyOutTwice(data, len, readSize);
        front := len - readSize;
      } else {
        ReadFits(mem, front, size, len);
        MemCopy(data, 0, buffer, front, len);
        front := front + len;
      }
      assert buffer[..] == mem;
    }

    /** The rest of Read, with the lock held again. */
    method FinishRead(data: array<byte>, length: nat) returns (code: int)
      requires Valid() && length <= data.Length && data != buffer
      modifies this`size, this`front, data
      ensures Valid()
      ensures var r := ByteQueue.FinishRead(old(Value()), length);
        Value() == r.queue && code == r.code && data[..] == Splice(old(data[..]), 0, r.bytes)
      ensures if eos then code == -3 else IsMin(code, length, old(size)) && size == old(size) - code
    {
      if eos {
        return BUFFER_ERROR_EOS;
      }
      var len := length;
      if size < len {
        len := size;
      }
      ghost var contents := Ring(buffer[..], front, size);
      CopyOut(data, len);
      size := size - len;
      code := len;
    }

    /** The return of a call whose timed wait has expired. */
    method GiveUp() returns (code: int)
      requires Valid()
      ensures code == -2
    {
      code := BUFFER_ERROR_TIMEOUT;
    }

    method AvailableData() returns (n: int)
      requires Valid()
      ensures n == |Value().contents|
    {
      n := size;
    }

    method AvailableSpace() returns (n: int)
      requires Valid()
      ensures n == Value().capacity - |Value().contents|
    {
      n := capacity - size;
    }

    method SetEOS(isEOS: bool)
      requires Valid()
      modifies this`eos
      ensures Valid() && Value() == old(Value()).(eos := isEOS)
    {
      eos := isEOS;
    }

    method Flush() returns (code: int)
      requires Valid()
      modifies this`size, this`front, this`rear
      ensures Valid() && Value() == old(Value()).(contents := []) && code == 0
    {
      size, front, rear := 0, 0, 0;
      code := 0;
    }
  }

  lemma SpliceTwice(out: seq<byte>, t: seq<byte>, k: nat)
    requires k <= |t| <= |out|
    ensures Splice(Splice(out, 0, t[..k]), k, t[k..]) == Splice(out, 0, t)
  {
  }

  /** A write that ends before the end of the block appends to the ring. */
  lemma WriteFits(mem: seq<byte>, front: nat, size: nat, rear: nat, data: seq<byte>)
    requires front <= |mem| && size + |data| <= |mem| && rear + |data| <= |mem|
    requires front + size == rear || front + size == rear + |mem|
    ensures Ring(Splice(mem, rear, data), front, size + |data|) == Ring(mem, front, size) + data
  {
    var ring, ring' := Ring(mem, front, size), Ring(Splice(mem, rear, data), front, size + |data|);
    RingAt(mem, front, size);
    RingAt(Splice(mem, rear, data), front, size + |data|);
    forall i | 0 <= i < size + |data| ensures ring'[i] == if i < size then ring[i] else data[i-size] {
      if i >= size {
        assert Wrap(front + i, |mem|) == rear + (i - size);
      }
    }
  }

  /** A write that goes round the end of the block appends to the ring. */
  lemma WriteWraps(mem: seq<byte>, front: nat, size: nat, rear: nat, data: seq<byte>)
    requires front <= |mem| && rear <= |mem| < rear + |data| && size + |data| <= |mem|
    requires front + size == rear || front + size == rear + |mem|
    ensures var k := |mem| - rear;
      Ring(Splice(Splice(mem, rear, data[..k]), 0, data[k..]), front, size + |data|) == Ring(mem, front, size) + data
  {
    var k := |mem| - rear;
    WriteFits(mem, front, size, rear, data[..k]);
    WriteFits(Splice(mem, rear, data[..k]), front, size + k, 0, data[k..]);
    assert data[..k] + data[k..] == data;
  }

  /** A read of consecutive bytes delivers the head of the ring and leaves its tail. */
  lemma ReadFits(mem: seq<byte>, front: nat, size: nat, len: nat)
    requires front + len <= |mem| && len <= size <= |mem|
    ensures mem[front..front+len] == Ring(mem, front, size)[..len]
    ensures Ring(mem, front + len, size - len) == Ring(mem, front, size)[len..]
  {
    var ring, ring' := Ring(mem, front, size), Ring(mem, front + len, size - len);
    RingAt(mem, front, size);
    RingAt(mem, front + len, size - len);
    forall i | 0 <= i < len ensures mem[front..front+len][i] == ring[..len][i] {
    }
    forall i | 0 <= i < size - len ensures ring'[i] == ring[len..][i] {
    }
  }

  /** A read that goes round the end delivers the head of the ring and leaves its tail. */
  lemma ReadWraps(mem: seq<byte>, front: nat, size: nat, len: nat)
    requires front <= |mem| < front + len && len <= size <= |mem|
    ensures var k := |mem| - front;
      && mem[front..] + mem[..len-k] == Ring(mem, front, size)[..len]
      && Ring(mem, len - k, size - len) == Ring(mem, front, size)[len..]
  {
    var k := |mem| - front;
    var ring, ring' := Ring(mem, front, size), Ring(mem, len - k, size - len);
    RingAt(mem, front, size);
    RingAt(mem, len - k, size - len);
    forall i | 0 <= i < len ensures (mem[front..] + mem[..len-k])[i] == ring[..len][i] {
    }
    forall i | 0 <= i < size - len ensures ring'[i] == ring[len..][i] {
    }
  }
}
