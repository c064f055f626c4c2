/** The class Parcel over its growing block, and the two ends of a frame on a file descriptor. */
module Marshalling {
  import opened Machine
  import opened Options
  import opened ParcelModel

  class Parcel {
    var data: array?<byte>
    var pos: uint32
    var size: uint32
    var capacity: uint32
    /** The bytes that reallocations have had to move. */
    ghost var moved: nat

    /** The size is inside the block and the position inside the size.  A received parcel has a
        block but capacity 0. */
    ghost predicate Valid()
      reads this
    {
      && pos <= size
      && (if data == null then size == 0 && capacity == 0
          else size <= data.Length < TWO32 && (capacity == data.Length || capacity == 0))
    }

    /** Nothing has been rewound or received. */
    ghost predicate Appending()
      reads this
    {
      Valid() && pos == size <= capacity && (data != null ==> capacity == data.Length)
    }

    ghost function Stream(): seq<byte>
      requires data != null ==> size <= data.Length
      reads `data, `size, data
    {
      if data == null then [] else data[..size]
    }

    ghost function Value(): Buffer
      requires Valid()
      reads this, data
    {
      Buffer(Stream(), pos, capacity, moved)
    }

    /** A write of n bytes does not store behind the block. */
    ghost predicate CanWrite(n: nat)
      reads this
    {
      pos + n <= Room(pos, capacity, n)
    }

    /** What a write does, wherever the position is: the bytes are stored there, everything else that
        the old and the new block have in common stays, and position and size move on. */
    twostate predicate Wrote(bytes: seq<byte>)
      reads this, data
    {
      && pos == old(pos) + |bytes| && size == (old(size) + |bytes|) % TWO32
      && capacity == Room(old(pos), old(capacity), |bytes|)
      && moved == old(moved) +
         (if (old(pos) + |bytes|) % TWO32 > old(capacity) && old(data) != null then old(data.Length) else 0)
      && (data == null ==> bytes == [] && old(data) == null)
      && (data != null ==> pos <= data.Length && data[old(pos)..pos] == bytes)
      && (data != null ==> capacity == data.Length || (bytes == [] && data == old(data)))
      && (data != null && old(data) != null ==>
            forall i :: 0 <= i < Min(data.Length, old(data.Length)) && !(old(pos) <= i < pos) ==>
              data[i] == old(data[i]))
    }

    constructor ()
      ensures Appending() && Value() == FRESH
      ensures data == null && pos == 0 && size == 0 && capacity == 0
    {
      data, pos, size, capacity, moved := null, 0, 0, 0, 0;
    }

    /** realloc() keeps what the old block and the new one have in common. */
    method GrowData(n: nat)
      requires data != null ==> data.Length < TWO32
      modifies this`data, this`capacity, this`moved
      ensures data != null && fresh(data) && data.Length == capacity == Grown(old(capacity), n)
      ensures old(data) != null ==>
        forall i :: 0 <= i < Min(data.Length, old(data.Length)) ==> data[i] == old(data[i])
      ensures moved == old(moved) + if old(data) == null then 0 else old(data.Length)
    {
      var newSize: uint32 := ((capacity + n) % TWO32 * 3) % TWO32 / 2;
      if newSize < DEFAULT_SIZE {
        newSize := DEFAULT_SIZE;
      }
      var block := new byte[newSize](_ => 0);
      if data != null {
        forall i | 0 <= i < Min(newSize, data.Length) {
          block[i] := data[i];
        }
        moved := moved + data.Length;
      }
      data := block;
      capacity := newSize;
    }

    /** The store through the pointer at mData + mDataPos. */
    method Store(bytes: seq<byte>)
      requires data != null && pos + |bytes| <= data.Length
      modifies data
      ensures data[pos..pos+|bytes|] == bytes
      ensures forall i :: 0 <= i < data.Length && !(pos <= i < pos + |bytes|) ==> data[i] == old(data[i])
    {
      forall i | 0 <= i < |bytes| {
        data[pos+i] := bytes[i];
      }
    }

    /** The growth test of the write calls. */
    method MakeRoom(n: nat)
      requires Valid() && CanWrite(n)
      modifies this`data, this`capacity, this`moved
      ensures data == old(data) || fresh(data)
      ensures capacity == Room(pos, old(capacity), n)
      ensures moved == old(moved) +
        (if (pos + n) % TWO32 > old(capacity) && old(data) != null then old(data.Length) else 0)
      ensures data == null ==> n == 0 && old(data) == null
      ensures data != null ==> pos + n <= data.Length < TWO32
      ensures data != null ==> capacity == data.Length || (n == 0 && data == old(data))
      ensures data != null && old(data) != null ==>
        forall i :: 0 <= i < Min(data.Length, old(data.Length)) ==> data[i] == old(data[i])
    {
      if (pos + n) % TWO32 > capacity {
        GrowData(n);
      }
    }

    /** Makes room for the bytes and stores them: what every write call does. */
    method Put(bytes: seq<byte>)
      requires Valid() && CanWrite(|bytes|)
      modifies this, data
      ensures Wrote(bytes) && (data == old(data) || fresh(data))
    {
      MakeRoom(|bytes|);
      if data != null {
        Store(bytes);
      }
      pos := pos + |bytes|;
      size := (size + |bytes|) % TWO32;
    }

    twostate lemma WroteStream(bytes: seq<byte>)
      requires old(Appending()) && Wrote(bytes) && data != null
      ensures data[..pos] == old(Value()).stream + bytes
    {
      assert data[..old(pos)] == old(Value()).stream;
      assert data[..pos] == data[..old(pos)] + data[old(pos)..pos];
    }

    /** In the append phase a write appends to the stream. */
    twostate lemma WroteAppends(bytes: seq<byte>)
      requires old(Appending()) && old(CanWrite(|bytes|)) && Wrote(bytes)
      ensures Appending() && Value() == Append(old(Value()), bytes)
    {
      assert size == pos <= capacity;
      if data != null {
        WroteStream(bytes);
      }
    }

    /** A write leaves the parcel readable exactly when it has room behind the size. */
    twostate lemma WroteIsValidIff(bytes: seq<byte>)
      requires old(Valid()) && old(CanWrite(|bytes|)) && Wrote(bytes)
      requires bytes != [] && old(size) + |bytes| < TWO32
      ensures Valid() <==> HasRoom(old(pos), old(size), old(capacity), |bytes|)
    {
      WriteFitsIff(old(pos), old(size), old(capacity), |bytes|);
      SmallMod(old(size) + |bytes|);
      assert data != null && capacity == data.Length && pos <= size;
    }

    method Write8(val: nat)
      requires Valid() && CanWrite(1) && Wellformed(U8(val))
      modifies this, data
      ensures Wrote(LittleEndian(val, 1)) && (data == old(data) || fresh(data))
      ensures old(Appending()) ==> Appending() && Value() == Append(old(Value()), Encode(U8(val)))
    {
      Put(LittleEndian(val, 1));
      if old(Appending()) { WroteAppends(LittleEndian(val, 1)); }
    }

    method Write16(val: nat)
      requires Valid() && CanWrite(2) && Wellformed(U16(val))
      modifies this, data
      ensures Wrote(LittleEndian(val, 2)) && (data == old(data) || fresh(data))
      ensures old(Appending()) ==> Appending() && Value() == Append(old(Value()), Encode(U16(val)))
    {
      Put(LittleEndian(val, 2));
      if old(Appending()) { WroteAppends(LittleEndian(val, 2)); }
    }

    method Write32(val: nat)
      requires Valid() && CanWrite(4) && Wellformed(U32(val))
      modifies this, data
      ensures Wrote(LittleEndian(val, 4)) && (data == old(data) || fresh(data))
      ensures old(Appending()) ==> Appending() && Value() == Append(old(Value()), Encode(U32(val)))
    {
      Put(LittleEndian(val, 4));
      if old(Appending()) { WroteAppends(LittleEndian(val, 4)); }
    }

    method Write64(val: nat)
      requires Valid() && CanWrite(8) && Wellformed(U64(val))
      modifies this, data
      ensures Wrote(LittleEndian(val, 8)) && (data == old(data) || fresh(data))
      ensures old(Appending()) ==> Appending() && Value() == Append(old(Value()), Encode(U64(val)))
    {
      Put(LittleEndian(val, 8));
      if old(Appending()) { WroteAppends(LittleEndian(val, 8)); }
    }

    /** str is the C string without its terminator. */
    method WriteString(str: seq<byte>)
      requires Valid() && CanWrite(|str| + 1) && Wellformed(Str(str))
      modifies this, data
      ensures Wrote(str + [0]) && (data == old(data) || fresh(data))
      ensures old(Appending()) ==> Appending() && Value() == Append(old(Value()), Encode(Str(str)))
    {
      Put(str + [0]);
      if old(Appending()) { WroteAppends(str + [0]); }
    }

    method WriteBytes(bytes: seq<byte>)
      requires Valid() && CanWrite(|bytes|)
      modifies this, data
      ensures Wrote(bytes) && (data == old(data) || fresh(data))
      ensures old(Appending()) ==> Appending() && Value() == Append(old(Value()), Encode(Block(bytes)))
    {
      Put(bytes);
      if old(Appending()) { WroteAppends(bytes); }
    }

    method RewindPos()
      requires Valid()
      modifies this`pos
      ensures Valid() && Value() == Rewind(old(Value())) && pos == 0
    {
      pos := 0;
    }

    method Reset()
      modifies this
      ensures Appending() && Value() == FRESH
      ensures data == null && pos == 0 && size == 0 && capacity == 0
    {
      data, pos, size, capacity, moved := null, 0, 0, 0, 0;
    }

    /** The number in the len bytes from the given position on has been read. */
    ghost predicate Fetched(from: nat, len: nat, val: nat)
      requires data != null && from + len <= data.Length
      reads this, data
    {
      pos == from + len && val == Number(data[from..from+len])
    }

    /** Reads a number of len bytes, or returns what the source returns when they are not there.  Where
        the 32-bit test wraps, the source reads behind the block: `overrun`. */
    method ReadWord(len: nat, missing: nat) returns (val: nat, overrun: bool)
      requires Valid() && 1 <= len <= 8
      modifies this`pos
      ensures Valid() && (overrun <==> old(pos) + len >= TWO32) && (overrun ==> Value() == old(Value()))
      ensures var r := Read(old(Value()), Word(len));
        !overrun ==> Value() == r.1 && val == if r.0.Num? then r.0.n else missing
      ensures old(pos) + len <= size ==> !overrun && data != null && Fetched(old(pos), len, val)
      ensures size < old(pos) + len < TWO32 ==> !overrun && pos == old(pos) && val == missing
    {
      overrun := false;
      if (pos + len) % TWO32 > size {
        return missing, false;
      }
      if pos + len >= TWO32 {
        return 0, true;
      }
      SliceOfPrefix(data, size, pos, pos + len);
      val := Number(data[pos..pos+len]);
      pos := pos + len;
    }

    method Read8() returns (val: nat, overrun: bool)
      requires Valid()
      modifies this`pos
      ensures Valid() && (overrun <==> old(pos) + 1 >= TWO32) && (overrun ==> Value() == old(Value()))
      ensures var r := Read(old(Value()), Word(1));
        !overrun ==> Value() == r.1 && val == if r.0.Num? then r.0.n else 0
      ensures old(pos) + 1 <= size ==> !overrun && data != null && Fetched(old(pos), 1, val)
      ensures size < old(pos) + 1 < TWO32 ==> !overrun && pos == old(pos) && val == 0
    {
      val, overrun := ReadWord(1, 0);
    }

    method Read16() returns (val: nat, overrun: bool)
      requires Valid()
      modifies this`pos
      ensures Valid() && (overrun <==> old(pos) + 2 >= TWO32) && (overrun ==> Value() == old(Value()))
      ensures var r := Read(old(Value()), Word(2));
        !overrun ==> Value() == r.1 && val == if r.0.Num? then r.0.n else 0
      ensures old(pos) + 2 <= size ==> !overrun && data != null && Fetched(old(pos), 2, val)
      ensures size < old(pos) + 2 < TWO32 ==> !overrun && pos == old(pos) && val == 0
    {
      val, overrun := ReadWord(2, 0);
    }

    method Read32() returns (val: nat, overrun: bool)
      requires Valid()
      modifies this`pos
      ensures Valid() && (overrun <==> old(pos) + 4 >= TWO32) && (overrun ==> Value() == old(Value()))
      ensures var r := Read(old(Value()), Word(4));
        !overrun ==> Value() == r.1 && val == if r.0.Num? then r.0.n else TWO32 - 1
      ensures old(pos) + 4 <= size ==> !overrun && data != null && Fetched(old(pos), 4, val)
      ensures size < old(pos) + 4 < TWO32 ==> !overrun && pos == old(pos) && val == 0xFFFF_FFFF
    {
      val, overrun := ReadWord(4, TWO32 - 1);
    }

    method Read64() returns (val: nat, overrun: bool)
      requires Valid()
      modifies this`pos
      ensures Valid() && (overrun <==> old(pos) + 8 >= TWO32) && (overrun ==> Value() == old(Value()))
      ensures var r := Read(old(Value()), Word(8));
        !overrun ==> Value() == r.1 && val == if r.0.Num? then r.0.n else TWO32 * TWO32 - 1
      ensures old(pos) + 8 <= size ==> !overrun && data != null && Fetched(old(pos), 8, val)
      ensures size < old(pos) + 8 < TWO32 ==> !overrun && pos == old(pos) && val == 0xFFFF_FFFF_FFFF_FFFF
    {
      val, overrun := ReadWord(8, TWO32 * TWO32 - 1);
    }

    /** strlen has to end inside the block; a string that ends after the size is refused. */
    method ReadString() returns (str: Option<seq<byte>>)
      requires Valid() && data != null
      requires exists k :: pos <= k < data.Length && data[k] == 0
      modifies this`pos
      ensures Valid()
      ensures var r := Read(old(Value()), CString);
        Value() == r.1 && str == if r.0.Text? then Some(r.0.text) else None
      ensures str == None <==> forall k :: old(pos) <= k < size ==> data[k] != 0
      ensures str == None ==> pos == old(pos)
      ensures str.Some? ==> pos == old(pos) + |str.value| + 1 <= size && data[pos-1] == 0
      ensures str.Some? ==> 0 !in str.value && data[old(pos)..pos-1] == str.value
    {
      var len := StrLen(data[pos..]);
      StringAt(len);
      if pos + len + 1 > size {
        return None;
      }
      str := Some(data[pos..pos+len]);
      pos := pos + len + 1;
    }

    /** The string at the position: where it ends, whether it is to be had, and what the read delivers. */
    lemma StringAt(len: nat)
      requires Valid() && data != null && len == StrLen(data[pos..])
      requires exists k :: pos <= k < data.Length && data[k] == 0
      ensures pos + len < data.Length && data[pos+len] == 0 && 0 !in data[pos..pos+len]
      ensures pos + len >= size <==> forall k :: pos <= k < size ==> data[k] != 0
      ensures Read(Value(), CString) ==
        if pos + len + 1 > size then (Nothing, Value())
        else (Text(data[pos..pos+len]), Value().(pos := pos + len + 1))
    {
      TerminatorInside(data, pos);
      StringEnds(data, pos, len, size);
      StringLaw(len);
    }

    /** Reading a string in terms of the block. */
    lemma StringLaw(len: nat)
      requires Valid() && data != null && len == StrLen(data[pos..]) && pos + len < data.Length
      ensures Read(Value(), CString) ==
        if pos + len + 1 > size then (Nothing, Value())
        else (Text(data[pos..pos+len]), Value().(pos := pos + len + 1))
    {
      WholeSlice(data, pos, pos + len);
      ReadInBlock(Value(), data[..], size);
    }

    /** The returned pointer is null or points at position `at` of the parcel, or, where out is given,
        at out, to which the bytes have been copied.  A negative length moves the position back. */
    method ReadBytes(out: array?<byte>, len: int32) returns (at: Option<nat>)
      requires Valid()
      requires out != null ==> 0 <= len <= out.Length && out != data && pos + len < TWO32
      modifies this`pos, out
      ensures Valid() && at == if (old(pos) + len) % TWO32 > size then None else Some(old(pos))
      ensures pos == if at.None? then old(pos) else (old(pos) + len) % TWO32
      ensures 0 <= len && old(pos) + len < TWO32 ==>
        (if at.Some? then (Raw(Stream()[old(pos)..pos]), Value()) else (Nothing, Value())) ==
        Read(old(Value()), Bytes(len))
      ensures out != null && at.Some? ==> out[..len] == Stream()[old(pos)..pos] && out[len..] == old(out[len..])
    {
      if (pos + len) % TWO32 > size {
        return None;
      }
      at := Some(pos);
      if out != null && data != null {
        CopyTo(out, len);
        SliceOfPrefix(data, size, pos, pos + len);
      }
      pos := (pos + len) % TWO32;
      if len >= 0 && old(pos) + len < TWO32 { SmallMod(old(pos) + len); }
    }

    /** memcpy from the position on. */
    method CopyTo(out: array<byte>, len: nat)
      requires data != null && out != data && len <= out.Length && pos + len <= data.Length
      modifies out
      ensures data[..] == old(data[..])
      ensures out[..len] == data[pos..pos+len] && out[len..] == old(out[len..])
    {
      forall i | 0 <= i < len {
        out[i] := data[pos+i];
      }
    }

    /** The write call for a value. */
    method WriteVal(v: Val)
      requires Appending() && CanWrite(|Encode(v)|) && Wellformed(v)
      modifies this, data
      ensures Appending() && Value() == Append(old(Value()), Encode(v)) && (data == old(data) || fresh(data))
    {
      match v
      case U8(n) => Write8(n);
      case U16(n) => Write16(n);
      case U32(n) => Write32(n);
      case U64(n) => Write64(n);
      case Str(text) => WriteString(text);
      case Block(bytes) => WriteBytes(bytes);
    }

    /** The read call for a kind of value, where there is one. */
    method ReadVal(v: Val) returns (got: Got)
      requires Valid() && Wellformed(v) && Read(Value(), KindOf(v)).0 == Meaning(v)
      modifies this`pos
      ensures Valid() && (got, Value()) == Read(old(Value()), KindOf(v))
    {
      var n, overrun;
      match v
      case U8(_) => n, overrun := Read8(); got := Num(n);
      case U16(_) => n, overrun := Read16(); got := Num(n);
      case U32(_) => n, overrun := Read32(); got := Num(n);
      case U64(_) => n, overrun := Read64(); got := Num(n);
      case Str(_) => got := ReadText();
      case Block(bytes) => got := ReadBlock(|bytes|);
    }

    method ReadText() returns (got: Got)
      requires Valid() && Read(Value(), CString).0.Text?
      modifies this`pos
      ensures Valid() && (got, Value()) == Read(old(Value()), CString)
    {
      TextInBlock(Value());
      assert data[pos+StrLen(data[..size][pos..])] == 0;
      var str := ReadString();
      got := Text(str.value);
    }

    method ReadBlock(n: nat) returns (got: Got)
      requires Valid() && n < TWO31 && Read(Value(), Bytes(n)).0.Raw?
      modifies this`pos
      ensures Valid() && (got, Value()) == Read(old(Value()), Bytes(n))
    {
      var at := ReadBytes(null, n);
      SmallMod(old(pos) + n);
      got := Raw(if data == null then [] else data[at.value..at.value+n]);
      if data != null { SliceOfPrefix(data, size, at.value, at.value + n); }
    }
  }

  lemma WholeSlice(a: array<byte>, i: nat, j: nat)
    requires i <= j <= a.Length
    ensures a[..][i..] == a[i..] && a[..][i..j] == a[i..j]
  {
  }

  /** The string that starts at pos ends at the first zero; it is behind n where none is before n. */
  lemma StringEnds(a: array<byte>, pos: nat, len: nat, n: nat)
    requires pos + len < a.Length && len == StrLen(a[pos..]) && n <= a.Length
    ensures a[pos+len] == 0 && 0 !in a[pos..pos+len]
    ensures pos + len >= n <==> forall k :: pos <= k < n ==> a[k] != 0
  {
    StrLenLaw(a[pos..]);
    forall k | pos <= k < pos + len ensures a[k] != 0 {
      assert a[pos..][k-pos] == a[k];
    }
  }

  lemma SliceOfPrefix(a: array<byte>, n: nat, i: nat, j: nat)
    requires i <= j <= n <= a.Length
    ensures a[..n][i..j] == a[i..j]
  {
  }

  /** A string that can be read has its terminator in the stream. */
  lemma TextInBlock(p: Buffer)
    requires p.pos <= |p.stream| && Read(p, CString).0.Text?
    ensures var k := p.pos + StrLen(p.stream[p.pos..]); k < |p.stream| && p.stream[k] == 0
  {
    StrLenLaw(p.stream[p.pos..]);
  }

  lemma TerminatorInside(a: array<byte>, pos: nat)
    requires exists k :: pos <= k < a.Length && a[k] == 0
    ensures pos + StrLen(a[pos..]) < a.Length
  {
    var k :| pos <= k < a.Length && a[k] == 0;
    assert a[pos..][k-pos] == 0;
    StrLenLaw(a[pos..]);
  }

  /** strlen of a part is strlen of the whole where the terminator is inside the part. */
  lemma StrLenInside(s: seq<byte>, n: nat)
    requires n <= |s|
    ensures StrLen(s[..n]) == if StrLen(s) < n then StrLen(s) else n
  {
    StrLenLaw(s);
    StrLenAt(s[..n], if StrLen(s) < n then StrLen(s) else n);
  }

  lemma SliceOfSlice(s: seq<byte>, n: nat, i: nat, j: nat)
    requires i <= j <= n <= |s|
    ensures s[..n][i..j] == s[i..j]
  {
  }

  lemma PartOfBlock(block: seq<byte>, n: nat, i: nat)
    requires i <= n <= |block|
    ensures block[i..][..n-i] == block[..n][i..]
  {
  }

  lemma HeadOfSlice(s: seq<byte>, i: nat, j: nat, k: nat)
    requires i <= j <= |s| && k <= j - i
    ensures s[i..j][..k] == s[i..i+k]
  {
  }

  /** Reading a string from a stream that is the first n bytes of a larger block. */
  lemma ReadInBlock(p: Buffer, block: seq<byte>, n: nat)
    requires p.pos <= n <= |block| && p.stream == block[..n]
    ensures var len := StrLen(block[p.pos..]);
      Read(p, CString) ==
        if p.pos + len + 1 > n then (Nothing, p) else (Text(block[p.pos..p.pos+len]), p.(pos := p.pos + len + 1))
  {
    var len := StrLen(block[p.pos..]);
    StrLenInside(block[p.pos..], n - p.pos);
    PartOfBlock(block, n, p.pos);
    if p.pos + len + 1 <= n {
      SliceOfSlice(block, n, p.pos, p.pos + len + 1);
      HeadOfSlice(block, p.pos, p.pos + len + 1, len);
    }
  }

  lemma {:induction false} WriteAllSnoc(p: Buffer, vals: seq<Val>, i: nat)
    requires p.pos == |p.stream| && i < |vals|
    ensures WriteAll(p, vals[..i+1]) == Append(WriteAll(p, vals[..i]), Encode(vals[i]))
    decreases i
  {
    if i == 0 {
      assert vals[..1][1..] == [];
    } else {
      WriteAllSnoc(Append(p, Encode(vals[0])), vals[1..], i - 1);
      assert vals[..i+1][1..] == vals[1..][..i] && vals[..i][1..] == vals[1..][..i-1];
    }
  }

  lemma {:induction false} MeaningsSnoc(vals: seq<Val>, i: nat)
    requires i < |vals|
    ensures Meanings(vals[..i+1]) == Meanings(vals[..i]) + [Meaning(vals[i])]
    decreases i
  {
    if i == 0 {
      assert vals[..1][1..] == [];
    } else {
      MeaningsSnoc(vals[1..], i - 1);
      assert vals[..i+1][1..] == vals[1..][..i] && vals[..i][1..] == vals[1..][..i-1];
    }
  }

  /** Writes the values to a new parcel. */
  method WriteVals(vals: seq<Val>) returns (parcel: Parcel)
    requires forall i :: 0 <= i < |vals| ==> Wellformed(vals[i])
    requires FitsAll(FRESH, vals)
    ensures fresh(parcel) && parcel.Appending() && parcel.Value() == WriteAll(FRESH, vals)
  {
    parcel := new Parcel();
    for i := 0 to |vals|
      invariant fresh(parcel) && (parcel.data != null ==> fresh(parcel.data))
      invariant parcel.Appending() && parcel.Value() == WriteAll(FRESH, vals[..i])
      invariant FitsAll(parcel.Value(), vals[i..])
    {
      WriteFitsIff(parcel.pos, parcel.pos, parcel.capacity, |Encode(vals[i])|);
      WriteAllSnoc(FRESH, vals, i);
      assert vals[i..][1..] == vals[i+1..];
      parcel.WriteVal(vals[i]);
    }
    assert vals[..|vals|] == vals;
  }

  /** Values written to a new parcel, whatever reallocations that takes, and read back from it. */
  method WriteAndRead(vals: seq<Val>) returns (got: seq<Got>)
    requires forall i :: 0 <= i < |vals| ==> Wellformed(vals[i])
    requires FitsAll(FRESH, vals)
    ensures got == Meanings(vals)
  {
    var parcel := WriteVals(vals);
    parcel.RewindPos();
    TypedRoundTrip(vals);
    ghost var end := WriteAll(FRESH, vals);
    got := [];
    assert vals[0..] == vals;
    for i := 0 to |vals|
      invariant fresh(parcel) && parcel.Valid() && got == Meanings(vals[..i])
      invariant ReadAll(parcel.Value(), Kinds(vals[i..])) == (Meanings(vals[i..]), end)
    {
      assert vals[i..][0] == vals[i] && vals[i..][1..] == vals[i+1..];
      ReadAllFirst(parcel.Value(), vals[i..]);
      var one := parcel.ReadVal(vals[i]);
      MeaningsSnoc(vals, i);
      got := got + [one];
    }
    assert vals[..|vals|] == vals;
  }

  lemma ReadAllFirst(p: Buffer, vals: seq<Val>)
    requires vals != [] && p.pos <= |p.stream| && ReadAll(p, Kinds(vals)).0 == Meanings(vals)
    ensures var one := Read(p, KindOf(vals[0]));
      && one.0 == Meaning(vals[0])
      && one.1.pos <= |one.1.stream|
      && ReadAll(one.1, Kinds(vals[1..])) == (Meanings(vals[1..]), ReadAll(p, Kinds(vals)).1)
  {
    var one := Read(p, KindOf(vals[0]));
    assert Kinds(vals)[1..] == Kinds(vals[1..]);
    assert ([one.0] + ReadAll(one.1, Kinds(vals[1..])).0)[1..] == ReadAll(one.1, Kinds(vals[1..])).0;
    assert Meanings(vals)[1..] == Meanings(vals[1..]);
  }

  /** A file descriptor: the bytes written to it and not yet read. */
  class Pipe {
    var bytes: seq<byte>
    /** Whether read and write never fail. */
    const reliable: bool

    constructor (reliable: bool)
      ensures bytes == [] && this.reliable == reliable
    {
      bytes, this.reliable := [], reliable;
    }

    method Write(b: seq<byte>) returns (n: int)
      modifies this`bytes
      ensures (n == |b| && bytes == old(bytes) + b) || (n == -1 && !reliable && bytes == old(bytes))
    {
      var ok: bool := *;
      if reliable || ok {
        bytes := bytes + b;
        n := |b|;
      } else {
        n := -1;
      }
    }

    /** Reads some of the bytes that are there, or 0 of none, or fails. */
    method Read(dst: array<byte>, at: nat, want: nat) returns (n: int)
      requires 1 <= want && at + want <= dst.Length
      modifies this`bytes, dst
      ensures LegalRead(n, want, |old(bytes)|) && (n == -1 ==> !reliable)
      ensures n == -1 ==> bytes == old(bytes) && dst[..] == old(dst[..])
      ensures n != -1 ==> bytes == old(bytes)[n..] && dst[..at+n] == old(dst[..at]) + old(bytes)[..n]
    {
      var ok: bool := *;
      if !reliable && !ok {
        return -1;
      }
      var k: nat := 0;
      if bytes != [] {
        k :| 1 <= k <= want && k <= |bytes|;
      }
      forall i | 0 <= i < k {
        dst[at+i] := bytes[i];
      }
      assert dst[..at+k] == old(dst[..at]) + bytes[..k];
      bytes := bytes[k..];
      n := k;
    }

    /** Reads a frame header, or what there is of one, or fails. */
    method ReadHeader() returns (n: int, header: seq<byte>)
      modifies this`bytes
      ensures (n == -1 && !reliable && bytes == old(bytes)) ||
              (n == Min(4, |old(bytes)|) && header == old(bytes)[..n] && bytes == old(bytes)[n..])
    {
      var ok: bool := *;
      header := [];
      if !reliable && !ok {
        return -1, header;
      }
      n := Min(4, |bytes|);
      header, bytes := bytes[..n], bytes[n..];
    }
  }

  method Send(fd: Pipe, parcel: Parcel) returns (rc: int)
    requires parcel.Valid()
    modifies fd`bytes, parcel`pos
    ensures parcel.Valid() && parcel.Value() == Rewind(old(parcel.Value()))
    ensures rc == 0 || (rc == -1 && !fd.reliable)
    ensures rc == 0 ==> fd.bytes == old(fd.bytes) + Frame(parcel.Value().stream)
  {
    parcel.RewindPos();
    var wsize := fd.Write(LittleEndian(parcel.size, 4));
    if wsize < 0 {
      return -1;
    }
    wsize := fd.Write(if parcel.data == null then [] else parcel.data[..parcel.size]);
    if wsize < 0 {
      return -1;
    }
    assert fd.bytes == old(fd.bytes) + Frame(parcel.Value().stream);
    return 0;
  }

  /** The loop of recv(), followed for at most `rounds` reads: at the end of the file it would go on
      for ever, so the result may be that it is still reading. */
  method ReadPayload(fd: Pipe, block: array<byte>, rounds: nat) returns (rc: Option<int>)
    modifies fd`bytes, block
    ensures rc == None || rc == Some(0) || (rc == Some(-1) && !fd.reliable)
    ensures rc == Some(0) ==> block.Length <= |old(fd.bytes)| && block[..] == old(fd.bytes)[..block.Length]
    ensures rc == Some(0) ==> fd.bytes == old(fd.bytes)[block.Length..]
    ensures rc == None ==> |old(fd.bytes)| < block.Length || rounds < block.Length
  {
    ghost var stream := fd.bytes;
    var totalRead, made := 0, 0;
    while block.Length > totalRead
      invariant 0 <= totalRead <= block.Length && totalRead <= |stream| && made <= rounds
      invariant fd.bytes == stream[totalRead..] && block[..totalRead] == stream[..totalRead]
      invariant totalRead == |stream| || made <= totalRead
      decreases rounds - made
    {
      if made == rounds {
        return None;
      }
      made := made + 1;
      var rsize := fd.Read(block, totalRead, block.Length - totalRead);
      if rsize < 0 {
        return Some(-1);
      }
      assert stream[..totalRead] + stream[totalRead..][..rsize] == stream[..totalRead+rsize];
      totalRead := totalRead + rsize;
    }
    assert block[..] == block[..totalRead];
    return Some(0);
  }

  /** Whatever is on the descriptor. */
  method Recv(fd: Pipe, parcel: Parcel, rounds: nat) returns (rc: Option<int>)
    modifies fd`bytes, parcel
    ensures rc == Some(0) || (rc == Some(-1) && !fd.reliable && parcel.Valid() && parcel.Value() == FRESH) || rc == None
    ensures rc == Some(0) ==>
      && parcel.Valid() && parcel.pos == 0 && parcel.capacity == 0 && parcel.data != null
      && Received(old(fd.bytes)) == Some((parcel.Value().stream, fd.bytes))
    ensures rc == None ==> Received(old(fd.bytes)) == None || rounds < HeaderSize(old(fd.bytes))
  {
    parcel.Reset();
    ghost var stream := fd.bytes;
    var rsize, header := fd.ReadHeader();
    if rsize < 0 {
      return Some(-1);
    }
    HeaderFits(header);
    parcel.size := Number(header);
    var block := new byte[parcel.size](_ => 0);
    parcel.data := block;
    rc := ReadPayload(fd, block, rounds);
    if rc == Some(-1) {
      parcel.Reset();
      return;
    }
    assert block[..] == block[..parcel.size];
    ReceivedIs(stream, header, parcel.size);
  }

  lemma ReceivedIs(stream: seq<byte>, header: seq<byte>, n: nat)
    requires header == stream[..Min(4, |stream|)] && n == HeaderSize(stream)
    ensures var rest := stream[|header|..];
      Received(stream) == if |rest| < n then None else Some((rest[..n], rest[n..]))
  {
    if |stream| >= |header| + n { TailSlices(stream, |header|, n); }
  }

  lemma TailSlices(s: seq<byte>, h: nat, n: nat)
    requires h + n <= |s|
    ensures s[h..][..n] == s[h..h+n] && s[h..][n..] == s[h+n..]
  {
  }

  /** The parcels hold these payloads. */
  ghost predicate Hold(parcels: seq<Parcel>, payloads: seq<seq<byte>>)
    reads set i | 0 <= i < |parcels| :: parcels[i]
    reads set i | 0 <= i < |parcels| && parcels[i].data != null :: parcels[i].data
  {
    && |payloads| == |parcels|
    && forall i :: 0 <= i < |parcels| ==> parcels[i].Valid() && parcels[i].Stream() == payloads[i]
  }

  method SendAll(fd: Pipe, parcels: seq<Parcel>, ghost payloads: seq<seq<byte>>)
    requires fd.reliable && fd.bytes == [] && Hold(parcels, payloads)
    modifies fd`bytes, set i | 0 <= i < |parcels| :: parcels[i]
    ensures fd.bytes == FrameAll(payloads)
  {
    for i := 0 to |parcels|
      invariant fd.bytes == FrameAll(payloads[..i]) && Hold(parcels, payloads)
    {
      SendOne(fd, parcels[i], parcels, payloads, i);
      FrameAllSnoc(payloads[..i], payloads[i]);
      assert payloads[..i+1] == payloads[..i] + [payloads[i]];
    }
    assert payloads[..|parcels|] == payloads;
  }

  method SendOne(fd: Pipe, parcel: Parcel, ghost parcels: seq<Parcel>, ghost payloads: seq<seq<byte>>, ghost i: nat)
    requires fd.reliable && Hold(parcels, payloads) && i < |parcels| && parcels[i] == parcel
    modifies fd`bytes, parcel`pos
    ensures fd.bytes == old(fd.bytes) + Frame(payloads[i]) && Hold(parcels, payloads)
  {
    var rc := Send(fd, parcel);
  }

  method RecvAll(fd: Pipe, count: nat, ghost payloads: seq<seq<byte>>) returns (received: seq<seq<byte>>)
    requires fd.reliable && fd.bytes == FrameAll(payloads) && |payloads| == count
    requires forall i :: 0 <= i < |payloads| ==> |payloads[i]| < TWO32
    modifies fd`bytes
    ensures received == payloads && fd.bytes == []
  {
    received := [];
    assert payloads[0..] == payloads;
    for i := 0 to count
      invariant received == payloads[..i] && fd.bytes == FrameAll(payloads[i..])
    {
      var parcel := new Parcel();
      assert payloads[i..][1..] == payloads[i+1..];
      FrameReceived(payloads[i], FrameAll(payloads[i+1..]));
      var rc := Recv(fd, parcel, TWO32);
      received := received + [parcel.data[..parcel.size]];
    }
  }

  /** Parcels sent one after the other over a descriptor that does not fail, and received again: the
      payloads arrive, in order, and the descriptor is empty again. */
  method SendAndReceive(parcels: seq<Parcel>, ghost payloads: seq<seq<byte>>) returns (received: seq<seq<byte>>)
    requires Hold(parcels, payloads)
    modifies set i | 0 <= i < |parcels| :: parcels[i]
    ensures received == payloads
  {
    var fd := new Pipe(true);
    SendAll(fd, parcels, payloads);
    received := RecvAll(fd, |parcels|, payloads);
  }

  lemma FrameReceived(payload: seq<byte>, rest: seq<byte>)
    requires |payload| < TWO32
    ensures Received(Frame(payload) + rest) == Some((payload, rest)) && HeaderSize(Frame(payload) + rest) == |payload|
  {
    UnframeFrame(payload, rest);
    ReceivedIsUnframe(Frame(payload) + rest);
  }
}
