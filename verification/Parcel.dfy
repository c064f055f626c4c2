/** Parcel as a value: a byte stream with a position, its capacity, and the laws of the typed
    round trip, of the growth of its block, and of the frames on a file descriptor. */
module ParcelModel {
  import opened Machine
  import opened Options

  const DEFAULT_SIZE: int := 256

  // ----- little-endian numbers -----

  function Pow256(k: nat): (r: nat)
    ensures r >= 1
  {
    if k == 0 then 1 else 256 * Pow256(k - 1)
  }

  function LittleEndian(v: nat, k: nat): (r: seq<byte>)
    ensures |r| == k
  {
    if k == 0 then [] else [v % 256] + LittleEndian(v / 256, k - 1)
  }

  function Number(bytes: seq<byte>): (r: nat)
    ensures r < Pow256(|bytes|)
  {
    if bytes == [] then 0 else bytes[0] + 256 * Number(bytes[1..])
  }

  lemma {:induction false} NumberOfLittleEndian(v: nat, k: nat)
    requires v < Pow256(k)
    ensures Number(LittleEndian(v, k)) == v
  {
    if k > 0 {
      NumberOfLittleEndian(v / 256, k - 1);
      assert LittleEndian(v, k)[1..] == LittleEndian(v / 256, k - 1);
    }
  }

  lemma {:induction false} LittleEndianOfNumber(bytes: seq<byte>)
    ensures LittleEndian(Number(bytes), |bytes|) == bytes
  {
    if bytes != [] {
      LittleEndianOfNumber(bytes[1..]);
      assert Number(bytes) % 256 == bytes[0] && Number(bytes) / 256 == Number(bytes[1..]);
    }
  }

  lemma Pow256Values()
    ensures Pow256(0) == 1 && Pow256(1) == 256 && Pow256(2) == 65536 && Pow256(3) == 16777216
    ensures Pow256(4) == 4294967296 && Pow256(5) == 1099511627776 && Pow256(6) == 281474976710656
    ensures Pow256(7) == 72057594037927936 && Pow256(8) == 18446744073709551616
  {
    assert Pow256(2) == 65536 && Pow256(3) == 16777216 && Pow256(4) == 4294967296;
    assert Pow256(5) == 1099511627776 && Pow256(6) == 281474976710656 && Pow256(7) == 72057594037927936;
  }

  /** Byte i of a number is the one of weight 256^i: the lowest byte is first. */
  lemma {:induction false} LittleEndianAt(v: nat, k: nat, i: nat)
    requires i < k
    ensures LittleEndian(v, k)[i] == v / Pow256(i) % 256
    decreases i
  {
    if i > 0 {
      LittleEndianAt(v / 256, k - 1, i - 1);
      DivDiv(v, Pow256(i - 1));
    }
  }

  lemma DivDiv(v: nat, m: nat)
    requires m > 0
    ensures v / 256 / m == v / (256 * m)
  {
    var a, b := v / 256, v / 256 / m;
    var r := v % 256 + 256 * (a % m);
    assert v == 256 * a + v % 256 && a == m * b + a % m;
    assert 256 * (m * b) == 256 * m * b;
    QuotientBy(v, 256 * m, b, r);
  }

  lemma QuotientBy(x: nat, d: nat, q: nat, r: nat)
    requires x == d * q + r && r < d
    ensures x / d == q
  {
    var k := x / d - q;
    assert d * k == d * (x / d) - d * q == r - x % d;
    if k != 0 {
      MulGrows(d, k);
    }
  }

  lemma MulGrows(d: nat, k: int)
    requires k != 0
    ensures d * k >= d || d * k + d <= 0
  {
  }

  /** The four bytes of a 32-bit number. */
  lemma FourBytes(v: nat)
    ensures LittleEndian(v, 4) == [v % 256, v / 256 % 256, v / 65536 % 256, v / 16777216 % 256]
  {
    Pow256Values();
    LittleEndianAt(v, 4, 0);
    LittleEndianAt(v, 4, 1);
    LittleEndianAt(v, 4, 2);
    LittleEndianAt(v, 4, 3);
  }

  // ----- the parcel -----

  /** `stream` is the first mDataSize bytes of mData; `moved` counts the bytes that all reallocations
      so far have had to move. */
  datatype Buffer = Buffer(stream: seq<byte>, pos: nat, capacity: uint32, moved: nat)

  const FRESH := Buffer([], 0, 0, 0)

  function Rewind(p: Buffer): Buffer {
    p.(pos := 0)
  }

  /** growData's new capacity, in 32-bit arithmetic. */
  function Grown(capacity: nat, n: nat): uint32 {
    var newSize := ((capacity + n) % TWO32 * 3) % TWO32 / 2;
    if newSize < DEFAULT_SIZE then DEFAULT_SIZE else newSize
  }

  /** The capacity behind a write of n bytes at pos.  Room is made for the position, not for the size.
      The test is made in 32 bits, as for strings and byte blocks; the number writes make it in size_t,
      which differs only where the store ends behind any block. */
  function Room(pos: nat, capacity: uint32, n: nat): uint32 {
    if (pos + n) % TWO32 > capacity then Grown(capacity, n) else capacity
  }

  lemma SmallMod(x: nat)
    requires x < TWO32
    ensures x % TWO32 == x
  {
  }

  /** A write of n bytes at pos leaves room for n bytes behind `at`: the block has it already, or it
      is in the default size, or in 3/2 of capacity and n with what the 32 bits cut off. */
  predicate HasRoom(pos: nat, at: nat, capacity: nat, n: nat) {
    if pos + n <= capacity then at + n <= capacity
    else at + n <= DEFAULT_SIZE || 2 * at + 3 * (capacity + n) / TWO32 * TWO32 <= 3 * capacity + n
  }

  /** Exactly when a write fits, for every position, size and capacity: with the position for `at` it
      does not store behind the block, with the size it does not leave the size behind the block. */
  lemma WriteFitsIff(pos: nat, at: nat, capacity: uint32, n: nat)
    requires pos <= at
    ensures at + n <= Room(pos, capacity, n) <==> HasRoom(pos, at, capacity, n)
  {
    GrownFitsIff(at, capacity, n);
    if pos + n < TWO32 { SmallMod(pos + n); }
  }

  lemma GrownFitsIff(at: nat, capacity: nat, n: nat)
    ensures at + n <= Grown(capacity, n) <==>
      at + n <= DEFAULT_SIZE || 2 * at + 3 * (capacity + n) / TWO32 * TWO32 <= 3 * capacity + n
  {
    var q := 3 * (capacity + n) / TWO32;
    GrownIs(capacity, n, q);
    AtMostHalf(at + n, 3 * (capacity + n) - q * TWO32);
  }

  lemma AtMostHalf(x: int, y: int)
    ensures x <= y / 2 <==> 2 * x <= y
  {
  }

  /** Grown with its 32-bit remainder written out. */
  lemma GrownIs(capacity: nat, n: nat, q: nat)
    requires q == 3 * (capacity + n) / TWO32
    ensures Grown(capacity, n) == Max(DEFAULT_SIZE, (3 * (capacity + n) - q * TWO32) / 2)
  {
    var x := capacity + n;
    var k, r := x / TWO32, x % TWO32;
    var p, m := r * 3 / TWO32, r * 3 % TWO32;
    assert x == k * TWO32 + r && r * 3 == p * TWO32 + m;
    QuotientIs(3 * x, 3 * k + p, m);
  }

  /** As long as 3 * (capacity + n) does not overflow, the new capacity is half of it, and 256 at least. */
  lemma GrownNumbers(capacity: nat, n: nat)
    requires 3 * (capacity + n) < 4294967296
    ensures Grown(capacity, n) == if 3 * (capacity + n) / 2 < 256 then 256 else 3 * (capacity + n) / 2
  {
    QuotientIs(3 * (capacity + n), 0, 3 * (capacity + n));
    GrownIs(capacity, n, 0);
  }

  lemma QuotientIs(x: nat, q: nat, m: nat)
    requires x == q * TWO32 + m && m < TWO32
    ensures x / TWO32 == q && x % TWO32 == m
  {
  }

  /** The capacity arithmetic of growing by n does not overflow 32 bits. */
  predicate CanGrow(capacity: nat, n: nat) {
    3 * (capacity + n) < TWO32
  }

  /** Writing in the append phase: the bytes go to the end of the stream. */
  function Append(p: Buffer, bytes: seq<byte>): Buffer
    requires p.pos == |p.stream|
  {
    var p1 := p.(stream := p.stream + bytes, pos := p.pos + |bytes|);
    if (p.pos + |bytes|) % TWO32 > p.capacity then
      p1.(capacity := Grown(p.capacity, |bytes|), moved := p.moved + p.capacity)
    else p1
  }

  /** The next n bytes, if the stream has them. */
  function Take(p: Buffer, n: nat): Option<seq<byte>>
    requires p.pos <= |p.stream|
  {
    if p.pos + n > |p.stream| then None else Some(p.stream[p.pos..p.pos+n])
  }

  function Skip(p: Buffer, n: nat): Buffer {
    if p.pos + n > |p.stream| then p else p.(pos := p.pos + n)
  }

  // ----- typed values -----

  datatype Val = U8(n: nat) | U16(n: nat) | U32(n: nat) | U64(n: nat) | Str(text: seq<byte>) | Block(bytes: seq<byte>)

  datatype Kind = Word(size: nat) | CString | Bytes(size: nat)

  /** Values of the types of the write calls, with lengths that are an int. */
  predicate Wellformed(v: Val) {
    match v
    case U8(n) => n < Pow256(1)
    case U16(n) => n < Pow256(2)
    case U32(n) => n < Pow256(4)
    case U64(n) => n < Pow256(8)
    case Str(text) => 0 !in text && |text| + 1 < TWO31
    case Block(bytes) => |bytes| < TWO31
  }

  function KindOf(v: Val): Kind {
    match v
    case U8(_) => Word(1)
    case U16(_) => Word(2)
    case U32(_) => Word(4)
    case U64(_) => Word(8)
    case Str(_) => CString
    case Block(bytes) => Bytes(|bytes|)
  }

  /** The bytes that the write call for v appends. */
  function Encode(v: Val): seq<byte> {
    match v
    case U8(n) => LittleEndian(n, 1)
    case U16(n) => LittleEndian(n, 2)
    case U32(n) => LittleEndian(n, 4)
    case U64(n) => LittleEndian(n, 8)
    case Str(text) => text + [0]
    case Block(bytes) => bytes
  }

  function StrLen(s: seq<byte>): (n: nat)
    ensures n <= |s|
  {
    if s == [] || s[0] == 0 then 0 else 1 + StrLen(s[1..])
  }

  /** strlen ends at the first zero. */
  lemma {:induction false} StrLenLaw(s: seq<byte>)
    ensures forall i :: 0 <= i < StrLen(s) ==> s[i] != 0
    ensures StrLen(s) < |s| ==> s[StrLen(s)] == 0
  {
    if s != [] && s[0] != 0 {
      StrLenLaw(s[1..]);
      forall i | 0 <= i < StrLen(s) ensures s[i] != 0 {
        assert i > 0 ==> s[1..][i-1] == s[i];
      }
    }
  }

  lemma {:induction false} StrLenAt(s: seq<byte>, n: nat)
    requires n <= |s| && (forall i :: 0 <= i < n ==> s[i] != 0) && (n < |s| ==> s[n] == 0)
    ensures StrLen(s) == n
    decreases n
  {
    if n > 0 {
      forall i | 0 <= i < n - 1 ensures s[1..][i] != 0 {
        assert s[1..][i] == s[i+1];
      }
      StrLenAt(s[1..], n - 1);
    }
  }

  /** What a read call of the given kind delivers. */
  datatype Got = Num(n: nat) | Text(text: seq<byte>) | Raw(bytes: seq<byte>) | Nothing

  function Read(p: Buffer, kind: Kind): (Got, Buffer)
    requires p.pos <= |p.stream|
  {
    match kind
    case Word(size) =>
      (match Take(p, size)
       case None => (Nothing, p)
       case Some(b) => (Num(Number(b)), Skip(p, size)))
    case CString =>
      var len := StrLen(p.stream[p.pos..]) + 1;
      (match Take(p, len)
       case None => (Nothing, p)
       case Some(b) => (Text(b[..len-1]), Skip(p, len)))
    case Bytes(size) =>
      (match Take(p, size)
       case None => (Nothing, p)
       case Some(b) => (Raw(b), Skip(p, size)))
  }

  /** What reading back a written value has to deliver. */
  function Meaning(v: Val): Got {
    match v
    case Str(text) => Text(text)
    case Block(bytes) => Raw(bytes)
    case _ => Num(v.n)
  }

  function WriteAll(p: Buffer, vals: seq<Val>): (r: Buffer)
    requires p.pos == |p.stream|
    ensures r.pos == |r.stream|
    decreases |vals|
  {
    if vals == [] then p else WriteAll(Append(p, Encode(vals[0])), vals[1..])
  }

  function ReadAll(p: Buffer, kinds: seq<Kind>): (r: (seq<Got>, Buffer))
    requires p.pos <= |p.stream|
    decreases |kinds|
  {
    if kinds == [] then ([], p)
    else
      var one := Read(p, kinds[0]);
      var rest := ReadAll(one.1, kinds[1..]);
      ([one.0] + rest.0, rest.1)
  }

  function Kinds(vals: seq<Val>): seq<Kind> {
    if vals == [] then [] else [KindOf(vals[0])] + Kinds(vals[1..])
  }

  function Meanings(vals: seq<Val>): seq<Got> {
    if vals == [] then [] else [Meaning(vals[0])] + Meanings(vals[1..])
  }

  function EncodeAll(vals: seq<Val>): seq<byte> {
    if vals == [] then [] else Encode(vals[0]) + EncodeAll(vals[1..])
  }

  lemma {:induction false} WriteAllStream(p: Buffer, vals: seq<Val>)
    requires p.pos == |p.stream|
    ensures WriteAll(p, vals).stream == p.stream + EncodeAll(vals)
    decreases |vals|
  {
    if vals != [] {
      WriteAllStream(Append(p, Encode(vals[0])), vals[1..]);
      assert p.stream + Encode(vals[0]) + EncodeAll(vals[1..]) == p.stream + EncodeAll(vals);
    }
  }

  lemma StrLenOfText(text: seq<byte>, rest: seq<byte>)
    requires 0 !in text
    ensures StrLen(text + [0] + rest) == |text|
  {
    forall i | 0 <= i < |text| ensures (text + [0] + rest)[i] != 0 {
      assert (text + [0] + rest)[i] == text[i] && text[i] in text;
    }
    StrLenAt(text + [0] + rest, |text|);
  }

  /** Where k bytes are followed by rest, they are taken and rest is left. */
  lemma TakeFront(p: Buffer, b: seq<byte>, rest: seq<byte>)
    requires p.pos <= |p.stream| && p.stream[p.pos..] == b + rest
    ensures p.pos + |b| <= |p.stream| && p.stream[p.pos+|b|..] == rest
    ensures Take(p, |b|) == Some(b) && Skip(p, |b|) == p.(pos := p.pos + |b|)
  {
    assert p.stream[p.pos..p.pos+|b|] == p.stream[p.pos..][..|b|];
    assert p.stream[p.pos+|b|..] == p.stream[p.pos..][|b|..];
  }

  lemma ReadText(p: Buffer, text: seq<byte>, rest: seq<byte>)
    requires 0 !in text && p.pos <= |p.stream| && p.stream[p.pos..] == text + [0] + rest
    ensures Read(p, CString) == (Text(text), p.(pos := p.pos + |text| + 1))
  {
    TakeFront(p, text + [0], rest);
    StrLenOfText(text, rest);
    assert (text + [0])[..|text|] == text;
  }

  /** Reading a value's kind where its encoding starts delivers the value and moves behind it. */
  lemma ReadOne(p: Buffer, v: Val, rest: seq<byte>)
    requires Wellformed(v) && p.pos <= |p.stream| && p.stream[p.pos..] == Encode(v) + rest
    ensures Read(p, KindOf(v)) == (Meaning(v), p.(pos := p.pos + |Encode(v)|))
    ensures p.pos + |Encode(v)| <= |p.stream| && p.stream[p.pos+|Encode(v)|..] == rest
  {
    TakeFront(p, Encode(v), rest);
    match v
    case Str(text) => ReadText(p, text, rest);
    case Block(_) =>
    case _ => NumberOfLittleEndian(v.n, |Encode(v)|);
  }

  lemma {:induction false} ReadAllBack(p: Buffer, vals: seq<Val>)
    requires forall i :: 0 <= i < |vals| ==> Wellformed(vals[i])
    requires p.pos <= |p.stream| && p.stream[p.pos..] == EncodeAll(vals)
    ensures ReadAll(p, Kinds(vals)) == (Meanings(vals), p.(pos := |p.stream|))
    decreases |vals|
  {
    if vals != [] {
      var p1 := p.(pos := p.pos + |Encode(vals[0])|);
      ReadOne(p, vals[0], EncodeAll(vals[1..]));
      ReadAllBack(p1, vals[1..]);
      ReadAllCons(p, KindOf(vals[0]), p1, Kinds(vals[1..]));
    }
  }

  lemma ReadAllCons(p: Buffer, kind: Kind, p1: Buffer, kinds: seq<Kind>)
    requires p.pos <= |p.stream| && p1.pos <= |p1.stream| && Read(p, kind).1 == p1
    ensures ReadAll(p, [kind] + kinds) == ([Read(p, kind).0] + ReadAll(p1, kinds).0, ReadAll(p1, kinds).1)
  {
    assert ([kind] + kinds)[1..] == kinds;
  }

  // ----- growth -----

  /** In the append phase the capacity holds the stream and is at most three times it (or the
      default), and all reallocations together have moved at most twice the capacity. */
  predicate Amortised(p: Buffer) {
    && p.pos == |p.stream| <= p.capacity <= Max(DEFAULT_SIZE, 3 * |p.stream|)
    && p.moved <= 2 * p.capacity
  }

  lemma GrownHasRoom(capacity: nat, n: nat)
    requires CanGrow(capacity, n)
    ensures Grown(capacity, n) >= capacity + n && 2 * Grown(capacity, n) >= 3 * (capacity + n) - 1
    ensures Grown(capacity, n) <= Max(DEFAULT_SIZE, 3 * (capacity + n) / 2)
  {
    var y := 3 * (capacity + n);
    QuotientIs(y, 0, y);
    GrownIs(capacity, n, 0);
    AtMostHalf(y / 2, y);
    AtMostHalf(y / 2 + 1, y);
  }

  lemma {:induction false} AppendKeepsAmortised(p: Buffer, bytes: seq<byte>)
    requires Amortised(p) && CanGrow(p.capacity, |bytes|)
    ensures Amortised(Append(p, bytes))
  {
    GrownHasRoom(p.capacity, |bytes|);
    SmallMod(p.pos + |bytes|);
  }

  /** Every capacity computation of the writes stays inside 32 bits. */
  ghost predicate CanWriteAll(p: Buffer, vals: seq<Val>)
    requires p.pos == |p.stream|
    decreases |vals|
  {
    vals == [] || (CanGrow(p.capacity, |Encode(vals[0])|) && CanWriteAll(Append(p, Encode(vals[0])), vals[1..]))
  }

  /** After any writes the capacity holds the stream, and the bytes moved by reallocation are linear
      in the bytes written. */
  lemma {:induction false} AmortisedGrowth(p: Buffer, vals: seq<Val>)
    requires Amortised(p) && CanWriteAll(p, vals)
    ensures var r := WriteAll(p, vals);
      Amortised(r) && r.moved <= Max(2 * DEFAULT_SIZE, 6 * |r.stream|)
    decreases |vals|
  {
    if vals != [] {
      AppendKeepsAmortised(p, Encode(vals[0]));
      AmortisedGrowth(Append(p, Encode(vals[0])), vals[1..]);
    }
  }

  /** Up to 400 million bytes no capacity computation overflows. */
  lemma {:induction false} SmallWritesCanGrow(p: Buffer, vals: seq<Val>)
    requires Amortised(p) && |p.stream| + |EncodeAll(vals)| <= 400_000_000
    ensures CanWriteAll(p, vals)
    decreases |vals|
  {
    if vals != [] {
      AppendKeepsAmortised(p, Encode(vals[0]));
      SmallWritesCanGrow(Append(p, Encode(vals[0])), vals[1..]);
    }
  }

  /** For a full block the grown capacity has room exactly when its computation does not overflow. */
  lemma FullBlockHasRoomIff(capacity: nat, n: nat)
    requires n >= 1 && capacity + n < TWO32
    ensures Grown(capacity, n) >= capacity + n <==> CanGrow(capacity, n)
  {
  }

  // ----- the round trip inside the block -----

  predicate InBlock(p: Buffer) {
    p.pos == |p.stream| <= p.capacity
  }

  /** Every write has room for its bytes. */
  ghost predicate FitsAll(p: Buffer, vals: seq<Val>)
    requires p.pos == |p.stream|
    decreases |vals|
  {
    vals == [] ||
    (HasRoom(p.pos, p.pos, p.capacity, |Encode(vals[0])|) && FitsAll(Append(p, Encode(vals[0])), vals[1..]))
  }

  lemma AppendFitsIff(p: Buffer, bytes: seq<byte>)
    requires p.pos == |p.stream|
    ensures InBlock(Append(p, bytes)) <==> HasRoom(p.pos, p.pos, p.capacity, |bytes|)
  {
    WriteFitsIff(p.pos, p.pos, p.capacity, |bytes|);
  }

  lemma WriteAllPrefix(p: Buffer, vals: seq<Val>, k: nat)
    requires p.pos == |p.stream| && 1 <= k <= |vals|
    ensures WriteAll(p, vals[..k]) == WriteAll(Append(p, Encode(vals[0])), vals[1..][..k-1])
  {
    assert vals[..k][1..] == vals[1..][..k-1];
  }

  /** All writes have room exactly when the block holds the stream after each of them. */
  lemma {:induction false} FitsAllIff(p: Buffer, vals: seq<Val>)
    requires InBlock(p)
    ensures FitsAll(p, vals) <==> forall k :: 0 <= k <= |vals| ==> InBlock(WriteAll(p, vals[..k]))
    decreases |vals|
  {
    if vals != [] {
      var p1 := Append(p, Encode(vals[0]));
      AppendFitsIff(p, Encode(vals[0]));
      forall k | 1 <= k <= |vals| ensures WriteAll(p, vals[..k]) == WriteAll(p1, vals[1..][..k-1]) {
        WriteAllPrefix(p, vals, k);
      }
      assert WriteAll(p1, vals[1..][..0]) == p1;
      if InBlock(p1) {
        FitsAllIff(p1, vals[1..]);
        if forall k :: 0 <= k <= |vals| ==> InBlock(WriteAll(p, vals[..k])) {
          forall k | 0 <= k <= |vals| - 1 ensures InBlock(WriteAll(p1, vals[1..][..k])) {
            assert InBlock(WriteAll(p, vals[..k+1]));
          }
        }
      } else {
        assert !InBlock(WriteAll(p, vals[..1]));
      }
    }
  }

  /** Writes whose capacities do not overflow have room. */
  lemma {:induction false} GrowthFits(p: Buffer, vals: seq<Val>)
    requires Amortised(p) && CanWriteAll(p, vals)
    ensures FitsAll(p, vals)
    decreases |vals|
  {
    if vals != [] {
      AppendKeepsAmortised(p, Encode(vals[0]));
      AppendFitsIff(p, Encode(vals[0]));
      GrowthFits(Append(p, Encode(vals[0])), vals[1..]);
    }
  }

  /** Values whose writes have room in a fresh parcel stay inside its block at every moment, and are
      read back after a rewind, one by one, with the position ending at the size. */
  lemma {:induction false} TypedRoundTrip(vals: seq<Val>)
    requires forall i :: 0 <= i < |vals| ==> Wellformed(vals[i])
    requires FitsAll(FRESH, vals)
    ensures forall k :: 0 <= k <= |vals| ==> InBlock(WriteAll(FRESH, vals[..k]))
    ensures var p := WriteAll(FRESH, vals);
      ReadAll(Rewind(p), Kinds(vals)) == (Meanings(vals), p)
  {
    var p := WriteAll(FRESH, vals);
    FitsAllIff(FRESH, vals);
    WriteAllStream(FRESH, vals);
    assert p.stream == EncodeAll(vals);
    assert p.stream[0..] == p.stream;
    ReadAllBack(Rewind(p), vals);
  }

  // ----- frames -----

  function Frame(payload: seq<byte>): seq<byte> {
    LittleEndian(|payload|, 4) + payload
  }

  /** The first payload of a stream of frames and what follows it. */
  function Unframe(stream: seq<byte>): Option<(seq<byte>, seq<byte>)> {
    if |stream| < 4 then None
    else
      var n := Number(stream[..4]);
      if |stream| < 4 + n then None else Some((stream[4..4+n], stream[4+n..]))
  }

  function FrameAll(payloads: seq<seq<byte>>): seq<byte> {
    if payloads == [] then [] else Frame(payloads[0]) + FrameAll(payloads[1..])
  }

  /** Taking frames off the stream until one is not complete. */
  function UnframeAll(stream: seq<byte>): (seq<seq<byte>>, seq<byte>) {
    match Unframe(stream)
    case None => ([], stream)
    case Some((payload, rest)) => var r := UnframeAll(rest); ([payload] + r.0, r.1)
  }

  /** A frame is the length of its payload, lowest byte first, and the payload. */
  lemma FrameBytes(payload: seq<byte>)
    ensures var n := |payload|;
      Frame(payload) == [n % 256, n / 256 % 256, n / 65536 % 256, n / 16777216 % 256] + payload
  {
    FourBytes(|payload|);
  }

  lemma UnframeFrame(payload: seq<byte>, rest: seq<byte>)
    requires |payload| < TWO32
    ensures Unframe(Frame(payload) + rest) == Some((payload, rest))
  {
    var s := Frame(payload) + rest;
    assert s[..4] == LittleEndian(|payload|, 4);
    Pow256Values();
    NumberOfLittleEndian(|payload|, 4);
  }

  /** A payload is taken off a stream exactly when the stream starts with its frame. */
  lemma UnframeIff(stream: seq<byte>, payload: seq<byte>, rest: seq<byte>)
    requires |payload| < TWO32
    ensures Unframe(stream) == Some((payload, rest)) <==> stream == Frame(payload) + rest
  {
    if Unframe(stream) == Some((payload, rest)) {
      LittleEndianOfNumber(stream[..4]);
      assert stream == stream[..4] + payload + rest;
    } else if stream == Frame(payload) + rest {
      UnframeFrame(payload, rest);
    }
  }

  lemma HeaderFits(header: seq<byte>)
    requires |header| <= 4
    ensures Number(header) < TWO32
  {
    Pow256Values();
  }

  /** Whatever is on the stream: it is the frames taken off it, followed by what holds no frame. */
  lemma {:induction false} UnframeAllKeeps(stream: seq<byte>)
    ensures var r := UnframeAll(stream); FrameAll(r.0) + r.1 == stream && Unframe(r.1) == None
  {
    match Unframe(stream)
    case None =>
      assert FrameAll([]) + stream == stream;
    case Some((payload, rest)) =>
      var r := UnframeAll(rest);
      HeaderFits(stream[..4]);
      UnframeIff(stream, payload, rest);
      UnframeAllKeeps(rest);
      assert ([payload] + r.0)[1..] == r.0;
      assert Frame(payload) + FrameAll(r.0) + r.1 == Frame(payload) + (FrameAll(r.0) + r.1);
  }

  /** Concatenated frames are taken apart into the payloads, in order, with nothing left over. */
  lemma {:induction false} FrameStreamRoundTrip(payloads: seq<seq<byte>>)
    requires forall i :: 0 <= i < |payloads| ==> |payloads[i]| < TWO32
    ensures UnframeAll(FrameAll(payloads)) == (payloads, [])
  {
    if payloads != [] {
      UnframeFrame(payloads[0], FrameAll(payloads[1..]));
      FrameStreamRoundTrip(payloads[1..]);
      assert [payloads[0]] + payloads[1..] == payloads;
    }
  }

  lemma {:induction false} FrameAllSnoc(payloads: seq<seq<byte>>, last: seq<byte>)
    ensures FrameAll(payloads + [last]) == FrameAll(payloads) + Frame(last)
  {
    if payloads == [] {
      assert FrameAll([last]) == Frame(last) + FrameAll([]);
    } else {
      FrameAllSnoc(payloads[1..], last);
      assert (payloads + [last])[1..] == payloads[1..] + [last];
      Associative(Frame(payloads[0]), FrameAll(payloads[1..]), Frame(last));
    }
  }

  lemma Associative(a: seq<byte>, b: seq<byte>, c: seq<byte>)
    ensures a + (b + c) == a + b + c
  {
  }

  // ----- receiving -----

  /** The size that recv() takes from its first read, which may find fewer than four bytes. */
  function HeaderSize(stream: seq<byte>): uint32 {
    HeaderFits(stream[..Min(4, |stream|)]);
    Number(stream[..Min(4, |stream|)])
  }

  /** What recv() leaves in the parcel and on the descriptor, if the descriptor holds enough. */
  function Received(stream: seq<byte>): Option<(seq<byte>, seq<byte>)> {
    var h, n := Min(4, |stream|), HeaderSize(stream);
    if |stream| < h + n then None else Some((stream[h..h+n], stream[h+n..]))
  }

  /** With four bytes or more on the descriptor, what is received is the first frame. */
  lemma ReceivedIsUnframe(stream: seq<byte>)
    requires |stream| >= 4
    ensures Received(stream) == Unframe(stream)
  {
  }

  /** With fewer, nothing but zeros is received, as an empty payload: so is the end of the file. */
  lemma ShortReceived(stream: seq<byte>)
    requires |stream| < 4
    ensures Received(stream) == if Number(stream) == 0 then Some(([], [])) else None
  {
    assert stream[..|stream|] == stream;
  }

  /** Bytes read by the first k reads of the loop, when rc(i) is what read i returns. */
  ghost function Total(rc: nat -> int, k: nat): int {
    if k == 0 then 0 else Total(rc, k - 1) + rc(k - 1)
  }

  /** Read i does not fail, and the payload was not complete before it. */
  ghost predicate GoesOn(rc: nat -> int, size: nat, i: nat) {
    rc(i) >= 0 && Total(rc, i) < size
  }

  /** The loop gets past its first k reads. */
  ghost predicate Gets(rc: nat -> int, size: nat, k: nat) {
    forall i :: 0 <= i < k ==> GoesOn(rc, size, i)
  }

  /** A read fails, or delivers some of what is left; at the end of the file it returns 0. */
  predicate LegalRead(n: int, want: int, left: int) {
    n == -1 || (if left <= 0 then n == 0 else 1 <= n <= want && n <= left)
  }

  ghost predicate LegalAt(rc: nat -> int, size: nat, there: nat, k: nat) {
    Gets(rc, size, k) && Total(rc, k) < size ==> LegalRead(rc(k), size - Total(rc, k), there - Total(rc, k))
  }

  /** What the reads of the loop can return with `there` bytes left on the descriptor. */
  ghost predicate LegalReads(rc: nat -> int, size: nat, there: nat) {
    forall k: nat :: LegalAt(rc, size, there, k)
  }

  /** The loop ends at its guard or at a failed read once k reads have gone well. */
  ghost predicate Ends(rc: nat -> int, size: nat, k: nat) {
    Gets(rc, size, k) && (Total(rc, k) >= size || rc(k) < 0)
  }

  /** Read k is made and fails. */
  ghost predicate FailsAt(rc: nat -> int, size: nat, k: nat) {
    Gets(rc, size, k) && Total(rc, k) < size && rc(k) == -1
  }

  /** So far the bytes are among those that are there; unless they are all, each read got one. */
  lemma {:induction false} TotalFits(rc: nat -> int, size: nat, there: nat, k: nat)
    requires LegalReads(rc, size, there) && Gets(rc, size, k)
    ensures 0 <= Total(rc, k) <= there
    ensures Total(rc, k) == there || Total(rc, k) >= k
  {
    if k > 0 {
      TotalFits(rc, size, there, k - 1);
      assert GoesOn(rc, size, k - 1);
      assert LegalAt(rc, size, there, k - 1);
    }
  }

  /** With `there` bytes behind the header, the receive loop ends exactly when they are enough for the
      payload or some read fails: at the end of the file it reads on for ever. */
  lemma {:induction false} ReceiveEndsIff(rc: nat -> int, size: nat, there: nat)
    requires LegalReads(rc, size, there)
    ensures (exists k: nat :: Ends(rc, size, k)) <==> size <= there || exists k: nat :: FailsAt(rc, size, k)
  {
    if k: nat :| Ends(rc, size, k) {
      TotalFits(rc, size, there, k);
      assert LegalAt(rc, size, there, k);
      assert size <= there || FailsAt(rc, size, k);
    }
    if size <= there {
      var k := EnoughEnds(rc, size, there);
    }
    if k: nat :| FailsAt(rc, size, k) {
      assert Ends(rc, size, k);
    }
  }

  lemma EnoughEnds(rc: nat -> int, size: nat, there: nat) returns (k: nat)
    requires LegalReads(rc, size, there) && size <= there
    ensures Ends(rc, size, k)
  {
    k := 0;
    while !Ends(rc, size, k)
      invariant Gets(rc, size, k) && k <= size
      decreases size - k
    {
      TotalFits(rc, size, there, k);
      assert GoesOn(rc, size, k);
      k := k + 1;
    }
  }
}
