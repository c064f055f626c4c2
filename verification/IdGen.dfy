/** Bitwise operations on natural numbers. */
module Bits {
  function Pow2(k: nat): (r: nat)
    ensures r >= 1
  {
    if k == 0 then 1 else 2 * Pow2(k - 1)
  }

  /** Bit k of w is set. */
  predicate HasBit(w: nat, k: nat) {
    if k == 0 then w % 2 == 1 else HasBit(w / 2, k - 1)
  }

  /** & */
  function And(a: nat, b: nat): nat {
    if a == 0 then 0 else (if a % 2 == 1 && b % 2 == 1 then 1 else 0) + 2 * And(a / 2, b / 2)
  }

  /** | */
  function Or(a: nat, b: nat): nat
    decreases a + b
  {
    if a == 0 && b == 0 then 0 else (if a % 2 == 1 || b % 2 == 1 then 1 else 0) + 2 * Or(a / 2, b / 2)
  }

  /** ~ in n bits */
  function Not(a: nat, n: nat): int {
    Pow2(n) - 1 - a
  }

  lemma {:induction false} ZeroHasNoBit(k: nat)
    ensures !HasBit(0, k)
  {
    if k > 0 { ZeroHasNoBit(k - 1); }
  }

  lemma {:induction false} AndBit(a: nat, b: nat, k: nat)
    ensures HasBit(And(a, b), k) <==> HasBit(a, k) && HasBit(b, k)
  {
    if a == 0 {
      ZeroHasNoBit(k);
    } else if k > 0 {
      AndBit(a / 2, b / 2, k - 1);
      AndHalves(a, b);
    } else {
      AndHalves(a, b);
    }
  }

  lemma {:induction false} OrBit(a: nat, b: nat, k: nat)
    ensures HasBit(Or(a, b), k) <==> HasBit(a, k) || HasBit(b, k)
  {
    if a == 0 && b == 0 {
      ZeroHasNoBit(k);
    } else if k > 0 {
      OrBit(a / 2, b / 2, k - 1);
      OrHalves(a, b);
    } else {
      OrHalves(a, b);
    }
  }

  lemma OrHalves(a: nat, b: nat)
    ensures Or(a, b) / 2 == Or(a / 2, b / 2) && (Or(a, b) % 2 == 1 <==> a % 2 == 1 || b % 2 == 1)
  {
  }

  lemma AndHalves(a: nat, b: nat)
    ensures And(a, b) / 2 == And(a / 2, b / 2) && (And(a, b) % 2 == 1 <==> a % 2 == 1 && b % 2 == 1)
  {
  }

  lemma {:induction false} NotBit(a: nat, n: nat, k: nat)
    requires a < Pow2(n) && k < n
    ensures HasBit(Not(a, n), k) <==> !HasBit(a, k)
  {
    if k > 0 {
      NotBit(a / 2, n - 1, k - 1);
      assert Not(a, n) / 2 == Not(a / 2, n - 1);
    }
  }

  lemma {:induction false} PowerBit(j: nat, k: nat)
    ensures HasBit(Pow2(j), k) <==> j == k
  {
    if j == 0 {
      if k > 0 { ZeroHasNoBit(k - 1); }
    } else if k > 0 {
      PowerBit(j - 1, k - 1);
    }
  }

  lemma {:induction false} SomeBit(w: nat) returns (k: nat)
    requires w != 0
    ensures HasBit(w, k)
  {
    if w % 2 == 1 {
      k := 0;
    } else {
      var j := SomeBit(w / 2);
      k := j + 1;
    }
  }

  /** The test w & (1 << k) asks for bit k. */
  lemma MaskTestsBit(w: nat, k: nat)
    ensures And(w, Pow2(k)) != 0 <==> HasBit(w, k)
  {
    if And(w, Pow2(k)) != 0 {
      var j := SomeBit(And(w, Pow2(k)));
      AndBit(w, Pow2(k), j);
      PowerBit(k, j);
    } else {
      AndBit(w, Pow2(k), k);
      PowerBit(k, k);
      ZeroHasNoBit(k);
    }
  }

  lemma {:induction false} OrInRange(a: nat, b: nat, n: nat)
    requires a < Pow2(n) && b < Pow2(n)
    ensures Or(a, b) < Pow2(n)
  {
    if n > 0 && (a != 0 || b != 0) {
      OrInRange(a / 2, b / 2, n - 1);
    }
  }

  lemma {:induction false} AndInRange(a: nat, b: nat)
    ensures And(a, b) <= a
  {
    if a != 0 {
      AndInRange(a / 2, b / 2);
    }
  }

  lemma {:induction false} PowerInRange(k: nat, n: nat)
    requires k < n
    ensures Pow2(k) < Pow2(n)
  {
    if k + 1 < n { PowerInRange(k, n - 1); }
  }

  lemma {:induction false} OnesHaveBit(n: nat, k: nat)
    requires k < n
    ensures HasBit(Pow2(n) - 1, k)
  {
    if k > 0 {
      OnesHaveBit(n - 1, k - 1);
      assert (Pow2(n) - 1) / 2 == Pow2(n - 1) - 1;
    }
  }

  /** Only the word of n ones has all of its n bits set. */
  lemma {:induction false} AllBitsAreOnes(w: nat, n: nat)
    requires w < Pow2(n) && forall k :: 0 <= k < n ==> HasBit(w, k)
    ensures w == Pow2(n) - 1
  {
    if n > 0 {
      assert HasBit(w, 0);
      forall k | 0 <= k < n - 1 ensures HasBit(w / 2, k) {
        assert HasBit(w, k + 1);
      }
      AllBitsAreOnes(w / 2, n - 1);
    }
  }
}

/** The id allocator: a bitmap of 32-bit words that stands for the set of ids in use. */
module IdGen {
  import opened Bits
  import opened Machine

  const WORD_BITS := 32
  const ALL_ONES: uint32 := 0xFFFF_FFFF

  lemma WordRange()
    ensures Pow2(WORD_BITS) == TWO32
  {
    assert Pow2(8) == 0x100;
    assert Pow2(16) == 0x1_0000;
    assert Pow2(24) == 0x100_0000;
  }

  /** 0x01 << k */
  function Bit(k: nat): uint32
    requires k < WORD_BITS
  {
    WordRange();
    PowerInRange(k, WORD_BITS);
    Pow2(k)
  }

  function SetBit(w: uint32, k: nat): uint32
    requires k < WORD_BITS
  {
    WordRange();
    OrInRange(w, Bit(k), WORD_BITS);
    Or(w, Bit(k))
  }

  function ClearBit(w: uint32, k: nat): uint32
    requires k < WORD_BITS
  {
    WordRange();
    AndInRange(w, Not(Bit(k), WORD_BITS));
    And(w, Not(Bit(k), WORD_BITS))
  }

  lemma SetBitLaw(w: uint32, k: nat, j: nat)
    requires k < WORD_BITS && j < WORD_BITS
    ensures HasBit(SetBit(w, k), j) <==> j == k || HasBit(w, j)
  {
    OrBit(w, Bit(k), j);
    PowerBit(k, j);
  }

  lemma ClearBitLaw(w: uint32, k: nat, j: nat)
    requires k < WORD_BITS && j < WORD_BITS
    ensures HasBit(ClearBit(w, k), j) <==> j != k && HasBit(w, j)
  {
    WordRange();
    AndBit(w, Not(Bit(k), WORD_BITS), j);
    NotBit(Bit(k), WORD_BITS, j);
    PowerBit(k, j);
  }

  /** The test that the inner loop makes. */
  predicate Hit(w: uint32, k: nat) {
    And(w, Pow2(k)) != 0
  }

  lemma OnesAreHit(k: nat)
    requires k < WORD_BITS
    ensures Hit(ALL_ONES, k)
  {
    WordRange();
    OnesHaveBit(WORD_BITS, k);
    MaskTestsBit(ALL_ONES, k);
  }

  lemma HitsAreOnes(w: uint32)
    requires forall k :: 0 <= k < WORD_BITS ==> Hit(w, k)
    ensures w == ALL_ONES
  {
    WordRange();
    forall k | 0 <= k < WORD_BITS ensures HasBit(w, k) {
      assert Hit(w, k);
      MaskTestsBit(w, k);
    }
    AllBitsAreOnes(w, WORD_BITS);
  }

  /** The whole-word test agrees with the bit-by-bit test. */
  lemma FullWordIff(w: uint32)
    ensures w == ALL_ONES <==> forall k :: 0 <= k < WORD_BITS ==> Hit(w, k)
  {
    if w == ALL_ONES {
      forall k | 0 <= k < WORD_BITS ensures Hit(w, k) { OnesAreHit(k); }
    } else if forall k :: 0 <= k < WORD_BITS ==> Hit(w, k) {
      HitsAreOnes(w);
    }
  }

  // ----- the bitmap -----

  predicate Taken(words: seq<uint32>, id: nat)
    requires id < WORD_BITS * |words|
  {
    HasBit(words[id / WORD_BITS], id % WORD_BITS)
  }

  /** The ids in use. */
  ghost function InUse(words: seq<uint32>): set<nat> {
    set id | 0 <= id < WORD_BITS * |words| && Taken(words, id)
  }

  function Mark(words: seq<uint32>, id: nat): seq<uint32>
    requires id < WORD_BITS * |words|
  {
    words[id / WORD_BITS := SetBit(words[id / WORD_BITS], id % WORD_BITS)]
  }

  function Clear(words: seq<uint32>, id: nat): seq<uint32>
    requires id < WORD_BITS * |words|
  {
    words[id / WORD_BITS := ClearBit(words[id / WORD_BITS], id % WORD_BITS)]
  }

  lemma SameWordBit(id: nat, k: nat)
    ensures id == k <==> id / WORD_BITS == k / WORD_BITS && id % WORD_BITS == k % WORD_BITS
  {
  }

  lemma MarkAdds(words: seq<uint32>, id: nat)
    requires id < WORD_BITS * |words|
    ensures InUse(Mark(words, id)) == InUse(words) + {id}
  {
    forall k | 0 <= k < WORD_BITS * |words| ensures Taken(Mark(words, id), k) <==> k == id || Taken(words, k) {
      SameWordBit(id, k);
      SetBitLaw(words[id / WORD_BITS], id % WORD_BITS, k % WORD_BITS);
    }
  }

  lemma ClearRemoves(words: seq<uint32>, id: nat)
    requires id < WORD_BITS * |words|
    ensures InUse(Clear(words, id)) == InUse(words) - {id}
  {
    forall k | 0 <= k < WORD_BITS * |words| ensures Taken(Clear(words, id), k) <==> k != id && Taken(words, k) {
      SameWordBit(id, k);
      ClearBitLaw(words[id / WORD_BITS], id % WORD_BITS, k % WORD_BITS);
    }
  }

  /** The first id from `from` on that is not taken, or the number of ids. */
  function FirstFree(words: seq<uint32>, from: nat): (id: nat)
    requires from <= WORD_BITS * |words|
    ensures from <= id <= WORD_BITS * |words|
    ensures forall k :: from <= k < id ==> Taken(words, k)
    ensures id < WORD_BITS * |words| ==> !Taken(words, id)
    decreases WORD_BITS * |words| - from
  {
    if from == WORD_BITS * |words| || !Taken(words, from) then from else FirstFree(words, from + 1)
  }

  /** A full word is passed over. */
  lemma SkipFullWord(words: seq<uint32>, i: nat)
    requires i < |words| && words[i] == ALL_ONES
    ensures FirstFree(words, WORD_BITS * i) == FirstFree(words, WORD_BITS * (i + 1))
  {
    SkipTaken(words, i, 0);
  }

  lemma {:induction false} SkipTaken(words: seq<uint32>, i: nat, j: nat)
    requires i < |words| && words[i] == ALL_ONES && j <= WORD_BITS
    ensures FirstFree(words, WORD_BITS * i + j) == FirstFree(words, WORD_BITS * (i + 1))
    decreases WORD_BITS - j
  {
    if j < WORD_BITS {
      SkipTaken(words, i, j + 1);
      OnesAreHit(j);
      MaskTestsBit(words[i], j);
      IdAt(i, j);
      assert Taken(words, WORD_BITS * i + j);
    }
  }

  lemma IdAt(i: nat, j: nat)
    requires j < WORD_BITS
    ensures (WORD_BITS * i + j) / WORD_BITS == i && (WORD_BITS * i + j) % WORD_BITS == j
  {
  }

  // ----- the operations -----

  function Alloc(words: seq<uint32>): (r: (seq<uint32>, int))
    ensures |r.0| == |words|
  {
    var id: int := FirstFree(words, 0);
    if id == WORD_BITS * |words| then (words, -1) else (Mark(words, id), id)
  }

  function Release(words: seq<uint32>, id: int): (r: seq<uint32>)
    ensures |r| == |words|
  {
    if id < 0 || id >= WORD_BITS * |words| then words else Clear(words, id)
  }

  lemma MarkAt(words: seq<uint32>, i: nat, j: nat)
    requires i < |words| && j < WORD_BITS
    ensures Mark(words, WORD_BITS * i + j) == words[i := SetBit(words[i], j)]
  {
  }

  /** alloc_id. */
  method AllocId(bitmap: array<uint32>) returns (id: int)
    modifies bitmap
    ensures (bitmap[..], id) == Alloc(old(bitmap[..]))
  {
    ghost var words := bitmap[..];
    for ii := 0 to bitmap.Length
      invariant bitmap[..] == words
      invariant FirstFree(words, 0) == FirstFree(words, WORD_BITS * ii)
    {
      if bitmap[ii] == ALL_ONES {
        SkipFullWord(words, ii);
        continue;
      }
      var bitMask := 1;
      for jj := 0 to WORD_BITS
        invariant bitmap[..] == words && bitMask == Pow2(jj)
        invariant FirstFree(words, 0) == FirstFree(words, WORD_BITS * ii + jj)
      {
        IdAt(ii, jj);
        MaskTestsBit(words[ii], jj);
        if And(bitmap[ii], bitMask) == 0 {
          MarkAt(words, ii, jj);
          bitmap[ii] := SetBit(bitmap[ii], jj);
          return ii * WORD_BITS + jj;
        }
        bitMask := bitMask * 2;
      }
    }
    return -1;
  }

  /** release_id. */
  method ReleaseId(bitmap: array<uint32>, id: int)
    modifies bitmap
    ensures bitmap[..] == Release(old(bitmap[..]), id)
  {
    if id < 0 || id >= WORD_BITS * bitmap.Length {
      return;
    }
    var index := id / WORD_BITS;
    var shift := id % WORD_BITS;
    bitmap[index] := ClearBit(bitmap[index], shift);
  }

  /** alloc_id returns the least id that is not in use, and -1 exactly when all are. */
  lemma AllocTakesLeast(words: seq<uint32>)
    ensures var r := Alloc(words); var n := WORD_BITS * |words|;
      && (r.1 == -1 <==> forall k :: 0 <= k < n ==> k in InUse(words))
      && (r.1 == -1 ==> r.0 == words)
      && (r.1 != -1 ==>
            && 0 <= r.1 < n && r.1 !in InUse(words)
            && (forall k :: 0 <= k < r.1 ==> k in InUse(words))
            && InUse(r.0) == InUse(words) + {r.1})
  {
    var id, n := FirstFree(words, 0), WORD_BITS * |words|;
    if id < n {
      MarkAdds(words, id);
      assert id !in InUse(words);
    }
  }

  lemma ReleaseFrees(words: seq<uint32>, id: int)
    ensures InUse(Release(words, id)) == InUse(words) - {id}
  {
    if 0 <= id < WORD_BITS * |words| {
      ClearRemoves(words, id);
    }
  }

  // ----- runs -----

  datatype Op = DoAlloc | DoRelease(id: int)

  /** The bitmap after a run, and the ids that the run leaves outstanding: what alloc_id has returned
      and release_id has not been given since. */
  ghost function Run(words: seq<uint32>, ops: seq<Op>): (seq<uint32>, set<int>) {
    if ops == [] then (words, InUse(words))
    else
      var before := Run(words, ops[..|ops|-1]);
      match ops[|ops|-1]
      case DoAlloc =>
        var r := Alloc(before.0);
        (r.0, if r.1 == -1 then before.1 else before.1 + {r.1})
      case DoRelease(id) => (Release(before.0, id), before.1 - {id})
  }

  /** After every run the bitmap is exactly the set of outstanding ids. */
  lemma {:induction false} BitmapIsOutstanding(words: seq<uint32>, ops: seq<Op>)
    ensures InUse(Run(words, ops).0) == Run(words, ops).1
  {
    if ops != [] {
      var before := Run(words, ops[..|ops|-1]);
      BitmapIsOutstanding(words, ops[..|ops|-1]);
      match ops[|ops|-1]
      case DoAlloc => AllocTakesLeast(before.0);
      case DoRelease(id) => ReleaseFrees(before.0, id);
    }
  }
}
