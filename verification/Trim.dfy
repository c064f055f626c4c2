/** Trimming, on texts and in place on the C strings of a buffer. */
module Trim {
  import opened Text

  function LTrim(s: string): (r: string)
    ensures r == "" || !IsSpace(r[0])
  {
    RunLaw(s, NotSpace);
    s[Run(s, NotSpace)..]
  }

  function RTrim(s: string): (r: string)
    ensures r <= s
    ensures r == "" || !IsSpace(r[|r|-1])
  {
    if s == "" || !IsSpace(s[|s|-1]) then s else RTrim(s[..|s|-1])
  }

  // ----- laws -----

  lemma LTrimBlanks(b: string, s: string)
    requires AllBlank(b) && (s == "" || !IsSpace(s[0]))
    ensures LTrim(b + s) == s
  {
    RunIs(b, s, NotSpace);
    assert (b + s)[|b|..] == s;
  }

  lemma {:induction false} RTrimBlanks(s: string, b: string)
    requires AllBlank(b) && (s == "" || !IsSpace(s[|s|-1]))
    ensures RTrim(s + b) == s
    decreases |b|
  {
    if b == "" {
      assert s + b == s;
    } else {
      assert (s + b)[|s+b|-1] == b[|b|-1] && b[|b|-1] in b;
      assert (s + b)[..|s+b|-1] == s + b[..|b|-1];
      RTrimBlanks(s, b[..|b|-1]);
    }
  }

  /** A prefix that ends in a non-blank stays. */
  lemma {:induction false} RTrimKeeps(x: string, y: string)
    requires x != "" && !IsSpace(x[|x|-1])
    ensures RTrim(x + y) == x + RTrim(y)
    decreases |y|
  {
    if y == "" {
      assert x + y == x && x + RTrim(y) == x;
    } else {
      assert (x + y)[|x+y|-1] == y[|y|-1];
      if IsSpace(y[|y|-1]) {
        assert (x + y)[..|x+y|-1] == x + y[..|y|-1];
        RTrimKeeps(x, y[..|y|-1]);
      }
    }
  }

  /** Blanks at the end are as good as none. */
  lemma {:induction false} RTrimMore(s: string, b: string)
    requires AllBlank(b)
    ensures RTrim(s + b) == RTrim(s)
    decreases |b|
  {
    if b == "" {
      assert s + b == s;
    } else {
      assert (s + b)[|s+b|-1] == b[|b|-1] && b[|b|-1] in b;
      assert (s + b)[..|s+b|-1] == s + b[..|b|-1];
      RTrimMore(s, b[..|b|-1]);
    }
  }

  /** Trimming loses nothing but blanks. */
  lemma {:induction false} RTrimHas(s: string, c: char)
    requires !IsSpace(c)
    ensures c in RTrim(s) <==> c in s
    decreases |s|
  {
    if s != "" && IsSpace(s[|s|-1]) {
      RTrimHas(s[..|s|-1], c);
      assert s == s[..|s|-1] + [s[|s|-1]];
    }
  }

  // ----- C strings of a buffer -----

  /** A C string starts at s and ends inside the buffer. */
  ghost predicate Terminated(buf: seq<char>, s: nat) {
    s <= |buf| && s + |CString(buf, s)| < |buf|
  }

  lemma {:induction false} CStringShape(buf: seq<char>, s: nat)
    requires Terminated(buf, s)
    ensures var n := |CString(buf, s)|;
      && CString(buf, s) == buf[s..s+n] && buf[s+n] == NUL && IsText(CString(buf, s))
      && (forall i :: s <= i < s + n ==> buf[i] != NUL)
    decreases |buf| - s
  {
    if buf[s] != NUL {
      CStringShape(buf, s + 1);
    }
  }

  /** The characters of a C string are those of the buffer, and NUL follows them. */
  lemma CharOf(buf: seq<char>, s: nat, i: nat)
    requires Terminated(buf, s) && i <= |CString(buf, s)|
    ensures i < |CString(buf, s)| ==> CString(buf, s)[i] == buf[s+i] && buf[s+i] != NUL
    ensures i == |CString(buf, s)| ==> buf[s+i] == NUL
  {
    CStringShape(buf, s);
  }

  lemma {:induction false} CStringTail(buf: seq<char>, s: nat, k: nat)
    requires Terminated(buf, s) && k <= |CString(buf, s)|
    ensures Terminated(buf, s + k) && CString(buf, s + k) == CString(buf, s)[k..]
    decreases k
  {
    if k > 0 {
      CStringTail(buf, s + 1, k - 1);
    }
  }

  /** Cutting at e ends the C string there and leaves those behind it alone. */
  lemma CStringCut(buf: seq<char>, s: nat, e: nat)
    requires Terminated(buf, s) && s <= e <= s + |CString(buf, s)|
    ensures Terminated(buf[e := NUL], s) && CString(buf[e := NUL], s) == CString(buf, s)[..e-s]
  {
    CStringShape(buf, s);
    var t := CString(buf, s)[..e-s];
    TextSlice(CString(buf, s), 0, e - s);
    CStringIs(buf[e := NUL], s, t);
  }

  lemma {:induction false} CStringBehind(buf: seq<char>, e: nat, s: nat)
    requires e < s && Terminated(buf, s)
    ensures Terminated(buf[e := NUL], s) && CString(buf[e := NUL], s) == CString(buf, s)
    decreases |buf| - s
  {
    if buf[s] != NUL {
      CStringBehind(buf, e, s + 1);
    }
  }

  /** ltrim: the first non-blank of the string. */
  method LTrimAt(buf: array<char>, s: nat) returns (r: nat)
    requires Terminated(buf[..], s)
    ensures s <= r && Terminated(buf[..], r) && CString(buf[..], r) == LTrim(CString(buf[..], s))
  {
    r := s;
    ghost var t := CString(buf[..], s);
    CharOf(buf[..], s, 0);
    while IsSpace(buf[r])
      invariant s <= r <= s + |t| && AllBlank(t[..r-s])
      decreases s + |t| - r
    {
      CharOf(buf[..], s, r - s);
      assert t[..r+1-s] == t[..r-s] + [t[r-s]];
      r := r + 1;
    }
    LTrimSkip(buf[..], s, r);
  }

  /** Skipping the leading blanks trims the C string. */
  lemma LTrimSkip(buf: seq<char>, s: nat, r: nat)
    requires Terminated(buf, s) && s <= r <= s + |CString(buf, s)|
    requires AllBlank(CString(buf, s)[..r-s]) && !IsSpace(buf[r])
    ensures Terminated(buf, r) && CString(buf, r) == LTrim(CString(buf, s))
  {
    CharOf(buf, s, r - s);
    CStringTail(buf, s, r - s);
    LTrimSplit(CString(buf, s), r - s);
  }

  lemma LTrimSplit(t: string, k: nat)
    requires k <= |t| && AllBlank(t[..k]) && (k < |t| ==> !IsSpace(t[k]))
    ensures LTrim(t) == t[k..]
  {
    LTrimBlanks(t[..k], t[k..]);
    Rejoin(t, k);
  }

  /** Where the last non-blank of the string ends. */
  method LastNonBlank(buf: array<char>, s: nat) returns (n: nat)
    requires Terminated(buf[..], s)
    ensures var t := CString(buf[..], s);
      n <= |t| && AllBlank(t[n..]) && (n > 0 ==> !IsSpace(t[n-1]))
  {
    ghost var t := CString(buf[..], s);
    n := StrLen(buf, s);
    while n > 0 && IsSpace(buf[s+n-1])
      invariant n <= |t| && AllBlank(t[n..])
    {
      CharOf(buf[..], s, n - 1);
      assert t[n-1..] == [t[n-1]] + t[n..];
      n := n - 1;
    }
    if n > 0 { CharOf(buf[..], s, n - 1); }
  }

  /** rtrim: cuts the string behind its last non-blank. */
  method RTrimAt(buf: array<char>, s: nat)
    requires Terminated(buf[..], s)
    modifies buf
    ensures Terminated(buf[..], s) && CString(buf[..], s) == RTrim(old(CString(buf[..], s)))
    ensures buf[..] == old(buf[..])[s + |CString(buf[..], s)| := NUL]
  {
    ghost var before := buf[..];
    var n := LastNonBlank(buf, s);
    RTrimCut(before, s, n);
    buf[s+n] := NUL;
    assert buf[..] == before[s+n := NUL];
  }

  /** Cutting behind the last non-blank trims the C string. */
  lemma RTrimCut(buf: seq<char>, s: nat, n: nat)
    requires Terminated(buf, s) && n <= |CString(buf, s)|
    requires var t := CString(buf, s); AllBlank(t[n..]) && (n > 0 ==> !IsSpace(t[n-1]))
    ensures var buf' := buf[s+n := NUL];
      Terminated(buf', s) && CString(buf', s) == RTrim(CString(buf, s)) && |CString(buf', s)| == n
  {
    CStringCut(buf, s, s + n);
    RTrimSplit(CString(buf, s), n);
  }

  lemma RTrimSplit(t: string, k: nat)
    requires k <= |t| && AllBlank(t[k..]) && (k > 0 ==> !IsSpace(t[k-1]))
    ensures RTrim(t) == t[..k]
  {
    RTrimBlanks(t[..k], t[k..]);
    Rejoin(t, k);
  }

  method StrLen(buf: array<char>, s: nat) returns (n: nat)
    requires Terminated(buf[..], s)
    ensures n == |CString(buf[..], s)|
  {
    n := 0;
    CharOf(buf[..], s, 0);
    while buf[s+n] != NUL
      invariant n <= |CString(buf[..], s)|
      decreases |CString(buf[..], s)| - n
    {
      CharOf(buf[..], s, n);
      n := n + 1;
    }
    CharOf(buf[..], s, n);
  }

  /** strchr: the first c of the string, or -1 for a null pointer. */
  method StrChr(buf: array<char>, s: nat, c: char) returns (e: int)
    requires Terminated(buf[..], s) && c != NUL
    ensures var t := CString(buf[..], s); var n := Run(t, Only(c));
      e == if n < |t| then s + n else -1
  {
    ghost var t, stop := CString(buf[..], s), Only(c);
    var n := 0;
    while buf[s+n] != NUL && buf[s+n] != c
      invariant n <= |t| && forall i :: 0 <= i < n ==> !stop(t[i])
      decreases |t| - n
    {
      CharOf(buf[..], s, n);
      n := n + 1;
    }
    CharOf(buf[..], s, n);
    RunAt(t, n, stop);
    e := if buf[s+n] == NUL then -1 else s + n;
  }
}
