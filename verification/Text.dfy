/** Characters, C strings in a buffer, and the scan to the first character of a class. */
module Text {
  import opened Machine

  /** isspace() in the C locale; ISSPACE of trim.cpp names the same six characters. */
  predicate IsSpace(c: char) {
    c == ' ' || c == '\t' || c == '\n' || c == '\U{0B}' || c == '\U{0C}' || c == '\r'
  }

  predicate NotSpace(c: char) {
    !IsSpace(c)
  }

  predicate IsQuote(c: char) {
    c == '"' || c == '\''
  }

  const NUL := '\0'

  /** A C string: no NUL inside. */
  predicate IsText(s: string) {
    NUL !in s
  }

  predicate AllBlank(s: string) {
    forall c :: c in s ==> IsSpace(c)
  }

  predicate NoBlank(s: string) {
    forall c :: c in s ==> !IsSpace(c)
  }

  /** Stops at one particular character. */
  function Only(q: char): char -> bool {
    c => c == q
  }

  /** How many characters precede the first one that stops. */
  function Run(s: string, stop: char -> bool): (n: nat)
    ensures n <= |s|
  {
    if s == "" || stop(s[0]) then 0 else 1 + Run(s[1..], stop)
  }

  /** Nothing in the run stops, and what follows it does. */
  lemma {:induction false} RunLaw(s: string, stop: char -> bool)
    ensures forall i :: 0 <= i < Run(s, stop) ==> !stop(s[i])
    ensures Run(s, stop) < |s| ==> stop(s[Run(s, stop)])
  {
    if s != "" && !stop(s[0]) {
      RunLaw(s[1..], stop);
      forall i | 0 <= i < Run(s, stop) ensures !stop(s[i]) {
        assert i > 0 ==> s[1..][i-1] == s[i];
      }
    }
  }

  /** The run ends at n when nothing before n stops, and n does or is the end. */
  lemma {:induction false} RunAt(t: string, n: nat, stop: char -> bool)
    requires n <= |t| && (forall i :: 0 <= i < n ==> !stop(t[i])) && (n < |t| ==> stop(t[n]))
    ensures Run(t, stop) == n
    decreases n
  {
    if n > 0 {
      forall i | 0 <= i < n - 1 ensures !stop(t[1..][i]) {
        assert t[1..][i] == t[i+1];
      }
      RunAt(t[1..], n - 1, stop);
    }
  }

  /** The run is the only place where the text can be split this way. */
  lemma RunIs(w: string, z: string, stop: char -> bool)
    requires forall c :: c in w ==> !stop(c)
    requires z == "" || stop(z[0])
    ensures Run(w + z, stop) == |w|
  {
    forall i | 0 <= i < |w| ensures !stop((w + z)[i]) {
      assert (w + z)[i] == w[i] && w[i] in w;
    }
    assert z != "" ==> (w + z)[|w|] == z[0];
    RunAt(w + z, |w|, stop);
  }

  /** The run from position i on, one character further or at its end. */
  lemma RunFrom(t: string, i: nat, stop: char -> bool)
    requires i <= |t|
    ensures Run(t[i..], stop) == if i == |t| || stop(t[i]) then 0 else 1 + Run(t[i+1..], stop)
  {
    if i < |t| {
      assert t[i..][0] == t[i] && t[i..][1..] == t[i+1..];
    }
  }

  /** Positions of a suffix are positions of the text. */
  lemma SuffixAt(t: string, p: nat, n: nat)
    requires p + n <= |t|
    ensures t[p..][..n] == t[p..p+n] && t[p..][n..] == t[p+n..]
    ensures p + n < |t| ==> t[p..][n] == t[p+n] && t[p..][n+1..] == t[p+n+1..]
  {
  }

  lemma Rejoin(s: string, n: nat)
    requires n <= |s|
    ensures s[..n] + s[n..] == s
  {
  }

  /** The C string that starts at position from of a buffer. */
  function CString(buf: seq<char>, from: nat): string
    requires from <= |buf|
    decreases |buf| - from
  {
    if from == |buf| || buf[from] == NUL then "" else [buf[from]] + CString(buf, from + 1)
  }

  lemma {:induction false} CStringIs(buf: seq<char>, from: nat, s: string)
    requires from + |s| < |buf| && IsText(s)
    requires buf[from..from+|s|] == s && buf[from+|s|] == NUL
    ensures CString(buf, from) == s
    decreases |s|
  {
    if s != "" {
      assert s[0] == buf[from] && s[0] in s;
      assert buf[from+1..from+|s|] == s[1..];
      CStringIs(buf, from + 1, s[1..]);
    }
  }

  /** strncpy() into n characters followed by a forced terminator at the last one. */
  function Truncate(s: string, n: nat): (r: string)
    ensures r <= s && (|r| == n || (|r| == |s| && |s| < n))
  {
    s[..Min(|s|, n)]
  }

  /** The codes of the blanks in ASCII. */
  lemma IsSpaceCodes(c: char)
    ensures IsSpace(c) <==> c as int == 32 || 9 <= c as int <= 13
  {
  }

  /** A run is the whole text exactly when nothing in it stops. */
  lemma RunAllIff(s: string, stop: char -> bool)
    ensures Run(s, stop) == |s| <==> forall c :: c in s ==> !stop(c)
  {
    RunLaw(s, stop);
    if forall c :: c in s ==> !stop(c) { RunAt(s, |s|, stop); }
  }

  lemma TextSlice(t: string, p: nat, q: nat)
    requires IsText(t) && p <= q <= |t|
    ensures IsText(t[p..q])
  {
  }

  // ----- a zero-padded buffer that is cut up behind a cursor -----

  /** From p on the buffer still holds the text t and its padding. */
  ghost predicate Ahead(buf: seq<char>, t: string, p: nat) {
    && |t| < |buf| && IsText(t) && p <= |t| + 1 && buf[|t|] == NUL
    && (forall j :: p <= j < |buf| ==> buf[j] == if j < |t| then t[j] else NUL)
  }

  /** The inner loops: on to the first character that stops, or to the terminator. */
  method SkipTo(buf: array<char>, ghost t: string, p: nat, stop: char -> bool) returns (q: nat)
    requires Ahead(buf[..], t, p) && p <= |t|
    ensures q == p + Run(t[p..], stop) && q <= |t|
  {
    q := p;
    while buf[q] != NUL && !stop(buf[q])
      invariant p <= q <= |t|
      invariant Run(t[p..], stop) == q - p + Run(t[q..], stop)
      decreases |t| - q
    {
      assert t[q] in t;
      RunFrom(t, q, stop);
      q := q + 1;
    }
    assert q < |t| ==> t[q] in t;
    RunFrom(t, q, stop);
  }
}
