/** The key/value scanner.  Scan follows the cursor of parse_key_value_str over the text that is
    still ahead of it; the method walks the same way over the buffer, cutting it with NULs. */
module KeyValue {
  import opened Machine
  import opened Options
  import opened Text

  const MAX_STR_LEN := 2 * 1024

  /** What is printed and what the callback gets. */
  datatype Item = Bare(key: string) | Pair(key: string, value: string)

  /** The registers key and value: the text that they have got so far. */
  datatype Reg = NoKey | Key(key: string) | Value(key: string, value: string)

  /** The items called back, and whether the cursor ended behind the terminator. */
  datatype Result = Result(items: seq<Item>, past: bool)

  predicate KeyStop(c: char) {
    c == '=' || IsSpace(c)
  }

  function ItemOf(reg: Reg): Item
    requires !reg.NoKey?
  {
    match reg
    case Key(k) => Bare(k)
    case Value(k, v) => Pair(k, v)
  }

  function Extend(reg: Reg, c: char): Reg {
    match reg
    case NoKey => NoKey
    case Key(k) => Key(k + [c])
    case Value(k, v) => Value(k, v + [c])
  }

  /** The outer loop, at its guard, with s ahead of the cursor. */
  function Scan(s: string, reg: Reg): Result
    decreases |s|, 1
  {
    if s == "" then Result(if reg.NoKey? then [] else [ItemOf(reg)], false)
    else
      match reg
      case NoKey =>
        var n := Run(s, NotSpace);
        if n == |s| then Result([], false) else Advance(s[n+1..], Key([s[n]]))
      case Key(k) =>
        var f := KeyFetch(s, k);
        Advance(f.0, f.1)
      case Value(_, _) => Advance(s, reg)
  }

  /** The key branch: what it leaves ahead of the cursor, and the registers. */
  function KeyFetch(s: string, k: string): (r: (string, Reg))
    ensures |r.0| <= |s| && !r.1.NoKey?
  {
    var n := Run(s, KeyStop);
    if n < |s| && s[n] == '=' then ValueFetch(k + s[..n], s[n+1..]) else (s[n..], Key(k + s[..n]))
  }

  /** Behind the '=' of a key: goes over an opening quote's text. */
  function ValueFetch(k: string, v: string): (r: (string, Reg))
    ensures |r.0| <= |v| && !r.1.NoKey?
  {
    var m := ValueRun(v);
    (v[m..], Value(k, v[..m]))
  }

  /** What the value branch consumes: an opening quote and all before its partner, or nothing. */
  function ValueRun(v: string): (m: nat)
    ensures m <= |v|
  {
    if v != "" && IsQuote(v[0]) then 1 + Run(v[1..], Only(v[0])) else 0
  }

  /** The end of the loop body: a blank ends the item, any other character is stepped over, and so
      is the terminator. */
  function Advance(s: string, reg: Reg): Result
    requires !reg.NoKey?
    decreases |s|, 0
  {
    if s == "" then Result([ItemOf(reg)], true)
    else if IsSpace(s[0]) then
      var r := Scan(s[1..], NoKey);
      Result([ItemOf(reg)] + r.items, r.past)
    else Scan(s[1..], Extend(reg, s[0]))
  }

  /** The items that parse_key_value_str calls back for str. */
  function Parse(str: string): Result {
    Scan(Truncate(str, MAX_STR_LEN - 1), NoKey)
  }

  /** The loop guard reads behind the end of the 2048 character buffer. */
  predicate Overrun(str: string) {
    |str| >= MAX_STR_LEN - 1 && Parse(str).past
  }

  // ----- printing -----

  function Print(item: Item): string {
    match item
    case Bare(k) => k
    case Pair(k, v) => k + "=" + v
  }

  /** '=' is only harmless in the first two characters of a key, which the scanner does not test. */
  predicate ValidKey(k: string) {
    NoBlank(k) && forall i :: 2 <= i < |k| ==> k[i] != '='
  }

  /** Blank-free, or opened by a quote whose partner is followed by no blank. */
  predicate ValidValue(v: string) {
    NoBlank(v[ValueRun(v)..]) && (v != "" && IsQuote(v[0]) ==> ValueRun(v) < |v|)
  }

  predicate Valid(item: Item) {
    match item
    case Bare(k) => |k| >= 1 && ValidKey(k)
    case Pair(k, v) => |k| >= 2 && ValidKey(k) && ValidValue(v)
  }

  /** What the end of the text may also break off or leave behind: a key not of two characters, an empty
      value, or a quote without its partner. */
  predicate Open(item: Item) {
    match item
    case Bare(k) => |k| >= 1 && ValidKey(k) && |k| != 2
    case Pair(k, v) => |k| >= 2 && ValidKey(k) && ValueRun(v) == |v|
  }

  /** Only the end of the text leaves a quote open. */
  predicate Fits(item: Item, gap: string) {
    Valid(item) || (gap == "" && Open(item))
  }

  predicate FitsAll(items: seq<Item>, gaps: seq<string>) {
    |gaps| == |items| && forall i :: 0 <= i < |items| ==> Fits(items[i], gaps[i])
  }

  /** The text ends in an open item. */
  predicate EndsOpen(items: seq<Item>, gaps: seq<string>)
    requires |gaps| == |items|
  {
    items != [] && gaps[|gaps|-1] == "" && Open(items[|items|-1])
  }

  /** The items, each followed by its gap. */
  function PrintAll(items: seq<Item>, gaps: seq<string>): string
    requires |gaps| == |items|
  {
    if items == [] then "" else Print(items[0]) + gaps[0] + PrintAll(items[1..], gaps[1..])
  }

  /** Gaps are blank, and only the last one may be empty. */
  predicate ValidGaps(gaps: seq<string>) {
    && (forall i :: 0 <= i < |gaps| ==> AllBlank(gaps[i]))
    && (forall i :: 0 <= i < |gaps| - 1 ==> gaps[i] != "")
  }

  // ----- the round trip -----

  /** What follows an item ends it. */
  predicate Ends(z: string) {
    z == "" || IsSpace(z[0])
  }

  /** The scan from the end of an item on, with z behind it; `open` is whether the scan of the item
      steps over the terminator when there is nothing behind it. */
  function Behind(item: Item, z: string, open: bool): Result {
    if z == "" then Result([item], open)
    else
      var r := Scan(z[1..], NoKey);
      Result([item] + r.items, r.past)
  }

  lemma {:induction false} ValueRest(w: string, z: string, k: string, v: string)
    requires NoBlank(w) && Ends(z)
    ensures Advance(w + z, Value(k, v)) == Behind(Pair(k, v + w), z, w == "")
    decreases |w|
  {
    if w == "" {
      assert w + z == z && v + w == v;
    } else {
      assert (w + z)[0] == w[0] && (w + z)[1..] == w[1..] + z && w[0] in w;
      StepOver(w + z, Value(k, v));
      assert v + [w[0]] + w[1..] == v + w;
      if w[1..] + z == "" {
        assert w == [w[0]];
      } else {
        ValueRest(w[1..], z, k, v + [w[0]]);
      }
    }
  }

  lemma ScanFirst(s: string)
    requires s != "" && !IsSpace(s[0])
    ensures Scan(s, NoKey) == Advance(s[1..], Key([s[0]]))
  {
    RunAt(s, 0, NotSpace);
  }

  lemma StepOver(s: string, reg: Reg)
    requires s != "" && !IsSpace(s[0]) && !reg.NoKey?
    ensures Advance(s, reg) == Scan(s[1..], Extend(reg, s[0]))
  {
  }

  lemma HeadOf(k: string, rest: string)
    requires |k| >= 2
    ensures var s := k + rest; s[0] == k[0] && s[1..] == k[1..] + rest
    ensures var s := k[1..] + rest; s[0] == k[1] && s[1..] == k[2..] + rest
    ensures [k[0]] + [k[1]] == k[..2]
  {
  }

  /** The first two characters of a key are taken without a test for '='. */
  lemma KeyHead(k: string, rest: string)
    requires |k| >= 2 && NoBlank(k)
    ensures Scan(k + rest, NoKey) == Scan(k[2..] + rest, Key(k[..2]))
  {
    assert k[0] in k && k[1] in k;
    HeadOf(k, rest);
    ScanFirst(k + rest);
    StepOver(k[1..] + rest, Key([k[0]]));
  }

  /** What the key branch finds behind the first two characters of a key. */
  lemma KeyTail(k: string, r: string)
    requires |k| >= 2 && ValidKey(k) && (r == "" || KeyStop(r[0]))
    ensures var s, n := k[2..] + r, |k| - 2;
      Run(s, KeyStop) == n && s[n..] == r && k[..2] + s[..n] == k
  {
    var w := k[2..];
    forall c | c in w ensures !KeyStop(c) {
      var i :| 0 <= i < |w| && w[i] == c;
      assert w[i] == k[i+2] && k[i+2] in k;
    }
    RunIs(w, r, KeyStop);
    assert (w + r)[|w|..] == r && (w + r)[..|w|] == w;
    Rejoin(k, 2);
  }

  lemma BareRoundTrip(k: string, z: string)
    requires Valid(Bare(k)) && Ends(z)
    ensures Scan(k + z, NoKey) == Behind(Bare(k), z, |k| != 2)
  {
    if |k| == 1 {
      OneCharHead(k, z);
    } else {
      KeyHead(k, z);
      if k[2..] + z == "" {
        assert k[..2] == k;
      } else {
        BareFetch(k, z);
      }
    }
  }

  lemma BareFetch(k: string, z: string)
    requires |k| >= 2 && ValidKey(k) && Ends(z)
    ensures KeyFetch(k[2..] + z, k[..2]) == (z, Key(k))
  {
    KeyTail(k, z);
    assert z != "" ==> (k[2..] + z)[|k|-2] == z[0];
  }

  lemma OneCharHead(k: string, z: string)
    requires |k| == 1 && NoBlank(k)
    ensures Scan(k + z, NoKey) == Advance(z, Key(k))
  {
    assert k[0] in k && (k + z)[0] == k[0] && (k + z)[1..] == z && [k[0]] == k;
    ScanFirst(k + z);
  }

  lemma ValueRunOf(v: string, z: string)
    requires ValidValue(v) && Ends(z)
    ensures ValueRun(v + z) == ValueRun(v)
  {
    if v != "" && IsQuote(v[0]) {
      QuoteRunOf(v[1..], z, Only(v[0]));
      assert (v + z)[1..] == v[1..] + z;
    }
  }

  /** What follows does not move a run that has found its end. */
  lemma QuoteRunOf(s: string, z: string, stop: char -> bool)
    requires Run(s, stop) < |s|
    ensures Run(s + z, stop) == Run(s, stop)
  {
    RunLaw(s, stop);
    RunAt(s + z, Run(s, stop), stop);
  }

  lemma PairRoundTrip(k: string, v: string, z: string)
    requires Ends(z) && Fits(Pair(k, v), z)
    ensures Scan(k + "=" + v + z, NoKey) == Behind(Pair(k, v), z, ValueRun(v) == |v|)
  {
    PairText(k, v, z);
    PairScan(k, v + z);
    PairValue(k, v, z);
  }

  lemma PairText(k: string, v: string, z: string)
    ensures k + "=" + v + z == k + ("=" + (v + z))
  {
  }

  /** The scan of a key with a text behind its '='. */
  lemma PairScan(k: string, v: string)
    requires |k| >= 2 && ValidKey(k)
    ensures var f := ValueFetch(k, v); Scan(k + ("=" + v), NoKey) == Advance(f.0, f.1)
  {
    KeyHead(k, "=" + v);
    PairFetch(k, "=" + v, v);
    ScanFetch(k[2..] + ("=" + v), k[..2]);
  }

  lemma ScanFetch(s: string, k: string)
    requires s != ""
    ensures var f := KeyFetch(s, k); Scan(s, Key(k)) == Advance(f.0, f.1)
  {
  }

  lemma PairFetch(k: string, r: string, v: string)
    requires |k| >= 2 && ValidKey(k) && r == "=" + v
    ensures k[2..] + r != ""
    ensures KeyFetch(k[2..] + r, k[..2]) == ValueFetch(k, v)
  {
    var s, n := k[2..] + r, |k| - 2;
    KeyTail(k, r);
    assert s[n] == r[0] && s[n+1..] == s[n..][1..] == r[1..] == v;
  }

  lemma PairValue(k: string, v: string, z: string)
    requires Ends(z) && (ValidValue(v) || (z == "" && ValueRun(v) == |v|))
    ensures var f := ValueFetch(k, v + z); Advance(f.0, f.1) == Behind(Pair(k, v), z, ValueRun(v) == |v|)
  {
    var m := ValueRun(v);
    if ValidValue(v) { ValueRunOf(v, z); } else { assert v + z == v; }
    ValueParts(v, z, m);
    ValueRest(v[m..], z, k, v[..m]);
  }

  lemma ValueParts(v: string, z: string, m: nat)
    requires m <= |v|
    ensures (v + z)[m..] == v[m..] + z && (v + z)[..m] == v[..m] && v[..m] + v[m..] == v
  {
  }

  lemma ItemRoundTrip(item: Item, z: string)
    requires Fits(item, z) && Ends(z)
    ensures Scan(Print(item) + z, NoKey) == Behind(item, z, Open(item))
  {
    match item
    case Bare(k) => BareRoundTrip(k, z);
    case Pair(k, v) => PairRoundTrip(k, v, z);
  }

  lemma SkipsBlanks(b: string, s: string)
    requires AllBlank(b) && (s == "" || !IsSpace(s[0]))
    ensures Scan(b + s, NoKey) == Scan(s, NoKey)
  {
    RunIs(b, s, NotSpace);
    if s != "" {
      var n := |b|;
      assert (b + s)[n+1..] == s[1..] && (b + s)[n] == s[0];
    }
  }

  lemma StartsItem(item: Item, rest: string)
    requires Valid(item) || Open(item)
    ensures Print(item) + rest != "" && !IsSpace((Print(item) + rest)[0])
  {
  }

  lemma StartsGap(gap: string, rest: string)
    requires AllBlank(gap) && (gap == "" ==> rest == "")
    ensures Ends(gap + rest)
    ensures gap != "" ==> (gap + rest)[1..] == gap[1..] + rest
  {
  }

  /** Blanks, then printed items with blank gaps: the callbacks are the items, in order, and the scan
      steps over the terminator exactly when the last item is open. */
  lemma {:induction false} ScanOfPrint(lead: string, items: seq<Item>, gaps: seq<string>)
    requires FitsAll(items, gaps) && ValidGaps(gaps) && AllBlank(lead)
    ensures Scan(lead + PrintAll(items, gaps), NoKey) == Result(items, EndsOpen(items, gaps))
    decreases |items|
  {
    if items == [] {
      SkipsBlanks(lead, "");
    } else {
      FirstPrinted(lead, items, gaps);
      if gaps[0] != "" {
        ScanOfPrint(gaps[0][1..], items[1..], gaps[1..]);
        BehindGap(items[0], gaps[0], PrintAll(items[1..], gaps[1..]), Open(items[0]));
        OpenTail(items, gaps);
      }
    }
  }

  /** The scan goes on behind the first character of a gap. */
  lemma BehindGap(item: Item, gap: string, rest: string, open: bool)
    requires gap != ""
    ensures var r := Scan(gap[1..] + rest, NoKey);
      Behind(item, gap + rest, open) == Result([item] + r.items, r.past)
  {
    assert (gap + rest)[1..] == gap[1..] + rest;
  }

  lemma OpenTail(items: seq<Item>, gaps: seq<string>)
    requires items != [] && |gaps| == |items| && gaps[0] != ""
    ensures EndsOpen(items, gaps) == EndsOpen(items[1..], gaps[1..]) && [items[0]] + items[1..] == items
  {
  }

  /** The first of the printed items, and how the scan goes on behind it. */
  lemma FirstPrinted(lead: string, items: seq<Item>, gaps: seq<string>)
    requires items != [] && FitsAll(items, gaps) && ValidGaps(gaps) && AllBlank(lead)
    ensures var z := gaps[0] + PrintAll(items[1..], gaps[1..]);
      && (gaps[0] == "" ==> |items| == 1 && z == "")
      && Scan(lead + PrintAll(items, gaps), NoKey) == Behind(items[0], z, Open(items[0]))
  {
    var item, gap, rest := items[0], gaps[0], PrintAll(items[1..], gaps[1..]);
    assert PrintAll(items, gaps) == Print(item) + (gap + rest);
    StartsItem(item, gap + rest);
    SkipsBlanks(lead, PrintAll(items, gaps));
    assert gap == "" ==> items[1..] == [];
    StartsGap(gap, rest);
    ItemRoundTrip(item, gap + rest);
  }

  /** Printing and parsing give the items back; up to 2046 characters the scan stays in the buffer. */
  lemma KeyValueRoundTrip(lead: string, items: seq<Item>, gaps: seq<string>)
    requires FitsAll(items, gaps) && ValidGaps(gaps) && AllBlank(lead)
    requires |lead + PrintAll(items, gaps)| <= MAX_STR_LEN - 2
    ensures Parse(lead + PrintAll(items, gaps)).items == items && !Overrun(lead + PrintAll(items, gaps))
  {
    var s := lead + PrintAll(items, gaps);
    assert Truncate(s, MAX_STR_LEN - 1) == s;
    ScanOfPrint(lead, items, gaps);
  }

  /** The key register only grows until its item is called back. */
  lemma {:induction false} KeyGrows(s: string, reg: Reg)
    requires !reg.NoKey?
    ensures Scan(s, reg).items != [] && |Scan(s, reg).items[0].key| >= |reg.key|
    decreases |s|, 1
  {
    if s != "" {
      match reg
      case Key(k) =>
        var n := Run(s, KeyStop);
        if n < |s| && s[n] == '=' {
          var v := s[n+1..];
          AdvanceGrows(v[ValueRun(v)..], Value(k + s[..n], v[..ValueRun(v)]));
        } else {
          AdvanceGrows(s[n..], Key(k + s[..n]));
        }
      case Value(_, _) => AdvanceGrows(s, reg);
    }
  }

  lemma {:induction false} AdvanceGrows(s: string, reg: Reg)
    requires !reg.NoKey?
    ensures Advance(s, reg).items != [] && |Advance(s, reg).items[0].key| >= |reg.key|
    decreases |s|, 0
  {
    if s != "" && !IsSpace(s[0]) {
      KeyGrows(s[1..], Extend(reg, s[0]));
    }
  }

  /** A pair comes back as that pair exactly when its key has two characters or more: behind a key
      of one character the '=' is stepped over unseen and ends up in the key. */
  lemma PairComesBackIff(k: string, v: string)
    requires |k| >= 1 && ValidKey(k) && ValidValue(v) && |k| + 1 + |v| <= MAX_STR_LEN - 2
    ensures Parse(k + "=" + v).items == [Pair(k, v)] <==> |k| >= 2
  {
    var s := k + "=" + v;
    assert Truncate(s, MAX_STR_LEN - 1) == s;
    if |k| >= 2 {
      assert s == k + "=" + v + "";
      PairRoundTrip(k, v, "");
    } else {
      assert s == k + ("=" + v) && ("=" + v)[1..] == v;
      OneCharHead(k, "=" + v);
      KeyGrows(v, Key(k + ['=']));
      assert |Parse(s).items[0].key| > |k|;
    }
  }

  // ----- the length that is safe -----

  /** A text without '=' or blanks is one key, and its scan steps over the terminator. */
  lemma LongKeySteps(s: string)
    requires |s| >= 3 && NoBlank(s) && '=' !in s
    ensures Scan(s, NoKey).past
  {
    assert s == s + "";
    KeyHead(s, "");
    RunIs(s[2..], "", KeyStop);
    assert s[2..] + "" == s[2..] && s[2..][|s|-2..] == "";
  }

  /** 2046 characters are the most that no text can overrun. */
  lemma SafeLengthIff(n: nat)
    ensures (forall str: string :: |str| == n ==> !Overrun(str)) <==> n <= 2046
  {
    if n > MAX_STR_LEN - 2 {
      var str: string := seq(n, _ => 'a');
      LongKeySteps(Truncate(str, MAX_STR_LEN - 1));
      assert Overrun(str);
    }
  }

  // ----- every text is a print of its items -----

  /** What the registers have got so far, as text. */
  function RegText(reg: Reg): string {
    match reg
    case NoKey => ""
    case Key(k) => k
    case Value(k, v) => k + "=" + v
  }

  /** What the registers hold is the start of an item. */
  predicate Begun(reg: Reg) {
    match reg
    case NoKey => false
    case Key(k) => |k| >= 1 && ValidKey(k)
    case Value(k, v) => |k| >= 2 && ValidKey(k) && NoBlank(v[ValueRun(v)..])
  }

  /** The registers at the guard of the loop: behind a key's second character, or in a closed value. */
  predicate AtGuard(reg: Reg) {
    && Begun(reg)
    && match reg
       case Key(k) => |k| == 2
       case Value(_, v) => ValueRun(v) < |v|
  }

  /** Behind c the value v is closed: no quote is open in it, and it is not empty. */
  predicate Closes(v: string, c: char) {
    ValueRun(v) < |v| || if v == "" then !IsQuote(c) else c == v[0]
  }

  /** The registers where the loop body looks at the next character. */
  predicate AtStep(s: string, reg: Reg) {
    && Begun(reg)
    && match reg
       case Key(k) => if s == "" then |k| != 2 else IsSpace(s[0]) || |k| == 1
       case Value(_, v) => if s == "" then ValueRun(v) == |v| else Closes(v, s[0])
  }

  /** text is a print of the items of r, with these gaps, and r knows whether the last one is open. */
  predicate Reads(text: string, r: Result, gaps: seq<string>) {
    FitsAll(r.items, gaps) && ValidGaps(gaps) && text == PrintAll(r.items, gaps) && r.past == EndsOpen(r.items, gaps)
  }

  /** An item at the end of the text. */
  lemma ReadsLast(item: Item, open: bool)
    requires Fits(item, "") && open == Open(item)
    ensures Reads(Print(item), Result([item], open), [""])
  {
    var items, gaps := [item], [""];
    assert items[1..] == [] && gaps[1..] == [];
    assert PrintAll(items, gaps) == Print(item) + "" + "";
  }

  /** An item in front of a gap. */
  lemma ReadsMore(item: Item, gap: string, text: string, r: Result, gaps: seq<string>)
    requires Valid(item) && AllBlank(gap) && gap != "" && Reads(text, r, gaps)
    ensures Reads(Print(item) + gap + text, Result([item] + r.items, r.past), [gap] + gaps)
  {
    PrintMore(item, gap, r.items, gaps);
    FitsMore(item, gap, r.items, gaps);
    OpenTail([item] + r.items, [gap] + gaps);
    assert ([item] + r.items)[1..] == r.items && ([gap] + gaps)[1..] == gaps;
  }

  lemma PrintMore(item: Item, gap: string, items: seq<Item>, gaps: seq<string>)
    requires |gaps| == |items|
    ensures PrintAll([item] + items, [gap] + gaps) == Print(item) + gap + PrintAll(items, gaps)
  {
    assert ([item] + items)[1..] == items && ([gap] + gaps)[1..] == gaps;
  }

  lemma FitsMore(item: Item, gap: string, items: seq<Item>, gaps: seq<string>)
    requires Valid(item) && AllBlank(gap) && gap != "" && FitsAll(items, gaps) && ValidGaps(gaps)
    ensures FitsAll([item] + items, [gap] + gaps) && ValidGaps([gap] + gaps)
  {
  }

  lemma CloseValue(v: string, c: char)
    requires Closes(v, c)
    ensures ValueRun(v + [c]) == ValueRun(v)
  {
    if v == "" {
      assert v + [c] == [c];
    } else if IsQuote(v[0]) {
      assert (v + [c])[1..] == v[1..] + [c];
      if ValueRun(v) < |v| {
        QuoteRunOf(v[1..], [c], Only(v[0]));
      } else {
        RunLaw(v[1..], Only(v[0]));
        RunIs(v[1..], [c], Only(v[0]));
      }
    }
  }

  /** The step over a character that is no blank. */
  lemma StepBegun(s: string, reg: Reg)
    requires s != "" && AtStep(s, reg) && !IsSpace(s[0])
    ensures AtGuard(Extend(reg, s[0])) && RegText(Extend(reg, s[0])) + s[1..] == RegText(reg) + s
  {
    if reg.Value? {
      var v, c, m := reg.value, s[0], ValueRun(reg.value);
      CloseValue(v, c);
      assert (v + [c])[m..] == v[m..] + [c];
    }
  }

  /** A blank ends an item. */
  lemma BlankEnds(s: string, reg: Reg)
    requires s != "" && AtStep(s, reg) && IsSpace(s[0])
    ensures Valid(ItemOf(reg)) && Print(ItemOf(reg)) == RegText(reg)
  {
  }

  /** What the value branch leaves open, or in front of the partner of its quote. */
  lemma ValueOpens(v: string, k: string)
    requires |k| >= 2 && ValidKey(k)
    ensures AtStep(v[ValueRun(v)..], Value(k, v[..ValueRun(v)]))
  {
    var m := ValueRun(v);
    if m > 0 {
      var w := v[..m];
      assert w[1..] == v[1..][..m-1];
      RunLaw(v[1..], Only(v[0]));
      RunAt(w[1..], m - 1, Only(v[0]));
      assert m < |v| ==> v[m] == v[1..][m-1];
    }
  }

  lemma {:induction false} ReadBlanks(s: string) returns (lead: string, gaps: seq<string>)
    ensures AllBlank(lead) && lead <= s && Reads(s[|lead|..], Scan(s, NoKey), gaps)
    decreases |s|, 2
  {
    var n := Run(s, NotSpace);
    RunLaw(s, NotSpace);
    lead := s[..n];
    if n == |s| {
      gaps := [];
    } else {
      gaps := ReadStep(s[n+1..], Key([s[n]]));
      SplitOne(s, n);
    }
  }

  lemma SplitOne(s: string, n: nat)
    requires n < |s|
    ensures [s[n]] + s[n+1..] == s[n..]
  {
  }

  lemma {:induction false} ReadGuard(s: string, reg: Reg) returns (gaps: seq<string>)
    requires AtGuard(reg)
    ensures Reads(RegText(reg) + s, Scan(s, reg), gaps)
    decreases |s|, 2
  {
    if s == "" {
      ReadsLast(ItemOf(reg), false);
      gaps := [""];
      assert RegText(reg) + s == Print(ItemOf(reg));
    } else {
      match reg
      case Key(k) => gaps := ReadKey(s, k);
      case Value(_, _) => gaps := ReadStep(s, reg);
    }
  }

  lemma {:induction false} ReadKey(s: string, k: string) returns (gaps: seq<string>)
    requires s != "" && AtGuard(Key(k))
    ensures Reads(k + s, Scan(s, Key(k)), gaps)
    decreases |s|, 1
  {
    var f := KeyFetch(s, k);
    FetchBegun(s, k);
    gaps := ReadStep(f.0, f.1);
  }

  lemma FetchBegun(s: string, k: string)
    requires s != "" && AtGuard(Key(k))
    ensures var f := KeyFetch(s, k); AtStep(f.0, f.1) && RegText(f.1) + f.0 == k + s
  {
    var n := Run(s, KeyStop);
    RunLaw(s, KeyStop);
    KeyExtends(k, s[..n]);
    RejoinBehind(k, s, n);
    if n < |s| && s[n] == '=' {
      var v := s[n+1..];
      ValueOpens(v, k + s[..n]);
      RejoinBehind(k + s[..n] + "=", v, ValueRun(v));
    }
  }

  lemma KeyExtends(k: string, w: string)
    requires ValidKey(k) && |k| >= 2 && forall i :: 0 <= i < |w| ==> !KeyStop(w[i])
    ensures ValidKey(k + w)
  {
  }

  lemma RejoinBehind(k: string, s: string, n: nat)
    requires n <= |s|
    ensures k + s[..n] + s[n..] == k + s
    ensures n < |s| && s[n] == '=' ==> k + s[..n] + "=" + s[n+1..] == k + s
  {
  }

  lemma {:induction false} ReadStep(s: string, reg: Reg) returns (gaps: seq<string>)
    requires AtStep(s, reg)
    ensures Reads(RegText(reg) + s, Advance(s, reg), gaps)
    decreases |s|, 0
  {
    if s == "" {
      ReadsLast(ItemOf(reg), true);
      gaps := [""];
      assert RegText(reg) + s == Print(ItemOf(reg));
    } else {
      if IsSpace(s[0]) {
        var lead, rest := ReadBlanks(s[1..]);
        BlankEnds(s, reg);
        ReadsMore(ItemOf(reg), [s[0]] + lead, s[1..][|lead|..], Scan(s[1..], NoKey), rest);
        SplitGap(RegText(reg), s, lead);
        gaps := [[s[0]] + lead] + rest;
      } else {
        StepBegun(s, reg);
        gaps := ReadGuard(s[1..], Extend(reg, s[0]));
      }
    }
  }

  lemma SplitGap(k: string, s: string, lead: string)
    requires s != "" && lead <= s[1..]
    ensures k + ([s[0]] + lead) + s[1..][|lead|..] == k + s
  {
  }

  /** Printing inverts parsing, too: every text is blanks and a print of the items that the scan of it
      calls back. */
  lemma {:induction false} PrintOfScan(text: string) returns (lead: string, gaps: seq<string>)
    ensures var items := Scan(text, NoKey).items;
      && AllBlank(lead) && FitsAll(items, gaps) && ValidGaps(gaps) && text == lead + PrintAll(items, gaps)
  {
    lead, gaps := ReadBlanks(text);
    Rejoin(text, |lead|);
    assert text[..|lead|] == lead;
  }

  // ----- which text is not safe -----

  /** text is made of blanks, items with blank gaps between them, and an open item at its end. */
  predicate IsOpenPrint(text: string, lead: string, items: seq<Item>, gaps: seq<string>) {
    && AllBlank(lead) && FitsAll(items, gaps) && ValidGaps(gaps)
    && text == lead + PrintAll(items, gaps) && EndsOpen(items, gaps)
  }

  ghost predicate EndsInOpen(text: string) {
    exists lead, items, gaps :: IsOpenPrint(text, lead, items, gaps)
  }

  /** A text is read behind its buffer exactly when it has 2047 characters or more and, cut off there,
      can be split up into items of which the last is open: a key not of two characters, a pair with an
      empty value, or one with a quote that is not closed. */
  lemma {:induction false} OverrunIff(str: string)
    ensures Overrun(str) <==> |str| >= 2047 && EndsInOpen(Truncate(str, 2047))
  {
    var t := Truncate(str, MAX_STR_LEN - 1);
    if EndsInOpen(t) {
      var lead, items, gaps :| IsOpenPrint(t, lead, items, gaps);
      ScanOfPrint(lead, items, gaps);
    }
    if Scan(t, NoKey).past {
      var lead, gaps := ReadBlanks(t);
      Rejoin(t, |lead|);
      assert IsOpenPrint(t, lead, Scan(t, NoKey).items, gaps);
    }
  }

  // ----- the scanner over its buffer -----

  /** One call of the callback; a bare key has a null value. */
  datatype Call = Call(index: nat, item: Item)

  function Numbered(items: seq<Item>): seq<Call> {
    seq(|items|, i requires 0 <= i < |items| => Call(i, items[i]))
  }

  /** The pointers key and value (-1 for null) point at the text of the registers, which goes up to
      position end. */
  ghost predicate Points(buf: seq<char>, end: nat, key: int, value: int, reg: Reg)
    requires end < |buf|
  {
    match reg
    case NoKey => key == -1 && value == -1
    case Key(k) => value == -1 && 0 <= key && key + |k| == end && buf[key..end] == k && IsText(k)
    case Value(k, v) =>
      && 0 <= key && key + |k| + 1 == value && value + |v| == end && IsText(k) && IsText(v)
      && buf[key..value-1] == k && buf[value-1] == NUL && buf[value..end] == v
  }

  ghost predicate Held(buf: seq<char>, t: string, p: nat, key: int, value: int, reg: Reg) {
    |buf| == MAX_STR_LEN && Ahead(buf, t, p) && Points(buf, Min(p, |t|), key, value, reg)
  }

  /** The upper half of the loop body: finds a key, or a key's value.  `done` is the `continue` at
      the end of the text. */
  method Fetch(buf: array<char>, ghost t: string, p: nat, key: int, value: int, ghost reg: Reg)
    returns (p': nat, key': int, value': int, ghost reg': Reg, done: bool)
    requires Held(buf[..], t, p, key, value, reg) && p < |t|
    modifies buf
    ensures p <= p' <= |t| && Held(buf[..], t, p', key', value', reg')
    ensures done ==> p' == |t| && reg' == NoKey && Scan(t[p..], reg) == Result([], false)
    ensures !done ==> reg' != NoKey && Scan(t[p..], reg) == Advance(t[p'..], reg')
  {
    p', key', value', reg', done := p, key, value, reg, false;
    if key == -1 {
      p' := SkipTo(buf, t, p, NotSpace);
      BlankBranch(t, p, p');
      if buf[p'] == NUL {
        done := true;
        return;
      }
      HeldStart(buf[..], t, p, p');
      key' := p';
      p' := p' + 1;
      reg' := Key([t[key']]);
    } else if value == -1 {
      p', value', reg' := FetchValue(buf, t, p, key, reg);
    }
  }

  /** Scan's branch without a key in terms of positions. */
  lemma BlankBranch(t: string, p: nat, q: nat)
    requires IsText(t) && p < |t| && q == p + Run(t[p..], NotSpace)
    ensures q < |t| ==> t[q] != NUL
    ensures Scan(t[p..], NoKey) == if q < |t| then Advance(t[q+1..], Key([t[q]])) else Result([], false)
  {
    var s, n := t[p..], q - p;
    if n < |s| {
      assert s[n] == t[q] && t[q] in t && s[n+1..] == t[q+1..];
    }
  }

  lemma HeldStart(buf: seq<char>, t: string, p: nat, q: nat)
    requires |buf| == MAX_STR_LEN && Ahead(buf, t, p) && p <= q < |t|
    ensures Held(buf, t, q + 1, q, -1, Key([t[q]]))
  {
  }

  /** Moving on to q extends the register that is open by the text up to q. */
  lemma HeldOn(buf: seq<char>, t: string, p: nat, q: nat, key: int, value: int, reg: Reg)
    requires Held(buf, t, p, key, value, reg) && reg != NoKey && p <= q <= |t|
    ensures Held(buf, t, q, key, value, if reg.Key? then Key(reg.key + t[p..q]) else reg.(value := reg.value + t[p..q]))
  {
    TextSlice(t, p, q);
    assert buf[p..q] == t[p..q];
    if reg.Key? {
      assert buf[key..q] == buf[key..p] + buf[p..q];
    } else {
      assert buf[value..q] == buf[value..p] + buf[p..q];
    }
  }

  /** Cutting the key off at the '=' opens an empty value behind it. */
  lemma HeldCut(buf: seq<char>, t: string, p: nat, key: int, reg: Reg)
    requires Held(buf, t, p, key, -1, reg) && reg.Key? && p < |t|
    ensures Held(buf[p := NUL], t, p + 1, key, p + 1, Value(reg.key, ""))
  {
  }

  /** The branch that looks for the end of the key and for a value behind it. */
  method FetchValue(buf: array<char>, ghost t: string, p: nat, key: int, ghost reg: Reg)
    returns (p': nat, value': int, ghost reg': Reg)
    requires Held(buf[..], t, p, key, -1, reg) && p < |t| && reg.Key?
    modifies buf
    ensures p <= p' <= |t| && Held(buf[..], t, p', key, value', reg')
    ensures KeyFetch(t[p..], reg.key) == (t[p'..], reg')
  {
    value' := -1;
    p' := SkipTo(buf, t, p, KeyStop);
    HeldOn(buf[..], t, p, p', key, -1, reg);
    reg' := Key(reg.key + t[p..p']);
    ghost var q := p';
    if buf[p'] == '=' {
      p', value', reg' := OpenValue(buf, t, p', key, reg');
      ValueFetched(t, p, q, p', reg.key);
    } else {
      KeyFetched(t, p, q, reg.key);
    }
  }

  /** The key branch in terms of positions. */
  lemma KeyFetched(t: string, p: nat, q: nat, key: string)
    requires p < |t| && q == p + Run(t[p..], KeyStop) && (q < |t| ==> t[q] != '=')
    ensures KeyFetch(t[p..], key) == (t[q..], Key(key + t[p..q]))
  {
    SuffixAt(t, p, q - p);
  }

  lemma ValueFetched(t: string, p: nat, q: nat, end: nat, key: string)
    requires p < |t| && q == p + Run(t[p..], KeyStop) && q < |t| && t[q] == '='
    requires end == q + 1 + ValueRun(t[q+1..])
    ensures KeyFetch(t[p..], key) == (t[end..], Value(key + t[p..q], t[q+1..end]))
  {
    ToValue(t, p, q, key);
    BehindQuote(t, q + 1, end, key + t[p..q]);
  }

  lemma ToValue(t: string, p: nat, q: nat, key: string)
    requires p < |t| && q == p + Run(t[p..], KeyStop) && q < |t| && t[q] == '='
    ensures KeyFetch(t[p..], key) == ValueFetch(key + t[p..q], t[q+1..])
  {
    SuffixAt(t, p, q - p);
  }

  lemma BehindQuote(t: string, p: nat, end: nat, key: string)
    requires p <= |t| && end == p + ValueRun(t[p..])
    ensures ValueFetch(key, t[p..]) == (t[end..], Value(key, t[p..end]))
  {
    SuffixAt(t, p, end - p);
  }

  /** At the '=' behind a key: cuts the key off and goes over an opening quote's text. */
  method OpenValue(buf: array<char>, ghost t: string, p: nat, key: int, ghost reg: Reg)
    returns (p': nat, value: int, ghost reg': Reg)
    requires Held(buf[..], t, p, key, -1, reg) && reg.Key? && p < |t| && t[p] == '='
    modifies buf
    ensures Held(buf[..], t, p', key, value, reg') && p < p' <= |t|
    ensures p' == p + 1 + ValueRun(t[p+1..]) && reg' == Value(reg.key, t[p+1..p'])
  {
    HeldCut(buf[..], t, p, key, reg);
    ghost var before := buf[..];
    buf[p] := NUL;
    assert buf[..] == before[p := NUL];
    value := p + 1;
    p' := SkipQuoted(buf, t, value);
    HeldOn(buf[..], t, p + 1, p', key, value, Value(reg.key, ""));
    reg' := Value(reg.key, t[p+1..p']);
    assert "" + t[p+1..p'] == t[p+1..p'];
  }

  /** Over an opening quote and all before its partner. */
  method SkipQuoted(buf: array<char>, ghost t: string, p: nat) returns (q: nat)
    requires Ahead(buf[..], t, p) && p <= |t|
    ensures p <= q <= |t| && ValueRun(t[p..]) == q - p
  {
    var quote := buf[p];
    q := p;
    if IsQuote(quote) {
      q := SkipTo(buf, t, p + 1, Only(quote));
    }
    ValueBranch(t, p, q);
  }

  lemma ValueBranch(t: string, p: nat, q: nat)
    requires p <= q <= |t|
    requires q - p == if p < |t| && IsQuote(t[p]) then 1 + Run(t[p+1..], Only(t[p])) else 0
    ensures ValueRun(t[p..]) == q - p
  {
    SuffixAt(t, p, 0);
  }

  /** The text that a callback sees: C strings in the buffer. */
  function ItemAt(buf: seq<char>, key: nat, value: int): Item
    requires key <= |buf| && value <= |buf|
  {
    if value < 0 then Bare(CString(buf, key)) else Pair(CString(buf, key), CString(buf, value))
  }

  /** Once the item is cut off, its C strings are the registers. */
  lemma HeldItem(buf: seq<char>, end: nat, key: int, value: int, reg: Reg)
    requires end < |buf| && Points(buf, end, key, value, reg) && !reg.NoKey? && buf[end] == NUL
    ensures 0 <= key <= |buf| && value <= |buf| && ItemAt(buf, key, value) == ItemOf(reg)
  {
    match reg
    case Key(k) => CStringIs(buf, key, k);
    case Value(k, v) =>
      CStringIs(buf, key, k);
      CStringIs(buf, value, v);
  }

  /** The lower half of the loop body: at a blank the item is cut off and called back, and the
      cursor steps on in any case. */
  method Close(buf: array<char>, ghost t: string, p: nat, key: int, value: int, ghost reg: Reg)
    returns (p': nat, key': int, value': int, ghost reg': Reg, item: Option<Item>)
    requires Held(buf[..], t, p, key, value, reg) && p <= |t| && reg != NoKey
    modifies buf
    ensures p' == p + 1 && Held(buf[..], t, p', key', value', reg')
    ensures if p < |t| && IsSpace(t[p]) then item == Some(ItemOf(reg)) && reg' == NoKey
            else item == None && reg' == if p < |t| then Extend(reg, t[p]) else reg
  {
    p', key', value', reg', item := p + 1, key, value, reg, None;
    assert p < |t| ==> t[p] in t;
    if IsSpace(buf[p]) {
      buf[p] := NUL;
      HeldItem(buf[..], p, key, value, reg);
      item := Some(ItemAt(buf[..], key, value));
      key', value', reg' := -1, -1, NoKey;
    } else if p < |t| {
      reg' := Extend(reg, t[p]);
    }
  }

  /** What the rest of the scan will call back. */
  ghost function Rest(t: string, p: nat, reg: Reg): Result
    requires p <= |t| + 1 && (p == |t| + 1 ==> reg != NoKey)
  {
    if p <= |t| then Scan(t[p..], reg) else Result([ItemOf(reg)], true)
  }

  function Prepend(items: seq<Item>, r: Result): Result {
    r.(items := items + r.items)
  }

  lemma PrependOne(items: seq<Item>, item: Item, r: Result)
    ensures Prepend(items, Prepend([item], r)) == Prepend(items + [item], r)
    ensures Numbered(items + [item]) == Numbered(items) + [Call(|items|, item)]
  {
  }

  /** The loop body. */
  method Iterate(buf: array<char>, ghost t: string, p: nat, key: int, value: int, ghost reg: Reg)
    returns (p': nat, key': int, value': int, ghost reg': Reg, item: Option<Item>)
    requires Held(buf[..], t, p, key, value, reg) && p < |t|
    modifies buf
    ensures p < p' <= |t| + 1 && Held(buf[..], t, p', key', value', reg')
    ensures p' == |t| + 1 ==> reg' != NoKey
    ensures var r := Rest(t, p', reg');
      Rest(t, p, reg) == if item.Some? then Prepend([item.value], r) else r
  {
    var done;
    item := None;
    p', key', value', reg', done := Fetch(buf, t, p, key, value, reg);
    if !done {
      ghost var s := t[p'..];
      p', key', value', reg', item := Close(buf, t, p', key', value', reg');
      assert s != "" ==> s[1..] == t[p'..];
    }
  }

  method ParseKeyValueStr(str: string) returns (calls: seq<Call>, overrun: bool)
    requires IsText(str)
    ensures overrun == Overrun(str)
    ensures !overrun ==> var items := Parse(str).items;
      |calls| == |items| && forall i :: 0 <= i < |items| ==> calls[i] == Call(i, items[i])
  {
    ghost var t := Truncate(str, MAX_STR_LEN - 1);
    TextSlice(str, 0, |t|);
    var buf := new char[MAX_STR_LEN]((i: nat) => if i < |str| && i < MAX_STR_LEN - 1 then str[i] else NUL);
    var p, key, value := 0, -1, -1;
    ghost var reg, items := NoKey, [];
    calls := [];
    assert t[0..] == t;
    while p < MAX_STR_LEN && buf[p] != NUL
      invariant p <= |t| + 1 && Held(buf[..], t, p, key, value, reg)
      invariant p == |t| + 1 ==> reg != NoKey
      invariant calls == Numbered(items)
      invariant Parse(str) == Prepend(items, Rest(t, p, reg))
      decreases |t| + 1 - p
    {
      var item;
      p, key, value, reg, item := Iterate(buf, t, p, key, value, reg);
      if item.Some? {
        PrependOne(items, item.value, Rest(t, p, reg));
        calls := calls + [Call(|calls|, item.value)];
        items := items + [item.value];
      }
    }
    overrun := p == MAX_STR_LEN;
    AtEnd(buf[..], t, p, key, value, reg);
    if !overrun && key != -1 {
      HeldItem(buf[..], Min(p, |t|), key, value, reg);
      PrependOne(items, ItemOf(reg), Result([], false));
      calls := calls + [Call(|calls|, ItemAt(buf[..], key, value))];
    }
  }

  /** When the loop has ended, at most the open item is left to call back. */
  lemma AtEnd(buf: seq<char>, t: string, p: nat, key: int, value: int, reg: Reg)
    requires Held(buf, t, p, key, value, reg) && (p == |t| + 1 ==> reg != NoKey)
    requires p < MAX_STR_LEN ==> buf[p] == NUL
    ensures |t| <= p && (key == -1 <==> reg == NoKey) && (p == |t| ==> p < MAX_STR_LEN)
    ensures Rest(t, p, reg) == Result(if reg == NoKey then [] else [ItemOf(reg)], p == |t| + 1)
    ensures buf[Min(p, |t|)] == NUL
  {
  }
}
