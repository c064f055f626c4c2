/** The argument splitter of popen2: Args says what it makes of a command line, the method does it
    over the buffer. */
module MakeArgs {
  import opened Options
  import opened Text

  const MAX_CMDLINE := 4 * 1024

  /** An argument and the text behind it. */
  datatype Cut = Cut(arg: string, rest: string)

  /** What ends an argument that starts with c. */
  function ArgStop(c: char): char -> bool {
    if IsQuote(c) then Only(c) else IsSpace
  }

  /** Cuts the argument that starts with c off the text r behind it: up to its stop, without the
      quotes, or, where the stop is missing, all of the text. */
  function CutArg(c: char, r: string): Cut {
    var m := Run(r, ArgStop(c));
    if m == |r| then Cut([c] + r, "")
    else Cut(if IsQuote(c) then r[..m] else [c] + r[..m], r[m+1..])
  }

  /** The first argument of s.  At the end of the text the loop stops before it looks at an argument
      of which it has only the first character. */
  function First(s: string): (r: Option<Cut>)
    ensures r.Some? ==> |r.value.rest| < |s|
  {
    var n := Run(s, NotSpace);
    if n + 1 >= |s| then None else Some(CutArg(s[n], s[n+1..]))
  }

  /** The arguments of a command line. */
  function Args(s: string): seq<string>
    decreases |s|
  {
    match First(s)
    case None => []
    case Some(cut) => [cut.arg] + Args(cut.rest)
  }

  // ----- joining arguments -----

  /** A bare word, a quoted argument, or one whose closing quote is missing. */
  datatype Arg = Word(text: string) | Quoted(quote: char, text: string) | Broken(quote: char, text: string)

  function Print(a: Arg): string {
    match a
    case Word(w) => w
    case Quoted(q, w) => [q] + w + [q]
    case Broken(q, w) => [q] + w
  }

  /** The argument that comes back: an opening quote alone stays where it is. */
  function Value(a: Arg): string {
    if a.Broken? then [a.quote] + a.text else a.text
  }

  predicate Valid(a: Arg) {
    match a
    case Word(w) => w != "" && NoBlank(w) && !IsQuote(w[0])
    case Quoted(q, w) => IsQuote(q) && q !in w
    case Broken(q, w) => IsQuote(q) && q !in w
  }

  function PrintAll(args: seq<Arg>, gaps: seq<string>): string
    requires |gaps| == |args|
  {
    if args == [] then "" else Print(args[0]) + gaps[0] + PrintAll(args[1..], gaps[1..])
  }

  /** Gaps are blank; only behind a quote or at the end may they be empty.  A quote that is not closed
      takes all of the line. */
  predicate ValidGaps(args: seq<Arg>, gaps: seq<string>) {
    && |gaps| == |args|
    && (forall i :: 0 <= i < |gaps| ==> AllBlank(gaps[i]))
    && (forall i :: 0 <= i < |gaps| - 1 ==> gaps[i] != "" || args[i].Quoted?)
    && (forall i :: 0 <= i < |gaps| && args[i].Broken? ==> i == |gaps| - 1 && gaps[i] == "")
  }

  function Texts(args: seq<Arg>): seq<string> {
    if args == [] then [] else [Value(args[0])] + Texts(args[1..])
  }

  /** The line ends in a bare word of one character, or in an opening quote. */
  predicate EndsShort(args: seq<Arg>, gaps: seq<string>)
    requires |gaps| == |args|
  {
    args != [] && gaps[|gaps|-1] == "" && !args[|args|-1].Quoted? && |Value(args[|args|-1])| == 1
  }

  // ----- the law -----

  lemma FirstAt(b: string, c: char, r: string)
    requires AllBlank(b) && !IsSpace(c)
    ensures First(b + ([c] + r)) == if r == "" then None else Some(CutArg(c, r))
  {
    var s := b + ([c] + r);
    RunIs(b, [c] + r, NotSpace);
    assert s[|b|+1..] == r && s[|b|] == c;
  }

  lemma CutWord(w: string, z: string)
    requires Valid(Word(w)) && (z == "" || IsSpace(z[0]))
    ensures CutArg(w[0], w[1..] + z) == Cut(w, if z == "" then "" else z[1..])
  {
    var r, m := w[1..] + z, |w| - 1;
    forall c | c in w[1..] ensures !IsSpace(c) { assert c in w; }
    RunIs(w[1..], z, IsSpace);
    assert [w[0]] + w[1..] == w && r[..m] == w[1..];
    assert z != "" ==> r[m+1..] == z[1..];
    assert z == "" ==> r == w[1..];
  }

  lemma CutQuoted(q: char, w: string, z: string)
    requires Valid(Quoted(q, w))
    ensures CutArg(q, w + [q] + z) == Cut(w, z)
  {
    var r := w + [q] + z;
    assert r == w + ([q] + z);
    RunIs(w, [q] + z, Only(q));
    assert r[..|w|] == w && r[|w|+1..] == z;
  }

  lemma CutBroken(q: char, w: string)
    requires Valid(Broken(q, w))
    ensures CutArg(q, w) == Cut([q] + w, "")
  {
    RunAllIff(w, Only(q));
  }

  lemma BlankHasNoArg(b: string)
    requires AllBlank(b)
    ensures First(b) == None
  {
    RunAt(b, |b|, NotSpace);
  }

  /** A printed argument at the front of the line, and what is left behind it. */
  lemma FirstArg(lead: string, arg: Arg, z: string)
    requires AllBlank(lead) && Valid(arg) && (arg.Word? ==> z == "" || IsSpace(z[0]))
    requires arg.Broken? ==> z == ""
    ensures First(lead + (Print(arg) + z)) ==
      if arg.Quoted? then Some(Cut(arg.text, z))
      else if z != "" then Some(Cut(arg.text, z[1..]))
      else if |Value(arg)| == 1 then None else Some(Cut(Value(arg), ""))
  {
    match arg
    case Word(w) =>
      assert w[0] in w && w + z == [w[0]] + (w[1..] + z);
      FirstAt(lead, w[0], w[1..] + z);
      CutWord(w, z);
    case Quoted(q, w) =>
      assert [q] + w + [q] + z == [q] + (w + [q] + z);
      FirstAt(lead, q, w + [q] + z);
      CutQuoted(q, w, z);
    case Broken(q, w) =>
      assert [q] + w + z == [q] + w;
      FirstAt(lead, q, w);
      CutBroken(q, w);
  }

  /** The arguments that come back: a last one of one character is lost. */
  function Found(args: seq<Arg>, gaps: seq<string>): seq<string>
    requires |gaps| == |args|
  {
    if args == [] || (|args| == 1 && EndsShort(args, gaps)) then []
    else [Value(args[0])] + Found(args[1..], gaps[1..])
  }

  /** Splitting a printed line gives the arguments, less a last one of one character. */
  lemma {:induction false} SplitOfPrint(lead: string, args: seq<Arg>, gaps: seq<string>)
    requires ValidGaps(args, gaps) && AllBlank(lead)
    requires forall i :: 0 <= i < |args| ==> Valid(args[i])
    ensures Args(lead + PrintAll(args, gaps)) == Found(args, gaps)
    decreases |args|
  {
    if args == [] {
      assert lead + "" == lead;
      BlankHasNoArg(lead);
    } else {
      var gap, rest := gaps[0], PrintAll(args[1..], gaps[1..]);
      assert PrintAll(args, gaps) == Print(args[0]) + (gap + rest);
      GapEnds(args, gaps);
      FirstArg(lead, args[0], gap + rest);
      if args[0].Quoted? {
        SplitOfPrint(gap, args[1..], gaps[1..]);
      } else if gap != "" {
        SplitOfPrint(gap[1..], args[1..], gaps[1..]);
      } else {
        BlankHasNoArg("");
      }
    }
  }

  lemma GapEnds(args: seq<Arg>, gaps: seq<string>)
    requires args != [] && ValidGaps(args, gaps)
    ensures var gap, rest := gaps[0], PrintAll(args[1..], gaps[1..]);
      && (gap != "" ==> IsSpace((gap + rest)[0]) && (gap + rest)[1..] == gap[1..] + rest && AllBlank(gap[1..]))
      && (args[0].Broken? || (gap == "" && args[0].Word?) ==> |args| == 1 && gap + rest == "")
      && ValidGaps(args[1..], gaps[1..])
  {
    var gap, rest := gaps[0], PrintAll(args[1..], gaps[1..]);
    assert AllBlank(gap);
    if gap != "" {
      assert (gap + rest)[0] == gap[0] && (gap + rest)[1..] == gap[1..] + rest;
    }
    TailGaps(args, gaps);
  }

  lemma TailGaps(args: seq<Arg>, gaps: seq<string>)
    requires args != [] && ValidGaps(args, gaps)
    ensures ValidGaps(args[1..], gaps[1..])
  {
    forall i | 0 <= i < |gaps| - 2 ensures gaps[1..][i] != "" || args[1..][i].Quoted? {
      assert gaps[1..][i] == gaps[i+1] && args[1..][i] == args[i+1];
    }
  }

  lemma {:induction false} FoundAllIff(args: seq<Arg>, gaps: seq<string>)
    requires |gaps| == |args|
    ensures |Found(args, gaps)| == |args| - (if EndsShort(args, gaps) then 1 else 0)
    ensures !EndsShort(args, gaps) ==> Found(args, gaps) == Texts(args)
    ensures |Texts(args)| == |args|
    decreases |args|
  {
    if args != [] {
      FoundAllIff(args[1..], gaps[1..]);
    }
  }

  lemma {:induction false} FoundAt(args: seq<Arg>, gaps: seq<string>, i: nat)
    requires |gaps| == |args| && i < |Found(args, gaps)|
    ensures i < |args| && Found(args, gaps)[i] == Value(args[i])
    decreases i
  {
    FoundAllIff(args, gaps);
    if i > 0 {
      FoundAt(args[1..], gaps[1..], i - 1);
    }
  }

  // ----- every line is a printed one -----

  /** The argument that starts with c, taken off the text r behind it. */
  lemma {:induction false} TakeArg(c: char, r: string) returns (arg: Arg, rest: string)
    requires !IsSpace(c)
    ensures Valid(arg) && [c] + r == Print(arg) + rest
    ensures arg.Word? ==> rest == "" || IsSpace(rest[0])
    ensures arg.Broken? ==> rest == ""
  {
    if IsQuote(c) {
      arg, rest := TakeQuoted(c, r);
    } else {
      arg, rest := TakeWord(c, r);
    }
  }

  lemma {:induction false} TakeWord(c: char, r: string) returns (arg: Arg, rest: string)
    requires !IsSpace(c) && !IsQuote(c)
    ensures arg.Word? && Valid(arg) && [c] + r == Print(arg) + rest && (rest == "" || IsSpace(rest[0]))
  {
    var m := Run(r, IsSpace);
    RunLaw(r, IsSpace);
    arg, rest := Word([c] + r[..m]), r[m..];
    WordAt(c, r, m);
  }

  lemma WordAt(c: char, r: string, m: nat)
    requires m <= |r| && !IsSpace(c) && forall i :: 0 <= i < m ==> !IsSpace(r[i])
    ensures [c] + r == ([c] + r[..m]) + r[m..] && NoBlank([c] + r[..m])
  {
  }

  lemma {:induction false} TakeQuoted(q: char, r: string) returns (arg: Arg, rest: string)
    requires IsQuote(q)
    ensures !arg.Word? && Valid(arg) && [q] + r == Print(arg) + rest && (arg.Broken? ==> rest == "")
  {
    var m := Run(r, Only(q));
    RunLaw(r, Only(q));
    if m < |r| {
      arg, rest := Quoted(q, r[..m]), r[m+1..];
      QuoteAt(q, r, m);
    } else {
      arg, rest := Broken(q, r), "";
      assert [q] + r + "" == [q] + r;
    }
  }

  lemma QuoteAt(q: char, r: string, m: nat)
    requires m < |r| && r[m] == q
    ensures [q] + r == [q] + r[..m] + [q] + r[m+1..]
  {
  }

  /** Whatever the line, it is blanks and printed arguments; so what is proved of printed arguments is
      proved of every command. */
  lemma {:induction false} EveryCommandPrints(s: string) returns (lead: string, args: seq<Arg>, gaps: seq<string>)
    ensures ValidGaps(args, gaps) && AllBlank(lead) && forall i :: 0 <= i < |args| ==> Valid(args[i])
    ensures s == lead + PrintAll(args, gaps)
    ensures s != "" && IsSpace(s[0]) ==> lead != ""
    ensures s == "" ==> args == []
    decreases |s|
  {
    var n := Run(s, NotSpace);
    RunLaw(s, NotSpace);
    lead := s[..n];
    if n == |s| {
      args, gaps := [], [];
    } else {
      var arg, rest := TakeArg(s[n], s[n+1..]);
      LineBehind(s, n, Print(arg), rest);
      var gap, args', gaps' := EveryCommandPrints(rest);
      args, gaps := [arg] + args', [gap] + gaps';
      OneMoreArg(arg, args', gap, gaps');
    }
  }

  lemma LineBehind(s: string, n: nat, x: string, rest: string)
    requires n < |s| && [s[n]] + s[n+1..] == x + rest && x != ""
    ensures |rest| < |s| && s == s[..n] + (x + rest)
  {
    assert s == s[..n] + ([s[n]] + s[n+1..]);
  }

  lemma OneMoreArg(arg: Arg, args: seq<Arg>, gap: string, gaps: seq<string>)
    requires Valid(arg) && ValidGaps(args, gaps) && AllBlank(gap) && (forall i :: 0 <= i < |args| ==> Valid(args[i]))
    requires arg.Word? && args != [] ==> gap != ""
    requires arg.Broken? ==> args == [] && gap == ""
    ensures ValidGaps([arg] + args, [gap] + gaps)
    ensures PrintAll([arg] + args, [gap] + gaps) == Print(arg) + (gap + PrintAll(args, gaps))
  {
    assert ([arg] + args)[1..] == args && ([gap] + gaps)[1..] == gaps;
  }

  /** What popen2 hands to execvp: null without arguments, else the arguments and a final null. */
  function Vector(args: seq<string>): Option<seq<Option<string>>> {
    if args == [] then None
    else Some(seq(|args|, i requires 0 <= i < |args| => Option.Some(args[i])) + [Option.None])
  }

  function Split(command: string): seq<string> {
    Args(Truncate(command, MAX_CMDLINE - 1))
  }

  /** Splitting gives back the joined arguments exactly when the line does not end in a bare word of
      one character. */
  lemma {:induction false} SplitInvertsJoinIff(lead: string, args: seq<Arg>, gaps: seq<string>)
    requires ValidGaps(args, gaps) && AllBlank(lead)
    requires forall i :: 0 <= i < |args| ==> Valid(args[i])
    requires |lead + PrintAll(args, gaps)| <= MAX_CMDLINE - 1
    ensures Split(lead + PrintAll(args, gaps)) == Texts(args) <==> !EndsShort(args, gaps)
  {
    var s := lead + PrintAll(args, gaps);
    assert Truncate(s, MAX_CMDLINE - 1) == s;
    SplitOfPrint(lead, args, gaps);
    FoundAllIff(args, gaps);
  }

  /** What execvp gets of any command: with the first 4095 characters seen as printed arguments, each
      argument at its place, less a last one of one character, and a null behind them. */
  lemma {:induction false} VectorOfCommand(command: string, lead: string, args: seq<Arg>, gaps: seq<string>)
    requires ValidGaps(args, gaps) && AllBlank(lead)
    requires forall i :: 0 <= i < |args| ==> Valid(args[i])
    requires lead + PrintAll(args, gaps) == if |command| <= 4095 then command else command[..4095]
    ensures var k := |args| - (if EndsShort(args, gaps) then 1 else 0);
      var v := Vector(Split(command));
      && (v == None <==> k == 0)
      && (v.Some? ==>
        && |v.value| == k + 1 && v.value[k] == None
        && forall i :: 0 <= i < k ==> v.value[i] == Some(Value(args[i])))
  {
    FoundInCommand(command, lead, args, gaps);
    FoundAllIff(args, gaps);
    VectorIs(Found(args, gaps));
    EachFound(args, gaps, Found(args, gaps));
  }

  lemma FoundInCommand(command: string, lead: string, args: seq<Arg>, gaps: seq<string>)
    requires ValidGaps(args, gaps) && AllBlank(lead)
    requires forall i :: 0 <= i < |args| ==> Valid(args[i])
    requires lead + PrintAll(args, gaps) == if |command| <= 4095 then command else command[..4095]
    ensures Split(command) == Found(args, gaps)
  {
    assert |command| <= 4095 ==> command[..|command|] == command;
    SplitOfPrint(lead, args, gaps);
  }

  lemma {:induction false} EachFound(args: seq<Arg>, gaps: seq<string>, found: seq<string>)
    requires |gaps| == |args| && found == Found(args, gaps)
    ensures |found| <= |args| && forall i :: 0 <= i < |found| ==> found[i] == Value(args[i])
  {
    FoundAllIff(args, gaps);
    forall i | 0 <= i < |found| ensures found[i] == Value(args[i]) {
      FoundAt(args, gaps, i);
    }
  }

  lemma VectorIs(args: seq<string>)
    ensures Vector(args) == None <==> args == []
    ensures Vector(args).Some? ==> var v := Vector(args).value;
      && |v| == |args| + 1 && v[|args|] == None
      && forall i :: 0 <= i < |args| ==> v[i] == Some(args[i])
  {
  }

  // ----- the splitter over its buffer -----

  /** What is still to be split: all from the cursor on, and from start if an argument is begun. */
  function Left(t: string, p: nat, start: int): string
    requires p <= |t| && (start == -1 || 0 <= start == p - 1)
  {
    if start == -1 then t[p..] else t[start..]
  }

  /** Between two iterations the buffer is untouched from the cursor on, and start is null or points
      at the character before the cursor. */
  ghost predicate Ready(buf: seq<char>, t: string, p: nat, start: int) {
    && p <= |t| && Ahead(buf, t, p)
    && (start == -1 || (0 <= start == p - 1 && buf[start] == t[start] && !IsSpace(t[start])))
  }

  method SplitCommand(command: Option<string>) returns (argv: Option<seq<Option<string>>>)
    requires command.Some? ==> IsText(command.value)
    ensures argv == None <==> command == None || Split(command.value) == []
    ensures argv.Some? ==> var args := Split(command.value);
      && |argv.value| == |args| + 1 && argv.value[|args|] == None
      && forall i :: 0 <= i < |args| ==> argv.value[i] == Some(args[i])
    ensures command.Some? ==> argv == Vector(Split(command.value))
  {
    if command == None {
      return None;
    }
    var line := command.value;
    ghost var t := Truncate(line, MAX_CMDLINE - 1);
    TextSlice(line, 0, |t|);
    assert t[0..] == t;
    var buf := new char[MAX_CMDLINE]((i: nat) => if i < |line| && i < MAX_CMDLINE - 1 then line[i] else NUL);
    var p, start, args := 0, -1, [];
    while buf[p] != NUL
      invariant Ready(buf[..], t, p, start)
      invariant args + Args(Left(t, p, start)) == Args(t)
      decreases |t| - p
    {
      var arg;
      ghost var before := Left(t, p, start);
      p, start, arg := Iterate(buf, t, p, start);
      ArgsStep(before, Left(t, p, start), arg, args);
      if arg.Some? {
        args := args + [arg.value];
      }
    }
    NothingLeft(buf[..], t, p, start);
    assert args + [] == args;
    argv := Vector(args);
  }

  lemma ArgsStep(s: string, s': string, arg: Option<string>, args: seq<string>)
    requires arg.Some? ==> First(s) == Some(Cut(arg.value, s'))
    requires arg.None? ==> First(s) == First(s')
    ensures args + Args(s) == (if arg.Some? then args + [arg.value] else args) + Args(s')
  {
  }

  lemma NothingLeft(buf: seq<char>, t: string, p: nat, start: int)
    requires Ready(buf, t, p, start) && buf[p] == NUL
    ensures Args(Left(t, p, start)) == []
  {
  }

  /** The loop body: finds the start of an argument, or its end. */
  method Iterate(buf: array<char>, ghost t: string, p: nat, start: int)
    returns (p': nat, start': int, arg: Option<string>)
    requires Ready(buf[..], t, p, start) && p < |t|
    modifies buf
    ensures p < p' <= |t| && Ready(buf[..], t, p', start')
    ensures arg.Some? ==> First(Left(t, p, start)) == Some(Cut(arg.value, Left(t, p', start')))
    ensures arg.None? ==> First(Left(t, p, start)) == First(Left(t, p', start'))
  {
    arg := None;
    if start == -1 {
      p' := SkipTo(buf, t, p, NotSpace);
      StartFound(t, p, p');
      if buf[p'] == NUL {
        start' := -1;
      } else {
        start' := p';
        p' := p' + 1;
      }
    } else {
      var text;
      p', text := CutOff(buf, t, p);
      start', arg := -1, Some(text);
      CutIsFirst(t, p, Cut(text, t[p'..]));
    }
  }

  /** Skipping blanks does not change what comes first. */
  lemma StartFound(t: string, p: nat, q: nat)
    requires IsText(t) && p < |t| && q == p + Run(t[p..], NotSpace)
    ensures q < |t| ==> t[q] != NUL && !IsSpace(t[q])
    ensures First(t[p..]) == First(t[q..])
  {
    var s, n := t[p..], q - p;
    RunLaw(s, NotSpace);
    Rejoin(s, n);
    assert s[..n] == t[p..q] && s[n..] == t[q..];
    assert q < |t| ==> t[q] in t && s[n] == t[q];
    FirstBehindBlanks(t[p..q], t[q..]);
  }

  lemma FirstBehindBlanks(b: string, s: string)
    requires AllBlank(b) && (s == "" || !IsSpace(s[0]))
    ensures First(b + s) == First(s)
  {
    if s == "" {
      assert b + s == b;
      BlankHasNoArg(b);
    } else {
      assert s == [s[0]] + s[1..] && "" + s == s;
      FirstAt(b, s[0], s[1..]);
      FirstAt("", s[0], s[1..]);
    }
  }

  /** CutArg in terms of positions. */
  lemma CutArgAt(t: string, p: nat, q: nat)
    requires 0 < p < |t| && q == p + Run(t[p..], ArgStop(t[p-1]))
    ensures CutArg(t[p-1], t[p..]) ==
      if q == |t| then Cut(t[p-1..q], "")
      else Cut(if IsQuote(t[p-1]) then t[p..q] else t[p-1..q], t[q+1..])
  {
    var c, r, m := t[p-1], t[p..], q - p;
    assert r[..m] == t[p..q] && [c] + t[p..q] == t[p-1..q];
    if q < |t| {
      assert r[m+1..] == t[q+1..];
    } else {
      assert r[..m] == r;
    }
  }

  /** The argument that is cut off is the first of what was left. */
  lemma CutIsFirst(t: string, p: nat, cut: Cut)
    requires 0 < p < |t| && !IsSpace(t[p-1]) && cut == CutArg(t[p-1], t[p..])
    ensures First(t[p-1..]) == Some(cut)
  {
  }

  /** The branch with a started argument: finds its end, cuts it off and copies it. */
  method CutOff(buf: array<char>, ghost t: string, p: nat) returns (p': nat, arg: string)
    requires 0 < p < |t| && Ready(buf[..], t, p, p - 1)
    modifies buf
    ensures p < p' <= |t| && Ahead(buf[..], t, p')
    ensures CutArg(t[p-1], t[p..]) == Cut(arg, t[p'..])
  {
    ghost var before := buf[..];
    var start := p - 1;
    var c := buf[start];
    var q := SkipTo(buf, t, p, ArgStop(c));
    CutText(before, t, p, q);
    CutArgAt(t, p, q);
    if buf[q] == NUL {
      p' := q;
      assert before[q := NUL] == before && t[q..] == "";
    } else {
      if IsQuote(c) {
        start := start + 1;
      }
      buf[q] := NUL;
      p' := q + 1;
    }
    assert buf[..] == before[q := NUL];
    arg := CString(buf[..], start);
  }

  /** The argument is cut off at q: its C string is its text, and the text ahead is untouched. */
  lemma CutText(buf: seq<char>, t: string, p: nat, q: nat)
    requires Ahead(buf, t, p) && 0 < p <= q <= |t| && buf[p-1] == t[p-1]
    ensures CString(buf[q := NUL], p - 1) == t[p-1..q] && CString(buf[q := NUL], p) == t[p..q]
    ensures q < |t| ==> buf[q] != NUL && Ahead(buf[q := NUL], t, q + 1)
    ensures q == |t| ==> buf[q] == NUL && Ahead(buf[q := NUL], t, q)
  {
    var buf' := buf[q := NUL];
    assert buf'[p-1..q] == t[p-1..q] && buf'[p..q] == t[p..q];
    TextSlice(t, p - 1, q);
    TextSlice(t, p, q);
    CStringIs(buf', p - 1, t[p-1..q]);
    CStringIs(buf', p, t[p..q]);
    assert q < |t| ==> t[q] in t;
  }
}
