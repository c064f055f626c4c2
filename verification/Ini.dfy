/** parse_ini: the lines of a file, what each line is, and what the parser makes of them. */
module Ini {
  import opened Machine
  import opened Text
  import opened Trim

  const MAX_LINE_LEN := 1024
  const MAX_SECTION_LEN := 64

  datatype Call = Call(section: string, name: string, value: string)

  /** What one line is.  BadHeader has no closing bracket: the source follows a null pointer there. */
  datatype Line = Skip | Header(section: string) | BadHeader | Entry(name: string, value: string) | NoSeparator

  /** parse_ini returns, or it dies on the given line. */
  datatype Outcome = Returned(calls: seq<Call>, error: nat) | Crashed(calls: seq<Call>, line: nat)

  // ----- lines -----

  /** How much fgets() takes: through the newline, but at most 1023 characters. */
  function LineLength(s: string): (n: nat)
    ensures n <= |s| && (s != "" ==> n >= 1)
  {
    var n := Run(s, Only('\n'));
    Min(MAX_LINE_LEN - 1, if n < |s| then n + 1 else n)
  }

  function Lines(file: string): seq<string> {
    if file == "" then [] else [file[..LineLength(file)]] + Lines(file[LineLength(file)..])
  }

  /** What is a line: it ends at its only newline, or at the end of the file, or is 1023 long. */
  lemma LineLengthLaw(s: string)
    requires s != ""
    ensures var n := LineLength(s);
      && 1 <= n <= |s| && n <= 1023
      && (forall i :: 0 <= i < n - 1 ==> s[i] != '\n')
      && (n == |s| || n == 1023 || s[n-1] == '\n')
  {
    RunLaw(s, Only('\n'));
  }

  function Join(lines: seq<string>): string {
    if lines == [] then "" else lines[0] + Join(lines[1..])
  }

  /** The lines of a file are the file. */
  lemma {:induction false} JoinOfLines(file: string)
    ensures Join(Lines(file)) == file
  {
    if file != "" {
      JoinOfLines(file[LineLength(file)..]);
      assert Lines(file)[1..] == Lines(file[LineLength(file)..]);
      Rejoin(file, LineLength(file));
    }
  }

  /** The text before the first '#', or where there is none, before the first ';'. */
  function CutRemark(v: string): string {
    var n := Run(v, Only('#'));
    if n < |v| then v[..n] else v[..Run(v, Only(';'))]
  }

  function ValueOf(v: string): string {
    RTrim(CutRemark(LTrim(v)))
  }

  /** Where the name ends: at the first '=', or where there is none, at the first ':'. */
  function Separator(s: string): (n: nat)
    ensures n <= |s|
  {
    var n := Run(s, Only('='));
    if n < |s| then n else Run(s, Only(':'))
  }

  /** A line whose first character is the bracket. */
  function HeaderOf(s: string): Line
    requires s != ""
  {
    var n := Run(s[1..], Only(']'));
    if n == |s| - 1 then BadHeader else Header(Truncate(s[1..][..n], MAX_SECTION_LEN - 1))
  }

  /** A line with its separator at n. */
  function EntryAt(s: string, n: nat): Line
    requires n < |s|
  {
    Entry(RTrim(s[..n]), ValueOf(s[n+1..]))
  }

  function EntryOf(s: string): Line {
    var n := Separator(s);
    if n == |s| then NoSeparator else EntryAt(s, n)
  }

  function ClassifyTrimmed(s: string): Line {
    if s == "" || s[0] == ';' || s[0] == '#' then Skip
    else if s[0] == '[' then HeaderOf(s)
    else EntryOf(s)
  }

  function Classify(line: string): Line {
    ClassifyTrimmed(LTrim(RTrim(line)))
  }

  // ----- which lines are what, on characters -----

  /** The first character of the line that is no blank, and what comes behind it, less blanks. */
  lemma FirstCharacter(line: string, n: nat)
    requires n < |line| && AllBlank(line[..n]) && !IsSpace(line[n])
    ensures LTrim(RTrim(line)) == [line[n]] + RTrim(line[n+1..])
  {
    var y := line[n+1..];
    var x, z := line[..n] + [line[n]], [line[n]] + RTrim(y);
    SplitBehind(line, n, RTrim(y));
    RTrimKeeps(x, y);
    LTrimBlanks(line[..n], z);
  }

  lemma SplitBehind(line: string, n: nat, z: string)
    requires n < |line|
    ensures line == (line[..n] + [line[n]]) + line[n+1..]
    ensures (line[..n] + [line[n]]) + z == line[..n] + ([line[n]] + z)
  {
  }

  lemma AllBlankIsSkip(line: string)
    requires AllBlank(line)
    ensures Classify(line) == Skip
  {
    assert line == "" + line;
    RTrimBlanks("", line);
  }

  lemma BadHeaderIff(s: string)
    requires s != "" && s[0] == '['
    ensures ClassifyTrimmed(s) == BadHeader <==> ']' !in s[1..]
    ensures ClassifyTrimmed(s).BadHeader? || ClassifyTrimmed(s).Header?
  {
    RunAllIff(s[1..], Only(']'));
  }

  lemma NoSeparatorIff(s: string)
    requires s != "" && s[0] !in "[;#"
    ensures ClassifyTrimmed(s) == NoSeparator <==> '=' !in s && ':' !in s
    ensures ClassifyTrimmed(s).NoSeparator? || ClassifyTrimmed(s).Entry?
  {
    RunAllIff(s, Only('='));
    RunAllIff(s, Only(':'));
  }

  lemma {:induction false} NonBlankHas(c: char, y: string, x: char)
    requires !IsSpace(x)
    ensures x in [c] + RTrim(y) <==> x == c || x in y
  {
    RTrimHas(y, x);
  }

  /** With the first non-blank character at n, or all blank: which lines are blank lines or comments,
      which headers lack their bracket, and which lines have no separator. */
  lemma {:induction false} ClassifyIff(line: string, n: nat)
    requires n <= |line| && AllBlank(line[..n]) && (n < |line| ==> !IsSpace(line[n]))
    ensures Classify(line) == Skip <==> n == |line| || line[n] == ';' || line[n] == '#'
    ensures Classify(line) == BadHeader <==> n < |line| && line[n] == '[' && ']' !in line[n+1..]
    ensures Classify(line) == NoSeparator <==>
      n < |line| && line[n] != ';' && line[n] != '#' && line[n] != '[' && '=' !in line[n..] && ':' !in line[n..]
  {
    if n == |line| {
      assert line[..n] == line;
      AllBlankIsSkip(line);
    } else {
      FirstCharacter(line, n);
      var c, y := line[n], line[n+1..];
      var s := [c] + RTrim(y);
      assert s[1..] == RTrim(y) && line[n..] == [c] + y;
      NonBlankHas(c, y, '=');
      NonBlankHas(c, y, ':');
      RTrimHas(y, ']');
      if c == '[' { BadHeaderIff(s); } else if c != ';' && c != '#' { NoSeparatorIff(s); }
    }
  }

  /** Blanks, and so a newline, at the end of a line do not change what it is. */
  lemma {:induction false} BlankEndIsNothing(line: string, b: string)
    requires AllBlank(b)
    ensures Classify(line + b) == Classify(line)
  {
    RTrimMore(line, b);
  }

  // ----- the parser -----

  /** The parser from the given line on.  The handler's answer may depend on all calls so far. */
  function Parse(lines: seq<string>, section: string, lineno: nat, calls: seq<Call>, cb: seq<Call> -> int): Outcome {
    if lines == [] then Returned(calls, 0)
    else
      match Classify(lines[0])
      case Skip => Parse(lines[1..], section, lineno + 1, calls, cb)
      case Header(name) => Parse(lines[1..], name, lineno + 1, calls, cb)
      case BadHeader => Crashed(calls, lineno + 1)
      case NoSeparator => Returned(calls, lineno + 1)
      case Entry(name, value) =>
        var calls' := calls + [Call(section, name, value)];
        if cb(calls') < 0 then Returned(calls', lineno + 1)
        else Parse(lines[1..], section, lineno + 1, calls', cb)
  }

  function ParseFile(file: string, cb: seq<Call> -> int): Outcome {
    Parse(Lines(file), "", 0, [], cb)
  }

  // ----- what the calls of a file should be, line by line and without errors -----

  /** The section that holds after the lines: that of the last header among them. */
  function SectionAfter(lines: seq<string>): string {
    if lines == [] then ""
    else
      match Classify(lines[|lines|-1])
      case Header(name) => name
      case _ => SectionAfter(lines[..|lines|-1])
  }

  function CallsOf(lines: seq<string>): seq<Call> {
    if lines == [] then []
    else
      var front := lines[..|lines|-1];
      match Classify(lines[|lines|-1])
      case Entry(name, value) => CallsOf(front) + [Call(SectionAfter(front), name, value)]
      case _ => CallsOf(front)
  }

  /** Line k (from 0) cannot be parsed, or the handler refuses it. */
  predicate Fails(lines: seq<string>, k: nat, cb: seq<Call> -> int)
    requires k < |lines|
  {
    match Classify(lines[k])
    case BadHeader => true
    case NoSeparator => true
    case Entry(_, _) => cb(CallsOf(lines[..k+1])) < 0
    case _ => false
  }

  /** Behind j lines without a failure the parser stands with their calls and section. */
  lemma {:induction false} ParseFromPrefix(lines: seq<string>, j: nat, cb: seq<Call> -> int)
    requires j <= |lines| && forall i :: 0 <= i < j ==> !Fails(lines, i, cb)
    ensures Parse(lines, "", 0, [], cb) == Parse(lines[j..], SectionAfter(lines[..j]), j, CallsOf(lines[..j]), cb)
  {
    if j == 0 {
      assert lines[0..] == lines && lines[..0] == [];
    } else {
      ParseFromPrefix(lines, j - 1, cb);
      assert lines[..j][..j-1] == lines[..j-1] && lines[j-1..][1..] == lines[j..];
      assert !Fails(lines, j - 1, cb);
    }
  }

  /** The first line that fails ends the parse: its number is the result, and the calls are those of
      the lines up to it.  Without a failing line the result is 0 and the calls are all calls. */
  lemma {:induction false} FirstErrorLaw(lines: seq<string>, k: nat, cb: seq<Call> -> int)
    requires k <= |lines| && forall i :: 0 <= i < k ==> !Fails(lines, i, cb)
    ensures var o := Parse(lines, "", 0, [], cb);
      if k == |lines| then o == Returned(CallsOf(lines), 0)
      else Fails(lines, k, cb) ==>
        o == if Classify(lines[k]).BadHeader? then Crashed(CallsOf(lines[..k+1]), k + 1)
             else Returned(CallsOf(lines[..k+1]), k + 1)
  {
    ParseFromPrefix(lines, k, cb);
    if k == |lines| {
      assert lines[..k] == lines && lines[k..] == [];
    } else if Fails(lines, k, cb) {
      FailingLine(lines, k, cb);
    }
  }

  /** The parser stops at a failing line. */
  lemma {:induction false} FailingLine(lines: seq<string>, k: nat, cb: seq<Call> -> int)
    requires k < |lines| && Fails(lines, k, cb)
    ensures Parse(lines[k..], SectionAfter(lines[..k]), k, CallsOf(lines[..k]), cb) ==
      if Classify(lines[k]).BadHeader? then Crashed(CallsOf(lines[..k+1]), k + 1)
      else Returned(CallsOf(lines[..k+1]), k + 1)
  {
    assert lines[k..][0] == lines[k];
    assert lines[..k+1][..k] == lines[..k] && lines[..k+1][k] == lines[k];
  }

  /** Line k can be read, and if it is a setting, its call is not refused with a negative number. */
  ghost predicate Passes(lines: seq<string>, k: nat, cb: seq<Call> -> int)
    requires k < |lines|
  {
    && Classify(lines[k]) != NoSeparator && Classify(lines[k]) != BadHeader
    && (Classify(lines[k]).Entry? ==> cb(CallsOf(lines[..k+1])) >= 0)
  }

  lemma PassesIff(lines: seq<string>, k: nat, cb: seq<Call> -> int)
    requires k < |lines|
    ensures Passes(lines, k, cb) <==> !Fails(lines, k, cb)
  {
  }

  /** The result is 0 exactly when every line can be read and the handler refuses no call. */
  lemma {:induction false} ZeroIff(lines: seq<string>, cb: seq<Call> -> int)
    ensures var o := Parse(lines, "", 0, [], cb);
      o.Returned? && o.error == 0 <==> forall k :: 0 <= k < |lines| ==> Passes(lines, k, cb)
  {
    forall k | 0 <= k < |lines| ensures Passes(lines, k, cb) <==> !Fails(lines, k, cb) {
      PassesIff(lines, k, cb);
    }
    NoFailureIff(lines, cb);
  }

  lemma {:induction false} NoFailureIff(lines: seq<string>, cb: seq<Call> -> int)
    ensures var o := Parse(lines, "", 0, [], cb);
      o.Returned? && o.error == 0 <==> forall k :: 0 <= k < |lines| ==> !Fails(lines, k, cb)
  {
    var k := FirstFailure(lines, cb);
    FirstErrorLaw(lines, k, cb);
  }

  lemma FirstFailure(lines: seq<string>, cb: seq<Call> -> int) returns (k: nat)
    ensures k <= |lines| && forall i :: 0 <= i < k ==> !Fails(lines, i, cb)
    ensures k < |lines| ==> Fails(lines, k, cb)
  {
    k := 0;
    while k < |lines| && !Fails(lines, k, cb)
      invariant k <= |lines| && forall i :: 0 <= i < k ==> !Fails(lines, i, cb)
    {
      k := k + 1;
    }
  }

  // ----- printing -----

  datatype Element =
    | Blank(blanks: string)
    | Comment(indent: string, mark: char, text: string)
    | Section(indent: string, name: string, tail: string)
    | Setting(indent: string, name: string, gap1: string, sep: char,
              gap2: string, value: string, gap3: string, remark: string)

  function Print(e: Element): string {
    match e
    case Blank(b) => b + "\n"
    case Comment(indent, mark, text) => indent + ([mark] + text + "\n")
    case Section(indent, name, tail) => indent + ("[" + name + "]" + (tail + "\n"))
    case Setting(indent, name, gap1, sep, gap2, value, gap3, remark) =>
      indent + ((name + gap1) + [sep] + (gap2 + ((value + gap3) + (remark + "\n"))))
  }

  function PrintAll(doc: seq<Element>): string {
    if doc == [] then "" else Print(doc[0]) + PrintAll(doc[1..])
  }

  predicate Trimmed(s: string) {
    s == "" || (!IsSpace(s[0]) && !IsSpace(s[|s|-1]))
  }

  /** Nothing, or a remark that is cut off at its first character: '#' comes before ';'. */
  predicate ValidRemark(value: string, r: string) {
    && '#' !in value
    && (r == "" || r[0] == '#' || (r[0] == ';' && '#' !in r))
    && (r == "" || r[0] == ';' ==> ';' !in value)
  }

  predicate ValidName(name: string, gap: string, sep: char) {
    && Trimmed(name) && '=' !in name && (sep == ':' ==> ':' !in name)
    && (if name == "" then gap == "" else name[0] !in "[;#")
  }

  predicate ValidSetting(e: Element)
    requires e.Setting?
  {
    && AllBlank(e.indent) && AllBlank(e.gap1) && AllBlank(e.gap2) && AllBlank(e.gap3)
    && (e.sep == '=' || e.sep == ':') && ValidName(e.name, e.gap1, e.sep)
    && Trimmed(e.value) && ValidRemark(e.value, e.remark)
    && (e.sep == ':' ==> '=' !in e.value && '=' !in e.remark)
  }

  /** The parts of a line are what they should be. */
  predicate ValidParts(e: Element) {
    match e
    case Blank(b) => AllBlank(b)
    case Comment(indent, mark, _) => AllBlank(indent) && (mark == ';' || mark == '#')
    case Section(indent, name, _) => AllBlank(indent) && ']' !in name
    case Setting(_, _, _, _, _, _, _, _) => ValidSetting(e)
  }

  /** And fgets takes it for one line. */
  predicate Valid(e: Element) {
    ValidParts(e) && |Print(e)| <= MAX_LINE_LEN - 1 && '\n' !in Print(e)[..|Print(e)|-1] && IsText(Print(e))
  }

  /** The line that an element stands for. */
  function Meaning(e: Element): Line {
    match e
    case Blank(_) => Skip
    case Comment(_, _, _) => Skip
    case Section(_, name, _) => Header(SectionName(name))
    case Setting(_, name, _, _, _, value, _, _) => Entry(name, value)
  }

  /** What the parser keeps of the name of a section. */
  function SectionName(name: string): (r: string)
    ensures r <= name && (|r| == 63 || (|r| == |name| && |name| < 63))
  {
    Truncate(name, MAX_SECTION_LEN - 1)
  }

  /** The calls that a document stands for. */
  function Meanings(doc: seq<Element>, section: string): seq<Call> {
    if doc == [] then []
    else
      match doc[0]
      case Section(_, name, _) => Meanings(doc[1..], SectionName(name))
      case Setting(_, name, _, _, _, value, _, _) => [Call(section, name, value)] + Meanings(doc[1..], section)
      case _ => Meanings(doc[1..], section)
  }

  // ----- a printed line is what it stands for -----

  /** Trimming a line whose text starts with a non-blank. */
  lemma TrimLine(indent: string, x: string, y: string)
    requires AllBlank(indent) && x != "" && !IsSpace(x[0]) && !IsSpace(x[|x|-1])
    ensures LTrim(RTrim(indent + (x + y))) == x + RTrim(y)
  {
    assert indent + (x + y) == (indent + x) + y;
    RTrimKeeps(indent + x, y);
    assert (indent + x) + RTrim(y) == indent + (x + RTrim(y));
    LTrimBlanks(indent, x + RTrim(y));
  }

  lemma BlankLine(b: string)
    requires AllBlank(b)
    ensures Classify(b + "\n") == Skip
  {
  }

  lemma CommentLine(indent: string, mark: char, text: string)
    requires AllBlank(indent) && (mark == ';' || mark == '#')
    ensures Classify(indent + ([mark] + text + "\n")) == Skip
  {
    assert [mark] + text + "\n" == [mark] + (text + "\n");
    TrimLine(indent, [mark], text + "\n");
  }

  lemma SectionLine(indent: string, name: string, tail: string)
    requires AllBlank(indent) && ']' !in name
    ensures Classify(indent + ("[" + name + "]" + (tail + "\n"))) == Header(SectionName(name))
  {
    TrimLine(indent, "[" + name + "]", tail + "\n");
    HeaderName(name, RTrim(tail + "\n"));
  }

  lemma HeaderName(name: string, y: string)
    requires ']' !in name
    ensures HeaderOf("[" + name + "]" + y) == Header(SectionName(name))
  {
    var s := "[" + name + "]" + y;
    assert s[1..] == name + ("]" + y);
    RunIs(name, "]" + y, Only(']'));
    assert (name + ("]" + y))[..|name|] == name;
  }

  /** Blanks around a value come off. */
  lemma PlainValue(gap: string, value: string, blanks: string)
    requires AllBlank(gap) && AllBlank(blanks) && Trimmed(value) && '#' !in value && ';' !in value
    ensures ValueOf(RTrim(gap + value + blanks)) == value
  {
    if value == "" {
      assert gap + value + blanks == "" + (gap + blanks);
      RTrimBlanks("", gap + blanks);
    } else {
      RTrimBlanks(gap + value, blanks);
      LTrimBlanks(gap, value);
    }
    NoRemark(value);
  }

  lemma NoRemark(v: string)
    requires '#' !in v && ';' !in v
    ensures CutRemark(v) == v
  {
    RunAt(v, |v|, Only('#'));
    RunAt(v, |v|, Only(';'));
  }

  lemma CutsRemark(head: string, tail: string)
    requires tail != "" && ValidRemark(head, tail)
    ensures CutRemark(head + tail) == head
  {
    assert (head + tail)[..|head|] == head;
    if tail[0] == '#' {
      RunIs(head, tail, Only('#'));
    } else {
      assert head + tail == (head + tail) + "";
      RunIs(head + tail, "", Only('#'));
      RunIs(head, tail, Only(';'));
    }
  }

  /** A remark without the newline and the blanks before it. */
  function RemarkTail(remark: string): string
    requires remark != ""
  {
    [remark[0]] + RTrim(remark[1..] + "\n")
  }

  /** Trimming a line leaves of its remark what is still one. */
  lemma TrimRemark(x: string, value: string, remark: string)
    requires remark != "" && ValidRemark(value, remark)
    ensures RTrim(x + (remark + "\n")) == x + RemarkTail(remark)
    ensures ValidRemark(value, RemarkTail(remark))
  {
    var rest := remark[1..] + "\n";
    assert RTrim(rest) <= rest && ('#' !in remark ==> '#' !in rest);
    assert x + (remark + "\n") == (x + [remark[0]]) + rest;
    RTrimKeeps(x + [remark[0]], rest);
  }

  lemma RemarkedValue(gap2: string, value: string, gap3: string, tail: string)
    requires AllBlank(gap2) && AllBlank(gap3) && Trimmed(value) && tail != "" && ValidRemark(value, tail)
    ensures ValueOf(gap2 + (value + gap3) + tail) == value
  {
    if value == "" {
      assert gap2 + (value + gap3) + tail == (gap2 + gap3) + tail;
      LTrimBlanks(gap2 + gap3, tail);
      assert "" + tail == tail;
      CutsRemark("", tail);
    } else {
      assert gap2 + (value + gap3) + tail == gap2 + ((value + gap3) + tail);
      LTrimBlanks(gap2, (value + gap3) + tail);
      CutsRemark(value + gap3, tail);
      RTrimBlanks(value, gap3);
    }
  }

  lemma Regroup(a: string, b: string, c: string, d: string)
    ensures a + ((b + c) + d) == a + b + (c + d) == (a + (b + c)) + d
  {
  }

  /** The value branch undoes blanks and a remark around a value. */
  lemma ValueLine(gap2: string, value: string, gap3: string, remark: string)
    requires AllBlank(gap2) && AllBlank(gap3) && Trimmed(value) && ValidRemark(value, remark)
    ensures ValueOf(RTrim(gap2 + ((value + gap3) + (remark + "\n")))) == value
  {
    if remark == "" {
      Regroup(gap2, value, gap3, "\n");
      assert remark + "\n" == "\n";
      PlainValue(gap2, value, gap3 + "\n");
    } else {
      Regroup(gap2, value, gap3, remark + "\n");
      TrimRemark(gap2 + (value + gap3), value, remark);
      RemarkedValue(gap2, value, gap3, RemarkTail(remark));
    }
  }

  /** The separator is the one that was printed. */
  lemma SeparatorAt(head: string, sep: char, y: string)
    requires sep == '=' || sep == ':'
    requires '=' !in head && (sep == ':' ==> ':' !in head && '=' !in y)
    ensures Separator(head + [sep] + y) == |head|
  {
    assert head + [sep] + y == head + ([sep] + y);
    if sep == '=' {
      RunIs(head, [sep] + y, Only('='));
    } else {
      var s := head + ([sep] + y);
      assert s == s + "";
      RunIs(s, "", Only('='));
      RunIs(head, [sep] + y, Only(':'));
    }
  }

  /** A line with a head and a separator, with nothing of the head in the way. */
  lemma {:induction false} EntryLine(indent: string, name: string, gap: string, sep: char, y: string)
    requires AllBlank(indent) && AllBlank(gap) && (sep == '=' || sep == ':') && ValidName(name, gap, sep)
    requires sep == ':' ==> '=' !in y
    ensures Classify(indent + ((name + gap) + [sep] + y)) == Entry(name, ValueOf(RTrim(y)))
  {
    var x := name + gap + [sep];
    EntryHead(name, gap, sep);
    TrimLine(indent, x, y);
    assert RTrim(y) <= y;
    EntryParts(name, gap, sep, RTrim(y));
    IsEntry(x, RTrim(y));
  }

  lemma EntryHead(name: string, gap: string, sep: char)
    requires (sep == '=' || sep == ':') && ValidName(name, gap, sep)
    ensures var x := name + gap + [sep];
      x != "" && !IsSpace(x[0]) && x[0] !in "[;#" && !IsSpace(x[|x|-1])
  {
  }

  lemma IsEntry(x: string, y: string)
    requires x != "" && x[0] !in "[;#"
    ensures ClassifyTrimmed(x + y) == EntryOf(x + y)
  {
  }

  lemma EntryParts(name: string, gap: string, sep: char, y: string)
    requires AllBlank(gap) && (sep == '=' || sep == ':') && ValidName(name, gap, sep)
    requires sep == ':' ==> '=' !in y
    ensures EntryOf(name + gap + [sep] + y) == Entry(name, ValueOf(y))
  {
    var head := name + gap;
    var s := head + [sep] + y;
    SeparatorAt(head, sep, y);
    assert s[..|head|] == head && s[|head|+1..] == y;
    RTrimBlanks(name, gap);
  }

  lemma SettingLine(e: Element)
    requires e.Setting? && ValidSetting(e)
    ensures Classify(Print(e)) == Entry(e.name, e.value)
  {
    var y := e.gap2 + ((e.value + e.gap3) + (e.remark + "\n"));
    assert e.sep == ':' ==> '=' !in y;
    EntryLine(e.indent, e.name, e.gap1, e.sep, y);
    ValueLine(e.gap2, e.value, e.gap3, e.remark);
  }

  /** A printed line is read as what it stands for. */
  lemma {:induction false} PrintedLine(e: Element)
    requires ValidParts(e)
    ensures Classify(Print(e)) == Meaning(e)
  {
    match e
    case Blank(b) => BlankLine(b);
    case Comment(indent, mark, text) => CommentLine(indent, mark, text);
    case Section(indent, name, tail) => SectionLine(indent, name, tail);
    case Setting(_, _, _, _, _, _, _, _) => SettingLine(e);
  }

  // ----- every line that can be read is a printed one -----

  /** The blanks that trimming takes off the end. */
  lemma {:induction false} RTrimRest(s: string) returns (gap: string)
    ensures AllBlank(gap) && s == RTrim(s) + gap
    ensures s != "" && !IsSpace(s[0]) ==> RTrim(s) != "" && RTrim(s)[0] == s[0]
    decreases |s|
  {
    if s == "" || !IsSpace(s[|s|-1]) {
      gap := "";
    } else {
      var rest := RTrimRest(s[..|s|-1]);
      gap := rest + [s[|s|-1]];
      OneMoreBlank(s, RTrim(s), rest);
    }
  }

  lemma OneMoreBlank(s: string, t: string, rest: string)
    requires s != "" && s[..|s|-1] == t + rest
    ensures s == t + (rest + [s[|s|-1]])
  {
    assert s == s[..|s|-1] + [s[|s|-1]];
  }

  /** What stands behind the separator: blanks, a value, blanks, and a remark. */
  lemma {:induction false} ValueParts(y: string) returns (gap2: string, value: string, gap3: string, remark: string)
    ensures AllBlank(gap2) && AllBlank(gap3) && Trimmed(value) && ValidRemark(value, remark)
    ensures y == gap2 + ((value + gap3) + remark)
  {
    var n := Run(y, NotSpace);
    RunLaw(y, NotSpace);
    gap2 := y[..n];
    var v := y[n..];
    Rejoin(y, n);
    var cut := CutRemark(v);
    remark := v[|cut|..];
    CutRemarkAt(v);
    Rejoin(v, |cut|);
    value := RTrim(cut);
    gap3 := RTrimRest(cut);
  }

  /** Where a remark is cut off, on characters. */
  lemma {:induction false} CutRemarkAt(v: string)
    ensures CutRemark(v) <= v && '#' !in CutRemark(v)
    ensures var r := v[|CutRemark(v)|..]; ValidRemark(CutRemark(v), r)
  {
    RunLaw(v, Only('#'));
    RunLaw(v, Only(';'));
  }

  /** The name in front of a separator, and the blanks behind it. */
  lemma {:induction false} NameParts(head: string, sep: char) returns (gap: string)
    requires head == "" || (!IsSpace(head[0]) && head[0] !in "[;#")
    requires '=' !in head && (sep == ':' ==> ':' !in head)
    ensures AllBlank(gap) && ValidName(RTrim(head), gap, sep) && head == RTrim(head) + gap
  {
    gap := RTrimRest(head);
  }

  lemma NotInParts(gap2: string, value: string, gap3: string, remark: string, c: char)
    requires c !in gap2 + ((value + gap3) + remark)
    ensures c !in value && c !in remark
  {
  }

  lemma EndsInNewline(a: string, v: string, remark: string)
    ensures a + (v + (remark + "\n")) == a + (v + remark) + "\n"
  {
  }

  /** The line of a setting, put together from its head and what stands behind its separator. */
  lemma SettingPrint(e: Element, head: string, y: string)
    requires e.Setting? && head == e.name + e.gap1 && y == e.gap2 + ((e.value + e.gap3) + e.remark)
    ensures Print(e) == e.indent + (head + [e.sep] + (y + "\n"))
  {
    EndsInNewline(e.gap2, e.value + e.gap3, e.remark);
  }

  /** A line whose text starts at n, with the separator k behind that. */
  lemma {:induction false} SettingParts(line: string, n: nat) returns (e: Element)
    requires n < |line| && AllBlank(line[..n]) && !IsSpace(line[n]) && line[n] !in "[;#"
    requires '=' in line[n..] || ':' in line[n..]
    ensures ValidParts(e) && Print(e) == line + "\n"
  {
    var s := line[n..];
    var k := Separator(s);
    SeparatorIs(s);
    var gap1 := NameParts(s[..k], s[k]);
    var gap2, value, gap3, remark := ValueParts(s[k+1..]);
    if s[k] == ':' { NotInParts(gap2, value, gap3, remark, '='); }
    e := Setting(line[..n], RTrim(s[..k]), gap1, s[k], gap2, value, gap3, remark);
    SplitAtSeparator(line, n, k);
    SettingPrint(e, s[..k], s[k+1..]);
  }

  lemma SeparatorIs(s: string)
    requires '=' in s || ':' in s
    ensures var k := Separator(s); k < |s| && (s[k] == '=' || s[k] == ':') && '=' !in s[..k]
    ensures var k := Separator(s); s[k] == ':' ==> ':' !in s[..k] && '=' !in s[k+1..]
  {
    RunLaw(s, Only('='));
    RunLaw(s, Only(':'));
    RunAllIff(s, Only('='));
    RunAllIff(s, Only(':'));
  }

  lemma SplitAtSeparator(line: string, n: nat, k: nat)
    requires n + k < |line|
    ensures line + "\n" == line[..n] + (line[n..][..k] + [line[n..][k]] + (line[n..][k+1..] + "\n"))
  {
  }

  /** The parts of a line with a header: the name up to the bracket, and what follows it. */
  lemma {:induction false} SectionParts(line: string, n: nat) returns (e: Element)
    requires n < |line| && AllBlank(line[..n]) && line[n] == '[' && ']' in line[n+1..]
    ensures ValidParts(e) && Print(e) == line + "\n"
  {
    var x := line[n+1..];
    var m := Run(x, Only(']'));
    RunLaw(x, Only(']'));
    RunAllIff(x, Only(']'));
    e := Section(line[..n], x[..m], x[m+1..]);
    SplitAtBracket(line, n, m);
  }

  lemma SplitAtBracket(line: string, n: nat, m: nat)
    requires n + 1 + m < |line| && line[n] == '[' && line[n+1..][m] == ']'
    ensures var x := line[n+1..]; line + "\n" == line[..n] + ("[" + x[..m] + "]" + (x[m+1..] + "\n"))
  {
  }

  lemma SplitAtMark(line: string, n: nat)
    requires n < |line|
    ensures line + "\n" == line[..n] + ([line[n]] + line[n+1..] + "\n")
  {
  }

  lemma CommentParts(line: string, n: nat) returns (e: Element)
    requires n < |line| && AllBlank(line[..n]) && (line[n] == ';' || line[n] == '#')
    ensures ValidParts(e) && Print(e) == line + "\n"
  {
    e := Comment(line[..n], line[n], line[n+1..]);
    SplitAtMark(line, n);
  }

  lemma {:induction false} LineParts(line: string, n: nat) returns (e: Element)
    requires n <= |line| && AllBlank(line[..n]) && (n < |line| ==> !IsSpace(line[n]))
    requires Classify(line) != NoSeparator && Classify(line) != BadHeader
    ensures ValidParts(e) && Print(e) == line + "\n"
  {
    ClassifyIff(line, n);
    if n == |line| {
      assert line[..n] == line;
      e := Blank(line);
    } else if line[n] == ';' || line[n] == '#' {
      e := CommentParts(line, n);
    } else if line[n] == '[' {
      e := SectionParts(line, n);
    } else {
      e := SettingParts(line, n);
    }
  }

  /** A line that can be read, whatever stands in it, is a printed element, with or without a newline at
      its end; so PrintedLine says of every line what it is read as. */
  lemma {:induction false} EveryLinePrints(line: string) returns (e: Element)
    requires Classify(line) != NoSeparator && Classify(line) != BadHeader
    ensures ValidParts(e) && Print(e) == line + "\n" && Classify(line) == Meaning(e)
  {
    var n := Run(line, NotSpace);
    RunLaw(line, NotSpace);
    e := LineParts(line, n);
    PrintedLine(e);
    BlankEndIsNothing(line, "\n");
  }

  /** fgets takes a printed document apart into its printed elements. */
  lemma FirstPrintedLine(e: Element, rest: string)
    requires Valid(e)
    ensures LineLength(Print(e) + rest) == |Print(e)|
  {
    var p := Print(e);
    var w := p[..|p|-1];
    assert p == w + "\n" && p + rest == w + ("\n" + rest);
    RunIs(w, "\n" + rest, Only('\n'));
  }

  function Prints(doc: seq<Element>): seq<string> {
    if doc == [] then [] else [Print(doc[0])] + Prints(doc[1..])
  }

  lemma {:induction false} LinesOfPrint(doc: seq<Element>)
    requires forall i :: 0 <= i < |doc| ==> Valid(doc[i])
    ensures Lines(PrintAll(doc)) == Prints(doc)
  {
    if doc != [] {
      var first, rest := Print(doc[0]), PrintAll(doc[1..]);
      FirstPrintedLine(doc[0], rest);
      assert (first + rest)[..|first|] == first && (first + rest)[|first|..] == rest;
      LinesOfPrint(doc[1..]);
    }
  }

  /** The section and the calls behind an element. */
  function Behind(e: Element, section: string, calls: seq<Call>): (string, seq<Call>) {
    match e
    case Section(_, name, _) => (SectionName(name), calls)
    case Setting(_, name, _, _, _, value, _, _) => (section, calls + [Call(section, name, value)])
    case _ => (section, calls)
  }

  /** One printed element, parsed with a handler that accepts everything. */
  lemma {:induction false} ParsePrinted(
    e: Element, rest: seq<string>, section: string, lineno: nat, calls: seq<Call>, cb: seq<Call> -> int)
    requires Valid(e)
    requires forall c :: cb(c) >= 0
    ensures var b := Behind(e, section, calls);
      Parse([Print(e)] + rest, section, lineno, calls, cb) == Parse(rest, b.0, lineno + 1, b.1, cb)
  {
    PrintedLine(e);
    var lines := [Print(e)] + rest;
    assert lines[1..] == rest;
    ParseMeaning(e, lines, section, lineno, calls, cb);
  }

  /** One line that stands for an element. */
  lemma {:induction false} ParseMeaning(
    e: Element, lines: seq<string>, section: string, lineno: nat, calls: seq<Call>, cb: seq<Call> -> int)
    requires lines != [] && Classify(lines[0]) == Meaning(e)
    requires forall c :: cb(c) >= 0
    ensures var b := Behind(e, section, calls);
      Parse(lines, section, lineno, calls, cb) == Parse(lines[1..], b.0, lineno + 1, b.1, cb)
  {
  }

  lemma MeaningsStep(doc: seq<Element>, section: string, calls: seq<Call>)
    requires doc != []
    ensures var b := Behind(doc[0], section, calls);
      calls + Meanings(doc, section) == b.1 + Meanings(doc[1..], b.0)
  {
  }

  /** The lines of a document, parsed with a handler that accepts everything. */
  lemma {:induction false} ParseOfPrints(
    doc: seq<Element>, section: string, lineno: nat, calls: seq<Call>, cb: seq<Call> -> int)
    requires forall i :: 0 <= i < |doc| ==> Valid(doc[i])
    requires forall c :: cb(c) >= 0
    ensures Parse(Prints(doc), section, lineno, calls, cb) == Returned(calls + Meanings(doc, section), 0)
    decreases |doc|
  {
    if doc == [] {
      assert calls + [] == calls;
    } else {
      var b := Behind(doc[0], section, calls);
      ParsePrinted(doc[0], Prints(doc[1..]), section, lineno, calls, cb);
      MeaningsStep(doc, section, calls);
      ParseOfPrints(doc[1..], b.0, lineno + 1, b.1, cb);
    }
  }

  /** Parsing a printed document with a handler that accepts everything calls back exactly what the
      document stands for, in order, and returns 0. */
  lemma {:induction false} IniRoundTrip(doc: seq<Element>, cb: seq<Call> -> int)
    requires forall i :: 0 <= i < |doc| ==> Valid(doc[i])
    requires forall c :: cb(c) >= 0
    ensures ParseFile(PrintAll(doc), cb) == Returned(Meanings(doc, ""), 0)
  {
    LinesOfPrint(doc);
    ParseOfPrints(doc, "", 0, [], cb);
    assert [] + Meanings(doc, "") == Meanings(doc, "");
  }

  // ----- the parser over its line buffer -----

  /** fgets: copies the next line of the file into the buffer, with a terminator. */
  method FGets(line: array<char>, file: string) returns (n: nat)
    requires line.Length == MAX_LINE_LEN && file != "" && IsText(file)
    modifies line
    ensures n == LineLength(file) && Terminated(line[..], 0) && CString(line[..], 0) == file[..n]
  {
    n := 0;
    ghost var text := file;
    while n < |file| && n < MAX_LINE_LEN - 1 && (n == 0 || file[n-1] != '\n')
      invariant n <= |file| && n <= MAX_LINE_LEN - 1
      invariant forall i :: 0 <= i < n - 1 ==> file[i] != '\n'
      invariant line[..n] == file[..n]
    {
      line[n] := file[n];
      n := n + 1;
    }
    line[n] := NUL;
    LineLengthIs(file, n);
    TextSlice(file, 0, n);
    assert line[..][0..n] == file[..n];
    CStringIs(line[..], 0, file[..n]);
  }

  lemma LineLengthIs(file: string, n: nat)
    requires 1 <= n <= |file| && n <= MAX_LINE_LEN - 1 && forall i :: 0 <= i < n - 1 ==> file[i] != '\n'
    requires n == |file| || n == MAX_LINE_LEN - 1 || file[n-1] == '\n'
    ensures LineLength(file) == n
  {
    RunLaw(file, Only('\n'));
  }

  /** The body of the line loop up to the callback: cuts the line up in place. */
  method ReadLine(line: array<char>) returns (kind: Line)
    requires Terminated(line[..], 0)
    modifies line
    ensures kind == Classify(old(CString(line[..], 0)))
  {
    RTrimAt(line, 0);
    var start := LTrimAt(line, 0);
    ghost var s := CString(line[..], start);
    CStringShape(line[..], start);
    if line[start] == ';' || line[start] == '#' {
      return Skip;
    }
    if line[start] == '[' {
      kind := ReadHeader(line, start);
    } else if line[start] != NUL {
      kind := ReadEntry(line, start, s);
    } else {
      kind := Skip;
    }
  }

  method ReadHeader(line: array<char>, start: nat) returns (kind: Line)
    requires Terminated(line[..], start) && CString(line[..], start) != ""
    modifies line
    ensures kind == HeaderOf(old(CString(line[..], start)))
  {
    CStringTail(line[..], start, 1);
    var end := StrChr(line, start + 1, ']');
    if end == -1 {
      return BadHeader;
    }
    CStringCut(line[..], start + 1, end);
    ghost var before := line[..];
    line[end] := NUL;
    assert line[..] == before[end := NUL];
    kind := Header(Truncate(CString(line[..], start + 1), MAX_SECTION_LEN - 1));
  }

  method ReadEntry(line: array<char>, start: nat, ghost s: string) returns (kind: Line)
    requires Terminated(line[..], start) && CString(line[..], start) == s
    modifies line
    ensures kind == EntryOf(s)
  {
    var end := FindSeparator(line, start);
    if end == -1 {
      return NoSeparator;
    }
    kind := ReadCut(line, start, end, s);
  }

  /** The line is cut at the separator, then name and value are trimmed. */
  method ReadCut(line: array<char>, start: nat, end: nat, ghost s: string) returns (kind: Line)
    requires Terminated(line[..], start) && CString(line[..], start) == s && start <= end < start + |s|
    modifies line
    ensures kind == EntryAt(s, end - start)
  {
    CutAt(line, start, end);
    kind := ReadParts(line, start, end);
  }

  /** Writes the terminator over the separator. */
  method CutAt(line: array<char>, start: nat, end: nat)
    requires Terminated(line[..], start) && start <= end < start + |CString(line[..], start)|
    modifies line
    ensures Terminated(line[..], start) && CString(line[..], start) == old(CString(line[..], start))[..end-start]
    ensures Terminated(line[..], end + 1)
    ensures CString(line[..], end + 1) == old(CString(line[..], start))[end-start+1..]
  {
    ghost var before := line[..];
    SplitAt(before, start, end);
    line[end] := NUL;
    assert line[..] == before[end := NUL];
  }

  /** Name and value of a line that has been cut at its separator. */
  method ReadParts(line: array<char>, start: nat, end: nat) returns (kind: Line)
    requires Terminated(line[..], start) && start + |CString(line[..], start)| == end && Terminated(line[..], end + 1)
    modifies line
    ensures kind == Entry(RTrim(old(CString(line[..], start))), ValueOf(old(CString(line[..], end + 1))))
  {
    var name := ReadName(line, start, end);
    var value := ReadValue(line, end + 1);
    kind := Entry(name, value);
  }

  method FindSeparator(line: array<char>, start: nat) returns (end: int)
    requires Terminated(line[..], start)
    ensures var s := CString(line[..], start);
      end == if Separator(s) < |s| then start + Separator(s) else -1
  {
    end := StrChr(line, start, '=');
    if end == -1 {
      end := StrChr(line, start, ':');
    }
  }

  /** rtrim of the name, which ends before `end`. */
  method ReadName(line: array<char>, start: nat, end: nat) returns (name: string)
    requires Terminated(line[..], start) && start + |CString(line[..], start)| == end && Terminated(line[..], end + 1)
    modifies line
    ensures name == RTrim(old(CString(line[..], start)))
    ensures Terminated(line[..], end + 1) && CString(line[..], end + 1) == old(CString(line[..], end + 1))
  {
    ghost var before := line[..];
    RTrimAt(line, start);
    name := CString(line[..], start);
    CStringBehind(before, start + |name|, end + 1);
  }

  /** Cutting at the separator leaves the name in front of it and the rest behind it. */
  lemma SplitAt(buf: seq<char>, s: nat, e: nat)
    requires Terminated(buf, s) && s <= e < s + |CString(buf, s)|
    ensures var t, buf' := CString(buf, s), buf[e := NUL];
      && Terminated(buf', s) && CString(buf', s) == t[..e-s]
      && Terminated(buf', e + 1) && CString(buf', e + 1) == t[e-s+1..]
  {
    CStringCut(buf, s, e);
    CStringTail(buf, s, e - s + 1);
    CStringBehind(buf, e, e + 1);
  }

  method ReadValue(line: array<char>, start: nat) returns (value: string)
    requires Terminated(line[..], start)
    modifies line
    ensures value == ValueOf(old(CString(line[..], start)))
  {
    var from := LTrimAt(line, start);
    CutAtRemark(line, from);
    RTrimAt(line, from);
    value := CString(line[..], from);
  }

  /** Cuts a value off at its remark. */
  method CutAtRemark(line: array<char>, from: nat)
    requires Terminated(line[..], from)
    modifies line
    ensures Terminated(line[..], from) && CString(line[..], from) == CutRemark(old(CString(line[..], from)))
  {
    ghost var v, before := CString(line[..], from), line[..];
    var end := StrChr(line, from, '#');
    if end == -1 {
      end := StrChr(line, from, ';');
    }
    if end != -1 {
      CStringCut(before, from, end);
      line[end] := NUL;
      assert line[..] == before[end := NUL];
    } else {
      assert CutRemark(v) == v[..|v|] == v;
    }
  }

  /** parse_ini: `crashed` stands for the null pointer of a header without a bracket. */
  method ParseIni(file: string, cb: seq<Call> -> int) returns (calls: seq<Call>, error: nat, crashed: bool)
    requires IsText(file)
    ensures ParseFile(file, cb) == if crashed then Crashed(calls, error) else Returned(calls, error)
  {
    var line := new char[MAX_LINE_LEN](_ => NUL);
    var section, rest, lineno := "", file, 0;
    calls, error, crashed := [], 0, false;
    while rest != ""
      invariant IsText(rest)
      invariant ParseFile(file, cb) == Parse(Lines(rest), section, lineno, calls, cb)
      decreases |rest|
    {
      var n := FGets(line, rest);
      LinesStep(rest, section, lineno, calls, cb);
      TextSlice(rest, n, |rest|);
      rest := rest[n..];
      lineno := lineno + 1;
      var kind := ReadLine(line);
      match kind {
        case Skip =>
        case Header(name) => section := name;
        case BadHeader => return calls, lineno, true;
        case NoSeparator => return calls, lineno, false;
        case Entry(name, value) =>
          calls := calls + [Call(section, name, value)];
          if cb(calls) < 0 {
            return calls, lineno, false;
          }
      }
    }
  }

  /** One line of the parser. */
  lemma LinesStep(file: string, section: string, lineno: nat, calls: seq<Call>, cb: seq<Call> -> int)
    requires file != ""
    ensures var n := LineLength(file); var rest := Lines(file[n..]);
      Parse(Lines(file), section, lineno, calls, cb) ==
        match Classify(file[..n])
        case Skip => Parse(rest, section, lineno + 1, calls, cb)
        case Header(name) => Parse(rest, name, lineno + 1, calls, cb)
        case BadHeader => Crashed(calls, lineno + 1)
        case NoSeparator => Returned(calls, lineno + 1)
        case Entry(name, value) =>
          var calls' := calls + [Call(section, name, value)];
          if cb(calls') < 0 then Returned(calls', lineno + 1) else Parse(rest, section, lineno + 1, calls', cb)
  {
  }
}
