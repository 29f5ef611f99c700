/**
  The fence-aware line scan both changelog scripts perform, after section 4.5 of
  CommonMark 0.31.2. The two languages differ in what `.`, `\s` and trimming cover.
 */
module Fences {
  import opened Options
  import opened Text

  datatype Language = TypeScript | Python

  /** What the regular expressions' `.` matches. */
  predicate Dot(lang: Language, c: char) {
    c != '\n' && (lang == TypeScript ==> c != '\r' && c != '\U{2028}' && c != '\U{2029}')
  }

  function Space(lang: Language): char -> bool {
    if lang == TypeScript then JsSpace else PySpace
  }

  /** What may follow the version in a heading: a space for one script, any whitespace for the other. */
  predicate AfterVersion(lang: Language, c: char) {
    if lang == TypeScript then c == ' ' else PySpace(c)
  }

  datatype Fence = Closed | Open(marker: char, length: nat)

  /** Length of the leading run of `c`. */
  function Run(s: string, c: char): (k: nat)
    ensures k <= |s| && (k < |s| ==> s[k] != c) && forall i :: 0 <= i < k ==> s[i] == c
  {
    if s == [] || s[0] != c then 0 else 1 + Run(s[1..], c)
  }

  datatype FenceLine = FenceLine(marker: char, length: nat, suffix: string)

  /** At most three spaces, three or more backticks or tildes, and the rest of the line. */
  function MatchFence(lang: Language, line: string): Option<FenceLine> {
    var k := Run(line, ' ');
    if k > 3 || k == |line| || (line[k] != '`' && line[k] != '~') then None
    else
      var m := Run(line[k..], line[k]);
      var suffix := line[k + m..];
      if m < 3 || exists c <- suffix :: !Dot(lang, c) then None
      else Some(FenceLine(line[k], m, suffix))
  }

  /** Advances the fence state by one line; the flag marks the opener and closer lines themselves. */
  function StepFence(lang: Language, line: string, open: Fence): (Fence, bool) {
    match MatchFence(lang, line)
    case None => (open, false)
    case Some(f) =>
      if open.Closed? then
        if f.marker == '`' && '`' in f.suffix then (open, false)
        else (Open(f.marker, f.length), true)
      else if f.marker == open.marker && f.length >= open.length && Trim(f.suffix, Space(lang)) == ""
      then (Closed, true)
      else (open, false)
  }

  const HEADING := "## "

  datatype Mark = Mark(text: string, isHeading: bool, inFence: bool)

  function MarkOf(lang: Language, line: string, open: Fence): Mark {
    var (next, isFence) := StepFence(lang, line, open);
    Mark(line, next.Closed? && !isFence && HEADING <= line, !next.Closed? || isFence)
  }

  function FenceAfter(lang: Language, lines: seq<string>, open: Fence): Fence {
    if lines == [] then open else FenceAfter(lang, lines[1..], StepFence(lang, lines[0], open).0)
  }

  /** Every line with its place: a level-two heading outside fences, or inside a fence. */
  function Scan(lang: Language, lines: seq<string>, open: Fence): (r: seq<Mark>)
    ensures |r| == |lines|
  {
    if lines == [] then []
    else [MarkOf(lang, lines[0], open)] + Scan(lang, lines[1..], StepFence(lang, lines[0], open).0)
  }

  lemma {:induction false} ScanConcat(lang: Language, a: seq<string>, b: seq<string>, open: Fence)
    ensures Scan(lang, a + b, open) == Scan(lang, a, open) + Scan(lang, b, FenceAfter(lang, a, open))
    ensures FenceAfter(lang, a + b, open) == FenceAfter(lang, b, FenceAfter(lang, a, open))
  {
    hide StepFence, MarkOf;
    if a == [] {
      assert a + b == b;
      assert [] + Scan(lang, b, open) == Scan(lang, b, open);
    } else {
      var next := StepFence(lang, a[0], open).0;
      ScanConcat(lang, a[1..], b, next);
      assert (a + b)[1..] == a[1..] + b && (a + b)[0] == a[0];
      assert [MarkOf(lang, a[0], open)] + (Scan(lang, a[1..], next) + Scan(lang, b, FenceAfter(lang, a[1..], next)))
          == ([MarkOf(lang, a[0], open)] + Scan(lang, a[1..], next)) + Scan(lang, b, FenceAfter(lang, a[1..], next));
    }
  }

  lemma FenceAtStart(lang: Language)
    ensures FenceAfter(lang, [], Closed) == Closed
  {
  }

  lemma FenceNext(lang: Language, lines: seq<string>, open: Fence, i: nat)
    requires i < |lines|
    ensures FenceAfter(lang, lines[..i + 1], open) == StepFence(lang, lines[i], FenceAfter(lang, lines[..i], open)).0
  {
    hide StepFence, Scan;
    ScanConcat(lang, lines[..i], [lines[i]], open);
    assert lines[..i + 1] == lines[..i] + [lines[i]];
  }

  lemma {:induction false} ScanAt(lang: Language, lines: seq<string>, open: Fence, i: nat)
    requires i < |lines|
    ensures Scan(lang, lines, open)[i] == MarkOf(lang, lines[i], FenceAfter(lang, lines[..i], open))
  {
    hide StepFence, MarkOf;
    if i > 0 {
      ScanAt(lang, lines[1..], StepFence(lang, lines[0], open).0, i - 1);
      assert lines[..i][1..] == lines[1..][..i - 1];
    }
  }

  // ---------------------------------------------------------------------------
  // Finding an entry
  // ---------------------------------------------------------------------------

  predicate HeadingWith(line: string, prefix: string, lang: Language) {
    prefix <= line && (|line| == |prefix| || AfterVersion(lang, line[|prefix|]))
  }

  /** `## 1.2.3` or `## [1.2.3]`, the brackets each optional, ended by a space or the line's end. */
  predicate IsVersionHeading(lang: Language, line: string, version: string) {
    || HeadingWith(line, HEADING + version, lang)
    || HeadingWith(line, HEADING + "[" + version, lang)
    || HeadingWith(line, HEADING + version + "]", lang)
    || HeadingWith(line, HEADING + "[" + version + "]", lang)
  }

  predicate Names(lang: Language, m: Mark, version: string) {
    m.isHeading && IsVersionHeading(lang, m.text, version)
  }

  /** The lines up to the next heading. */
  function BodyOf(marks: seq<Mark>): seq<string> {
    if marks == [] || marks[0].isHeading then [] else [marks[0].text] + BodyOf(marks[1..])
  }

  function FindEntry(lang: Language, marks: seq<Mark>, version: string): Option<seq<string>> {
    if marks == [] then None
    else if Names(lang, marks[0], version) then Some(BodyOf(marks[1..]))
    else FindEntry(lang, marks[1..], version)
  }

  /** A version's entry: the body under its first heading, trimmed. */
  function Lookup(lang: Language, content: string, version: string): Option<string> {
    var body :- FindEntry(lang, Scan(lang, Split(content, '\n'), Closed), version);
    Some(Trim(Join(body, '\n'), Space(lang)))
  }

  /** What reading a file as text makes of its line ends: each of `\r\n` and `\r` becomes `\n`. */
  function Universal(s: string): (r: string)
    ensures '\r' !in r
    ensures '\r' !in s ==> r == s
  {
    if s == [] then []
    else if s[0] != '\r' then
      assert s == [s[0]] + s[1..];
      [s[0]] + Universal(s[1..])
    else if |s| > 1 && s[1] == '\n' then Universal(s[1..])
    else ['\n'] + Universal(s[1..])
  }

  /** What the publisher extracts: it reads the file as text first. */
  function Published(content: string, version: string): Option<string> {
    Lookup(Python, Universal(content), version)
  }

  // ---------------------------------------------------------------------------
  // Exactly where the two scripts differ
  // ---------------------------------------------------------------------------

  /** TypeScript's `.` stops at a character of the suffix that Python's does not. */
  predicate Broken(suffix: string) { exists c <- suffix :: !Dot(TypeScript, c) }

  /** The line moves both scripts' fence state alike. */
  predicate SameStep(line: string, open: Fence) {
    match MatchFence(Python, line)
    case None => true
    case Some(f) =>
      if open.Closed? then Broken(f.suffix) ==> f.marker == '`' && '`' in f.suffix
      else
        f.marker == open.marker && f.length >= open.length ==>
          if Broken(f.suffix) then !AllSpace(f.suffix, PySpace)
          else AllSpace(f.suffix, JsSpace) <==> AllSpace(f.suffix, PySpace)
  }

  lemma {:induction false} TrimsToNothing(s: string, sp: char -> bool)
    ensures Trim(s, sp) == "" <==> AllSpace(s, sp)
  {
    if AllSpace(s, sp) {
      assert s + [] == s;
      TrimStartSpace(s, [], sp);
    } else {
      InkStays(s, sp);
    }
  }

  /** Trimming removes no other character. */
  lemma {:induction false} InkStays(s: string, sp: char -> bool)
    requires !AllSpace(s, sp)
    ensures Trim(s, sp) != ""
  {
    if sp(s[0]) {
      assert !AllSpace(s[1..], sp) by { assert s == [s[0]] + s[1..]; }
      InkStays(s[1..], sp);
    } else {
      FirstStays(s, sp);
    }
  }

  lemma {:induction false} FirstStays(s: string, sp: char -> bool)
    requires s != "" && !sp(s[0])
    ensures TrimEnd(s, sp) != ""
  {
    if |s| > 1 && sp(s[|s| - 1]) { FirstStays(s[..|s| - 1], sp); }
  }

  lemma MatchesDiffer(line: string)
    ensures MatchFence(TypeScript, line) ==
      match MatchFence(Python, line)
      case None => None
      case Some(f) => if Broken(f.suffix) then None else Some(f)
  {
    var k := Run(line, ' ');
    if k < |line| {
      var suffix := line[k + Run(line[k..], line[k])..];
      assert forall c :: !Dot(Python, c) ==> !Dot(TypeScript, c);
    }
  }

  /** The step functions agree exactly on those lines and states. */
  lemma StepsAgreeExactly(line: string, open: Fence)
    ensures StepFence(TypeScript, line, open) == StepFence(Python, line, open) <==> SameStep(line, open)
  {
    MatchesDiffer(line);
    hide Trim;
    var f := MatchFence(Python, line);
    if f.Some? {
      TrimsToNothing(f.value.suffix, JsSpace);
      TrimsToNothing(f.value.suffix, PySpace);
    }
  }

  /** A version heading, ended by whitespace that is not a space. */
  predicate OddHeading(line: string, version: string) {
    || OddAfter(line, HEADING + version) || OddAfter(line, HEADING + "[" + version)
    || OddAfter(line, HEADING + version + "]") || OddAfter(line, HEADING + "[" + version + "]")
  }

  predicate OddAfter(line: string, prefix: string) {
    prefix <= line && |prefix| < |line| && PySpace(line[|prefix|]) && line[|prefix|] != ' '
  }

  /** The heading tests agree exactly unless that is the only match. */
  lemma HeadingsAgreeExactly(line: string, version: string)
    ensures IsVersionHeading(TypeScript, line, version) == IsVersionHeading(Python, line, version) <==>
            IsVersionHeading(TypeScript, line, version) || !OddHeading(line, version)
  {
    assert PySpace(' ');
    hide PySpace;
  }

  /** Space to both. */
  function BothSpace(): char -> bool { (c: char) => JsSpace(c) && PySpace(c) }

  /** Whitespace of one language only does not begin or end what both would leave. */
  predicate SameTrim(s: string) {
    var t := Trim(s, BothSpace());
    t == "" || (JsSpace(t[0]) == PySpace(t[0]) && JsSpace(t[|t| - 1]) == PySpace(t[|t| - 1]))
  }

  /** Trimming keeps the last character, and with it the end, unless it is space. */
  lemma {:induction false} LastStays(s: string, sp: char -> bool)
    requires s != "" && !sp(s[|s| - 1])
    ensures Trim(s, sp) != "" && Trim(s, sp)[|Trim(s, sp)| - 1] == s[|s| - 1]
  {
    if sp(s[0]) { LastStays(s[1..], sp); }
  }

  lemma HeadStays(s: string, sp: char -> bool)
    requires s != "" && !sp(s[0])
    ensures Trim(s, sp) != "" && Trim(s, sp)[0] == s[0]
  {
    FirstStays(s, sp);
    TrimEndIsTight(s, sp);
  }

  /** What trimming removes is space on both sides. */
  lemma {:induction false} TrimSplits(s: string, sp: char -> bool) returns (a: string, b: string)
    ensures s == a + Trim(s, sp) + b && AllSpace(a, sp) && AllSpace(b, sp)
  {
    if s != "" && sp(s[0]) {
      a, b := TrimSplits(s[1..], sp);
      a := [s[0]] + a;
      assert s == [s[0]] + s[1..];
    } else {
      a := "";
      b := EndSplits(s, sp);
    }
  }

  lemma {:induction false} EndSplits(s: string, sp: char -> bool) returns (b: string)
    ensures s == TrimEnd(s, sp) + b && AllSpace(b, sp)
  {
    b := "";
    if s != "" && sp(s[|s| - 1]) {
      b := EndSplits(s[..|s| - 1], sp);
      b := b + [s[|s| - 1]];
    }
  }

  lemma TrimInner(s: string, sp: char -> bool)
    requires forall c :: BothSpace()(c) ==> sp(c)
    ensures Trim(s, sp) == Trim(Trim(s, BothSpace()), sp)
  {
    var a, b := TrimSplits(s, BothSpace());
    var t := Trim(s, BothSpace());
    assert s == a + (t + b);
    TrimStartSpace(a, t + b, sp);
    hide TrimStart, TrimEnd;
    TrimSuffix(t, b, sp);
  }

  /** The two ways of trimming agree exactly on those texts. */
  lemma TrimsAgreeExactly(s: string)
    ensures Trim(s, JsSpace) == Trim(s, PySpace) <==> SameTrim(s)
  {
    var t := Trim(s, BothSpace());
    TrimInner(s, JsSpace);
    TrimInner(s, PySpace);
    TrimIsTight(s, BothSpace());
    TrimIsTight(t, JsSpace);
    TrimIsTight(t, PySpace);
    hide Trim, JsSpace, PySpace;
    if t == "" {
      TightIsTrimmed(t, JsSpace);
      TightIsTrimmed(t, PySpace);
    } else if SameTrim(s) {
      TightIsTrimmed(t, JsSpace);
      TightIsTrimmed(t, PySpace);
    } else {
      if !JsSpace(t[0]) { HeadStays(t, JsSpace); }
      if !PySpace(t[0]) { HeadStays(t, PySpace); }
      if !JsSpace(t[|t| - 1]) { LastStays(t, JsSpace); }
      if !PySpace(t[|t| - 1]) { LastStays(t, PySpace); }
    }
  }

  // ---------------------------------------------------------------------------
  // The two scripts read the same entries
  // ---------------------------------------------------------------------------

  /** Line by line, in the state the generator is in, nothing tells the two apart. */
  ghost predicate SameLines(lines: seq<string>, version: string) {
    forall i :: 0 <= i < |lines| ==>
      && SameStep(lines[i], FenceAfter(TypeScript, lines[..i], Closed))
      && (Scan(TypeScript, lines, Closed)[i].isHeading ==>
            IsVersionHeading(TypeScript, lines[i], version) || !OddHeading(lines[i], version))
  }

  /** Nor does a line end, or the end of the entry found. */
  ghost predicate Portable(content: string, version: string) {
    && '\r' !in content && SameLines(Split(content, '\n'), version)
    && var found := FindEntry(TypeScript, Scan(TypeScript, Split(content, '\n'), Closed), version);
       found.Some? ==> SameTrim(Join(found.value, '\n'))
  }

  lemma {:induction false} ScansAgree(lines: seq<string>, open: Fence)
    requires forall i :: 0 <= i < |lines| ==> SameStep(lines[i], FenceAfter(TypeScript, lines[..i], open))
    ensures Scan(TypeScript, lines, open) == Scan(Python, lines, open)
  {
    hide StepFence, SameStep;
    if lines != [] {
      var next := StepFence(TypeScript, lines[0], open).0;
      assert lines[..0] == [] && FenceAfter(TypeScript, [], open) == open;
      assert SameStep(lines[0], FenceAfter(TypeScript, lines[..0], open));
      StepsAgreeExactly(lines[0], open);
      forall i | 0 <= i < |lines[1..]| ensures SameStep(lines[1..][i], FenceAfter(TypeScript, lines[1..][..i], next)) {
        assert lines[..i + 1][1..] == lines[1..][..i] && lines[..i + 1][0] == lines[0];
        assert SameStep(lines[i + 1], FenceAfter(TypeScript, lines[..i + 1], open));
      }
      ScansAgree(lines[1..], next);
    }
  }

  lemma {:induction false} FindsAgree(marks: seq<Mark>, version: string)
    requires forall m <- marks :: m.isHeading ==>
      IsVersionHeading(TypeScript, m.text, version) || !OddHeading(m.text, version)
    ensures FindEntry(TypeScript, marks, version) == FindEntry(Python, marks, version)
  {
    hide IsVersionHeading, OddHeading;
    if marks != [] {
      assert marks[0] in marks;
      HeadingsAgreeExactly(marks[0].text, version);
      FindsAgree(marks[1..], version);
    }
  }

  /** Then generator and publisher find the same entry, or none. */
  lemma LookupsAgree(content: string, version: string)
    requires Portable(content, version)
    ensures Lookup(TypeScript, content, version) == Published(content, version)
  {
    hide Scan, FindEntry, Split, Join, Trim, SameStep, SameTrim, IsVersionHeading, OddHeading, FenceAfter;
    var lines := Split(content, '\n');
    ScansAgree(lines, Closed);
    var marks := Scan(TypeScript, lines, Closed);
    forall m <- marks ensures m.isHeading ==>
      IsVersionHeading(TypeScript, m.text, version) || !OddHeading(m.text, version)
    {
      var i :| 0 <= i < |marks| && marks[i] == m;
      ScanAt(TypeScript, lines, Closed, i);
    }
    FindsAgree(marks, version);
    var found := FindEntry(TypeScript, marks, version);
    if found.Some? { TrimsAgreeExactly(Join(found.value, '\n')); }
  }

  // ---------------------------------------------------------------------------
  // Everyday text
  // ---------------------------------------------------------------------------

  /** Text whose whitespace is spaces, newlines and, anywhere but in a version heading, tabs. */
  predicate PlainText(s: string) {
    forall c <- s :: JsSpace(c) || PySpace(c) ==> c == ' ' || c == '\n' || c == '\t'
  }

  predicate NoTabInHeading(line: string) { HEADING <= line ==> '\t' !in line }

  lemma PlainChar(c: char)
    requires JsSpace(c) || PySpace(c) ==> c == ' ' || c == '\n' || c == '\t'
    ensures JsSpace(c) == PySpace(c)
    ensures c != '\n' ==> Dot(TypeScript, c)
    ensures PySpace(c) && c != ' ' && c != '\n' ==> c == '\t'
  {
  }

  lemma PlainStep(line: string, open: Fence)
    requires PlainText(line) && '\n' !in line
    ensures SameStep(line, open)
  {
    var f := MatchFence(Python, line);
    if f.Some? {
      SuffixChars(line, f.value);
      forall c <- f.value.suffix ensures Dot(TypeScript, c) && JsSpace(c) == PySpace(c) { PlainChar(c); }
    }
  }

  lemma SuffixChars(line: string, f: FenceLine)
    requires MatchFence(Python, line) == Some(f)
    ensures forall c <- f.suffix :: c in line
  {
  }

  lemma PlainHeading(line: string, version: string)
    requires PlainText(line) && '\n' !in line && NoTabInHeading(line) && HEADING <= line
    ensures !OddHeading(line, version)
  {
    forall c <- line ensures PySpace(c) ==> c == ' ' { PlainChar(c); }
    hide PySpace;
  }

  lemma PlainTrim(s: string)
    requires PlainText(s)
    ensures SameTrim(s)
  {
    forall c <- s ensures JsSpace(c) == PySpace(c) { PlainChar(c); }
    TrimIsTight(s, BothSpace());
  }

  lemma {:induction false} ScanTexts(lang: Language, lines: seq<string>, open: Fence)
    ensures forall m <- Scan(lang, lines, open) :: m.text in lines
  {
    hide StepFence;
    if lines != [] {
      ScanTexts(lang, lines[1..], StepFence(lang, lines[0], open).0);
    }
  }

  lemma {:induction false} BodyTexts(lang: Language, marks: seq<Mark>, version: string)
    ensures forall t <- BodyOf(marks) :: exists m <- marks :: m.text == t
    ensures FindEntry(lang, marks, version).Some? ==>
              forall t <- FindEntry(lang, marks, version).value :: exists m <- marks :: m.text == t
  {
    hide IsVersionHeading;
    if marks != [] {
      BodyTexts(lang, marks[1..], version);
    }
  }

  lemma {:induction false} SplitChars(s: string, c: char)
    ensures forall l <- Split(s, c) :: forall d <- l :: d in s
  {
    if s != [] {
      SplitChars(s[1..], c);
      var rest := Split(s[1..], c);
      forall l, d | l in Split(s, c) && d in l ensures d in s {
        if l in rest {
          assert d in s[1..];
        } else if l != [] {
          assert l == [s[0]] + rest[0] && rest[0] in rest;
          assert d == s[0] || d in s[1..];
        }
      }
    }
  }

  lemma {:induction false} JoinChars(lines: seq<string>, c: char)
    ensures forall d <- Join(lines, c) :: d == c || exists l <- lines :: d in l
  {
    if |lines| > 1 {
      JoinChars(lines[1..], c);
      assert lines[0] in lines;
    } else if |lines| == 1 {
      assert lines[0] in lines;
    }
  }

  /** Such a changelog reads alike in both languages. */
  lemma PlainIsPortable(content: string, version: string)
    requires PlainText(content) && forall line <- Split(content, '\n') :: NoTabInHeading(line)
    ensures Portable(content, version)
  {
    hide Scan, FindEntry, Split, Join, Trim, SameStep, SameTrim, OddHeading, IsVersionHeading, FenceAfter;
    hide NoTabInHeading;
    var lines := Split(content, '\n');
    SplitChars(content, '\n');
    forall line <- lines ensures PlainText(line) {}
    forall i | 0 <= i < |lines|
      ensures SameStep(lines[i], FenceAfter(TypeScript, lines[..i], Closed))
      ensures Scan(TypeScript, lines, Closed)[i].isHeading ==> !OddHeading(lines[i], version)
    {
      assert lines[i] in lines;
      PlainStep(lines[i], FenceAfter(TypeScript, lines[..i], Closed));
      ScanAt(TypeScript, lines, Closed, i);
      if HEADING <= lines[i] { PlainHeading(lines[i], version); }
    }
    var marks := Scan(TypeScript, lines, Closed);
    ScanTexts(TypeScript, lines, Closed);
    var found := FindEntry(TypeScript, marks, version);
    if found.Some? {
      BodyTexts(TypeScript, marks, version);
      JoinChars(found.value, '\n');
      var body := Join(found.value, '\n');
      forall c <- body ensures JsSpace(c) || PySpace(c) ==> c == ' ' || c == '\n' || c == '\t' {
        if c != '\n' {
          var l :| l in found.value && c in l;
          assert l in lines;
        }
      }
      PlainTrim(body);
    }
  }

  // ---------------------------------------------------------------------------
  // Texts the two scripts read differently
  // ---------------------------------------------------------------------------

  /** A fence line that ends in a line separator is a fence to one script only. */
  lemma SeparatorSplitsThem(line: string)
    requires line == "```\U{2028}"
    ensures StepFence(TypeScript, line, Closed) == (Closed, false)
    ensures StepFence(Python, line, Closed) == (Open('`', 3), true)
  {
    var suffix := "\U{2028}";
    FenceOfThree(line, suffix);
    assert !Dot(TypeScript, suffix[0]) && suffix[0] in suffix && Dot(Python, suffix[0]);
    assert '`' !in suffix;
  }

  lemma FenceOfThree(line: string, suffix: string)
    requires line == "```" + suffix && (suffix == "" || suffix[0] != '`')
    ensures Run(line, ' ') == 0 && line[0..] == line && Run(line, '`') == 3 && line[3..] == suffix
    ensures line != "" && line[0] == '`'
  {
    assert line[1..] == "``" + suffix && line[1..][1..] == "`" + suffix && line[1..][1..][1..] == suffix;
  }

  /** So an entry below it is there for the generator and gone for the publisher. */
  lemma SeparatorHidesAnEntry(fence: string, heading: string)
    requires fence == "```\U{2028}" && heading == "## 2"
    ensures Lookup(TypeScript, fence + "\n" + heading, "2") == Some("")
    ensures Published(fence + "\n" + heading, "2") == None
  {
    SeparatorSplitsThem(fence);
    HeadingOfTwo(heading);
    FenceFacts(fence);
    hide *;
    HiddenBelow(fence, heading, "2");
  }

  lemma FenceFacts(fence: string)
    requires fence == "```\U{2028}"
    ensures '\r' !in fence && '\n' !in fence && !(HEADING <= fence)
  {
    assert fence[0] == '`';
  }

  lemma HeadingOfTwo(heading: string)
    requires heading == "## 2"
    ensures HEADING <= heading && '\r' !in heading && '\n' !in heading
    ensures IsVersionHeading(TypeScript, heading, "2") && IsVersionHeading(Python, heading, "2")
  {
    assert HEADING + "2" == heading;
  }

  lemma HiddenBelow(fence: string, heading: string, version: string)
    requires '\r' !in fence + heading && '\n' !in fence + heading && HEADING <= heading && !(HEADING <= fence)
    requires StepFence(TypeScript, fence, Closed).0 == Closed && StepFence(Python, fence, Closed).0 != Closed
    requires IsVersionHeading(TypeScript, heading, version)
    ensures Lookup(TypeScript, fence + "\n" + heading, version) == Some("")
    ensures Published(fence + "\n" + heading, version) == None
  {
    hide StepFence, IsVersionHeading, Lookup;
    TwoLineLookup(TypeScript, fence, heading, version);
    TwoLineLookup(Python, fence, heading, version);
  }

  /** A lone carriage return ends a line for the publisher only: it finds an entry the generator does not see. */
  lemma LoneReturnMakesAHeading(first: string, heading: string)
    requires first == "x" && heading == "## 2"
    ensures Lookup(TypeScript, first + "\r" + heading, "2") == None
    ensures Published(first + "\r" + heading, "2") == Some("")
  {
    HeadingOfTwo(heading);
    assert StepFence(Python, first, Closed) == (Closed, false) by { assert Run(first, ' ') == 0; }
    assert !(HEADING <= first) && '\r' !in first && '\n' !in first;
    hide StepFence, IsVersionHeading, Lookup;
    assert (first + "\r" + heading)[0] == 'x';
    OneLineLookup(first + "\r" + heading, "2");
    ReturnTranslated(first, heading);
    TwoLineLookup(Python, first, heading, "2");
  }

  lemma OneLineLookup(line: string, version: string)
    requires '\n' !in line && !(HEADING <= line)
    ensures Lookup(TypeScript, line, version) == None
  {
    hide StepFence, IsVersionHeading;
    var marks := Scan(TypeScript, [line], Closed);
    assert Split(line, '\n') == [line];
    assert [line][1..] == [] && marks == [MarkOf(TypeScript, line, Closed)] && marks[1..] == [];
    assert FindEntry(TypeScript, [], version) == None;
  }

  lemma {:induction false} ReturnTranslated(a: string, b: string)
    requires '\r' !in a && '\r' !in b && (b == "" || b[0] != '\n')
    ensures Universal(a + "\r" + b) == a + "\n" + b
  {
    var s := a + "\r" + b;
    if a == "" {
      assert s[1..] == b;
    } else {
      assert s[1..] == a[1..] + "\r" + b && s[0] == a[0] && a[0] in a;
      ReturnTranslated(a[1..], b);
      assert [a[0]] + (a[1..] + "\n" + b) == a + "\n" + b;
    }
  }

  lemma TwoLineLookup(lang: Language, first: string, heading: string, version: string)
    requires '\n' !in first && '\n' !in heading && HEADING <= heading && !(HEADING <= first)
    ensures Lookup(lang, first + "\n" + heading, version) ==
            if StepFence(lang, first, Closed).0.Closed? && IsVersionHeading(lang, heading, version)
            then Some("") else None
  {
    hide StepFence, IsVersionHeading, Split;
    var next := StepFence(lang, first, Closed).0;
    SplitConcat(first, heading, '\n');
    assert Split(first, '\n') == [first] && Split(heading, '\n') == [heading];
    assert [first] + [heading] == [first, heading];
    HashSteps(heading, next);
    TwoMarks(lang, first, heading, Closed);
    var marks := Scan(lang, [first, heading], Closed);
    assert marks[1..] == [marks[1]] && marks[1..][1..] == [];
    assert FindEntry(lang, marks, version) == FindEntry(lang, marks[1..], version);
    assert FindEntry(lang, [], version) == None && BodyOf([]) == [];
    assert FindEntry(lang, marks[1..], version) == if Names(lang, marks[1], version) then Some([]) else None;
    assert Join([], '\n') == "" && Trim("", Space(lang)) == "";
  }

  lemma TwoMarks(lang: Language, a: string, b: string, open: Fence)
    ensures Scan(lang, [a, b], open) == [MarkOf(lang, a, open), MarkOf(lang, b, StepFence(lang, a, open).0)]
  {
    hide StepFence, MarkOf;
    assert [a, b][1..] == [b] && [b][1..] == [];
  }

  lemma HashSteps(line: string, open: Fence)
    requires HEADING <= line
    ensures StepFence(TypeScript, line, open) == (open, false) && StepFence(Python, line, open) == (open, false)
  {
    assert line[0] == '#';
    assert Run(line, ' ') == 0;
  }

  /** And a version heading ended by a line separator is one to the publisher only. */
  lemma SeparatorEndsAHeading(line: string)
    requires line == "## 2\U{2028}"
    ensures !IsVersionHeading(TypeScript, line, "2") && IsVersionHeading(Python, line, "2")
  {
    assert HEADING + "2" == "## 2" <= line && |HEADING + "2"| == 4 && line[4] == '\U{2028}';
    assert HEADING + "[2" == "## [2" && HEADING + "2]" == "## 2]" && HEADING + "[2]" == "## [2]";
    assert !("## [2" <= line) && !("## 2]" <= line) && !("## [2]" <= line);
  }
}
