/**
  The lines the changelog scripts give a meaning to, as the forms they are written in: fences,
  version headings, Unreleased headings and headings to be demoted; and where an entry goes.
 */
module ChangelogLines {
  import opened Options
  import opened Text
  import opened Fences
  import opened Changelog
  import opened ChangelogInsert
  import opened ChangelogRoundTrip

  function Repeat(c: char, n: nat): (s: string)
    ensures |s| == n && forall i :: 0 <= i < n ==> s[i] == c
  {
    if n == 0 then "" else [c] + Repeat(c, n - 1)
  }

  lemma {:induction false} RunOf(c: char, n: nat, rest: string)
    requires rest == "" || rest[0] != c
    ensures Run(Repeat(c, n) + rest, c) == n
    ensures (Repeat(c, n) + rest)[n..] == rest
  {
  }

  lemma RunIsRepeat(s: string, c: char)
    ensures s == Repeat(c, Run(s, c)) + s[Run(s, c)..]
  {
  }

  // ---------------------------------------------------------------------------
  // Characters
  // ---------------------------------------------------------------------------

  /** The separators of Unicode, and the control characters from tab to carriage return. */
  predicate CommonSpace(n: int) {
    || 9 <= n <= 13 || n == 32 || n == 160 || n == 5760 || 8192 <= n <= 8202
    || n == 8232 || n == 8233 || n == 8239 || n == 8287 || n == 12288
  }

  /**
    By code point: what each language trims, and what the dot of a pattern matches. JavaScript adds
    the byte order mark, Python the four information separators and the next-line character.
   */
  lemma CharactersAre(c: char)
    ensures JsSpace(c) <==> CommonSpace(c as int) || c as int == 65279
    ensures PySpace(c) <==> CommonSpace(c as int) || 28 <= c as int <= 31 || c as int == 133
    ensures Dot(TypeScript, c) <==> c as int !in {10, 13, 8232, 8233}
    ensures Dot(Python, c) <==> c as int != 10
  {
  }

  // ---------------------------------------------------------------------------
  // Fences
  // ---------------------------------------------------------------------------

  /** Up to three spaces, three or more backticks or tildes, and a rest of one line that does not go on with them. */
  ghost predicate FenceForm(lang: Language, line: string, c: char, n: nat, rest: string) {
    && (c == '`' || c == '~') && n >= 3 && (rest == "" || rest[0] != c)
    && (forall d <- rest :: Dot(lang, d))
    && exists k :: 0 <= k <= 3 && line == Repeat(' ', k) + (Repeat(c, n) + rest)
  }

  /** A line matches as a fence exactly if it has that form. */
  lemma FenceExactly(lang: Language, line: string, c: char, n: nat, rest: string)
    ensures MatchFence(lang, line) == Some(FenceLine(c, n, rest)) <==> FenceForm(lang, line, c, n, rest)
  {
    hide MatchFence;
    if FenceForm(lang, line, c, n, rest) {
      var k :| 0 <= k <= 3 && line == Repeat(' ', k) + (Repeat(c, n) + rest);
      FenceReads(lang, line, c, n, rest, k);
    }
    if MatchFence(lang, line) == Some(FenceLine(c, n, rest)) {
      FenceIs(lang, line, FenceLine(c, n, rest));
    }
  }

  /** A run is written out, and another character follows it. */
  lemma RunEnds(s: string, c: char)
    ensures var n := Run(s, c); var rest := s[n..];
      s == Repeat(c, n) + rest && (rest == "" || rest[0] != c)
  {
    RunIsRepeat(s, c);
    assert Run(s, c) < |s| ==> s[Run(s, c)..][0] == s[Run(s, c)];
  }

  lemma FenceIs(lang: Language, line: string, f: FenceLine)
    requires MatchFence(lang, line) == Some(f)
    ensures FenceForm(lang, line, f.marker, f.length, f.suffix)
  {
    hide Dot, Run, Repeat;
    var k := Run(line, ' ');
    var body := line[k..];
    RunEnds(line, ' ');
    RunEnds(body, line[k]);
    assert body[f.length..] == f.suffix;
    hide MatchFence;
    assert line == Repeat(' ', k) + (Repeat(f.marker, f.length) + f.suffix);
  }

  lemma FenceReads(lang: Language, line: string, c: char, n: nat, rest: string, k: nat)
    requires (c == '`' || c == '~') && n >= 3 && (rest == "" || rest[0] != c) && k <= 3
    requires (forall d <- rest :: Dot(lang, d)) && line == Repeat(' ', k) + (Repeat(c, n) + rest)
    ensures MatchFence(lang, line) == Some(FenceLine(c, n, rest))
  {
    hide Run, Dot;
    var body := Repeat(c, n) + rest;
    assert body[0] == c;
    RunOf(' ', k, body);
    RunOf(c, n, rest);
    assert line[k] == c && line[k..] == body;
    assert line[k + n..] == body[n..];
  }

  /** A line that opens a block of `n` times `c`: an info string may follow, without backticks after backticks. */
  ghost predicate Opens(lang: Language, line: string, c: char, n: nat) {
    exists info :: FenceForm(lang, line, c, n, info) && (c == '`' ==> '`' !in info)
  }

  /** A line that closes such a block: as many marks or more, and nothing else but space. */
  ghost predicate Closes(lang: Language, line: string, c: char, n: nat) {
    exists m, rest :: m >= n && FenceForm(lang, line, c, m, rest) && AllSpace(rest, Space(lang))
  }

  lemma OneForm(lang: Language, line: string, c: char, n: nat, rest: string, c': char, n': nat, rest': string)
    requires FenceForm(lang, line, c, n, rest) && FenceForm(lang, line, c', n', rest')
    ensures c == c' && n == n' && rest == rest'
  {
    hide FenceForm;
    FenceExactly(lang, line, c, n, rest);
    FenceExactly(lang, line, c', n', rest');
  }

  /** Outside a block a line is an opener or nothing; inside one it is its closer or nothing. */
  lemma StepExactly(lang: Language, line: string, open: Fence)
    ensures open.Closed? ==> forall c, n ::
      Opens(lang, line, c, n) <==> StepFence(lang, line, open) == (Open(c, n), true)
    ensures open.Closed? && (forall c, n :: !Opens(lang, line, c, n)) ==> StepFence(lang, line, open) == (open, false)
    ensures open.Open? ==>
      StepFence(lang, line, open) ==
        if Closes(lang, line, open.marker, open.length) then (Closed, true) else (open, false)
  {
    hide MatchFence, FenceForm, Trim;
    var found := MatchFence(lang, line);
    forall c, n, rest: string
      ensures FenceForm(lang, line, c, n, rest) <==> found == Some(FenceLine(c, n, rest))
    {
      FenceExactly(lang, line, c, n, rest);
    }
    if found.Some? {
      var f := found.value;
      assert FenceForm(lang, line, f.marker, f.length, f.suffix);
      TrimsToNothing(f.suffix, Space(lang));
    }
  }

  // ---------------------------------------------------------------------------
  // Line ends
  // ---------------------------------------------------------------------------

  lemma {:induction false} LinePasses(line: string, tail: string)
    requires '\r' !in line
    ensures Universal(line + tail) == line + Universal(tail)
  {
    if line == "" {
      assert line + tail == tail;
    } else {
      assert line[0] in line && (line + tail)[1..] == line[1..] + tail;
      LinePasses(line[1..], tail);
    }
  }

  /** The publisher reads every line end as a newline: a newline, a carriage return, or the two together. */
  lemma LineEndIsNewline(line: string, end: string, rest: string)
    requires '\r' !in line && '\n' !in line && (end == "\n" || end == "\r\n" || end == "\r")
    requires end == "\r" ==> rest == "" || rest[0] != '\n'
    ensures Universal(line + (end + rest)) == line + ("\n" + Universal(rest))
  {
    hide Universal;
    LinePasses(line, end + rest);
    EndIsNewline(end, rest);
  }

  lemma EndIsNewline(end: string, rest: string)
    requires end == "\n" || end == "\r\n" || end == "\r"
    requires end == "\r" ==> rest == "" || rest[0] != '\n'
    ensures Universal(end + rest) == "\n" + Universal(rest)
  {
    var s := end + rest;
    if end == "\r\n" {
      assert s[1..] == "\n" + rest;
      LinePasses("\n", rest);
    } else {
      assert s[1..] == rest;
    }
  }

  // ---------------------------------------------------------------------------
  // Headings
  // ---------------------------------------------------------------------------

  /**
    `## ` and the word, with or without a bracket on either side, then the line's end or a character
    `after` allows.
   */
  ghost predicate HeadingForm(line: string, word: string, after: char -> bool) {
    exists open, close, rest :: HeadingParts(line, open, word, close, rest, after)
  }

  predicate HeadingParts(line: string, open: string, word: string, close: string, rest: string, after: char -> bool) {
    && (open == "" || open == "[") && (close == "" || close == "]") && (rest == "" || after(rest[0]))
    && line == "## " + open + word + close + rest
  }

  function After(lang: Language): char -> bool { (c: char) => AfterVersion(lang, c) }

  /** The prefix test behind both heading patterns. */
  predicate EndsAfter(line: string, prefix: string, after: char -> bool) {
    prefix <= line && (|line| == |prefix| || after(line[|prefix|]))
  }

  lemma FormIsPrefixes(line: string, word: string, after: char -> bool)
    ensures HeadingForm(line, word, after) <==>
      || EndsAfter(line, "## " + word, after) || EndsAfter(line, "## " + "[" + word, after)
      || EndsAfter(line, "## " + word + "]", after) || EndsAfter(line, "## " + "[" + word + "]", after)
  {
    if HeadingForm(line, word, after) {
      FormHasPrefix(line, word, after);
    }
    PartsFrom(line, "", word, "", after);
    PartsFrom(line, "[", word, "", after);
    PartsFrom(line, "", word, "]", after);
    PartsFrom(line, "[", word, "]", after);
    assert "## " + "" + word + "" == "## " + word && "## " + "[" + word + "" == "## " + "[" + word;
    assert "## " + "" + word + "]" == "## " + word + "]";
  }

  lemma PartsFrom(line: string, open: string, word: string, close: string, after: char -> bool)
    requires (open == "" || open == "[") && (close == "" || close == "]")
    ensures EndsAfter(line, "## " + open + word + close, after) ==> HeadingForm(line, word, after)
  {
    var prefix := "## " + open + word + close;
    if EndsAfter(line, prefix, after) {
      assert line == prefix + line[|prefix|..];
      assert HeadingParts(line, open, word, close, line[|prefix|..], after);
    }
  }

  lemma FormHasPrefix(line: string, word: string, after: char -> bool)
    requires HeadingForm(line, word, after)
    ensures
      || EndsAfter(line, "## " + word, after) || EndsAfter(line, "## " + "[" + word, after)
      || EndsAfter(line, "## " + word + "]", after) || EndsAfter(line, "## " + "[" + word + "]", after)
  {
    var open, close, rest :| HeadingParts(line, open, word, close, rest, after);
    var prefix := "## " + open + word + close;
    assert EndsAfter(line, prefix, after) by { assert line == prefix + rest; }
    assert open == "" ==> "## " + open + word == "## " + word;
    assert close == "" ==> prefix == "## " + open + word;
  }

  /** `## 1.2.3`, `## [1.2.3]` and what may follow. */
  lemma VersionHeadingExactly(lang: Language, line: string, version: string)
    ensures IsVersionHeading(lang, line, version) <==> HeadingForm(line, version, After(lang))
  {
    FormIsPrefixes(line, version, After(lang));
  }

  const SMALL := "unreleased"
  const CAPITAL := "UNRELEASED"

  /** The word, each letter small or capital. */
  predicate SaysUnreleased(word: string) {
    |word| == 10 && forall i :: 0 <= i < 10 ==> word[i] == SMALL[i] || word[i] == CAPITAL[i]
  }

  /** A heading of the word Unreleased, in brackets or not, ended by whitespace or the line's end. */
  ghost predicate UnreleasedForm(line: string) {
    exists word :: SaysUnreleased(word) && HeadingForm(line, word, JsSpace)
  }

  lemma {:induction false} LowerAt(s: string, i: nat)
    requires i < |s|
    ensures Lower(s)[i] == LowerChar(s[i])
  {
    if i > 0 { LowerAt(s[1..], i - 1); }
  }

  lemma {:induction false} LowerConcat(a: string, b: string)
    ensures Lower(a + b) == Lower(a) + Lower(b)
  {
    if a == "" {
      assert a + b == b;
    } else {
      LowerConcat(a[1..], b);
      assert (a + b)[1..] == a[1..] + b;
    }
  }

  lemma LowerSays(word: string)
    ensures Lower(word) == SMALL <==> SaysUnreleased(word)
  {
    forall i | 0 <= i < |word| ensures Lower(word)[i] == LowerChar(word[i]) {
      LowerAt(word, i);
    }
    if |word| == 10 {
      forall i | 0 <= i < 10
        ensures LowerChar(word[i]) == SMALL[i] <==> word[i] == SMALL[i] || word[i] == CAPITAL[i]
      {
        LetterSays(word[i], i);
      }
      if SaysUnreleased(word) { assert Lower(word) == SMALL; }
    }
  }

  lemma LetterSays(c: char, i: nat)
    requires i < 10
    ensures LowerChar(c) == SMALL[i] <==> c == SMALL[i] || c == CAPITAL[i]
  {
    assert SMALL[i] == CAPITAL[i] - 'A' + 'a' && 'A' <= CAPITAL[i] <= 'Z';
  }

  lemma Punctuation()
    ensures Lower("## ") == "## " && Lower("[") == "[" && Lower("]") == "]" && Lower("") == ""
  {
    assert "## "[1..] == "# " && "# "[1..] == " " && " "[1..] == "" && "["[1..] == "" && "]"[1..] == "";
  }

  /** A lower-cased prefix around the word is the same prefix around the word in some case. */
  lemma PrefixSays(line: string, open: string, close: string)
    requires (open == "" || open == "[") && (close == "" || close == "]")
    ensures UnreleasedWith(line, "## " + open + SMALL + close) <==>
      exists word :: SaysUnreleased(word) && EndsAfter(line, "## " + open + word + close, JsSpace)
  {
    hide JsSpace, Lower, SaysUnreleased, LowerChar;
    var k := 3 + |open|;
    var all := "## " + open + SMALL + close;
    if UnreleasedWith(line, all) {
      var word := line[k..k + 10];
      var head, tail := line[..k], line[k + 10..|all|];
      assert line[..|all|] == head + word + tail;
      LowerParts(line, head, word, tail);
      LowerSays(word);
      var low := Lower(head) + Lower(word) + Lower(tail);
      assert low == all && low[..k] == Lower(head) && low[k..k + 10] == Lower(word) && low[k + 10..] == Lower(tail);
      assert all[..k] == "## " + open && all[k..k + 10] == SMALL && all[k + 10..] == close;
      SamePunctuation(head, "## " + open);
      SamePunctuation(tail, close);
      assert line[..|all|] == "## " + open + word + close;
      assert EndsAfter(line, "## " + open + word + close, JsSpace);
    }
    if word :| SaysUnreleased(word) && EndsAfter(line, "## " + open + word + close, JsSpace) {
      var prefix := "## " + open + word + close;
      assert |word| == 10 by { LowerSays(word); }
      LowerParts(line, "## " + open, word, close);
      LowerSays(word);
      LowerConcat("## ", open);
      Punctuation();
      assert Lower(line)[..|all|] == all;
      assert |prefix| == |all| && all <= Lower(line);
    }
  }

  lemma LowerParts(line: string, a: string, b: string, c: string)
    requires a + b + c <= line
    ensures Lower(line)[..|a + b + c|] == Lower(a) + Lower(b) + Lower(c)
  {
    hide Lower;
    var k := |a + b + c|;
    assert line == a + b + c + line[k..];
    LowerConcat(a + b + c, line[k..]);
    LowerConcat(a + b, c);
    LowerConcat(a, b);
  }

  /** Lower-casing makes a hash, a space or a bracket of nothing else. */
  lemma SamePunctuation(s: string, p: string)
    requires Lower(s) == p && forall c <- p :: c == '#' || c == ' ' || c == '[' || c == ']'
    ensures s == p
  {
    forall i | 0 <= i < |s| ensures s[i] == p[i] {
      LowerAt(s, i);
      assert p[i] in p;
    }
  }

  /** The pattern, flag and all, accepts exactly such headings. */
  lemma UnreleasedExactly(line: string)
    ensures IsUnreleasedHeading(line) <==> UnreleasedForm(line)
  {
    hide UnreleasedWith, SaysUnreleased, HeadingForm, EndsAfter;
    PrefixSays(line, "", "");
    PrefixSays(line, "[", "");
    PrefixSays(line, "", "]");
    PrefixSays(line, "[", "]");
    PatternPrefixes();
    forall word: string ensures HeadingForm(line, word, JsSpace) <==>
      || EndsAfter(line, "## " + "" + word + "", JsSpace) || EndsAfter(line, "## " + "[" + word + "", JsSpace)
      || EndsAfter(line, "## " + "" + word + "]", JsSpace) || EndsAfter(line, "## " + "[" + word + "]", JsSpace)
    {
      FormIsPrefixes(line, word, JsSpace);
      assert "## " + "" + word + "" == "## " + word && "## " + "[" + word + "" == "## " + "[" + word;
      assert "## " + "" + word + "]" == "## " + word + "]";
    }
  }

  lemma PatternPrefixes()
    ensures HEADING + "unreleased" == "## " + "" + SMALL + "" && HEADING + "[unreleased" == "## " + "[" + SMALL + ""
    ensures HEADING + "unreleased]" == "## " + "" + SMALL + "]" && HEADING + "[unreleased]" == "## " + "[" + SMALL + "]"
  {
    assert "[" + "unreleased" == "[unreleased" && "unreleased" + "]" == "unreleased]";
    assert "[" + "unreleased" + "]" == "[unreleased]";
  }

  // ---------------------------------------------------------------------------
  // Demotion
  // ---------------------------------------------------------------------------

  /** One or two hashes, one or more spaces, and a title that does not begin with a space. */
  ghost predicate ShallowForm(line: string, title: string) {
    && (title == "" || title[0] != ' ')
    && exists h, k :: 1 <= h <= 2 && 1 <= k && line == Repeat('#', h) + (Repeat(' ', k) + title)
  }

  lemma ShallowIs(line: string)
    ensures IsShallowHeading(line) ==> ShallowForm(line, AfterHashes(line))
    ensures forall title :: ShallowForm(line, title) ==> IsShallowHeading(line) && title == AfterHashes(line)
  {
    if IsShallowHeading(line) {
      var h := Run(line, '#');
      assert h == 1 || h == 2 by { assert line[1] == ' ' || (line[1] == '#' && line[2] == ' '); }
      var rest := line[h..];
      RunIsRepeat(line, '#');
      RunIsRepeat(rest, ' ');
      assert Run(rest, ' ') >= 1;
      assert line == Repeat('#', h) + (Repeat(' ', Run(rest, ' ')) + AfterHashes(line));
    }
    forall title | ShallowForm(line, title) ensures IsShallowHeading(line) && title == AfterHashes(line) {
      var h, k :| 1 <= h <= 2 && 1 <= k && line == Repeat('#', h) + (Repeat(' ', k) + title);
      ShallowReads(line, h, k, title);
    }
  }

  lemma ShallowReads(line: string, h: nat, k: nat, title: string)
    requires (title == "" || title[0] != ' ') && 1 <= h <= 2 && 1 <= k
    requires line == Repeat('#', h) + (Repeat(' ', k) + title)
    ensures IsShallowHeading(line) && title == AfterHashes(line)
  {
    assert line[0] == '#' && line[h] == ' ' && (h == 2 ==> line[1] == '#');
    hide Run;
    RunOf('#', h, Repeat(' ', k) + title);
    RunOf(' ', k, title);
  }

  lemma {:induction false} DemotedAt(marks: seq<Mark>, i: nat)
    requires i < |marks|
    ensures |DemoteMarks(marks)| == |marks| && DemoteMarks(marks)[i] == DemoteLine(marks[i])
  {
    hide DemoteLine;
    if i > 0 {
      DemotedAt(marks[1..], i - 1);
    } else if |marks| > 1 {
      DemotedAt(marks[1..], 0);
    }
  }

  /**
    Line by line: a level-one or level-two heading outside fences keeps its title at level four; the rest
    is as it was.
   */
  lemma DemotionExactly(text: string, i: nat)
    requires i < |Split(text, '\n')|
    ensures var lines, out := Split(text, '\n'), Split(DemoteFragmentHeadings(text), '\n');
      && |out| == |lines|
      && (forall title :: ShallowForm(lines[i], title) && !Scan(TypeScript, lines, Closed)[i].inFence ==>
            out[i] == "#### " + title)
      && (Scan(TypeScript, lines, Closed)[i].inFence || (forall title :: !ShallowForm(lines[i], title)) ==>
            out[i] == lines[i])
  {
    hide Split, Scan, ShallowForm, AfterHashes, IsShallowHeading, DemoteFragmentHeadings;
    var lines := Split(text, '\n');
    var marks := Scan(TypeScript, lines, Closed);
    DemotedText(text);
    DemotedAt(marks, i);
    ScanAt(TypeScript, lines, Closed, i);
    assert marks[i].text == lines[i];
    ShallowIs(lines[i]);
  }

  /** The whole entry as it is written; the section on breaking changes is never left out. */
  lemma EntryIsWritten(version: string, date: string, notes: string, breaking: string)
    ensures RenderEntry(version, date, notes, breaking) ==
      ("## " + version + " \U{2014} " + date) + "\n\n"
      + (DemoteFragmentHeadings(Trim(notes, JsSpace)) + "\n\n"
         + ("### Breaking changes" + "\n\n"
            + ((if AllSpace(breaking, JsSpace) then "None." else DemoteFragmentHeadings(Trim(breaking, JsSpace)))
               + "\n")))
  {
    hide Join, DemoteFragmentHeadings, Trim, AllSpace;
    TrimsAwayExactly(breaking, JsSpace);
    JoinedLines(HeadingLine(version, date), RenderedNotes(notes), BREAKING, RenderedBreaking(breaking));
  }

  lemma JoinedLines(h: string, n: string, title: string, b: string)
    ensures Join([h, "", n, "", title, "", b, ""], '\n') ==
      h + "\n\n" + (n + "\n\n" + (title + "\n\n" + (b + "\n")))
  {
    hide Join;
    JoinsOn(b, [""]);
    assert Join([""], '\n') == "" by { JoinSingle(""); }
    assert [b] + [""] == [b, ""] && b + "\n" + "" == b + "\n";
    JoinsParagraph(title, [b, ""]);
    assert [title, ""] + [b, ""] == [title, "", b, ""];
    JoinsParagraph(n, [title, "", b, ""]);
    assert [n, ""] + [title, "", b, ""] == [n, "", title, "", b, ""];
    JoinsParagraph(h, [n, "", title, "", b, ""]);
    assert [h, ""] + [n, "", title, "", b, ""] == [h, "", n, "", title, "", b, ""];
  }

  lemma JoinsParagraph(line: string, rest: seq<string>)
    requires rest != []
    ensures Join([line, ""] + rest, '\n') == line + "\n\n" + Join(rest, '\n')
  {
    hide Join;
    JoinsOn("", rest);
    JoinsOn(line, [""] + rest);
    assert [line] + ([""] + rest) == [line, ""] + rest;
  }

  lemma JoinsOn(line: string, rest: seq<string>)
    requires rest != []
    ensures Join([line] + rest, '\n') == line + "\n" + Join(rest, '\n')
  {
    assert ([line] + rest)[1..] == rest;
  }

  // ---------------------------------------------------------------------------
  // Where an entry goes
  // ---------------------------------------------------------------------------

  /** Line `k` is the first heading that is not an Unreleased one; the end of the file if there is none. */
  ghost predicate FirstRelease(base: string, k: nat) {
    var lines := Split(base, '\n');
    var marks := Scan(TypeScript, lines, Closed);
    && k <= |lines|
    && (forall i :: 0 <= i < k && marks[i].isHeading ==> UnreleasedForm(lines[i]))
    && (k < |lines| ==> marks[k].isHeading && !UnreleasedForm(lines[k]))
  }

  lemma FirstReleaseIs(base: string, k: nat)
    requires FirstRelease(base, k)
    ensures k == FirstReleased(Scan(TypeScript, Split(base, '\n'), Closed))
  {
    hide Split, Scan, UnreleasedForm, IsUnreleasedHeading;
    var lines := Split(base, '\n');
    var marks := Scan(TypeScript, lines, Closed);
    forall i | 0 <= i < |lines| ensures IsReleased(marks[i]) <==> marks[i].isHeading && !UnreleasedForm(lines[i]) {
      ScanAt(TypeScript, lines, Closed, i);
      UnreleasedExactly(lines[i]);
    }
  }

  /** The entry goes right before that line, and everything above and below stays as it is. */
  lemma EntryGoesBeforeFirstRelease(existing: Option<string>, version: string, entry: string, k: nat)
    requires Lookup(TypeScript, Base(existing), version).None? && FirstRelease(Base(existing), k)
    ensures var base, up := Base(existing), UpsertEntry(existing, version, entry);
      var lines := Split(base, '\n');
      && up.written
      && Split(up.content, '\n')
         == lines[..k] + (if k == |lines| then Gap(base) else []) + Split(entry, '\n') + lines[k..]
  {
    hide Split, Scan, Lookup, FirstRelease, UpsertEntry, FirstReleased;
    FirstReleaseIs(Base(existing), k);
    UpsertedLines(existing, version, entry);
  }

  /** A section headed Unreleased keeps its place on top; the entry comes below its body. */
  lemma UnreleasedStaysOnTop(head: string, body: seq<string>, rest: seq<string>, version: string, entry: string)
    requires forall l <- [head] + body + rest :: '\n' !in l
    requires UnreleasedForm(head) && Neutral(body) && (rest != [] ==> "## " <= rest[0] && !UnreleasedForm(rest[0]))
    requires Lookup(TypeScript, Join([head] + body + rest, '\n'), version).None?
    ensures var base := Join([head] + body + rest, '\n');
      Split(UpsertEntry(Some(base), version, entry).content, '\n')
      == [head] + body + (if rest == [] then Gap(base) else []) + Split(entry, '\n') + rest
  {
    hide Split, Scan, Lookup, UpsertEntry, Neutral, UnreleasedForm, Join;
    var lines := [head] + body + rest;
    var base := Join(lines, '\n');
    var k := 1 + |body|;
    SplitJoin(lines, '\n');
    var marks := Scan(TypeScript, lines, Closed);
    UnreleasedMarks(head, body, rest, marks);
    assert lines[0] == head && (rest != [] ==> lines[k] == rest[0]);
    assert forall i :: 0 <= i < k && marks[i].isHeading ==> i == 0;
    assert FirstRelease(base, k);
    EntryGoesBeforeFirstRelease(Some(base), version, entry, k);
    assert lines[..k] == [head] + body && lines[k..] == rest;
  }

  /** A package without a changelog gets one with a title. */
  lemma NewChangelog(version: string, entry: string)
    ensures UpsertEntry(None, version, entry) == Upsert("# Changelog\n\n" + entry, true)
  {
    hide Split, Lookup, FirstReleased, Scan, Join;
    TitleLines();
    NoneReleased();
    var base := "# Changelog\n";
    assert |base| == 12 && base[11] == '\n';
    assert base + "\n" == "# Changelog\n\n";
  }

  lemma TitleLines()
    ensures CHANGELOG_HEADER == "# Changelog\n" && Split(CHANGELOG_HEADER, '\n') == ["# Changelog", ""]
  {
    var title := "# Changelog";
    assert '\n' !in title;
    SplitJoin([title, ""], '\n');
    hide Split;
    JoinsOn(title, [""]);
    assert [title] + [""] == [title, ""];
  }

  lemma NoneReleased()
    ensures FirstReleased(Scan(TypeScript, ["# Changelog", ""], Closed)) == 2
  {
    hide StepFence, JsSpace, FirstReleased, Scan, FenceAfter;
    var lines := ["# Changelog", ""];
    forall i | 0 <= i < 2 ensures !Scan(TypeScript, lines, Closed)[i].isHeading {
      ScanAt(TypeScript, lines, Closed, i);
    }
  }

  lemma UnreleasedMarks(head: string, body: seq<string>, rest: seq<string>, marks: seq<Mark>)
    requires marks == Scan(TypeScript, [head] + body + rest, Closed)
    requires UnreleasedForm(head) && Neutral(body) && (rest != [] ==> "## " <= rest[0])
    ensures forall i :: 1 <= i <= |body| ==> !marks[i].isHeading
    ensures rest != [] ==> marks[1 + |body|].isHeading
  {
    hide UnreleasedForm, Scan, StepFence, FenceAfter, MarkOf;
    UnreleasedBegins(head);
    HashLineIsNoFence(head, Closed);
    HeadIsClosed(head);
    ScanConcat(TypeScript, [head], body, Closed);
    ScanConcat(TypeScript, [head] + body, rest, Closed);
    var a, b, c := Scan(TypeScript, [head], Closed), Scan(TypeScript, body, Closed), Scan(TypeScript, rest, Closed);
    assert marks == a + b + c;
    forall i | 1 <= i <= |body| ensures !marks[i].isHeading {
      assert marks[i] == b[i - 1] && b[i - 1] in b;
    }
    if rest != [] {
      FirstIsHeading(rest);
      assert marks[1 + |body|] == c[0];
    }
  }

  lemma FirstIsHeading(lines: seq<string>)
    requires lines != [] && "## " <= lines[0]
    ensures Scan(TypeScript, lines, Closed)[0].isHeading
  {
    HashLineIsNoFence(lines[0], Closed);
    hide StepFence;
  }

  lemma UnreleasedBegins(line: string)
    requires UnreleasedForm(line)
    ensures line != "" && line[0] == '#'
  {
  }

  lemma HeadIsClosed(head: string)
    requires StepFence(TypeScript, head, Closed).0 == Closed
    ensures FenceAfter(TypeScript, [head], Closed) == Closed
  {
    hide StepFence;
  }

  /** The forms Keep a Changelog and this pipeline use. */
  lemma UsualHeadings()
    ensures UnreleasedForm("## [Unreleased]") && UnreleasedForm("## Unreleased")
    ensures !UnreleasedForm("## [1.0.0] - 2026-01-01") && !UnreleasedForm("## Unreleasedly")
  {
    assert SaysUnreleased("Unreleased");
    assert HeadingParts("## [Unreleased]", "[", "Unreleased", "]", "", JsSpace);
    assert HeadingParts("## Unreleased", "", "Unreleased", "", "", JsSpace);
    NotUnreleased("## [1.0.0] - 2026-01-01");
    NotUnreleased("## Unreleasedly");
  }

  lemma PartsAt(line: string, head: string, word: string, tail: string)
    requires line == head + word + tail && |word| == 10
    ensures |line| >= |head| + 10 && line[..|head|] == head && line[|head|] == word[0]
    ensures line[|head|..|head| + 10] == word && line[|head| + 10..] == tail
  {
  }

  lemma HeadOf(line: string, open: string, word: string, close: string, rest: string, after: char -> bool)
    requires HeadingParts(line, open, word, close, rest, after)
    ensures line == (if open == "" then "## " else "## [") + word + (close + rest)
    ensures close + rest == "" || (close + rest)[0] == ']' || after((close + rest)[0])
  {
    assert "## " + "[" == "## [" && "## " + "" == "## ";
  }

  lemma FormBegins(line: string)
    requires UnreleasedForm(line)
    ensures |line| >= 13
    ensures var k := if line[3] == '[' then 4 else 3;
      && |line| >= k + 10 && SaysUnreleased(line[k..k + 10])
      && (|line| > k + 10 ==> line[k + 10] == ']' || JsSpace(line[k + 10]))
  {
    var word :| SaysUnreleased(word) && HeadingForm(line, word, JsSpace);
    assert word[0] != '[' && |word| == 10;
    hide SaysUnreleased, HeadingParts, JsSpace;
    var open, close, rest :| HeadingParts(line, open, word, close, rest, JsSpace);
    HeadOf(line, open, word, close, rest, JsSpace);
    var head, tail := if open == "" then "## " else "## [", close + rest;
    PartsAt(line, head, word, tail);
    assert |head| == 4 ==> line[3] == line[..4][3];
    assert tail != "" ==> line[|head| + 10] == tail[0];
  }

  lemma NotUnreleased(line: string)
    requires line == "## [1.0.0] - 2026-01-01" || line == "## Unreleasedly"
    ensures !UnreleasedForm(line)
  {
    var k := if line[3] == '[' then 4 else 13;
    assert line[k] == (if k == 4 then '1' else 'l');
    if UnreleasedForm(line) {
      FormBegins(line);
    }
  }
}
