/** Writing a version's entry into a changelog, and reading it back. */
module Changelog {
  import opened Options
  import opened Text
  import opened Fences

  // ---------------------------------------------------------------------------
  // The scans as the scripts run them
  // ---------------------------------------------------------------------------

  /** Where line `i` starts in the joined text. */
  function LineOffset(lines: seq<string>, i: nat): nat
    requires i <= |lines|
  {
    if i == 0 then 0 else LineOffset(lines, i - 1) + |lines[i - 1]| + 1
  }

  /** The table the generator builds: each line's mark and its offset in the file. */
  method ScanChangelogLines(content: string) returns (table: seq<(Mark, nat)>)
    ensures var lines := Split(content, '\n');
      && |table| == |lines|
      && forall i :: 0 <= i < |lines| ==> table[i] == (Scan(TypeScript, lines, Closed)[i], LineOffset(lines, i))
  {
    hide StepFence, Split, Scan, FenceAfter;
    var lines := Split(content, '\n');
    FenceAtStart(TypeScript);
    var openFence := Closed;
    var offset := 0;
    table := [];
    ghost var marks := Scan(TypeScript, lines, Closed);
    for i := 0 to |lines|
      invariant |table| == i
      invariant openFence == FenceAfter(TypeScript, lines[..i], Closed)
      invariant offset == LineOffset(lines, i)
      invariant forall j :: 0 <= j < i ==> table[j] == (marks[j], LineOffset(lines, j))
    {
      var text := lines[i];
      var step := StepFence(TypeScript, text, openFence);
      ScanAt(TypeScript, lines, Closed, i);
      FenceNext(TypeScript, lines, Closed, i);
      openFence := step.0;
      var isHeading := openFence.Closed? && !step.1 && HEADING <= text;
      table := table + [(Mark(text, isHeading, !openFence.Closed? || step.1), offset)];
      offset := offset + |text| + 1;
    }
  }

  lemma {:induction false} FindAt(lang: Language, marks: seq<Mark>, version: string, i: nat)
    requires i <= |marks| && forall j :: 0 <= j < i ==> !Names(lang, marks[j], version)
    ensures FindEntry(lang, marks, version) == FindEntry(lang, marks[i..], version)
  {
    hide Names;
    if i > 0 {
      FindAt(lang, marks[1..], version, i - 1);
      assert marks[1..][i - 1..] == marks[i..];
    } else {
      assert marks[0..] == marks;
    }
  }

  lemma {:induction false} BodyIs(marks: seq<Mark>, k: nat)
    requires k <= |marks| && (forall j :: 0 <= j < k ==> !marks[j].isHeading)
    requires k == |marks| || marks[k].isHeading
    ensures |BodyOf(marks)| == k && forall j :: 0 <= j < k ==> BodyOf(marks)[j] == marks[j].text
  {
    if k > 0 {
      BodyIs(marks[1..], k - 1);
    }
  }

  /** The generator's lookup: build the table, find the heading, slice to the next one. */
  method FindVersionEntry(content: string, version: string) returns (r: Option<string>)
    ensures r == Lookup(TypeScript, content, version)
  {
    hide Scan, Split, Names;
    var table := ScanChangelogLines(content);
    ghost var marks := Scan(TypeScript, Split(content, '\n'), Closed);
    var start := 0;
    while start < |table| && !Names(TypeScript, table[start].0, version)
      invariant start <= |table|
      invariant forall j :: 0 <= j < start ==> !Names(TypeScript, marks[j], version)
    {
      start := start + 1;
    }
    FindAt(TypeScript, marks, version, start);
    if start == |table| { return None; }
    var body: seq<string> := [];
    var i := start + 1;
    ghost var rest := marks[start..][1..];
    assert marks[start..][0] == marks[start];
    while i < |table| && !table[i].0.isHeading
      invariant start < i <= |table| && |body| == i - start - 1
      invariant forall j :: 0 <= j < |body| ==> !rest[j].isHeading && body[j] == rest[j].text
    {
      assert rest[|body|] == marks[i] == table[i].0;
      body := body + [table[i].0.text];
      i := i + 1;
    }
    assert i < |table| ==> rest[|body|] == marks[i] == table[i].0;
    BodyIs(rest, |body|);
    assert body == BodyOf(rest);
    r := Some(Trim(Join(body, '\n'), JsSpace));
  }

  /** The publisher's lookup: one pass with a flag. */
  method ExtractEntry(content: string, version: string) returns (r: Option<string>)
    ensures r == Lookup(Python, content, version)
  {
    hide StepFence, Split, IsVersionHeading;
    var lines := Split(content, '\n');
    var body: seq<string> := [];
    var inEntry := false;
    var openFence := Closed;
    var i := 0;
    ghost var marks := Scan(Python, lines, Closed);
    assert marks[0..] == marks;
    while i < |lines|
      invariant i <= |lines|
      invariant openFence == FenceAfter(Python, lines[..i], Closed)
      invariant !inEntry ==> body == [] && FindEntry(Python, marks, version) == FindEntry(Python, marks[i..], version)
      invariant inEntry ==> FindEntry(Python, marks, version) == Some(body + BodyOf(marks[i..]))
    {
      var line := lines[i];
      ScanAt(Python, lines, Closed, i);
      ScanConcat(Python, lines[..i], [line], Closed);
      assert lines[..i + 1] == lines[..i] + [line];
      var step := StepFence(Python, line, openFence);
      openFence := step.0;
      var isHeading := openFence.Closed? && !step.1 && HEADING <= line;
      assert marks[i].isHeading == isHeading && marks[i].text == line;
      assert marks[i..][1..] == marks[i + 1..] && marks[i..][0] == marks[i];
      i := i + 1;
      if !inEntry {
        if isHeading && IsVersionHeading(Python, line, version) {
          inEntry := true;
          assert [] + BodyOf(marks[i..]) == BodyOf(marks[i..]);
        }
        continue;
      }
      if isHeading {
        assert body + [] == body;
        return Some(Trim(Join(body, '\n'), PySpace));
      }
      assert body + ([line] + BodyOf(marks[i..])) == (body + [line]) + BodyOf(marks[i..]);
      body := body + [line];
    }
    assert marks[i..] == [];
    if !inEntry { return None; }
    assert body + [] == body;
    r := Some(Trim(Join(body, '\n'), PySpace));
  }

  // ---------------------------------------------------------------------------
  // Rendering
  // ---------------------------------------------------------------------------

  /** One or two hashes and a space. */
  predicate IsShallowHeading(line: string) { "# " <= line || "## " <= line }

  function AfterHashes(line: string): string
    requires IsShallowHeading(line)
  {
    var rest := line[Run(line, '#')..];
    rest[Run(rest, ' ')..]
  }

  function DemoteLine(m: Mark): string {
    if !m.inFence && IsShallowHeading(m.text) then "#### " + AfterHashes(m.text) else m.text
  }

  function DemoteMarks(marks: seq<Mark>): seq<string> {
    if marks == [] then [] else [DemoteLine(marks[0])] + DemoteMarks(marks[1..])
  }

  /** Headings of level one and two outside fences become level four. */
  function DemoteFragmentHeadings(text: string): string {
    Join(DemoteMarks(Scan(TypeScript, Split(text, '\n'), Closed)), '\n')
  }

  predicate HasUnclosedFence(text: string) {
    FenceAfter(TypeScript, Split(text, '\n'), Closed) != Closed
  }

  method CheckUnclosedFence(text: string) returns (b: bool)
    ensures b == HasUnclosedFence(text)
  {
    hide StepFence, Split;
    var lines := Split(text, '\n');
    var open := Closed;
    for i := 0 to |lines|
      invariant open == FenceAfter(TypeScript, lines[..i], Closed)
    {
      ScanConcat(TypeScript, lines[..i], [lines[i]], Closed);
      assert lines[..i + 1] == lines[..i] + [lines[i]];
      open := StepFence(TypeScript, lines[i], open).0;
    }
    assert lines[..|lines|] == lines;
    b := open != Closed;
  }

  const BREAKING := "### Breaking changes"

  function HeadingLine(version: string, date: string): string { HEADING + version + " \U{2014} " + date }

  function RenderedNotes(notes: string): string { DemoteFragmentHeadings(Trim(notes, JsSpace)) }

  function RenderedBreaking(breaking: string): string {
    var text := Trim(breaking, JsSpace);
    if text == "" then "None." else DemoteFragmentHeadings(text)
  }

  function RenderEntry(version: string, date: string, notes: string, breaking: string): string {
    Join([HeadingLine(version, date), "", RenderedNotes(notes), "", BREAKING, "", RenderedBreaking(breaking), ""], '\n')
  }

  /** What a reader of the entry should get back. */
  function EntryText(notes: string, breaking: string): string {
    RenderedNotes(notes) + "\n\n" + BREAKING + "\n\n" + RenderedBreaking(breaking)
  }

  // ---------------------------------------------------------------------------
  // Insertion
  // ---------------------------------------------------------------------------

  function LowerChar(c: char): char { if 'A' <= c <= 'Z' then c - 'A' + 'a' else c }

  function Lower(s: string): (r: string)
    ensures |r| == |s|
  {
    if s == [] then [] else [LowerChar(s[0])] + Lower(s[1..])
  }

  predicate UnreleasedWith(line: string, prefix: string) {
    prefix <= Lower(line) && (|line| == |prefix| || JsSpace(line[|prefix|]))
  }

  predicate IsUnreleasedHeading(line: string) {
    || UnreleasedWith(line, HEADING + "unreleased")
    || UnreleasedWith(line, HEADING + "[unreleased")
    || UnreleasedWith(line, HEADING + "unreleased]")
    || UnreleasedWith(line, HEADING + "[unreleased]")
  }

  predicate IsReleased(m: Mark) { m.isHeading && !IsUnreleasedHeading(m.text) }

  /** The index of the first released heading; the number of lines if there is none. */
  function FirstReleased(marks: seq<Mark>): (k: nat)
    ensures k <= |marks| && (k < |marks| ==> IsReleased(marks[k]))
    ensures forall i :: 0 <= i < k ==> !IsReleased(marks[i])
  {
    if marks == [] || IsReleased(marks[0]) then 0 else 1 + FirstReleased(marks[1..])
  }

  const CHANGELOG_HEADER := Join(["# Changelog", ""], '\n')

  /** `written` is false when the version is already there and the file is left alone. */
  datatype Upsert = Upsert(content: string, written: bool)

  function UpsertEntry(existing: Option<string>, version: string, entryText: string): Upsert {
    if existing.Some? && Lookup(TypeScript, existing.value, version).Some? then Upsert(existing.value, false)
    else
      var base := if existing.Some? then existing.value else CHANGELOG_HEADER;
      var lines := Split(base, '\n');
      var k := FirstReleased(Scan(TypeScript, lines, Closed));
      if k == |lines| then
        var sep := if base != "" && base[|base| - 1] == '\n' then "\n" else "\n\n";
        Upsert(base + sep + entryText, true)
      else
        var at := LineOffset(lines, k);
        OffsetInText(base, k);
        Upsert(base[..at] + entryText + "\n" + base[at..], true)
  }

  lemma {:induction false} OffsetOfLines(lines: seq<string>, k: nat)
    requires k < |lines|
    ensures var at := LineOffset(lines, k); var text := Join(lines, '\n');
      && at <= |text| && text[at..] == Join(lines[k..], '\n')
      && text[..at] == if k == 0 then "" else Join(lines[..k], '\n') + "\n"
  {
    var text := Join(lines, '\n');
    if k == 0 {
      assert lines[0..] == lines;
    } else {
      JoinConcat(lines[..k], lines[k..], '\n');
      assert lines[..k] + lines[k..] == lines;
      JoinLength(lines, k);
    }
  }

  lemma {:induction false} JoinLength(lines: seq<string>, k: nat)
    requires 0 < k <= |lines|
    ensures |Join(lines[..k], '\n')| + 1 == LineOffset(lines, k)
  {
    if k == 1 {
      assert lines[..1] == [lines[0]];
      assert LineOffset(lines, 1) == LineOffset(lines, 0) + |lines[0]| + 1;
    } else {
      JoinLength(lines, k - 1);
      assert lines[..k] == lines[..k - 1] + [lines[k - 1]];
      JoinConcat(lines[..k - 1], [lines[k - 1]], '\n');
    }
  }

  lemma OffsetInText(base: string, k: nat)
    requires k < |Split(base, '\n')|
    ensures LineOffset(Split(base, '\n'), k) <= |base|
  {
    JoinSplit(base, '\n');
    OffsetOfLines(Split(base, '\n'), k);
  }
}
