/** What a changelog reads as after an insertion. */
module ChangelogRoundTrip {
  import opened Options
  import opened Text
  import opened Fences
  import opened Changelog
  import opened ChangelogInsert

  function Base(existing: Option<string>): string {
    if existing.Some? then existing.value else CHANGELOG_HEADER
  }

  /** Appending to a file that ends inside a fence would put the entry in the fence. */
  ghost predicate AppendIsSafe(base: string) {
    FirstReleased(Scan(TypeScript, Split(base, '\n'), Closed)) == |Split(base, '\n')| ==> !HasUnclosedFence(base)
  }

  /** The blank line between a file that does not end in a newline and the appended entry. */
  function Gap(base: string): seq<string> {
    if base != "" && base[|base| - 1] == '\n' then [] else [""]
  }

  /** The file's lines before and after the insertion point. */
  function Above(base: string): seq<string> {
    var lines := Split(base, '\n');
    lines[..FirstReleased(Scan(TypeScript, lines, Closed))]
  }

  function Below(base: string): seq<string> {
    var lines := Split(base, '\n');
    lines[FirstReleased(Scan(TypeScript, lines, Closed))..]
  }

  // ---------------------------------------------------------------------------
  // The new file's lines
  // ---------------------------------------------------------------------------

  lemma AppendLines(base: string, entry: string)
    ensures var sep := if base != "" && base[|base| - 1] == '\n' then "\n" else "\n\n";
      Split(base + sep + entry, '\n') == Split(base, '\n') + Gap(base) + Split(entry, '\n')
  {
    hide Split;
    if Gap(base) == [] {
      SplitConcat(base, entry, '\n');
      assert Split(base, '\n') + [] == Split(base, '\n');
    } else {
      var rest := "" + "\n" + entry;
      assert base + "\n\n" + entry == base + "\n" + rest;
      SplitConcat(base, rest, '\n');
      SplitConcat("", entry, '\n');
      SplitWord("");
      assert Split(base, '\n') + ([""] + Split(entry, '\n')) == Split(base, '\n') + [""] + Split(entry, '\n');
    }
  }

  lemma InsertLines(base: string, entry: string, k: nat)
    requires k < |Split(base, '\n')|
    ensures var lines := Split(base, '\n'); var at := LineOffset(lines, k);
      && at <= |base|
      && Split(base[..at] + entry + "\n" + base[at..], '\n') == lines[..k] + Split(entry, '\n') + lines[k..]
  {
    hide Split, Join;
    var lines := Split(base, '\n');
    var at := LineOffset(lines, k);
    JoinSplit(base, '\n');
    OffsetOfLines(lines, k);
    SplitJoin(lines[k..], '\n');
    SplitConcat(entry, base[at..], '\n');
    var tail := entry + "\n" + base[at..];
    if k == 0 {
      assert base[..at] + entry + "\n" + base[at..] == tail;
      assert lines[..0] + Split(entry, '\n') + lines[0..] == Split(entry, '\n') + lines[0..];
    } else {
      SplitJoin(lines[..k], '\n');
      SplitConcat(Join(lines[..k], '\n'), tail, '\n');
      assert base[..at] + entry + "\n" + base[at..] == Join(lines[..k], '\n') + "\n" + tail;
      assert lines[..k] + (Split(entry, '\n') + lines[k..]) == lines[..k] + Split(entry, '\n') + lines[k..];
    }
  }

  /** Written, the file is its upper part, a gap when appending, the entry, and its lower part. */
  lemma UpsertedLines(existing: Option<string>, version: string, entry: string)
    requires Lookup(TypeScript, Base(existing), version).None?
    ensures var base, up := Base(existing), UpsertEntry(existing, version, entry);
      && up.written
      && Split(up.content, '\n')
         == Above(base) + (if Below(base) == [] then Gap(base) else []) + Split(entry, '\n') + Below(base)
  {
    hide Split, Scan, LineOffset, Lookup;
    var base := Base(existing);
    var lines := Split(base, '\n');
    var k := FirstReleased(Scan(TypeScript, lines, Closed));
    if k == |lines| {
      AppendLines(base, entry);
      assert lines[..k] == lines && lines[k..] == [];
      assert lines + Gap(base) + Split(entry, '\n') + [] == lines + Gap(base) + Split(entry, '\n');
    } else {
      InsertLines(base, entry, k);
      assert lines[..k] + [] == lines[..k];
    }
  }

  // ---------------------------------------------------------------------------
  // The new file's marks
  // ---------------------------------------------------------------------------

  lemma HeadingMeansClosed(line: string, open: Fence)
    requires MarkOf(TypeScript, line, open).isHeading
    ensures open == Closed
  {
    HashLineIsNoFence(line, open);
  }

  /** The insertion point lies outside every fence. */
  lemma AboveIsClosed(base: string)
    requires AppendIsSafe(base)
    ensures FenceAfter(TypeScript, Above(base), Closed) == Closed
  {
    hide StepFence, Split;
    var lines := Split(base, '\n');
    var k := FirstReleased(Scan(TypeScript, lines, Closed));
    if k < |lines| {
      ScanAt(TypeScript, lines, Closed, k);
      HeadingMeansClosed(lines[k], FenceAfter(TypeScript, lines[..k], Closed));
    } else {
      assert lines[..k] == lines;
    }
  }

  function MarksOf(lines: seq<string>): seq<Mark> { Scan(TypeScript, lines, Closed) }

  lemma BaseMarks(base: string)
    requires AppendIsSafe(base)
    ensures MarksOf(Split(base, '\n')) == MarksOf(Above(base)) + MarksOf(Below(base))
    ensures Below(base) != [] ==> MarksOf(Below(base)) != [] && MarksOf(Below(base))[0].isHeading
  {
    hide StepFence, Split, Scan;
    var lines := Split(base, '\n');
    var k := FirstReleased(Scan(TypeScript, lines, Closed));
    AboveIsClosed(base);
    ScanConcat(TypeScript, lines[..k], lines[k..], Closed);
    assert lines[..k] + lines[k..] == lines;
    if k < |lines| {
      assert MarksOf(lines)[k] == MarksOf(Below(base))[0];
    }
  }

  lemma HeadingMark(version: string, date: string)
    ensures StepFence(TypeScript, HeadingLine(version, date), Closed) == (Closed, false)
    ensures MarkOf(TypeScript, HeadingLine(version, date), Closed) == Mark(HeadingLine(version, date), true, false)
  {
    HashLineIsNoFence(HeadingLine(version, date), Closed);
  }

  /** An entry scans as its heading, and below that as its other lines would alone. */
  lemma EntryMarks(version: string, date: string, notes: string, breaking: string)
    ensures var e := EntryLines(version, date, notes, breaking);
      && MarksOf(e) == [Mark(HeadingLine(version, date), true, false)] + MarksOf(e[1..])
      && FenceAfter(TypeScript, e, Closed) == FenceAfter(TypeScript, e[1..], Closed)
  {
    hide StepFence, Split;
    var e := EntryLines(version, date, notes, breaking);
    assert e[0] == HeadingLine(version, date);
    HeadingMark(version, date);
  }

  lemma GapIsNeutral(base: string)
    ensures Neutral(Gap(base))
  {
    PlainLineIsNeutral("");
  }

  /** The marks below the entry, in the fence state it leaves. */
  function BackMarks(base: string, e: seq<string>): seq<Mark> {
    Scan(TypeScript, Below(base), FenceAfter(TypeScript, e, Closed))
  }

  lemma NewMarks(base: string, gap: seq<string>, e: seq<string>)
    requires AppendIsSafe(base) && Neutral(gap)
    ensures MarksOf(Above(base) + gap + e + Below(base))
         == MarksOf(Above(base)) + MarksOf(gap) + MarksOf(e) + BackMarks(base, e)
  {
    hide StepFence, Split, Scan, Above, Below;
    AboveIsClosed(base);
    ScanConcat(TypeScript, Above(base), gap, Closed);
    ScanConcat(TypeScript, Above(base) + gap, e, Closed);
    ScanConcat(TypeScript, Above(base) + gap + e, Below(base), Closed);
  }

  // ---------------------------------------------------------------------------
  // Lookups
  // ---------------------------------------------------------------------------

  lemma NamedPrefix(a: seq<Mark>, b: seq<Mark>, version: string)
    ensures NoneNamed(a + b, version) <==> NoneNamed(a, version) && NoneNamed(b, version)
  {
    hide Names;
  }

  lemma LookupIs(content: string, version: string)
    ensures Lookup(TypeScript, content, version) ==
      match FindEntry(TypeScript, MarksOf(Split(content, '\n')), version)
      case None => None
      case Some(body) => Some(Trim(Join(body, '\n'), JsSpace))
  {
  }

  lemma NeutralNamesNothing(lines: seq<string>, version: string)
    requires Neutral(lines)
    ensures NoneNamed(MarksOf(lines), version)
  {
    hide IsVersionHeading;
  }

  /** A new version, notes that are not blank, and a place outside every fence. */
  ghost predicate Placeable(existing: Option<string>, version: string, date: string, notes: string) {
    && PlainVersion(version) && '\n' !in date && Trim(notes, JsSpace) != ""
    && AppendIsSafe(Base(existing)) && Lookup(TypeScript, Base(existing), version).None?
  }

  /** Below its heading the entry has no heading, and it ends outside every fence or at the end of the file. */
  ghost predicate Sits(base: string, e: seq<string>) {
    && e != []
    && (forall m <- MarksOf(e[1..]) :: !m.isHeading)
    && (Below(base) == [] || FenceAfter(TypeScript, e, Closed) == Closed)
  }

  ghost predicate Insertable(existing: Option<string>, version: string, date: string, notes: string, breaking: string) {
    Placeable(existing, version, date, notes) && Sits(Base(existing), EntryLines(version, date, notes, breaking))
  }

  /** Fragments that each close their fences make an entry that sits anywhere. */
  lemma ClosedFragmentsSit(base: string, version: string, date: string, notes: string, breaking: string)
    requires FenceClosed(notes, breaking)
    ensures Sits(base, EntryLines(version, date, notes, breaking))
  {
    hide Scan, FenceAfter, Split;
    EntryTailIsNeutral(version, date, notes, breaking);
    EntryMarks(version, date, notes, breaking);
  }

  function Inserted(existing: Option<string>, version: string, date: string, notes: string, breaking: string): string {
    UpsertEntry(existing, version, RenderEntry(version, date, notes, breaking)).content
  }

  /** The marks of the new file, in four runs. */
  lemma InsertedMarks(existing: Option<string>, version: string, date: string, notes: string, breaking: string)
    requires Placeable(existing, version, date, notes)
    ensures var base := Base(existing); var e := EntryLines(version, date, notes, breaking);
      var gap := if Below(base) == [] then Gap(base) else [];
      && Neutral(gap)
      && MarksOf(Split(Inserted(existing, version, date, notes, breaking), '\n'))
           == MarksOf(Above(base)) + MarksOf(gap) + MarksOf(e) + BackMarks(base, e)
  {
    hide Split, Scan, EntryLines, RenderEntry, Above, Below, Lookup, Gap, AppendIsSafe, UpsertEntry, BackMarks;
    var base := Base(existing);
    UpsertedLines(existing, version, RenderEntry(version, date, notes, breaking));
    EntrySplits(version, date, notes, breaking);
    GapIsNeutral(base);
    var gap := if Below(base) == [] then Gap(base) else [];
    assert Neutral([]) by { assert Scan(TypeScript, [], Closed) == [] by { EmptyScan(); } }
    NewMarks(base, gap, EntryLines(version, date, notes, breaking));
  }

  lemma EmptyScan()
    ensures Scan(TypeScript, [], Closed) == [] && Neutral([])
  {
  }

  /** The lookup reaches the entry's own heading first, and reads on from there. */
  lemma InsertedIsFound(existing: Option<string>, version: string, date: string, notes: string, breaking: string)
    requires Placeable(existing, version, date, notes)
    ensures var e := EntryLines(version, date, notes, breaking);
      Lookup(TypeScript, Inserted(existing, version, date, notes, breaking), version)
      == Some(Trim(Join(BodyOf(MarksOf(e[1..]) + BackMarks(Base(existing), e)), '\n'), JsSpace))
  {
    hide Split, Scan, EntryLines, Inserted, Above, Below, Lookup, Gap, AppendIsSafe, IsVersionHeading;
    hide FindEntry, Trim, Join, NoneNamed, BodyOf, BackMarks;
    var base := Base(existing);
    var e := EntryLines(version, date, notes, breaking);
    var gap := if Below(base) == [] then Gap(base) else [];
    InsertedMarks(existing, version, date, notes, breaking);
    BaseMarks(base);
    LookupIs(base, version);
    FindNone(MarksOf(Split(base, '\n')), version);
    NamedPrefix(MarksOf(Above(base)), MarksOf(Below(base)), version);
    NeutralNamesNothing(gap, version);
    NamedPrefix(MarksOf(Above(base)), MarksOf(gap), version);
    var front, me, back := MarksOf(Above(base)) + MarksOf(gap), MarksOf(e), BackMarks(base, e);
    assert front + me + back == front + (me + back);
    FindSkips(front, me + back, version);
    EntryMarks(version, date, notes, breaking);
    HeadingNamesOnly(version, date, version);
    assert (me + back)[0] == Mark(HeadingLine(version, date), true, false);
    assert (me + back)[1..] == MarksOf(e[1..]) + back;
    FindHead(me + back, version);
    LookupIs(Inserted(existing, version, date, notes, breaking), version);
  }

  /** What follows an entry that sits begins with a heading, if anything does. */
  lemma BackBegins(base: string, e: seq<string>)
    requires AppendIsSafe(base) && (Below(base) == [] || FenceAfter(TypeScript, e, Closed) == Closed)
    ensures BackMarks(base, e) == [] || BackMarks(base, e)[0].isHeading
  {
    hide Scan, Below, FenceAfter;
    if Below(base) == [] { ScanNothing(FenceAfter(TypeScript, e, Closed)); } else { BaseMarks(base); }
  }

  lemma ScanNothing(open: Fence)
    ensures Scan(TypeScript, [], open) == []
  {
  }

  /** What follows an open fence begins with a line swallowed by it. */
  lemma BackSwallowed(base: string, e: seq<string>)
    requires AppendIsSafe(base) && Below(base) != [] && FenceAfter(TypeScript, e, Closed) != Closed
    ensures BackMarks(base, e) != [] && !BackMarks(base, e)[0].isHeading && HEADING <= BackMarks(base, e)[0].text
  {
    var open, line := FenceAfter(TypeScript, e, Closed), Below(base)[0];
    hide FenceAfter, StepFence;
    BaseMarks(base);
    assert MarksOf(Below(base))[0] == MarkOf(TypeScript, line, Closed);
    HashLineIsNoFence(line, open);
    assert BackMarks(base, e)[0] == MarkOf(TypeScript, line, open);
  }

  lemma {:induction false} BodyRuns(a: seq<Mark>, b: seq<Mark>)
    requires forall m <- a :: !m.isHeading
    ensures BodyOf(a + b) == BodyOf(a) + BodyOf(b)
  {
    if a == [] {
      assert a + b == b;
    } else {
      assert (a + b)[1..] == a[1..] + b && a[0] in a;
      BodyRuns(a[1..], b);
    }
  }

  /** Where a heading stands among the marks, the body ends before it and loses its text. */
  lemma {:induction false} BodyLoses(marks: seq<Mark>, back: seq<Mark>, lines: seq<string>)
    requires |marks| == |lines| && forall i :: 0 <= i < |lines| ==> marks[i].text == lines[i]
    requires exists m <- marks :: m.isHeading
    requires forall m <- marks :: m.isHeading ==> HEADING <= m.text
    ensures InkOf(BodyOf(marks + back), JsSpace) < InkOf(lines, JsSpace)
  {
    assert (marks + back)[0] == marks[0] && (marks + back)[1..] == marks[1..] + back && marks[0] in marks;
    if marks[0].isHeading {
      assert lines[0][0] == '#' && Ink(lines[0], JsSpace) > 0;
    } else {
      assert marks == [marks[0]] + marks[1..];
      BodyLoses(marks[1..], back, lines[1..]);
    }
  }

  /** An entry is read back exactly if it sits. */
  lemma InsertedEntryReadsBack(existing: Option<string>, version: string, date: string, notes: string, breaking: string)
    requires Placeable(existing, version, date, notes)
    ensures Lookup(TypeScript, Inserted(existing, version, date, notes, breaking), version)
         == Some(EntryText(notes, breaking))
         <==> Sits(Base(existing), EntryLines(version, date, notes, breaking))
  {
    var base, e := Base(existing), EntryLines(version, date, notes, breaking);
    assert e != [];
    hide Split, Scan, EntryLines, Inserted, Below, Lookup, AppendIsSafe, Trim, Join, BodyOf, BackMarks, FenceAfter;
    hide Sits;
    InsertedIsFound(existing, version, date, notes, breaking);
    EntryBodyTrims(version, date, notes, breaking);
    if Sits(base, e) {
      SittingBody(base, e);
    } else {
      OtherwiseBody(base, e);
      DifferentInk(BodyOf(MarksOf(e[1..]) + BackMarks(base, e)), e[1..]);
    }
  }

  lemma SittingBody(base: string, e: seq<string>)
    requires AppendIsSafe(base) && Sits(base, e)
    ensures BodyOf(MarksOf(e[1..]) + BackMarks(base, e)) == e[1..]
  {
    hide Scan, Below, AppendIsSafe, BodyOf, BackMarks, FenceAfter;
    var tail := MarksOf(e[1..]);
    ScanTextsAt(e[1..]);
    BackBegins(base, e);
    BodyStops(tail, BackMarks(base, e));
    BodyOfNeutral(tail);
  }

  /** An entry that does not sit loses text, or gains some of the next one's. */
  lemma OtherwiseBody(base: string, e: seq<string>)
    requires AppendIsSafe(base) && e != [] && !Sits(base, e)
    ensures InkOf(BodyOf(MarksOf(e[1..]) + BackMarks(base, e)), JsSpace) != InkOf(e[1..], JsSpace)
  {
    hide Scan, Below, AppendIsSafe, BodyOf, BackMarks, FenceAfter, Ink, InkOf;
    var tail, back := MarksOf(e[1..]), BackMarks(base, e);
    ScanTextsAt(e[1..]);
    if exists m <- tail :: m.isHeading {
      HeadingsAreHashed(e[1..]);
      BodyLoses(tail, back, e[1..]);
    } else {
      BackSwallowed(base, e);
      BodyRuns(tail, back);
      BodyOfNeutral(tail);
      assert BodyOf(tail) == e[1..];
      BodyHasInk(back);
      InkOfConcat(e[1..], BodyOf(back), JsSpace);
    }
  }

  lemma HeadingsAreHashed(lines: seq<string>)
    ensures forall m <- MarksOf(lines) :: m.isHeading ==> HEADING <= m.text
  {
    hide StepFence, Scan;
    forall m <- MarksOf(lines) ensures m.isHeading ==> HEADING <= m.text {
      var i :| 0 <= i < |lines| && MarksOf(lines)[i] == m;
      ScanAt(TypeScript, lines, Closed, i);
    }
  }

  lemma BodyHasInk(back: seq<Mark>)
    requires back != [] && !back[0].isHeading && HEADING <= back[0].text
    ensures InkOf(BodyOf(back), JsSpace) > 0
  {
    assert back[0].text[0] == '#';
    assert Ink(back[0].text, JsSpace) > 0;
  }

  lemma DifferentInk(a: seq<string>, b: seq<string>)
    requires InkOf(a, JsSpace) != InkOf(b, JsSpace)
    ensures Trim(Join(a, '\n'), JsSpace) != Trim(Join(b, '\n'), JsSpace)
  {
    InkJoin(a, '\n', JsSpace);
    InkJoin(b, '\n', JsSpace);
    InkTrim(Join(a, '\n'), JsSpace);
    InkTrim(Join(b, '\n'), JsSpace);
  }

  lemma FindHead(marks: seq<Mark>, version: string)
    requires marks != [] && Names(TypeScript, marks[0], version)
    ensures FindEntry(TypeScript, marks, version) == Some(BodyOf(marks[1..]))
  {
  }

  lemma {:induction false} ScanTextsAt(lines: seq<string>)
    ensures forall i :: 0 <= i < |lines| ==> MarksOf(lines)[i].text == lines[i]
  {
    hide StepFence, Scan;
    forall i | 0 <= i < |lines| ensures MarksOf(lines)[i].text == lines[i] {
      ScanAt(TypeScript, lines, Closed, i);
    }
  }

  lemma EntryNamesNoOther(version: string, date: string, notes: string, breaking: string, other: string)
    requires PlainVersion(version) && PlainVersion(other) && version != other
    requires forall m <- MarksOf(EntryLines(version, date, notes, breaking)[1..]) :: !m.isHeading
    ensures NoneNamed(MarksOf(EntryLines(version, date, notes, breaking)), other)
  {
    hide Scan, EntryLines, IsVersionHeading;
    EntryMarks(version, date, notes, breaking);
    HeadingNamesOnly(version, date, other);
  }

  /** A trailing blank line does not change an entry's trimmed text. */
  lemma {:induction false} GapTrims(a: seq<Mark>, gap: seq<string>, version: string)
    requires gap == [] || gap == [""]
    requires Neutral(gap)
    ensures var before, after := FindEntry(TypeScript, a, version), FindEntry(TypeScript, a + MarksOf(gap), version);
      && before.Some? == after.Some?
      && (before.Some? ==> after.value == before.value || after.value == before.value + [""])
  {
    hide IsVersionHeading;
    if gap == [] {
      assert a + MarksOf(gap) == a;
    } else {
      var m := MarksOf(gap);
      ScanTextsAt(gap);
      assert m == [m[0]] && m[0].text == "" && m[0] in m;
      if a == [] {
        assert a + m == m && m[1..] == [];
      } else {
        assert (a + m)[1..] == a[1..] + m && (a + m)[0] == a[0];
        if Names(TypeScript, a[0], version) {
          BodySnoc(a[1..], m[0]);
          assert a[1..] + [m[0]] == a[1..] + m;
        } else {
          GapTrims(a[1..], gap, version);
        }
      }
    }
  }

  lemma {:induction false} BodySnoc(a: seq<Mark>, m: Mark)
    requires !m.isHeading
    ensures BodyOf(a + [m]) == BodyOf(a) || BodyOf(a + [m]) == BodyOf(a) + [m.text]
  {
    if a == [] {
      assert a + [m] == [m];
      assert BodyOf([m]) == [m.text] + BodyOf([m][1..]);
      assert [m][1..] == [];
    } else {
      assert (a + [m])[1..] == a[1..] + [m] && (a + [m])[0] == a[0];
      BodySnoc(a[1..], m);
      assert [a[0].text] + (BodyOf(a[1..]) + [m.text]) == ([a[0].text] + BodyOf(a[1..])) + [m.text];
    }
  }

  lemma BlankLineTrims(body: seq<string>)
    ensures Trim(Join(body + [""], '\n'), JsSpace) == Trim(Join(body, '\n'), JsSpace)
  {
    if body == [] {
      assert body + [""] == [""];
    } else {
      hide Join, Trim;
      JoinConcat(body, [""], '\n');
      JoinSingle("");
      assert Join(body, '\n') + "\n" + "" == Join(body, '\n') + "\n";
      TrimSuffix(Join(body, '\n'), "\n", JsSpace);
    }
  }

  /** Every other version, and the Unreleased section, reads exactly as before. */
  lemma OtherEntriesUnchanged(
    existing: Option<string>, version: string, date: string, notes: string, breaking: string, other: string)
    requires Insertable(existing, version, date, notes, breaking)
    requires PlainVersion(other) && other != version
    ensures Lookup(TypeScript, Inserted(existing, version, date, notes, breaking), other)
         == Lookup(TypeScript, Base(existing), other)
  {
    hide Split, Scan, EntryLines, Inserted, Above, Below, Lookup, Gap, AppendIsSafe, IsVersionHeading, FindEntry;
    hide Trim, Join, NoneNamed, FenceAfter;
    var base := Base(existing);
    var e := EntryLines(version, date, notes, breaking);
    var gap := if Below(base) == [] then Gap(base) else [];
    assert BackMarks(base, e) == MarksOf(Below(base)) by {
      if Below(base) == [] { ScanNothing(FenceAfter(TypeScript, e, Closed)); ScanNothing(Closed); }
    }
    assert gap == [] || gap == [""] by { GapShape(base); }
    InsertedMarks(existing, version, date, notes, breaking);
    BaseMarks(base);
    EntryNamesNoOther(version, date, notes, breaking, other);
    EntryMarks(version, date, notes, breaking);
    SameFind(MarksOf(Above(base)), gap, MarksOf(e), MarksOf(Below(base)), other);
    LookupIs(base, other);
    LookupIs(Inserted(existing, version, date, notes, breaking), other);
    var found := FindEntry(TypeScript, MarksOf(Split(base, '\n')), other);
    if found.Some? { BlankLineTrims(found.value); }
  }

  lemma GapShape(base: string)
    ensures Gap(base) == [] || Gap(base) == [""]
  {
  }

  lemma SameFind(above: seq<Mark>, gap: seq<string>, e: seq<Mark>, below: seq<Mark>, other: string)
    requires gap == [] || (gap == [""] && below == [])
    requires Neutral(gap) && e != [] && e[0].isHeading && NoneNamed(e, other)
    requires below == [] || below[0].isHeading
    ensures var was, now := FindEntry(TypeScript, above + below, other),
                            FindEntry(TypeScript, above + MarksOf(gap) + e + below, other);
      && was.Some? == now.Some?
      && (was.Some? ==> now.value == was.value || now.value == was.value + [""])
  {
    hide FindEntry, Names, Scan, NoneNamed, Neutral;
    var g := MarksOf(gap);
    NeutralNamesNothing(gap, other);
    NamedPrefix(above, g, other);
    assert above + g + e + below == (above + g) + (e + below);
    if NoneNamed(above, other) {
      FindSkips(above, below, other);
      FindSkips(above + g, e + below, other);
      FindSkips(e, below, other);
    } else {
      FindStops(above, below, other);
      FindStops(above + g, e + below, other);
      GapTrims(above, gap, other);
    }
  }

  /** Inserting again changes nothing. */
  lemma SecondInsertionIsSkipped(
    existing: Option<string>, version: string, date: string, notes: string, breaking: string, entryText: string)
    requires Placeable(existing, version, date, notes)
    ensures var once := Inserted(existing, version, date, notes, breaking);
      UpsertEntry(Some(once), version, entryText) == Upsert(once, false)
  {
    hide Inserted, Lookup, Placeable;
    InsertedIsFound(existing, version, date, notes, breaking);
  }

  /** What was merged is what gets published: the publisher reads back the inserted entry too. */
  lemma PublisherReadsInsertedEntry(
    existing: Option<string>, version: string, date: string, notes: string, breaking: string)
    requires Insertable(existing, version, date, notes, breaking)
    requires Portable(Inserted(existing, version, date, notes, breaking), version)
    ensures Published(Inserted(existing, version, date, notes, breaking), version)
         == Some(EntryText(notes, breaking))
  {
    hide Inserted, Lookup, Placeable, Sits, Portable, Published;
    InsertedEntryReadsBack(existing, version, date, notes, breaking);
    LookupsAgree(Inserted(existing, version, date, notes, breaking), version);
  }

  // ---------------------------------------------------------------------------
  // A file that ends inside a fence
  // ---------------------------------------------------------------------------

  /** The marks of a file whose entry was appended inside its open fence. */
  lemma FencedMarks(existing: Option<string>, version: string, date: string, notes: string, breaking: string)
    requires '\n' !in version && '\n' !in date && !AppendIsSafe(Base(existing))
    requires Lookup(TypeScript, Base(existing), version).None?
    ensures var lines, e := Split(Base(existing), '\n'), EntryLines(version, date, notes, breaking);
      var open, gap := FenceAfter(TypeScript, lines, Closed), Gap(Base(existing));
      && open != Closed && FenceAfter(TypeScript, gap, open) == open
      && (forall m <- Scan(TypeScript, gap, open) :: !m.isHeading) && (forall m <- MarksOf(lines) :: !IsReleased(m))
      && MarksOf(Split(Inserted(existing, version, date, notes, breaking), '\n'))
         == MarksOf(lines) + Scan(TypeScript, gap, open) + Scan(TypeScript, e, open)
  {
    var base := Base(existing);
    var lines, e, gap := Split(base, '\n'), EntryLines(version, date, notes, breaking), Gap(base);
    var open := FenceAfter(TypeScript, lines, Closed);
    assert lines[..|lines|] == lines && lines[|lines|..] == [];
    UpsertedLines(existing, version, RenderEntry(version, date, notes, breaking));
    EntrySplits(version, date, notes, breaking);
    NoFenceLine("");
    FenceStays(gap, open);
    hide Split, Scan, FenceAfter, EntryLines, RenderEntry, UpsertEntry, Lookup, MatchFence;
    assert lines + gap + e + [] == lines + gap + e;
    ScanConcat(TypeScript, lines, gap, Closed);
    ScanConcat(TypeScript, lines + gap, e, Closed);
  }

  /** There the entry is found again exactly if one of its lines, read in that fence, is its heading. */
  lemma FencedEntryFoundExactly(
    existing: Option<string>, version: string, date: string, notes: string, breaking: string)
    requires '\n' !in version && '\n' !in date && !AppendIsSafe(Base(existing))
    requires Lookup(TypeScript, Base(existing), version).None?
    ensures var e := EntryLines(version, date, notes, breaking);
      var open := FenceAfter(TypeScript, Split(Base(existing), '\n'), Closed);
      Lookup(TypeScript, Inserted(existing, version, date, notes, breaking), version).None?
      <==> NoneNamed(Scan(TypeScript, e, open), version)
  {
    hide Split, Scan, EntryLines, Inserted, Lookup, Gap, AppendIsSafe, IsVersionHeading, FindEntry;
    hide NoneNamed, FenceAfter;
    var base := Base(existing);
    var lines, e := Split(base, '\n'), EntryLines(version, date, notes, breaking);
    var open := FenceAfter(TypeScript, lines, Closed);
    var gap := Scan(TypeScript, Gap(base), open);
    FencedMarks(existing, version, date, notes, breaking);
    LookupIs(base, version);
    FindNone(MarksOf(lines), version);
    HeadlessNamesNothing(gap, version);
    NamedPrefix(MarksOf(lines), gap, version);
    NamedPrefix(MarksOf(lines) + gap, Scan(TypeScript, e, open), version);
    LookupIs(Inserted(existing, version, date, notes, breaking), version);
    FindNone(MarksOf(Split(Inserted(existing, version, date, notes, breaking), '\n')), version);
  }

  /** So unless the entry itself holds a fence line, every further run appends it once more. */
  lemma FencedEntryIsDuplicated(
    existing: Option<string>, version: string, date: string, notes: string, breaking: string)
    requires '\n' !in version && '\n' !in date && !AppendIsSafe(Base(existing))
    requires Lookup(TypeScript, Base(existing), version).None?
    requires forall line <- EntryLines(version, date, notes, breaking) :: MatchFence(TypeScript, line).None?
    ensures var once, entry := Inserted(existing, version, date, notes, breaking),
                               RenderEntry(version, date, notes, breaking);
      UpsertEntry(Some(once), version, entry) == Upsert(once + "\n" + entry, true)
  {
    var once, entry := Inserted(existing, version, date, notes, breaking), RenderEntry(version, date, notes, breaking);
    assert once != "" && once[|once| - 1] == '\n' by { FencedEnds(existing, version, date, notes, breaking); }
    hide Split, Scan, EntryLines, Inserted, Lookup, Gap, AppendIsSafe, IsVersionHeading, NoneNamed, FenceAfter;
    hide RenderEntry, MatchFence;
    var base := Base(existing);
    var lines, e := Split(base, '\n'), EntryLines(version, date, notes, breaking);
    var open := FenceAfter(TypeScript, lines, Closed);
    FencedMarks(existing, version, date, notes, breaking);
    FencedEntryFoundExactly(existing, version, date, notes, breaking);
    FenceStays(e, open);
    HeadlessNamesNothing(Scan(TypeScript, e, open), version);
    hide UpsertEntry, FirstReleased;
    NoneReleased(MarksOf(Split(once, '\n')));
    AppendsOnce(once, version, entry);
  }

  lemma NoneReleased(marks: seq<Mark>)
    requires forall m <- marks :: !IsReleased(m)
    ensures FirstReleased(marks) == |marks|
  {
    assert forall i :: 0 <= i < |marks| ==> marks[i] in marks;
  }

  lemma AppendsOnce(content: string, version: string, entry: string)
    requires Lookup(TypeScript, content, version).None? && content != "" && content[|content| - 1] == '\n'
    requires FirstReleased(MarksOf(Split(content, '\n'))) == |MarksOf(Split(content, '\n'))|
    ensures UpsertEntry(Some(content), version, entry) == Upsert(content + "\n" + entry, true)
  {
    hide Split, Scan, Lookup, FirstReleased;
  }

  /** An appended entry ends in a newline. */
  lemma FencedEnds(existing: Option<string>, version: string, date: string, notes: string, breaking: string)
    requires !AppendIsSafe(Base(existing)) && Lookup(TypeScript, Base(existing), version).None?
    ensures var once := Inserted(existing, version, date, notes, breaking); once != "" && once[|once| - 1] == '\n'
  {
    hide Split, Scan, Lookup;
    var h, n, b := HeadingLine(version, date), RenderedNotes(notes), RenderedBreaking(breaking);
    EndsInNewline([h, "", n, "", BREAKING, "", b]);
    assert [h, "", n, "", BREAKING, "", b, ""] == [h, "", n, "", BREAKING, "", b] + [""];
  }

  lemma EndsInNewline(lines: seq<string>)
    requires lines != []
    ensures var s := Join(lines + [""], '\n'); s != "" && s[|s| - 1] == '\n'
  {
    hide Join;
    JoinConcat(lines, [""], '\n');
    JoinSingle("");
  }

  // ---------------------------------------------------------------------------
  // An entry that does not sit
  // ---------------------------------------------------------------------------

  lemma {:induction false} FenceStays(lines: seq<string>, open: Fence)
    requires forall line <- lines :: MatchFence(TypeScript, line).None?
    ensures FenceAfter(TypeScript, lines, open) == open
    ensures open != Closed ==> forall m <- Scan(TypeScript, lines, open) :: !m.isHeading
  {
    hide MatchFence;
    if lines != [] {
      assert lines[0] in lines && forall line <- lines[1..] :: line in lines;
      assert StepFence(TypeScript, lines[0], open) == (open, false);
      FenceStays(lines[1..], open);
    }
  }

  /** An entry that ends inside a fence takes every entry below it along, unless a fence line ends that. */
  lemma OpenEntrySwallows(
    existing: Option<string>, version: string, date: string, notes: string, breaking: string, other: string)
    requires Placeable(existing, version, date, notes) && PlainVersion(other) && other != version
    requires var e := EntryLines(version, date, notes, breaking);
      (forall m <- MarksOf(e[1..]) :: !m.isHeading) && FenceAfter(TypeScript, e, Closed) != Closed
    requires forall line <- Below(Base(existing)) :: MatchFence(TypeScript, line).None?
    requires NoneNamed(MarksOf(Above(Base(existing))), other)
    ensures Lookup(TypeScript, Inserted(existing, version, date, notes, breaking), other) == None
  {
    hide Split, Scan, EntryLines, Inserted, Above, Below, Lookup, Gap, AppendIsSafe, IsVersionHeading, FindEntry;
    hide NoneNamed, FenceAfter, MatchFence;
    var base := Base(existing);
    var e := EntryLines(version, date, notes, breaking);
    var gap := if Below(base) == [] then Gap(base) else [];
    InsertedMarks(existing, version, date, notes, breaking);
    EntryNamesNoOther(version, date, notes, breaking, other);
    NeutralNamesNothing(gap, other);
    FenceStays(Below(base), FenceAfter(TypeScript, e, Closed));
    HeadlessNamesNothing(BackMarks(base, e), other);
    var above, g := MarksOf(Above(base)), MarksOf(gap);
    NamedPrefix(above, g, other);
    NamedPrefix(above + g, MarksOf(e), other);
    NamedPrefix(above + g + MarksOf(e), BackMarks(base, e), other);
    FindNone(MarksOf(Split(Inserted(existing, version, date, notes, breaking), '\n')), other);
    LookupIs(Inserted(existing, version, date, notes, breaking), other);
  }

  lemma HeadlessNamesNothing(marks: seq<Mark>, version: string)
    requires forall m <- marks :: !m.isHeading
    ensures NoneNamed(marks, version)
  {
    hide IsVersionHeading;
  }

  /**
    The generator checks fragments before trimming them and renders them after. An opener
    indented by four spaces is no fence until the trim strips its indentation: the notes pass
    the check, and inserting them makes the release below disappear.
   */
  lemma TrimmingCanOpenAFence(notes: string, heading: string, body: string, date: string)
    requires notes == "    ```" && heading == "## 1" && body == "x" && '\n' !in date
    ensures !HasUnclosedFence(notes) && !HasUnclosedFence("")
    ensures Lookup(TypeScript, heading + "\n" + body, "1") == Some(body)
    ensures Lookup(TypeScript, Inserted(Some(heading + "\n" + body), "2", date, notes, ""), "1") == None
  {
    hide *;
    FragmentsPass(notes);
    ReleaseFacts(heading, body);
    NotUnreleased(heading);
    OneVersion(heading);
    OpenNotes(notes, date);
    SwallowedRelease(heading, body, "1", "2", date, notes, "");
  }

  lemma SwallowedRelease(
    heading: string, body: string, released: string, added: string, date: string, notes: string, breaking: string)
    requires '\n' !in heading && '\n' !in body && HEADING <= heading && !(HEADING <= body) && Tight(body, JsSpace)
    requires MatchFence(TypeScript, heading).None? && MatchFence(TypeScript, body).None?
    requires !IsUnreleasedHeading(heading)
    requires IsVersionHeading(TypeScript, heading, released) && !IsVersionHeading(TypeScript, heading, added)
    requires PlainVersion(released) && PlainVersion(added) && '\n' !in date && Trim(notes, JsSpace) != ""
    requires var e := EntryLines(added, date, notes, breaking);
      (forall m <- MarksOf(e[1..]) :: !m.isHeading) && FenceAfter(TypeScript, e, Closed) != Closed
    ensures Lookup(TypeScript, heading + "\n" + body, released) == Some(body)
    ensures Lookup(TypeScript, Inserted(Some(heading + "\n" + body), added, date, notes, breaking), released) == None
  {
    var base := heading + "\n" + body;
    hide Split, EntryLines, Inserted, Above, Below, Lookup, AppendIsSafe, Trim, MatchFence, Tight, PlainVersion;
    hide IsVersionHeading, IsUnreleasedHeading, Scan, FenceAfter, NoneNamed;
    assert added != released;
    OneRelease(base, heading, body, released);
    OneRelease(base, heading, body, added);
    EmptyScan();
    HeadlessNamesNothing([], released);
    hide *;
    OpenEntrySwallows(Some(base), added, date, notes, breaking, released) by {
      assert Base(Some(base)) == base;
      assert Placeable(Some(base), added, date, notes);
    }
  }

  lemma NoFenceLine(line: string)
    requires line == "" || (line[0] != ' ' && line[0] != '`' && line[0] != '~')
    ensures MatchFence(TypeScript, line).None?
  {
    assert Run(line, ' ') == 0;
  }

  lemma FragmentsPass(notes: string)
    requires notes == "    ```"
    ensures !HasUnclosedFence(notes) && !HasUnclosedFence("") && Trim(notes, JsSpace) == "```" != ""
  {
    hide Trim, StepFence;
    var fence := "```";
    SplitWord(notes);
    SplitWord("");
    assert notes == "    " + fence + "";
    TrimAround("    ", fence, "", JsSpace);
    OneLineFence(notes);
    OneLineFence("");
    IndentedIsNoFence();
    EmptyIsNoFence();
  }

  lemma EmptyIsNoFence()
    ensures StepFence(TypeScript, "", Closed) == (Closed, false)
  {
  }

  /** A file that is one release of one line. */
  lemma OneRelease(base: string, heading: string, body: string, version: string)
    requires '\n' !in heading && '\n' !in body && base == heading + "\n" + body
    requires HEADING <= heading && !IsUnreleasedHeading(heading)
    requires MatchFence(TypeScript, body).None? && !(HEADING <= body) && Tight(body, JsSpace)
    ensures AppendIsSafe(base) && Above(base) == [] && Below(base) == [heading, body]
    ensures Lookup(TypeScript, base, version)
         == if IsVersionHeading(TypeScript, heading, version) then Some(body) else None
  {
    SplitConcat(heading, body, '\n');
    SplitWord(heading);
    SplitWord(body);
    var lines := [heading, body];
    assert [heading] + [body] == lines;
    HashSteps(heading, Closed);
    hide MatchFence, Split, IsVersionHeading, IsUnreleasedHeading, Trim;
    TwoMarks(TypeScript, heading, body, Closed);
    var marks := Scan(TypeScript, lines, Closed);
    assert marks == [Mark(heading, true, false), Mark(body, false, false)];
    assert FirstReleased(marks) == 0 && lines[..0] == [] && lines[0..] == lines;
    hide FindEntry, Scan, FirstReleased;
    TwoMarkFind(marks, version);
    JoinSingle(body);
    TightIsTrimmed(body, JsSpace);
    LookupIs(base, version);
  }

  lemma TwoMarkFind(marks: seq<Mark>, version: string)
    requires |marks| == 2 && !marks[1].isHeading
    ensures FindEntry(TypeScript, marks, version) ==
            if Names(TypeScript, marks[0], version) then Some([marks[1].text]) else None
  {
    hide IsVersionHeading;
    assert marks[1..] == [marks[1]] && marks[1..][1..] == [];
    assert BodyOf([]) == [] && [marks[1].text] + [] == [marks[1].text];
    assert BodyOf(marks[1..]) == [marks[1].text] + BodyOf(marks[1..][1..]);
    assert FindEntry(TypeScript, [], version) == None;
    assert FindEntry(TypeScript, marks[1..], version) == FindEntry(TypeScript, [], version);
  }

  lemma ReleaseFacts(heading: string, body: string)
    requires heading == "## 1" && body == "x"
    ensures '\n' !in heading && '\n' !in body && HEADING <= heading && !(HEADING <= body) && Tight(body, JsSpace)
    ensures MatchFence(TypeScript, heading).None? && MatchFence(TypeScript, body).None?
    ensures PlainVersion("1") && PlainVersion("2")
  {
    NoFenceLine(body);
    NoFenceLine(heading);
  }

  lemma NotUnreleased(heading: string)
    requires heading == "## 1"
    ensures !IsUnreleasedHeading(heading)
  {
    assert |Lower(heading)| == 4;
  }

  lemma OneVersion(heading: string)
    requires heading == "## 1"
    ensures IsVersionHeading(TypeScript, heading, "1") && !IsVersionHeading(TypeScript, heading, "2")
  {
    assert HEADING + "1" == heading;
    assert (HEADING + "2")[3] == '2' && (HEADING + "[" + "2")[3] == '[';
    assert (HEADING + "2" + "]")[3] == '2' && (HEADING + "[" + "2" + "]")[3] == '[';
  }

  /** Such notes leave the fence open, and no heading below the entry's own. */
  lemma OpenNotes(notes: string, date: string)
    requires notes == "    ```"
    ensures var e := EntryLines("2", date, notes, "");
      (forall m <- MarksOf(e[1..]) :: !m.isHeading) && FenceAfter(TypeScript, e, Closed) != Closed
  {
    var fence := "```";
    FenceRenders(notes, fence);
    BareFenceOpens();
    EmptyIsNoFence();
    hide *;
    EntryMarks("2", date, notes, "");
    EntryOf("2", date, notes, "", fence);
    RestHasNoFence();
    OpensAndStays("", fence, ["", BREAKING, "", "None.", ""], Open('`', 3));
  }

  lemma FenceRenders(notes: string, fence: string)
    requires notes == "    ```" && fence == "```"
    ensures RenderedNotes(notes) == fence && Split(fence, '\n') == [fence]
    ensures RenderedBreaking("") == "None." && Split("None.", '\n') == ["None."]
  {
    hide Split, Trim, DemoteFragmentHeadings;
    FragmentsPass(notes);
    FenceIsKept(fence);
    TightIsTrimmed("", JsSpace);
    SplitWord(fence);
    SplitWord("None.");
  }

  lemma RestHasNoFence()
    ensures forall line <- ["", BREAKING, "", "None.", ""] :: MatchFence(TypeScript, line).None?
    ensures !(HEADING <= "")
  {
    hide MatchFence;
    NoFenceLine("");
    NoFenceLine(BREAKING);
    NoFenceLine("None.");
  }

  lemma EntryOf(version: string, date: string, notes: string, breaking: string, fence: string)
    requires RenderedNotes(notes) == fence && Split(fence, '\n') == [fence]
    requires RenderedBreaking(breaking) == "None." && Split("None.", '\n') == ["None."]
    ensures EntryLines(version, date, notes, breaking)[1..] == [""] + ([fence] + ["", BREAKING, "", "None.", ""])
  {
    hide Split, RenderedNotes, RenderedBreaking;
  }

  lemma OpensAndStays(first: string, fence: string, rest: seq<string>, open: Fence)
    requires StepFence(TypeScript, first, Closed) == (Closed, false) && !(HEADING <= first)
    requires StepFence(TypeScript, fence, Closed) == (open, true) && open != Closed
    requires forall line <- rest :: MatchFence(TypeScript, line).None?
    ensures var lines := [first] + ([fence] + rest);
      FenceAfter(TypeScript, lines, Closed) == open && forall m <- MarksOf(lines) :: !m.isHeading
  {
    hide StepFence, MatchFence;
    FenceStays(rest, open);
    var lines := [first] + ([fence] + rest);
    assert lines[1..] == [fence] + rest && ([fence] + rest)[1..] == rest;
    assert Scan(TypeScript, lines[1..], Closed)
        == [MarkOf(TypeScript, fence, Closed)] + Scan(TypeScript, rest, open);
  }

  lemma FenceIsKept(fence: string)
    requires fence == "```"
    ensures DemoteFragmentHeadings(fence) == fence
  {
    SplitWord(fence);
    BareFenceOpens();
    hide Split, StepFence;
    var marks := Scan(TypeScript, [fence], Closed);
    assert [fence][1..] == [];
    assert marks == [MarkOf(TypeScript, fence, Closed)] && marks[1..] == [];
    assert DemoteMarks(marks) == [fence] + [];
  }

  lemma IndentedIsNoFence()
    ensures StepFence(TypeScript, "    ```", Closed) == (Closed, false)
  {
    var s := "    ```";
    assert Run(s, ' ') == 4 by {
      assert s[1..] == "   ```" && s[1..][1..] == "  ```";
      assert s[1..][1..][1..] == " ```" && s[1..][1..][1..][1..] == "```";
    }
  }

  lemma BareFenceOpens()
    ensures StepFence(TypeScript, "```", Closed) == (Open('`', 3), true)
  {
    var s := "```";
    assert Run(s, ' ') == 0 && s[0..] == s;
    assert Run(s, '`') == 3 by {
      assert s[1..] == "``" && s[1..][1..] == "`" && s[1..][1..][1..] == "";
    }
    assert s[3..] == "";
  }

  lemma OneLineFence(line: string)
    ensures FenceAfter(TypeScript, [line], Closed) == StepFence(TypeScript, line, Closed).0
  {
    hide StepFence;
    assert [line][1..] == [];
  }
}
