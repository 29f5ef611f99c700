/** Inserting an entry and reading the changelog back. */
module ChangelogInsert {
  import opened Options
  import opened Text
  import opened Fences
  import opened Changelog

  // ---------------------------------------------------------------------------
  // Demoting headings
  // ---------------------------------------------------------------------------

  lemma HashLineIsNoFence(line: string, open: Fence)
    requires line != [] && line[0] == '#'
    ensures StepFence(TypeScript, line, open) == (open, false)
  {
    assert Run(line, ' ') == 0;
  }

  /** Demoting a line leaves the fence state alone and removes its standing as a heading. */
  lemma DemotedLine(line: string, open: Fence)
    ensures var m := MarkOf(TypeScript, line, open);
      && StepFence(TypeScript, DemoteLine(m), open).0 == StepFence(TypeScript, line, open).0
      && !MarkOf(TypeScript, DemoteLine(m), open).isHeading
      && MarkOf(TypeScript, DemoteLine(m), open).inFence == m.inFence
  {
    var m := MarkOf(TypeScript, line, open);
    if !m.inFence && IsShallowHeading(line) {
      HashLineIsNoFence(line, open);
      HashLineIsNoFence(DemoteLine(m), open);
      assert DemoteLine(m)[2] == '#';
    }
  }

  lemma {:induction false} DemotedLines(lines: seq<string>, open: Fence)
    ensures var out := DemoteMarks(Scan(TypeScript, lines, open));
      && |out| == |lines|
      && FenceAfter(TypeScript, out, open) == FenceAfter(TypeScript, lines, open)
      && (forall m <- Scan(TypeScript, out, open) :: !m.isHeading)
  {
    hide StepFence, MarkOf, DemoteLine;
    if lines != [] {
      var next := StepFence(TypeScript, lines[0], open).0;
      var marks := Scan(TypeScript, lines, open);
      assert marks[1..] == Scan(TypeScript, lines[1..], next);
      DemotedLines(lines[1..], next);
      DemotedLine(lines[0], open);
      var out := DemoteMarks(marks);
      assert out[1..] == DemoteMarks(marks[1..]);
    }
  }

  lemma {:induction false} DemotedHasNoNewline(lines: seq<string>, open: Fence)
    requires forall l <- lines :: '\n' !in l
    ensures forall l <- DemoteMarks(Scan(TypeScript, lines, open)) :: '\n' !in l
  {
    hide StepFence;
    if lines != [] {
      var next := StepFence(TypeScript, lines[0], open).0;
      var marks := Scan(TypeScript, lines, open);
      assert marks[1..] == Scan(TypeScript, lines[1..], next);
      DemotedHasNoNewline(lines[1..], next);
      DemotedLineChars(marks[0]);
    }
  }

  lemma DemotedLineChars(m: Mark)
    requires '\n' !in m.text
    ensures '\n' !in DemoteLine(m)
  {
  }

  /** A demoted fragment's lines: no heading among them, and the fence state they end in is the original's. */
  lemma DemotedText(text: string)
    ensures var lines := Split(DemoteFragmentHeadings(text), '\n');
      && lines == DemoteMarks(Scan(TypeScript, Split(text, '\n'), Closed))
      && (forall m <- Scan(TypeScript, lines, Closed) :: !m.isHeading)
      && FenceAfter(TypeScript, lines, Closed) == FenceAfter(TypeScript, Split(text, '\n'), Closed)
  {
    hide Split, Join, Scan, DemoteMarks;
    var lines := Split(text, '\n');
    var out := DemoteMarks(Scan(TypeScript, lines, Closed));
    DemotedLines(lines, Closed);
    DemotedHasNoNewline(lines, Closed);
    SplitJoin(out, '\n');
  }

  lemma {:induction false} DemoteAgain(lines: seq<string>, open: Fence)
    ensures var out := DemoteMarks(Scan(TypeScript, lines, open));
      DemoteMarks(Scan(TypeScript, out, open)) == out
  {
    hide StepFence, MarkOf, DemoteLine;
    if lines != [] {
      var next := StepFence(TypeScript, lines[0], open).0;
      var marks := Scan(TypeScript, lines, open);
      assert marks[1..] == Scan(TypeScript, lines[1..], next);
      DemoteAgain(lines[1..], next);
      DemotedLine(lines[0], open);
      DemoteLineAgain(lines[0], open);
      var out := DemoteMarks(marks);
      assert out[1..] == DemoteMarks(marks[1..]);
      var again := Scan(TypeScript, out, open);
      assert again[1..] == Scan(TypeScript, out[1..], next);
    }
  }

  lemma DemoteLineAgain(line: string, open: Fence)
    ensures var once := DemoteLine(MarkOf(TypeScript, line, open));
      DemoteLine(MarkOf(TypeScript, once, open)) == once
  {
    DemotedLine(line, open);
    var m := MarkOf(TypeScript, line, open);
    if !m.inFence && IsShallowHeading(line) {
      assert DemoteLine(m)[1] == '#' && DemoteLine(m)[2] == '#';
    }
  }

  /** Demoting twice is demoting once. */
  lemma DemoteIsIdempotent(text: string)
    ensures DemoteFragmentHeadings(DemoteFragmentHeadings(text)) == DemoteFragmentHeadings(text)
  {
    hide Split, Join, Scan, DemoteMarks;
    DemotedText(text);
    DemoteAgain(Split(text, '\n'), Closed);
  }

  // ---------------------------------------------------------------------------
  // The lines of a rendered entry
  // ---------------------------------------------------------------------------

  function EntryLines(version: string, date: string, notes: string, breaking: string): seq<string> {
    [HeadingLine(version, date), ""] + Split(RenderedNotes(notes), '\n')
    + ["", BREAKING, ""] + Split(RenderedBreaking(breaking), '\n') + [""]
  }

  lemma SplitWord(s: string)
    requires '\n' !in s
    ensures Split(s, '\n') == [s]
  {
  }

  lemma SplitTwo(a: seq<string>, b: seq<string>)
    requires a != [] && b != []
    ensures Split(Join(a + b, '\n'), '\n') == Split(Join(a, '\n'), '\n') + Split(Join(b, '\n'), '\n')
  {
    hide Split, Join;
    JoinConcat(a, b, '\n');
    SplitConcat(Join(a, '\n'), Join(b, '\n'), '\n');
  }

  lemma JoinSingle(s: string)
    ensures Join([s], '\n') == s
  {
  }

  lemma EntrySplits(version: string, date: string, notes: string, breaking: string)
    requires '\n' !in version && '\n' !in date
    ensures Split(RenderEntry(version, date, notes, breaking), '\n') == EntryLines(version, date, notes, breaking)
  {
    hide Split, Join, RenderedNotes, RenderedBreaking;
    var h, n, b := HeadingLine(version, date), RenderedNotes(notes), RenderedBreaking(breaking);
    assert '\n' !in h;
    var top, mid, end := [h, ""], ["", BREAKING, ""], [""];
    assert [h, "", n, "", BREAKING, "", b, ""] == top + ([n] + (mid + ([b] + end)));
    SplitTwo(top, [n] + (mid + ([b] + end)));
    SplitTwo([n], mid + ([b] + end));
    SplitTwo(mid, [b] + end);
    SplitTwo([b], end);
    JoinSingle(n);
    JoinSingle(b);
    SplitJoin(top, '\n');
    SplitJoin(mid, '\n');
    SplitJoin(end, '\n');
    var sn, sb := Split(n, '\n'), Split(b, '\n');
    assert top + (sn + (mid + (sb + end))) == top + sn + mid + sb + end;
  }

  /** The rendered notes end outside every fence. */
  ghost predicate FenceClosed(notes: string, breaking: string) {
    !HasUnclosedFence(Trim(notes, JsSpace)) && !HasUnclosedFence(Trim(breaking, JsSpace))
  }

  /** Neutral lines: no heading among them, and a closed fence state stays closed. */
  ghost predicate Neutral(lines: seq<string>) {
    && (forall m <- Scan(TypeScript, lines, Closed) :: !m.isHeading)
    && FenceAfter(TypeScript, lines, Closed) == Closed
  }

  lemma NeutralConcat(a: seq<string>, b: seq<string>)
    requires Neutral(a) && Neutral(b)
    ensures Neutral(a + b)
  {
    hide Scan, FenceAfter;
    ScanConcat(TypeScript, a, b, Closed);
  }

  lemma PlainLineIsNeutral(line: string)
    requires line == "" || line == BREAKING || line == "None."
    ensures Neutral([line])
  {
    assert Run(line, ' ') == 0;
    assert StepFence(TypeScript, line, Closed) == (Closed, false);
    assert [line][1..] == [];
    assert Scan(TypeScript, [line], Closed) == [MarkOf(TypeScript, line, Closed)];
    assert !(HEADING <= line) by { if line == BREAKING { assert BREAKING[2] == '#'; } }
  }

  lemma NotesAreNeutral(notes: string)
    requires !HasUnclosedFence(notes)
    ensures Neutral(Split(DemoteFragmentHeadings(notes), '\n'))
  {
    hide Split, Scan, DemoteFragmentHeadings;
    DemotedText(notes);
  }

  lemma EntryTailIsNeutral(version: string, date: string, notes: string, breaking: string)
    requires FenceClosed(notes, breaking)
    ensures Neutral(EntryLines(version, date, notes, breaking)[1..])
  {
    hide Split, Neutral, DemoteFragmentHeadings;
    var n, b := Split(RenderedNotes(notes), '\n'), Split(RenderedBreaking(breaking), '\n');
    NotesAreNeutral(Trim(notes, JsSpace));
    PlainLineIsNeutral("");
    PlainLineIsNeutral(BREAKING);
    PlainLineIsNeutral("None.");
    SplitWord("None.");
    if Trim(breaking, JsSpace) != "" { NotesAreNeutral(Trim(breaking, JsSpace)); }
    NeutralConcat([""], n);
    NeutralConcat([""] + n, [""]);
    NeutralConcat([""] + n + [""], [BREAKING]);
    NeutralConcat([""] + n + [""] + [BREAKING], [""]);
    NeutralConcat([""] + n + [""] + [BREAKING] + [""], b);
    NeutralConcat([""] + n + [""] + [BREAKING] + [""] + b, [""]);
    assert EntryLines(version, date, notes, breaking)[1..]
        == [""] + n + [""] + [BREAKING] + [""] + b + [""];
  }

  // ---------------------------------------------------------------------------
  // Finding entries in a concatenation
  // ---------------------------------------------------------------------------

  ghost predicate NoneNamed(marks: seq<Mark>, version: string) {
    forall m <- marks :: !Names(TypeScript, m, version)
  }

  lemma {:induction false} FindNone(marks: seq<Mark>, version: string)
    ensures FindEntry(TypeScript, marks, version).None? <==> NoneNamed(marks, version)
  {
    hide Names;
    if marks != [] {
      FindNone(marks[1..], version);
      assert marks == [marks[0]] + marks[1..];
    }
  }

  lemma {:induction false} FindSkips(a: seq<Mark>, b: seq<Mark>, version: string)
    requires NoneNamed(a, version)
    ensures FindEntry(TypeScript, a + b, version) == FindEntry(TypeScript, b, version)
  {
    hide Names;
    if a == [] {
      assert a + b == b;
    } else {
      assert (a + b)[1..] == a[1..] + b && (a + b)[0] == a[0];
      FindSkips(a[1..], b, version);
    }
  }

  lemma {:induction false} BodyStops(a: seq<Mark>, b: seq<Mark>)
    requires b == [] || b[0].isHeading
    ensures BodyOf(a + b) == BodyOf(a)
  {
    if a == [] {
      assert a + b == b;
    } else {
      assert (a + b)[1..] == a[1..] + b && (a + b)[0] == a[0];
      BodyStops(a[1..], b);
    }
  }

  /** An entry that begins before a heading also ends before it. */
  lemma {:induction false} FindStops(a: seq<Mark>, b: seq<Mark>, version: string)
    requires !NoneNamed(a, version) && (b == [] || b[0].isHeading)
    ensures FindEntry(TypeScript, a + b, version) == FindEntry(TypeScript, a, version)
  {
    hide Names;
    assert (a + b)[1..] == a[1..] + b && (a + b)[0] == a[0];
    if Names(TypeScript, a[0], version) {
      BodyStops(a[1..], b);
    } else {
      assert a == [a[0]] + a[1..];
      FindStops(a[1..], b, version);
    }
  }

  lemma {:induction false} BodyOfNeutral(marks: seq<Mark>)
    requires forall m <- marks :: !m.isHeading
    ensures |BodyOf(marks)| == |marks| && forall i :: 0 <= i < |marks| ==> BodyOf(marks)[i] == marks[i].text
  {
    if marks != [] {
      assert marks[0] in marks;
      BodyOfNeutral(marks[1..]);
    }
  }

  /** Versions as the release scripts have them. */
  predicate PlainVersion(v: string) {
    ' ' !in v && '[' !in v && ']' !in v && '\n' !in v
  }

  /** A space-free word that a space ends is exactly the word before the first space. */
  lemma FirstWord(q: string, word: string, rest: string)
    requires ' ' !in q && ' ' !in word
    ensures var w := word + " " + rest;
      (q <= w && (|w| == |q| || w[|q|] == ' ')) <==> q == word
  {
    var w := word + " " + rest;
    if |q| < |word| {
      assert w[|q|] == word[|q|] && word[|q|] in word;
    } else if |q| > |word| {
      assert w[|word|] == ' ' && q[|word|] in q;
    } else {
      assert w[..|q|] == word;
    }
  }

  lemma HeadingWithWord(q: string, version: string, date: string)
    requires ' ' !in q && ' ' !in version
    ensures HeadingWith(HeadingLine(version, date), HEADING + q, TypeScript) <==> q == version
  {
    var rest := "\U{2014} " + date;
    var w := version + " " + rest;
    var h := HeadingLine(version, date);
    assert h == HEADING + w;
    FirstWord(q, version, rest);
    var p := HEADING + q;
    assert p <= h <==> q <= w by {
      if p <= h { assert forall i :: 0 <= i < |q| ==> p[3 + i] == q[i] && h[3 + i] == w[i]; }
    }
    assert |q| < |w| ==> h[|p|] == w[|q|];
  }

  /** The rendered heading names its own version and no other. */
  lemma HeadingNamesOnly(version: string, date: string, other: string)
    requires PlainVersion(version) && PlainVersion(other)
    ensures IsVersionHeading(TypeScript, HeadingLine(version, date), other) <==> version == other
  {
    hide HeadingWith, HeadingLine;
    var a, b, c := "[" + other, other + "]", "[" + other + "]";
    assert HEADING + "[" + other == HEADING + a && HEADING + other + "]" == HEADING + b
        && HEADING + "[" + other + "]" == HEADING + c;
    HeadingWithWord(other, version, date);
    HeadingWithWord(a, version, date);
    HeadingWithWord(b, version, date);
    HeadingWithWord(c, version, date);
    assert a[0] == '[' && c[0] == '[' && b[|other|] == ']';
  }

  // ---------------------------------------------------------------------------
  // The trimmed body of a rendered entry
  // ---------------------------------------------------------------------------

  lemma {:induction false} DemotedEnds(lines: seq<string>, open: Fence)
    requires lines != []
    ensures var out := DemoteMarks(Scan(TypeScript, lines, open));
      && out != []
      && (lines[0] != "" && !JsSpace(lines[0][0]) ==> out[0] != "" && !JsSpace(out[0][0]))
      && var l, o := lines[|lines| - 1], out[|out| - 1];
         (l != "" && !JsSpace(l[|l| - 1]) ==> o != "" && !JsSpace(o[|o| - 1]))
  {
    hide StepFence, DemoteLine;
    var next := StepFence(TypeScript, lines[0], open).0;
    var marks := Scan(TypeScript, lines, open);
    assert marks[1..] == Scan(TypeScript, lines[1..], next);
    DemotedLineEnds(marks[0]);
    if |lines| > 1 { DemotedEnds(lines[1..], next); }
  }

  lemma DemotedLineEnds(m: Mark)
    ensures var l, o := m.text, DemoteLine(m);
      && (l != "" && !JsSpace(l[0]) ==> o != "" && !JsSpace(o[0]))
      && (l != "" && !JsSpace(l[|l| - 1]) ==> o != "" && !JsSpace(o[|o| - 1]))
  {
    var l := m.text;
    if !m.inFence && IsShallowHeading(l) && !JsSpace(l[|l| - 1]) {
      var k := Run(l, '#');
      assert k <= 2 by { assert l[1] == ' ' || l[2] == ' '; }
      var rest := l[k..];
      assert rest[|rest| - 1] == l[|l| - 1];
      assert Run(rest, ' ') < |rest|;
    }
  }

  lemma {:induction false} JoinEnds(lines: seq<string>)
    requires lines != [] && lines[0] != "" && lines[|lines| - 1] != ""
    ensures var t := Join(lines, '\n');
      && t != "" && t[0] == lines[0][0]
      && t[|t| - 1] == lines[|lines| - 1][|lines[|lines| - 1]| - 1]
  {
    if |lines| > 1 {
      JoinLast(lines);
    }
  }

  lemma {:induction false} JoinLast(lines: seq<string>)
    requires lines != [] && lines[|lines| - 1] != ""
    ensures var t := Join(lines, '\n'); var l := lines[|lines| - 1];
      t != "" && t[|t| - 1] == l[|l| - 1]
  {
    if |lines| > 1 {
      JoinLast(lines[1..]);
    }
  }

  lemma SplitEnds(s: string)
    requires s != "" && s[0] != '\n' && s[|s| - 1] != '\n'
    ensures var lines := Split(s, '\n');
      && lines[0] != "" && lines[0][0] == s[0]
      && var l := lines[|lines| - 1]; l != "" && l[|l| - 1] == s[|s| - 1]
  {
    hide Split;
    SplitCons(s, '\n');
    SplitLast(s);
  }

  lemma {:induction false} SplitLast(s: string)
    requires s != "" && s[|s| - 1] != '\n'
    ensures var lines := Split(s, '\n'); var l := lines[|lines| - 1];
      l != "" && l[|l| - 1] == s[|s| - 1]
  {
    hide Split;
    SplitCons(s, '\n');
    if |s| > 1 {
      SplitLast(s[1..]);
    } else {
      SplitWord(s[1..]);
    }
  }

  /** Demoting a trimmed, non-empty text leaves it trimmed and non-empty. */
  lemma DemotedIsTight(text: string)
    requires Tight(text, JsSpace) && text != ""
    ensures Tight(DemoteFragmentHeadings(text), JsSpace) && DemoteFragmentHeadings(text) != ""
  {
    hide Split, Join, DemoteMarks;
    SplitEnds(text);
    var lines := Split(text, '\n');
    DemotedEnds(lines, Closed);
    JoinEnds(DemoteMarks(Scan(TypeScript, lines, Closed)));
  }

  lemma EntryTextIsTight(notes: string, breaking: string)
    requires Trim(notes, JsSpace) != ""
    ensures Tight(EntryText(notes, breaking), JsSpace) && EntryText(notes, breaking) != ""
  {
    hide DemoteFragmentHeadings, Trim;
    TrimIsTight(notes, JsSpace);
    TrimIsTight(breaking, JsSpace);
    DemotedIsTight(Trim(notes, JsSpace));
    if Trim(breaking, JsSpace) != "" { DemotedIsTight(Trim(breaking, JsSpace)); }
    var t, n, b := EntryText(notes, breaking), RenderedNotes(notes), RenderedBreaking(breaking);
    assert t[0] == n[0] && t[|t| - 1] == b[|b| - 1];
  }

  /** The body under the heading, trimmed, is the notes and the breaking-changes section. */
  lemma EntryBodyTrims(version: string, date: string, notes: string, breaking: string)
    requires Trim(notes, JsSpace) != ""
    ensures Trim(Join(EntryLines(version, date, notes, breaking)[1..], '\n'), JsSpace) == EntryText(notes, breaking)
  {
    hide Split, Join, RenderedNotes, RenderedBreaking, Trim;
    var n, b := RenderedNotes(notes), RenderedBreaking(breaking);
    var sn, sb := Split(n, '\n'), Split(b, '\n');
    var mid := ["", BREAKING, ""];
    var body := EntryLines(version, date, notes, breaking)[1..];
    assert body == [""] + (sn + (mid + (sb + [""])));
    JoinConcat([""], sn + (mid + (sb + [""])), '\n');
    JoinConcat(sn, mid + (sb + [""]), '\n');
    JoinConcat(mid, sb + [""], '\n');
    JoinConcat(sb, [""], '\n');
    JoinSplit(n, '\n');
    JoinSplit(b, '\n');
    JoinSingle("");
    assert Join(mid, '\n') == "\n" + BREAKING + "\n" by { JoinMiddle(); }
    var t := EntryText(notes, breaking);
    BodyText(n, b);
    EntryTextIsTight(notes, breaking);
    TrimAround("\n", t, "\n", JsSpace);
  }

  lemma JoinMiddle()
    ensures Join(["", BREAKING, ""], '\n') == "\n" + BREAKING + "\n"
  {
    assert ["", BREAKING, ""][1..] == [BREAKING, ""];
    assert [BREAKING, ""][1..] == [""];
    assert Join([BREAKING, ""], '\n') == BREAKING + "\n" + Join([""], '\n');
  }

  lemma BodyText(n: string, b: string)
    ensures "" + "\n" + (n + "\n" + (("\n" + BREAKING + "\n") + "\n" + (b + "\n" + "")))
         == "\n" + (n + "\n\n" + BREAKING + "\n\n" + b) + "\n"
  {
  }
}
