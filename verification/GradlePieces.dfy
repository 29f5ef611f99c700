/** The Gradle parser on written scripts: from the pieces a script is made of, which version it reports. */
module GradlePieces {
  import opened Options
  import opened Text
  import opened Gradle

  /** What a block comment holds: text, and block comments again. */
  datatype Remark = Prose(text: string) | Nested(body: seq<Remark>)

  /** `Quoted` is a literal in single or double quotes, `Raw` one in three double quotes. */
  datatype Piece =
    | Blank(text: string)
    | LineNote(text: string)
    | BlockNote(body: seq<Remark>)
    | Quoted(quote: char, text: string)
    | Raw(text: string)
    | Word(text: string)
    | Sign(c: char)

  const TRIPLE := "\"\"\""

  function RenderRemark(r: Remark): string
    decreases r, 1
  {
    match r
    case Prose(text) => text
    case Nested(body) => "/*" + RenderRemarks(body) + "*/"
  }

  function RenderRemarks(body: seq<Remark>): string
    decreases body, 0
  {
    if body == [] then "" else RenderRemark(body[0]) + RenderRemarks(body[1..])
  }

  function Render(p: Piece): string {
    match p
    case Blank(text) => text
    case LineNote(text) => "//" + text + "\n"
    case BlockNote(body) => "/*" + RenderRemarks(body) + "*/"
    case Quoted(quote, text) => [quote] + text + [quote]
    case Raw(text) => TRIPLE + text + TRIPLE
    case Word(text) => text
    case Sign(c) => [c]
  }

  function RenderAll(ps: seq<Piece>): string {
    if ps == [] then "" else Render(ps[0]) + RenderAll(ps[1..])
  }

  // ---------------------------------------------------------------------------
  // Scripts that are written unambiguously
  // ---------------------------------------------------------------------------

  /** ASCII letters, underscore and dollar; behind the first also digits and the Unicode word characters. */
  predicate FirstChar(c: char) { var n := c as int; 97 <= n <= 122 || 65 <= n <= 90 || n == 95 || n == 36 }

  predicate LaterChar(c: char, word: Words) { FirstChar(c) || 48 <= c as int <= 57 || word(c) }

  /** No comment mark begins in the text, read on into what follows. */
  predicate Calm(text: string, after: string) {
    forall i :: 0 <= i < |text| ==> !("/*" <= (text + after)[i..]) && !("*/" <= (text + after)[i..])
  }

  ghost predicate RemarkOk(r: Remark, after: string)
    decreases r, 1
  {
    match r
    case Prose(text) => Calm(text, after)
    case Nested(body) => RemarksOk(body, "*/")
  }

  ghost predicate RemarksOk(body: seq<Remark>, after: string)
    decreases body, 0
  {
    body != [] ==> RemarkOk(body[0], RenderRemarks(body[1..]) + after) && RemarksOk(body[1..], after)
  }

  /** Inside quotes: a backslash takes the next character with it, and neither is a lone quote. */
  predicate Escaped(text: string, quote: char)
    decreases |text|
  {
    if text == "" then true
    else if text[0] == '\\' then |text| > 1 && Escaped(text[2..], quote)
    else text[0] != quote && Escaped(text[1..], quote)
  }

  /** The piece, followed by `after`, can be read in one way only. */
  ghost predicate PieceOk(p: Piece, after: string, word: Words) {
    match p
    case Blank(text) => text != "" && AllSpace(text, PySpace)
    case LineNote(text) => '\n' !in text
    case BlockNote(body) => RemarksOk(body, "*/")
    case Quoted(quote, text) =>
      (quote == '"' || quote == '\'') && Escaped(text, quote) && !(TRIPLE <= Render(p) + after)
    case Raw(text) => forall i :: 0 <= i < |text| ==> !(TRIPLE <= (text + TRIPLE)[i..])
    case Word(text) =>
      && text != "" && FirstChar(text[0]) && (forall c <- text :: LaterChar(c, word))
      && (after == "" || !LaterChar(after[0], word))
    case Sign(c) =>
      && !PySpace(c) && c != '"' && c != '\'' && !FirstChar(c)
      && (c == '/' ==> after == "" || (after[0] != '/' && after[0] != '*'))
  }

  ghost predicate ScriptOk(ps: seq<Piece>, word: Words) {
    ps != [] ==> PieceOk(ps[0], RenderAll(ps[1..]), word) && ScriptOk(ps[1..], word)
  }

  // ---------------------------------------------------------------------------
  // Which version it has
  // ---------------------------------------------------------------------------

  predicate Trivia(p: Piece) { p.Blank? || p.LineNote? || p.BlockNote? }

  /** From the first piece that is neither space nor comment. */
  function Significant(ps: seq<Piece>): (r: seq<Piece>)
    ensures |RenderAll(r)| <= |RenderAll(ps)|
    ensures r != [] ==> !Trivia(r[0])
  {
    if ps != [] && Trivia(ps[0]) then Significant(ps[1..]) else ps
  }

  /** An equals sign comes next, and not a second one right behind it. */
  predicate EqualsNext(ps: seq<Piece>) {
    var s := Significant(ps);
    s != [] && s[0] == Sign('=') && !(|s| > 1 && s[1] == Sign('='))
  }

  /** The value behind an equals sign: the inside of a literal in double quotes, one or three. */
  function ValueOf(ps: seq<Piece>, base: nat): Result {
    var s := Significant(ps);
    var at := base + |RenderAll(ps)| - |RenderAll(s)|;
    if s != [] && s[0].Raw? then Found(at + 3, at + 3 + |s[0].text|)
    else if s != [] && s[0].Quoted? && s[0].quote == '"' then Found(at + 1, at + 1 + |s[0].text|)
    else NotQuoted
  }

  /** Behind a dot, `val`, `var` or a backtick the word is not the project's version. */
  predicate Taken(previous: string) { previous in {".", "val", "var", "`"} }

  /** The first `version =` outside all brackets, and what it is set to; `depth` brackets are open in front. */
  function Answer(ps: seq<Piece>, base: nat, depth: nat, previous: string): Result {
    if ps == [] then Missing
    else
      var rest, next := ps[1..], base + |Render(ps[0])|;
      match ps[0]
      case Quoted(_, _) => Answer(rest, next, depth, "string")
      case Raw(_) => Answer(rest, next, depth, "string")
      case Word(text) =>
        if text == "version" && depth == 0 && !Taken(previous) && EqualsNext(rest) then
          var s := Significant(rest);
          ValueOf(s[1..], next + |RenderAll(rest)| - |RenderAll(s[1..])|)
        else Answer(rest, next, depth, text)
      case Sign(c) =>
        var inner := if c == '{' || c == '(' || c == '[' then depth + 1
                     else if (c == '}' || c == ')' || c == ']') && depth > 0 then depth - 1
                     else depth;
        Answer(rest, next, inner, [c])
      case _ => Answer(rest, next, depth, previous)
  }

  // ---------------------------------------------------------------------------
  // Space and comments
  // ---------------------------------------------------------------------------

  lemma {:induction false} BlankSkips(text: string, after: string)
    requires AllSpace(text, PySpace)
    ensures SkipLength(text + after) == |text| + SkipLength(after)
  {
    if text == "" {
      assert text + after == after;
    } else {
      assert text[0] in text && (text + after)[1..] == text[1..] + after;
      BlankSkips(text[1..], after);
    }
  }

  lemma {:induction false} LineRuns(text: string, after: string)
    requires '\n' !in text
    ensures LineLength(text + ("\n" + after)) == |text| + 1
  {
    if text == "" {
      assert text + ("\n" + after) == "\n" + after;
    } else {
      assert text[0] in text && (text + ("\n" + after))[1..] == text[1..] + ("\n" + after);
      LineRuns(text[1..], after);
    }
  }

  /** The first two characters decide whether a comment mark begins. */
  lemma MarksAre(s: string)
    ensures BlockOpen(s) <==> "/*" <= s
    ensures BlockClose(s) <==> "*/" <= s
  {
  }

  lemma {:induction false} ProseRuns(text: string, after: string, n: nat)
    requires Calm(text, after) && n > 0
    ensures BlockLength(text + after, n) == |text| + BlockLength(after, n)
    decreases |text|
  {
    if text == "" {
      assert text + after == after;
    } else {
      var s := text + after;
      assert s[0..] == s;
      MarksAre(s);
      assert s[1..] == text[1..] + after;
      forall i | 0 <= i < |text[1..]|
        ensures !("/*" <= (text[1..] + after)[i..]) && !("*/" <= (text[1..] + after)[i..])
      {
        assert (text[1..] + after)[i..] == s[i + 1..];
      }
      ProseRuns(text[1..], after, n);
    }
  }

  /** More text behind two characters does not matter. */
  lemma CalmOn(text: string, a: string, b: string)
    requires Calm(text, a) && a != ""
    ensures Calm(text, a + b)
  {
    forall i | 0 <= i < |text|
      ensures !("/*" <= (text + (a + b))[i..]) && !("*/" <= (text + (a + b))[i..])
    {
      var s, s' := (text + a)[i..], (text + (a + b))[i..];
      assert s[0] == s'[0] && s[1] == s'[1];
    }
  }

  lemma {:induction false} RemarkRuns(r: Remark, a: string, b: string, n: nat)
    requires RemarkOk(r, a) && a != "" && n > 0
    ensures BlockLength(RenderRemark(r) + (a + b), n) == |RenderRemark(r)| + BlockLength(a + b, n)
    decreases r, 1
  {
    hide BlockLength, Calm;
    match r
    case Prose(text) =>
      CalmOn(text, a, b);
      ProseRuns(text, a + b, n);
    case Nested(body) =>
      var inner := RenderRemarks(body);
      assert RenderRemark(r) + (a + b) == "/*" + (inner + ("*/" + (a + b)));
      BlockOpens(inner + ("*/" + (a + b)), n);
      RemarksRun(body, "*/", a + b, n + 1);
      BlockCloses(a + b, n + 1);
  }

  lemma BlockOpens(s: string, n: nat)
    requires n > 0
    ensures BlockLength("/*" + s, n) == 2 + BlockLength(s, n + 1)
  {
    assert ("/*" + s)[2..] == s;
  }

  lemma BlockCloses(s: string, n: nat)
    requires n > 0
    ensures BlockLength("*/" + s, n) == 2 + BlockLength(s, n - 1)
  {
    assert ("*/" + s)[2..] == s;
  }

  lemma {:induction false} RemarksRun(body: seq<Remark>, a: string, b: string, n: nat)
    requires RemarksOk(body, a) && a != "" && n > 0
    ensures BlockLength(RenderRemarks(body) + (a + b), n) == |RenderRemarks(body)| + BlockLength(a + b, n)
    decreases body, 0
  {
    hide BlockLength, RemarkOk, RenderRemark;
    if body == [] {
      assert "" + (a + b) == a + b;
    } else {
      var more := RenderRemarks(body[1..]);
      assert RenderRemarks(body) + (a + b) == RenderRemark(body[0]) + ((more + a) + b);
      RemarkRuns(body[0], more + a, b, n);
      assert (more + a) + b == more + (a + b);
      RemarksRun(body[1..], a, b, n);
    }
  }

  /** Each piece of space or comment is skipped as a whole. */
  lemma TriviaSkips(p: Piece, after: string, word: Words)
    requires Trivia(p) && PieceOk(p, after, word)
    ensures SkipLength(Render(p) + after) == |Render(p)| + SkipLength(after)
  {
    hide SkipLength, BlockLength, LineLength, PySpace;
    match p
    case Blank(text) => BlankSkips(text, after);
    case LineNote(text) => LineNoteSkips(text, after);
    case BlockNote(body) => BlockNoteSkips(body, after);
  }

  lemma LineNoteSkips(text: string, after: string)
    requires '\n' !in text
    ensures SkipLength(("//" + text + "\n") + after) == 2 + |text| + 1 + SkipLength(after)
  {
    hide SkipLength, LineLength;
    var s := "//" + (text + ("\n" + after));
    assert ("//" + text + "\n") + after == s;
    LineRuns(text, after);
    NoteSkips(text + ("\n" + after), |text| + 1);
    assert s[2 + |text| + 1..] == after;
  }

  lemma BlockNoteSkips(body: seq<Remark>, after: string)
    requires RemarksOk(body, "*/")
    ensures SkipLength(("/*" + RenderRemarks(body) + "*/") + after) == 2 + |RenderRemarks(body)| + 2 + SkipLength(after)
  {
    hide SkipLength, BlockLength, RemarksOk, RenderRemarks;
    var inner := RenderRemarks(body);
    var s := "/*" + (inner + ("*/" + after));
    assert ("/*" + inner + "*/") + after == s;
    RemarksRun(body, "*/", after, 1);
    BlockCloses(after, 1);
    BlockNone(after);
    CommentSkips(inner + ("*/" + after), |inner| + 2);
    assert s[2 + |inner| + 2..] == after;
  }

  lemma BlockNone(s: string)
    ensures BlockLength(s, 0) == 0
  {
  }

  lemma NoteSkips(s: string, k: nat)
    requires LineLength(s) == k
    ensures 2 + k <= |"//" + s| && SkipLength("//" + s) == 2 + k + SkipLength(("//" + s)[2 + k..])
  {
    var t := "//" + s;
    assert t[1..][1..] == s && t[1..][0] == '/';
    assert LineLength(t[1..]) == 1 + LineLength(t[1..][1..]);
    assert LineLength(t) == 2 + k;
  }

  lemma CommentSkips(s: string, k: nat)
    requires BlockLength(s, 1) == k
    ensures 2 + k <= |"/*" + s| && SkipLength("/*" + s) == 2 + k + SkipLength(("/*" + s)[2 + k..])
  {
    var t := "/*" + s;
    assert t[2..] == s && !LineComment(t) && BlockOpen(t);
  }

  /** Skipping gets to the first significant piece. */
  lemma {:induction false} SkipsToSignificant(ps: seq<Piece>, word: Words)
    requires ScriptOk(ps, word)
    ensures var s := Significant(ps); var k := |RenderAll(ps)| - |RenderAll(s)|;
      && ScriptOk(s, word)
      && SkipLength(RenderAll(ps)) == k && RenderAll(ps)[k..] == RenderAll(s)
  {
    hide SkipLength, PieceOk, Render;
    if ps == [] {
      SkipNothing();
    } else if Trivia(ps[0]) {
      TriviaSkips(ps[0], RenderAll(ps[1..]), word);
      SkipsToSignificant(ps[1..], word);
      var head, more := Render(ps[0]), RenderAll(ps[1..]);
      var k := |more| - |RenderAll(Significant(ps))|;
      assert (head + more)[|head| + k..] == more[k..];
    } else {
      HeadIsNotSkipped(ps[0], RenderAll(ps[1..]), word);
    }
  }

  lemma SkipNothing()
    ensures SkipLength("") == 0
  {
  }

  lemma HeadIsNotSkipped(p: Piece, after: string, word: Words)
    requires !Trivia(p) && PieceOk(p, after, word)
    ensures Render(p) + after != "" && SkipLength(Render(p) + after) == 0
  {
    var s := Render(p) + after;
    assert !PySpace(s[0]) && !LineComment(s) && !BlockOpen(s) by {
      hide Escaped;
      match p
      case Word(text) => FirstCharIs(text[0]);
      case Sign(c) =>
        assert s[0] == c;
        if c == '/' && |s| > 1 { assert s[1] == after[0]; }
      case _ =>
    }
  }

  lemma FirstCharIs(c: char)
    ensures FirstChar(c) <==> IsWordStart(c)
    ensures FirstChar(c) ==> !PySpace(c) && c != '/' && c != '"' && c != '\'' && c != '='
  {
  }

  // ---------------------------------------------------------------------------
  // Literals and words
  // ---------------------------------------------------------------------------

  lemma {:induction false} EscapedRuns(text: string, quote: char, after: string)
    requires Escaped(text, quote) && quote != '\\'
    ensures StringLength(text + ([quote] + after), [quote]) == Some(|text|)
    decreases |text|
  {
    var s := text + ([quote] + after);
    if text == "" {
      assert s == [quote] + after;
      assert [quote] <= s;
    } else {
      assert s[0] == text[0];
      var k := if text[0] == '\\' then 2 else 1;
      assert s[k..] == text[k..] + ([quote] + after);
      EscapedRuns(text[k..], quote, after);
      assert !([quote] <= s) by { assert [quote][0] == quote; }
    }
  }

  lemma TripleStarts(text: string, after: string)
    requires text != "" && !(TRIPLE <= (text + TRIPLE)[0..])
    ensures !(TRIPLE <= text + (TRIPLE + after))
  {
    var s, t := text + (TRIPLE + after), text + TRIPLE;
    assert t[0..] == t && s[..3] == t[..3];
  }

  lemma {:induction false} RawRuns(text: string, after: string)
    requires forall i :: 0 <= i < |text| ==> !(TRIPLE <= (text + TRIPLE)[i..])
    ensures StringLength(text + (TRIPLE + after), TRIPLE) == Some(|text|)
    decreases |text|
  {
    var s, t := text + (TRIPLE + after), text + TRIPLE;
    if text == "" {
      assert s == TRIPLE + after;
      assert TRIPLE <= s;
    } else {
      TripleStarts(text, after);
      assert s[1..] == text[1..] + (TRIPLE + after);
      assert forall i :: 0 <= i < |text[1..]| ==> !(TRIPLE <= (text[1..] + TRIPLE)[i..]) by {
        hide StringLength;
        forall i | 0 <= i < |text[1..]| ensures !(TRIPLE <= (text[1..] + TRIPLE)[i..]) {
          assert (text[1..] + TRIPLE)[i..] == t[i + 1..];
        }
      }
      RawRuns(text[1..], after);
    }
  }

  function DelimiterOf(p: Piece): string
    requires p.Quoted? || p.Raw?
  {
    if p.Raw? then TRIPLE else [p.quote]
  }

  /** A literal is read as a whole, and its inside is its text. */
  lemma LiteralReads(p: Piece, after: string, word: Words)
    requires (p.Quoted? || p.Raw?) && PieceOk(p, after, word)
    ensures var s := Render(p) + after;
      var d := DelimiterOf(p);
      && s != "" && (s[0] == '"' || s[0] == '\'') && (s[0] == '"' <==> p.Raw? || p.quote == '"')
      && Delimiter(s) == d && s[|d|..] == p.text + (d + after)
      && StringLength(p.text + (d + after), d) == Some(|p.text|) && LiteralLength(s) == |Render(p)|
  {
    var s, d := Render(p) + after, DelimiterOf(p);
    LiteralParts(p, after, s, d);
    hide Escaped, StringLength;
    TripleIs(s);
    if p.Raw? { RawRuns(p.text, after); } else { EscapedRuns(p.text, p.quote, after); }
    hide TripleQuote;
  }

  lemma LiteralParts(p: Piece, after: string, s: string, d: string)
    requires (p.Quoted? || p.Raw?) && s == Render(p) + after && d == DelimiterOf(p)
    ensures |Render(p)| == |d| + |p.text| + |d|
    ensures |d| <= |s| && d <= s && s[0] == d[0] && s[|d|..] == p.text + (d + after)
  {
    assert s == d + (p.text + (d + after));
  }

  lemma TripleIs(s: string)
    ensures TripleQuote(s) <==> TRIPLE <= s
  {
  }

  lemma {:induction false} WordRuns(text: string, after: string, word: Words)
    requires (forall c <- text :: LaterChar(c, word)) && (after == "" || !LaterChar(after[0], word))
    ensures WordTail(text + after, word) == |text|
  {
    if text == "" {
      assert text + after == after;
      if after != "" { FirstCharIs(after[0]); }
    } else {
      assert text[0] in text && (text + after)[1..] == text[1..] + after;
      FirstCharIs(text[0]);
      WordRuns(text[1..], after, word);
    }
  }

  lemma WordReads(p: Piece, after: string, word: Words)
    requires p.Word? && PieceOk(p, after, word)
    ensures var s := p.text + after;
      && s != "" && s[0] != '"' && s[0] != '\'' && FirstChar(s[0]) && WordLength(s, word) == |p.text|
      && p.text != "" && s[..|p.text|] == p.text && s[|p.text|..] == after && Render(p) == p.text && !Trivia(p)
  {
    FirstCharIs(p.text[0]);
    WordRuns(p.text, after, word);
    assert (p.text + after)[0] == p.text[0];
  }

  lemma SignReads(p: Piece, after: string, word: Words)
    requires p.Sign? && PieceOk(p, after, word)
    ensures var s := [p.c] + after;
      WordLength(s, word) == 0 && s[0] == p.c && p.c != '"' && p.c != '\'' && s[..1] == [p.c]
  {
    FirstCharIs(p.c);
  }

  // ---------------------------------------------------------------------------
  // The parser's answer
  // ---------------------------------------------------------------------------

  lemma BeginsWithEquals(p: Piece, after: string, word: Words)
    requires PieceOk(p, after, word)
    ensures Render(p) + after != "" && ((Render(p) + after)[0] == '=' <==> p == Sign('='))
  {
    match p
    case Word(text) => FirstCharIs(text[0]); assert (text + after)[0] == text[0];
    case Blank(text) => assert text[0] in text && !PySpace('='); assert (text + after)[0] == text[0];
    case _ =>
  }

  /** The parser sees an assignment exactly where the pieces have one, and how far it reaches. */
  lemma AssignmentReads(ps: seq<Piece>, word: Words)
    requires ScriptOk(ps, word)
    ensures AssignLength(RenderAll(ps)).Some? <==> EqualsNext(ps)
    ensures EqualsNext(ps) ==> Significant(ps) != []
    ensures EqualsNext(ps) ==>
      var more := Significant(ps)[1..];
      var k := |RenderAll(ps)| - |RenderAll(more)|;
      ScriptOk(more, word) && AssignLength(RenderAll(ps)) == Some(k) && RenderAll(ps)[k..] == RenderAll(more)
  {
    hide SkipLength, PieceOk, Render;
    var s := Significant(ps);
    var text, tail := RenderAll(ps), RenderAll(s);
    var k := |text| - |tail|;
    SkipsToSignificant(ps, word);
    if s != [] {
      BeginsWithEquals(s[0], RenderAll(s[1..]), word);
      assert text[k] == tail[0];
      if s[0] == Sign('=') {
        assert Render(s[0]) == "=" by { SignRenders('='); }
        assert tail[1..] == RenderAll(s[1..]);
        assert text[k + 1..] == tail[1..];
        if |s| > 1 {
          assert s[1..][0] == s[1];
          BeginsWithEquals(s[1], RenderAll(s[1..][1..]), word);
          assert text[k + 1] == RenderAll(s[1..])[0];
        }
      }
    } else {
      assert tail == "";
    }
  }

  lemma SignRenders(c: char)
    ensures Render(Sign(c)) == [c]
  {
  }

  lemma ReadValueIs(text: string, k: nat, tail: string)
    requires k <= |text| && SkipLength(text) == k && text[k..] == tail
    ensures tail == "" || tail[0] != '"' ==> ReadValue(text) == NotQuoted
    ensures tail != "" && tail[0] == '"' ==>
      var d := Delimiter(tail);
      ReadValue(text) == match StringLength(tail[|d|..], d)
                         case None => Unterminated
                         case Some(n) => Found(k + |d|, k + |d| + n)
  {
    hide SkipLength, StringLength, Delimiter;
  }

  lemma ValueReads(ps: seq<Piece>, base: nat, word: Words)
    requires ScriptOk(ps, word)
    ensures ValueOf(ps, base) == Shift(ReadValue(RenderAll(ps)), base)
  {
    hide SkipLength, PieceOk, Render, StringLength, Delimiter, ReadValue, LiteralLength, Significant;
    var s := Significant(ps);
    var text, tail := RenderAll(ps), RenderAll(s);
    var k := |text| - |tail|;
    SkipsToSignificant(ps, word);
    assert s != [] ==> tail == Render(s[0]) + RenderAll(s[1..]) && PieceOk(s[0], RenderAll(s[1..]), word);
    assert s == [] ==> tail == "";
    hide RenderAll, ScriptOk, Shift;
    ReadValueIs(text, k, tail);
    if s == [] {
      ShiftError(NotQuoted, base);
    } else {
      HeadReads(s[0], RenderAll(s[1..]), tail, k, base, ReadValue(text), word);
    }
  }

  lemma HeadReads(p: Piece, after: string, tail: string, k: nat, base: nat, read: Result, word: Words)
    requires !Trivia(p) && PieceOk(p, after, word) && tail == Render(p) + after
    requires tail == "" || tail[0] != '"' ==> read == NotQuoted
    requires tail != "" && tail[0] == '"' ==>
      var d := Delimiter(tail);
      read == match StringLength(tail[|d|..], d)
              case None => Unterminated
              case Some(n) => Found(k + |d|, k + |d| + n)
    ensures Shift(read, base) ==
      if p.Raw? then Found(base + k + 3, base + k + 3 + |p.text|)
      else if p.Quoted? && p.quote == '"' then Found(base + k + 1, base + k + 1 + |p.text|)
      else NotQuoted
  {
    hide PieceOk, Render, StringLength, Delimiter, LiteralLength;
    if p.Quoted? || p.Raw? {
      LiteralReads(p, after, word);
    } else {
      NoQuote(p, after, word);
    }
  }

  lemma NoQuote(p: Piece, after: string, word: Words)
    requires (p.Word? || p.Sign?) && PieceOk(p, after, word)
    ensures Render(p) + after != "" && (Render(p) + after)[0] != '"'
  {
    if p.Word? { FirstCharIs(p.text[0]); assert (p.text + after)[0] == p.text[0]; }
  }

  lemma FindBlank(s: string, k: nat, depth: nat, previous: string, word: Words)
    requires k <= |s| && SkipLength(s) == k + SkipLength(s[k..])
    ensures FindVersion(s, depth, previous, word) == Shift(FindVersion(s[k..], depth, previous, word), k)
  {
    hide SkipLength, LiteralLength, WordLength, Assignment, ReadValue, Deepen, FindVersion;
    var t := s[k..];
    assert s[SkipLength(s)..] == t[SkipLength(t)..];
    FindUnfold(s, depth, previous, word);
    FindUnfold(t, depth, previous, word);
  }

  lemma FindLiteral(s: string, n: nat, depth: nat, previous: string, word: Words)
    requires s != "" && SkipLength(s) == 0 && (s[0] == '"' || s[0] == '\'') && LiteralLength(s) == n
    ensures FindVersion(s, depth, previous, word) == Shift(FindVersion(s[n..], depth, "string", word), n)
  {
    hide SkipLength, LiteralLength;
    assert s[0..] == s;
  }

  lemma FindOther(s: string, n: nat, depth: nat, previous: string, word: Words)
    requires s != "" && SkipLength(s) == 0 && s[0] != '"' && s[0] != '\'' && WordLength(s, word) == n
    ensures var a := Assignment(s, n, depth, previous); var size := if n == 0 then 1 else n;
      FindVersion(s, depth, previous, word) ==
        if a.Some? then Shift(ReadValue(s[a.value..]), a.value)
        else Shift(FindVersion(s[size..], Deepen(depth, s[0]), s[..size], word), size)
  {
    hide SkipLength, WordLength, Assignment, ReadValue, Deepen;
    assert s[0..] == s;
  }

  lemma DepthAfter(depth: nat, c: char)
    ensures Deepen(depth, c) ==
      if c == '{' || c == '(' || c == '[' then depth + 1
      else if (c == '}' || c == ')' || c == ']') && depth > 0 then depth - 1
      else depth
  {
    assert c in "{([" <==> c == '{' || c == '(' || c == '[' by {
      assert "{(["[0] == '{' && "{(["[1] == '(' && "{(["[2] == '[';
    }
    assert c in "})]" <==> c == '}' || c == ')' || c == ']' by {
      assert "})]"[0] == '}' && "})]"[1] == ')' && "})]"[2] == ']';
    }
  }

  lemma MayAssignIs(previous: string)
    ensures MayAssign(previous) <==> !Taken(previous)
  {
  }

  /** Of every script written unambiguously, and from any point of it. */
  lemma {:induction false} AnswersFrom(ps: seq<Piece>, base: nat, depth: nat, previous: string, word: Words)
    requires ScriptOk(ps, word)
    ensures Answer(ps, base, depth, previous) == Shift(FindVersion(RenderAll(ps), depth, previous, word), base)
    decreases |ps|
  {
    hide FindVersion, PieceOk, Render, SkipLength, LiteralLength, WordLength, Assignment, Deepen, ReadValue, Delimiter;
    hide ValueOf, EqualsNext, StringLength, Shift, FirstChar;
    if ps == [] {
      NothingToFind(depth, previous, word);
      ShiftError(Missing, base);
    } else {
      var p, rest := ps[0], ps[1..];
      var head, more := Render(p), RenderAll(rest);
      var s := head + more;
      assert s[|head|..] == more;
      if Trivia(p) {
        TriviaSkips(p, more, word);
        FindBlank(s, |head|, depth, previous, word);
        AnswersFrom(rest, base + |head|, depth, previous, word);
        ShiftTwice(FindVersion(more, depth, previous, word), |head|, base);
      } else if p.Quoted? || p.Raw? {
        HeadIsNotSkipped(p, more, word);
        LiteralReads(p, more, word);
        FindLiteral(s, |head|, depth, previous, word);
        AnswersFrom(rest, base + |head|, depth, "string", word);
        ShiftTwice(FindVersion(more, depth, "string", word), |head|, base);
      } else if p.Word? {
        WordAnswers(ps, base, depth, previous, word);
      } else {
        SignAnswers(ps, base, depth, previous, word);
      }
    }
  }

  lemma NothingToFind(depth: nat, previous: string, word: Words)
    ensures FindVersion("", depth, previous, word) == Missing
  {
  }

  lemma {:induction false} SignAnswers(ps: seq<Piece>, base: nat, depth: nat, previous: string, word: Words)
    requires ScriptOk(ps, word) && ps != [] && ps[0].Sign?
    ensures Answer(ps, base, depth, previous) == Shift(FindVersion(RenderAll(ps), depth, previous, word), base)
    decreases |ps|, 0
  {
    hide FindVersion, PieceOk, SkipLength, WordLength, Deepen, ReadValue, Shift, FirstChar;
    var p, rest := ps[0], ps[1..];
    var more := RenderAll(rest);
    var s := [p.c] + more;
    assert s[1..] == more;
    HeadIsNotSkipped(p, more, word);
    SignReads(p, more, word);
    FindOther(s, 0, depth, previous, word);
    assert s[..0] != VERSION;
    DepthAfter(depth, p.c);
    AnswersFrom(rest, base + 1, Deepen(depth, p.c), [p.c], word);
    ShiftTwice(FindVersion(more, Deepen(depth, p.c), [p.c], word), 1, base);
  }

  /** A word at the front of the text is read as one, and its assignment is looked for behind it. */
  lemma WordFinds(p: Piece, more: string, depth: nat, previous: string, word: Words)
    requires p.Word? && PieceOk(p, more, word)
    ensures var s, n := p.text + more, |p.text|;
      FindVersion(s, depth, previous, word) ==
        if p.text == "version" && depth == 0 && !Taken(previous) && AssignLength(more).Some?
        then Shift(ReadValue(more[AssignLength(more).value..]), n + AssignLength(more).value)
        else Shift(FindVersion(more, depth, p.text, word), n)
  {
    hide *;
    var s, n := p.text + more, |p.text|;
    WordReads(p, more, word);
    HeadIsNotSkipped(p, more, word);
    LetterIsNoBracket(depth, s[0]);
    WordAssigns(p.text, more, depth, previous);
    FindOther(s, n, depth, previous, word);
    var a := AssignLength(more);
    if a.Some? { assert s[n + a.value..] == more[a.value..]; }
  }

  lemma WordAssigns(text: string, more: string, depth: nat, previous: string)
    ensures Assignment(text + more, |text|, depth, previous) ==
      if text == "version" && depth == 0 && !Taken(previous) && AssignLength(more).Some?
      then Some(|text| + AssignLength(more).value) else None
  {
    var s, n := text + more, |text|;
    assert s[..n] == text && s[n..] == more;
    MayAssignIs(previous);
    hide AssignLength, MayAssign, Taken;
  }

  lemma WordUnfolds(ps: seq<Piece>, base: nat, depth: nat, previous: string, word: Words)
    requires ScriptOk(ps, word) && ps != [] && ps[0].Word?
    ensures var p, rest := ps[0], ps[1..]; var next := base + |p.text|;
      && PieceOk(p, RenderAll(rest), word) && ScriptOk(rest, word) && RenderAll(ps) == p.text + RenderAll(rest)
      && Answer(ps, base, depth, previous) ==
        if p.text == "version" && depth == 0 && !Taken(previous) && EqualsNext(rest) then
          var after := Significant(rest)[1..];
          ValueOf(after, next + |RenderAll(rest)| - |RenderAll(after)|)
        else Answer(rest, next, depth, p.text)
  {
    hide PieceOk, ValueOf, Taken, EqualsNext;
    EqualsHasNext(ps[1..]);
  }

  lemma EqualsHasNext(ps: seq<Piece>)
    ensures EqualsNext(ps) ==> Significant(ps) != []
  {
  }

  lemma {:induction false} WordAnswers(ps: seq<Piece>, base: nat, depth: nat, previous: string, word: Words)
    requires ScriptOk(ps, word) && ps != [] && ps[0].Word?
    ensures Answer(ps, base, depth, previous) == Shift(FindVersion(RenderAll(ps), depth, previous, word), base)
    decreases |ps|, 0
  {
    hide *;
    WordUnfolds(ps, base, depth, previous, word);
    var p, rest := ps[0], ps[1..];
    var n, more := |p.text|, RenderAll(rest);
    WordFinds(p, more, depth, previous, word);
    AssignmentReads(rest, word);
    if p.text == "version" && depth == 0 && !Taken(previous) && EqualsNext(rest) {
      var k, after := AssignLength(more).value, Significant(rest)[1..];
      ValueReads(after, base + n + k, word);
      ShiftTwice(ReadValue(more[k..]), n + k, base);
    } else {
      AnswersFrom(rest, base + n, depth, p.text, word);
      ShiftTwice(FindVersion(more, depth, p.text, word), n, base);
    }
  }

  lemma LetterIsNoBracket(depth: nat, c: char)
    requires FirstChar(c)
    ensures Deepen(depth, c) == depth
  {
    DepthAfter(depth, c);
  }

  /**
    The version the parser reports is the one the pieces have: the inside of the double-quoted
    literal that the first `version =` outside all brackets, strings and comments is set to, unless
    that word stands behind a dot, `val`, `var` or a backtick.
   */
  lemma ScriptVersionIsRead(ps: seq<Piece>, word: Words)
    requires ScriptOk(ps, word)
    ensures ParseVersion(RenderAll(ps), word) == Answer(ps, 0, 0, "")
  {
    hide FindVersion, ScriptOk;
    AnswersFrom(ps, 0, 0, "", word);
    ShiftZero(ParseVersion(RenderAll(ps), word));
  }
}
