/** The parser finds the first root assignment of a version, and misses none. */
module GradleFirst {
  import opened Options
  import opened Text
  import opened Gradle
  import opened GradleLexer

  /** One token: a word, a string literal (as `string`) or a single character, and the bracket depth before it. */
  datatype Lexeme = Lexeme(start: nat, size: nat, text: string, depth: nat)

  /** The tokens of `s`, which starts at offset `base`, between spaces and comments. */
  function Lexemes(s: string, base: nat, depth: nat, word: Words): (r: seq<Lexeme>)
    decreases |s|
  {
    var k := SkipLength(s);
    var t := s[k..];
    if t == [] then []
    else
      var size := TokenSize(t, word);
      [Lexeme(base + k, TokenSize(t, word), TokenText(t, word), depth)]
      + Lexemes(t[size..], base + k + size, if IsQuote(t[0]) then depth else Deepen(depth, t[0]), word)
  }

  predicate IsQuote(c: char) { c == '"' || c == '\'' }

  function TokenSize(t: string, word: Words): (n: nat)
    requires t != []
    ensures 0 < n <= |t|
  {
    if IsQuote(t[0]) then LiteralLength(t)
    else if WordLength(t, word) == 0 then 1 else WordLength(t, word)
  }

  function TokenText(t: string, word: Words): string
    requires t != []
  {
    if IsQuote(t[0]) then "string" else t[..TokenSize(t, word)]
  }

  function Before(ls: seq<Lexeme>, i: nat, previous: string): string
    requires i < |ls|
  {
    if i == 0 then previous else ls[i - 1].text
  }

  /** Token `i` is the word `version` with no bracket open, free to be assigned, and an equals sign follows. */
  predicate Assigns(content: string, ls: seq<Lexeme>, i: nat, previous: string)
    requires i < |ls|
  {
    && ls[i].text == VERSION && ls[i].depth == 0 && MayAssign(Before(ls, i, previous))
    && ls[i].start + |VERSION| <= |content| && AssignLength(content[ls[i].start + |VERSION|..]).Some?
  }

  /** `r` is what the value behind that equals sign reads as. */
  predicate ReadsAt(r: Result, content: string, l: Lexeme) {
    && l.start + |VERSION| <= |content| && AssignLength(content[l.start + |VERSION|..]).Some?
    && var v := l.start + |VERSION| + AssignLength(content[l.start + |VERSION|..]).value;
       r == Shift(ReadValue(content[v..]), v)
  }

  ghost predicate NoneAssigns(content: string, ls: seq<Lexeme>, previous: string) {
    forall i :: 0 <= i < |ls| ==> !Assigns(content, ls, i, previous)
  }

  lemma LexemesUnfold(s: string, base: nat, depth: nat, word: Words)
    requires s[SkipLength(s)..] != []
    ensures var k := SkipLength(s); var t := s[k..]; var size := TokenSize(t, word);
      Lexemes(s, base, depth, word) == [Lexeme(base + k, TokenSize(t, word), TokenText(t, word), depth)]
        + Lexemes(t[size..], base + k + size, if IsQuote(t[0]) then depth else Deepen(depth, t[0]), word)
  {
    hide SkipLength, TokenSize, TokenText, Deepen;
  }

  lemma NoLexemes(s: string, base: nat, depth: nat, word: Words)
    requires s[SkipLength(s)..] == []
    ensures Lexemes(s, base, depth, word) == []
  {
  }

  /** The first token assigns exactly if the parser takes it for an assignment. */
  lemma HeadAssigns(content: string, at: nat, ls: seq<Lexeme>, depth: nat, previous: string, word: Words)
    requires at < |content| && ls != [] && ls[0].start == at && ls[0].depth == depth
    requires ls[0].text == TokenText(content[at..], word)
    ensures var t := content[at..];
      var a := if IsQuote(t[0]) then None else Assignment(t, WordLength(t, word), depth, previous);
      && (Assigns(content, ls, 0, previous) <==> a.Some?)
      && (a.Some? ==> at + a.value <= |content|
                      && ReadsAt(Shift(ReadValue(content[at + a.value..]), at + a.value), content, ls[0]))
  {
    hide WordLength, AssignLength, LiteralLength, ReadValue, Shift, TokenText, TokenSize, MayAssign;
    var t := content[at..];
    SizeCases(t, word);
    NotTheWord();
    if !IsQuote(t[0]) {
      var n := WordLength(t, word);
      if n == 0 { assert |t[..1]| == 1 && |t[..0]| == 0; } else { assert t[n..] == content[at + n..]; }
    }
  }

  lemma NotTheWord()
    ensures "string" != VERSION && |VERSION| == 7
  {
    assert VERSION[0] == 'v';
  }

  /** The tail's candidates are the list's, one further. */
  lemma TailAssigns(content: string, l: Lexeme, rest: seq<Lexeme>, previous: string)
    ensures forall i :: 0 <= i < |rest| ==>
      (Assigns(content, rest, i, l.text) <==> Assigns(content, [l] + rest, i + 1, previous))
  {
    var ls := [l] + rest;
    forall i | 0 <= i < |rest|
      ensures Assigns(content, rest, i, l.text) <==> Assigns(content, ls, i + 1, previous)
    {
      assert ls[i + 1] == rest[i];
      assert i > 0 ==> ls[i] == rest[i - 1];
    }
  }

  ghost predicate IsFirst(content: string, ls: seq<Lexeme>, i: nat, previous: string) {
    && i < |ls| && Assigns(content, ls, i, previous)
    && forall j :: 0 <= j < i ==> !Assigns(content, ls, j, previous)
  }

  /** The whole result, for the part of the content from `base` on. */
  ghost predicate Answers(r: Result, content: string, ls: seq<Lexeme>, previous: string) {
    && (r == Missing <==> NoneAssigns(content, ls, previous))
    && forall i: nat :: IsFirst(content, ls, i, previous) ==> ReadsAt(r, content, ls[i])
  }

  lemma {:induction false} FindsFirst(content: string, base: nat, depth: nat, previous: string, word: Words)
    requires base <= |content|
    ensures var s := content[base..];
      Answers(Shift(FindVersion(s, depth, previous, word), base), content, Lexemes(s, base, depth, word), previous)
    decreases |content| - base
  {
    hide SkipLength, Lexemes, FindVersion, TokenSize, TokenText, Deepen, WordLength, LiteralLength, ReadValue, Shift;
    hide Assignment, AssignLength, Assigns, ReadsAt;
    var s := content[base..];
    FindUnfold(s, depth, previous, word);
    var k := SkipLength(s);
    var t := s[k..];
    var at := base + k;
    assert t == content[at..];
    if t == [] {
      NoLexemes(s, base, depth, word);
      ShiftError(Missing, base);
    } else {
      LexemesUnfold(s, base, depth, word);
      SizeCases(t, word);
      var size := TokenSize(t, word);
      var after := if IsQuote(t[0]) then depth else Deepen(depth, t[0]);
      var l := Lexeme(at, size, TokenText(t, word), depth);
      var rest := Lexemes(t[size..], at + size, after, word);
      assert t[size..] == content[at + size..];
      FindsFirst(content, at + size, after, l.text, word);
      HeadAssigns(content, at, [l] + rest, depth, previous, word);
      TailAssigns(content, l, rest, previous);
      var r := FindVersion(t[size..], after, l.text, word);
      ShiftTwice(r, k + size, base);
      var a := if IsQuote(t[0]) then None else Assignment(t, WordLength(t, word), depth, previous);
      if a.Some? {
        assert t[a.value..] == content[at + a.value..];
        ShiftTwice(ReadValue(t[a.value..]), k + a.value, base);
        ValueIsNoMiss(t[a.value..], at + a.value);
        HeadAnswers(content, [l] + rest, previous);
      } else {
        TailAnswers(Shift(r, at + size), content, l, rest, previous);
      }
    }
  }

  lemma SizeCases(t: string, word: Words)
    requires t != []
    ensures IsQuote(t[0]) ==> TokenSize(t, word) == LiteralLength(t) && TokenText(t, word) == "string"
    ensures !IsQuote(t[0]) ==>
      var n := WordLength(t, word);
      TokenSize(t, word) == (if n == 0 then 1 else n) && TokenText(t, word) == t[..if n == 0 then 1 else n]
  {
  }

  lemma ValueIsNoMiss(s: string, k: nat)
    ensures Shift(ReadValue(s), k) != Missing
  {
    hide SkipLength, StringLength;
  }

  lemma HeadAnswers(content: string, ls: seq<Lexeme>, previous: string)
    requires ls != [] && Assigns(content, ls, 0, previous)
    ensures forall i: nat :: IsFirst(content, ls, i, previous) ==> i == 0
    ensures !NoneAssigns(content, ls, previous)
  {
    hide Assigns;
  }

  lemma TailAnswers(r: Result, content: string, l: Lexeme, rest: seq<Lexeme>, previous: string)
    requires Answers(r, content, rest, l.text) && !Assigns(content, [l] + rest, 0, previous)
    requires forall i :: 0 <= i < |rest| ==>
      (Assigns(content, rest, i, l.text) <==> Assigns(content, [l] + rest, i + 1, previous))
    ensures Answers(r, content, [l] + rest, previous)
  {
    hide Assigns, ReadsAt;
    var ls := [l] + rest;
    if NoneAssigns(content, rest, l.text) {
      forall i | 0 <= i < |ls| ensures !Assigns(content, ls, i, previous) {
        if i > 0 { assert !Assigns(content, rest, i - 1, l.text); }
      }
    } else {
      var i :| 0 <= i < |rest| && Assigns(content, rest, i, l.text);
      assert Assigns(content, ls, i + 1, previous);
    }
    forall i: nat | IsFirst(content, ls, i, previous) ensures ReadsAt(r, content, ls[i]) {
      assert i > 0 && ls[i] == rest[i - 1];
      assert Assigns(content, rest, i - 1, l.text);
      forall j | 0 <= j < i - 1 ensures !Assigns(content, rest, j, l.text) {
        assert !Assigns(content, ls, j + 1, previous);
      }
      assert IsFirst(content, rest, i - 1, l.text);
    }
  }

  /** Each token starts in code, at the depth it says, by the lexer that knows nothing of versions. */
  lemma {:induction false} LexemesStandInCode(content: string, base: nat, depth: nat, word: Words)
    requires SaneWords(word) && base <= |content|
    requires LexTo(content, State(Code, 0), base) == Some(State(Code, depth))
    ensures forall l <- Lexemes(content[base..], base, depth, word) ::
              l.start < |content| && LexTo(content, State(Code, 0), l.start) == Some(State(Code, l.depth))
    decreases |content| - base
  {
    hide SkipLength, Lexemes, TokenSize, TokenText, Deepen, WordLength, LiteralLength, LexTo, SaneWords;
    var s := content[base..];
    var k := SkipLength(s);
    var t := s[k..];
    var at := base + k;
    assert t == content[at..];
    if t == [] {
      NoLexemes(s, base, depth, word);
    } else {
      LexemesUnfold(s, base, depth, word);
      SizeCases(t, word);
      SkipIsDone(s);
      LexSkip(s, depth);
      LexConcat(content, State(Code, 0), base, k);
      var size := TokenSize(t, word);
      var after := if IsQuote(t[0]) then depth else Deepen(depth, t[0]);
      assert t[size..] == content[at + size..];
      if size < |t| {
        if IsQuote(t[0]) { LexLiteral(t, depth); } else { LexToken(t, depth, word); }
        LexConcat(content, State(Code, 0), at, size);
        LexemesStandInCode(content, at + size, after, word);
      } else {
        assert t[size..] == [];
        NothingLeft(t[size..], at + size, after, word);
      }
    }
  }

  lemma NothingLeft(s: string, base: nat, depth: nat, word: Words)
    requires s == []
    ensures Lexemes(s, base, depth, word) == []
  {
  }

  // ---------------------------------------------------------------------------
  // No code is left out
  // ---------------------------------------------------------------------------

  /** What may stand between tokens begins here. */
  predicate Blank(t: string) { t != [] && (PySpace(t[0]) || LineComment(t) || BlockOpen(t)) }

  lemma {:induction false} LineStays(s: string, depth: nat, j: nat)
    requires j < LineLength(s)
    ensures LexTo(s, State(Line, depth), j) == Some(State(Line, depth))
  {
    if j > 0 {
      LineStays(s[1..], depth, j - 1);
      LexStep(s, State(Line, depth), 1, State(Line, depth));
      LexConcat(s, State(Line, depth), 1, j - 1);
    }
  }

  /** Inside a block comment no point is code. */
  lemma {:induction false} BlockStays(s: string, m: nat, depth: nat, j: nat)
    requires m > 0 && j < BlockLength(s, m)
    ensures LexTo(s, State(Block(m), depth), j).None? || LexTo(s, State(Block(m), depth), j).value.mode.Block?
    decreases |s|
  {
    hide LexTo;
    var st := State(Block(m), depth);
    LexNothing(s, st);
    if j > 0 {
      var k := if BlockOpen(s) || BlockClose(s) then 2 else 1;
      var n := if BlockOpen(s) then m + 1 else if BlockClose(s) then m - 1 else m;
      if j < k {
        HalfStep(s, st);
      } else {
        if n > 0 { BlockStays(s[k..], n, depth, j - k); } else { assert BlockLength(s[2..], 0) == 0; }
        LexStep(s, st, k, Next(s, st).1);
        LexConcat(s, st, k, j - k);
      }
    }
  }

  lemma HalfStep(s: string, st: State)
    requires s != [] && Next(s, st).0 == 2
    ensures LexTo(s, st, 1).None?
  {
  }

  /** Wherever the lexer is in code among skipped text, more of that begins. */
  lemma {:induction false} SkippedIsBlank(s: string, depth: nat, j: nat)
    requires j < SkipLength(s)
    requires LexTo(s, State(Code, depth), j).Some? && LexTo(s, State(Code, depth), j).value.mode == Code
    ensures Blank(s[j..])
    decreases |s|
  {
    hide LexTo, Next, LineLength, BlockLength, SkipLength, PySpace;
    var st := State(Code, depth);
    assert s[0..] == s;
    SkipUnfold(s);
    if j > 0 {
      if PySpace(s[0]) {
        SpaceStep(s, depth);
        LexStep(s, st, 1, st);
        LexConcat(s, st, 1, j - 1);
        SkippedIsBlank(s[1..], depth, j - 1);
        assert s[1..][j - 1..] == s[j..];
      } else if LineComment(s) {
        CommentStep(s, depth);
        AfterLine(s, depth, j);
      } else {
        CommentStep(s, depth);
        AfterBlock(s, depth, j);
      }
    }
  }

  lemma {:induction false} AfterLine(s: string, depth: nat, j: nat)
    requires LineComment(s) && 0 < j < SkipLength(s) && Next(s, State(Code, depth)) == (2, State(Line, depth))
    requires SkipLength(s) == LineLength(s) + SkipLength(s[LineLength(s)..])
    requires LexTo(s, State(Code, depth), j).Some? && LexTo(s, State(Code, depth), j).value.mode == Code
    ensures Blank(s[j..])
    decreases |s|, 0
  {
    hide LexTo, Next, LineLength, SkipLength, Blank;
    var st, k := State(Code, depth), LineLength(s);
    LineTail(s);
    if j == 1 { HalfStep(s, st); }
    LexStep(s, st, 2, State(Line, depth));
    if 2 <= j < k {
      LineStays(s[2..], depth, j - 2);
      LexConcat(s, st, 2, j - 2);
    } else if j >= k {
      LexLine(s[2..], depth);
      LexConcat(s, st, 2, k - 2);
      LexConcat(s, st, k, j - k);
      SkippedIsBlank(s[k..], depth, j - k);
      assert s[k..][j - k..] == s[j..];
    }
  }

  lemma {:induction false} AfterBlock(s: string, depth: nat, j: nat)
    requires BlockOpen(s) && 0 < j < SkipLength(s) && Next(s, State(Code, depth)) == (2, State(Block(1), depth))
    requires var k := 2 + BlockLength(s[2..], 1); SkipLength(s) == k + SkipLength(s[k..])
    requires LexTo(s, State(Code, depth), j).Some? && LexTo(s, State(Code, depth), j).value.mode == Code
    ensures Blank(s[j..])
    decreases |s|, 0
  {
    hide LexTo, Next, BlockLength, SkipLength, Blank;
    var st, k := State(Code, depth), 2 + BlockLength(s[2..], 1);
    if j == 1 { HalfStep(s, st); }
    LexStep(s, st, 2, State(Block(1), depth));
    if 2 <= j < k {
      BlockStays(s[2..], 1, depth, j - 2);
      LexConcat(s, st, 2, j - 2);
    } else if j >= k {
      LexBlock(s[2..], 1, depth);
      LexConcat(s, st, 2, k - 2);
      LexConcat(s, st, k, j - k);
      SkippedIsBlank(s[k..], depth, j - k);
      assert s[k..][j - k..] == s[j..];
    }
  }

  /** The offset lies in the token. */
  predicate Holds(l: Lexeme, i: nat) { l.start <= i < l.start + l.size }

  /** Every point the lexer reaches in code, unless space or a comment begins there, lies in a token. */
  lemma {:induction false} CodeIsCovered(content: string, base: nat, depth: nat, word: Words, i: nat)
    requires SaneWords(word) && base <= i < |content|
    requires LexTo(content, State(Code, 0), base) == Some(State(Code, depth))
    requires LexTo(content, State(Code, 0), i).Some? && LexTo(content, State(Code, 0), i).value.mode == Code
    requires !Blank(content[i..])
    ensures exists l <- Lexemes(content[base..], base, depth, word) :: Holds(l, i)
    decreases |content| - base
  {
    hide SkipLength, Lexemes, TokenSize, TokenText, Deepen, WordLength, LiteralLength, LexTo, SaneWords, Blank;
    var st, s := State(Code, 0), content[base..];
    var k := SkipLength(s);
    var at, t := base + k, s[k..];
    assert t == content[at..];
    if i < at {
      LexConcat(content, st, base, i - base);
      assert s[i - base..] == content[i..];
      SkippedIsBlank(s, depth, i - base);
    } else {
      LexemesUnfold(s, base, depth, word);
      var size := TokenSize(t, word);
      var after := if IsQuote(t[0]) then depth else Deepen(depth, t[0]);
      var l := Lexeme(at, size, TokenText(t, word), depth);
      var rest := Lexemes(t[size..], at + size, after, word);
      if i < at + size {
        assert Holds(l, i) && l in [l] + rest;
      } else {
        assert t[size..] == content[at + size..];
        TokenEndsInCode(content, base, depth, word);
        CodeIsCovered(content, at + size, after, word, i);
        var m :| m in rest && Holds(m, i);
        assert m in [l] + rest;
      }
    }
  }

  /** Behind a token that is not the last thing in the text, the lexer is in code. */
  lemma TokenEndsInCode(content: string, base: nat, depth: nat, word: Words)
    requires SaneWords(word) && base <= |content|
    requires LexTo(content, State(Code, 0), base) == Some(State(Code, depth))
    requires var s := content[base..]; var t := s[SkipLength(s)..]; t != [] && TokenSize(t, word) < |t|
    ensures var s := content[base..]; var t := s[SkipLength(s)..];
      LexTo(content, State(Code, 0), base + SkipLength(s) + TokenSize(t, word))
      == Some(State(Code, if IsQuote(t[0]) then depth else Deepen(depth, t[0])))
  {
    hide SkipLength, TokenSize, TokenText, Deepen, WordLength, LiteralLength, LexTo, SaneWords;
    var s := content[base..];
    var k := SkipLength(s);
    var t := s[k..];
    SizeCases(t, word);
    SkipIsDone(s);
    LexSkip(s, depth);
    LexConcat(content, State(Code, 0), base, k);
    assert t == content[base + k..];
    if IsQuote(t[0]) { LexLiteral(t, depth); } else { LexToken(t, depth, word); }
    LexConcat(content, State(Code, 0), base + k, TokenSize(t, word));
  }

  /** Tokens do not overlap. */
  lemma {:induction false} LexemesApart(s: string, base: nat, depth: nat, word: Words)
    ensures var ls := Lexemes(s, base, depth, word);
      && (forall l <- ls :: base <= l.start)
      && (forall a, b :: 0 <= a < b < |ls| ==> ls[a].start + ls[a].size <= ls[b].start)
    decreases |s|
  {
    hide SkipLength, Lexemes, TokenSize, TokenText, Deepen;
    if s[SkipLength(s)..] == [] {
      NoLexemes(s, base, depth, word);
    } else {
      LexemesUnfold(s, base, depth, word);
      var t := s[SkipLength(s)..];
      var size := TokenSize(t, word);
      LexemesApart(t[size..], base + SkipLength(s) + size, if IsQuote(t[0]) then depth else Deepen(depth, t[0]), word);
    }
  }

  /**
    The tokens are all the code there is, by the lexer that knows nothing of versions: each
    starts in code at its depth, and every point of code outside space and comments lies in
    exactly one of them.
   */
  lemma TokensAreTheCode(content: string, word: Words)
    requires SaneWords(word)
    ensures var ls := Lexemes(content, 0, 0, word);
      && (forall l <- ls ::
            l.start < |content| && LexTo(content, State(Code, 0), l.start) == Some(State(Code, l.depth)))
      && (forall i: nat | i < |content| && LexTo(content, State(Code, 0), i).Some?
                          && LexTo(content, State(Code, 0), i).value.mode == Code && !Blank(content[i..]) ::
            exists a :: 0 <= a < |ls| && Holds(ls[a], i) && forall b :: 0 <= b < |ls| && Holds(ls[b], i) ==> b == a)
  {
    hide Lexemes, LexTo, SaneWords, Blank;
    assert content[0..] == content;
    LexNothing(content, State(Code, 0));
    LexemesStandInCode(content, 0, 0, word);
    LexemesApart(content, 0, 0, word);
    var ls := Lexemes(content, 0, 0, word);
    forall i: nat | i < |content| && LexTo(content, State(Code, 0), i).Some?
                    && LexTo(content, State(Code, 0), i).value.mode == Code && !Blank(content[i..])
      ensures exists a :: 0 <= a < |ls| && Holds(ls[a], i) && forall b :: 0 <= b < |ls| && Holds(ls[b], i) ==> b == a
    {
      CodeIsCovered(content, 0, 0, word, i);
      var l :| l in ls && Holds(l, i);
      var a :| 0 <= a < |ls| && ls[a] == l;
      OnlyOneHolds(ls, a, i);
    }
  }

  lemma OnlyOneHolds(ls: seq<Lexeme>, a: nat, i: nat)
    requires a < |ls| && Holds(ls[a], i)
    requires forall a, b :: 0 <= a < b < |ls| ==> ls[a].start + ls[a].size <= ls[b].start
    ensures forall b :: 0 <= b < |ls| && Holds(ls[b], i) ==> b == a
  {
  }

  /**
    The parser reports no version exactly when no token assigns one, and otherwise reads the
    value of the first that does.
   */
  lemma ParserFindsTheFirst(content: string, word: Words)
    ensures Answers(ParseVersion(content, word), content, Lexemes(content, 0, 0, word), "")
  {
    hide Lexemes, FindVersion, Answers;
    assert content[0..] == content;
    FindsFirst(content, 0, 0, "", word);
    ShiftZero(ParseVersion(content, word));
  }
}
