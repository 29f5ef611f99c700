/** Where the parser's answer stands, by a lexer that knows nothing of versions. */
module GradleLexer {
  import opened Options
  import opened Text
  import opened Gradle
  import opened GradleSplice

  datatype Mode = Code | Line | Block(level: nat) | Literal(delimiter: string)

  /** The lexer's state: what it is inside of, and how many brackets of code are open. */
  datatype State = State(mode: Mode, depth: nat)

  /** One lexical step: how many characters it takes and the state after it. */
  function Next(s: string, st: State): (nat, State)
    requires s != []
  {
    match st.mode
    case Code =>
      if LineComment(s) then (2, st.(mode := Line))
      else if BlockOpen(s) then (2, st.(mode := Block(1)))
      else if s[0] == '"' || s[0] == '\'' then (|Delimiter(s)|, st.(mode := Literal(Delimiter(s))))
      else (1, st.(depth := Deepen(st.depth, s[0])))
    case Line => (1, if s[0] == '\n' then st.(mode := Code) else st)
    case Block(n) =>
      if BlockOpen(s) then (2, st.(mode := Block(n + 1)))
      else if BlockClose(s) then (2, st.(mode := if n <= 1 then Code else Block(n - 1)))
      else (1, st)
    case Literal(d) =>
      if d <= s then (|d|, st.(mode := Code))
      else if |d| == 1 && s[0] == '\\' && |s| > 1 then (2, st)
      else (1, st)
  }

  /** The state after exactly `i` characters; None if a step straddles that point. */
  function LexTo(s: string, st: State, i: nat): Option<State>
    decreases i
  {
    if i == 0 then Some(st)
    else if s == [] then None
    else
      var (k, next) := Next(s, st);
      if k == 0 || k > i || k > |s| then None else LexTo(s[k..], next, i - k)
  }

  lemma {:induction false} LexConcat(s: string, st: State, i: nat, j: nat)
    requires LexTo(s, st, i).Some?
    ensures i <= |s|
    ensures LexTo(s, st, i + j) == LexTo(s[i..], LexTo(s, st, i).value, j)
    decreases i
  {
    hide Next;
    if i == 0 {
      assert s[0..] == s;
    } else {
      var (k, next) := Next(s, st);
      LexConcat(s[k..], next, i - k, j);
      assert s[k..][i - k..] == s[i..];
    }
  }

  lemma LexStep(s: string, st: State, k: nat, next: State)
    requires s != [] && Next(s, st) == (k, next) && 0 < k <= |s|
    ensures LexTo(s, st, k) == Some(next)
  {
  }

  // ---------------------------------------------------------------------------
  // The parser's moves are runs of the lexer
  // ---------------------------------------------------------------------------

  lemma {:induction false} LexLine(s: string, depth: nat)
    requires LineLength(s) < |s|
    ensures LexTo(s, State(Line, depth), LineLength(s)) == Some(State(Code, depth))
  {
    if s[0] == '\n' {
      LexStep(s, State(Line, depth), 1, State(Code, depth));
    } else {
      LexLine(s[1..], depth);
      LexStep(s, State(Line, depth), 1, State(Line, depth));
      LexConcat(s, State(Line, depth), 1, LineLength(s[1..]));
    }
  }

  lemma {:induction false} LexBlock(s: string, m: nat, depth: nat)
    requires m > 0 && BlockLength(s, m) < |s|
    ensures LexTo(s, State(Block(m), depth), BlockLength(s, m)) == Some(State(Code, depth))
    decreases |s|
  {
    hide LexTo;
    var st := State(Block(m), depth);
    if BlockOpen(s) {
      LexBlock(s[2..], m + 1, depth);
      LexStep(s, st, 2, State(Block(m + 1), depth));
      LexConcat(s, st, 2, BlockLength(s[2..], m + 1));
    } else if BlockClose(s) {
      if m == 1 {
        assert BlockLength(s[2..], 0) == 0;
        LexStep(s, st, 2, State(Code, depth));
      } else {
        LexBlock(s[2..], m - 1, depth);
        LexStep(s, st, 2, State(Block(m - 1), depth));
        LexConcat(s, st, 2, BlockLength(s[2..], m - 1));
      }
    } else {
      LexBlock(s[1..], m, depth);
      LexStep(s, st, 1, st);
      LexConcat(s, st, 1, BlockLength(s[1..], m));
    }
  }

  lemma SpaceStep(s: string, depth: nat)
    requires s != [] && PySpace(s[0])
    ensures Next(s, State(Code, depth)) == (1, State(Code, depth))
  {
  }

  lemma LineTail(s: string)
    requires LineComment(s)
    ensures LineLength(s) == 2 + LineLength(s[2..])
  {
    assert s[1..][1..] == s[2..];
  }

  /** Skipping space and comments is lexing from code back to code. */
  lemma {:induction false} LexSkip(s: string, depth: nat)
    requires SkipLength(s) < |s|
    ensures LexTo(s, State(Code, depth), SkipLength(s)) == Some(State(Code, depth))
    decreases |s|
  {
    hide LexTo, Next, LineLength, BlockLength, SkipLength, PySpace;
    var st := State(Code, depth);
    SkipUnfold(s);
    if PySpace(s[0]) {
      SpaceStep(s, depth);
      LexStep(s, st, 1, st);
      LexSkip(s[1..], depth);
      LexConcat(s, st, 1, SkipLength(s[1..]));
    } else if LineComment(s) {
      var k := LineLength(s);
      CommentStep(s, depth);
      LexStep(s, st, 2, State(Line, depth));
      LineTail(s);
      LexLine(s[2..], depth);
      LexConcat(s, st, 2, k - 2);
      LexSkip(s[k..], depth);
      LexConcat(s, st, k, SkipLength(s[k..]));
    } else if BlockOpen(s) {
      var k := 2 + BlockLength(s[2..], 1);
      CommentStep(s, depth);
      LexStep(s, st, 2, State(Block(1), depth));
      LexBlock(s[2..], 1, depth);
      LexConcat(s, st, 2, k - 2);
      LexSkip(s[k..], depth);
      LexConcat(s, st, k, SkipLength(s[k..]));
    } else {
      LexNothing(s, st);
    }
  }

  lemma LexNothing(s: string, st: State)
    ensures LexTo(s, st, 0) == Some(st)
  {
  }

  lemma CommentStep(s: string, depth: nat)
    ensures LineComment(s) ==> Next(s, State(Code, depth)) == (2, State(Line, depth))
    ensures BlockOpen(s) ==> Next(s, State(Code, depth)) == (2, State(Block(1), depth))
  {
  }

  /** The inside of a literal is lexed inside that literal. */
  lemma {:induction false} LexInside(s: string, d: string, depth: nat)
    requires StringLength(s, d).Some? && d != ""
    ensures LexTo(s, State(Literal(d), depth), StringLength(s, d).value) == Some(State(Literal(d), depth))
    decreases |s|
  {
    hide LexTo, StringLength;
    var st := State(Literal(d), depth);
    if s == [] { NoString(s, d); }
    StringUnfold(s, d);
    if d <= s {
      LexNothing(s, st);
    } else {
      var k := if |d| == 1 && s[0] == '\\' then 2 else 1;
      LexStep(s, st, k, st);
      LexInside(s[k..], d, depth);
      LexConcat(s, st, k, StringLength(s[k..], d).value);
    }
  }

  lemma QuoteStep(s: string, depth: nat)
    requires s != [] && (s[0] == '"' || s[0] == '\'')
    ensures Next(s, State(Code, depth)) == (|Delimiter(s)|, State(Literal(Delimiter(s)), depth))
  {
  }

  lemma CloseStep(s: string, d: string, depth: nat)
    requires d != "" && d <= s
    ensures Next(s, State(Literal(d), depth)) == (|d|, State(Code, depth))
  {
  }

  lemma LexOpen(s: string, depth: nat)
    requires s != [] && (s[0] == '"' || s[0] == '\'') && StringLength(s[|Delimiter(s)|..], Delimiter(s)).Some?
    ensures var d := Delimiter(s); var n := StringLength(s[|d|..], d).value;
      && LexTo(s, State(Code, depth), |d|) == Some(State(Literal(d), depth))
      && LexTo(s, State(Code, depth), |d| + n) == Some(State(Literal(d), depth))
  {
    hide LexTo, StringLength, Next;
    var d := Delimiter(s);
    QuoteStep(s, depth);
    LexStep(s, State(Code, depth), |d|, State(Literal(d), depth));
    LexInside(s[|d|..], d, depth);
    LexConcat(s, State(Code, depth), |d|, StringLength(s[|d|..], d).value);
  }

  lemma LiteralEnds(s: string)
    requires s != [] && LiteralLength(s) < |s|
    ensures var d := Delimiter(s); var r := StringLength(s[|d|..], d);
      && r.Some? && |d| + r.value + |d| == LiteralLength(s) && d <= s[|d|..][r.value..] && d != ""
  {
    hide StringLength, Delimiter;
  }

  lemma LexLiteral(s: string, depth: nat)
    requires s != [] && (s[0] == '"' || s[0] == '\'') && LiteralLength(s) < |s|
    ensures LexTo(s, State(Code, depth), LiteralLength(s)) == Some(State(Code, depth))
  {
    hide LexTo, StringLength, Next, Delimiter, LiteralLength;
    LiteralEnds(s);
    var d := Delimiter(s);
    var n := StringLength(s[|d|..], d).value;
    LexOpen(s, depth);
    var rest := s[|d| + n..];
    assert s[|d|..][n..] == rest;
    CloseStep(rest, d, depth);
    LexStep(rest, State(Literal(d), depth), |d|, State(Code, depth));
    LexConcat(s, State(Code, depth), |d| + n, |d|);
  }

  lemma WordCharStep(s: string, depth: nat, word: Words)
    requires SaneWords(word) && s != [] && IsWordChar(s[0], word)
    ensures Next(s, State(Code, depth)) == (1, State(Code, depth))
  {
  }

  lemma {:induction false} LexWord(s: string, n: nat, depth: nat, word: Words)
    requires SaneWords(word) && n <= |s| && forall i :: 0 <= i < n ==> IsWordChar(s[i], word)
    ensures LexTo(s, State(Code, depth), n) == Some(State(Code, depth))
  {
    hide LexTo, Next, IsWordChar, SaneWords;
    var st := State(Code, depth);
    if n == 0 {
      LexNothing(s, st);
    } else {
      WordCharStep(s, depth, word);
      LexStep(s, st, 1, st);
      LexWord(s[1..], n - 1, depth, word);
      LexConcat(s, st, 1, n - 1);
    }
  }

  /** After skipping, no comment begins. */
  lemma {:induction false} SkipIsDone(s: string)
    requires SkipLength(s) < |s|
    ensures var t := s[SkipLength(s)..]; !LineComment(t) && !BlockOpen(t)
    decreases |s|
  {
    hide LineLength, BlockLength, SkipLength, PySpace;
    SkipUnfold(s);
    if PySpace(s[0]) {
      SkipIsDone(s[1..]);
      assert s[1..][SkipLength(s[1..])..] == s[SkipLength(s)..];
    } else if LineComment(s) {
      var k := LineLength(s);
      SkipIsDone(s[k..]);
      assert s[k..][SkipLength(s[k..])..] == s[SkipLength(s)..];
    } else if BlockOpen(s) {
      var k := 2 + BlockLength(s[2..], 1);
      SkipIsDone(s[k..]);
      assert s[k..][SkipLength(s[k..])..] == s[SkipLength(s)..];
    } else {
      assert s[0..] == s;
    }
  }

  lemma LexToken(t: string, depth: nat, word: Words)
    requires SaneWords(word) && t != [] && t[0] != '"' && t[0] != '\'' && !LineComment(t) && !BlockOpen(t)
    ensures var n := WordLength(t, word); var size := if n == 0 then 1 else n;
      LexTo(t, State(Code, depth), size) == Some(State(Code, Deepen(depth, t[0])))
  {
    hide LexTo;
    var n := WordLength(t, word);
    if n == 0 {
      LexStep(t, State(Code, depth), 1, State(Code, Deepen(depth, t[0])));
    } else {
      LexWord(t, n, depth, word);
      assert Deepen(depth, t[0]) == depth;
    }
  }

  // ---------------------------------------------------------------------------
  // Main result
  // ---------------------------------------------------------------------------

  /** `at` is where the word stands: code, no bracket open. `r` is the inside of a literal, to its end. */
  ghost predicate InRootCode(s: string, depth: nat, at: nat, r: Result) {
    && r.Found? && at + |VERSION| < r.start <= r.end <= |s|
    && LexTo(s, State(Code, depth), at) == Some(State(Code, 0))
    && VERSION <= s[at..]
    && exists d: string :: WholeLiteral(s, depth, r, d)
  }

  /** From start to end the lexer is inside one double-quoted literal, which closes there. */
  ghost predicate WholeLiteral(s: string, depth: nat, r: Result, d: string) {
    && r.Found? && r.start <= r.end <= |s|
    && d != "" && d[0] == '"'
    && LexTo(s, State(Code, depth), r.start) == Some(State(Literal(d), 0))
    && LexTo(s, State(Code, depth), r.end) == Some(State(Literal(d), 0))
    && d <= s[r.end..]
  }

  lemma InRootCodeShift(s: string, depth: nat, k: nat, depth': nat, at: nat, r: Result)
    requires LexTo(s, State(Code, depth), k) == Some(State(Code, depth')) && k <= |s|
    requires InRootCode(s[k..], depth', at, r)
    ensures InRootCode(s, depth, k + at, Shift(r, k))
  {
    hide LexTo;
    var st := State(Code, depth);
    LexConcat(s, st, k, at);
    LexConcat(s, st, k, r.start);
    LexConcat(s, st, k, r.end);
    var d :| WholeLiteral(s[k..], depth', r, d);
    assert s[k..][at..] == s[k + at..] && s[k..][r.end..] == s[k + r.end..];
    assert WholeLiteral(s, depth, Shift(r, k), d);
  }

  lemma LexValue(s: string) returns (d: string)
    requires ReadValue(s).Found?
    ensures WholeLiteral(s, 0, ReadValue(s), d)
  {
    hide LexTo, StringLength, SkipLength, ReadValue;
    ReadValueShape(s);
    ReadValueLength(s);
    var q, r := SkipLength(s), ReadValue(s);
    var t := s[q..];
    d := Delimiter(t);
    LexSkip(s, 0);
    LexOpen(t, 0);
    LexConcat(s, State(Code, 0), q, |d|);
    LexConcat(s, State(Code, 0), q, |d| + (r.end - r.start));
  }

  lemma LexAssignment(t: string, depth: nat, previous: string, word: Words)
    requires SaneWords(word) && t != []
    requires Assignment(t, WordLength(t, word), depth, previous).Some?
    ensures var v := Assignment(t, WordLength(t, word), depth, previous).value;
      && depth == 0 && v > |VERSION| && VERSION <= t
      && LexTo(t, State(Code, 0), v) == Some(State(Code, 0))
  {
    hide LexTo, SkipLength, WordLength;
    var n := WordLength(t, word);
    var e := SkipLength(t[n..]);
    assert IsWordRun(t, n, word) by { WordRun(t, word); }
    LexWord(t, n, 0, word);
    LexSkip(t[n..], 0);
    var st := State(Code, 0);
    LexConcat(t, st, n, e);
    assert t[n..][e..] == t[n + e..];
    EqualsStep(t[n + e..]);
    LexStep(t[n + e..], st, 1, st);
    LexConcat(t, st, n + e, 1);
  }

  predicate IsWordRun(t: string, n: nat, word: Words) {
    n <= |t| && forall i :: 0 <= i < n ==> IsWordChar(t[i], word)
  }

  lemma WordRun(t: string, word: Words)
    ensures IsWordRun(t, WordLength(t, word), word)
  {
  }

  lemma EqualsStep(s: string)
    requires s != [] && s[0] == '='
    ensures Next(s, State(Code, 0)) == (1, State(Code, 0))
  {
  }

  lemma {:induction false} FoundInRootCode(s: string, depth: nat, previous: string, word: Words) returns (at: nat)
    requires SaneWords(word) && FindVersion(s, depth, previous, word).Found?
    ensures InRootCode(s, depth, at, FindVersion(s, depth, previous, word))
    decreases |s|
  {
    hide SkipLength, LiteralLength, WordLength, ReadValue, Assignment, Deepen, FindVersion;
    hide InRootCode, LexTo, SaneWords;
    FoundIsAhead(s, depth, previous, word);
    FindUnfold(s, depth, previous, word);
    var k := SkipLength(s);
    var t := s[k..];
    LexSkip(s, depth);
    SkipIsDone(s);
    var inner, r := 0, Missing;
    if t[0] == '"' || t[0] == '\'' {
      var n := LiteralLength(t);
      r := FindVersion(t[n..], depth, "string", word);
      FoundIsAhead(t[n..], depth, "string", word);
      inner := FoundInRootCode(t[n..], depth, "string", word);
      LexLiteral(t, depth);
      InRootCodeShift(t, depth, n, depth, inner, r);
      ShiftTwice(r, n, k);
      inner, r := inner + n, Shift(r, n);
    } else {
      var n := WordLength(t, word);
      var assigns := Assignment(t, n, depth, previous);
      if assigns.Some? {
        var v := assigns.value;
        r := Shift(ReadValue(t[v..]), v);
        AssignedInRootCode(t, depth, previous, word);
        ShiftTwice(ReadValue(t[v..]), v, k);
      } else {
        var size := if n == 0 then 1 else n;
        var depth' := Deepen(depth, t[0]);
        r := FindVersion(t[size..], depth', t[..size], word);
        inner := FoundInRootCode(t[size..], depth', t[..size], word);
        LexToken(t, depth, word);
        InRootCodeShift(t, depth, size, depth', inner, r);
        ShiftTwice(r, size, k);
        inner, r := inner + size, Shift(r, size);
      }
    }
    InRootCodeShift(s, depth, k, depth, inner, r);
    at := k + inner;
  }

  lemma AssignedInRootCode(t: string, depth: nat, previous: string, word: Words)
    requires SaneWords(word) && t != []
    requires Assignment(t, WordLength(t, word), depth, previous).Some?
    requires ReadValue(t[Assignment(t, WordLength(t, word), depth, previous).value..]).Found?
    ensures var v := Assignment(t, WordLength(t, word), depth, previous).value;
      InRootCode(t, depth, 0, Shift(ReadValue(t[v..]), v))
  {
    hide LexTo, ReadValue, Assignment, WordLength, SaneWords;
    var v := Assignment(t, WordLength(t, word), depth, previous).value;
    var r := ReadValue(t[v..]);
    LexAssignment(t, depth, previous, word);
    var d := LexValue(t[v..]);
    LexNothing(t, State(Code, 0));
    LexConcat(t, State(Code, 0), v, r.start);
    LexConcat(t, State(Code, 0), v, r.end);
    assert t[v..][r.end..] == t[v + r.end..];
    assert t[0..] == t;
    assert WholeLiteral(t, depth, Shift(r, v), d);
  }

  /**
    Whatever the parser returns is the whole inside of one double-quoted literal, and the
    `version` it belongs to stands in code, outside every string and nested comment, with
    no bracket open.
   */
  lemma VersionIsInRootCode(content: string, word: Words)
    requires SaneWords(word) && ParseVersion(content, word).Found?
    ensures exists at: nat :: InRootCode(content, 0, at, ParseVersion(content, word))
  {
    hide InRootCode;
    var at := FoundInRootCode(content, 0, "", word);
  }
}
