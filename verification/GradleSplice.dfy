/** Replacing the version text in place: the parser finds the new value at the same spot. */
module GradleSplice {
  import opened Options
  import opened Text
  import opened Gradle

  /** Same first `n` characters. */
  predicate Agree(a: string, b: string, n: nat) {
    n <= |a| && n <= |b| && forall i :: 0 <= i < n ==> a[i] == b[i]
  }

  lemma AgreeDrop(a: string, b: string, n: nat, k: nat)
    requires Agree(a, b, n) && k <= n
    ensures Agree(a[k..], b[k..], n - k)
  {
  }

  // ---------------------------------------------------------------------------
  // Each piece of the scanner looks no further than it must
  // ---------------------------------------------------------------------------

  lemma {:induction false} LineLocal(a: string, b: string, n: nat)
    requires Agree(a, b, n) && LineLength(a) < n
    ensures LineLength(b) == LineLength(a)
  {
    if a[0] != '\n' {
      AgreeDrop(a, b, n, 1);
      LineLocal(a[1..], b[1..], n - 1);
    }
  }

  lemma {:induction false} ClosedBlock(a: string, m: nat)
    requires m > 0 && BlockLength(a, m) < |a|
    ensures BlockLength(a, m) >= 2
    decreases |a|
  {
    if !BlockOpen(a) && !BlockClose(a) { ClosedBlock(a[1..], m); }
  }

  lemma {:induction false} BlockLocal(a: string, b: string, m: nat, n: nat)
    requires Agree(a, b, n) && BlockLength(a, m) < n
    ensures BlockLength(b, m) == BlockLength(a, m)
    decreases |a|
  {
    if m > 0 {
      ClosedBlock(a, m);
      if BlockOpen(a) {
        AgreeDrop(a, b, n, 2);
        BlockLocal(a[2..], b[2..], m + 1, n - 2);
      } else if BlockClose(a) {
        AgreeDrop(a, b, n, 2);
        BlockLocal(a[2..], b[2..], m - 1, n - 2);
      } else {
        AgreeDrop(a, b, n, 1);
        BlockLocal(a[1..], b[1..], m, n - 1);
      }
    }
  }

  lemma StartsAlike(a: string, b: string, n: nat)
    requires Agree(a, b, n) && n > 0
    ensures a[0] == b[0]
    ensures n > 1 || a[0] != '/' ==> (LineComment(a) <==> LineComment(b)) && (BlockOpen(a) <==> BlockOpen(b))
  {
  }

  lemma {:induction false} SkipLocal(a: string, b: string, n: nat)
    requires Agree(a, b, n)
    requires SkipLength(a) + 1 < n || (SkipLength(a) < n && a[SkipLength(a)] != '/')
    ensures SkipLength(b) == SkipLength(a)
    decreases |a|
  {
    hide LineLength, BlockLength, SkipLength, PySpace;
    SkipUnfold(a);
    SkipUnfold(b);
    StartsAlike(a, b, n);
    hide Agree, LineComment, BlockOpen;
    if PySpace(a[0]) {
      AgreeDrop(a, b, n, 1);
      SkipLocal(a[1..], b[1..], n - 1);
    } else if LineComment(a) {
      var k := LineLength(a);
      LineLocal(a, b, n);
      AgreeDrop(a, b, n, k);
      SkipLocal(a[k..], b[k..], n - k);
    } else if BlockOpen(a) {
      AgreeDrop(a, b, n, 2);
      BlockLocal(a[2..], b[2..], 1, n - 2);
      var k := 2 + BlockLength(a[2..], 1);
      AgreeDrop(a, b, n, k);
      SkipLocal(a[k..], b[k..], n - k);
    }
  }

  lemma {:induction false} StringLocal(a: string, b: string, d: string, n: nat)
    requires Agree(a, b, n) && StringLength(a, d).Some? && StringLength(a, d).value + |d| <= n
    requires d != "" && forall i, j :: 0 <= i < |d| && 0 <= j < |d| ==> d[i] == d[j]
    ensures StringLength(b, d) == StringLength(a, d)
    decreases |a|
  {
    hide StringLength;
    StringUnfold(a, d);
    StringUnfold(b, d);
    if d <= a {
      assert d <= b by { PrefixLocal(a, b, d, n); }
    } else {
      var k := if |d| == 1 && a[0] == '\\' then 2 else 1;
      AgreeDrop(a, b, n, k);
      StringLocal(a[k..], b[k..], d, n - k);
      assert !(d <= b) by { PrefixLocal(a, b, d, n); }
    }
  }

  lemma PrefixLocal(a: string, b: string, d: string, n: nat)
    requires Agree(a, b, n) && |d| <= n
    ensures d <= a <==> d <= b
  {
    assert a[..|d|] == b[..|d|];
  }

  lemma {:induction false} WordTailLocal(a: string, b: string, word: Words, n: nat)
    requires Agree(a, b, n) && WordTail(a, word) < n
    ensures WordTail(b, word) == WordTail(a, word)
  {
    if IsWordChar(a[0], word) {
      AgreeDrop(a, b, n, 1);
      WordTailLocal(a[1..], b[1..], word, n - 1);
    }
  }

  lemma WordLocal(a: string, b: string, word: Words, n: nat)
    requires Agree(a, b, n) && WordLength(a, word) < n
    ensures WordLength(b, word) == WordLength(a, word)
  {
    if IsWordStart(a[0]) { WordTailLocal(a, b, word, n); }
  }

  lemma DelimiterSame(a: string, b: string, n: nat)
    requires Agree(a, b, n) && n >= 3
    ensures Delimiter(a) == Delimiter(b)
    ensures forall i, j :: 0 <= i < |Delimiter(a)| && 0 <= j < |Delimiter(a)| ==> Delimiter(a)[i] == Delimiter(a)[j]
  {
  }

  lemma LiteralLocal(a: string, b: string, n: nat)
    requires Agree(a, b, n) && a != [] && LiteralLength(a) < n
    ensures b != [] && LiteralLength(b) == LiteralLength(a)
  {
    hide StringLength;
    var d := Delimiter(a);
    assert LiteralLength(a) >= 2 * |d|;
    DelimiterSame(a, b, n);
    AgreeDrop(a, b, n, |d|);
    StringLocal(a[|d|..], b[|d|..], d, n - |d|);
  }

  lemma AssignmentLocal(a: string, b: string, w: nat, depth: nat, previous: string, n: nat)
    requires Agree(a, b, n) && w < n && w + SkipLength(a[w..]) + 1 < n
    ensures Assignment(b, w, depth, previous) == Assignment(a, w, depth, previous)
  {
    hide SkipLength;
    AgreeDrop(a, b, n, w);
    SkipLocal(a[w..], b[w..], n - w);
    assert a[..w] == b[..w];
  }

  // ---------------------------------------------------------------------------
  // The value
  // ---------------------------------------------------------------------------

  /** A replacement that cannot end the literal or escape anything in it. */
  predicate SafeValue(w: string) { w != "" && '"' !in w && '\\' !in w }

  lemma {:induction false} NewLength(w: string, rest: string, d: string)
    requires d != "" && d[0] == '"' && d <= rest && '"' !in w && '\\' !in w
    ensures StringLength(w + rest, d) == Some(|w|)
  {
    hide StringLength;
    StringUnfold(w + rest, d);
    if w == [] {
      assert w + rest == rest;
    } else {
      assert (w + rest)[0] == w[0] && w[0] in w;
      assert (w + rest)[1..] == w[1..] + rest;
      NewLength(w[1..], rest, d);
    }
  }

  lemma ReadValueShape(s: string)
    requires ReadValue(s).Found?
    ensures var q := SkipLength(s); var r := ReadValue(s);
      && q < |s| && s[q] == '"'
      && var d := Delimiter(s[q..]);
         && r.start == q + |d| <= r.end <= |s| && d <= s[r.end..] && d[0] == '"'
  {
    hide SkipLength, StringLength;
    var q := SkipLength(s);
    var t := s[q..];
    var d := Delimiter(t);
    var n := StringLength(t[|d|..], d).value;
    assert t[|d|..][n..] == s[q + |d| + n..];
  }

  lemma ReadValueLength(s: string)
    requires ReadValue(s).Found?
    ensures var q := SkipLength(s); var r := ReadValue(s);
      q < |s| && var d := Delimiter(s[q..]); StringLength(s[q..][|d|..], d) == Some(r.end - r.start)
  {
    hide SkipLength, StringLength;
  }

  lemma ReadSpliced(s: string, w: string)
    requires ReadValue(s).Found? && SafeValue(w)
    ensures ReadValue(s).start <= ReadValue(s).end <= |s|
    ensures var r := ReadValue(s);
      ReadValue(Splice(s, r.start, r.end, w)) == Found(r.start, r.start + |w|)
  {
    hide StringLength, SkipLength, ReadValue;
    ReadValueShape(s);
    var r, q := ReadValue(s), SkipLength(s);
    var s' := Splice(s, r.start, r.end, w);
    var d := Delimiter(s[q..]);
    SkipLocal(s, s', r.start);
    var t' := s'[q..];
    assert s'[r.start..] == w + s[r.end..];
    assert t'[|d|..] == w + s[r.end..];
    SameDelimiter(s[q..], t', w);
    NewLength(w, s[r.end..], d);
    ReadValueIs(s', q, d, |w|);
  }

  lemma SameDelimiter(t: string, t': string, w: string)
    requires t != [] && t[0] == '"' && SafeValue(w)
    requires var d := Delimiter(t); Agree(t, t', |d|) && w <= t'[|d|..]
    ensures Delimiter(t') == Delimiter(t)
  {
    var d := Delimiter(t);
    assert t'[|d|..][0] == w[0] && w[0] in w;
  }

  lemma ReadValueIs(s: string, q: nat, d: string, n: nat)
    requires q == SkipLength(s) && q < |s| && s[q] == '"' && Delimiter(s[q..]) == d
    requires StringLength(s[q..][|d|..], d) == Some(n)
    ensures ReadValue(s) == Found(q + |d|, q + |d| + n)
  {
  }

  // ---------------------------------------------------------------------------
  // The whole parse
  // ---------------------------------------------------------------------------

  /** What is found lies at least two characters past the first token. */
  lemma {:induction false} FoundIsAhead(s: string, depth: nat, previous: string, word: Words)
    requires FindVersion(s, depth, previous, word).Found?
    ensures var r := FindVersion(s, depth, previous, word);
      SkipLength(s) + 1 < r.start <= r.end <= |s|
    decreases |s|
  {
    hide SkipLength, LiteralLength, WordLength, ReadValue, Assignment, Deepen, FindVersion;
    FindUnfold(s, depth, previous, word);
    var k := SkipLength(s);
    var t := s[k..];
    if t[0] == '"' || t[0] == '\'' {
      var n := LiteralLength(t);
      FoundIsAhead(t[n..], depth, "string", word);
    } else {
      var n := WordLength(t, word);
      var assigns := Assignment(t, n, depth, previous);
      if assigns.Some? {
        ReadValueShape(t[assigns.value..]);
      } else {
        var size := if n == 0 then 1 else n;
        FoundIsAhead(t[size..], Deepen(depth, t[0]), t[..size], word);
      }
    }
  }

  lemma SpliceDrop(s: string, start: nat, end: nat, w: string, k: nat)
    requires k <= start <= end <= |s|
    ensures Splice(s, start, end, w)[k..] == Splice(s[k..], start - k, end - k, w)
    ensures Agree(s, Splice(s, start, end, w), start)
  {
    assert s[k..][end - k..] == s[end..];
  }

  /** After splicing a safe value the parser finds it, where the old one was. */
  lemma {:induction false} SpliceFound(s: string, depth: nat, previous: string, word: Words, w: string)
    requires FindVersion(s, depth, previous, word).Found? && SafeValue(w)
    ensures var r := FindVersion(s, depth, previous, word);
      && r.start <= r.end <= |s|
      && FindVersion(Splice(s, r.start, r.end, w), depth, previous, word) == Found(r.start, r.start + |w|)
    decreases |s|
  {
    hide SkipLength, LiteralLength, WordLength, ReadValue, Assignment, Deepen, FindVersion, Splice;
    var r := FindVersion(s, depth, previous, word);
    FoundIsAhead(s, depth, previous, word);
    FindUnfold(s, depth, previous, word);
    var k := SkipLength(s);
    var t, s' := s[k..], Splice(s, r.start, r.end, w);
    SpliceDrop(s, r.start, r.end, w, k);
    SkipLocal(s, s', r.start);
    FindUnfold(s', depth, previous, word);
    var t' := s'[k..];
    AgreeDrop(s, s', r.start, k);
    if t[0] == '"' || t[0] == '\'' {
      SpliceAfterLiteral(t, t', depth, word, w, r.start - k, r.end - k);
    } else {
      SpliceAfterWord(t, t', depth, previous, word, w, r.start - k, r.end - k);
    }
  }

  lemma {:induction false} SpliceAfterLiteral(
    t: string, t': string, depth: nat, word: Words, w: string, start: nat, end: nat)
    requires t != [] && SafeValue(w) && start <= end <= |t| && t' == Splice(t, start, end, w)
    requires Shift(FindVersion(t[LiteralLength(t)..], depth, "string", word), LiteralLength(t)) == Found(start, end)
    ensures t' != [] && LiteralLength(t') == LiteralLength(t)
    ensures Shift(FindVersion(t'[LiteralLength(t)..], depth, "string", word), LiteralLength(t))
         == Found(start, start + |w|)
    decreases |t|, 0
  {
    hide SkipLength, LiteralLength, FindVersion, Splice;
    var n := LiteralLength(t);
    FoundIsAhead(t[n..], depth, "string", word);
    SpliceDrop(t, start, end, w, n);
    LiteralLocal(t, t', start);
    SpliceFound(t[n..], depth, "string", word, w);
  }

  /** The branch for a word or a single character, as a function of what follows it. */
  function AfterWord(t: string, depth: nat, previous: string, word: Words): Result
    requires t != []
  {
    var n := WordLength(t, word);
    var assigns := Assignment(t, n, depth, previous);
    if assigns.Some? then Shift(ReadValue(t[assigns.value..]), assigns.value)
    else
      var size := if n == 0 then 1 else n;
      Shift(FindVersion(t[size..], Deepen(depth, t[0]), t[..size], word), size)
  }

  lemma {:induction false} SpliceAfterWord(
    t: string, t': string, depth: nat, previous: string, word: Words, w: string, start: nat, end: nat)
    requires t != [] && SafeValue(w) && start <= end <= |t| && t' == Splice(t, start, end, w)
    requires AfterWord(t, depth, previous, word) == Found(start, end)
    ensures t' != [] && start > 0 && t'[0] == t[0]
    ensures AfterWord(t', depth, previous, word) == Found(start, start + |w|)
    decreases |t|, 0
  {
    hide SkipLength, WordLength, ReadValue, Assignment, Deepen, FindVersion, Splice;
    var n := WordLength(t, word);
    var assigns := Assignment(t, n, depth, previous);
    if assigns.Some? {
      var v := assigns.value;
      ReadValueShape(t[v..]);
      SpliceDrop(t, start, end, w, v);
      WordLocal(t, t', word, start);
      AssignmentEnds(t, n, depth, previous);
      AssignmentLocal(t, t', n, depth, previous, start);
      ReadSpliced(t[v..], w);
    } else {
      var size := if n == 0 then 1 else n;
      FoundIsAhead(t[size..], Deepen(depth, t[0]), t[..size], word);
      SpliceDrop(t, start, end, w, size);
      WordLocal(t, t', word, start);
      if n > 0 {
        AssignmentLocal(t, t', n, depth, previous, start);
      } else {
        NoWordNoAssignment(t, depth, previous);
        NoWordNoAssignment(t', depth, previous);
      }
      assert t[..size] == t'[..size];
      SpliceFound(t[size..], Deepen(depth, t[0]), t[..size], word, w);
    }
  }

  lemma NoWordNoAssignment(t: string, depth: nat, previous: string)
    ensures Assignment(t, 0, depth, previous).None?
  {
  }

  lemma AssignmentEnds(t: string, n: nat, depth: nat, previous: string)
    requires n <= |t| && Assignment(t, n, depth, previous).Some?
    ensures Assignment(t, n, depth, previous).value == n + SkipLength(t[n..]) + 1
  {
  }

  /**
    If the parser finds a version, putting any safe value in its place makes the parser
    find that value, at the same start.
   */
  lemma SplicedVersionReadsBack(content: string, word: Words, w: string)
    requires ParseVersion(content, word).Found? && SafeValue(w)
    ensures var r := ParseVersion(content, word);
      && r.start <= r.end <= |content|
      && var content' := Splice(content, r.start, r.end, w);
         && ParseVersion(content', word) == Found(r.start, r.start + |w|)
         && content'[r.start..r.start + |w|] == w
  {
    SpliceFound(content, 0, "", word, w);
  }
}
