/** Lines and trimming, as the scripts' string methods do them. */
module Text {

  /** `w` in place of the characters from `start` up to `end`. */
  function Splice(s: string, start: nat, end: nat, w: string): string
    requires start <= end <= |s|
  {
    s[..start] + w + s[end..]
  }

  /** The pieces between occurrences of `c`; there is always at least one. */
  function Split(s: string, c: char): (r: seq<string>)
    ensures r != []
    ensures forall l <- r :: c !in l
    ensures c !in s ==> r == [s]
  {
    if s == [] then [[]]
    else
      var rest := Split(s[1..], c);
      if s[0] == c then [[]] + rest
      else
        assert c !in s ==> [s[0]] + rest[0] == s;
        [[s[0]] + rest[0]] + rest[1..]
  }

  function Join(lines: seq<string>, c: char): string {
    if lines == [] then []
    else if |lines| == 1 then lines[0]
    else lines[0] + [c] + Join(lines[1..], c)
  }

  lemma {:induction false} JoinSplit(s: string, c: char)
    ensures Join(Split(s, c), c) == s
  {
    if s != [] {
      JoinSplit(s[1..], c);
      var rest := Split(s[1..], c);
      var r := Split(s, c);
      if s[0] == c {
        assert r[1..] == rest;
        assert r[0] + [c] + s[1..] == s;
      } else if |rest| == 1 {
        assert r == [[s[0]] + rest[0]];
        assert s == [s[0]] + s[1..];
      } else {
        assert r[1..] == rest[1..];
        assert rest[0] + [c] + Join(rest[1..], c) == s[1..];
        assert ([s[0]] + rest[0]) + [c] + Join(rest[1..], c) == [s[0]] + s[1..];
      }
    }
  }

  lemma SplitCons(s: string, c: char)
    requires s != []
    ensures var rest := Split(s[1..], c);
      Split(s, c) == if s[0] == c then [[]] + rest else [[s[0]] + rest[0]] + rest[1..]
  {
  }

  lemma {:induction false} SplitConcat(a: string, b: string, c: char)
    ensures Split(a + [c] + b, c) == Split(a, c) + Split(b, c)
  {
    hide Split;
    var s := a + [c] + b;
    SplitCons(s, c);
    if a == [] {
      assert s[1..] == b;
    } else {
      assert s[1..] == a[1..] + [c] + b && s[0] == a[0];
      SplitConcat(a[1..], b, c);
      SplitCons(a, c);
      ConsConcat(a[0], Split(a[1..], c), Split(b, c));
    }
  }

  lemma ConsConcat(h: char, a: seq<string>, b: seq<string>)
    requires a != []
    ensures [[]] + (a + b) == ([[]] + a) + b
    ensures [[h] + (a + b)[0]] + (a + b)[1..] == ([[h] + a[0]] + a[1..]) + b
  {
    assert (a + b)[1..] == a[1..] + b;
  }

  lemma {:induction false} SplitJoin(lines: seq<string>, c: char)
    requires lines != [] && forall l <- lines :: c !in l
    ensures Split(Join(lines, c), c) == lines
  {
    if |lines| == 1 {
      assert lines == [lines[0]];
    } else {
      SplitJoin(lines[1..], c);
      SplitConcat(lines[0], Join(lines[1..], c), c);
      assert [lines[0]] + lines[1..] == lines;
    }
  }

  lemma {:induction false} JoinConcat(a: seq<string>, b: seq<string>, c: char)
    requires a != [] && b != []
    ensures Join(a + b, c) == Join(a, c) + [c] + Join(b, c)
  {
    if |a| == 1 {
      assert (a + b)[1..] == b && (a + b)[0] == a[0];
    } else {
      JoinConcat(a[1..], b, c);
      assert (a + b)[1..] == a[1..] + b;
      assert (a + b)[0] == a[0];
      assert a[0] + [c] + (Join(a[1..], c) + [c] + Join(b, c)) == (a[0] + [c] + Join(a[1..], c)) + [c] + Join(b, c);
    }
  }

  // ---------------------------------------------------------------------------
  // Trimming
  // ---------------------------------------------------------------------------

  /** What JavaScript's trim strips. */
  predicate JsSpace(c: char) {
    || '\U{0009}' <= c <= '\U{000D}' || c == ' ' || c == '\U{00A0}' || c == '\U{1680}'
    || '\U{2000}' <= c <= '\U{200A}' || c == '\U{2028}' || c == '\U{2029}' || c == '\U{202F}'
    || c == '\U{205F}' || c == '\U{3000}' || c == '\U{FEFF}'
  }

  /** What Python's strip strips, and its `\s` matches. */
  predicate PySpace(c: char) {
    || (JsSpace(c) && c != '\U{FEFF}')
    || '\U{001C}' <= c <= '\U{001F}' || c == '\U{0085}'
  }

  function TrimStart(s: string, sp: char -> bool): string {
    if s == [] || !sp(s[0]) then s else TrimStart(s[1..], sp)
  }

  function TrimEnd(s: string, sp: char -> bool): string {
    if s == [] || !sp(s[|s| - 1]) then s else TrimEnd(s[..|s| - 1], sp)
  }

  function Trim(s: string, sp: char -> bool): string { TrimEnd(TrimStart(s, sp), sp) }

  predicate Tight(s: string, sp: char -> bool) {
    s == [] || (!sp(s[0]) && !sp(s[|s| - 1]))
  }

  predicate AllSpace(s: string, sp: char -> bool) { forall c <- s :: sp(c) }

  lemma {:induction false} TrimEndIsTight(s: string, sp: char -> bool)
    ensures TrimEnd(s, sp) <= s
    ensures TrimEnd(s, sp) == [] || !sp(TrimEnd(s, sp)[|TrimEnd(s, sp)| - 1])
  {
    if s != [] && sp(s[|s| - 1]) {
      TrimEndIsTight(s[..|s| - 1], sp);
    }
  }

  lemma {:induction false} TrimStartIsTight(s: string, sp: char -> bool)
    ensures TrimStart(s, sp) == [] || !sp(TrimStart(s, sp)[0])
    ensures forall c <- TrimStart(s, sp) :: c in s
  {
    if s != [] && sp(s[0]) {
      TrimStartIsTight(s[1..], sp);
    }
  }

  lemma TrimIsTight(s: string, sp: char -> bool)
    ensures Tight(Trim(s, sp), sp)
    ensures forall c <- Trim(s, sp) :: c in s
  {
    TrimStartIsTight(s, sp);
    TrimEndIsTight(TrimStart(s, sp), sp);
  }

  lemma TightIsTrimmed(s: string, sp: char -> bool)
    requires Tight(s, sp)
    ensures Trim(s, sp) == s
  {
  }

  lemma {:induction false} TrimStartSpace(a: string, s: string, sp: char -> bool)
    requires AllSpace(a, sp)
    ensures TrimStart(a + s, sp) == TrimStart(s, sp)
  {
    if a == [] {
      assert a + s == s;
    } else {
      assert (a + s)[1..] == a[1..] + s;
      TrimStartSpace(a[1..], s, sp);
    }
  }

  lemma {:induction false} TrimEndSpace(s: string, b: string, sp: char -> bool)
    requires AllSpace(b, sp)
    ensures TrimEnd(s + b, sp) == TrimEnd(s, sp)
  {
    if b == [] {
      assert s + b == s;
    } else {
      var k := |b| - 1;
      assert b[k] in b;
      assert (s + b)[..|s + b| - 1] == s + b[..k];
      TrimEndSpace(s, b[..k], sp);
    }
  }

  /** Space around a tight text is exactly what trimming removes. */
  lemma TrimAround(a: string, s: string, b: string, sp: char -> bool)
    requires AllSpace(a, sp) && AllSpace(b, sp) && Tight(s, sp) && s != []
    ensures Trim(a + s + b, sp) == s
  {
    assert a + s + b == a + (s + b);
    TrimStartSpace(a, s + b, sp);
    assert (s + b)[0] == s[0];
    TrimEndSpace(s, b, sp);
  }

  /** What is trimmed from the front is space. */
  lemma {:induction false} FrontIsSpace(s: string, sp: char -> bool) returns (a: string)
    ensures AllSpace(a, sp) && s == a + TrimStart(s, sp)
  {
    if s == "" || !sp(s[0]) {
      a := "";
    } else {
      var more := FrontIsSpace(s[1..], sp);
      a := [s[0]] + more;
    }
  }

  lemma {:induction false} BackIsSpace(s: string, sp: char -> bool) returns (b: string)
    ensures AllSpace(b, sp) && s == TrimEnd(s, sp) + b
  {
    if s == "" || !sp(s[|s| - 1]) {
      b := "";
    } else {
      var more := BackIsSpace(s[..|s| - 1], sp);
      b := more + [s[|s| - 1]];
    }
  }

  /** Trimming removes space, and nothing else. */
  lemma AroundIsSpace(s: string, sp: char -> bool) returns (a: string, b: string)
    ensures AllSpace(a, sp) && AllSpace(b, sp) && s == a + Trim(s, sp) + b
  {
    a := FrontIsSpace(s, sp);
    b := BackIsSpace(TrimStart(s, sp), sp);
    assert TrimStart(s, sp) == Trim(s, sp) + b;
  }

  lemma TrimsAwayExactly(s: string, sp: char -> bool)
    ensures Trim(s, sp) == "" <==> AllSpace(s, sp)
  {
    if AllSpace(s, sp) {
      assert s + "" == s;
      TrimStartSpace(s, "", sp);
    } else {
      var a, b := AroundIsSpace(s, sp);
    }
  }

  /** Trailing space does not change what trimming leaves. */
  lemma TrimSuffix(s: string, b: string, sp: char -> bool)
    requires AllSpace(b, sp)
    ensures Trim(s + b, sp) == Trim(s, sp)
    decreases |s|
  {
    if s == [] {
      assert s + b == b && b + [] == b;
      TrimStartSpace(b, [], sp);
    } else if sp(s[0]) {
      assert (s + b)[1..] == s[1..] + b;
      TrimSuffix(s[1..], b, sp);
    } else {
      assert (s + b)[0] == s[0];
      TrimEndSpace(s, b, sp);
    }
  }

  lemma {:induction false} TrimSame(s: string, sp: char -> bool, sp': char -> bool)
    requires forall c <- s :: sp(c) == sp'(c)
    ensures TrimStart(s, sp) == TrimStart(s, sp') && TrimEnd(s, sp) == TrimEnd(s, sp')
  {
    if s != [] {
      assert s[0] in s && s[|s| - 1] in s;
      TrimSame(s[1..], sp, sp');
      TrimSame(s[..|s| - 1], sp, sp');
    }
  }

  // ---------------------------------------------------------------------------
  // What trimming never changes
  // ---------------------------------------------------------------------------

  /** The number of characters that are not space. */
  function Ink(s: string, sp: char -> bool): nat {
    if s == [] then 0 else (if sp(s[0]) then 0 else 1) + Ink(s[1..], sp)
  }

  function InkOf(lines: seq<string>, sp: char -> bool): nat {
    if lines == [] then 0 else Ink(lines[0], sp) + InkOf(lines[1..], sp)
  }

  lemma {:induction false} InkConcat(a: string, b: string, sp: char -> bool)
    ensures Ink(a + b, sp) == Ink(a, sp) + Ink(b, sp)
  {
    if a == [] {
      assert a + b == b;
    } else {
      assert (a + b)[1..] == a[1..] + b;
      InkConcat(a[1..], b, sp);
    }
  }

  lemma {:induction false} InkTrim(s: string, sp: char -> bool)
    ensures Ink(Trim(s, sp), sp) == Ink(s, sp)
  {
    if s != [] && sp(s[0]) { InkTrim(s[1..], sp); } else { InkTrimEnd(s, sp); }
  }

  lemma {:induction false} InkTrimEnd(s: string, sp: char -> bool)
    ensures Ink(TrimEnd(s, sp), sp) == Ink(s, sp)
  {
    if s != [] && sp(s[|s| - 1]) {
      var k := |s| - 1;
      InkTrimEnd(s[..k], sp);
      InkConcat(s[..k], [s[k]], sp);
      assert s == s[..k] + [s[k]] && [s[k]][1..] == [];
    }
  }

  lemma {:induction false} InkJoin(lines: seq<string>, c: char, sp: char -> bool)
    requires sp(c)
    ensures Ink(Join(lines, c), sp) == InkOf(lines, sp)
  {
    if |lines| == 1 {
      assert lines[1..] == [];
    } else if |lines| > 1 {
      InkJoin(lines[1..], c, sp);
      InkConcat(lines[0] + [c], Join(lines[1..], c), sp);
      InkConcat(lines[0], [c], sp);
      assert [c][1..] == [];
    }
  }

  lemma {:induction false} InkOfConcat(a: seq<string>, b: seq<string>, sp: char -> bool)
    ensures InkOf(a + b, sp) == InkOf(a, sp) + InkOf(b, sp)
  {
    if a == [] {
      assert a + b == b;
    } else {
      assert (a + b)[1..] == a[1..] + b;
      InkOfConcat(a[1..], b, sp);
    }
  }
}
