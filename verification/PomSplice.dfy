/** Replacing an element's text: every element path is found where it was, shifted past the change. */
module PomSplice {
  import opened Options
  import opened Text
  import opened Pom

  /** Empty, or ending where a tag ends. */
  predicate EndsTag(a: string) { a == [] || a[|a| - 1] == '>' }

  // ---------------------------------------------------------------------------
  // Reading a tag never looks past a closing bracket
  // ---------------------------------------------------------------------------

  lemma {:induction false} NameTailPrefix(a: string, b: string)
    requires a != [] && EndsTag(a)
    ensures NameTail(a + b) == NameTail(a) < |a|
  {
    if NameChar(a[0]) {
      assert (a + b)[1..] == a[1..] + b;
      NameTailPrefix(a[1..], b);
    }
  }

  lemma {:induction false} ToBracketPrefix(a: string, b: string)
    requires a != [] && EndsTag(a)
    ensures ToBracket(a + b) == ToBracket(a) < |a|
  {
    if a[0] != '>' {
      assert (a + b)[1..] == a[1..] + b;
      ToBracketPrefix(a[1..], b);
    }
  }

  lemma TagTailPrefix(a: string, b: string)
    requires a != [] && EndsTag(a)
    ensures TagTail(a + b) == TagTail(a)
  {
    ToBracketPrefix(a, b);
    hide ToBracket, JsSpace;
    assert (a + b)[0] == a[0];
    assert |a| > 1 ==> (a + b)[1] == a[1];
    assert a[0] == '/' ==> |a| > 1;
    var g := ToBracket(a);
    assert g > 0 ==> (a + b)[g - 1] == a[g - 1];
  }

  lemma TagNamedPrefix(a: string, b: string, closing: bool, skipped: nat)
    requires a != [] && EndsTag(a)
    ensures TagNamed(a + b, closing, skipped) == TagNamed(a, closing, skipped)
  {
    hide NameTail, TagTail, NameStart, NameChar;
    NameTailPrefix(a, b);
    var k := NameTail(a);
    assert (a + b)[0] == a[0] && (a + b)[k..] == a[k..] + b && (a + b)[..k] == a[..k];
    TagTailPrefix(a[k..], b);
  }

  lemma TagHeadPrefix(a: string, b: string)
    requires a != [] && EndsTag(a)
    ensures TagHead(a + b) == TagHead(a)
  {
    hide TagNamed;
    assert (a + b)[0] == a[0];
    if a[0] == '<' {
      assert |a| > 1 && (a + b)[1] == a[1];
      if a[1] == '/' {
        assert (a + b)[2..] == a[2..] + b && |a| > 2;
        TagNamedPrefix(a[2..], b, true, 2);
      } else {
        assert (a + b)[1..] == a[1..] + b;
        TagNamedPrefix(a[1..], b, false, 1);
      }
    }
  }

  // ---------------------------------------------------------------------------
  // Looking for a close tag
  // ---------------------------------------------------------------------------

  function Plus(r: Option<nat>, n: nat): Option<nat> { if r.None? then None else Some(r.value + n) }

  /** A pattern with its only `>` at its end. */
  predicate Closer(pat: string) {
    pat != [] && pat[0] != '>' && forall i :: 0 <= i < |pat| - 1 ==> pat[i] != '>'
  }

  lemma FindUnfold(s: string, pat: string)
    ensures pat <= s ==> Find(s, pat) == Some(0)
    ensures !(pat <= s) && s == [] ==> Find(s, pat) == None
    ensures !(pat <= s) && s != [] ==> Find(s, pat) == Plus(Find(s[1..], pat), 1)
  {
  }

  /** Nothing of `pat` can lie on both sides of the seam. */
  predicate Apart(a: string, b: string, pat: string) {
    (EndsTag(a) && Closer(pat)) || b == [] || b[0] !in pat
  }

  lemma PrefixAcross(a: string, b: string, pat: string)
    requires Apart(a, b, pat) && a != []
    ensures pat <= a + b <==> pat <= a
  {
    assert (a + b)[|a| - 1] == a[|a| - 1] && (b != [] ==> (a + b)[|a|] == b[0]);
    assert pat <= a + b ==> |pat| <= |a|;
  }

  lemma TailOf(a: string, b: string)
    requires a != []
    ensures (a + b)[1..] == a[1..] + b && a + b != []
  {
  }

  lemma ApartTail(a: string, b: string, pat: string)
    requires Apart(a, b, pat) && a != []
    ensures Apart(a[1..], b, pat)
  {
  }

  lemma {:induction false} FindAcross(a: string, b: string, pat: string)
    requires Apart(a, b, pat) && pat != []
    ensures Find(a + b, pat) == if Find(a, pat).Some? then Find(a, pat) else Plus(Find(b, pat), |a|)
  {
    hide Find, Apart;
    FindUnfold(a, pat);
    if a == [] {
      assert a + b == b;
    } else {
      TailOf(a, b);
      PrefixAcross(a, b, pat);
      FindUnfold(a + b, pat);
      ApartTail(a, b, pat);
      FindAcross(a[1..], b, pat);
    }
  }

  lemma {:induction false} FindSkip(x: string, b: string, pat: string)
    requires pat != [] && pat[0] !in x
    ensures Find(x + b, pat) == Plus(Find(b, pat), |x|)
  {
    hide Find;
    FindUnfold(x + b, pat);
    if x == [] {
      assert x + b == b;
    } else {
      assert (x + b)[1..] == x[1..] + b && (x + b)[0] == x[0];
      FindSkip(x[1..], b, pat);
    }
  }

  // ---------------------------------------------------------------------------
  // Comments
  // ---------------------------------------------------------------------------

  lemma StripUnfold(s: string)
    requires s != []
    ensures CommentLength(s).Some? ==> Strip(s) == Spaces(CommentLength(s).value) + Strip(s[CommentLength(s).value..])
    ensures CommentLength(s).None? ==> Strip(s) == [s[0]] + Strip(s[1..])
  {
    hide CommentLength;
  }

  /** No comment opened in `a` stays open, unless nothing behind `a` closes one. */
  predicate Clean(a: string, closes: bool)
    decreases |a|
  {
    if a == [] then true
    else
      match CommentLength(a)
      case Some(k) => Clean(a[k..], closes)
      case None => !("<!--" <= a && closes) && Clean(a[1..], closes)
  }

  predicate Closes(b: string) { Find(b, "-->").Some? }

  /** The seam is next to a bracket, so no comment mark crosses it. */
  predicate Seam(a: string, b: string) { EndsTag(a) || b == [] || b[0] == '<' }

  lemma {:induction false} CleanWeaken(a: string)
    requires Clean(a, true)
    ensures Clean(a, false)
    decreases |a|
  {
    if a != [] {
      match CommentLength(a)
      case Some(k) => CleanWeaken(a[k..]);
      case None => CleanWeaken(a[1..]);
    }
  }

  /** The comment at the front of `a + b` is the one at the front of `a`, or runs past `a`. */
  lemma CommentAcross(a: string, b: string)
    requires a != [] && Seam(a, b)
    ensures CommentLength(a).Some? ==> CommentLength(a + b) == CommentLength(a)
    ensures CommentLength(a).None? ==> (CommentLength(a + b).Some? <==> "<!--" <= a && Closes(b))
    ensures CommentLength(a).None? && CommentLength(a + b).Some? ==> CommentLength(a + b).value > |a|
  {
    var s := a + b;
    hide Find;
    if "<!--" <= a {
      assert s[4..] == a[4..] + b;
      FindAcross(a[4..], b, "-->");
    } else {
      OpenAcross(a, b, "<!--");
    }
  }

  lemma OpenAcross(a: string, b: string, open: string)
    requires a != [] && Seam(a, b) && '>' !in open && |open| > 1 && '<' !in open[1..] && !(open <= a)
    ensures !(open <= a + b)
  {
    var s := a + b;
    assert s[|a| - 1] == a[|a| - 1] && (b != [] ==> s[|a|] == b[0]);
    assert |open| > |a| ==> open[|a|] == open[1..][|a| - 1];
  }

  lemma StripNothing()
    ensures Strip([]) == []
  {
  }

  lemma CleanUnfold(a: string, closes: bool)
    requires a != []
    ensures Clean(a, closes) <==>
      match CommentLength(a)
      case Some(k) => Clean(a[k..], closes)
      case None => !("<!--" <= a && closes) && Clean(a[1..], closes)
  {
    hide CommentLength;
  }

  lemma {:induction false} StripAcross(a: string, b: string)
    requires Seam(a, b) && Clean(a, Closes(b))
    ensures Strip(a + b) == Strip(a) + Strip(b)
    decreases |a|
  {
    hide Strip, CommentLength, Closes, Clean;
    if a == [] {
      assert a + b == b;
      StripNothing();
    } else {
      CleanUnfold(a, Closes(b));
      CommentAcross(a, b);
      StripUnfold(a);
      StripUnfold(a + b);
      var k := if CommentLength(a).Some? then CommentLength(a).value else 1;
      assert (a + b)[k..] == a[k..] + b;
      StripAcross(a[k..], b);
    }
  }

  /** A bracket that is not blanked at the seam shows that no comment is open there. */
  lemma {:induction false} SeamIsClean(a: string, b: string)
    requires Seam(a, b) && b != []
    requires a != [] ==> Strip(a + b)[|a| - 1] == '>' || Strip(a + b)[|a|] == '<'
    ensures Clean(a, Closes(b))
    decreases |a|
  {
    hide Strip, CommentLength, Closes;
    if a != [] {
      CommentAcross(a, b);
      StripUnfold(a + b);
      var k := if CommentLength(a).Some? then CommentLength(a).value else 1;
      assert (a + b)[k..] == a[k..] + b;
      assert k < |a| ==> Strip(a + b)[|a| - 1] == Strip(a[k..] + b)[|a| - 1 - k];
      assert CommentLength(a).Some? || CommentLength(a + b).None? ==> Strip(a + b)[|a|] == Strip(a[k..] + b)[|a| - k];
      SeamIsClean(a[k..], b);
    }
  }

  lemma {:induction false} PlainIsClean(w: string, closes: bool)
    requires '<' !in w
    ensures Clean(w, closes) && Strip(w) == w
  {
    if w != [] {
      assert w[0] in w && !("<!--" <= w) by { assert "<!--"[0] == '<'; }
      PlainIsClean(w[1..], closes);
      assert w == [w[0]] + w[1..];
    }
  }

  lemma NoClose(w: string)
    requires '>' !in w
    ensures !Closes(w)
  {
    if Closes(w) { FoundIsThere(w, "-->", '>'); }
  }

  lemma FoundIsThere(w: string, pat: string, c: char)
    requires Find(w, pat).Some? && c in pat
    ensures c in w
  {
    var i :| 0 <= i < |pat| && pat[i] == c;
    var k := Find(w, pat).value;
    assert w[k..][i] == w[k + i];
  }

  /** Replacing `m` by `w`, between two brackets that are not in comments, replaces just that in the stripped text. */
  lemma StripSplice(a: string, m: string, q: string, w: string)
    requires a != [] && q != [] && '<' !in w && '>' !in w
    requires Strip(a + m + q)[|a| - 1] == '>' && a[|a| - 1] == '>'
    requires Strip(a + m + q)[|a| + |m|] == '<' && q[0] == '<'
    ensures Strip(a + m + q) == Strip(a) + Strip(m) + Strip(q)
    ensures Strip(a + w + q) == Strip(a) + w + Strip(q)
  {
    hide Strip, Clean, Closes;
    SplitAt(a, m, q);
    CleanBefore(a, m, q, w);
    Regroup(a, w, q);
    StripAcross(a, w + q);
    PlainIsClean(w, Closes(q));
    StripAcross(w, q);
    Regroup(Strip(a), w, Strip(q));
  }

  /** Between the brackets the text strips piece by piece, and no comment is open at either. */
  lemma SplitAt(a: string, m: string, q: string)
    requires a != [] && q != []
    requires Strip(a + m + q)[|a| - 1] == '>' && a[|a| - 1] == '>'
    requires Strip(a + m + q)[|a| + |m|] == '<' && q[0] == '<'
    ensures Strip(a + m + q) == Strip(a) + Strip(m) + Strip(q)
    ensures Clean(a, Closes(m + q))
  {
    hide *;
    Regroup(a, m, q);
    SplitBehind(a, m + q);
    IndexBehind(Strip(a), Strip(m + q), |m|);
    SplitBefore(m, q);
    Regroup(Strip(a), Strip(m), Strip(q));
  }

  lemma Regroup(x: string, y: string, z: string)
    ensures x + y + z == x + (y + z)
  {
  }

  lemma IndexBehind(x: string, y: string, i: nat)
    requires i < |y|
    ensures (x + y)[|x| + i] == y[i]
  {
  }

  lemma SplitBehind(a: string, b: string)
    requires a != [] && b != [] && Strip(a + b)[|a| - 1] == '>' && a[|a| - 1] == '>'
    ensures Strip(a + b) == Strip(a) + Strip(b) && Clean(a, Closes(b))
  {
    hide Strip, Clean, Closes;
    SeamIsClean(a, b);
    StripAcross(a, b);
  }

  lemma SplitBefore(a: string, b: string)
    requires b != [] && Strip(a + b)[|a|] == '<' && b[0] == '<'
    ensures Strip(a + b) == Strip(a) + Strip(b)
  {
    hide Strip, Clean, Closes;
    SeamIsClean(a, b);
    StripAcross(a, b);
  }

  lemma CleanBefore(a: string, m: string, q: string, w: string)
    requires q != [] && q[0] == '<' && '>' !in w && Clean(a, Closes(m + q))
    ensures Clean(a, Closes(w + q))
  {
    hide Clean, Closes;
    CloseBehind(m, q);
    CloseBehind(w, q);
    NoClose(w);
    if !Closes(w + q) && Closes(m + q) { CleanWeaken(a); }
  }

  lemma CloseBehind(m: string, q: string)
    requires q != [] && q[0] == '<'
    ensures Closes(m + q) <==> Closes(m) || Closes(q)
  {
    FindAcross(m, q, "-->");
  }

  // ---------------------------------------------------------------------------
  // The walk
  // ---------------------------------------------------------------------------

  /** The text in [start, end) is replaced by `width` characters. */
  datatype Change = Change(start: nat, end: nat, width: nat)

  /** An offset behind the change. */
  function Behind(c: Change, x: nat): nat
    requires x >= c.end
  {
    x - c.end + c.start + c.width
  }

  function Moved(c: Change, r: Range): Range {
    Range(if r.start == c.start || r.start < c.end then r.start else Behind(c, r.start),
          if r.end < c.end then r.end else Behind(c, r.end))
  }

  function MovedAll(c: Change, r: Option<seq<Range>>): Option<seq<Range>> {
    if r.None? then None else Some(seq(|r.value|, i requires 0 <= i < |r.value| => Moved(c, r.value[i])))
  }

  lemma MovedOpened(c: Change, start: nat, end: Option<nat>, more: Option<seq<Range>>, start': nat, end': Option<nat>)
    requires end.Some? <==> end'.Some?
    requires end.Some? ==> Moved(c, Range(start, start + end.value)) == Range(start', start' + end'.value)
    ensures MovedAll(c, Opened(start, end, more)) == Opened(start', end', MovedAll(c, more))
  {
    hide Moved;
    if end.Some? && more.Some? {
      var all := [Range(start, start + end.value)] + more.value;
      var left, right := MovedAll(c, Some(all)).value, [Range(start', start' + end'.value)] + MovedAll(c, more).value;
      assert forall i :: 0 <= i < |all| ==> left[i] == right[i];
      assert left == right;
    }
  }

  lemma {:induction false} ScanRebase(q: string, base: nat, c: Change, stack: seq<string>, path: seq<string>)
    requires base >= c.end >= c.start
    ensures Scan(q, Behind(c, base), stack, path) == MovedAll(c, Scan(q, base, stack, path))
    decreases |q|
  {
    hide Scan, TagHead, MovedAll, Opened, AfterTag, OpensAt, CloseTag, Find;
    if q == [] {
      MovedNothing(c, base, stack, path);
    } else {
      ScanUnfold(q, base, stack, path);
      ScanUnfold(q, Behind(c, base), stack, path);
      match TagHead(q) {
        case None => ScanRebase(q[1..], base + 1, c, stack, path);
        case Some(tag) =>
          var rest, next := q[tag.length..], base + tag.length;
          var inner := AfterTag(stack, tag);
          ScanRebase(rest, next, c, inner, path);
          var end := Find(rest, CloseTag(tag.name));
          MovedOpened(c, next, end, Scan(rest, next, inner, path), Behind(c, next), end);
      }
    }
  }

  lemma MovedNothing(c: Change, base: nat, stack: seq<string>, path: seq<string>)
    requires base >= c.end
    ensures Scan([], Behind(c, base), stack, path) == MovedAll(c, Scan([], base, stack, path))
  {
    assert MovedAll(c, Some([])).value == [];
  }

  lemma NoTagHere(s: string)
    requires s != [] && s[0] != '<'
    ensures TagHead(s).None?
  {
  }

  lemma ScanPast(s: string, base: nat, stack: seq<string>, path: seq<string>)
    requires s != [] && s[0] != '<'
    ensures Scan(s, base, stack, path) == Scan(s[1..], base + 1, stack, path)
  {
    NoTagHere(s);
    hide TagHead;
  }

  lemma {:induction false} ScanSkip(x: string, q: string, base: nat, stack: seq<string>, path: seq<string>)
    requires '<' !in x
    ensures Scan(x + q, base, stack, path) == Scan(q, base + |x|, stack, path)
  {
    hide Scan;
    if x == [] {
      assert x + q == q;
    } else {
      assert (x + q)[1..] == x[1..] + q && (x + q)[0] == x[0] && x[0] in x;
      ScanPast(x + q, base, stack, path);
      ScanSkip(x[1..], q, base + 1, stack, path);
    }
  }

  lemma CloseTagIsCloser(name: string)
    requires forall c <- name :: NameChar(c)
    ensures Closer(CloseTag(name)) && CloseTag(name)[0] == '<'
  {
    var pat := CloseTag(name);
    forall i | 0 <= i < |pat| - 1 ensures pat[i] != '>' {
      if i >= 2 { assert pat[i] == name[i - 2] && NameChar(name[i - 2]); }
    }
  }

  /** A close tag is found before the change, or behind it and moved. */
  lemma CloserMoves(c: Change, start: nat, n: nat, inA: Option<nat>, inQ: Option<nat>)
    requires c.start == start + n <= c.end && (inA.Some? ==> inA.value < n)
    ensures var f := if inA.Some? then inA else Plus(inQ, c.end - start);
      var g := if inA.Some? then inA else Plus(inQ, n + c.width);
      && (f.Some? <==> g.Some?)
      && (f.Some? ==> Moved(c, Range(start, start + f.value)) == Range(start, start + g.value))
  {
  }

  lemma FoundInside(a: string, pat: string)
    requires pat != []
    ensures Find(a, pat).Some? ==> Find(a, pat).value < |a|
  {
  }

  lemma FindAround(a: string, x: string, q: string, pat: string)
    requires EndsTag(a) && Closer(pat) && pat[0] == '<' && '<' !in x
    ensures Find(a + x + q, pat) == if Find(a, pat).Some? then Find(a, pat) else Plus(Find(q, pat), |a| + |x|)
  {
    hide Find;
    assert a + x + q == a + (x + q);
    FindAcross(a, x + q, pat);
    FindSkip(x, q, pat);
  }

  lemma OpenedMoves(
    a: string, m: string, q: string, w: string, c: Change, start: nat, name: string, more: Option<seq<Range>>)
    requires EndsTag(a) && '<' !in m && '<' !in w && forall x <- name :: NameChar(x)
    requires c == Change(start + |a|, start + |a| + |m|, |w|)
    ensures MovedAll(c, Opened(start, Find(a + m + q, CloseTag(name)), more))
         == Opened(start, Find(a + w + q, CloseTag(name)), MovedAll(c, more))
  {
    CloseTagIsCloser(name);
    var pat := CloseTag(name);
    hide *;
    FindAround(a, m, q, pat);
    FindAround(a, w, q, pat);
    FoundInside(a, pat);
    CloserMoves(c, start, |a|, Find(a, pat), Find(q, pat));
    MovedOpened(c, start, Find(a + m + q, pat), more, start, Find(a + w + q, pat));
  }

  lemma {:induction false} ScanMoves(
    a: string, m: string, q: string, w: string, base: nat, stack: seq<string>, path: seq<string>)
    requires EndsTag(a) && '<' !in m && '<' !in w
    ensures Scan(a + w + q, base, stack, path)
         == MovedAll(Change(base + |a|, base + |a| + |m|, |w|), Scan(a + m + q, base, stack, path))
    decreases |a|
  {
    hide Scan, TagHead, MovedAll, Opened, AfterTag, OpensAt, CloseTag, Find;
    var c := Change(base + |a|, base + |a| + |m|, |w|);
    if a == [] {
      assert a + m + q == m + q && a + w + q == w + q;
      ScanSkip(m, q, base, stack, path);
      ScanSkip(w, q, base, stack, path);
      ScanRebase(q, base + |m|, c, stack, path);
    } else {
      assert a + m + q == a + (m + q) && a + w + q == a + (w + q);
      TagHeadPrefix(a, m + q);
      TagHeadPrefix(a, w + q);
      ScanUnfold(a + m + q, base, stack, path);
      ScanUnfold(a + w + q, base, stack, path);
      var k := if TagHead(a).Some? then TagHead(a).value.length else 1;
      assert (a + m + q)[k..] == a[k..] + m + q && (a + w + q)[k..] == a[k..] + w + q;
      if TagHead(a).None? {
        ScanMoves(a[1..], m, q, w, base + 1, stack, path);
      } else {
        var tag := TagHead(a).value;
        var inner := AfterTag(stack, tag);
        ScanMoves(a[k..], m, q, w, base + k, inner, path);
        OpenedMoves(a[k..], m, q, w, c, base + k, tag.name, Scan(a[k..] + m + q, base + k, inner, path));
      }
    }
  }

  // ---------------------------------------------------------------------------
  // Results
  // ---------------------------------------------------------------------------

  /** An element's text lies between the end of its tag and the start of a close tag. */
  ghost predicate Inside(r: Range, text: string, at: nat) {
    at < r.start <= r.end < |text| && text[r.start - 1] == '>' && text[r.end] == '<'
  }

  lemma {:induction false} RangeBounds(
    text: string, at: nat, stack: seq<string>, path: seq<string>, i: nat)
    requires at <= |text| && Scan(text[at..], at, stack, path).Some?
    requires i < |Scan(text[at..], at, stack, path).value|
    ensures Inside(Scan(text[at..], at, stack, path).value[i], text, at)
    decreases |text| - at
  {
    hide Scan, TagHead, AfterTag, OpensAt, Find, CloseTag;
    var s := text[at..];
    if s == [] {
      ScanEmpty(at, stack, path);
    } else {
      ScanUnfold(s, at, stack, path);
      match TagHead(s) {
        case None =>
          assert s[1..] == text[at + 1..];
          RangeBounds(text, at + 1, stack, path, i);
        case Some(tag) =>
          var next := at + tag.length;
          assert s[tag.length..] == text[next..] && s[tag.length - 1] == text[next - 1];
          TaggedBounds(text, at, stack, path, i, tag);
      }
    }
  }

  lemma {:induction false} TaggedBounds(
    text: string, at: nat, stack: seq<string>, path: seq<string>, i: nat, tag: Tag)
    requires at < |text| && TagHead(text[at..]) == Some(tag) && at + tag.length <= |text|
    requires Scan(text[at..], at, stack, path).Some? && i < |Scan(text[at..], at, stack, path).value|
    requires text[at..][tag.length..] == text[at + tag.length..] && text[at + tag.length - 1] == '>'
    ensures Inside(Scan(text[at..], at, stack, path).value[i], text, at)
    decreases |text| - at, 0
  {
    hide Scan, TagHead, AfterTag, OpensAt, Find, CloseTag;
    ScanUnfold(text[at..], at, stack, path);
    var next, inner := at + tag.length, AfterTag(stack, tag);
    if !OpensAt(stack, tag, path) {
      RangeBounds(text, next, inner, path, i);
    } else if i > 0 {
      RangeBounds(text, next, inner, path, i - 1);
    } else {
      FoundClose(text, next, tag.name);
    }
  }

  lemma FoundClose(text: string, next: nat, name: string)
    requires next <= |text| && Find(text[next..], CloseTag(name)).Some?
    ensures var k := Find(text[next..], CloseTag(name)).value;
      next + k < |text| && text[next + k] == '<'
  {
    var k := Find(text[next..], CloseTag(name)).value;
    assert text[next..][k..][0] == text[next + k];
  }

  /** The element's own text, comments aside, opens no tag. */
  predicate PlainElement(content: string, r: Range) {
    r.start <= r.end <= |content| && '<' !in Strip(content)[r.start..r.end]
  }

  /** A value that can stand in element text. */
  predicate ElementText(w: string) { '<' !in w && '>' !in w }

  /** Replacing one element's text moves what every path finds, and changes nothing else about it. */
  lemma SpliceMovesEveryPath(content: string, own: seq<string>, i: nat, w: string, path: seq<string>)
    requires Ranges(content, own).Some? && i < |Ranges(content, own).value| && ElementText(w)
    requires PlainElement(content, Ranges(content, own).value[i])
    ensures var r := Ranges(content, own).value[i];
      && Ranges(Splice(content, r.start, r.end, w), path)
      == MovedAll(Change(r.start, r.end, |w|), Ranges(content, path))
      && Strip(Splice(content, r.start, r.end, w)) == Splice(Strip(content), r.start, r.end, w)
  {
    hide Scan, Strip, MovedAll;
    var text := Strip(content);
    var r := Ranges(content, own).value[i];
    assert text[0..] == text;
    RangeBounds(text, 0, [], own, i);
    var a, m, q := content[..r.start], content[r.start..r.end], content[r.end..];
    assert content == a + m + q;
    BracketKept(content, r.start - 1);
    BracketKept(content, r.end);
    StripSplice(a, m, q, w);
    assert Strip(a) == text[..r.start] && Strip(m) == text[r.start..r.end] && Strip(q) == text[r.end..];
    ScanMoves(Strip(a), Strip(m), Strip(q), w, 0, [], path);
  }

  lemma {:induction false} BracketKept(s: string, i: nat)
    requires i < |s|
    ensures Strip(s)[i] != ' ' ==> Strip(s)[i] == s[i]
    decreases |s|
  {
    hide CommentLength;
    var k := if CommentLength(s).Some? then CommentLength(s).value else 1;
    if i >= k { BracketKept(s[k..], i - k); }
  }

  /** Ranges lie inside the content. */
  lemma RangesFit(content: string, path: seq<string>, i: nat)
    requires Ranges(content, path).Some? && i < |Ranges(content, path).value|
    ensures var r := Ranges(content, path).value[i]; r.start <= r.end < |content|
  {
    var text := Strip(content);
    assert text[0..] == text;
    RangeBounds(text, 0, [], path, i);
  }

  /** Whatever lies wholly before or behind the change keeps its text. */
  lemma MovedText(content: string, start: nat, end: nat, w: string, r: Range)
    requires start <= end <= |content| && r.start <= r.end <= |content|
    requires r.end < start || r.start > end
    ensures var m := Moved(Change(start, end, |w|), r);
      && m.start <= m.end <= |Splice(content, start, end, w)|
      && Splice(content, start, end, w)[m.start..m.end] == content[r.start..r.end]
  {
    var m := Moved(Change(start, end, |w|), r);
    var next := Splice(content, start, end, w);
    assert forall k :: r.start <= k < r.end ==> next[k - r.start + m.start] == content[k];
  }
}
