/** Finding the text of elements in a Maven project file by their exact path. */
module Pom {
  import opened Options
  import opened Text

  // ---------------------------------------------------------------------------
  // Comments
  // ---------------------------------------------------------------------------

  /** Characters before the first `pat`. */
  function Find(s: string, pat: string): (r: Option<nat>)
    ensures r.Some? ==> r.value + |pat| <= |s| && pat <= s[r.value..]
    decreases |s|
  {
    if pat <= s then Some(0)
    else if s == [] then None
    else
      match Find(s[1..], pat)
      case None => None
      case Some(k) => Some(k + 1)
  }

  /** Nothing earlier matches; if nothing is found, nothing matches. */
  lemma {:induction false} FindIsFirst(s: string, pat: string, j: nat)
    requires j <= |s| && pat <= s[j..]
    ensures Find(s, pat).Some? && Find(s, pat).value <= j
    decreases |s|
  {
    if j == 0 {
      assert s[0..] == s;
    } else {
      assert s[j..] == s[1..][j - 1..];
      FindIsFirst(s[1..], pat, j - 1);
    }
  }

  /** The length of the comment `s` starts with. */
  function CommentLength(s: string): (r: Option<nat>)
    ensures r.Some? ==> 7 <= r.value <= |s|
  {
    if "<!--" <= s then
      var k :- Find(s[4..], "-->");
      Some(4 + k + 3)
    else None
  }

  function Spaces(n: nat): string { seq(n, i => ' ') }

  /** Comments blanked out, so that offsets stay valid. */
  function Strip(s: string): (r: string)
    ensures |r| == |s|
    decreases |s|
  {
    if s == [] then []
    else
      match CommentLength(s)
      case Some(k) => Spaces(k) + Strip(s[k..])
      case None => [s[0]] + Strip(s[1..])
  }

  // ---------------------------------------------------------------------------
  // Tags
  // ---------------------------------------------------------------------------

  predicate NameStart(c: char) { 'a' <= c <= 'z' || 'A' <= c <= 'Z' || c == '_' }

  predicate NameChar(c: char) { NameStart(c) || '0' <= c <= '9' || c == '.' || c == ':' || c == '-' }

  function NameTail(s: string): (k: nat)
    ensures k <= |s| && (k < |s| ==> !NameChar(s[k])) && forall i :: 0 <= i < k ==> NameChar(s[i])
  {
    if s == [] || !NameChar(s[0]) then 0 else 1 + NameTail(s[1..])
  }

  /** Characters before the first `>`; the whole length if there is none. */
  function ToBracket(s: string): (k: nat)
    ensures k <= |s| && (k < |s| ==> s[k] == '>') && forall i :: 0 <= i < k ==> s[i] != '>'
  {
    if s == [] || s[0] == '>' then 0 else 1 + ToBracket(s[1..])
  }

  datatype Tag = Tag(closing: bool, name: string, selfClosing: bool, length: nat)

  /** After the name: nothing or attributes, perhaps a slash, then the bracket. Slash and length. */
  function TagTail(s: string): (r: Option<(bool, nat)>)
    ensures r.Some? ==> 0 < r.value.1 <= |s| && s[r.value.1 - 1] == '>'
  {
    if s == [] then None
    else if JsSpace(s[0]) then
      var g := ToBracket(s);
      if g == |s| then None else
        assert !JsSpace('>');
        Some((s[g - 1] == '/', g + 1))
    else if s[0] == '>' then Some((false, 1))
    else if s[0] == '/' && |s| > 1 && s[1] == '>' then Some((true, 2))
    else None
  }

  /** The tag whose name `s` starts with, `skipped` characters of it being read already. */
  function TagNamed(s: string, closing: bool, skipped: nat): (r: Option<Tag>)
    ensures r.Some? ==> skipped < r.value.length <= skipped + |s| && s[r.value.length - skipped - 1] == '>'
    ensures r.Some? ==> forall c <- r.value.name :: NameChar(c)
  {
    if s == [] || !NameStart(s[0]) then None
    else
      var k := NameTail(s);
      var tail :- TagTail(s[k..]);
      Some(Tag(closing, s[..k], tail.0, skipped + k + tail.1))
  }

  /** The tag `s` starts with. */
  function TagHead(s: string): (r: Option<Tag>)
    ensures r.Some? ==> |s| > 0 && s[0] == '<' && 0 < r.value.length <= |s| && s[r.value.length - 1] == '>'
    ensures r.Some? ==> forall c <- r.value.name :: NameChar(c)
  {
    if s == [] || s[0] != '<' then None
    else if |s| > 1 && s[1] == '/' then TagNamed(s[2..], true, 2)
    else TagNamed(s[1..], false, 1)
  }

  // ---------------------------------------------------------------------------
  // The walk
  // ---------------------------------------------------------------------------

  /** The element's text lies in [start, end). */
  datatype Range = Range(start: nat, end: nat)

  function Pop(stack: seq<string>): seq<string> { if stack == [] then [] else stack[..|stack| - 1] }

  /** The elements open behind a tag. */
  function AfterTag(stack: seq<string>, tag: Tag): seq<string> {
    if tag.closing then Pop(stack) else if tag.selfClosing then stack else stack + [tag.name]
  }

  /** The tag opens an element at the path. */
  predicate OpensAt(stack: seq<string>, tag: Tag, path: seq<string>) {
    !tag.closing && !tag.selfClosing && stack + [tag.name] == path
  }

  function CloseTag(name: string): string { "</" + name + ">" }

  /** One more element, unless it or a later one is never closed. */
  function Opened(start: nat, end: Option<nat>, more: Option<seq<Range>>): Option<seq<Range>> {
    if end.None? || more.None? then None else Some([Range(start, start + end.value)] + more.value)
  }

  /** The elements at `path` opened in `s`, which starts at offset `base`; None when one is never closed. */
  function Scan(s: string, base: nat, stack: seq<string>, path: seq<string>): (r: Option<seq<Range>>)
    decreases |s|
  {
    if s == [] then Some([])
    else
      match TagHead(s)
      case None => Scan(s[1..], base + 1, stack, path)
      case Some(tag) =>
        var rest, next := s[tag.length..], base + tag.length;
        var more := Scan(rest, next, AfterTag(stack, tag), path);
        if OpensAt(stack, tag, path) then Opened(next, Find(rest, CloseTag(tag.name)), more) else more
  }

  function Ranges(content: string, path: seq<string>): Option<seq<Range>> {
    Scan(Strip(content), 0, [], path)
  }

  lemma ScanUnfold(s: string, base: nat, stack: seq<string>, path: seq<string>)
    requires s != []
    ensures TagHead(s).None? ==> Scan(s, base, stack, path) == Scan(s[1..], base + 1, stack, path)
    ensures TagHead(s).Some? ==>
              var tag := TagHead(s).value;
              var rest, next := s[tag.length..], base + tag.length;
              var more := Scan(rest, next, AfterTag(stack, tag), path);
              Scan(s, base, stack, path) ==
              if OpensAt(stack, tag, path) then Opened(next, Find(rest, CloseTag(tag.name)), more) else more
  {
    hide TagHead, Find, CloseTag, Opened, AfterTag, OpensAt;
  }

  /** The loop over tags with its stack; None where an element at the path is never closed. */
  method FindElementRanges(content: string, path: seq<string>) returns (r: Option<seq<Range>>)
    ensures r == Ranges(content, path)
  {
    hide Scan, TagHead, Find, Strip, Pop;
    var text := Strip(content);
    var stack: seq<string> := [];
    var ranges: seq<Range> := [];
    var at := 0;
    assert text[0..] == text;
    JoinedNone(Scan(text, 0, [], path));
    while at < |text|
      invariant at <= |text|
      invariant Joined(ranges, Scan(text[at..], at, stack, path)) == Scan(text, 0, [], path)
    {
      ScanUnfold(text[at..], at, stack, path);
      var tag := TagHead(text[at..]);
      if tag.None? {
        assert text[at..][1..] == text[at + 1..];
        at := at + 1;
        continue;
      }
      var start := at + tag.value.length;
      assert text[at..][tag.value.length..] == text[start..];
      if tag.value.closing {
        stack := Pop(stack);
      } else if !tag.value.selfClosing {
        stack := stack + [tag.value.name];
        if stack == path {
          var end := Find(text[start..], CloseTag(tag.value.name));
          if end.None? { return None; }
          JoinedStep(ranges, Range(start, start + end.value), Scan(text[start..], start, stack, path));
          ranges := ranges + [Range(start, start + end.value)];
        }
      }
      at := start;
    }
    assert text[at..] == [];
    assert Scan([], at, stack, path) == Some([]) by { ScanEmpty(at, stack, path); }
    assert ranges + [] == ranges;
    return Some(ranges);
  }

  lemma ScanEmpty(base: nat, stack: seq<string>, path: seq<string>)
    ensures Scan([], base, stack, path) == Some([])
  {
  }

  function Joined(ranges: seq<Range>, more: Option<seq<Range>>): Option<seq<Range>> {
    if more.None? then None else Some(ranges + more.value)
  }

  lemma JoinedNone(more: Option<seq<Range>>)
    ensures Joined([], more) == more
  {
    if more.Some? { assert [] + more.value == more.value; }
  }

  lemma JoinedStep(ranges: seq<Range>, r: Range, more: Option<seq<Range>>)
    ensures Joined(ranges + [r], more) == Joined(ranges, if more.None? then None else Some([r] + more.value))
  {
    if more.Some? { assert (ranges + [r]) + more.value == ranges + ([r] + more.value); }
  }
}
