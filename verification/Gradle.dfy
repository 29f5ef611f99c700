/** Reading the root version of a Gradle Kotlin build script, with the offsets to splice at. */
module Gradle {
  import opened Options
  import opened Text

  /** The Unicode part of `\w`; quotes, slashes and brackets are never word characters. */
  type Words = char -> bool

  predicate SaneWords(word: Words) {
    && !word('"') && !word('\'') && !word('/')
    && !word('{') && !word('}') && !word('(') && !word(')') && !word('[') && !word(']')
  }

  predicate IsWordStart(c: char) { 'a' <= c <= 'z' || 'A' <= c <= 'Z' || c == '_' || c == '$' }

  predicate IsWordChar(c: char, word: Words) { IsWordStart(c) || '0' <= c <= '9' || word(c) }

  // ---------------------------------------------------------------------------
  // The scanner's pieces, on the text still ahead
  // ---------------------------------------------------------------------------

  predicate LineComment(s: string) { |s| >= 2 && s[0] == '/' && s[1] == '/' }
  predicate BlockOpen(s: string) { |s| >= 2 && s[0] == '/' && s[1] == '*' }
  predicate BlockClose(s: string) { |s| >= 2 && s[0] == '*' && s[1] == '/' }
  predicate TripleQuote(s: string) { |s| >= 3 && s[0] == '"' && s[1] == '"' && s[2] == '"' }

  /** Up to and including the next newline, or everything. */
  function LineLength(s: string): (k: nat)
    ensures k <= |s| && (s != [] ==> k > 0)
  {
    if s == [] then 0 else if s[0] == '\n' then 1 else 1 + LineLength(s[1..])
  }

  /** The rest of a block comment inside `n` levels. */
  function BlockLength(s: string, n: nat): (k: nat)
    ensures k <= |s|
    decreases |s|
  {
    if s == [] || n == 0 then 0
    else if BlockOpen(s) then 2 + BlockLength(s[2..], n + 1)
    else if BlockClose(s) then 2 + BlockLength(s[2..], n - 1)
    else 1 + BlockLength(s[1..], n)
  }

  /** Leading whitespace and comments. */
  function SkipLength(s: string): (k: nat)
    ensures k <= |s|
    decreases |s|
  {
    if s == [] then 0
    else if PySpace(s[0]) then 1 + SkipLength(s[1..])
    else if LineComment(s) then var k := LineLength(s); k + SkipLength(s[k..])
    else if BlockOpen(s) then var k := 2 + BlockLength(s[2..], 1); k + SkipLength(s[k..])
    else 0
  }

  /** The characters before the closing delimiter, `s` starting after the opening one; None if it never closes. */
  function StringLength(s: string, delimiter: string): (r: Option<nat>)
    ensures r.Some? ==> r.value + |delimiter| <= |s| && delimiter <= s[r.value..]
    decreases |s|
  {
    if s == [] then None
    else if delimiter <= s then Some(0)
    else
      var k := if |delimiter| == 1 && s[0] == '\\' then 2 else 1;
      if k > |s| then None
      else
        var rest :- StringLength(s[k..], delimiter);
        assert s[k..][rest..] == s[k + rest..];
        Some(k + rest)
  }

  function Delimiter(s: string): (d: string)
    requires s != []
    ensures 0 < |d| <= |s|
  {
    if TripleQuote(s) then "\"\"\"" else [s[0]]
  }

  /** A whole string literal, to the end of the text if it never closes. */
  function LiteralLength(s: string): (k: nat)
    requires s != []
    ensures 0 < k <= |s|
  {
    var d := Delimiter(s);
    match StringLength(s[|d|..], d)
    case None => |s|
    case Some(n) => |d| + n + |d|
  }

  function WordTail(s: string, word: Words): (k: nat)
    ensures k <= |s| && (k < |s| ==> !IsWordChar(s[k], word)) && forall i :: 0 <= i < k ==> IsWordChar(s[i], word)
  {
    if s == [] || !IsWordChar(s[0], word) then 0 else 1 + WordTail(s[1..], word)
  }

  /** The identifier at the front, or nothing. */
  function WordLength(s: string, word: Words): (k: nat)
    ensures k <= |s|
  {
    if s == [] || !IsWordStart(s[0]) then 0 else WordTail(s, word)
  }

  // ---------------------------------------------------------------------------
  // The parser
  // ---------------------------------------------------------------------------

  /** The value lies in [start, end). The other cases are the three errors the parser raises. */
  datatype Result = Found(start: nat, end: nat) | NotQuoted | Unterminated | Missing

  function Shift(r: Result, k: nat): Result {
    if r.Found? then Found(r.start + k, r.end + k) else r
  }

  predicate MayAssign(previous: string) {
    previous != "." && previous != "val" && previous != "var" && previous != "`"
  }

  /** What follows the equals sign: a double-quoted literal, whose inside is the version. */
  function ReadValue(s: string): Result {
    var q := SkipLength(s);
    var t := s[q..];
    if t == [] || t[0] != '"' then NotQuoted
    else
      var d := Delimiter(t);
      match StringLength(t[|d|..], d)
      case None => Unterminated
      case Some(n) => Found(q + |d|, q + |d| + n)
  }

  /** Offset just past the `=` of an assignment after the word; None if there is no assignment. */
  function AssignLength(s: string): (r: Option<nat>)
    ensures r.Some? ==> 0 < r.value <= |s| && s[r.value - 1] == '='
  {
    var e := SkipLength(s);
    if e < |s| && s[e] == '=' && !(e + 1 < |s| && s[e + 1] == '=') then Some(e + 1) else None
  }

  const VERSION := "version"

  function Deepen(depth: nat, c: char): nat {
    if c in "{([" then depth + 1
    else if c in "})]" then if depth == 0 then 0 else depth - 1
    else depth
  }

  /** The end of the root `version =`, if the word of length `n` in front of `t` begins one. */
  function Assignment(t: string, n: nat, depth: nat, previous: string): (r: Option<nat>)
    requires n <= |t|
    ensures r.Some? ==> n < r.value <= |t|
  {
    if t[..n] == VERSION && depth == 0 && MayAssign(previous) then
      var e :- AssignLength(t[n..]);
      Some(n + e)
    else None
  }

  function FindVersion(s: string, depth: nat, previous: string, word: Words): Result
    decreases |s|
  {
    var k := SkipLength(s);
    var t := s[k..];
    if t == [] then Missing
    else if t[0] == '"' || t[0] == '\'' then
      var n := LiteralLength(t);
      Shift(FindVersion(t[n..], depth, "string", word), k + n)
    else
      var n := WordLength(t, word);
      var assigns := Assignment(t, n, depth, previous);
      if assigns.Some? then Shift(ReadValue(t[assigns.value..]), k + assigns.value)
      else
        var size := if n == 0 then 1 else n;
        Shift(FindVersion(t[size..], Deepen(depth, t[0]), t[..size], word), k + size)
  }

  function ParseVersion(content: string, word: Words): Result { FindVersion(content, 0, "", word) }

  // ---------------------------------------------------------------------------
  // As the script runs it
  // ---------------------------------------------------------------------------

  lemma Drop(s: string, i: nat, k: nat)
    requires i + k <= |s|
    ensures s[i..][k..] == s[i + k..]
  {
  }

  predicate StartsAt(content: string, prefix: string, i: nat)
    requires i <= |content|
  {
    prefix <= content[i..]
  }

  method SkipBlock(content: string, start: nat) returns (index: nat)
    requires start <= |content|
    ensures index == start + BlockLength(content[start..], 1) <= |content|
  {
    index := start;
    var comments := 1;
    while index < |content| && comments > 0
      invariant start <= index <= |content| && comments >= 0
      invariant start + BlockLength(content[start..], 1) == index + BlockLength(content[index..], comments)
      decreases |content| - index
    {
      if BlockOpen(content[index..]) {
        Drop(content, index, 2);
        comments, index := comments + 1, index + 2;
      } else if BlockClose(content[index..]) {
        Drop(content, index, 2);
        comments, index := comments - 1, index + 2;
      } else {
        Drop(content, index, 1);
        index := index + 1;
      }
    }
  }

  method SkipLine(content: string, start: nat) returns (index: nat)
    requires start < |content|
    ensures index == start + LineLength(content[start..]) <= |content|
    ensures index > start
  {
    index := start;
    while index < |content| && content[index] != '\n'
      invariant start <= index <= |content|
      invariant start + LineLength(content[start..]) == index + LineLength(content[index..])
    {
      Drop(content, index, 1);
      index := index + 1;
    }
    if index < |content| { index := index + 1; }
  }

  method SkipSpaceAndComments(content: string, start: nat) returns (index: nat)
    requires start <= |content|
    ensures index == start + SkipLength(content[start..]) <= |content|
  {
    hide LineLength, BlockLength, SkipLength, PySpace;
    index := start;
    while index < |content|
      invariant start <= index <= |content|
      invariant start + SkipLength(content[start..]) == index + SkipLength(content[index..])
      decreases |content| - index
    {
      ghost var i := index;
      SkipUnfold(content[i..]);
      if PySpace(content[index]) {
        index := index + 1;
      } else if LineComment(content[index..]) {
        index := SkipLine(content, index);
      } else if BlockOpen(content[index..]) {
        Drop(content, i, 2);
        index := SkipBlock(content, index + 2);
      } else {
        return;
      }
      Drop(content, i, index - i);
    }
    assert SkipLength(content[index..]) == 0 by { SkipNothing(content[index..]); }
  }

  lemma SkipNothing(s: string)
    requires s == []
    ensures SkipLength(s) == 0
  {
  }

  /** Offset of the closing delimiter; None for the source's -1. */
  method StringEnd(content: string, start: nat, delimiter: string) returns (r: Option<nat>)
    requires start + |delimiter| <= |content| && delimiter != ""
    ensures var n := StringLength(content[start + |delimiter|..], delimiter);
      r == if n.None? then None else Some(start + |delimiter| + n.value)
  {
    hide StringLength;
    var from := start + |delimiter|;
    var index := from;
    while index < |content|
      invariant from <= index
      invariant index <= |content| ==>
        var whole, rest := StringLength(content[from..], delimiter), StringLength(content[index..], delimiter);
        whole.Some? == rest.Some? && (rest.Some? ==> from + whole.value == index + rest.value)
      invariant index > |content| ==> StringLength(content[from..], delimiter).None?
      decreases |content| - index
    {
      StringUnfold(content[index..], delimiter);
      if StartsAt(content, delimiter, index) { return Some(index); }
      var step := if |delimiter| == 1 && content[index] == '\\' then 2 else 1;
      if index + step <= |content| { Drop(content, index, step); }
      index := index + step;
    }
    if index == |content| { NoString(content[index..], delimiter); }
    return None;
  }

  lemma NoString(s: string, delimiter: string)
    requires s == []
    ensures StringLength(s, delimiter).None?
  {
  }

  /** The parser's loop over `index`, `depth` and `previous`. */
  method ParseGradleVersion(content: string, word: Words) returns (r: Result)
    ensures r == ParseVersion(content, word)
  {
    hide SkipLength, StringLength, FindVersion, WordLength, LiteralLength, ReadValue, Assignment, Shift, Deepen;
    var index, depth, previous := 0, 0, "";
    assert content[0..] == content;
    ShiftZero(ParseVersion(content, word));
    while true
      invariant index <= |content|
      invariant ParseVersion(content, word) == Shift(FindVersion(content[index..], depth, previous, word), index)
      decreases |content| - index, 0
    {
      ghost var i := index;
      ghost var s := content[i..];
      FindUnfold(s, depth, previous, word);
      index := SkipSpaceAndComments(content, index);
      Drop(content, i, index - i);
      if index == |content| {
        ShiftError(Missing, i);
        return Missing;
      }
      ghost var k := index - i;
      var c := content[index];
      if c == '"' || c == '\'' {
        var n := LiteralLength(content[index..]);
        Drop(content, index, n);
        ShiftTwice(FindVersion(content[index + n..], depth, "string", word), k + n, i);
        index, previous := index + n, "string";
        continue;
      }
      var n := WordLength(content[index..], word);
      var assigns := Assignment(content[index..], n, depth, previous);
      if assigns.Some? {
        Drop(content, index, assigns.value);
        var value := ReadValue(content[index + assigns.value..]);
        ShiftTwice(value, k + assigns.value, i);
        return Shift(value, index + assigns.value);
      }
      var size := if n == 0 then 1 else n;
      Drop(content, index, size);
      ShiftTwice(FindVersion(content[index + size..], Deepen(depth, c), content[index..][..size], word), k + size, i);
      depth, previous, index := Deepen(depth, c), content[index..][..size], index + size;
    }
  }

  lemma ShiftError(r: Result, k: nat)
    requires !r.Found?
    ensures Shift(r, k) == r
  {
  }

  lemma ShiftZero(r: Result)
    ensures Shift(r, 0) == r
  {
  }

  lemma ShiftTwice(r: Result, j: nat, k: nat)
    ensures Shift(Shift(r, j), k) == Shift(r, j + k)
  {
  }

  lemma FindUnfold(s: string, depth: nat, previous: string, word: Words)
    ensures var k := SkipLength(s); var t := s[k..];
      FindVersion(s, depth, previous, word) ==
        if t == [] then Missing
        else if t[0] == '"' || t[0] == '\'' then
          Shift(FindVersion(t[LiteralLength(t)..], depth, "string", word), k + LiteralLength(t))
        else
          var n := WordLength(t, word);
          var assigns := Assignment(t, n, depth, previous);
          if assigns.Some? then Shift(ReadValue(t[assigns.value..]), k + assigns.value)
          else
            var size := if n == 0 then 1 else n;
            Shift(FindVersion(t[size..], Deepen(depth, t[0]), t[..size], word), k + size)
  {
    hide SkipLength, LiteralLength, WordLength, ReadValue, Assignment, Deepen, Shift;
  }

  lemma SkipUnfold(s: string)
    requires s != []
    ensures SkipLength(s) ==
      if PySpace(s[0]) then 1 + SkipLength(s[1..])
      else if LineComment(s) then LineLength(s) + SkipLength(s[LineLength(s)..])
      else if BlockOpen(s) then 2 + BlockLength(s[2..], 1) + SkipLength(s[2 + BlockLength(s[2..], 1)..])
      else 0
  {
    hide LineLength, BlockLength, PySpace, LineComment, BlockOpen;
  }

  lemma StringUnfold(s: string, delimiter: string)
    requires s != []
    ensures StringLength(s, delimiter) ==
      if delimiter <= s then Some(0)
      else
        var k := if |delimiter| == 1 && s[0] == '\\' then 2 else 1;
        if k > |s| then None
        else match StringLength(s[k..], delimiter)
             case None => None
             case Some(n) => Some(k + n)
  {
    if !(delimiter <= s) {
      var k := if |delimiter| == 1 && s[0] == '\\' then 2 else 1;
      if k <= |s| { StringStep(s, delimiter, k); }
    }
  }

  lemma StringStep(s: string, delimiter: string, k: nat)
    requires s != [] && !(delimiter <= s) && k <= |s|
    requires k == if |delimiter| == 1 && s[0] == '\\' then 2 else 1
    ensures StringLength(s, delimiter) ==
      match StringLength(s[k..], delimiter) case None => None case Some(n) => Some(k + n)
  {
  }
}
