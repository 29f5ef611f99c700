/**
  The flat token stream of a protobuf message: one token per tag, a group being a
  start token and an end token. Two readers produce it: the guard's masking one and
  the walkers' width-checked one.
 */
module Tokens {
  import opened Options
  import opened Varint

  /** Loose masks overlong numbers (readVarint); Strict rejects them (varint32, varint64). */
  datatype Mode = Loose | Strict

  /** `payload` is empty unless the token is length-delimited. */
  datatype Token = Token(field: nat, wireType: nat, payload: bytes, size: nat)

  const LEN: nat := 2
  const START_GROUP: nat := 3
  const END_GROUP: nat := 4

  function Number32(mode: Mode, s: bytes): (r: Option<nat>)
    ensures r.Some? ==> VarintSize(s) > 0
  {
    match mode
    case Loose => if VarintSize(s) == 0 then None else Some(Low32(s))
    case Strict => Varint32(s)
  }

  /** The size of a varint-typed value; its number is never looked at. */
  function ValueSize(mode: Mode, s: bytes): (k: nat)
    ensures k > 0 ==> k == VarintSize(s)
  {
    match mode
    case Loose => VarintSize(s)
    case Strict => if Varint64(s).Some? then VarintSize(s) else 0
  }

  /** What follows a tag of the given number. `s` is the input after the tag, `k` the tag's size. */
  function TakeBody(mode: Mode, s: bytes, k: nat, tag: nat): (r: Option<Token>)
    requires k > 0
    ensures r.Some? ==> k <= r.value.size <= k + |s|
    ensures r.Some? ==> |r.value.payload| < r.value.size
    ensures r.Some? ==> r.value.field == tag / 8 && r.value.wireType == tag % 8 && tag / 8 != 0
    ensures r.Some? && r.value.wireType == LEN ==>
              |r.value.payload| + k < r.value.size && |r.value.payload| < TWO_32
    ensures r.Some? && r.value.wireType != LEN ==> r.value.payload == []
  {
    var field, wireType := tag / 8, tag % 8;
    if field == 0 then None
    else if wireType == START_GROUP || wireType == END_GROUP then Some(Token(field, wireType, [], k))
    else if wireType == 0 then
      var j := ValueSize(mode, s);
      if j == 0 then None else Some(Token(field, 0, [], k + j))
    else if wireType == 1 then
      if |s| < 8 then None else Some(Token(field, 1, [], k + 8))
    else if wireType == 5 then
      if |s| < 4 then None else Some(Token(field, 5, [], k + 4))
    else if wireType == LEN then
      var length :- Number32(mode, s);
      var j := VarintSize(s);
      if j + length > |s| then None
      else
        assert length < TWO_32 by { if mode == Strict { Varint32Agrees(s); } }
        Some(Token(field, LEN, s[j..j + length], k + j + length))
    else None
  }

  function TakeToken(mode: Mode, s: bytes): (r: Option<Token>)
    ensures r.Some? ==> 0 < r.value.size <= |s| && |r.value.payload| < r.value.size
    ensures r.Some? ==> r.value.field > 0
    ensures r.Some? && r.value.wireType != LEN ==> r.value.payload == []
  {
    var tag :- Number32(mode, s);
    var k := VarintSize(s);
    TakeBody(mode, s[k..], k, tag)
  }

  function TokensOf(mode: Mode, s: bytes): (r: Option<seq<Token>>)
    ensures r.Some? ==> forall t <- r.value :: t.field > 0 && |t.payload| < |s|
    decreases |s|
  {
    if s == [] then Some([])
    else
      var t :- TakeToken(mode, s);
      var ts :- TokensOf(mode, s[t.size..]);
      Some([t] + ts)
  }

  lemma Suffix(data: bytes, o: nat, k: nat)
    requires o + k <= |data|
    ensures data[o..][k..] == data[o + k..]
  {
  }

  method ReadNumber32(mode: Mode, data: bytes, cursor: Cursor) returns (r: Option<nat>)
    requires cursor.offset <= |data|
    modifies cursor
    ensures r == Number32(mode, data[old(cursor.offset)..])
    ensures r.Some? ==> cursor.offset == old(cursor.offset) + VarintSize(data[old(cursor.offset)..]) <= |data|
  {
    if mode == Loose {
      r := ReadVarint(data, cursor);
    } else {
      r := BoundedVarint(data, cursor, 5, 15);
    }
  }

  method ReadValue(mode: Mode, data: bytes, cursor: Cursor) returns (ok: bool)
    requires cursor.offset <= |data|
    modifies cursor
    ensures ok == (ValueSize(mode, data[old(cursor.offset)..]) > 0)
    ensures ok ==> cursor.offset == old(cursor.offset) + VarintSize(data[old(cursor.offset)..]) <= |data|
  {
    var r;
    if mode == Loose {
      r := ReadVarint(data, cursor);
    } else {
      r := BoundedVarint(data, cursor, 10, 1);
    }
    ok := r.Some?;
  }

  method ReadPayload(mode: Mode, data: bytes, cursor: Cursor) returns (r: Option<bytes>)
    requires cursor.offset <= |data|
    modifies cursor
    ensures var s := data[old(cursor.offset)..]; var j := VarintSize(s); var n := Number32(mode, s);
            if n.None? || j + n.value > |s| then r == None
            else r == Some(s[j..j + n.value]) && cursor.offset == old(cursor.offset) + j + n.value
  {
    hide VarintSize, Low32, Varint32;
    ghost var o := cursor.offset;
    var length := ReadNumber32(mode, data, cursor);
    if length.None? || cursor.offset + length.value > |data| { return None; }
    r := Some(data[cursor.offset..cursor.offset + length.value]);
    assert data[o..][cursor.offset - o..cursor.offset - o + length.value] == r.value;
    cursor.offset := cursor.offset + length.value;
  }

  method ReadBody(mode: Mode, data: bytes, cursor: Cursor, start: nat, tag: nat) returns (r: Option<Token>)
    requires start < cursor.offset <= |data|
    modifies cursor
    ensures r == TakeBody(mode, data[old(cursor.offset)..], old(cursor.offset) - start, tag)
    ensures r.Some? ==> cursor.offset == start + r.value.size <= |data|
  {
    hide VarintSize, Low32, Varint32, Varint64;
    var field, wireType := tag / 8, tag % 8;
    if field == 0 { return None; }
    var payload := [];
    if wireType == 0 {
      var ok := ReadValue(mode, data, cursor);
      if !ok { return None; }
    } else if wireType == 1 {
      cursor.offset := cursor.offset + 8;
    } else if wireType == 5 {
      cursor.offset := cursor.offset + 4;
    } else if wireType == LEN {
      var p := ReadPayload(mode, data, cursor);
      if p.None? { return None; }
      payload := p.value;
    } else if wireType != START_GROUP && wireType != END_GROUP {
      return None;
    }
    if cursor.offset > |data| { return None; }
    r := Some(Token(field, wireType, payload, cursor.offset - start));
  }

  /** The part every wire loop shares: read a tag, then step over what it announces. */
  method ReadToken(mode: Mode, data: bytes, cursor: Cursor) returns (r: Option<Token>)
    requires cursor.offset <= |data|
    modifies cursor
    ensures r == TakeToken(mode, data[old(cursor.offset)..])
    ensures r.Some? ==> cursor.offset == old(cursor.offset) + r.value.size <= |data|
  {
    hide TakeBody, Number32;
    var start := cursor.offset;
    var tag := ReadNumber32(mode, data, cursor);
    if tag.None? { return None; }
    Suffix(data, start, cursor.offset - start);
    r := ReadBody(mode, data, cursor, start, tag.value);
  }

  /** Whatever the strict reader accepts, the masking reader accepts with the same reading. */
  lemma StrictTokenIsLoose(s: bytes)
    requires TakeToken(Strict, s).Some?
    ensures TakeToken(Loose, s) == TakeToken(Strict, s)
  {
    Varint32Agrees(s);
    var k := VarintSize(s);
    if Low32(s) % 8 == LEN {
      Varint32Agrees(s[k..]);
    }
  }

  lemma {:induction false} StrictTokensAreLoose(s: bytes)
    requires TokensOf(Strict, s).Some?
    ensures TokensOf(Loose, s) == TokensOf(Strict, s)
    decreases |s|
  {
    if s != [] {
      StrictTokenIsLoose(s);
      StrictTokensAreLoose(s[TakeToken(Strict, s).value.size..]);
    }
  }

  lemma BodyPrefix(mode: Mode, s: bytes, t: bytes, k: nat, tag: nat)
    requires k > 0
    requires TakeBody(mode, s, k, tag).Some?
    ensures TakeBody(mode, s + t, k, tag) == TakeBody(mode, s, k, tag)
  {
    hide VarintSize, Low32, Varint32, Varint64;
    if tag % 8 == 0 || tag % 8 == LEN {
      VarintPrefix(s, t);
      if tag % 8 == LEN {
        var j, n := VarintSize(s), Number32(mode, s).value;
        assert (s + t)[j..j + n] == s[j..j + n];
      }
    }
  }

  /** A token is read from its own bytes alone. */
  lemma TokenPrefix(mode: Mode, s: bytes, t: bytes)
    requires TakeToken(mode, s).Some?
    ensures TakeToken(mode, s + t) == TakeToken(mode, s)
  {
    hide VarintSize, Low32, Varint32, TakeBody;
    VarintPrefix(s, t);
    var k := VarintSize(s);
    assert (s + t)[k..] == s[k..] + t;
    BodyPrefix(mode, s[k..], t, k, Number32(mode, s).value);
  }

  lemma TokensCons(mode: Mode, s: bytes, t: Token)
    requires TakeToken(mode, s) == Some(t)
    ensures TokensOf(mode, s) == match TokensOf(mode, s[t.size..])
                                 case None => None
                                 case Some(ts) => Some([t] + ts)
  {
  }

  /** Reading is a homomorphism on byte strings that end at a token boundary. */
  lemma {:induction false} TokensConcat(mode: Mode, a: bytes, b: bytes)
    requires TokensOf(mode, a).Some?
    ensures TokensOf(mode, b).None? ==> TokensOf(mode, a + b).None?
    ensures TokensOf(mode, b).Some? ==>
              TokensOf(mode, a + b) == Some(TokensOf(mode, a).value + TokensOf(mode, b).value)
    decreases |a|
  {
    hide TakeToken, TakeBody, VarintSize, Low32, Number32, Bounded;
    if a == [] {
      assert a + b == b;
      if TokensOf(mode, b).Some? {
        assert [] + TokensOf(mode, b).value == TokensOf(mode, b).value;
      }
    } else {
      var t := TakeToken(mode, a).value;
      var a' := a[t.size..];
      TokensConcat(mode, a', b);
      TokenPrefix(mode, a, b);
      assert (a + b)[t.size..] == a' + b;
      TokensCons(mode, a, t);
      TokensCons(mode, a + b, t);
      if TokensOf(mode, b).Some? {
        ConsConcat(t, TokensOf(mode, a').value, TokensOf(mode, b).value);
      }
    }
  }

  lemma ConsConcat<T>(t: T, a: seq<T>, b: seq<T>)
    ensures [t] + (a + b) == ([t] + a) + b
  {
  }

  // ---------------------------------------------------------------------------
  // Group structure
  // ---------------------------------------------------------------------------

  function Nesting(t: Token): int {
    if t.wireType == START_GROUP then 1 else if t.wireType == END_GROUP then -1 else 0
  }

  /** The group depth in front of token `i`, starting from depth `d`. */
  function DepthAt(d: int, ts: seq<Token>, i: nat): int
    requires i <= |ts|
  {
    if i == 0 then d else DepthAt(d, ts, i - 1) + Nesting(ts[i - 1])
  }

  lemma {:induction false} DepthShift(d: int, t: Token, ts: seq<Token>, i: nat)
    requires i <= |ts|
    ensures DepthAt(d, [t] + ts, i + 1) == DepthAt(d + Nesting(t), ts, i)
  {
    if i == 0 {
      assert DepthAt(d, [t] + ts, 1) == DepthAt(d, [t] + ts, 0) + Nesting(t);
    } else {
      DepthShift(d, t, ts, i - 1);
      assert ([t] + ts)[i] == ts[i - 1];
    }
  }

  /** Groups never close more than is open, and everything opened is closed. */
  ghost predicate Balanced(d: int, ts: seq<Token>) {
    && (forall i :: 0 <= i <= |ts| ==> DepthAt(d, ts, i) >= 0)
    && DepthAt(d, ts, |ts|) == 0
  }

  /** Token `i` stands outside every group, and is not itself the end of one. */
  ghost predicate AtTop(d: int, ts: seq<Token>, i: nat)
    requires i < |ts|
  {
    DepthAt(d, ts, i) == 0
  }

  lemma BalancedCons(d: int, t: Token, ts: seq<Token>)
    ensures Balanced(d, [t] + ts) <==> d >= 0 && Balanced(d + Nesting(t), ts)
  {
    var us, e := [t] + ts, d + Nesting(t);
    forall i | 0 <= i <= |ts|
      ensures DepthAt(e, ts, i) == DepthAt(d, us, i + 1)
    {
      DepthShift(d, t, ts, i);
    }
    assert DepthAt(d, us, 0) == d;
    if Balanced(d, us) {
      forall i | 0 <= i <= |ts| ensures DepthAt(e, ts, i) >= 0 {
        assert DepthAt(d, us, i + 1) >= 0;
      }
    }
    if d >= 0 && Balanced(e, ts) {
      forall i | 0 <= i <= |us| ensures DepthAt(d, us, i) >= 0 {
        if i > 0 { assert DepthAt(d, us, i - 1 + 1) == DepthAt(e, ts, i - 1); }
      }
    }
  }

  lemma AtTopCons(d: int, t: Token, ts: seq<Token>, e: int)
    requires e == d + Nesting(t)
    ensures AtTop(d, [t] + ts, 0) <==> d == 0
    ensures forall i :: 0 <= i < |ts| ==> (AtTop(e, ts, i) <==> AtTop(d, [t] + ts, i + 1))
  {
    forall i | 0 <= i < |ts| ensures AtTop(e, ts, i) <==> AtTop(d, [t] + ts, i + 1) {
      DepthShift(d, t, ts, i);
    }
  }

  /** Every group ends with the number it began with. */
  predicate Matched(groups: seq<nat>, ts: seq<Token>)
    decreases |ts|
  {
    if ts == [] then groups == []
    else if ts[0].wireType == START_GROUP then Matched(groups + [ts[0].field], ts[1..])
    else if ts[0].wireType == END_GROUP then
      groups != [] && groups[|groups| - 1] == ts[0].field && Matched(groups[..|groups| - 1], ts[1..])
    else Matched(groups, ts[1..])
  }

  lemma MatchedCons(groups: seq<nat>, t: Token, ts: seq<Token>)
    ensures Matched(groups, [t] + ts) ==
      if t.wireType == START_GROUP then Matched(groups + [t.field], ts)
      else if t.wireType == END_GROUP then
        groups != [] && groups[|groups| - 1] == t.field && Matched(groups[..|groups| - 1], ts)
      else Matched(groups, ts)
  {
    assert ([t] + ts)[1..] == ts;
  }

  lemma {:induction false} MatchedBalances(groups: seq<nat>, ts: seq<Token>)
    requires Matched(groups, ts)
    ensures Balanced(|groups|, ts)
    decreases |ts|
  {
    if ts == [] {
      assert DepthAt(|groups|, ts, 0) == |groups|;
    } else {
      var t, rest := ts[0], ts[1..];
      assert ts == [t] + rest;
      BalancedCons(|groups|, t, rest);
      if t.wireType == START_GROUP {
        MatchedBalances(groups + [t.field], rest);
      } else if t.wireType == END_GROUP {
        MatchedBalances(groups[..|groups| - 1], rest);
      } else {
        MatchedBalances(groups, rest);
      }
    }
  }

  // ---------------------------------------------------------------------------
  // Which fields the top level names
  // ---------------------------------------------------------------------------

  /** A non-group token carrying one of `fields`; with `lenOnly`, only a length-delimited one. */
  predicate Names(t: Token, fields: set<nat>, lenOnly: bool) {
    t.field in fields && t.wireType != START_GROUP && t.wireType != END_GROUP && (lenOnly ==> t.wireType == LEN)
  }

  /** `p` holds of every token outside all groups. */
  ghost predicate ForTop(d: int, ts: seq<Token>, p: Token -> bool) {
    forall i :: 0 <= i < |ts| && AtTop(d, ts, i) ==> p(ts[i])
  }

  lemma ForTopCons(d: int, t: Token, ts: seq<Token>, p: Token -> bool)
    ensures ForTop(d, [t] + ts, p) <==> (d == 0 ==> p(t)) && ForTop(d + Nesting(t), ts, p)
  {
    hide AtTop, DepthAt;
    var us, e := [t] + ts, d + Nesting(t);
    AtTopCons(d, t, ts, e);
    assert us[0] == t;
    if ForTop(d, us, p) {
      forall i | 0 <= i < |ts| && AtTop(e, ts, i) ensures p(ts[i]) {
        assert us[i + 1] == ts[i] && AtTop(d, us, i + 1);
      }
    }
    if (d == 0 ==> p(t)) && ForTop(e, ts, p) {
      forall i | 0 <= i < |us| && AtTop(d, us, i) ensures p(us[i]) {
        if i > 0 { assert us[i] == ts[i - 1] && AtTop(e, ts, i - 1); }
      }
    }
  }

  function NamesOnly(fields: set<nat>, lenOnly: bool, f: nat): Token -> bool {
    (t: Token) => Names(t, fields, lenOnly) ==> t.field == f
  }

  /** Every top-level token naming one of `fields` names `f`. */
  ghost predicate AllName(d: int, ts: seq<Token>, fields: set<nat>, lenOnly: bool, f: nat) {
    ForTop(d, ts, NamesOnly(fields, lenOnly, f))
  }

  /** At most one distinct member of `fields` is named at the top level. */
  ghost predicate AtMostOne(d: int, ts: seq<Token>, fields: set<nat>, lenOnly: bool) {
    forall i, j ::
      && 0 <= i < |ts| && AtTop(d, ts, i) && Names(ts[i], fields, lenOnly)
      && 0 <= j < |ts| && AtTop(d, ts, j) && Names(ts[j], fields, lenOnly)
      ==> ts[i].field == ts[j].field
  }

  lemma AtMostOneCons(d: int, t: Token, ts: seq<Token>, fields: set<nat>, lenOnly: bool)
    ensures AtMostOne(d, [t] + ts, fields, lenOnly) <==>
            if d == 0 && Names(t, fields, lenOnly) then AllName(d + Nesting(t), ts, fields, lenOnly, t.field)
            else AtMostOne(d + Nesting(t), ts, fields, lenOnly)
  {
    hide AtTop, DepthAt, Names;
    var us, e := [t] + ts, d + Nesting(t);
    AtTopCons(d, t, ts, e);
    assert us[0] == t;
    if d == 0 && Names(t, fields, lenOnly) {
      ForTopCons(d, t, ts, NamesOnly(fields, lenOnly, t.field));
      if AtMostOne(d, us, fields, lenOnly) {
        assert AtTop(d, us, 0);
        assert AllName(d, us, fields, lenOnly, t.field);
      }
    } else {
      if AtMostOne(d, us, fields, lenOnly) {
        forall i, j | && 0 <= i < |ts| && AtTop(e, ts, i) && Names(ts[i], fields, lenOnly)
                      && 0 <= j < |ts| && AtTop(e, ts, j) && Names(ts[j], fields, lenOnly)
          ensures ts[i].field == ts[j].field
        {
          assert us[i + 1] == ts[i] && us[j + 1] == ts[j] && AtTop(d, us, i + 1) && AtTop(d, us, j + 1);
        }
      }
      if AtMostOne(e, ts, fields, lenOnly) {
        forall i, j | && 0 <= i < |us| && AtTop(d, us, i) && Names(us[i], fields, lenOnly)
                      && 0 <= j < |us| && AtTop(d, us, j) && Names(us[j], fields, lenOnly)
          ensures us[i].field == us[j].field
        {
          assert us[i] == ts[i - 1] && us[j] == ts[j - 1] && AtTop(e, ts, i - 1) && AtTop(e, ts, j - 1);
        }
      }
    }
  }
}
