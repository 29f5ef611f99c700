/** Telling an event from a later protocol apart from broken bytes. */
module FutureArms {
  import opened Options
  import opened Varint
  import opened Tokens
  import opened ScanTable
  import opened Guard
  import opened GuardExact
  import opened DotnetGuard

  /** Whether the rest of a payload walks as a message, with `groups` open. */
  predicate WalksFrom(s: bytes, groups: seq<nat>)
    decreases |s|
  {
    if s == [] then groups == []
    else
      match TakeToken(Strict, s)
      case None => false
      case Some(t) =>
        var rest := s[t.size..];
        if t.wireType == START_GROUP then WalksFrom(rest, groups + [t.field])
        else if t.wireType == END_GROUP then
          groups != [] && groups[|groups| - 1] == t.field && WalksFrom(rest, groups[..|groups| - 1])
        else WalksFrom(rest, groups)
  }

  method WalksAsMessage(data: bytes) returns (ok: bool)
    ensures ok <==> WalksFrom(data, [])
  {
    hide WalksFrom, TakeToken;
    var cursor := new Cursor();
    var groups: seq<nat> := [];
    assert data[0..] == data;
    while cursor.offset < |data|
      invariant cursor.offset <= |data|
      invariant WalksFrom(data, []) <==> WalksFrom(data[cursor.offset..], groups)
      decreases |data| - cursor.offset
    {
      ghost var o := cursor.offset;
      WalksUnfold(data[o..], groups);
      var r := ReadToken(Strict, data, cursor);
      if r.None? { return false; }
      var t := r.value;
      Suffix(data, o, t.size);
      if t.wireType == START_GROUP {
        groups := groups + [t.field];
      } else if t.wireType == END_GROUP {
        if groups == [] || groups[|groups| - 1] != t.field { return false; }
        groups := groups[..|groups| - 1];
      }
    }
    WalksDone(data[cursor.offset..], groups);
    ok := |groups| == 0;
  }

  lemma WalksDone(s: bytes, groups: seq<nat>)
    requires s == []
    ensures WalksFrom(s, groups) <==> groups == []
  {
  }

  lemma WalksUnfold(s: bytes, groups: seq<nat>)
    requires s != []
    ensures TakeToken(Strict, s).None? ==> !WalksFrom(s, groups)
    ensures TakeToken(Strict, s).Some? ==>
      var t := TakeToken(Strict, s).value;
      var rest := s[t.size..];
      WalksFrom(s, groups) ==
        (if t.wireType == START_GROUP then WalksFrom(rest, groups + [t.field])
         else if t.wireType == END_GROUP then
           groups != [] && groups[|groups| - 1] == t.field && WalksFrom(rest, groups[..|groups| - 1])
         else WalksFrom(rest, groups))
  {
  }

  predicate FutureFrom(s: bytes, groups: seq<nat>, future: nat, tags: set<nat>)
    decreases |s|
  {
    if s == [] then groups == [] && future > 0
    else
      match TakeToken(Strict, s)
      case None => false
      case Some(t) =>
        var rest, top := s[t.size..], groups == [];
        if t.wireType == END_GROUP then
          !top && groups[|groups| - 1] == t.field && FutureFrom(rest, groups[..|groups| - 1], future, tags)
        else if top && t.field in tags then false
        else if t.wireType == START_GROUP then FutureFrom(rest, groups + [t.field], future, tags)
        else if t.wireType == LEN && top then
          WalksFrom(t.payload, []) && FutureFrom(rest, groups, future + 1, tags)
        else FutureFrom(rest, groups, future, tags)
  }

  method NamesOnlyFutureArms(data: bytes, tags: set<nat>) returns (ok: bool)
    ensures ok <==> FutureFrom(data, [], 0, tags)
  {
    hide FutureFrom, TakeToken, WalksFrom;
    var cursor := new Cursor();
    var groups: seq<nat> := [];
    var future := 0;
    assert data[0..] == data;
    while cursor.offset < |data|
      invariant cursor.offset <= |data|
      invariant FutureFrom(data, [], 0, tags) <==> FutureFrom(data[cursor.offset..], groups, future, tags)
      decreases |data| - cursor.offset
    {
      ghost var o := cursor.offset;
      FutureUnfold(data[o..], groups, future, tags);
      var r := ReadToken(Strict, data, cursor);
      if r.None? { return false; }
      var t := r.value;
      Suffix(data, o, t.size);
      var atTopLevel := |groups| == 0;
      if t.wireType == START_GROUP {
        if atTopLevel && t.field in tags { return false; }
        groups := groups + [t.field];
      } else if t.wireType == END_GROUP {
        if groups == [] || groups[|groups| - 1] != t.field { return false; }
        groups := groups[..|groups| - 1];
      } else {
        if atTopLevel && t.field in tags { return false; }
        if t.wireType == LEN && atTopLevel {
          var walks := WalksAsMessage(t.payload);
          if !walks { return false; }
          future := future + 1;
        }
      }
    }
    FutureDone(data[cursor.offset..], groups, future, tags);
    ok := |groups| == 0 && future > 0;
  }

  lemma FutureDone(s: bytes, groups: seq<nat>, future: nat, tags: set<nat>)
    requires s == []
    ensures FutureFrom(s, groups, future, tags) <==> groups == [] && future > 0
  {
  }

  lemma FutureUnfold(s: bytes, groups: seq<nat>, future: nat, tags: set<nat>)
    requires s != []
    ensures TakeToken(Strict, s).None? ==> !FutureFrom(s, groups, future, tags)
    ensures TakeToken(Strict, s).Some? ==>
      var t := TakeToken(Strict, s).value;
      var rest, top := s[t.size..], groups == [];
      FutureFrom(s, groups, future, tags) ==
        (if t.wireType == END_GROUP then
           !top && groups[|groups| - 1] == t.field && FutureFrom(rest, groups[..|groups| - 1], future, tags)
         else if top && t.field in tags then false
         else if t.wireType == START_GROUP then FutureFrom(rest, groups + [t.field], future, tags)
         else if t.wireType == LEN && top then
           WalksFrom(t.payload, []) && FutureFrom(rest, groups, future + 1, tags)
         else FutureFrom(rest, groups, future, tags))
  {
  }

  // ---------------------------------------------------------------------------
  // What it recognises
  // ---------------------------------------------------------------------------

  /** Splits strictly into tokens, the group structure intact. */
  predicate StrictMessage(s: bytes) {
    TokensOf(Strict, s).Some? && Matched([], TokensOf(Strict, s).value)
  }

  function PayloadIsMessage(): Token -> bool {
    (t: Token) => t.wireType == LEN ==> StrictMessage(t.payload)
  }

  /** Well-formed by the strict reader: widths respected, groups matched, and so is every top-level payload. */
  ghost predicate StrictlyFormed(data: bytes) {
    StrictMessage(data) && ForTop(0, TokensOf(Strict, data).value, PayloadIsMessage())
  }

  /** The walk accepts exactly the strict splits whose groups match. */
  lemma {:induction false} WalksExactly(s: bytes, groups: seq<nat>)
    ensures WalksFrom(s, groups) <==> TokensOf(Strict, s).Some? && Matched(groups, TokensOf(Strict, s).value)
    decreases |s|
  {
    hide WalksFrom, TokensOf, TakeToken, Matched;
    if s == [] {
      WalksDone(s, groups);
      MatchedNone(s, groups);
    } else {
      WalksUnfold(s, groups);
      if TakeToken(Strict, s).None? {
        NoTokens(s);
      } else {
        var t := TakeToken(Strict, s).value;
        TokensCons(Strict, s, t);
        var rest := s[t.size..];
        WalksExactly(rest, groups + [t.field]);
        WalksExactly(rest, groups);
        if groups != [] { WalksExactly(rest, groups[..|groups| - 1]); }
        if TokensOf(Strict, rest).Some? { MatchedCons(groups, t, TokensOf(Strict, rest).value); }
      }
    }
  }

  lemma MatchedNone(s: bytes, groups: seq<nat>)
    requires s == []
    ensures TokensOf(Strict, s) == Some([]) && (Matched(groups, []) <==> groups == [])
  {
  }

  lemma NoTokens(s: bytes)
    requires s != [] && TakeToken(Strict, s).None?
    ensures TokensOf(Strict, s).None?
  {
  }

  ghost predicate FutureTokens(groups: seq<nat>, ts: seq<Token>, future: nat, tags: set<nat>) {
    && Matched(groups, ts)
    && ForTop(|groups|, ts, PayloadIsMessage())
    && NamesNoEvent(|groups|, ts, tags)
    && (future > 0 || HasUnknownArm(|groups|, ts, tags))
  }

  lemma {:induction false} FutureIsTokens(s: bytes, groups: seq<nat>, future: nat, tags: set<nat>)
    ensures FutureFrom(s, groups, future, tags) <==>
            TokensOf(Strict, s).Some? && FutureTokens(groups, TokensOf(Strict, s).value, future, tags)
    decreases |s|
  {
    if s != [] && TakeToken(Strict, s).Some? {
      FutureIsTokensStep(s, groups, future, tags, TakeToken(Strict, s).value);
    }
  }

  lemma {:induction false} FutureIsTokensStep(
    s: bytes, groups: seq<nat>, future: nat, tags: set<nat>, t: Token)
    requires s != [] && TakeToken(Strict, s) == Some(t)
    ensures FutureFrom(s, groups, future, tags) <==>
            TokensOf(Strict, s).Some? && FutureTokens(groups, TokensOf(Strict, s).value, future, tags)
    decreases |s|, 0
  {
    hide FutureFrom, TokensOf, TakeToken, WalksFrom, ForTop, Matched;
    FutureUnfold(s, groups, future, tags);
    WalksExactly(t.payload, []);
    TokensCons(Strict, s, t);
    var rest, d := s[t.size..], |groups|;
    var top := groups == [];
    if t.wireType == END_GROUP {
      if !top { FutureIsTokens(rest, groups[..|groups| - 1], future, tags); }
    } else if t.wireType == START_GROUP {
      FutureIsTokens(rest, groups + [t.field], future, tags);
    } else {
      FutureIsTokens(rest, groups, if t.wireType == LEN && top then future + 1 else future, tags);
    }
    if TokensOf(Strict, rest).Some? {
      var ts := TokensOf(Strict, rest).value;
      MatchedCons(groups, t, ts);
      ForTopCons(d, t, ts, PayloadIsMessage());
      ForTopCons(d, t, ts, NotKnown(tags));
      ForTopCons(d, t, ts, NotUnknownArm(tags));
    }
  }

  /** With no event named, no payload is descended into and no two events can clash. */
  lemma NoEventAccepted(data: bytes, env: ScanSpec, table: Table)
    requires env.descend.Keys <= env.singular
    requires TokensOf(Loose, data).Some?
    requires Balanced(0, TokensOf(Loose, data).value)
    requires NamesNoEvent(0, TokensOf(Loose, data).value, env.singular)
    ensures EnvelopeAccepts(data, env, table)
  {
    hide TokensOf, Balanced, AtTop, Accepts;
    var ts := TokensOf(Loose, data).value;
    forall i | 0 <= i < |ts| && AtTop(0, ts, i) && ts[i].wireType != END_GROUP
      ensures ts[i].field !in env.singular && ts[i].field !in env.descend
    {
      assert NotKnown(env.singular)(ts[i]);
    }
  }

  /**
    The recogniser's answer implies the C# one: a frame it calls an event from the future
    passes both guards, names no known event at the top level, and C# says the same of it.
   */
  lemma FutureArmsPassBothGuards(data: bytes, env: ScanSpec, table: Table)
    requires env.descend.Keys <= env.singular
    requires FutureFrom(data, [], 0, env.singular)
    ensures EnvelopeFrom(data, 0, 0, env, table)
    ensures TokensOf(Loose, data).Some? && NamesNoEvent(0, TokensOf(Loose, data).value, env.singular)
    ensures DotnetFrom(data, 0, 0, 0, 0, env, table) == Some(true)
  {
    FutureIsTokens(data, [], 0, env.singular);
    StrictTokensAreLoose(data);
    MatchedBalances([], TokensOf(Strict, data).value);
    NoEventAccepted(data, env, table);
    EnvelopeAcceptsExactly(data, env, table);
    DotnetAnswer(data, env, table);
  }

  /** Exactly when the two runtimes agree that a frame is from the future: it is also strictly formed. */
  lemma FutureArmsExactly(data: bytes, env: ScanSpec, table: Table)
    requires env.descend.Keys <= env.singular
    ensures FutureFrom(data, [], 0, env.singular) <==>
            DotnetFrom(data, 0, 0, 0, 0, env, table) == Some(true) && StrictlyFormed(data)
  {
    FutureIsTokens(data, [], 0, env.singular);
    if FutureFrom(data, [], 0, env.singular) {
      FutureArmsPassBothGuards(data, env, table);
    } else if StrictlyFormed(data) && DotnetFrom(data, 0, 0, 0, 0, env, table).Some? {
      StrictTokensAreLoose(data);
      DotnetAcceptsTheSame(data, env, table);
      DotnetAnswer(data, env, table);
    }
  }

  /** Without strict form they differ: one unknown arm whose payload is a zero byte, no message at all. */
  lemma RuntimesDifferOnBrokenPayload(env: ScanSpec, table: Table)
    requires 100 !in env.singular && 100 !in env.descend
    ensures var data: bytes := [0xA2, 0x06, 0x01, 0x00];
            && DotnetFrom(data, 0, 0, 0, 0, env, table) == Some(true)
            && !FutureFrom(data, [], 0, env.singular)
  {
    var data: bytes := [0xA2, 0x06, 0x01, 0x00];
    TokenOfField100(data);
    var t := TakeToken(Loose, data).value;
    assert data[4..] == [];
    DotnetUnfold(data, 0, 0, 0, 0, env, table);
    DotnetDone(data[4..], 0, 0, 0, 1, env, table);
    FutureUnfold(data, [], 0, env.singular);
    ZeroBytesDoNotWalk();
  }

  lemma TokenOfField100(data: bytes)
    requires data == [0xA2, 0x06, 0x01, 0x00]
    ensures TakeToken(Strict, data) == TakeToken(Loose, data) == Some(Token(100, LEN, [0x00], 4))
  {
    VarintSizeAt(data, 2);
    assert data[..2] == [0xA2, 0x06];
    assert Base128([0xA2, 0x06]) == 802 by {
      assert [0xA2, 0x06][1..] == [0x06];
      assert Base128([0x06]) == 6;
    }
    assert data[2..] == [0x01, 0x00];
    VarintSizeAt(data[2..], 1);
    assert data[2..][..1] == [0x01];
    assert Base128([0x01]) == 1;
    assert data[2..][1..2] == [0x00];
    StrictTokenIsLoose(data);
  }

  lemma ZeroBytesDoNotWalk()
    ensures !WalksFrom([0x00], [])
  {
    VarintSizeAt([0x00], 1);
    assert [0x00][..1] == [0x00];
    assert Base128([0x00]) == 0;
  }
}
