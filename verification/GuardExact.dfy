/** What the guard accepts, said without its loop: one condition on the token stream per level. */
module GuardExact {
  import opened Options
  import opened Varint
  import opened Tokens
  import opened ScanTable
  import opened Guard

  /**
    A message the guard lets through: its bytes split into legal tokens with non-zero
    field numbers, its groups balance, its top level carries at most one distinct arm,
    and every descended payload is such a message itself.
   */
  ghost predicate Accepts(data: bytes, spec: ScanSpec, table: Table)
    decreases |data|
  {
    match TokensOf(Loose, data)
    case None => false
    case Some(ts) =>
      && Balanced(0, ts)
      && AtMostOne(0, ts, spec.arms, true)
      && forall i :: 0 <= i < |ts| && AtTop(0, ts, i) && ts[i].wireType == LEN ==>
           match GuardChild(spec, table, ts[i].field)
           case None => true
           case Some(child) => assert ts[i] in ts; Accepts(ts[i].payload, child, table)
  }

  /** The envelope likewise, over the known event numbers and tokens of every non-group wire type. */
  ghost predicate EnvelopeAccepts(data: bytes, env: ScanSpec, table: Table) {
    match TokensOf(Loose, data)
    case None => false
    case Some(ts) =>
      && Balanced(0, ts)
      && AtMostOne(0, ts, env.singular, false)
      && forall i :: 0 <= i < |ts| && AtTop(0, ts, i) && ts[i].wireType == LEN ==>
           match GuardChild(env, table, ts[i].field)
           case None => true
           case Some(child) => Accepts(ts[i].payload, child, table)
  }

  function ChildScans(spec: ScanSpec, table: Table): Token -> bool {
    (t: Token) => t.wireType == LEN ==> ScanChild(t, spec, table)
  }

  ghost predicate ChildrenScan(d: int, ts: seq<Token>, spec: ScanSpec, table: Table) {
    ForTop(d, ts, ChildScans(spec, table))
  }

  /** The arm (or event) seen so far constrains what may still come. */
  ghost predicate Compatible(d: int, ts: seq<Token>, fields: set<nat>, lenOnly: bool, seen: nat) {
    if seen == 0 then AtMostOne(d, ts, fields, lenOnly) else AllName(d, ts, fields, lenOnly, seen)
  }

  lemma CompatibleCons(d: nat, t: Token, ts: seq<Token>, fields: set<nat>, lenOnly: bool, seen: nat)
    requires t.field > 0
    ensures Compatible(d, [t] + ts, fields, lenOnly, seen) <==>
            if d == 0 && Names(t, fields, lenOnly)
            then (seen == 0 || seen == t.field) && Compatible(d + Nesting(t), ts, fields, lenOnly, t.field)
            else Compatible(d + Nesting(t), ts, fields, lenOnly, seen)
  {
    hide AtMostOne, ForTop;
    if seen == 0 {
      AtMostOneCons(d, t, ts, fields, lenOnly);
    } else {
      ForTopCons(d, t, ts, NamesOnly(fields, lenOnly, seen));
    }
  }

  ghost predicate ScanTokens(d: nat, ts: seq<Token>, arm: nat, spec: ScanSpec, table: Table) {
    Balanced(d, ts) && Compatible(d, ts, spec.arms, true, arm) && ChildrenScan(d, ts, spec, table)
  }

  lemma BalancedNegative(d: int, ts: seq<Token>)
    requires d < 0
    ensures !Balanced(d, ts)
  {
    assert DepthAt(d, ts, 0) < 0;
  }

  lemma {:induction false} ScanIsTokens(s: bytes, d: nat, arm: nat, spec: ScanSpec, table: Table)
    ensures ScanFrom(s, d, arm, spec, table) <==>
            TokensOf(Loose, s).Some? && ScanTokens(d, TokensOf(Loose, s).value, arm, spec, table)
    decreases |s|
  {
    if s == [] {
      assert DepthAt(d, [], 0) == d;
    } else if TakeToken(Loose, s).Some? {
      var t := TakeToken(Loose, s).value;
      ScanIsTokensStep(s, d, arm, spec, table, t);
    }
  }

  lemma {:induction false} ScanIsTokensStep(s: bytes, d: nat, arm: nat, spec: ScanSpec, table: Table, t: Token)
    requires s != [] && TakeToken(Loose, s) == Some(t)
    ensures ScanFrom(s, d, arm, spec, table) <==>
            TokensOf(Loose, s).Some? && ScanTokens(d, TokensOf(Loose, s).value, arm, spec, table)
    decreases |s|, 0
  {
    hide ScanFrom, TokensOf, TakeToken, Balanced, Compatible, ForTop, ScanChild;
    ScanUnfold(s, d, arm, spec, table);
    TokensCons(Loose, s, t);
    var rest := s[t.size..];
    var arm' := if d == 0 && Names(t, spec.arms, true) then t.field else arm;
    if d + Nesting(t) >= 0 {
      ScanIsTokens(rest, d + Nesting(t), arm', spec, table);
    }
    if TokensOf(Loose, rest).Some? {
      var ts := TokensOf(Loose, rest).value;
      BalancedCons(d, t, ts);
      CompatibleCons(d, t, ts, spec.arms, true, arm);
      ForTopCons(d, t, ts, ChildScans(spec, table));
      if d + Nesting(t) < 0 { BalancedNegative(d + Nesting(t), ts); }
    }
  }

  /** The recursive guard accepts exactly the messages of `Accepts`. */
  lemma {:induction false} GuardAcceptsExactly(data: bytes, spec: ScanSpec, table: Table)
    ensures ScanFrom(data, 0, 0, spec, table) <==> Accepts(data, spec, table)
    decreases |data|
  {
    ScanIsTokens(data, 0, 0, spec, table);
    hide ScanFrom, TakeToken;
    if TokensOf(Loose, data).Some? {
      var ts := TokensOf(Loose, data).value;
      forall i | 0 <= i < |ts| && GuardChild(spec, table, ts[i].field).Some?
        ensures ScanChild(ts[i], spec, table) <==>
                Accepts(ts[i].payload, GuardChild(spec, table, ts[i].field).value, table)
      {
        assert ts[i] in ts;
        GuardAcceptsExactly(ts[i].payload, GuardChild(spec, table, ts[i].field).value, table);
      }
    }
  }

  ghost predicate EnvelopeTokens(d: nat, ts: seq<Token>, seen: nat, env: ScanSpec, table: Table) {
    Balanced(d, ts) && Compatible(d, ts, env.singular, false, seen) && ChildrenScan(d, ts, env, table)
  }

  lemma {:induction false} EnvelopeIsTokens(s: bytes, d: nat, seen: nat, env: ScanSpec, table: Table)
    ensures EnvelopeFrom(s, d, seen, env, table) <==>
            TokensOf(Loose, s).Some? && EnvelopeTokens(d, TokensOf(Loose, s).value, seen, env, table)
    decreases |s|
  {
    if s == [] {
      assert DepthAt(d, [], 0) == d;
    } else if TakeToken(Loose, s).Some? {
      EnvelopeIsTokensStep(s, d, seen, env, table, TakeToken(Loose, s).value);
    }
  }

  lemma {:induction false} EnvelopeIsTokensStep(s: bytes, d: nat, seen: nat, env: ScanSpec, table: Table, t: Token)
    requires s != [] && TakeToken(Loose, s) == Some(t)
    ensures EnvelopeFrom(s, d, seen, env, table) <==>
            TokensOf(Loose, s).Some? && EnvelopeTokens(d, TokensOf(Loose, s).value, seen, env, table)
    decreases |s|, 0
  {
    hide EnvelopeFrom, TokensOf, TakeToken, Balanced, Compatible, ForTop, ScanChild;
    EnvelopeUnfold(s, d, seen, env, table);
    TokensCons(Loose, s, t);
    var rest := s[t.size..];
    var seen' := if d == 0 && Names(t, env.singular, false) then t.field else seen;
    if d + Nesting(t) >= 0 {
      EnvelopeIsTokens(rest, d + Nesting(t), seen', env, table);
    }
    if TokensOf(Loose, rest).Some? {
      var ts := TokensOf(Loose, rest).value;
      BalancedCons(d, t, ts);
      CompatibleCons(d, t, ts, env.singular, false, seen);
      ForTopCons(d, t, ts, ChildScans(env, table));
      if d + Nesting(t) < 0 { BalancedNegative(d + Nesting(t), ts); }
    }
  }

  /** The envelope guard accepts exactly the envelopes of `EnvelopeAccepts`. */
  lemma EnvelopeAcceptsExactly(data: bytes, env: ScanSpec, table: Table)
    ensures EnvelopeFrom(data, 0, 0, env, table) <==> EnvelopeAccepts(data, env, table)
  {
    EnvelopeIsTokens(data, 0, 0, env, table);
    hide EnvelopeFrom, TakeToken, ScanFrom;
    if TokensOf(Loose, data).Some? {
      var ts := TokensOf(Loose, data).value;
      forall i | 0 <= i < |ts| && GuardChild(env, table, ts[i].field).Some?
        ensures ScanChild(ts[i], env, table) <==>
                Accepts(ts[i].payload, GuardChild(env, table, ts[i].field).value, table)
      {
        GuardAcceptsExactly(ts[i].payload, GuardChild(env, table, ts[i].field).value, table);
      }
    }
  }
}
