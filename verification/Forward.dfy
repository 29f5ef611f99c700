/** Forward compatibility of the guard: fields it does not know change nothing. */
module Forward {
  import opened Options
  import opened Varint
  import opened Tokens
  import opened ScanTable
  import opened Guard
  import opened GuardExact

  lemma {:induction false} DepthConcat(d: int, a: seq<Token>, b: seq<Token>, i: nat)
    requires i <= |a| + |b|
    ensures DepthAt(d, a + b, i) ==
            if i <= |a| then DepthAt(d, a, i) else DepthAt(DepthAt(d, a, |a|), b, i - |a|)
  {
    if i > 0 {
      DepthConcat(d, a, b, i - 1);
      if i <= |a| {
        assert (a + b)[i - 1] == a[i - 1];
      } else {
        assert (a + b)[i - 1] == b[i - 1 - |a|];
      }
    }
  }

  ghost predicate NeverNegative(d: int, ts: seq<Token>) {
    forall i :: 0 <= i <= |ts| ==> DepthAt(d, ts, i) >= 0
  }

  lemma BalancedConcat(d: int, a: seq<Token>, b: seq<Token>, e: int)
    requires e == DepthAt(d, a, |a|)
    ensures Balanced(d, a + b) <==> NeverNegative(d, a) && Balanced(e, b)
  {
    var c := a + b;
    forall i | 0 <= i <= |a| ensures DepthAt(d, a, i) == DepthAt(d, c, i) { DepthConcat(d, a, b, i); }
    forall i | 0 <= i <= |b| ensures DepthAt(e, b, i) == DepthAt(d, c, |a| + i) { DepthConcat(d, a, b, |a| + i); }
    if Balanced(d, c) {
      forall i | 0 <= i <= |a| ensures DepthAt(d, a, i) >= 0 { assert DepthAt(d, c, i) >= 0; }
      forall i | 0 <= i <= |b| ensures DepthAt(e, b, i) >= 0 { assert DepthAt(d, c, |a| + i) >= 0; }
    }
    if NeverNegative(d, a) && Balanced(e, b) {
      forall i | 0 <= i <= |c| ensures DepthAt(d, c, i) >= 0 {
        if i > |a| {
          assert DepthAt(e, b, i - |a|) == DepthAt(d, c, |a| + (i - |a|));
        } else {
          assert DepthAt(d, a, i) >= 0;
        }
      }
    }
  }

  lemma ForTopConcat(d: int, a: seq<Token>, b: seq<Token>, e: int, p: Token -> bool)
    requires e == DepthAt(d, a, |a|)
    ensures ForTop(d, a + b, p) <==> ForTop(d, a, p) && ForTop(e, b, p)
  {
    var c := a + b;
    forall i | 0 <= i < |a| ensures DepthAt(d, a, i) == DepthAt(d, c, i) { DepthConcat(d, a, b, i); }
    forall i | 0 <= i < |b| ensures DepthAt(e, b, i) == DepthAt(d, c, |a| + i) { DepthConcat(d, a, b, |a| + i); }
    if ForTop(d, c, p) {
      forall i | 0 <= i < |a| && AtTop(d, a, i) ensures p(a[i]) { assert AtTop(d, c, i) && c[i] == a[i]; }
      forall i | 0 <= i < |b| && AtTop(e, b, i) ensures p(b[i]) { assert AtTop(d, c, |a| + i) && c[|a| + i] == b[i]; }
    }
    if ForTop(d, a, p) && ForTop(e, b, p) {
      forall i | 0 <= i < |c| && AtTop(d, c, i) ensures p(c[i]) {
        if i < |a| {
          assert AtTop(d, a, i);
        } else {
          assert DepthAt(e, b, i - |a|) == DepthAt(d, c, |a| + (i - |a|));
          assert AtTop(e, b, i - |a|);
        }
      }
    }
  }

  /** "At most one" is "all the same one". */
  lemma AtMostOneWitness(d: int, ts: seq<Token>, fields: set<nat>, lenOnly: bool)
    ensures AtMostOne(d, ts, fields, lenOnly) <==> exists f: nat :: AllName(d, ts, fields, lenOnly, f)
  {
    hide AtTop, Names;
    if AtMostOne(d, ts, fields, lenOnly) {
      if i :| 0 <= i < |ts| && AtTop(d, ts, i) && Names(ts[i], fields, lenOnly) {
        assert AllName(d, ts, fields, lenOnly, ts[i].field);
      } else {
        assert AllName(d, ts, fields, lenOnly, 0);
      }
    }
    if f: nat :| AllName(d, ts, fields, lenOnly, f) {
      forall i | 0 <= i < |ts| && AtTop(d, ts, i) && Names(ts[i], fields, lenOnly) ensures ts[i].field == f {
        assert NamesOnly(fields, lenOnly, f)(ts[i]);
      }
    }
  }

  function Unknown(env: ScanSpec): Token -> bool {
    (t: Token) => t.field !in env.singular && t.field !in env.descend
  }

  /** Complete records, all of them unknown to the envelope. */
  ghost predicate UnknownRecords(ts: seq<Token>, env: ScanSpec) {
    Balanced(0, ts) && ForTop(0, ts, Unknown(env))
  }

  lemma UnknownIsNeutral(ts: seq<Token>, env: ScanSpec, table: Table)
    requires UnknownRecords(ts, env)
    ensures ChildrenScan(0, ts, env, table)
    ensures forall f: nat :: AllName(0, ts, env.singular, false, f)
  {
    hide AtTop, ScanFrom;
    forall i | 0 <= i < |ts| && AtTop(0, ts, i) ensures Unknown(env)(ts[i]) {}
  }

  ghost predicate Verdict(ts: seq<Token>, env: ScanSpec, table: Table) {
    Balanced(0, ts) && AtMostOne(0, ts, env.singular, false) && ChildrenScan(0, ts, env, table)
  }

  lemma InsertTokens(a: seq<Token>, r: seq<Token>, b: seq<Token>, env: ScanSpec, table: Table)
    requires DepthAt(0, a, |a|) == 0
    requires UnknownRecords(r, env)
    ensures Verdict(a + (r + b), env, table) <==> Verdict(a + b, env, table)
  {
    hide Balanced, ForTop, AtMostOne, NeverNegative;
    assert DepthAt(0, r, |r|) == 0 && NeverNegative(0, r) by { UnknownBalance(r, env); }
    BalancedConcat(0, a, b, 0);
    BalancedConcat(0, a, r + b, 0);
    BalancedConcat(0, r, b, 0);
    ForTopConcat(0, a, b, 0, ChildScans(env, table));
    ForTopConcat(0, a, r + b, 0, ChildScans(env, table));
    ForTopConcat(0, r, b, 0, ChildScans(env, table));
    UnknownIsNeutral(r, env, table);
    AtMostOneWitness(0, a + b, env.singular, false);
    AtMostOneWitness(0, a + (r + b), env.singular, false);
    forall f: nat
      ensures AllName(0, a + b, env.singular, false, f) <==> AllName(0, a + (r + b), env.singular, false, f)
    {
      var p := NamesOnly(env.singular, false, f);
      assert AllName(0, r, env.singular, false, f);
      ForTopConcat(0, a, b, 0, p);
      ForTopConcat(0, a, r + b, 0, p);
      ForTopConcat(0, r, b, 0, p);
    }
  }

  lemma UnknownBalance(r: seq<Token>, env: ScanSpec)
    requires UnknownRecords(r, env)
    ensures DepthAt(0, r, |r|) == 0 && NeverNegative(0, r)
  {
  }

  /**
    Inserting complete unknown records at a record boundary leaves the verdict alone.
    `a` ends at a boundary outside every group; `r` is any run of complete unknown records.
   */
  lemma UnknownRecordsAreIgnored(a: bytes, r: bytes, b: bytes, env: ScanSpec, table: Table)
    requires TokensOf(Loose, a).Some? && DepthAt(0, TokensOf(Loose, a).value, |TokensOf(Loose, a).value|) == 0
    requires TokensOf(Loose, r).Some? && UnknownRecords(TokensOf(Loose, r).value, env)
    ensures EnvelopeFrom(a + r + b, 0, 0, env, table) <==> EnvelopeFrom(a + b, 0, 0, env, table)
  {
    hide TokensOf, EnvelopeFrom, Balanced, AtMostOne, ForTop, DepthAt, UnknownRecords;
    EnvelopeIsTokens(a + r + b, 0, 0, env, table);
    EnvelopeIsTokens(a + b, 0, 0, env, table);
    assert a + r + b == a + (r + b);
    TokensConcat(Loose, a, b);
    TokensConcat(Loose, a, r + b);
    TokensConcat(Loose, r, b);
    if TokensOf(Loose, b).Some? {
      InsertTokens(TokensOf(Loose, a).value, TokensOf(Loose, r).value, TokensOf(Loose, b).value, env, table);
    }
  }
}
