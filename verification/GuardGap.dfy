/** Between the guard and a decoder: what acceptance has checked, and exactly what it leaves open. */
module GuardGap {
  import opened Options
  import opened Varint
  import opened Tokens
  import opened ScanTable
  import opened Guard
  import opened ScanPrune
  import opened Records
  import opened Decoders
  import opened DecodeExact

  // ---------------------------------------------------------------------------
  // Well-formedness over records
  // ---------------------------------------------------------------------------

  /** Inside a group the guard only counts: it comes out behind the group's end. */
  lemma {:induction false} GroupIsSkipped(s: bytes, field: nat, d: nat, arm: nat, spec: ScanSpec, table: Table)
    requires GroupSize(s, field) > 0
    ensures ScanFrom(s, d + 1, arm, spec, table) <==> ScanFrom(s[GroupSize(s, field)..], d, arm, spec, table)
    decreases |s|
  {
    hide ScanFrom, TakeToken, GroupSize;
    var t := GroupHead(s, field);
    GroupUnfold(s, field, t);
    ScanUnfold(s, d + 1, arm, spec, table);
    var rest := s[t.size..];
    if t.wireType == START_GROUP {
      var inner := GroupSize(rest, t.field);
      GroupIsSkipped(rest, t.field, d + 1, arm, spec, table);
      assert rest[inner..] == s[t.size + inner..];
      GroupIsSkipped(rest[inner..], field, d, arm, spec, table);
      Cut(s, t.size + inner, GroupSize(rest[inner..], field));
    } else if t.wireType != END_GROUP {
      GroupIsSkipped(rest, field, d, arm, spec, table);
      Cut(s, t.size, GroupSize(rest, field));
    }
  }

  predicate WellFormed(s: bytes, spec: ScanSpec, table: Table) {
    ScanFrom(s, 0, 0, NoArms(spec), Structural(table))
  }

  lemma StructuralChild(spec: ScanSpec, table: Table, n: nat)
    ensures GuardChild(NoArms(spec), Structural(table), n)
         == if GuardChild(spec, table, n).None? then None else Some(NoArms(GuardChild(spec, table, n).value))
  {
  }

  /** Whatever the guard accepts is well formed. */
  lemma {:induction false} AcceptedIsWellFormed(s: bytes, d: nat, arm: nat, spec: ScanSpec, table: Table)
    requires ScanFrom(s, d, arm, spec, table)
    ensures ScanFrom(s, d, 0, NoArms(spec), Structural(table))
    decreases |s|
  {
    hide ScanFrom, TakeToken, Structural, NoArms;
    if s == [] {
      ScanDone(s, d, arm, spec, table);
      ScanDone(s, d, 0, NoArms(spec), Structural(table));
    } else {
      ScanUnfold(s, d, arm, spec, table);
      ScanUnfold(s, d, 0, NoArms(spec), Structural(table));
      var t := TakeToken(Loose, s).value;
      var rest := s[t.size..];
      NoArmsHasNone(spec);
      if t.wireType == START_GROUP {
        AcceptedIsWellFormed(rest, d + 1, arm, spec, table);
      } else if t.wireType == END_GROUP {
        AcceptedIsWellFormed(rest, d - 1, arm, spec, table);
      } else if t.wireType == LEN && d == 0 {
        AcceptedIsWellFormed(rest, 0, if t.field in spec.arms then t.field else arm, spec, table);
        StructuralChild(spec, table, t.field);
        if GuardChild(spec, table, t.field).Some? {
          AcceptedIsWellFormed(t.payload, 0, 0, GuardChild(spec, table, t.field).value, table);
        }
      } else {
        AcceptedIsWellFormed(rest, d, arm, spec, table);
      }
    }
  }

  lemma NoArmsHasNone(spec: ScanSpec)
    ensures NoArms(spec).arms == {}
  {
  }

  /** One record's payload is well formed, if the guard descends into it. */
  predicate WellFormedInside(x: Record, spec: ScanSpec, table: Table) {
    x.wireType == LEN && GuardChild(spec, table, x.number).Some? ==>
      WellFormed(x.payload, GuardChild(spec, table, x.number).value, table)
  }

  /** Over whole records the well-formedness check is a check of each descended payload. */
  lemma {:induction false} WellFormedIs(s: bytes, spec: ScanSpec, table: Table)
    requires RecordsOf(s).Some?
    ensures WellFormed(s, spec, table) <==> forall x <- RecordsOf(s).value :: WellFormedInside(x, spec, table)
    decreases |s|
  {
    hide ScanFrom, TakeToken, GroupSize, RecordsOf, WellFormedInside, Structural, NoArms;
    var plain, table' := NoArms(spec), Structural(table);
    if s == [] {
      RecordsNil(s);
      ScanDone(s, 0, 0, plain, table');
    } else {
      RecordsUnfold(s);
      ScanUnfold(s, 0, 0, plain, table');
      NoArmsHasNone(spec);
      var x := RecordsHead(s);
      var t := TakeToken(Loose, s).value;
      WellFormedIs(s[|x.raw|..], spec, table);
      if t.wireType == START_GROUP {
        GroupIsSkipped(s[t.size..], t.field, 0, 0, plain, table');
        Cut(s, t.size, GroupSize(s[t.size..], t.field));
      }
      InsideIsChild(x, t, spec, table);
      var more := RecordsOf(s[|x.raw|..]).value;
      assert forall y :: y in RecordsOf(s).value <==> y == x || y in more;
    }
  }

  lemma InsideIsChild(x: Record, t: Token, spec: ScanSpec, table: Table)
    requires x.number == t.field && x.wireType == t.wireType && x.payload == t.payload
    ensures WellFormedInside(x, spec, table) <==>
            (t.wireType == LEN ==> ScanChild(t, NoArms(spec), Structural(table)))
  {
    hide ScanFrom, NoArms, Structural;
    StructuralChild(spec, table, t.field);
  }

  /**
    What well-formedness leaves open, at every level the guard descends to: groups must end
    with the number they began with, and a google payload must decode.
   */
  ghost predicate Unchecked(s: bytes, spec: ScanSpec, table: Table)
    decreases |s|, 0
  {
    && (TokensOf(Loose, s).Some? ==> Matched([], TokensOf(Loose, s).value))
    && (RecordsOf(s).Some? ==> forall x <- RecordsOf(s).value :: UncheckedInside(x, spec, table))
  }

  ghost predicate UncheckedInside(x: Record, spec: ScanSpec, table: Table)
    decreases |x.payload|, 1
  {
    IsMessage(x, spec) ==>
      if GuardChild(spec, table, x.number).Some?
      then Unchecked(x.payload, GuardChild(spec, table, x.number).value, table)
      else MergeChild(spec, table, x.number).Some? ==>
             Decodable(x.payload, MergeChild(spec, table, x.number).value, table)
  }

  /** Decodable is well formed and what that leaves open, for all bytes and tables. */
  lemma {:induction false} DecodableSplits(s: bytes, spec: ScanSpec, table: Table)
    ensures Decodable(s, spec, table) <==> WellFormed(s, spec, table) && Unchecked(s, spec, table)
    decreases |s|, 0
  {
    hide Decodable, ScanFrom, RecordsOf, TokensOf, Matched, TakeToken, WellFormed;
    DecodableIs(s, spec, table);
    RecordsExactly(s);
    if RecordsOf(s).Some? {
      var xs := RecordsOf(s).value;
      WellFormedIs(s, spec, table);
      forall x <- xs
        ensures DecodableInside(x, spec, table) <==>
                WellFormedInside(x, spec, table) && UncheckedInside(x, spec, table)
      {
        InsideSplits(x, spec, table);
      }
    } else if WellFormed(s, spec, table) {
      WellFormedSplits(s, spec, table);
    }
  }

  lemma {:induction false} InsideSplits(x: Record, spec: ScanSpec, table: Table)
    ensures DecodableInside(x, spec, table) <==> WellFormedInside(x, spec, table) && UncheckedInside(x, spec, table)
    decreases |x.payload|, 1
  {
    hide Decodable, WellFormed, Unchecked;
    if x.wireType == LEN && GuardChild(spec, table, x.number).Some? {
      DecodableSplits(x.payload, GuardChild(spec, table, x.number).value, table);
    }
  }

  lemma WellFormedSplits(s: bytes, spec: ScanSpec, table: Table)
    requires WellFormed(s, spec, table)
    ensures TokensOf(Loose, s).Some?
  {
    WellFormedHasTokens(s, 0, NoArms(spec), Structural(table));
  }

  lemma {:induction false} WellFormedHasTokens(s: bytes, d: nat, spec: ScanSpec, table: Table)
    requires ScanFrom(s, d, 0, spec, table) && spec.arms == {}
    ensures TokensOf(Loose, s).Some?
    decreases |s|
  {
    hide ScanFrom, TakeToken;
    if s != [] {
      ScanUnfold(s, d, 0, spec, table);
      var t := TakeToken(Loose, s).value;
      TokensCons(Loose, s, t);
      var d' := if t.wireType == START_GROUP then d + 1 else if t.wireType == END_GROUP then d - 1 else d;
      WellFormedHasTokens(s[t.size..], d', spec, table);
    }
  }

  /** After the guard has accepted, exactly that is left between the bytes and a decoder. */
  lemma GuardLeavesOpen(s: bytes, spec: ScanSpec, table: Table)
    requires ScanFrom(s, 0, 0, spec, table)
    ensures Decodable(s, spec, table) <==> Unchecked(s, spec, table)
  {
    hide ScanFrom, Decodable, Unchecked;
    AcceptedIsWellFormed(s, 0, 0, spec, table);
    DecodableSplits(s, spec, table);
  }

  // ---------------------------------------------------------------------------
  // The envelope
  // ---------------------------------------------------------------------------

  lemma {:induction false} EnvelopeIsWellFormed(s: bytes, d: nat, seen: nat, env: ScanSpec, table: Table)
    requires EnvelopeFrom(s, d, seen, env, table)
    ensures ScanFrom(s, d, 0, NoArms(env), Structural(table))
    decreases |s|
  {
    hide EnvelopeFrom, ScanFrom, TakeToken, Structural, NoArms;
    if s == [] {
      EnvelopeDone(s, d, seen, env, table);
      ScanDone(s, d, 0, NoArms(env), Structural(table));
    } else {
      EnvelopeUnfold(s, d, seen, env, table);
      ScanUnfold(s, d, 0, NoArms(env), Structural(table));
      var t := TakeToken(Loose, s).value;
      var rest := s[t.size..];
      NoArmsHasNone(env);
      if t.wireType == START_GROUP {
        EnvelopeIsWellFormed(rest, d + 1, seen, env, table);
      } else if t.wireType == END_GROUP {
        EnvelopeIsWellFormed(rest, d - 1, seen, env, table);
      } else {
        EnvelopeIsWellFormed(rest, d, if d == 0 && t.field in env.singular then t.field else seen, env, table);
        StructuralChild(env, table, t.field);
        if t.wireType == LEN && d == 0 && GuardChild(env, table, t.field).Some? {
          AcceptedIsWellFormed(t.payload, 0, 0, GuardChild(env, table, t.field).value, table);
        }
      }
    }
  }

  lemma {:induction false} EnvelopeGroupIsSkipped(
    s: bytes, field: nat, d: nat, seen: nat, env: ScanSpec, table: Table)
    requires GroupSize(s, field) > 0
    ensures EnvelopeFrom(s, d + 1, seen, env, table) <==> EnvelopeFrom(s[GroupSize(s, field)..], d, seen, env, table)
    decreases |s|
  {
    hide EnvelopeFrom, TakeToken, GroupSize;
    var t := GroupHead(s, field);
    GroupUnfold(s, field, t);
    EnvelopeUnfold(s, d + 1, seen, env, table);
    var rest := s[t.size..];
    if t.wireType == START_GROUP {
      var inner := GroupSize(rest, t.field);
      EnvelopeGroupIsSkipped(rest, t.field, d + 1, seen, env, table);
      assert rest[inner..] == s[t.size + inner..];
      EnvelopeGroupIsSkipped(rest[inner..], field, d, seen, env, table);
      Cut(s, t.size + inner, GroupSize(rest[inner..], field));
    } else if t.wireType != END_GROUP {
      EnvelopeGroupIsSkipped(rest, field, d, seen, env, table);
      Cut(s, t.size, GroupSize(rest, field));
    }
  }

  /** A length-delimited record of a known event. */
  predicate IsEvent(x: Record, tags: set<nat>) { x.wireType == LEN && x.number in tags }

  /** The envelope names one event, however often. */
  ghost predicate OneEvent(data: bytes, tags: set<nat>) {
    RecordsOf(data).Some? ==>
      forall x, y :: x in RecordsOf(data).value && y in RecordsOf(data).value && IsEvent(x, tags) && IsEvent(y, tags)
                     ==> x.number == y.number
  }

  /** Behind event `seen` the guard admits no other. */
  lemma {:induction false} EnvelopeNamesOne(s: bytes, seen: nat, env: ScanSpec, table: Table)
    requires EnvelopeFrom(s, 0, seen, env, table) && RecordsOf(s).Some?
    ensures seen != 0 ==> forall x <- RecordsOf(s).value :: IsEvent(x, env.singular) ==> x.number == seen
    ensures OneEvent(s, env.singular)
    decreases |s|
  {
    hide EnvelopeFrom, TakeToken, GroupSize, RecordsOf;
    if s == [] {
      RecordsNil(s);
    } else {
      RecordsUnfold(s);
      EnvelopeUnfold(s, 0, seen, env, table);
      var x := RecordsHead(s);
      var t := TakeToken(Loose, s).value;
      if t.wireType == START_GROUP {
        EnvelopeGroupIsSkipped(s[t.size..], t.field, 0, seen, env, table);
        Cut(s, t.size, GroupSize(s[t.size..], t.field));
        EnvelopeNamesOne(s[|x.raw|..], seen, env, table);
      } else {
        EnvelopeNamesOne(s[|x.raw|..], if t.field in env.singular then t.field else seen, env, table);
      }
      var more := RecordsOf(s[|x.raw|..]).value;
      assert forall y :: y in RecordsOf(s).value <==> y == x || y in more;
    }
  }

  /** What an accepted envelope is: one event at most, and decodable up to what the guard does not look at. */
  lemma EnvelopeLeavesOpen(data: bytes, env: ScanSpec, table: Table)
    requires EnvelopeFrom(data, 0, 0, env, table)
    ensures OneEvent(data, env.singular)
    ensures Decodable(data, env, table) <==> Unchecked(data, env, table)
  {
    hide EnvelopeFrom, ScanFrom, Decodable, Unchecked, RecordsOf;
    if RecordsOf(data).Some? { EnvelopeNamesOne(data, 0, env, table); }
    EnvelopeIsWellFormed(data, 0, 0, env, table);
    DecodableSplits(data, env, table);
  }

  // ---------------------------------------------------------------------------
  // The guard with the pruned table
  // ---------------------------------------------------------------------------

  /** The payloads the pruned guard no longer looks into are well formed, at every level it descends to. */
  ghost predicate DroppedFormed(s: bytes, spec: ScanSpec, specs: Table, keep: set<string>)
    decreases |s|, 0
  {
    RecordsOf(s).Some? ==> forall x <- RecordsOf(s).value :: DroppedFormedInside(x, spec, specs, keep)
  }

  ghost predicate DroppedFormedInside(x: Record, spec: ScanSpec, specs: Table, keep: set<string>)
    decreases |x.payload|, 1
  {
    x.wireType == LEN && GuardChild(spec, specs, x.number).Some? ==>
      if spec.descend[x.number] in keep
      then DroppedFormed(x.payload, GuardChild(spec, specs, x.number).value, specs, keep)
      else WellFormed(x.payload, GuardChild(spec, specs, x.number).value, specs)
  }

  lemma {:induction false} PrunedSplits(s: bytes, spec: ScanSpec, specs: Table, keep: set<string>)
    requires WellFormed(s, PruneSpec(spec, keep), Prune(specs, keep)) && Unchecked(s, spec, specs)
    ensures WellFormed(s, spec, specs) <==> DroppedFormed(s, spec, specs, keep)
    decreases |s|, 0
  {
    hide ScanFrom, RecordsOf, TokensOf, Matched, TakeToken, WellFormed, PruneSpec, Prune, WellFormedInside;
    hide DroppedFormedInside, UncheckedInside;
    WellFormedSplits(s, PruneSpec(spec, keep), Prune(specs, keep));
    RecordsExactly(s);
    WellFormedIs(s, spec, specs);
    WellFormedIs(s, PruneSpec(spec, keep), Prune(specs, keep));
    forall x <- RecordsOf(s).value
      ensures WellFormedInside(x, spec, specs) <==> DroppedFormedInside(x, spec, specs, keep)
    {
      PrunedInside(x, spec, specs, keep);
    }
  }

  lemma {:induction false} PrunedInside(x: Record, spec: ScanSpec, specs: Table, keep: set<string>)
    requires WellFormedInside(x, PruneSpec(spec, keep), Prune(specs, keep)) && UncheckedInside(x, spec, specs)
    ensures WellFormedInside(x, spec, specs) <==> DroppedFormedInside(x, spec, specs, keep)
    decreases |x.payload|, 1
  {
    hide WellFormed, Unchecked, DroppedFormed;
    if x.wireType == LEN && GuardChild(spec, specs, x.number).Some? && spec.descend[x.number] in keep {
      PrunedSplits(x.payload, GuardChild(spec, specs, x.number).value, specs, keep);
    }
  }

  /** After the shipped guard has accepted: those payloads too. */
  lemma PrunedGuardLeavesOpen(s: bytes, spec: ScanSpec, specs: Table, keep: set<string>)
    requires ScanFrom(s, 0, 0, PruneSpec(spec, keep), Prune(specs, keep))
    ensures Decodable(s, spec, specs) <==> DroppedFormed(s, spec, specs, keep) && Unchecked(s, spec, specs)
  {
    hide ScanFrom, Decodable, Unchecked, DroppedFormed, PruneSpec, Prune;
    AcceptedIsWellFormed(s, 0, 0, PruneSpec(spec, keep), Prune(specs, keep));
    DecodableSplits(s, spec, specs);
    if Unchecked(s, spec, specs) { PrunedSplits(s, spec, specs, keep); }
  }

  lemma PrunedEnvelopeLeavesOpen(data: bytes, env: ScanSpec, specs: Table, keep: set<string>)
    requires EnvelopeFrom(data, 0, 0, PruneSpec(env, keep), Prune(specs, keep))
    ensures OneEvent(data, env.singular)
    ensures Decodable(data, env, specs) <==> DroppedFormed(data, env, specs, keep) && Unchecked(data, env, specs)
  {
    hide EnvelopeFrom, ScanFrom, Decodable, Unchecked, DroppedFormed, Prune, RecordsOf;
    if RecordsOf(data).Some? { EnvelopeNamesOne(data, 0, PruneSpec(env, keep), Prune(specs, keep)); }
    EnvelopeIsWellFormed(data, 0, 0, PruneSpec(env, keep), Prune(specs, keep));
    DecodableSplits(data, env, specs);
    if Unchecked(data, env, specs) { PrunedSplits(data, env, specs, keep); }
  }
}
