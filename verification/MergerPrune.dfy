/** When pruning the scan table leaves the merger's output alone. */
module MergerPrune {
  import opened Options
  import opened Varint
  import opened ScanTable
  import opened ScanPrune
  import opened Records
  import opened Decoders
  import opened Merger
  import opened MergerCorrect
  import opened MergerCanonical
  import opened MergerCases

  /** No google field whose message the table describes. */
  ghost predicate QuietGoogle(spec: ScanSpec, specs: Table) {
    forall n <- spec.google :: spec.google[n] !in specs
  }

  /** `scope` is closed under children, and no dropped message in it has a described google field. */
  ghost predicate Prunable(specs: Table, keep: set<string>, scope: set<string>) {
    && KeepsWorthwhile(specs, keep) && SoundTable(specs)
    && forall name <- scope :: name in specs ==>
         Regular(specs[name], specs, keep, scope) && (name !in keep ==> QuietGoogle(specs[name], specs))
  }

  /** A level with its children in `scope`, its google children kept, and otherwise regular. */
  ghost predicate Regular(spec: ScanSpec, specs: Table, keep: set<string>, scope: set<string>) {
    && SoundArms(spec) && NoGoogleClash(spec)
    && (forall n <- spec.google :: spec.google[n] in specs ==> spec.google[n] in keep && spec.google[n] in scope)
    && (forall n <- spec.descend :: spec.descend[n] in specs ==> spec.descend[n] in scope)
  }

  // ---------------------------------------------------------------------------
  // Dropped messages have nothing to merge
  // ---------------------------------------------------------------------------

  lemma {:induction false} DecodeHasRecords(m: Message, s: bytes, spec: ScanSpec, table: Table)
    requires Decode(Merging, m, s, spec, table).Some?
    ensures RecordsOf(s).Some?
    decreases |s|
  {
    hide TakeRecord, Step, Decode;
    if s != [] {
      var r := DecodeHead(Merging, m, s, spec, table);
      DecodeCons(Merging, m, s, r, spec, table);
      DecodeHasRecords(Step(Merging, m, r, spec, table).value, s[|r.raw|..], spec, table);
    }
  }

  /** Repeated payloads of a decodable message decode on their own. */
  lemma {:induction false} RepeatedPayloadsDecode(m: Message, s: bytes, spec: ScanSpec, table: Table)
    requires spec.singular == {} && spec.arms == {}
    requires Decode(Merging, m, s, spec, table).Some? && RecordsOf(s).Some?
    ensures forall x <- RecordsOf(s).value :: IsMessage(x, spec) && MergeChild(spec, table, x.number).Some? ==>
              Decode(Merging, EMPTY, x.payload, MergeChild(spec, table, x.number).value, table).Some?
    decreases |s|
  {
    hide TakeRecord, Decode;
    if s != [] {
      var r := DecodeHead(Merging, m, s, spec, table);
      DecodeCons(Merging, m, s, r, spec, table);
      RepeatedPayloadsDecode(Step(Merging, m, r, spec, table).value, s[|r.raw|..], spec, table);
    }
  }

  lemma {:induction false} DroppedIsCanonical(
    s: bytes, specs: Table, keep: set<string>, scope: set<string>, name: string)
    requires Prunable(specs, keep, scope) && name in scope && name in specs && name !in keep
    requires Decode(Merging, EMPTY, s, specs[name], specs).Some?
    ensures Canonical(s, specs[name], specs)
    decreases |s|
  {
    hide Decode, KeepsWorthwhile, Canonical, RecordsOf;
    var spec := specs[name];
    DroppedChecksNothing(specs, keep, name);
    DecodeHasRecords(EMPTY, s, spec, specs);
    RepeatedPayloadsDecode(EMPTY, s, spec, specs);
    var xs := RecordsOf(s).value;
    forall i | 0 <= i < |xs| ensures CanonicalInside(xs[i], spec, specs) {
      assert xs[i] in xs;
      if IsMessage(xs[i], spec) && MergeChild(spec, specs, xs[i].number).Some? {
        DroppedIsCanonical(xs[i].payload, specs, keep, scope, spec.descend[xs[i].number]);
      }
    }
    CanonicalIs(s, spec, specs);
  }

  /** So merging one with the full table does nothing. */
  lemma DroppedMergesToItself(s: bytes, specs: Table, keep: set<string>, scope: set<string>, name: string)
    requires Prunable(specs, keep, scope) && name in scope && name in specs && name !in keep
    requires Decode(Merging, EMPTY, s, specs[name], specs).Some?
    ensures MergeBytes(s, specs[name], specs) == Some((s, false))
  {
    hide Decode, Canonical, MergeBytes, KeepsWorthwhile, Regular;
    DroppedIsCanonical(s, specs, keep, scope, name);
    CanonicalIsReused(s, specs[name], specs);
  }

  // ---------------------------------------------------------------------------
  // The two runs of the first loop
  // ---------------------------------------------------------------------------

  /** The same slot in a full and in a pruned run: an unkeyed message may lose its payload list. */
  ghost predicate SlotsAgree(f: Option<Slot>, p: Option<Slot>, spec: ScanSpec, specs: Table, keep: set<string>) {
    if f.None? || p.None? then f.None? && p.None?
    else
      && p.value.record == f.value.record
      && f.value.child == MergeChild(spec, specs, f.value.record.number)
      && p.value.child == MergeChild(PruneSpec(spec, keep), Prune(specs, keep), f.value.record.number)
      && (p.value.payloads == f.value.payloads
          || (p.value.payloads == [] && |f.value.payloads| == 1 && f.value.record.number !in spec.singular
              && f.value.record.number in spec.descend && spec.descend[f.value.record.number] !in keep))
  }

  ghost predicate StatesAgree(f: State, p: State, spec: ScanSpec, specs: Table, keep: set<string>) {
    && |f.fields| == |p.fields| && f.activeArm == p.activeArm && f.changed == p.changed
    && (forall i :: 0 <= i < |f.fields| ==> SlotsAgree(f.fields[i], p.fields[i], spec, specs, keep))
    && (forall n :: n in spec.singular || n in spec.arms ==>
          (n in f.positions <==> n in p.positions) && (n in f.positions ==> f.positions[n] == p.positions[n]))
  }

  lemma DropAgrees(f: State, p: State, n: nat, spec: ScanSpec, specs: Table, keep: set<string>)
    requires StatesAgree(f, p, spec, specs, keep) && (n in spec.singular || n in spec.arms)
    ensures StatesAgree(Drop(f, n), Drop(p, n), spec, specs, keep)
  {
    hide MergeChild;
  }

  lemma SwitchAgrees(f: State, p: State, n: nat, spec: ScanSpec, specs: Table, keep: set<string>)
    requires StatesAgree(f, p, spec, specs, keep) && n in spec.arms
    requires f.activeArm.Some? ==> f.activeArm.value in spec.arms
    ensures StatesAgree(SwitchArm(f, n, spec), SwitchArm(p, n, PruneSpec(spec, keep)), spec, specs, keep)
  {
    hide SlotsAgree, Drop;
    var f1, p1 := f, p;
    if f.activeArm.Some? && f.activeArm.value != n {
      DropAgrees(f, p, f.activeArm.value, spec, specs, keep);
      f1, p1 := Drop(f, f.activeArm.value).(changed := true), Drop(p, p.activeArm.value).(changed := true);
    }
    DropAgrees(f1.(activeArm := Some(n)), p1.(activeArm := Some(n)), n, spec, specs, keep);
  }

  lemma KindsAgree(r: Record, spec: ScanSpec, keep: set<string>)
    requires NoGoogleClash(spec)
    ensures IsArm(r, PruneSpec(spec, keep)) == IsArm(r, spec)
    ensures IsSingle(r, PruneSpec(spec, keep)) == IsSingle(r, spec)
    ensures IsMessage(r, PruneSpec(spec, keep)) ==> IsMessage(r, spec)
    ensures IsMessage(r, spec) && !IsMessage(r, PruneSpec(spec, keep)) ==>
              r.number !in spec.singular && r.number in spec.descend && spec.descend[r.number] !in keep
  {
  }

  /** A field is not both a wire message and a google one. */
  ghost predicate NoGoogleClash(spec: ScanSpec) {
    spec.descend.Keys !! spec.google.Keys
  }

  lemma PlaceAgrees(f: State, p: State, r: Record, spec: ScanSpec, specs: Table, keep: set<string>)
    requires NoGoogleClash(spec) && SoundArms(spec)
    requires StatesAgree(f, p, spec, specs, keep) && Indexed(f, spec)
    ensures StatesAgree(
      Place(f, r, spec, specs), Place(p, r, PruneSpec(spec, keep), Prune(specs, keep)), spec, specs, keep)
  {
    KindsAgree(r, spec, keep);
    var n := r.number;
    if IsSingle(r, spec) && HasPayloads(f, n) {
      JoinAgrees(f, p, n, r.payload, spec, specs, keep);
    } else {
      assert IsSingle(r, spec) ==> !HasPayloads(p, n) by { SameHasPayloads(f, p, n, spec, specs, keep); }
      hide HasPayloads, IsSingle, KeyedFor, Keyed;
      AppendAgrees(f, p, r, spec, specs, keep);
    }
  }

  lemma SameHasPayloads(f: State, p: State, n: nat, spec: ScanSpec, specs: Table, keep: set<string>)
    requires StatesAgree(f, p, spec, specs, keep)
    ensures n in spec.singular && !HasPayloads(f, n) ==> !HasPayloads(p, n)
  {
    hide MergeChild, Prune, PruneSpec;
    assert n in spec.singular && n in f.positions && f.positions[n] < |f.fields| ==>
      SlotsAgree(f.fields[f.positions[n]], p.fields[f.positions[n]], spec, specs, keep);
  }

  lemma JoinAgrees(f: State, p: State, n: nat, payload: bytes, spec: ScanSpec, specs: Table, keep: set<string>)
    requires StatesAgree(f, p, spec, specs, keep) && Indexed(f, spec)
    requires n in spec.singular && HasPayloads(f, n)
    ensures HasPayloads(p, n) && p.positions[n] == f.positions[n]
    ensures var k := f.positions[n];
      var a, b := f.fields[k].value, p.fields[k].value;
      StatesAgree(
        f.(fields := f.fields[k := Some(a.(payloads := a.payloads + [payload]))], changed := true),
        p.(fields := p.fields[k := Some(b.(payloads := b.payloads + [payload]))], changed := true), spec, specs, keep)
  {
    hide MergeChild, Prune, PruneSpec, Keyed;
    assert SlotsAgree(f.fields[f.positions[n]], p.fields[f.positions[n]], spec, specs, keep);
  }

  lemma AppendAgrees(f: State, p: State, r: Record, spec: ScanSpec, specs: Table, keep: set<string>)
    requires NoGoogleClash(spec) && SoundArms(spec) && StatesAgree(f, p, spec, specs, keep)
    ensures var pruned := PruneSpec(spec, keep);
      StatesAgree(
        f.(positions := if IsMessage(r, spec) || IsArm(r, spec) then f.positions[r.number := |f.fields|]
                        else f.positions,
           fields := f.fields + [Some(Slot(r, if IsMessage(r, spec) then [r.payload] else [],
                                           MergeChild(spec, specs, r.number)))]),
        p.(positions := if IsMessage(r, pruned) || IsArm(r, pruned) then p.positions[r.number := |p.fields|]
                        else p.positions,
           fields := p.fields + [Some(Slot(r, if IsMessage(r, pruned) then [r.payload] else [],
                                           MergeChild(pruned, Prune(specs, keep), r.number)))]),
        spec, specs, keep)
  {
    var pruned, n := PruneSpec(spec, keep), r.number;
    var a := Slot(r, if IsMessage(r, spec) then [r.payload] else [], MergeChild(spec, specs, n));
    var b := Slot(r, if IsMessage(r, pruned) then [r.payload] else [], MergeChild(pruned, Prune(specs, keep), n));
    FreshAgrees(r, spec, specs, keep, a, b);
    KindsAgree(r, spec, keep);
    SameMessage(r, spec, keep);
    hide SlotsAgree, IsMessage, IsArm, MergeChild, Prune, PruneSpec, StatesAgree, SoundArms;
    var fp := if IsMessage(r, spec) || IsArm(r, spec) then f.positions[n := |f.fields|] else f.positions;
    var pp := if IsMessage(r, pruned) || IsArm(r, pruned) then p.positions[n := |p.fields|] else p.positions;
    PositionsAgree(f, p, n, IsMessage(r, spec) || IsArm(r, spec), IsMessage(r, pruned) || IsArm(r, pruned), fp, pp,
                   spec, specs, keep);
    SnocAgrees(f, p, Some(a), Some(b), fp, pp, spec, specs, keep);
  }

  lemma FreshAgrees(r: Record, spec: ScanSpec, specs: Table, keep: set<string>, a: Slot, b: Slot)
    requires NoGoogleClash(spec)
    requires a == Slot(r, if IsMessage(r, spec) then [r.payload] else [], MergeChild(spec, specs, r.number))
    requires var pruned := PruneSpec(spec, keep);
      b == Slot(r, if IsMessage(r, pruned) then [r.payload] else [], MergeChild(pruned, Prune(specs, keep), r.number))
    ensures SlotsAgree(Some(a), Some(b), spec, specs, keep)
  {
    KindsAgree(r, spec, keep);
    hide MergeChild, Prune, PruneSpec, IsMessage;
  }

  /** The indexes of singular messages and arms. */
  ghost predicate SameIndex(fp: map<nat, nat>, pp: map<nat, nat>, spec: ScanSpec) {
    forall n :: n in spec.singular || n in spec.arms ==>
      (n in fp <==> n in pp) && (n in fp ==> fp[n] == pp[n])
  }

  lemma PositionsAgree(
    f: State, p: State, n: nat, inF: bool, inP: bool, fp: map<nat, nat>, pp: map<nat, nat>,
    spec: ScanSpec, specs: Table, keep: set<string>)
    requires StatesAgree(f, p, spec, specs, keep) && (n in spec.singular || n in spec.arms ==> inF == inP)
    requires fp == (if inF then f.positions[n := |f.fields|] else f.positions)
    requires pp == (if inP then p.positions[n := |p.fields|] else p.positions)
    ensures SameIndex(fp, pp, spec)
  {
    hide SlotsAgree;
  }

  lemma SnocAgrees(
    f: State, p: State, a: Option<Slot>, b: Option<Slot>, fp: map<nat, nat>, pp: map<nat, nat>,
    spec: ScanSpec, specs: Table, keep: set<string>)
    requires StatesAgree(f, p, spec, specs, keep) && SlotsAgree(a, b, spec, specs, keep) && SameIndex(fp, pp, spec)
    ensures StatesAgree(f.(positions := fp, fields := f.fields + [a]), p.(positions := pp, fields := p.fields + [b]),
                        spec, specs, keep)
  {
    hide SlotsAgree;
  }

  lemma SameMessage(r: Record, spec: ScanSpec, keep: set<string>)
    requires SoundArms(spec)
    ensures r.number in spec.singular || r.number in spec.arms ==>
              (IsMessage(r, spec) <==> IsMessage(r, PruneSpec(spec, keep)))
  {
  }

  lemma {:induction false} CollectAgrees(f: State, p: State, s: bytes, spec: ScanSpec, specs: Table, keep: set<string>)
    requires NoGoogleClash(spec) && SoundArms(spec)
    requires StatesAgree(f, p, spec, specs, keep) && Orderly(f, spec, specs)
    requires Collect(f, s, spec, specs).Some?
    ensures Collect(p, s, PruneSpec(spec, keep), Prune(specs, keep)).Some?
    ensures StatesAgree(
      Collect(f, s, spec, specs).value, Collect(p, s, PruneSpec(spec, keep), Prune(specs, keep)).value,
      spec, specs, keep)
    decreases |s|
  {
    hide TakeRecord, SwitchArm, Place, PruneSpec, Prune, StatesAgree, AllShaped, Indexed, SoundArms, NoGoogleClash;
    if s != [] {
      var pruned, small := PruneSpec(spec, keep), Prune(specs, keep);
      var r := TakeRecord(s).value;
      OwnRecord(s);
      KindsAgree(r, spec, keep);
      var f1, p1 := f, p;
      if IsArm(r, spec) {
        ActiveIsArm(f, spec);
        SwitchAgrees(f, p, r.number, spec, specs, keep);
        SwitchOrderly(f, r.number, spec, specs);
        f1, p1 := SwitchArm(f, r.number, spec), SwitchArm(p, r.number, pruned);
      }
      PlaceAgrees(f1, p1, r, spec, specs, keep);
      PlaceOrderly(f1, r, spec, specs);
      CollectAgrees(CollectStep(f, r, spec, specs), CollectStep(p, r, pruned, small), s[|r.raw|..], spec, specs, keep);
    }
  }

  // ---------------------------------------------------------------------------
  // The second loop
  // ---------------------------------------------------------------------------

  lemma {:induction false} RenderSlotAgrees(
    f: Slot, p: Slot, spec: ScanSpec, specs: Table, keep: set<string>, scope: set<string>)
    requires Prunable(specs, keep, scope) && Regular(spec, specs, keep, scope)
    requires SlotsAgree(Some(f), Some(p), spec, specs, keep) && GoodSlot(f, spec, specs)
    requires |Concat(f.payloads)| < TWO_32
    ensures RenderSlot(f, specs) == RenderSlot(p, Prune(specs, keep))
    decreases |Concat(f.payloads)|, 2
  {
    hide TakeRecord, MergeBytes, Decode, KeepsWorthwhile, QuietGoogle, SoundTable, Prune, Regular;
    if f.child.None? {
      NoChildAgrees(spec, specs, keep, scope, f.record.number);
    } else if f.payloads != [] {
      var name := ChildName(spec, f.record.number).value;
      var combined := Concat(f.payloads);
      ChildAgrees(spec, specs, keep, scope, f.record.number);
      if name in keep {
        PruningKeepsMerge(combined, specs[name], specs, keep, scope);
      } else {
        DroppedMergesToItself(combined, specs, keep, scope, name);
        if p.payloads == [] {
          assert |f.payloads| == 1;
        }
      }
    }
  }

  lemma NoChildAgrees(spec: ScanSpec, specs: Table, keep: set<string>, scope: set<string>, n: nat)
    requires MergeChild(spec, specs, n).None? && Regular(spec, specs, keep, scope)
    ensures MergeChild(PruneSpec(spec, keep), Prune(specs, keep), n).None?
  {
  }

  lemma ChildAgrees(spec: ScanSpec, specs: Table, keep: set<string>, scope: set<string>, n: nat)
    requires MergeChild(spec, specs, n).Some? && Regular(spec, specs, keep, scope)
    ensures var name := ChildName(spec, n).value;
      && name in specs && name in scope && MergeChild(spec, specs, n) == Some(specs[name])
      && (name in keep ==>
            MergeChild(PruneSpec(spec, keep), Prune(specs, keep), n) == Some(PruneSpec(specs[name], keep)))
      && (name !in keep ==> n in spec.descend && MergeChild(PruneSpec(spec, keep), Prune(specs, keep), n).None?)
  {
  }

  lemma {:induction false} RenderAgrees(
    f: seq<Option<Slot>>, p: seq<Option<Slot>>, spec: ScanSpec, specs: Table, keep: set<string>, scope: set<string>,
    limit: nat)
    requires Prunable(specs, keep, scope) && Regular(spec, specs, keep, scope)
    requires |f| == |p| && GoodSlots(f, spec, specs)
    requires forall i :: 0 <= i < |f| ==> SlotsAgree(f[i], p[i], spec, specs, keep)
    requires Below(f, limit) && Below(p, limit) && limit <= TWO_32
    ensures Render(f, specs, limit) == Render(p, Prune(specs, keep), limit)
    decreases limit, 0, |f|
  {
    hide SlotsAgree, GoodSlot, RenderSlot, Concat, Prunable, Regular, Prune;
    if f != [] {
      var k := |f| - 1;
      RenderAgrees(f[..k], p[..k], spec, specs, keep, scope, limit);
      SlotsAgreeSome(f[k], p[k], spec, specs, keep);
      if f[k].Some? {
        assert f[k] in f;
        RenderSlotAgrees(f[k].value, p[k].value, spec, specs, keep, scope);
      }
    }
  }

  lemma SlotsAgreeSome(f: Option<Slot>, p: Option<Slot>, spec: ScanSpec, specs: Table, keep: set<string>)
    requires SlotsAgree(f, p, spec, specs, keep)
    ensures f.Some? == p.Some?
  {
  }

  /**
    Over a scope with no described google field in a dropped message, merging with the pruned
    table returns the same bytes as merging with the full one, for every decodable input.
   */
  lemma {:induction false} PruningKeepsMerge(
    data: bytes, spec: ScanSpec, specs: Table, keep: set<string>, scope: set<string>)
    requires Prunable(specs, keep, scope) && Regular(spec, specs, keep, scope)
    requires |data| < TWO_32
    requires Decode(Merging, EMPTY, data, spec, specs).Some?
    ensures MergeBytes(data, spec, specs) == MergeBytes(data, PruneSpec(spec, keep), Prune(specs, keep))
    decreases |data|, 1
  {
    hide Decode, Collect, Render, Denote, GoodSlot, PruneSpec, Prune, SlotsAgree, Prunable;
    assert Denote([], spec, specs) == EMPTY by { DenoteEmpty(spec, specs); }
    CollectKeeps(INITIAL, data, spec, specs);
    CollectAgrees(INITIAL, INITIAL, data, spec, specs, keep);
    var f := Collect(INITIAL, data, spec, specs).value;
    var p := Collect(INITIAL, data, PruneSpec(spec, keep), Prune(specs, keep)).value;
    CollectBelow(INITIAL, data, spec, specs, 0);
    CollectBelow(INITIAL, data, PruneSpec(spec, keep), Prune(specs, keep), 0);
    RenderAgrees(f.fields, p.fields, spec, specs, keep, scope, |data|);
  }

  // ---------------------------------------------------------------------------
  // The shipped table
  // ---------------------------------------------------------------------------

  const GOOGLE_NAMES: set<string> := {
    "google.protobuf.Struct", "google.protobuf.Struct.FieldsEntry", "google.protobuf.Value", "google.protobuf.ListValue"
  }

  /** What the generator builds never names a google message among its own. */
  ghost predicate Generated(specs: Table) {
    && specs.Keys !! GOOGLE_NAMES
    && forall name <- specs :: specs[name].descend.Values !! GOOGLE_NAMES
  }

  /** Pruning before the google specs are added is pruning the whole table and keeping them. */
  lemma GoogleSurvivesPruning(specs: Table, keep: set<string>)
    requires Generated(specs)
    ensures Prune(WithGoogle(specs), keep + GOOGLE_NAMES) == WithGoogle(Prune(specs, keep))
  {
    var a, b := Prune(WithGoogle(specs), keep + GOOGLE_NAMES), WithGoogle(Prune(specs, keep));
    assert a.Keys == b.Keys;
    forall name | name in a.Keys ensures a[name] == b[name] {
      if name in GOOGLE_NAMES {
        GoogleSpecSurvives(name, specs, keep);
      } else {
        assert a[name] == PruneSpec(specs[name], keep + GOOGLE_NAMES) && b[name] == PruneSpec(specs[name], keep);
        SpecIgnoresGoogle(specs[name], keep);
      }
    }
  }

  lemma SpecIgnoresGoogle(spec: ScanSpec, keep: set<string>)
    requires spec.descend.Values !! GOOGLE_NAMES
    ensures PruneSpec(spec, keep + GOOGLE_NAMES) == PruneSpec(spec, keep)
  {
    forall n <- spec.descend ensures spec.descend[n] !in GOOGLE_NAMES {
      assert spec.descend[n] in spec.descend.Values;
    }
    assert PruneSpec(spec, keep + GOOGLE_NAMES).descend == PruneSpec(spec, keep).descend;
  }

  lemma GoogleSpecSurvives(name: string, specs: Table, keep: set<string>)
    requires name in GOOGLE_NAMES
    ensures PruneSpec(WithGoogle(specs)[name], keep + GOOGLE_NAMES) == WithGoogle(Prune(specs, keep))[name]
  {
    var spec := WithGoogle(specs)[name];
    assert forall n <- spec.descend :: spec.descend[n] in GOOGLE_NAMES;
    assert PruneSpec(spec, keep + GOOGLE_NAMES).descend == spec.descend;
  }

  lemma GoogleIsWorthwhile(specs: Table, name: string)
    requires name in GOOGLE_NAMES
    ensures Worthwhile(WithGoogle(specs), name)
  {
    var all := WithGoogle(specs);
    ChecksIsWorthwhile(all, "google.protobuf.Value");
    ChecksIsWorthwhile(all, "google.protobuf.Struct.FieldsEntry");
    assert GOOGLE_STRUCT.descend[1] in GOOGLE_STRUCT.descend.Values;
    assert GOOGLE_LIST_VALUE.descend[1] in GOOGLE_LIST_VALUE.descend.Values;
    WorthwhileByChild(all, "google.protobuf.Struct", "google.protobuf.Struct.FieldsEntry");
    WorthwhileByChild(all, "google.protobuf.ListValue", "google.protobuf.Value");
  }

  lemma GoogleAddsNoPaths(specs: Table, path: seq<string>)
    requires Generated(specs) && path != [] && path[0] !in GOOGLE_NAMES
    ensures LeadsToCheck(WithGoogle(specs), path) <==> LeadsToCheck(specs, path)
  {
    var all := WithGoogle(specs);
    assert forall name <- specs :: all[name] == specs[name];
    if LeadsToCheck(all, path) {
      for i := 0 to |path| - 1
        invariant forall j :: 0 <= j <= i ==> path[j] in specs
      {
        assert path[i + 1] in specs[path[i]].descend.Values;
      }
    }
  }

  lemma KeepsWorthwhileWithGoogle(specs: Table, keep: set<string>)
    requires Generated(specs) && KeepsWorthwhile(specs, keep)
    ensures KeepsWorthwhile(WithGoogle(specs), keep + GOOGLE_NAMES)
  {
    hide LeadsToCheck, WithGoogle, Generated;
    var all := WithGoogle(specs);
    forall name ensures name in keep + GOOGLE_NAMES <==> Worthwhile(all, name) {
      if name in GOOGLE_NAMES {
        GoogleIsWorthwhile(specs, name);
      } else {
        assert Worthwhile(all, name) <==> Worthwhile(specs, name) by { SameWorth(specs, name); }
      }
    }
  }

  lemma SameWorth(specs: Table, name: string)
    requires Generated(specs) && name !in GOOGLE_NAMES
    ensures Worthwhile(WithGoogle(specs), name) <==> Worthwhile(specs, name)
  {
    hide WithGoogle, Generated;
    forall path: seq<string> | path != [] && path[0] == name
      ensures LeadsToCheck(WithGoogle(specs), path) <==> LeadsToCheck(specs, path)
    {
      GoogleAddsNoPaths(specs, path);
    }
  }
}
