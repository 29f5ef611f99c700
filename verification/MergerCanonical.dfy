/** The merger's output is canonical, and canonical input is returned untouched. */
module MergerCanonical {
  import opened Options
  import opened Varint
  import opened Tokens
  import opened ScanTable
  import opened Records
  import opened Decoders
  import opened Merger
  import opened MergerSize
  import opened MergerCorrect

  /** No singular message occurs twice and no two records set the oneof. */
  ghost predicate Distinct(xs: seq<Record>, spec: ScanSpec) {
    && (forall i, j :: 0 <= i < j < |xs| && IsSingle(xs[i], spec) && IsSingle(xs[j], spec) ==>
          xs[i].number != xs[j].number)
    && (forall i, j :: 0 <= i < j < |xs| && IsArm(xs[i], spec) ==> !IsArm(xs[j], spec))
  }

  /** Bytes on which replacing and merging cannot differ, at any level descended into. */
  ghost predicate Canonical(data: bytes, spec: ScanSpec, table: Table)
    decreases |data|
  {
    match RecordsOf(data)
    case None => false
    case Some(xs) =>
      && Distinct(xs, spec)
      && forall i :: 0 <= i < |xs| && IsMessage(xs[i], spec) ==>
           match MergeChild(spec, table, xs[i].number)
           case None => true
           case Some(child) => assert xs[i] in xs; Canonical(xs[i].payload, child, table)
  }

  /** One record's payload is canonical, if the table describes it. */
  ghost predicate CanonicalInside(x: Record, spec: ScanSpec, table: Table) {
    IsMessage(x, spec) && MergeChild(spec, table, x.number).Some? ==>
      Canonical(x.payload, MergeChild(spec, table, x.number).value, table)
  }

  lemma CanonicalIs(data: bytes, spec: ScanSpec, table: Table)
    ensures Canonical(data, spec, table) <==>
      && RecordsOf(data).Some? && Distinct(RecordsOf(data).value, spec)
      && forall i :: 0 <= i < |RecordsOf(data).value| ==> CanonicalInside(RecordsOf(data).value[i], spec, table)
  {
  }

  // ---------------------------------------------------------------------------
  // The slots stay indexed whether or not their payloads decode
  // ---------------------------------------------------------------------------

  ghost predicate AllShaped(fields: seq<Option<Slot>>, spec: ScanSpec, table: Table) {
    forall p :: 0 <= p < |fields| && fields[p].Some? ==> Shaped(fields[p].value, spec, table)
  }

  ghost predicate Orderly(st: State, spec: ScanSpec, table: Table) {
    Indexed(st, spec) && AllShaped(st.fields, spec, table)
  }

  lemma DropOrderly(st: State, n: nat, spec: ScanSpec, table: Table)
    requires Orderly(st, spec, table) && (n in spec.singular || n in spec.arms)
    ensures Orderly(Drop(st, n), spec, table)
    ensures Drop(st, n).activeArm == st.activeArm && n !in Drop(st, n).positions
  {
    hide Shaped;
    if n in st.positions {
      DropIndexed(st, n, spec);
    } else {
      assert st.positions - {n} == st.positions;
    }
  }

  lemma SwitchOrderly(st: State, n: nat, spec: ScanSpec, table: Table)
    requires Orderly(st, spec, table) && n in spec.arms
    ensures var st' := SwitchArm(st, n, spec);
      && Orderly(st', spec, table) && st'.activeArm == Some(n)
      && (n !in spec.singular ==> n !in st'.positions)
  {
    hide AllShaped, Indexed, Drop;
    ActiveIsArm(st, spec);
    var st1 := st;
    if st.activeArm.Some? && st.activeArm.value != n {
      DropOrderly(st, st.activeArm.value, spec, table);
      st1 := Drop(st, st.activeArm.value).(changed := true);
    }
    ActivateIndexed(st, st1, n, spec);
    var st2 := st1.(activeArm := Some(n));
    if n !in spec.singular {
      DropOrderly(st2, n, spec, table);
      ChangedIsOnlyAFlag(Drop(st2, n), spec);
    }
  }

  lemma PlaceOrderly(st: State, r: Record, spec: ScanSpec, table: Table)
    requires SoundArms(spec) && Orderly(st, spec, table)
    requires TakeRecord(r.raw) == Some(r)
    requires IsArm(r, spec) ==>
      st.activeArm == Some(r.number) && (r.number !in spec.singular ==> r.number !in st.positions)
    ensures Orderly(Place(st, r, spec, table), spec, table)
  {
    hide TakeRecord;
    var n := r.number;
    if IsSingle(r, spec) && HasPayloads(st, n) {
      var slot := st.fields[st.positions[n]].value;
      JoinIndexed(st, n, slot.(payloads := slot.payloads + [r.payload]), spec);
    } else {
      var slot := Slot(r, if IsMessage(r, spec) then [r.payload] else [], MergeChild(spec, table, n));
      assert IsSingle(r, spec) && n in st.positions ==> Shaped(st.fields[st.positions[n]].value, spec, table);
      AppendIndexed(st, r, slot, spec);
    }
  }

  lemma {:induction false} CollectOrderly(st: State, s: bytes, spec: ScanSpec, table: Table)
    requires SoundArms(spec) && Orderly(st, spec, table)
    requires Collect(st, s, spec, table).Some?
    ensures Orderly(Collect(st, s, spec, table).value, spec, table)
    decreases |s|
  {
    hide Orderly, TakeRecord, Place, SwitchArm, SoundArms;
    if s != [] {
      var r := TakeRecord(s).value;
      OwnRecord(s);
      if IsArm(r, spec) { SwitchOrderly(st, r.number, spec, table); }
      PlaceOrderly(if IsArm(r, spec) then SwitchArm(st, r.number, spec) else st, r, spec, table);
      CollectOrderly(CollectStep(st, r, spec, table), s[|r.raw|..], spec, table);
    }
  }

  // ---------------------------------------------------------------------------
  // What the second loop writes
  // ---------------------------------------------------------------------------

  /** The record a rendered slot reads back as: same field, same kind, canonical inside. */
  ghost predicate RendersAs(slot: Slot, x: Record, spec: ScanSpec, table: Table) {
    && x.number == slot.record.number && x.wireType == slot.record.wireType
    && CanonicalInside(x, spec, table)
  }

  lemma RendersKeyed(slot: Slot, x: Record, spec: ScanSpec, table: Table)
    requires SoundArms(spec) && Shaped(slot, spec, table) && RendersAs(slot, x, spec, table)
    requires IsSingle(x, spec) || IsArm(x, spec)
    ensures KeyedFor(Some(slot), x.number, spec)
  {
    hide TakeRecord, CanonicalInside;
  }

  lemma OneRecord(s: bytes, x: Record)
    requires TakeRecord(s) == Some(x) && x.raw == s
    ensures RecordsOf(s) == Some([x])
  {
    hide TakeRecord;
    RecordsCons(s, x);
    assert s[|x.raw|..] == [];
    assert RecordsOf([]) == Some([]);
    assert [x] + [] == [x];
  }

  lemma {:induction false} RenderSlotCanonical(slot: Slot, spec: ScanSpec, table: Table) returns (x: Record)
    requires SoundArms(spec) && SoundTable(table) && Shaped(slot, spec, table)
    requires |Concat(slot.payloads)| < TWO_32
    requires RenderSlot(slot, table).Some?
    ensures RecordsOf(RenderSlot(slot, table).value.0) == Some([x])
    ensures RendersAs(slot, x, spec, table)
    decreases |Concat(slot.payloads)|, 3
  {
    hide TakeRecord, MergeBytes, Canonical;
    var r := slot.record;
    x := r;
    if slot.payloads == [] {
      OneRecord(r.raw, r);
    } else {
      var combined := Concat(slot.payloads);
      if slot.child.Some? {
        SoundChild(spec, table, r.number);
        MergeIsCanonical(combined, slot.child.value, table);
        MergeNeverLengthens(combined, slot.child.value, table);
      }
      var merged := if slot.child.None? then combined else MergeBytes(combined, slot.child.value, table).value.0;
      var inner := slot.child.Some? && MergeBytes(combined, slot.child.value, table).value.1;
      if |slot.payloads| > 1 || inner {
        var e := EncodeRecord(r.number, merged);
        EncodedRecordReadsBack(r.number, merged, []) by { LenRecordShape(r.raw); }
        assert e + [] == e;
        x := Record(r.number, LEN, merged, e);
        OneRecord(e, x);
      } else {
        assert slot.payloads == [r.payload];
        ConcatOne(r.payload);
        if slot.child.Some? { MergeUnchanged(combined, slot.child.value, table); }
        OneRecord(r.raw, r);
      }
    }
  }

  ghost predicate FromSlot(x: Record, fields: seq<Option<Slot>>, k: nat, spec: ScanSpec, table: Table) {
    exists q :: 0 <= q < k <= |fields| && fields[q].Some? && RendersAs(fields[q].value, x, spec, table)
  }

  /** Every record written comes from one of the first `k` slots. */
  ghost predicate FromSlots(xs: seq<Record>, fields: seq<Option<Slot>>, k: nat, spec: ScanSpec, table: Table) {
    forall x <- xs :: FromSlot(x, fields, k, spec, table)
  }

  /** The next slot's record repeats no earlier singular message and no earlier arm. */
  lemma DistinctSnoc(
    xs: seq<Record>, x: Record, st: State, k: nat, spec: ScanSpec, table: Table)
    requires SoundArms(spec) && Orderly(st, spec, table)
    requires k < |st.fields| && FromSlots(xs, st.fields, k, spec, table) && Distinct(xs, spec)
    requires st.fields[k].Some? && RendersAs(st.fields[k].value, x, spec, table)
    ensures Distinct(xs + [x], spec)
  {
    hide RendersAs, Shaped, IsArm, IsSingle;
    forall i | 0 <= i < |xs|
      ensures IsSingle(xs[i], spec) && IsSingle(x, spec) ==> xs[i].number != x.number
      ensures IsArm(xs[i], spec) ==> !IsArm(x, spec)
    {
      assert FromSlot(xs[i], st.fields, k, spec, table);
      var q :| 0 <= q < k && st.fields[q].Some? && RendersAs(st.fields[q].value, xs[i], spec, table);
      TwoSlotsDiffer(st, q, k, xs[i], x, spec, table);
    }
  }

  lemma TwoSlotsDiffer(st: State, q: nat, k: nat, y: Record, x: Record, spec: ScanSpec, table: Table)
    requires SoundArms(spec) && Orderly(st, spec, table)
    requires q < k < |st.fields| && st.fields[q].Some? && st.fields[k].Some?
    requires RendersAs(st.fields[q].value, y, spec, table) && RendersAs(st.fields[k].value, x, spec, table)
    ensures IsSingle(y, spec) && IsSingle(x, spec) ==> y.number != x.number
    ensures IsArm(y, spec) ==> !IsArm(x, spec)
  {
    hide Shaped, CanonicalInside;
    if (IsSingle(y, spec) && IsSingle(x, spec)) || (IsArm(y, spec) && IsArm(x, spec)) {
      RendersKeyed(st.fields[q].value, y, spec, table);
      RendersKeyed(st.fields[k].value, x, spec, table);
      hide Keyed;
      assert st.positions[y.number] == q && st.positions[x.number] == k;
    }
  }

  lemma {:induction false} RenderCanonical(st: State, k: nat, spec: ScanSpec, table: Table, limit: nat)
    returns (xs: seq<Record>)
    requires SoundArms(spec) && SoundTable(table) && Orderly(st, spec, table)
    requires k <= |st.fields| && Below(st.fields[..k], limit) && limit <= TWO_32
    requires Render(st.fields[..k], table, limit).Some?
    ensures RecordsOf(Render(st.fields[..k], table, limit).value.0) == Some(xs)
    ensures Distinct(xs, spec) && FromSlots(xs, st.fields, k, spec, table)
    decreases limit, 0, k
  {
    hide RenderSlot, Concat, Shaped, RendersAs, Indexed, SoundTable, SoundArms, Distinct, FromSlots, RecordsOf;
    xs := [];
    RenderStart(st, spec, table);
    if k > 0 {
      assert st.fields[..k][..k - 1] == st.fields[..k - 1];
      assert Below(st.fields[..k - 1], limit) by {
        forall f <- st.fields[..k - 1] ensures f in st.fields[..k] {}
      }
      var ys := RenderCanonical(st, k - 1, spec, table, limit);
      xs := ys;
      if st.fields[k - 1].Some? {
        assert st.fields[k - 1] in st.fields[..k];
        var slot := st.fields[k - 1].value;
        var x := RenderSlotCanonical(slot, spec, table);
        var before := Render(st.fields[..k - 1], table, limit).value.0;
        RecordsConcat(before, RenderSlot(slot, table).value.0);
        DistinctSnoc(ys, x, st, k - 1, spec, table);
        FromSlotsSnoc(ys, x, st.fields, k - 1, spec, table);
        xs := ys + [x];
      } else {
        FromSlotsMore(ys, st.fields, k - 1, spec, table);
      }
    }
  }

  lemma RenderStart(st: State, spec: ScanSpec, table: Table)
    ensures RecordsOf([]) == Some([]) && Distinct([], spec) && FromSlots([], st.fields, 0, spec, table)
  {
  }

  lemma FromSlotsMore(xs: seq<Record>, fields: seq<Option<Slot>>, k: nat, spec: ScanSpec, table: Table)
    requires k < |fields| && FromSlots(xs, fields, k, spec, table)
    ensures FromSlots(xs, fields, k + 1, spec, table)
  {
    hide RendersAs;
    forall x <- xs ensures FromSlot(x, fields, k + 1, spec, table) {
      assert FromSlot(x, fields, k, spec, table);
    }
  }

  lemma FromSlotsSnoc(
    xs: seq<Record>, x: Record, fields: seq<Option<Slot>>, k: nat, spec: ScanSpec, table: Table)
    requires k < |fields| && FromSlots(xs, fields, k, spec, table)
    requires fields[k].Some? && RendersAs(fields[k].value, x, spec, table)
    ensures FromSlots(xs + [x], fields, k + 1, spec, table)
  {
    hide RendersAs;
    FromSlotsMore(xs, fields, k, spec, table);
    assert FromSlot(x, fields, k + 1, spec, table);
  }

  lemma FromSlotsInside(xs: seq<Record>, fields: seq<Option<Slot>>, k: nat, spec: ScanSpec, table: Table)
    requires FromSlots(xs, fields, k, spec, table)
    ensures forall i :: 0 <= i < |xs| ==> CanonicalInside(xs[i], spec, table)
  {
    hide CanonicalInside;
    forall i | 0 <= i < |xs| ensures CanonicalInside(xs[i], spec, table) {
      assert FromSlot(xs[i], fields, k, spec, table);
    }
  }

  /** Whatever the merger returns is canonical at every level it describes. */
  lemma {:induction false} MergeIsCanonical(data: bytes, spec: ScanSpec, table: Table)
    requires SoundArms(spec) && SoundTable(table)
    requires |data| < TWO_32
    requires MergeBytes(data, spec, table).Some?
    ensures Canonical(MergeBytes(data, spec, table).value.0, spec, table)
    decreases |data|, 1
  {
    hide Collect, Render, MergeBytes, SoundTable, SoundArms, Distinct, Canonical, CanonicalInside, FromSlots, RecordsOf;
    ReuseIsRebuild(data, spec, table);
    var st := Collect(INITIAL, data, spec, table).value;
    CollectOrderly(INITIAL, data, spec, table);
    assert st.fields[..|st.fields|] == st.fields;
    var xs := RenderCanonical(st, |st.fields|, spec, table, |data|);
    FromSlotsInside(xs, st.fields, |st.fields|, spec, table);
    CanonicalIs(MergeBytes(data, spec, table).value.0, spec, table);
  }

  // ---------------------------------------------------------------------------
  // Canonical input
  // ---------------------------------------------------------------------------

  function FreshSlot(x: Record, spec: ScanSpec, table: Table): Slot {
    Slot(x, if IsMessage(x, spec) then [x.payload] else [], MergeChild(spec, table, x.number))
  }

  /** The records `xs` each have a slot of their own and nothing has been dropped or joined. */
  ghost predicate Untouched(st: State, xs: seq<Record>, spec: ScanSpec, table: Table) {
    && !st.changed
    && |st.fields| == |xs|
    && (forall i :: 0 <= i < |xs| ==> st.fields[i] == Some(FreshSlot(xs[i], spec, table)))
    && Positioned(st.positions, xs, spec)
    && (st.activeArm.Some? ==> exists x <- xs :: IsArm(x, spec))
  }

  /** A record nothing competes with simply gets the next slot. */
  lemma StepFresh(st: State, x: Record, spec: ScanSpec, table: Table)
    requires IsSingle(x, spec) || IsArm(x, spec) ==> x.number !in st.positions
    requires IsArm(x, spec) ==> st.activeArm.None?
    ensures CollectStep(st, x, spec, table) == State(
      st.fields + [Some(FreshSlot(x, spec, table))],
      if IsMessage(x, spec) || IsArm(x, spec) then st.positions[x.number := |st.fields|] else st.positions,
      if IsArm(x, spec) then Some(x.number) else st.activeArm,
      st.changed)
  {
  }

  ghost predicate Positioned(positions: map<nat, nat>, xs: seq<Record>, spec: ScanSpec) {
    forall n :: n in positions ==>
      exists x <- xs :: x.number == n && (IsMessage(x, spec) || IsArm(x, spec))
  }

  lemma PositionedSnoc(positions: map<nat, nat>, xs: seq<Record>, x: Record, k: nat, spec: ScanSpec)
    requires Positioned(positions, xs, spec)
    ensures Positioned(
      if IsMessage(x, spec) || IsArm(x, spec) then positions[x.number := k] else positions, xs + [x], spec)
  {
    hide IsMessage, IsArm;
    var ys := xs + [x];
    var next := if IsMessage(x, spec) || IsArm(x, spec) then positions[x.number := k] else positions;
    assert x in ys;
    forall n | n in next ensures exists y <- ys :: y.number == n && (IsMessage(y, spec) || IsArm(y, spec)) {
      if n in positions {
        var y :| y in xs && y.number == n && (IsMessage(y, spec) || IsArm(y, spec));
        assert y in ys;
      }
    }
  }

  lemma StepUntouched(st: State, xs: seq<Record>, x: Record, spec: ScanSpec, table: Table)
    requires SoundArms(spec) && Untouched(st, xs, spec, table) && Distinct(xs + [x], spec)
    ensures Untouched(CollectStep(st, x, spec, table), xs + [x], spec, table)
  {
    hide CollectStep, Distinct, IsMessage, IsArm, FreshSlot, SoundArms;
    var ys := xs + [x];
    assert forall y <- xs :: y in ys;
    assert x in ys;
    NothingEarlier(xs, x, spec);
    StepFresh(st, x, spec, table);
    PositionedSnoc(st.positions, xs, x, |st.fields|, spec);
  }

  lemma SameFieldClash(y: Record, x: Record, spec: ScanSpec)
    requires SoundArms(spec)
    ensures y.number == x.number && (IsMessage(y, spec) || IsArm(y, spec)) && (IsSingle(x, spec) || IsArm(x, spec))
        ==> (IsSingle(y, spec) && IsSingle(x, spec)) || (IsArm(y, spec) && IsArm(x, spec))
  {
  }

  /** In a distinct list nothing before a keyed record competes with it. */
  lemma NothingEarlier(xs: seq<Record>, x: Record, spec: ScanSpec)
    requires SoundArms(spec) && Distinct(xs + [x], spec)
    ensures IsSingle(x, spec) || IsArm(x, spec) ==>
      forall y <- xs :: !(y.number == x.number && (IsMessage(y, spec) || IsArm(y, spec)))
    ensures IsArm(x, spec) ==> forall y <- xs :: !IsArm(y, spec)
  {
    var ys := xs + [x];
    assert ys[|xs|] == x;
    forall i | 0 <= i < |xs|
      ensures !(IsSingle(xs[i], spec) && IsSingle(x, spec) && xs[i].number == x.number)
      ensures !(IsArm(xs[i], spec) && IsArm(x, spec))
      ensures IsSingle(x, spec) || IsArm(x, spec) ==>
                !(xs[i].number == x.number && (IsMessage(xs[i], spec) || IsArm(xs[i], spec)))
    {
      assert ys[i] == xs[i];
      SameFieldClash(xs[i], x, spec);
    }
  }

  lemma {:induction false} CollectUntouched(
    st: State, s: bytes, xs: seq<Record>, spec: ScanSpec, table: Table)
    requires SoundArms(spec) && Untouched(st, xs, spec, table)
    requires RecordsOf(s).Some? && Distinct(xs + RecordsOf(s).value, spec)
    ensures Collect(st, s, spec, table).Some?
    ensures Untouched(Collect(st, s, spec, table).value, xs + RecordsOf(s).value, spec, table)
    decreases |s|
  {
    hide Untouched, Distinct, TakeRecord, CollectStep, SoundArms;
    if s == [] {
      assert xs + [] == xs;
    } else {
      var x := TakeRecord(s).value;
      var ys := RecordsOf(s[|x.raw|..]).value;
      assert xs + ([x] + ys) == (xs + [x]) + ys;
      DistinctPrefix(xs + [x], ys, spec);
      StepUntouched(st, xs, x, spec, table);
      CollectUntouched(CollectStep(st, x, spec, table), s[|x.raw|..], xs + [x], spec, table);
    }
  }

  lemma DistinctPrefix(xs: seq<Record>, ys: seq<Record>, spec: ScanSpec)
    requires Distinct(xs + ys, spec)
    ensures Distinct(xs, spec)
  {
    hide IsSingle, IsArm;
    var zs := xs + ys;
    assert forall i :: 0 <= i < |xs| ==> zs[i] == xs[i];
  }

  lemma {:induction false} RenderUntouched(
    fields: seq<Option<Slot>>, xs: seq<Record>, spec: ScanSpec, table: Table, limit: nat)
    requires SoundTable(table) && Below(fields, limit) && |fields| == |xs|
    requires forall i :: 0 <= i < |xs| ==>
               fields[i] == Some(FreshSlot(xs[i], spec, table)) && CanonicalInside(xs[i], spec, table)
    ensures Render(fields, table, limit).Some? && !Render(fields, table, limit).value.1
    decreases limit, 0, |fields|
  {
    hide RenderSlot, CanonicalInside, Concat, SoundTable;
    if fields != [] {
      var k := |fields| - 1;
      RenderUntouched(fields[..k], xs[..k], spec, table, limit);
      assert fields[k] in fields;
      SlotUntouched(xs[k], spec, table);
    }
  }

  lemma {:induction false} SlotUntouched(x: Record, spec: ScanSpec, table: Table)
    requires SoundTable(table) && CanonicalInside(x, spec, table)
    ensures RenderSlot(FreshSlot(x, spec, table), table) == Some((x.raw, false))
    decreases |Concat(FreshSlot(x, spec, table).payloads)|, 2
  {
    hide Canonical, MergeBytes;
    if IsMessage(x, spec) {
      ConcatOne(x.payload);
      var child := MergeChild(spec, table, x.number);
      if child.Some? {
        SoundChild(spec, table, x.number);
        CanonicalIsReused(x.payload, child.value, table);
      }
    }
  }

  /** Canonical bytes come back as the same array. */
  lemma {:induction false} CanonicalIsReused(data: bytes, spec: ScanSpec, table: Table)
    requires SoundArms(spec) && SoundTable(table)
    requires Canonical(data, spec, table)
    ensures MergeBytes(data, spec, table) == Some((data, false))
    decreases |data|, 1
  {
    CanonicalIs(data, spec, table);
    hide Collect, Render, SoundTable, SoundArms, CanonicalInside, RecordsOf, Distinct, Canonical;
    var xs := RecordsOf(data).value;
    assert [] + xs == xs;
    CollectUntouched(INITIAL, data, [], spec, table);
    CollectBelow(INITIAL, data, spec, table, 0);
    RenderUntouched(Collect(INITIAL, data, spec, table).value.fields, xs, spec, table, |data|);
  }

  /** A new array is returned exactly for non-canonical input, and merging twice is merging once. */
  lemma MergeIdempotent(data: bytes, spec: ScanSpec, table: Table)
    requires SoundArms(spec) && SoundTable(table)
    requires |data| < TWO_32
    requires MergeBytes(data, spec, table).Some?
    ensures MergeBytes(data, spec, table).value.1 <==> !Canonical(data, spec, table)
    ensures var once := MergeBytes(data, spec, table).value.0;
            MergeBytes(once, spec, table) == Some((once, false))
  {
    hide MergeBytes, Canonical, SoundTable, SoundArms;
    MergeIsCanonical(data, spec, table);
    CanonicalIsReused(MergeBytes(data, spec, table).value.0, spec, table);
    if Canonical(data, spec, table) {
      CanonicalIsReused(data, spec, table);
    } else if !MergeBytes(data, spec, table).value.1 {
      MergeUnchanged(data, spec, table);
    }
  }
}
