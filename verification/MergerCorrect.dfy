/** The merger preserves meaning: replacing after merging is merging. */
module MergerCorrect {
  import opened Options
  import opened Varint
  import opened Tokens
  import opened ScanTable
  import opened Records
  import opened Decoders
  import opened Merger
  import opened MergerSize

  // ---------------------------------------------------------------------------
  // What the slots stand for
  // ---------------------------------------------------------------------------

  ghost function Combined(slot: Slot, table: Table): Option<Value> {
    DecodeValue(Merging, None, Concat(slot.payloads), slot.child, table)
  }

  ghost function SlotValue(slot: Slot, table: Table): Value {
    if slot.payloads == [] then Scalar(slot.record.raw)
    else if Combined(slot, table).Some? then Combined(slot, table).value
    else Leaf([])
  }

  /** The slot fills the `one` entry of its field. */
  predicate Keyed(slot: Slot, spec: ScanSpec) {
    if slot.payloads == [] then IsArm(slot.record, spec) else slot.record.number in spec.singular
  }

  predicate KeyedFor(f: Option<Slot>, n: nat, spec: ScanSpec) {
    f.Some? && f.value.record.number == n && Keyed(f.value, spec)
  }

  ghost function Apply(m: Message, f: Option<Slot>, spec: ScanSpec, table: Table): Message {
    match f
    case None => m
    case Some(slot) =>
      var n := slot.record.number;
      if Keyed(slot, spec) then Put(m, n, SlotValue(slot, table))
      else if slot.payloads != [] then Append(m, n, SlotValue(slot, table))
      else m.(rest := m.rest + [slot.record.raw])
  }

  /** The message a list of slots stands for. */
  ghost function Denote(fields: seq<Option<Slot>>, spec: ScanSpec, table: Table): Message {
    if fields == [] then EMPTY
    else Apply(Denote(fields[..|fields| - 1], spec, table), fields[|fields| - 1], spec, table)
  }

  function Remove(m: Message, n: nat): Message {
    m.(one := m.one - {n})
  }

  /** `p` is the only place a slot for field `n` can be. */
  ghost predicate OnlyAt(fields: seq<Option<Slot>>, n: nat, p: int, spec: ScanSpec) {
    forall q :: 0 <= q < |fields| && KeyedFor(fields[q], n, spec) ==> q == p
  }

  lemma DenoteSnoc(fields: seq<Option<Slot>>, f: Option<Slot>, spec: ScanSpec, table: Table)
    ensures Denote(fields + [f], spec, table) == Apply(Denote(fields, spec, table), f, spec, table)
  {
    assert (fields + [f])[..|fields|] == fields;
  }

  lemma {:induction false} DenoteAbsent(fields: seq<Option<Slot>>, n: nat, spec: ScanSpec, table: Table)
    requires OnlyAt(fields, n, -1, spec)
    ensures n !in Denote(fields, spec, table).one
  {
    if fields != [] {
      var k := |fields| - 1;
      assert !KeyedFor(fields[k], n, spec);
      assert OnlyAt(fields[..k], n, -1, spec);
      DenoteAbsent(fields[..k], n, spec, table);
    }
  }

  lemma ApplyRemove(m: Message, f: Option<Slot>, n: nat, spec: ScanSpec, table: Table)
    requires !KeyedFor(f, n, spec)
    ensures Apply(Remove(m, n), f, spec, table) == Remove(Apply(m, f, spec, table), n)
  {
    hide SlotValue;
    assert Apply(Remove(m, n), f, spec, table).one == Remove(Apply(m, f, spec, table), n).one;
  }

  lemma ApplyPut(m: Message, f: Option<Slot>, n: nat, v: Value, spec: ScanSpec, table: Table)
    requires !KeyedFor(f, n, spec)
    ensures Apply(Put(m, n, v), f, spec, table) == Put(Apply(m, f, spec, table), n, v)
  {
    hide SlotValue;
    assert Apply(Put(m, n, v), f, spec, table).one == Put(Apply(m, f, spec, table), n, v).one;
  }

  lemma SetSplit(fields: seq<Option<Slot>>, p: nat, f: Option<Slot>)
    requires p < |fields|
    ensures var k := |fields| - 1;
      fields[p := f] == if p == k then fields[..k] + [f] else fields[..k][p := f] + [fields[k]]
  {
  }

  lemma OnlyAtPrefix(fields: seq<Option<Slot>>, n: nat, p: nat, spec: ScanSpec)
    requires p < |fields| && OnlyAt(fields, n, p, spec)
    ensures var k := |fields| - 1;
      if p == k then OnlyAt(fields[..k], n, -1, spec)
      else OnlyAt(fields[..k], n, p, spec) && !KeyedFor(fields[k], n, spec)
  {
  }

  /** Clearing the only slot of a field forgets that field and nothing else. */
  lemma {:induction false} DenoteClear(fields: seq<Option<Slot>>, n: nat, p: nat, spec: ScanSpec, table: Table)
    requires p < |fields| && OnlyAt(fields, n, p, spec) && KeyedFor(fields[p], n, spec)
    ensures Denote(fields[p := None], spec, table) == Remove(Denote(fields, spec, table), n)
  {
    hide OnlyAt, Keyed, SlotValue;
    var k := |fields| - 1;
    var before := Denote(fields[..k], spec, table);
    SetSplit(fields, p, None);
    OnlyAtPrefix(fields, n, p, spec);
    if p == k {
      DenoteSnoc(fields[..k], None, spec, table);
      DenoteAbsent(fields[..k], n, spec, table);
      assert Remove(before, n).one == before.one;
      assert Remove(Put(before, n, SlotValue(fields[k].value, table)), n).one == before.one;
    } else {
      DenoteClear(fields[..k], n, p, spec, table);
      DenoteSnoc(fields[..k][p := None], fields[k], spec, table);
      ApplyRemove(before, fields[k], n, spec, table);
    }
  }

  /** Refilling the only slot of a field changes that field's value and nothing else. */
  lemma {:induction false} DenoteRefill(
    fields: seq<Option<Slot>>, n: nat, p: nat, slot: Slot, spec: ScanSpec, table: Table)
    requires p < |fields| && OnlyAt(fields, n, p, spec) && KeyedFor(fields[p], n, spec)
    requires KeyedFor(Some(slot), n, spec)
    ensures Denote(fields[p := Some(slot)], spec, table) == Put(Denote(fields, spec, table), n, SlotValue(slot, table))
    ensures n in Denote(fields, spec, table).one
         && Denote(fields, spec, table).one[n] == SlotValue(fields[p].value, table)
  {
    hide OnlyAt, Keyed, SlotValue;
    var k := |fields| - 1;
    var before := Denote(fields[..k], spec, table);
    var v := SlotValue(slot, table);
    SetSplit(fields, p, Some(slot));
    OnlyAtPrefix(fields, n, p, spec);
    if p == k {
      DenoteSnoc(fields[..k], Some(slot), spec, table);
      assert Put(Put(before, n, SlotValue(fields[k].value, table)), n, v).one == Put(before, n, v).one;
    } else {
      DenoteRefill(fields[..k], n, p, slot, spec, table);
      DenoteSnoc(fields[..k][p := Some(slot)], fields[k], spec, table);
      ApplyPut(before, fields[k], n, v, spec, table);
    }
  }

  // ---------------------------------------------------------------------------
  // The first loop keeps the slots standing for the merged message
  // ---------------------------------------------------------------------------

  /** A slot holds a readable record of this level. */
  ghost predicate Shaped(slot: Slot, spec: ScanSpec, table: Table) {
    && TakeRecord(slot.record.raw) == Some(slot.record)
    && (slot.payloads != [] <==> IsMessage(slot.record, spec))
    && (slot.payloads != [] ==> slot.payloads[0] == slot.record.payload)
    && slot.child == MergeChild(spec, table, slot.record.number)
  }

  /** And its payloads decode together. */
  ghost predicate GoodSlot(slot: Slot, spec: ScanSpec, table: Table) {
    Shaped(slot, spec, table) && (slot.payloads != [] ==> Combined(slot, table).Some?)
  }

  ghost predicate GoodSlots(fields: seq<Option<Slot>>, spec: ScanSpec, table: Table) {
    forall p :: 0 <= p < |fields| && fields[p].Some? ==> GoodSlot(fields[p].value, spec, table)
  }

  /** `positions` finds exactly the keyed slots, and the only arm kept is the active one. */
  ghost predicate Indexed(st: State, spec: ScanSpec) {
    && (forall n :: n in st.positions && (n in spec.singular || n in spec.arms) ==>
          st.positions[n] < |st.fields| && KeyedFor(st.fields[st.positions[n]], n, spec))
    && (forall p :: 0 <= p < |st.fields| && st.fields[p].Some? && Keyed(st.fields[p].value, spec) ==>
          st.fields[p].value.record.number in st.positions && st.positions[st.fields[p].value.record.number] == p)
    && (forall n :: n in st.positions && n in spec.arms ==> st.activeArm == Some(n))
    && (st.activeArm.Some? ==> st.activeArm.value in spec.arms)
  }

  lemma IndexedOnly(st: State, n: nat, spec: ScanSpec)
    requires Indexed(st, spec)
    ensures OnlyAt(st.fields, n, if n in st.positions then st.positions[n] else -1, spec)
  {
  }

  lemma KeyedNumber(slot: Slot, spec: ScanSpec)
    requires Keyed(slot, spec)
    ensures slot.record.number in spec.singular || slot.record.number in spec.arms
  {
  }

  lemma DropKeeps(st: State, n: nat, spec: ScanSpec, table: Table)
    requires Indexed(st, spec) && GoodSlots(st.fields, spec, table)
    requires n in spec.singular || n in spec.arms
    ensures Indexed(Drop(st, n), spec) && GoodSlots(Drop(st, n).fields, spec, table)
    ensures Denote(Drop(st, n).fields, spec, table) == Remove(Denote(st.fields, spec, table), n)
    ensures Drop(st, n).activeArm == st.activeArm && n !in Drop(st, n).positions
  {
    hide Denote, GoodSlot;
    IndexedOnly(st, n, spec);
    var m := Denote(st.fields, spec, table);
    if n in st.positions {
      DropIndexed(st, n, spec);
      DenoteClear(st.fields, n, st.positions[n], spec, table);
    } else {
      assert st.positions - {n} == st.positions;
      DenoteAbsent(st.fields, n, spec, table);
      assert Remove(m, n).one == m.one;
    }
  }

  lemma DropIndexed(st: State, n: nat, spec: ScanSpec)
    requires Indexed(st, spec) && n in st.positions
    requires n in spec.singular || n in spec.arms
    ensures Indexed(Drop(st, n), spec)
  {
    hide Keyed;
    var st' := Drop(st, n);
    forall k | k in st'.positions && (k in spec.singular || k in spec.arms)
      ensures st'.positions[k] < |st'.fields| && KeyedFor(st'.fields[st'.positions[k]], k, spec)
    {
      assert k in st.positions && k != n;
      assert st.positions[k] != st.positions[n];
    }
  }

  ghost function Cleared(m: Message, n: nat, spec: ScanSpec): Message {
    var c := ClearOthers(m, spec.arms, n);
    if n in spec.singular then c else Remove(c, n)
  }

  /** Only the active arm can be present, so dropping it is the oneof rule's clearing of all others. */
  lemma ArmsPresent(st: State, spec: ScanSpec, table: Table)
    requires Indexed(st, spec)
    ensures forall a :: a in Denote(st.fields, spec, table).one && a in spec.arms ==> st.activeArm == Some(a)
  {
    hide Denote;
    forall a | a in Denote(st.fields, spec, table).one && a in spec.arms ensures st.activeArm == Some(a) {
      IndexedOnly(st, a, spec);
      if a !in st.positions { DenoteAbsent(st.fields, a, spec, table); }
    }
  }

  lemma SwitchKeeps(st: State, n: nat, spec: ScanSpec, table: Table)
    requires Indexed(st, spec) && GoodSlots(st.fields, spec, table)
    requires n in spec.arms
    ensures var st' := SwitchArm(st, n, spec);
      && Indexed(st', spec) && GoodSlots(st'.fields, spec, table) && st'.activeArm == Some(n)
      && Denote(st'.fields, spec, table) == Cleared(Denote(st.fields, spec, table), n, spec)
      && (n !in spec.singular ==> n !in st'.positions)
  {
    hide Denote, GoodSlots, Indexed, Drop;
    var m := Denote(st.fields, spec, table);
    assert st.activeArm.Some? ==> st.activeArm.value in spec.arms by { ActiveIsArm(st, spec); }
    ArmsPresent(st, spec, table);
    var st1 := st;
    if st.activeArm.Some? && st.activeArm.value != n {
      DropKeeps(st, st.activeArm.value, spec, table);
      st1 := Drop(st, st.activeArm.value).(changed := true);
    }
    var m1 := Denote(st1.fields, spec, table);
    assert m1.one == ClearOthers(m, spec.arms, n).one;
    var st2 := st1.(activeArm := Some(n));
    ActivateIndexed(st, st1, n, spec);
    if n !in spec.singular {
      DropKeeps(st2, n, spec, table);
      if n !in st2.positions {
        IndexedOnly(st2, n, spec);
        DenoteAbsent(st2.fields, n, spec, table);
        assert Remove(m1, n).one == m1.one;
      }
      else { ChangedIsOnlyAFlag(Drop(st2, n), spec); }
    }
  }

  lemma ActiveIsArm(st: State, spec: ScanSpec)
    requires Indexed(st, spec)
    ensures st.activeArm.Some? ==> st.activeArm.value in spec.arms
  {
  }

  lemma ChangedIsOnlyAFlag(st: State, spec: ScanSpec)
    ensures Indexed(st.(changed := true), spec) == Indexed(st, spec)
  {
  }

  lemma ActivateIndexed(st: State, st1: State, n: nat, spec: ScanSpec)
    requires Indexed(st, spec) && n in spec.arms
    requires st1 == if st.activeArm.Some? && st.activeArm.value != n
                    then Drop(st, st.activeArm.value).(changed := true) else st
    ensures Indexed(st1.(activeArm := Some(n)), spec)
  {
    hide Keyed;
    if st.activeArm.Some? && st.activeArm.value != n {
      var a := st.activeArm.value;
      if a in st.positions {
        DropIndexed(st, a, spec);
      } else {
        assert st.positions - {a} == st.positions;
      }
      assert forall k :: k in st1.positions && k in spec.arms ==> k in st.positions && k != a;
    }
  }

  lemma AppendIndexed(st: State, r: Record, slot: Slot, spec: ScanSpec)
    requires Indexed(st, spec) && slot.record == r
    requires Keyed(slot, spec) <==>
             (IsMessage(r, spec) || IsArm(r, spec)) && (r.number in spec.singular || r.number in spec.arms)
    requires Keyed(slot, spec) ==> r.number !in st.positions
    requires Keyed(slot, spec) && r.number in spec.arms ==> st.activeArm == Some(r.number)
    ensures Indexed(
      st.(positions := if IsMessage(r, spec) || IsArm(r, spec) then st.positions[r.number := |st.fields|]
                       else st.positions,
          fields := st.fields + [Some(slot)]), spec)
  {
    if Keyed(slot, spec) { KeyedNumber(slot, spec); }
    hide Keyed;
    var n := r.number;
    var fields := st.fields + [Some(slot)];
    var positions := if IsMessage(r, spec) || IsArm(r, spec) then st.positions[n := |st.fields|] else st.positions;
    forall k | k in positions && (k in spec.singular || k in spec.arms)
      ensures positions[k] < |fields| && KeyedFor(fields[positions[k]], k, spec)
    {
      if k in st.positions && positions[k] == st.positions[k] {
        assert fields[st.positions[k]] == st.fields[st.positions[k]];
      }
    }
    forall p | 0 <= p < |fields| && fields[p].Some? && Keyed(fields[p].value, spec)
      ensures fields[p].value.record.number in positions && positions[fields[p].value.record.number] == p
    {
      if p < |st.fields| {
        assert fields[p] == st.fields[p];
        KeyedNumber(fields[p].value, spec);
      }
    }
  }

  /** A record with no slot to join gets its own, and the slots then stand for one step more. */
  lemma AppendKeeps(st: State, r: Record, spec: ScanSpec, table: Table)
    requires SoundArms(spec) && Indexed(st, spec) && GoodSlots(st.fields, spec, table)
    requires TakeRecord(r.raw) == Some(r)
    requires IsArm(r, spec) ==> st.activeArm == Some(r.number)
    requires IsArm(r, spec) || IsSingle(r, spec) ==> r.number !in st.positions
    requires IsMessage(r, spec) ==>
      DecodeValue(Merging, None, r.payload, MergeChild(spec, table, r.number), table).Some?
    ensures var slot := Slot(r, if IsMessage(r, spec) then [r.payload] else [], MergeChild(spec, table, r.number));
      var st' := st.(
        positions := if IsMessage(r, spec) || IsArm(r, spec) then st.positions[r.number := |st.fields|]
                     else st.positions,
        fields := st.fields + [Some(slot)]);
      && Indexed(st', spec) && GoodSlots(st'.fields, spec, table)
      && GoodSlot(slot, spec, table)
      && Denote(st'.fields, spec, table) == Apply(Denote(st.fields, spec, table), Some(slot), spec, table)
  {
    hide Denote, Apply, TakeRecord, DecodeValue;
    var slot := Slot(r, if IsMessage(r, spec) then [r.payload] else [], MergeChild(spec, table, r.number));
    ConcatOne(r.payload);
    assert GoodSlot(slot, spec, table);
    AppendIndexed(st, r, slot, spec);
    DenoteSnoc(st.fields, Some(slot), spec, table);
  }

  ghost predicate Invariant(st: State, spec: ScanSpec, table: Table) {
    Indexed(st, spec) && GoodSlots(st.fields, spec, table)
  }

  /** A further occurrence of a singular message joins its slot. */
  lemma JoinKeeps(st: State, r: Record, spec: ScanSpec, table: Table)
    requires Invariant(st, spec, table)
    requires IsSingle(r, spec) && HasPayloads(st, r.number)
    requires var m := Denote(st.fields, spec, table);
      r.number in m.one ==>
        DecodeValue(Merging, Some(m.one[r.number]), r.payload, MergeChild(spec, table, r.number), table).Some?
    ensures var n, m, st' := r.number, Denote(st.fields, spec, table), Place(st, r, spec, table);
      && Invariant(st', spec, table)
      && n in m.one
      && Denote(st'.fields, spec, table) ==
           Put(m, n, DecodeValue(Merging, Some(m.one[n]), r.payload, MergeChild(spec, table, n), table).value)
  {
    hide Denote, TakeRecord, DecodeValue, Concat;
    var n, p := r.number, st.positions[r.number];
    var slot := st.fields[p].value;
    var slot' := slot.(payloads := slot.payloads + [r.payload]);
    IndexedOnly(st, n, spec);
    DenoteRefill(st.fields, n, p, slot', spec, table);
    ConcatSnoc(slot.payloads, r.payload);
    MergeLaw(None, Concat(slot.payloads), r.payload, slot.child, table);
    assert GoodSlot(slot', spec, table);
    JoinIndexed(st, n, slot', spec);
  }

  lemma JoinIndexed(st: State, n: nat, slot: Slot, spec: ScanSpec)
    requires Indexed(st, spec) && n in spec.singular && n in st.positions
    requires KeyedFor(Some(slot), n, spec)
    ensures Indexed(st.(fields := st.fields[st.positions[n] := Some(slot)], changed := true), spec)
  {
    hide Keyed;
  }

  /** If a singular message has no slot to join, the message it would merge into is absent. */
  lemma NoSlotNoValue(st: State, r: Record, spec: ScanSpec, table: Table)
    requires SoundArms(spec) && Invariant(st, spec, table)
    requires IsSingle(r, spec) && !HasPayloads(st, r.number)
    ensures r.number !in st.positions && r.number !in Denote(st.fields, spec, table).one
  {
    hide Denote, TakeRecord, Combined;
    var n := r.number;
    assert n in st.positions ==> GoodSlot(st.fields[st.positions[n]].value, spec, table);
    IndexedOnly(st, n, spec);
    DenoteAbsent(st.fields, n, spec, table);
  }

  /** Placing a singular message merges it into the value its field has. */
  lemma PlaceSingleKeeps(st: State, r: Record, spec: ScanSpec, table: Table)
    requires SoundArms(spec) && Invariant(st, spec, table) && TakeRecord(r.raw) == Some(r) && IsSingle(r, spec)
    requires IsArm(r, spec) ==> st.activeArm == Some(r.number)
    requires MergedInto(Denote(st.fields, spec, table), r, spec, table).Some?
    ensures Invariant(Place(st, r, spec, table), spec, table)
    ensures Some(Denote(Place(st, r, spec, table).fields, spec, table))
         == MergedInto(Denote(st.fields, spec, table), r, spec, table)
  {
    hide Denote, TakeRecord, DecodeValue, Indexed, GoodSlots, HasPayloads;
    if HasPayloads(st, r.number) {
      JoinKeeps(st, r, spec, table);
    } else {
      NoSlotNoValue(st, r, spec, table);
      AppendKeeps(st, r, spec, table);
      ConcatOne(r.payload);
    }
  }

  /** The message with a singular message's payload parsed into what is there. */
  ghost function MergedInto(m: Message, r: Record, spec: ScanSpec, table: Table): Option<Message> {
    var base := if r.number in m.one then Some(m.one[r.number]) else None;
    var v :- DecodeValue(Merging, base, r.payload, MergeChild(spec, table, r.number), table);
    Some(Put(m, r.number, v))
  }

  /** Placing anything else appends its effect. */
  lemma PlaceOtherKeeps(st: State, r: Record, spec: ScanSpec, table: Table)
    requires SoundArms(spec) && Invariant(st, spec, table) && TakeRecord(r.raw) == Some(r) && !IsSingle(r, spec)
    requires IsArm(r, spec) ==> st.activeArm == Some(r.number) && r.number !in st.positions
    requires IsMessage(r, spec) ==>
      DecodeValue(Merging, None, r.payload, MergeChild(spec, table, r.number), table).Some?
    ensures Invariant(Place(st, r, spec, table), spec, table)
    ensures var m := Denote(st.fields, spec, table);
      var child := MergeChild(spec, table, r.number);
      Denote(Place(st, r, spec, table).fields, spec, table) ==
        if IsArm(r, spec) then Put(m, r.number, Scalar(r.raw))
        else if IsMessage(r, spec) then
          Append(m, r.number, DecodeValue(Merging, None, r.payload, child, table).value)
        else m.(rest := m.rest + [r.raw])
  {
    hide Denote, TakeRecord, DecodeValue, Indexed, GoodSlots, HasPayloads;
    AppendKeeps(st, r, spec, table);
    ConcatOne(r.payload);
  }

  /** One iteration of the first loop is one step of the merging decoder. */
  lemma CollectStepKeeps(st: State, r: Record, spec: ScanSpec, table: Table)
    requires SoundArms(spec) && Invariant(st, spec, table)
    requires TakeRecord(r.raw) == Some(r)
    requires Step(Merging, Denote(st.fields, spec, table), r, spec, table).Some?
    ensures var st' := CollectStep(st, r, spec, table);
      && Invariant(st', spec, table)
      && Some(Denote(st'.fields, spec, table)) == Step(Merging, Denote(st.fields, spec, table), r, spec, table)
  {
    hide Denote, TakeRecord, DecodeValue, Indexed, GoodSlots, SwitchArm, Place;
    var n, m := r.number, Denote(st.fields, spec, table);
    var st1 := if IsArm(r, spec) then SwitchArm(st, n, spec) else st;
    if IsArm(r, spec) { SwitchKeeps(st, n, spec, table); }
    if IsSingle(r, spec) {
      PlaceSingleKeeps(st1, r, spec, table);
    } else {
      PlaceOtherKeeps(st1, r, spec, table);
      if IsArm(r, spec) {
        var v := Scalar(r.raw);
        assert Put(Cleared(m, n, spec), n, v).one == Put(ClearOthers(m, spec.arms, n), n, v).one;
      }
    }
  }

  lemma OwnRecord(s: bytes)
    requires TakeRecord(s).Some?
    ensures TakeRecord(TakeRecord(s).value.raw) == TakeRecord(s)
  {
    RecordReadsBack(s, []);
    var raw := TakeRecord(s).value.raw;
    assert raw + [] == raw;
  }

  /** After the first loop the slots stand for what the merging decoder makes of the bytes. */
  lemma {:induction false} CollectKeeps(st: State, s: bytes, spec: ScanSpec, table: Table)
    requires SoundArms(spec) && Invariant(st, spec, table)
    requires Decode(Merging, Denote(st.fields, spec, table), s, spec, table).Some?
    ensures Collect(st, s, spec, table).Some?
    ensures var st' := Collect(st, s, spec, table).value;
      && Invariant(st', spec, table)
      && Some(Denote(st'.fields, spec, table)) == Decode(Merging, Denote(st.fields, spec, table), s, spec, table)
    decreases |s|
  {
    hide Decode, Denote, Invariant, TakeRecord, CollectStep, Step;
    var m := Denote(st.fields, spec, table);
    if s == [] {
      DecodeNil(Merging, m, s, spec, table);
    } else {
      var r := DecodeHead(Merging, m, s, spec, table);
      DecodeCons(Merging, m, s, r, spec, table);
      OwnRecord(s);
      CollectStepKeeps(st, r, spec, table);
      CollectKeeps(CollectStep(st, r, spec, table), s[|r.raw|..], spec, table);
    }
  }

  // ---------------------------------------------------------------------------
  // The second loop
  // ---------------------------------------------------------------------------

  lemma DecodeOneRecord(rt: Runtime, m: Message, s: bytes, r: Record, spec: ScanSpec, table: Table)
    requires TakeRecord(s) == Some(r) && r.raw == s
    ensures Decode(rt, m, s, spec, table) == Step(rt, m, r, spec, table)
  {
    hide Decode, TakeRecord, Step;
    DecodeCons(rt, m, s, r, spec, table);
    assert s[|r.raw|..] == [];
    if Step(rt, m, r, spec, table).Some? {
      DecodeNil(rt, Step(rt, m, r, spec, table).value, s[|r.raw|..], spec, table);
    }
  }

  /** What the replacing decoder makes of a slot rendered with payload `p`. */
  lemma ReplaceMessage(m: Message, slot: Slot, p: bytes, raw: bytes, spec: ScanSpec, table: Table)
    requires SoundArms(spec) && GoodSlot(slot, spec, table) && slot.payloads != []
    requires DecodeValue(Replacing, None, p, slot.child, table) == Combined(slot, table)
    ensures Step(Replacing, m, Record(slot.record.number, LEN, p, raw), spec, table)
         == Some(Apply(m, Some(slot), spec, table))
  {
    hide DecodeValue, TakeRecord;
  }

  lemma ReplaceScalar(m: Message, slot: Slot, spec: ScanSpec, table: Table)
    requires GoodSlot(slot, spec, table) && slot.payloads == []
    ensures Step(Replacing, m, slot.record, spec, table) == Some(Apply(m, Some(slot), spec, table))
  {
    hide TakeRecord;
  }

  /** Merging the combined payload makes the replacing decoder agree with the merging one on it. */
  lemma {:induction false} InnerAgrees(slot: Slot, spec: ScanSpec, table: Table)
    requires SoundTable(table) && GoodSlot(slot, spec, table) && slot.payloads != []
    requires |Concat(slot.payloads)| < TWO_32
    ensures slot.child.Some? ==> MergeBytes(Concat(slot.payloads), slot.child.value, table).Some?
    ensures var merged := if slot.child.None? then Concat(slot.payloads)
                          else MergeBytes(Concat(slot.payloads), slot.child.value, table).value.0;
      && |merged| <= |Concat(slot.payloads)|
      && DecodeValue(Replacing, None, merged, slot.child, table) == Combined(slot, table)
    decreases |Concat(slot.payloads)|, 2
  {
    hide Decode, TakeRecord, MergeBytes, Concat;
    var combined := Concat(slot.payloads);
    if slot.child.Some? {
      SoundChild(spec, table, slot.record.number);
      MergePreservesMeaning(combined, slot.child.value, table);
      MergeNeverLengthens(combined, slot.child.value, table);
    }
  }

  lemma UnchangedSlot(slot: Slot, table: Table)
    requires RenderSlot(slot, table).Some?
    ensures !RenderSlot(slot, table).value.1 ==> RenderSlot(slot, table).value.0 == slot.record.raw
  {
  }

  lemma MergeUnchanged(data: bytes, spec: ScanSpec, table: Table)
    requires MergeBytes(data, spec, table).Some? && !MergeBytes(data, spec, table).value.1
    ensures MergeBytes(data, spec, table).value.0 == data
  {
  }

  lemma {:induction false} RenderSlotCorrect(m: Message, slot: Slot, spec: ScanSpec, table: Table)
    requires SoundArms(spec) && SoundTable(table) && GoodSlot(slot, spec, table)
    requires |Concat(slot.payloads)| < TWO_32
    ensures RenderSlot(slot, table).Some?
    ensures Decode(Replacing, m, RenderSlot(slot, table).value.0, spec, table)
         == Some(Apply(m, Some(slot), spec, table))
    decreases |Concat(slot.payloads)|, 3
  {
    hide Decode, TakeRecord, MergeBytes, Step, Apply, DecodeValue;
    var r := slot.record;
    if slot.payloads == [] {
      ReplaceScalar(m, slot, spec, table);
      DecodeOneRecord(Replacing, m, r.raw, r, spec, table);
    } else {
      var combined := Concat(slot.payloads);
      InnerAgrees(slot, spec, table);
      var merged := if slot.child.None? then combined else MergeBytes(combined, slot.child.value, table).value.0;
      var inner := slot.child.Some? && MergeBytes(combined, slot.child.value, table).value.1;
      if |slot.payloads| > 1 || inner {
        var e := EncodeRecord(r.number, merged);
        EncodedRecordReadsBack(r.number, merged, []) by { LenRecordShape(r.raw); }
        assert e + [] == e;
        ReplaceMessage(m, slot, merged, e, spec, table);
        DecodeOneRecord(Replacing, m, e, Record(r.number, LEN, merged, e), spec, table);
      } else {
        assert slot.payloads == [r.payload];
        ConcatOne(r.payload);
        if slot.child.Some? { MergeUnchanged(combined, slot.child.value, table); }
        ReplaceMessage(m, slot, r.payload, r.raw, spec, table);
        DecodeOneRecord(Replacing, m, r.raw, r, spec, table);
      }
    }
  }

  lemma {:induction false} RenderCorrect(fields: seq<Option<Slot>>, spec: ScanSpec, table: Table, limit: nat)
    requires SoundArms(spec) && SoundTable(table) && GoodSlots(fields, spec, table)
    requires Below(fields, limit) && limit <= TWO_32
    ensures Render(fields, table, limit).Some?
    ensures Decode(Replacing, EMPTY, Render(fields, table, limit).value.0, spec, table)
         == Some(Denote(fields, spec, table))
    decreases limit, 0, |fields|
  {
    hide Decode, GoodSlot, RenderSlot, Concat, Apply;
    if fields == [] {
      DecodeNil(Replacing, EMPTY, [], spec, table);
    } else {
      var k := |fields| - 1;
      RenderCorrect(fields[..k], spec, table, limit);
      var before := Render(fields[..k], table, limit).value.0;
      var m := Denote(fields[..k], spec, table);
      if fields[k].Some? {
        assert fields[k] in fields;
        RenderSlotCorrect(m, fields[k].value, spec, table);
        DecodeConcat(Replacing, EMPTY, before, RenderSlot(fields[k].value, table).value.0, spec, table);
      } else {
        ApplyNone(m, spec, table);
      }
    }
  }

  lemma ApplyNone(m: Message, spec: ScanSpec, table: Table)
    ensures Apply(m, None, spec, table) == m
  {
  }

  // ---------------------------------------------------------------------------
  // Bytes reused as they are
  // ---------------------------------------------------------------------------

  function Raws(fields: seq<Option<Slot>>): bytes {
    if fields == [] then []
    else Raws(fields[..|fields| - 1]) +
         (if fields[|fields| - 1].Some? then fields[|fields| - 1].value.record.raw else [])
  }

  lemma RawsSnoc(fields: seq<Option<Slot>>, slot: Slot)
    ensures Raws(fields + [Some(slot)]) == Raws(fields) + slot.record.raw
  {
    assert (fields + [Some(slot)])[..|fields|] == fields;
  }

  /** As long as nothing changed, the slots are the records read, one for one. */
  lemma {:induction false} UnchangedRaws(st: State, s: bytes, spec: ScanSpec, table: Table)
    requires Collect(st, s, spec, table).Some?
    ensures !Collect(st, s, spec, table).value.changed ==>
      !st.changed && Raws(Collect(st, s, spec, table).value.fields) == Raws(st.fields) + s
    decreases |s|
  {
    hide TakeRecord, Raws, HasPayloads, Drop;
    if s == [] {
      assert Raws(st.fields) + s == Raws(st.fields);
    } else {
      var r := TakeRecord(s).value;
      var st1 := CollectStep(st, r, spec, table);
      UnchangedRaws(st1, s[|r.raw|..], spec, table);
      if !st1.changed {
        RawsSnoc(st.fields, Slot(r, if IsMessage(r, spec) then [r.payload] else [], MergeChild(spec, table, r.number)));
        assert s == r.raw + s[|r.raw|..];
        assert Raws(st.fields) + s == Raws(st.fields) + r.raw + s[|r.raw|..];
      }
    }
  }

  lemma {:induction false} UnchangedRender(fields: seq<Option<Slot>>, table: Table, limit: nat)
    requires Below(fields, limit) && Render(fields, table, limit).Some?
    ensures !Render(fields, table, limit).value.1 ==> Render(fields, table, limit).value.0 == Raws(fields)
  {
    hide RenderSlot, Concat;
    if fields != [] {
      var k := |fields| - 1;
      UnchangedRender(fields[..k], table, limit);
      if fields[k].Some? {
        UnchangedSlot(fields[k].value, table);
      }
    }
  }

  /** Returning the input array unchanged is no shortcut: the rebuilt bytes would be the same. */
  lemma ReuseIsRebuild(data: bytes, spec: ScanSpec, table: Table)
    requires MergeBytes(data, spec, table).Some?
    ensures Collect(INITIAL, data, spec, table).Some?
    ensures var fields := Collect(INITIAL, data, spec, table).value.fields;
      && Below(fields, |data|)
      && Render(fields, table, |data|).Some?
      && MergeBytes(data, spec, table).value.0 == Render(fields, table, |data|).value.0
  {
    hide Collect, Render;
    var st := Collect(INITIAL, data, spec, table).value;
    CollectBelow(INITIAL, data, spec, table, 0);
    UnchangedRaws(INITIAL, data, spec, table);
    UnchangedRender(st.fields, table, |data|);
    assert [] + data == data;
  }

  // ---------------------------------------------------------------------------
  // Main result
  // ---------------------------------------------------------------------------

  /**
    For every input the protobuf decoder accepts and every sound table: merging succeeds,
    and the replacing decoder makes of the merged bytes exactly what the merging decoder
    makes of the input.
   */
  lemma {:induction false} MergePreservesMeaning(data: bytes, spec: ScanSpec, table: Table)
    requires SoundArms(spec) && SoundTable(table)
    requires |data| < TWO_32
    requires Decode(Merging, EMPTY, data, spec, table).Some?
    ensures MergeBytes(data, spec, table).Some?
    ensures Decode(Replacing, EMPTY, MergeBytes(data, spec, table).value.0, spec, table)
         == Decode(Merging, EMPTY, data, spec, table)
    decreases |data|, 1
  {
    hide Decode, Collect, Render, Denote, GoodSlot, SoundTable, SoundArms;
    assert Denote([], spec, table) == EMPTY by { DenoteEmpty(spec, table); }
    CollectKeeps(INITIAL, data, spec, table);
    CollectBelow(INITIAL, data, spec, table, 0);
    RenderCorrect(Collect(INITIAL, data, spec, table).value.fields, spec, table, |data|);
    ReuseIsRebuild(data, spec, table);
  }

  lemma DenoteEmpty(spec: ScanSpec, table: Table)
    ensures Denote([], spec, table) == EMPTY
  {
  }
}
