/** The merger never lengthens its input. */
module MergerSize {
  import opened Options
  import opened Varint
  import opened Tokens
  import opened ScanTable
  import opened Records
  import opened Decoders
  import opened Merger

  /** Doubling adds at most one byte: 2m / 128 is no larger than m. */
  lemma EncodeDouble(m: nat)
    ensures |Encode(2 * m)| <= |Encode(m)| + 1
  {
    if 2 * m >= 128 {
      EncodeMono(2 * m / 128, m);
    }
  }

  lemma EncodeSubadditive(m: nat, n: nat)
    ensures |Encode(m + n)| <= |Encode(m)| + |Encode(n)|
  {
    var k := if m < n then n else m;
    EncodeMono(m + n, 2 * k);
    EncodeDouble(k);
  }

  /** Structure every slot has, decodable or not. */
  ghost predicate Built(slot: Slot) {
    && TakeRecord(slot.record.raw) == Some(slot.record)
    && (slot.payloads != [] ==> slot.payloads[0] == slot.record.payload && slot.record.wireType == LEN)
  }

  /** What a slot may cost when rendered. */
  function Cost(f: Option<Slot>): nat {
    match f
    case None => 0
    case Some(slot) =>
      if |slot.payloads| <= 1 then |slot.record.raw|
      else
        var n := |Concat(slot.payloads)|;
        |Encode(slot.record.number * 8 + LEN)| + |Encode(n)| + n
  }

  function Total(fields: seq<Option<Slot>>): nat {
    if fields == [] then 0 else Total(fields[..|fields| - 1]) + Cost(fields[|fields| - 1])
  }

  lemma {:induction false} TotalSet(fields: seq<Option<Slot>>, p: nat, f: Option<Slot>)
    requires p < |fields|
    ensures Total(fields[p := f]) + Cost(fields[p]) == Total(fields) + Cost(f)
  {
    hide Cost;
    var k := |fields| - 1;
    if p == k {
      assert fields[p := f][..k] == fields[..k];
    } else {
      assert fields[p := f][..k] == fields[..k][p := f];
      TotalSet(fields[..k], p, f);
    }
  }

  lemma TotalSnoc(fields: seq<Option<Slot>>, f: Option<Slot>)
    ensures Total(fields + [f]) == Total(fields) + Cost(f)
  {
    assert (fields + [f])[..|fields|] == fields;
  }

  ghost predicate AllBuilt(fields: seq<Option<Slot>>) {
    forall p :: 0 <= p < |fields| && fields[p].Some? ==> Built(fields[p].value)
  }

  lemma DropCost(st: State, n: nat)
    requires AllBuilt(st.fields)
    ensures AllBuilt(Drop(st, n).fields) && Total(Drop(st, n).fields) <= Total(st.fields)
  {
    hide Built, Cost;
    if n in st.positions && st.positions[n] < |st.fields| {
      TotalSet(st.fields, st.positions[n], None);
      assert Cost(None) == 0 by { NoneCost(); }
    }
  }

  lemma NoneCost()
    ensures Cost(None) == 0
  {
  }

  lemma SwitchCost(st: State, n: nat, spec: ScanSpec)
    requires AllBuilt(st.fields)
    ensures AllBuilt(SwitchArm(st, n, spec).fields) && Total(SwitchArm(st, n, spec).fields) <= Total(st.fields)
  {
    hide AllBuilt, Total;
    var st1 := if st.activeArm.Some? && st.activeArm.value != n
               then Drop(st, st.activeArm.value).(changed := true) else st;
    if st.activeArm.Some? { DropCost(st, st.activeArm.value); }
    DropCost(st1.(activeArm := Some(n)), n);
  }

  /** Joining costs at most the joined record's own bytes: length prefixes grow slower than what they replace. */
  lemma JoinCost(slot: Slot, r: Record)
    requires Built(slot) && slot.payloads != []
    requires TakeRecord(r.raw) == Some(r) && r.wireType == LEN
    ensures Cost(Some(slot.(payloads := slot.payloads + [r.payload]))) <= Cost(Some(slot)) + |r.raw|
  {
    var n, k := |Concat(slot.payloads)|, |r.payload|;
    var tag := |Encode(slot.record.number * 8 + LEN)|;
    ConcatSnoc(slot.payloads, r.payload);
    EncodeSubadditive(n, k);
    LenRecordShape(r.raw);
    RawCost(r);
    assert tag + |Encode(n)| + n <= Cost(Some(slot)) by {
      if |slot.payloads| == 1 {
        assert slot.payloads == [slot.record.payload];
        ConcatOne(slot.record.payload);
        RawCost(slot.record);
      }
    }
  }

  lemma RawCost(r: Record)
    requires TakeRecord(r.raw) == Some(r) && r.wireType == LEN
    ensures |Encode(r.number * 8 + LEN)| + |Encode(|r.payload|)| + |r.payload| <= |r.raw|
  {
    LenRecordShape(r.raw);
  }

  lemma PlaceCost(st: State, r: Record, spec: ScanSpec, table: Table)
    requires AllBuilt(st.fields)
    requires TakeRecord(r.raw) == Some(r)
    ensures var fields := Place(st, r, spec, table).fields;
      AllBuilt(fields) && Total(fields) <= Total(st.fields) + |r.raw|
  {
    hide Total, TakeRecord, Cost;
    var n := r.number;
    if IsSingle(r, spec) && HasPayloads(st, n) {
      var p := st.positions[n];
      var slot := st.fields[p].value;
      var slot' := slot.(payloads := slot.payloads + [r.payload]);
      JoinCost(slot, r);
      TotalSet(st.fields, p, Some(slot'));
      assert Built(slot');
    } else {
      var slot := Slot(r, if IsMessage(r, spec) then [r.payload] else [], MergeChild(spec, table, n));
      TotalSnoc(st.fields, Some(slot));
      FreshCost(slot);
      assert Built(slot);
    }
  }

  lemma FreshCost(slot: Slot)
    requires |slot.payloads| <= 1
    ensures Cost(Some(slot)) == |slot.record.raw|
  {
  }

  lemma {:induction false} CollectCost(st: State, s: bytes, spec: ScanSpec, table: Table)
    requires AllBuilt(st.fields)
    requires Collect(st, s, spec, table).Some?
    ensures var fields := Collect(st, s, spec, table).value.fields;
      AllBuilt(fields) && Total(fields) <= Total(st.fields) + |s|
    decreases |s|
  {
    hide AllBuilt, Total, TakeRecord, Place, SwitchArm;
    if s != [] {
      var r := TakeRecord(s).value;
      RecordReadsBack(s, []);
      assert r.raw + [] == r.raw;
      var st1 := if IsArm(r, spec) then SwitchArm(st, r.number, spec) else st;
      SwitchCost(st, r.number, spec);
      PlaceCost(st1, r, spec, table);
      CollectCost(CollectStep(st, r, spec, table), s[|r.raw|..], spec, table);
    }
  }

  lemma {:induction false} RenderSlotCost(slot: Slot, table: Table)
    requires Built(slot) && RenderSlot(slot, table).Some?
    ensures |RenderSlot(slot, table).value.0| <= Cost(Some(slot))
    decreases |Concat(slot.payloads)|, 2
  {
    hide TakeRecord, MergeBytes, Encode;
    if slot.payloads != [] {
      var combined := Concat(slot.payloads);
      if slot.child.Some? { MergeNeverLengthens(combined, slot.child.value, table); }
      if |slot.payloads| == 1 {
        assert slot.payloads == [slot.record.payload];
        ConcatOne(slot.record.payload);
        RawCost(slot.record);
      }
      var merged := if slot.child.None? then combined else MergeBytes(combined, slot.child.value, table).value.0;
      EncodeMono(|merged|, |combined|);
    }
  }

  lemma {:induction false} RenderCost(fields: seq<Option<Slot>>, table: Table, limit: nat)
    requires Below(fields, limit) && AllBuilt(fields)
    requires Render(fields, table, limit).Some?
    ensures |Render(fields, table, limit).value.0| <= Total(fields)
    decreases limit, 0, |fields|
  {
    hide Built, Cost, RenderSlot, Concat;
    if fields != [] {
      var k := |fields| - 1;
      RenderCost(fields[..k], table, limit);
      if fields[k].Some? {
        assert fields[k] in fields;
        RenderSlotCost(fields[k].value, table);
      }
    }
  }

  /** The merged bytes are never longer than the input. */
  lemma {:induction false} MergeNeverLengthens(data: bytes, spec: ScanSpec, table: Table)
    requires MergeBytes(data, spec, table).Some?
    ensures |MergeBytes(data, spec, table).value.0| <= |data|
    decreases |data|, 1
  {
    hide Collect, Render;
    CollectBelow(INITIAL, data, spec, table, 0);
    CollectCost(INITIAL, data, spec, table);
    RenderCost(Collect(INITIAL, data, spec, table).value.fields, table, |data|);
  }
}
