/** The merger as it runs: one pass that fills, joins and clears slots in place, one that writes them out. */
module MergerLoop {
  import opened Options
  import opened Varint
  import opened Tokens
  import opened ScanTable
  import opened Records
  import opened Decoders
  import opened Merger

  ghost predicate InRange(st: State) {
    forall n <- st.positions :: st.positions[n] < |st.fields|
  }

  /** The oneof branch of the first loop, on the loop's locals. */
  method ActivateArm(st: State, number: nat, spec: ScanSpec) returns (r: State)
    requires InRange(st)
    ensures InRange(r) && r == SwitchArm(st, number, spec)
  {
    var fields, positions, changed := st.fields, st.positions, st.changed;
    if st.activeArm.Some? && st.activeArm.value != number {
      if st.activeArm.value in positions {
        fields := fields[positions[st.activeArm.value] := None];
      }
      positions := positions - {st.activeArm.value};
      changed := true;
    }
    if number !in spec.singular {
      if number in positions {
        fields := fields[positions[number] := None];
        positions := positions - {number};
        changed := true;
      }
    }
    r := State(fields, positions, Some(number), changed);
  }

  method CollectFields(data: bytes, spec: ScanSpec, table: Table) returns (r: Option<State>)
    ensures r == Collect(INITIAL, data, spec, table)
  {
    hide Collect, TakeRecord, SwitchArm;
    var fields: seq<Option<Slot>> := [];
    var positions: map<nat, nat> := map[];
    var activeArm: Option<nat> := None;
    var changed := false;
    var pos := 0;
    assert data[0..] == data;
    while pos < |data|
      invariant pos <= |data|
      invariant InRange(State(fields, positions, activeArm, changed))
      invariant Collect(INITIAL, data, spec, table)
             == Collect(State(fields, positions, activeArm, changed), data[pos..], spec, table)
      decreases |data| - pos
    {
      ghost var before := State(fields, positions, activeArm, changed);
      CollectUnfold(before, data[pos..], spec, table);
      var next := TakeRecord(data[pos..]);
      if next.None? { return None; }
      var record := next.value;
      var number := record.number;
      Suffix(data, pos, |record.raw|);
      pos := pos + |record.raw|;
      var isArm := IsArm(record, spec);
      if isArm {
        var st := ActivateArm(State(fields, positions, activeArm, changed), number, spec);
        fields, positions, activeArm, changed := st.fields, st.positions, st.activeArm, st.changed;
      }
      var isMessage := IsMessage(record, spec);
      if isMessage && number in spec.singular && number in positions
         && fields[positions[number]].Some? && fields[positions[number]].value.payloads != [] {
        var slot := fields[positions[number]].value;
        fields := fields[positions[number] := Some(slot.(payloads := slot.payloads + [record.payload]))];
        changed := true;
        continue;
      }
      if isMessage || isArm {
        positions := positions[number := |fields|];
      }
      var payloads := if isMessage then [record.payload] else [];
      fields := fields + [Some(Slot(record, payloads, MergeChild(spec, table, number)))];
    }
    CollectEnd(State(fields, positions, activeArm, changed), data[pos..], spec, table);
    r := Some(State(fields, positions, activeArm, changed));
  }

  lemma RenderUnfold(fields: seq<Option<Slot>>, k: nat, table: Table, limit: nat)
    requires k < |fields| && Below(fields, limit)
    ensures Below(fields[..k], limit) && Below(fields[..k + 1], limit)
    ensures Render(fields[..k + 1], table, limit) ==
      match Render(fields[..k], table, limit)
      case None => None
      case Some((before, changed)) =>
        if fields[k].None? then Some((before, changed))
        else match RenderSlot(fields[k].value, table)
             case None => None
             case Some((part, here)) => Some((before + part, changed || here))
  {
    hide RenderSlot, Concat;
    assert fields[..k + 1][..k] == fields[..k];
  }

  /** A slot that cannot be rendered fails the whole. */
  lemma {:induction false} RenderFails(fields: seq<Option<Slot>>, k: nat, n: nat, table: Table, limit: nat)
    requires k < n <= |fields| && Below(fields, limit)
    requires fields[k].Some? && RenderSlot(fields[k].value, table).None?
    ensures Below(fields[..n], limit) && Render(fields[..n], table, limit).None?
  {
    hide RenderSlot, Render;
    RenderUnfold(fields, n - 1, table, limit);
    if n - 1 > k {
      RenderFails(fields, k, n - 1, table, limit);
    }
  }

  /** Rewrites one message level and everything below it. The flag says the result is a new array. */
  method MergeMessageFields(data: bytes, spec: ScanSpec, table: Table) returns (r: Option<(bytes, bool)>)
    ensures r == MergeBytes(data, spec, table)
    decreases |data|
  {
    hide Collect, Render, Concat;
    var collected := CollectFields(data, spec, table);
    if collected.None? { return None; }
    var fields, changed := collected.value.fields, collected.value.changed;
    CollectBelow(INITIAL, data, spec, table, 0);
    var parts: bytes := [];
    ghost var here := false;
    RenderNone(table, |data|);
    assert fields[..0] == [];
    for i := 0 to |fields|
      invariant Below(fields[..i], |data|)
      invariant Render(fields[..i], table, |data|) == Some((parts, here))
      invariant changed <==> collected.value.changed || here
    {
      RenderUnfold(fields, i, table, |data|);
      if fields[i].None? { continue; }
      var slot := fields[i].value;
      assert fields[i] in fields;
      if slot.payloads != [] {
        var combined := Concat(slot.payloads);
        var merged, inner := combined, false;
        if slot.child.Some? {
          var m := MergeMessageFields(combined, slot.child.value, table);
          if m.None? {
            RenderFails(fields, i, |fields|, table, |data|);
            assert fields[..|fields|] == fields;
            return None;
          }
          merged, inner := m.value.0, m.value.1;
        }
        if |slot.payloads| > 1 || inner {
          parts := parts + EncodeRecord(slot.record.number, merged);
          changed, here := true, true;
          continue;
        }
      }
      parts := parts + slot.record.raw;
    }
    assert fields[..|fields|] == fields;
    return if changed then Some((parts, true)) else Some((data, false));
  }

  lemma RenderNone(table: Table, limit: nat)
    ensures Render([], table, limit) == Some(([], false))
  {
  }
}
