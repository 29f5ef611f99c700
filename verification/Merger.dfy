/** The rewriting that makes a replacing decoder give a merging decoder's answer. */
module Merger {
  import opened Options
  import opened Varint
  import opened ScanTable
  import opened Records
  import opened Decoders

  /** A kept record; `payloads` collects the occurrences of a message, and is empty for anything else. */
  datatype Slot = Slot(record: Record, payloads: seq<bytes>, child: Option<ScanSpec>)

  /** The merger's locals: slots cleared in place, the slot of each field, the arm last set. */
  datatype State = State(
    fields: seq<Option<Slot>>,
    positions: map<nat, nat>,
    activeArm: Option<nat>,
    changed: bool
  )

  const INITIAL: State := State([], map[], None, false)

  function Concat(parts: seq<bytes>): bytes {
    if parts == [] then [] else Concat(parts[..|parts| - 1]) + parts[|parts| - 1]
  }

  /** Clears the slot recorded for field `n`, if any, and forgets it. */
  function Drop(st: State, n: nat): State {
    if n in st.positions && st.positions[n] < |st.fields|
    then st.(fields := st.fields[st.positions[n] := None], positions := st.positions - {n})
    else st.(positions := st.positions - {n})
  }

  /** A correctly typed arm drops the arm before it, and its own earlier value unless that merges. */
  function SwitchArm(st: State, n: nat, spec: ScanSpec): State {
    var st1 := if st.activeArm.Some? && st.activeArm.value != n
               then Drop(st, st.activeArm.value).(changed := true) else st;
    var st2 := st1.(activeArm := Some(n));
    if n !in spec.singular && n in st2.positions then Drop(st2, n).(changed := true) else st2
  }

  predicate HasPayloads(st: State, n: nat) {
    && n in st.positions && st.positions[n] < |st.fields|
    && st.fields[st.positions[n]].Some? && st.fields[st.positions[n]].value.payloads != []
  }

  /** Adds the record's payload to the slot already holding its field, or gives it a slot of its own. */
  function Place(st: State, r: Record, spec: ScanSpec, table: Table): State {
    var n := r.number;
    if IsSingle(r, spec) && HasPayloads(st, n) then
      var p := st.positions[n];
      var slot := st.fields[p].value;
      st.(fields := st.fields[p := Some(slot.(payloads := slot.payloads + [r.payload]))], changed := true)
    else
      st.(positions := if IsMessage(r, spec) || IsArm(r, spec) then st.positions[n := |st.fields|] else st.positions,
          fields := st.fields + [Some(
            Slot(r, if IsMessage(r, spec) then [r.payload] else [], MergeChild(spec, table, n)))])
  }

  function CollectStep(st: State, r: Record, spec: ScanSpec, table: Table): State {
    Place(if IsArm(r, spec) then SwitchArm(st, r.number, spec) else st, r, spec, table)
  }

  /** The first loop: every record of `s` into its slot. */
  function Collect(st: State, s: bytes, spec: ScanSpec, table: Table): Option<State>
    decreases |s|
  {
    if s == [] then Some(st)
    else
      var r :- TakeRecord(s);
      Collect(CollectStep(st, r, spec, table), s[|r.raw|..], spec, table)
  }

  lemma CollectUnfold(st: State, s: bytes, spec: ScanSpec, table: Table)
    requires s != []
    ensures Collect(st, s, spec, table) ==
      match TakeRecord(s)
      case None => None
      case Some(r) => Collect(CollectStep(st, r, spec, table), s[|r.raw|..], spec, table)
  {
  }

  lemma CollectEnd(st: State, s: bytes, spec: ScanSpec, table: Table)
    requires s == []
    ensures Collect(st, s, spec, table) == Some(st)
  {
  }

  /** No slot's combined payload reaches `limit`, so merging it is a smaller problem. */
  ghost predicate Below(fields: seq<Option<Slot>>, limit: nat) {
    forall f <- fields :: f.Some? ==> |Concat(f.value.payloads)| < limit
  }

  lemma ConcatSnoc(parts: seq<bytes>, p: bytes)
    ensures Concat(parts + [p]) == Concat(parts) + p
  {
    assert (parts + [p])[..|parts|] == parts;
  }

  lemma ConcatOne(p: bytes)
    ensures Concat([p]) == p
  {
    assert [p][..0] == [];
    assert Concat([]) == [];
  }

  lemma BelowSet(fields: seq<Option<Slot>>, p: nat, f: Option<Slot>, limit: nat)
    requires Below(fields, limit) && p < |fields|
    requires f.Some? ==> |Concat(f.value.payloads)| < limit
    ensures Below(fields[p := f], limit)
  {
    hide Concat;
    forall g <- fields[p := f] ensures g.Some? ==> |Concat(g.value.payloads)| < limit {
      if g != f { assert g in fields; }
    }
  }

  lemma DropBelow(st: State, n: nat, limit: nat)
    requires Below(st.fields, limit)
    ensures Below(Drop(st, n).fields, limit)
  {
    hide Below;
    if n in st.positions && st.positions[n] < |st.fields| {
      BelowSet(st.fields, st.positions[n], None, limit);
    }
  }

  lemma StepBelow(st: State, r: Record, spec: ScanSpec, table: Table, k: nat)
    requires Below(st.fields, k)
    requires |r.payload| < |r.raw|
    ensures Below(CollectStep(st, r, spec, table).fields, k + |r.raw|)
  {
    hide Concat;
    var st1 := if IsArm(r, spec) then SwitchArm(st, r.number, spec) else st;
    assert Below(st1.fields, k) by {
      if IsArm(r, spec) {
        if st.activeArm.Some? { DropBelow(st, st.activeArm.value, k); }
        DropBelow(st, r.number, k);
        if st.activeArm.Some? {
          var dropped := Drop(st, st.activeArm.value);
          DropBelow(dropped.(changed := true, activeArm := Some(r.number)), r.number, k);
        }
        DropBelow(st.(activeArm := Some(r.number)), r.number, k);
      }
    }
    PlaceBelow(st1, r, spec, table, k);
  }

  lemma PlaceBelow(st: State, r: Record, spec: ScanSpec, table: Table, k: nat)
    requires Below(st.fields, k)
    requires |r.payload| < |r.raw|
    ensures Below(Place(st, r, spec, table).fields, k + |r.raw|)
  {
    var n := r.number;
    if IsSingle(r, spec) && HasPayloads(st, n) {
      var p := st.positions[n];
      var slot := st.fields[p].value;
      assert st.fields[p] in st.fields;
      ConcatSnoc(slot.payloads, r.payload);
      BelowSet(st.fields, p, Some(slot.(payloads := slot.payloads + [r.payload])), k + |r.raw|);
    } else {
      ConcatOne(r.payload);
    }
  }

  /** Payloads are strictly shorter than the records carrying them, so slots stay below the bytes consumed. */
  lemma {:induction false} CollectBelow(st: State, s: bytes, spec: ScanSpec, table: Table, k: nat)
    requires Below(st.fields, k)
    requires Collect(st, s, spec, table).Some?
    ensures Below(Collect(st, s, spec, table).value.fields, k + |s|)
    decreases |s|
  {
    hide Below, CollectStep, TakeRecord;
    if s != [] {
      var r := TakeRecord(s).value;
      StepBelow(st, r, spec, table, k);
      CollectBelow(CollectStep(st, r, spec, table), s[|r.raw|..], spec, table, k + |r.raw|);
    }
  }

  /** One slot's bytes: its record as it came, unless payloads were combined or something inside changed. */
  function RenderSlot(slot: Slot, table: Table): Option<(bytes, bool)>
    decreases |Concat(slot.payloads)|, 2
  {
    if slot.payloads == [] then Some((slot.record.raw, false))
    else
      var combined := Concat(slot.payloads);
      var (merged, inner) :- if slot.child.None? then Some((combined, false))
                             else MergeBytes(combined, slot.child.value, table);
      if |slot.payloads| > 1 || inner then Some((EncodeRecord(slot.record.number, merged), true))
      else Some((slot.record.raw, false))
  }

  /** The second loop. */
  function Render(fields: seq<Option<Slot>>, table: Table, limit: nat): Option<(bytes, bool)>
    requires Below(fields, limit)
    decreases limit, 0, |fields|
  {
    if fields == [] then Some(([], false))
    else
      var k := |fields| - 1;
      var (before, changed) :- Render(fields[..k], table, limit);
      if fields[k].None? then Some((before, changed))
      else
        assert fields[k] in fields;
        var (part, here) :- RenderSlot(fields[k].value, table);
        Some((before + part, changed || here))
  }

  /** The merged bytes, and whether they are a new array. None where the reader throws. */
  function MergeBytes(data: bytes, spec: ScanSpec, table: Table): Option<(bytes, bool)>
    decreases |data|, 1
  {
    var st :- Collect(INITIAL, data, spec, table);
    CollectBelow(INITIAL, data, spec, table, 0);
    var (out, changed) :- Render(st.fields, table, |data|);
    if st.changed || changed then Some((out, true)) else Some((data, false))
  }
}
