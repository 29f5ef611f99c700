/** The shipped tables, the limits of the merger's promise, and forward compatibility of decoding. */
module MergerCases {
  import opened Options
  import opened Varint
  import opened Tokens
  import opened ScanTable
  import opened Records
  import opened Decoders
  import opened Merger
  import opened MergerCorrect
  import opened MergerCanonical
  import opened Guard
  import opened DecodeExact
  import opened GuardGap

  const GOOGLE_STRUCT: ScanSpec :=
    ScanSpec({}, map[1 := "google.protobuf.Struct.FieldsEntry"], map[], {}, map[])
  const GOOGLE_FIELDS_ENTRY: ScanSpec :=
    ScanSpec({2}, map[2 := "google.protobuf.Value"], map[], {}, map[])
  const GOOGLE_VALUE: ScanSpec :=
    ScanSpec({5, 6}, map[5 := "google.protobuf.Struct", 6 := "google.protobuf.ListValue"], map[],
             {1, 2, 3, 4, 5, 6}, map[1 := 0, 2 := 1, 3 := 2, 4 := 0, 5 := 2, 6 := 2])
  const GOOGLE_LIST_VALUE: ScanSpec :=
    ScanSpec({}, map[1 := "google.protobuf.Value"], map[], {}, map[])

  /** The generated specs together with the mutually recursive google.protobuf ones. */
  function WithGoogle(generated: Table): Table {
    generated[
    "google.protobuf.Struct" := GOOGLE_STRUCT][
    "google.protobuf.Struct.FieldsEntry" := GOOGLE_FIELDS_ENTRY][
    "google.protobuf.Value" := GOOGLE_VALUE][
    "google.protobuf.ListValue" := GOOGLE_LIST_VALUE]
  }

  lemma GoogleIsSound(generated: Table)
    requires SoundTable(generated)
    ensures SoundTable(WithGoogle(generated))
  {
    assert SoundArms(GOOGLE_VALUE);
    assert SoundArms(GOOGLE_STRUCT) && SoundArms(GOOGLE_FIELDS_ENTRY) && SoundArms(GOOGLE_LIST_VALUE);
  }

  // ---------------------------------------------------------------------------
  // Exactly when the rewriting is right
  // ---------------------------------------------------------------------------

  lemma {:induction false} CanonicalIsDecodable(data: bytes, spec: ScanSpec, table: Table)
    requires Canonical(data, spec, table)
    ensures Decodable(data, spec, table)
    decreases |data|
  {
    hide Canonical, Decodable, RecordsOf;
    CanonicalIs(data, spec, table);
    DecodableIs(data, spec, table);
    var xs := RecordsOf(data).value;
    forall x <- xs ensures DecodableInside(x, spec, table) {
      var i :| 0 <= i < |xs| && xs[i] == x;
      assert CanonicalInside(xs[i], spec, table);
      if IsMessage(x, spec) && MergeChild(spec, table, x.number).Some? {
        CanonicalIsDecodable(x.payload, MergeChild(spec, table, x.number).value, table);
      }
    }
  }

  /**
    The merger succeeds on all decodable bytes; and where it succeeds, the replacing decoder
    makes of its result what the merging decoder makes of the input exactly if that is decodable.
   */
  lemma MergeAgreesExactly(data: bytes, spec: ScanSpec, table: Table)
    requires SoundArms(spec) && SoundTable(table) && |data| < TWO_32
    ensures Decodable(data, spec, table) ==> MergeBytes(data, spec, table).Some?
    ensures MergeBytes(data, spec, table).Some? ==>
      var merged := MergeBytes(data, spec, table).value.0;
      (Decode(Replacing, EMPTY, merged, spec, table) == Decode(Merging, EMPTY, data, spec, table)
       <==> Decodable(data, spec, table))
  {
    hide Decode, MergeBytes, Decodable, Canonical, SoundArms, SoundTable;
    DecodesExactly(Merging, EMPTY, data, spec, table);
    if Decodable(data, spec, table) {
      MergePreservesMeaning(data, spec, table);
    } else if MergeBytes(data, spec, table).Some? {
      var merged := MergeBytes(data, spec, table).value.0;
      MergeIsCanonical(data, spec, table);
      CanonicalIsDecodable(merged, spec, table);
      DecodesExactly(Replacing, EMPTY, merged, spec, table);
    }
  }

  // ---------------------------------------------------------------------------
  // The envelope
  // ---------------------------------------------------------------------------

  /** The spec `decode` merges the envelope with. */
  function EnvelopeSpec(tags: set<nat>, scan: map<nat, string>): ScanSpec {
    ScanSpec(tags, scan, map[], {}, map[])
  }

  /** The envelope as the schema has it: its events are the arms of a oneof, so the last one wins. */
  function EnvelopeOneof(tags: set<nat>, scan: map<nat, string>): ScanSpec {
    ScanSpec(tags, scan, map[], tags, map[])
  }

  lemma OneofStepSame(m: Message, r: Record, tags: set<nat>, scan: map<nat, string>, table: Table, f: nat)
    requires m.one.Keys <= {f} && (IsEvent(r, tags) ==> r.number == f)
    ensures var a := Step(Merging, m, r, EnvelopeSpec(tags, scan), table);
      && a == Step(Merging, m, r, EnvelopeOneof(tags, scan), table)
      && (a.Some? ==> a.value.one.Keys <= {f})
  {
    hide DecodeValue;
    assert IsEvent(r, tags) ==> ClearOthers(m, tags, r.number) == m by {
      if IsEvent(r, tags) { assert m.one - (tags - {f}) == m.one; }
    }
  }

  lemma {:induction false} OneofDecodesSame(
    m: Message, s: bytes, tags: set<nat>, scan: map<nat, string>, table: Table, f: nat)
    requires m.one.Keys <= {f} && RecordsOf(s).Some?
    requires forall x <- RecordsOf(s).value :: IsEvent(x, tags) ==> x.number == f
    ensures Decode(Merging, m, s, EnvelopeSpec(tags, scan), table)
         == Decode(Merging, m, s, EnvelopeOneof(tags, scan), table)
    decreases |s|
  {
    hide Decode, Step, TakeRecord, RecordsOf;
    var env, oneof := EnvelopeSpec(tags, scan), EnvelopeOneof(tags, scan);
    if s == [] {
      DecodeNil(Merging, m, s, env, table);
      DecodeNil(Merging, m, s, oneof, table);
    } else {
      RecordsUnfold(s);
      var r := RecordsHead(s);
      assert r in RecordsOf(s).value;
      DecodeCons(Merging, m, s, r, env, table);
      DecodeCons(Merging, m, s, r, oneof, table);
      OneofStepSame(m, r, tags, scan, table, f);
      if Step(Merging, m, r, env, table).Some? {
        OneofDecodesSame(Step(Merging, m, r, env, table).value, s[|r.raw|..], tags, scan, table, f);
      }
    }
  }

  lemma StepKeys(m: Message, r: Record, tags: set<nat>, scan: map<nat, string>, table: Table)
    requires scan.Keys <= tags
    ensures var a := Step(Merging, m, r, EnvelopeSpec(tags, scan), table);
      a.Some? ==> a.value.one.Keys == m.one.Keys + if IsEvent(r, tags) then {r.number} else {}
    ensures var a := Step(Merging, m, r, EnvelopeOneof(tags, scan), table);
      a.Some? && m.one.Keys <= tags ==>
        a.value.one.Keys == if IsEvent(r, tags) then {r.number} else m.one.Keys
  {
    hide DecodeValue;
  }

  /** Without the oneof every event named stays; with it only one does. */
  lemma {:induction false} DecodeKeys(m: Message, s: bytes, tags: set<nat>, scan: map<nat, string>, table: Table)
    requires scan.Keys <= tags && RecordsOf(s).Some?
    ensures var a := Decode(Merging, m, s, EnvelopeSpec(tags, scan), table);
      a.Some? ==> m.one.Keys <= a.value.one.Keys
                  && forall x <- RecordsOf(s).value :: IsEvent(x, tags) ==> x.number in a.value.one
    decreases |s|
  {
    hide Decode, Step, TakeRecord, RecordsOf;
    var env := EnvelopeSpec(tags, scan);
    if s == [] {
      RecordsNil(s);
      DecodeNil(Merging, m, s, env, table);
    } else {
      RecordsUnfold(s);
      var r := RecordsHead(s);
      DecodeCons(Merging, m, s, r, env, table);
      StepKeys(m, r, tags, scan, table);
      if Step(Merging, m, r, env, table).Some? {
        DecodeKeys(Step(Merging, m, r, env, table).value, s[|r.raw|..], tags, scan, table);
      }
    }
  }

  lemma {:induction false} OneofKeys(m: Message, s: bytes, tags: set<nat>, scan: map<nat, string>, table: Table, f: nat)
    returns (g: nat)
    requires scan.Keys <= tags && m.one.Keys <= {f} && m.one.Keys <= tags
    ensures var a := Decode(Merging, m, s, EnvelopeOneof(tags, scan), table);
      a.Some? ==> a.value.one.Keys <= {g}
    decreases |s|
  {
    hide Decode, Step, TakeRecord;
    var oneof := EnvelopeOneof(tags, scan);
    g := f;
    if s == [] {
      DecodeNil(Merging, m, s, oneof, table);
    } else if Decode(Merging, m, s, oneof, table).Some? {
      var r := DecodeHead(Merging, m, s, oneof, table);
      DecodeCons(Merging, m, s, r, oneof, table);
      StepKeys(m, r, tags, scan, table);
      var f' := if IsEvent(r, tags) then r.number else f;
      g := OneofKeys(Step(Merging, m, r, oneof, table).value, s[|r.raw|..], tags, scan, table, f');
    }
  }

  /** The oneof makes no difference exactly to envelopes that name one event. */
  lemma OneofMattersExactly(data: bytes, tags: set<nat>, scan: map<nat, string>, table: Table)
    requires scan.Keys <= tags && RecordsOf(data).Some?
    requires Decode(Merging, EMPTY, data, EnvelopeSpec(tags, scan), table).Some?
    ensures OneEvent(data, tags) <==>
            Decode(Merging, EMPTY, data, EnvelopeSpec(tags, scan), table)
            == Decode(Merging, EMPTY, data, EnvelopeOneof(tags, scan), table)
  {
    hide Decode, RecordsOf;
    var xs := RecordsOf(data).value;
    if OneEvent(data, tags) {
      var f := if exists x <- xs :: IsEvent(x, tags) then (var x :| x in xs && IsEvent(x, tags); x.number) else 0;
      OneofDecodesSame(EMPTY, data, tags, scan, table, f);
    } else {
      var x, y :| x in xs && y in xs && IsEvent(x, tags) && IsEvent(y, tags) && x.number != y.number;
      DecodeKeys(EMPTY, data, tags, scan, table);
      var g := OneofKeys(EMPTY, data, tags, scan, table, 0);
    }
  }

  /**
    With a table that describes the whole schema. On decodable bytes, what ts-proto decodes
    after the merge is what a standard protobuf decoder, which keeps the last event only,
    reads from the original bytes, exactly if they name one event.
   */
  lemma EnvelopeDecodesAsMerged(data: bytes, tags: set<nat>, scan: map<nat, string>, generated: Table)
    requires SoundTable(generated) && scan.Keys <= tags && |data| < TWO_32
    requires Decodable(data, EnvelopeSpec(tags, scan), WithGoogle(generated))
    ensures MergeBytes(data, EnvelopeSpec(tags, scan), WithGoogle(generated)).Some?
    ensures OneEvent(data, tags) <==>
            Decode(Replacing, EMPTY, MergeBytes(data, EnvelopeSpec(tags, scan), WithGoogle(generated)).value.0,
                   EnvelopeSpec(tags, scan), WithGoogle(generated))
            == Decode(Merging, EMPTY, data, EnvelopeOneof(tags, scan), WithGoogle(generated))
  {
    hide WithGoogle, Decode, MergeBytes, Decodable, OneEvent, RecordsOf;
    var env, table := EnvelopeSpec(tags, scan), WithGoogle(generated);
    GoogleIsSound(generated);
    MergeAgreesExactly(data, env, table);
    DecodesExactly(Merging, EMPTY, data, env, table);
    DecodableIs(data, env, table);
    OneofMattersExactly(data, tags, scan, table);
  }

  // ---------------------------------------------------------------------------
  // Bytes that are not decodable
  // ---------------------------------------------------------------------------

  lemma ShortRecord(tag: byte, len: byte, payload: bytes, u: bytes)
    requires 8 <= tag < 128 && tag % 8 == LEN && len < 128 && |payload| == len
    ensures TakeRecord([tag, len] + payload + u) == Some(Record(tag / 8, LEN, payload, [tag, len] + payload))
  {
    hide TakeRecord, EncodeRecord;
    EncodedRecordReadsBack(tag / 8, payload, u);
    assert EncodeRecord(tag / 8, payload) == [tag, len] + payload by { ShortEncode(tag, len, payload); }
  }

  lemma ShortEncode(tag: byte, len: byte, payload: bytes)
    requires 8 <= tag < 128 && tag % 8 == LEN && len < 128 && |payload| == len
    ensures EncodeRecord(tag / 8, payload) == [tag, len] + payload
  {
    assert Encode(tag / 8 * 8 + LEN) == [tag];
    assert Encode(|payload|) == [len];
    assert [tag] + ([len] + payload) == [tag, len] + payload;
  }

  /** Two one-byte occurrences of message 1. */
  function Halves(p: byte, q: byte): bytes { [0x0A, 0x01, p] + [0x0A, 0x01, q] }

  /** A level whose field 1 is a singular message. */
  predicate HoldsOne(spec: ScanSpec, table: Table, inner: ScanSpec) {
    spec.singular == {1} && spec.arms == {} && MergeChild(spec, table, 1) == Some(inner)
  }

  /**
    Two halves of a message, each malformed on its own, join into a well-formed one: the
    merger accepts what no protobuf decoder does. Along `descend` the guard refuses them,
    since it looks into every occurrence.
   */
  lemma MergingJoinsBrokenHalves()
    ensures var inner := ScanSpec({}, map[], map[], {}, map[]);
            var spec := ScanSpec({1}, map[1 := "inner"], map[], {}, map[]);
            var table := map["inner" := inner];
            var data := Halves(0x08, 0x05);
      && Decode(Merging, EMPTY, data, spec, table).None?
      && MergeBytes(data, spec, table).Some?
      && !ScanFrom(data, 0, 0, spec, table)
  {
    var inner := ScanSpec({}, map[], map[], {}, map[]);
    var spec := ScanSpec({1}, map[1 := "inner"], map[], {}, map[]);
    var table := map["inner" := inner];
    hide Decode, MergeBytes, TakeRecord, TakeToken, ScanFrom, Canonical;
    LoneTag(0x08);
    PairIsCanonical(inner, table);
    HalvesAreBroken(0x08, 0x05, spec, inner, table);
    HalvesRecords(0x08, 0x05);
    var data := Halves(0x08, 0x05);
    RecordIsToken(data);
    assert GuardChild(spec, table, 1) == Some(inner);
    hide Halves, GuardChild;
    ScanUnfold(data, 0, 0, spec, table);
    ScanUnfold([0x08], 0, 0, inner, table);
  }

  /**
    Inside a google message the guard does not look at all: it accepts two halves of a
    Struct that no protobuf decoder accepts, and the merger joins them.
   */
  lemma GoogleHalvesPassTheGuard(generated: Table)
    requires SoundTable(generated)
    ensures var spec := ScanSpec({1}, map[], map[1 := "google.protobuf.Struct"], {}, map[]);
            var table := WithGoogle(generated);
            var data := Halves(0x0A, 0x00);
      && ScanFrom(data, 0, 0, spec, table)
      && Decode(Merging, EMPTY, data, spec, table).None?
      && MergeBytes(data, spec, table).Some?
  {
    var spec := ScanSpec({1}, map[], map[1 := "google.protobuf.Struct"], {}, map[]);
    var table := WithGoogle(generated);
    GoogleIsSound(generated);
    assert MergeChild(spec, table, 1) == Some(GOOGLE_STRUCT);
    hide Decode, MergeBytes, WithGoogle, TakeRecord, TakeToken, Canonical, SoundTable, ScanFrom;
    LoneTag(0x0A);
    EmptyEntryIsCanonical(table);
    HalvesAreBroken(0x0A, 0x00, spec, GOOGLE_STRUCT, table);
    HalvesRecords(0x0A, 0x00);
    var data := Halves(0x0A, 0x00);
    RecordIsToken(data);
    RecordIsToken(data[3..]);
    ScanUnfold(data, 0, 0, spec, table);
    ScanUnfold(data[3..], 0, 0, spec, table);
    ScanDone(data[3..][3..], 0, 0, spec, table);
  }

  lemma RecordIsToken(s: bytes)
    requires TakeRecord(s).Some? && TakeRecord(s).value.wireType == LEN
    ensures TakeToken(Loose, s).Some?
    ensures var t, r := TakeToken(Loose, s).value, TakeRecord(s).value;
      t.field == r.number && t.wireType == LEN && t.payload == r.payload && t.size == |r.raw|
  {
  }

  lemma LoneTag(b: byte)
    requires 0 < b < 128 && (b % 8 == 0 || b % 8 == LEN)
    ensures TakeToken(Loose, [b]).None? && TakeRecord([b]).None?
  {
    VarintSizeAt([b], 1);
    assert [b][..1] == [b];
    assert Base128([b]) == b;
    assert [b][1..] == [];
  }

  lemma HalvesRecords(p: byte, q: byte)
    ensures var data := Halves(p, q);
      && TakeRecord(data) == Some(Record(1, LEN, [p], [0x0A, 0x01, p]))
      && TakeRecord(data[3..]) == Some(Record(1, LEN, [q], [0x0A, 0x01, q]))
      && data[3..][3..] == []
  {
    hide TakeRecord;
    var a: bytes, b: bytes := [0x0A, 0x01, p], [0x0A, 0x01, q];
    assert [0x0A, 0x01] + [p] == a && [0x0A, 0x01] + [q] == b && b + [] == b;
    ShortRecord(0x0A, 0x01, [p], b);
    ShortRecord(0x0A, 0x01, [q], []);
    assert Halves(p, q)[3..] == b && b[3..] == [];
  }

  lemma HalvesAreBroken(p: byte, q: byte, spec: ScanSpec, inner: ScanSpec, table: Table)
    requires HoldsOne(spec, table, inner) && TakeRecord([p]).None? && Canonical([p, q], inner, table)
    requires SoundTable(table)
    ensures Decode(Merging, EMPTY, Halves(p, q), spec, table).None?
    ensures MergeBytes(Halves(p, q), spec, table).Some?
  {
    HalvesRecords(p, q);
    var data := Halves(p, q);
    var r1, r2 := Record(1, LEN, [p], [0x0A, 0x01, p]), Record(1, LEN, [q], [0x0A, 0x01, q]);
    hide TakeRecord, Canonical, MergeBytes, Decode, SoundTable;
    NoRecordNoDecode(Merging, EMPTY, [p], inner, table);
    DecodeCons(Merging, EMPTY, data, r1, spec, table);
    SoundChild(spec, table, 1);
    CanonicalIsReused([p, q], inner, table);
    assert r1.payload + r2.payload == [p, q];
    HalvesMerge(data, r1, r2, spec, inner, table);
  }

  lemma HalvesMerge(data: bytes, r1: Record, r2: Record, spec: ScanSpec, inner: ScanSpec, table: Table)
    requires HoldsOne(spec, table, inner)
    requires r1.number == r2.number == 1 && r1.wireType == r2.wireType == LEN && |r1.payload| == |r2.payload| == 1
    requires |data| == 6 && TakeRecord(data) == Some(r1) && TakeRecord(data[3..]) == Some(r2)
    requires |r1.raw| == |r2.raw| == 3
    requires MergeBytes(r1.payload + r2.payload, inner, table).Some?
    ensures MergeBytes(data, spec, table).Some?
  {
    hide TakeRecord, MergeBytes;
    var slot := Slot(r1, [r1.payload, r2.payload], Some(inner));
    var st1 := State([Some(Slot(r1, [r1.payload], Some(inner)))], map[1 := 0], None, false);
    var st2 := State([Some(slot)], map[1 := 0], None, true);
    assert CollectStep(INITIAL, r1, spec, table) == st1;
    assert [r1.payload] + [r2.payload] == slot.payloads;
    assert CollectStep(st1, r2, spec, table) == st2 by {
      assert st1.fields[0 := Some(slot)] == st2.fields;
    }
    assert data[3..][3..] == [];
    assert Collect(INITIAL, data, spec, table) == Some(st2) by {
      hide Collect, CollectStep;
      CollectUnfold(INITIAL, data, spec, table);
      CollectUnfold(st1, data[3..], spec, table);
      CollectEnd(st2, data[3..][3..], spec, table);
    }
    assert Concat(slot.payloads) == r1.payload + r2.payload by {
      ConcatOne(r1.payload);
      ConcatSnoc([r1.payload], r2.payload);
    }
    CollectBelow(INITIAL, data, spec, table, 0);
    assert st2.fields[..0] == [];
    HalvesRender(st2.fields, slot, table);
    MergeIs(data, spec, table, st2);
  }

  lemma HalvesRender(fields: seq<Option<Slot>>, slot: Slot, table: Table)
    requires fields == [Some(slot)] && |slot.payloads| == 2 && slot.child.Some? && Below(fields, 6)
    requires MergeBytes(Concat(slot.payloads), slot.child.value, table).Some?
    ensures Render(fields, table, 6).Some?
  {
    hide EncodeRecord, MergeBytes, Concat;
    assert fields[..0] == [];
    assert RenderSlot(slot, table).Some?;
  }

  lemma MergeIs(data: bytes, spec: ScanSpec, table: Table, st: State)
    requires Collect(INITIAL, data, spec, table) == Some(st) && Below(st.fields, |data|)
    requires Render(st.fields, table, |data|).Some?
    ensures MergeBytes(data, spec, table).Some?
  {
    hide Collect, Render;
  }

  lemma PairIsCanonical(inner: ScanSpec, table: Table)
    requires inner == ScanSpec({}, map[], map[], {}, map[])
    ensures Canonical([0x08, 0x05], inner, table)
  {
    var s: bytes := [0x08, 0x05];
    VarintSizeAt(s, 1);
    assert s[..1] == [0x08];
    assert Base128([0x08]) == 8;
    assert s[1..] == [0x05];
    VarintSizeAt(s[1..], 1);
    assert TakeToken(Loose, s) == Some(Token(1, 0, [], 2));
    assert s[..2] == s;
    hide TakeToken, Canonical;
    OneRecord(s, Record(1, 0, [], s));
    CanonicalIs(s, inner, table);
  }

  lemma EmptyEntryIsCanonical(table: Table)
    ensures Canonical([0x0A, 0x00], GOOGLE_STRUCT, table)
  {
    var s: bytes := [0x0A, 0x00];
    hide TakeRecord, Canonical;
    ShortRecord(0x0A, 0x00, [], []);
    assert s + [] + [] == s && s + [] == s;
    var x := Record(1, LEN, [], s);
    OneRecord(s, x);
    assert MergeChild(GOOGLE_STRUCT, table, 1).Some? ==>
      Canonical([], MergeChild(GOOGLE_STRUCT, table, 1).value, table) by { EmptyIsCanonical(table); }
    CanonicalIs(s, GOOGLE_STRUCT, table);
  }

  lemma EmptyIsCanonical(table: Table)
    ensures forall child: ScanSpec :: Canonical([], child, table)
  {
    RecordsNil([]);
  }

  // ---------------------------------------------------------------------------
  // Forward compatibility of decoding
  // ---------------------------------------------------------------------------

  /** The level says nothing about field `n`. */
  predicate Unmentioned(n: nat, spec: ScanSpec) {
    n !in spec.singular && n !in spec.arms && n !in spec.descend && n !in spec.google
  }

  /** Equal in every field the schema knows. */
  predicate SameKnown(m: Option<Message>, k: Option<Message>) {
    m.Some? == k.Some? && (m.Some? ==> m.value.one == k.value.one && m.value.many == k.value.many)
  }

  lemma StepIgnoresRest(rt: Runtime, m: Message, k: Message, r: Record, spec: ScanSpec, table: Table)
    requires m.one == k.one && m.many == k.many
    ensures SameKnown(Step(rt, m, r, spec, table), Step(rt, k, r, spec, table))
  {
    hide DecodeValue;
  }

  lemma {:induction false} DecodeIgnoresRest(
    rt: Runtime, m: Message, k: Message, s: bytes, spec: ScanSpec, table: Table)
    requires m.one == k.one && m.many == k.many
    ensures SameKnown(Decode(rt, m, s, spec, table), Decode(rt, k, s, spec, table))
    decreases |s|
  {
    hide Step, TakeRecord;
    if s != [] && TakeRecord(s).Some? {
      var r := TakeRecord(s).value;
      StepIgnoresRest(rt, m, k, r, spec, table);
      if Step(rt, m, r, spec, table).Some? {
        DecodeIgnoresRest(rt, Step(rt, m, r, spec, table).value, Step(rt, k, r, spec, table).value,
                          s[|r.raw|..], spec, table);
      }
    }
  }

  /** A failure in the first part of whole records is a failure of the whole. */
  lemma {:induction false} FailureStays(rt: Runtime, m: Message, a: bytes, b: bytes, spec: ScanSpec, table: Table)
    requires RecordsOf(a).Some? && Decode(rt, m, a, spec, table).None?
    ensures Decode(rt, m, a + b, spec, table).None?
    decreases |a|
  {
    hide TakeRecord, Step, Decode, RecordsOf;
    if a == [] {
      DecodeNil(rt, m, a, spec, table);
    } else {
      RecordsUnfold(a);
      var r := RecordsHead(a);
      DecodeCons(rt, m, a, r, spec, table);
      RecordPrefix(a, b);
      DecodeCons(rt, m, a + b, r, spec, table);
      assert (a + b)[|r.raw|..] == a[|r.raw|..] + b;
      if Step(rt, m, r, spec, table).Some? {
        FailureStays(rt, Step(rt, m, r, spec, table).value, a[|r.raw|..], b, spec, table);
      }
    }
  }

  /** Inserting an unknown record at a record boundary changes no known field, whichever decoder reads it. */
  lemma UnknownRecordChangesNothingKnown(
    rt: Runtime, a: bytes, x: bytes, b: bytes, spec: ScanSpec, table: Table)
    requires RecordsOf(a).Some?
    requires TakeRecord(x).Some? && TakeRecord(x).value.raw == x && Unmentioned(TakeRecord(x).value.number, spec)
    ensures SameKnown(Decode(rt, EMPTY, a + x + b, spec, table), Decode(rt, EMPTY, a + b, spec, table))
  {
    assert a + x + b == a + (x + b);
    if Decode(rt, EMPTY, a, spec, table).None? {
      hide Decode, RecordsOf;
      FailureStays(rt, EMPTY, a, x + b, spec, table);
      FailureStays(rt, EMPTY, a, b, spec, table);
    } else {
      var r := TakeRecord(x).value;
      var m := Decode(rt, EMPTY, a, spec, table).value;
      assert Step(rt, m, r, spec, table) == Some(m.(rest := m.rest + [r.raw]));
      hide Decode, TakeRecord, Step;
      DecodeConcat(rt, EMPTY, a, b, spec, table);
      DecodeConcat(rt, EMPTY, a, x, spec, table);
      DecodeOneRecord(rt, m, x, r, spec, table);
      DecodeConcat(rt, EMPTY, a + x, b, spec, table);
      DecodeIgnoresRest(rt, Step(rt, m, r, spec, table).value, m, b, spec, table);
    }
  }
}
