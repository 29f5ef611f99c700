/**
  Messages as a .proto file declares them, and the two decoders written from the declarations
  alone. The scan tables are an abridgement of the declarations; read by either, bytes mean the same.
 */
module Schema {
  import opened Options
  import opened Varint
  import opened ScanTable
  import opened ScanGraph
  import opened Records
  import opened Decoders
  import opened MergerCases

  datatype Rule = Single | Repeated | Arm

  datatype Kind = OfMessage(name: string) | OfScalar(wireType: nat)

  datatype Field = Field(number: nat, rule: Rule, kind: Kind)

  type Declarations = map<string, seq<Field>>

  /** How a scalar travels: section "Message Structure" of the Protocol Buffers Encoding guide. Enums are varints. */
  function ScalarWire(t: string): nat {
    if t in {"double", "fixed64", "sfixed64"} then 1
    else if t in {"float", "fixed32", "sfixed32"} then 5
    else if t in {"string", "bytes"} then 2
    else 0
  }

  function WireOf(kind: Kind): nat {
    match kind
    case OfMessage(_) => 2
    case OfScalar(w) => w
  }

  /** A type is a message if the schema has one of that name, or it is one of protobuf's own. */
  function KindOf(t: string, byName: Messages): Kind {
    if t in byName || (|t| >= 16 && t[..16] == "google.protobuf.") then OfMessage(t) else OfScalar(ScalarWire(t))
  }

  /** The declarations a wire message is rendered as. */
  function DeclarationsOf(m: WireMessage, byName: Messages): seq<Field> {
    seq(|m.fields|, i requires 0 <= i < |m.fields| =>
      Field(m.fields[i].number, if m.fields[i].repeated then Repeated else Single,
            KindOf(m.fields[i].typeName, byName)))
    + seq(|m.oneof|, i requires 0 <= i < |m.oneof| =>
      Field(m.oneof[i].number, Arm, KindOf(m.oneof[i].typeName, byName)))
  }

  /** google/protobuf/struct.proto; `map<string, Value> fields` is a repeated entry message. */
  const STRUCT_PROTO: Declarations := map[
    "google.protobuf.Struct" := [Field(1, Repeated, OfMessage("google.protobuf.Struct.FieldsEntry"))],
    "google.protobuf.Struct.FieldsEntry" := [
      Field(1, Single, OfScalar(ScalarWire("string"))),
      Field(2, Single, OfMessage("google.protobuf.Value"))],
    "google.protobuf.Value" := [
      Field(1, Arm, OfScalar(ScalarWire("NullValue"))),
      Field(2, Arm, OfScalar(ScalarWire("double"))),
      Field(3, Arm, OfScalar(ScalarWire("string"))),
      Field(4, Arm, OfScalar(ScalarWire("bool"))),
      Field(5, Arm, OfMessage("google.protobuf.Struct")),
      Field(6, Arm, OfMessage("google.protobuf.ListValue"))],
    "google.protobuf.ListValue" := [Field(1, Repeated, OfMessage("google.protobuf.Value"))]
  ]

  function SchemaOf(byName: Messages): Declarations {
    (map name | name in byName :: DeclarationsOf(byName[name], byName)) + STRUCT_PROTO
  }

  // ---------------------------------------------------------------------------
  // Decoding by the declarations
  // ---------------------------------------------------------------------------

  function Numbered(fields: seq<Field>, n: nat): Option<Field> {
    if fields == [] then None
    else if fields[0].number == n then Some(fields[0])
    else Numbered(fields[1..], n)
  }

  predicate IsArmNumber(fields: seq<Field>, n: nat) {
    Numbered(fields, n).Some? && Numbered(fields, n).value.rule == Arm
  }

  /** Setting a oneof's field clears the others; only the merging runtime knows. */
  function SetArm(rt: Runtime, m: Message, fields: seq<Field>, f: Field): Message {
    if rt == Replacing || f.rule != Arm then m
    else m.(one := map n | n in m.one && (n == f.number || !IsArmNumber(fields, n)) :: m.one[n])
  }

  /** One record: unknown and mistyped ones are left as they are, and so are scalars outside a oneof. */
  function SchemaStep(rt: Runtime, m: Message, r: Record, fields: seq<Field>, schema: Declarations): Option<Message>
    decreases |r.payload|, 1
  {
    match Numbered(fields, r.number)
    case None => Some(m.(rest := m.rest + [r.raw]))
    case Some(f) =>
      if r.wireType != WireOf(f.kind) then Some(m.(rest := m.rest + [r.raw]))
      else
        var m := SetArm(rt, m, fields, f);
        var n := f.number;
        match f.kind
        case OfScalar(_) =>
          if f.rule == Arm then Some(m.(one := m.one[n := Scalar(r.raw)])) else Some(m.(rest := m.rest + [r.raw]))
        case OfMessage(name) =>
          if f.rule == Repeated then
            var v :- SchemaValue(rt, None, r.payload, name, schema);
            Some(m.(many := m.many[n := if n in m.many then m.many[n] + [v] else [v]]))
          else
            var base := if rt == Merging && n in m.one then Some(m.one[n]) else None;
            var v :- SchemaValue(rt, base, r.payload, name, schema);
            Some(m.(one := m.one[n := v]))
  }

  /** A message of a type the schema does not have is kept as bytes. */
  function SchemaValue(rt: Runtime, base: Option<Value>, payload: bytes, name: string,
    schema: Declarations): Option<Value>
    decreases |payload|, 0, 1
  {
    if name !in schema then
      Some(Leaf(if base.Some? && base.value.Leaf? then base.value.data + payload else payload))
    else
      var m :- SchemaDecode(
        rt, if base.Some? && base.value.Node? then base.value.msg else EMPTY, payload, schema[name], schema);
      Some(Node(m))
  }

  function SchemaDecode(rt: Runtime, m: Message, s: bytes, fields: seq<Field>, schema: Declarations): Option<Message>
    decreases |s|, 0, 0
  {
    if s == [] then Some(m)
    else
      var r :- TakeRecord(s);
      var m' :- SchemaStep(rt, m, r, fields, schema);
      SchemaDecode(rt, m', s[|r.raw|..], fields, schema)
  }

  lemma SchemaNil(rt: Runtime, m: Message, s: bytes, fields: seq<Field>, schema: Declarations)
    requires s == []
    ensures SchemaDecode(rt, m, s, fields, schema) == Some(m)
  {
  }

  lemma SchemaCons(rt: Runtime, m: Message, s: bytes, fields: seq<Field>, schema: Declarations)
    requires s != []
    ensures SchemaDecode(rt, m, s, fields, schema) ==
      match TakeRecord(s)
      case None => None
      case Some(r) =>
        match SchemaStep(rt, m, r, fields, schema)
        case None => None
        case Some(m') => SchemaDecode(rt, m', s[|r.raw|..], fields, schema)
  {
    hide TakeRecord, SchemaStep;
  }

  // ---------------------------------------------------------------------------
  // A table that abridges the declarations
  // ---------------------------------------------------------------------------

  /** What the table says of field `n` is what the declarations say. */
  ghost predicate SameField(spec: ScanSpec, fields: seq<Field>, n: nat) {
    match Numbered(fields, n)
    case None => n !in spec.arms && n !in spec.singular && ChildName(spec, n) == None
    case Some(f) =>
      && (n in spec.arms <==> f.rule == Arm)
      && (f.rule == Arm ==> ArmWireType(spec, n) == WireOf(f.kind))
      && (n in spec.singular <==> f.kind.OfMessage? && f.rule != Repeated)
      && ChildName(spec, n) == (if f.kind.OfMessage? then Some(f.kind.name) else None)
  }

  ghost predicate SameLevel(spec: ScanSpec, fields: seq<Field>, table: Table, schema: Declarations) {
    && (forall n :: SameField(spec, fields, n))
    && (forall n :: ChildName(spec, n).Some? ==>
          (ChildName(spec, n).value in table <==> ChildName(spec, n).value in schema))
  }

  ghost predicate SameTables(table: Table, schema: Declarations) {
    forall name <- table :: name in schema && SameLevel(table[name], schema[name], table, schema)
  }

  lemma NumberedIs(fields: seq<Field>, n: nat)
    ensures Numbered(fields, n).Some? ==> Numbered(fields, n).value in fields && Numbered(fields, n).value.number == n
    ensures Numbered(fields, n).None? ==> forall f <- fields :: f.number != n
  {
    if fields != [] {
      NumberedIs(fields[1..], n);
      assert fields == [fields[0]] + fields[1..];
    }
  }

  lemma SameAppend(m: Message, n: nat, v: Value)
    ensures Append(m, n, v) == m.(many := m.many[n := if n in m.many then m.many[n] + [v] else [v]])
  {
    assert [] + [v] == [v];
  }

  lemma SameClear(m: Message, spec: ScanSpec, fields: seq<Field>, f: Field)
    requires forall n :: SameField(spec, fields, n)
    requires Numbered(fields, f.number) == Some(f) && f.rule == Arm
    ensures SetArm(Merging, m, fields, f) == ClearOthers(m, spec.arms, f.number)
  {
    forall n ensures n in spec.arms <==> IsArmNumber(fields, n) {
      assert SameField(spec, fields, n);
      NumberedIs(fields, n);
    }
    hide SameField, IsArmNumber;
    assert SetArm(Merging, m, fields, f).one == ClearOthers(m, spec.arms, f.number).one;
  }

  lemma SameLeaf(base: Option<Value>, payload: bytes, name: string, schema: Declarations, rt: Runtime, table: Table)
    requires name !in schema
    ensures SchemaValue(rt, base, payload, name, schema) == DecodeValue(rt, base, payload, None, table)
  {
    assert [] + payload == payload;
  }

  lemma {:induction false} SameValue(
    rt: Runtime, base: Option<Value>, payload: bytes, name: string, schema: Declarations, table: Table)
    requires SameTables(table, schema) && (name in table <==> name in schema)
    ensures SchemaValue(rt, base, payload, name, schema) == DecodeValue(rt, base, payload, Lookup(table, name), table)
    decreases |payload|, 0, 1
  {
    if name in schema {
      hide SameLevel, Decode, SchemaDecode;
      TablesDecodeAlike(
        rt, if base.Some? && base.value.Node? then base.value.msg else EMPTY, payload, table[name], schema[name],
        table, schema);
    } else {
      SameLeaf(base, payload, name, schema, rt, table);
    }
  }

  /** How the table sorts a record: as an arm, a single message, a message or none of these. */
  lemma SameSort(r: Record, spec: ScanSpec, fields: seq<Field>, f: Option<Field>)
    requires SameField(spec, fields, r.number) && Numbered(fields, r.number) == f
    ensures f.None? || r.wireType != WireOf(f.value.kind) ==> !IsArm(r, spec) && !IsMessage(r, spec)
    ensures f.Some? && r.wireType == WireOf(f.value.kind) ==>
      && (IsArm(r, spec) <==> f.value.rule == Arm)
      && (IsMessage(r, spec) <==> f.value.kind.OfMessage?)
      && (IsSingle(r, spec) <==> f.value.kind.OfMessage? && f.value.rule != Repeated)
      && (f.value.kind.OfMessage? ==> ChildName(spec, r.number) == Some(f.value.kind.name))
  {
    hide Numbered, ArmWireType, ChildName;
  }

  lemma {:induction false} SameStep(
    rt: Runtime, m: Message, r: Record, spec: ScanSpec, fields: seq<Field>, table: Table, schema: Declarations)
    requires SameTables(table, schema) && SameLevel(spec, fields, table, schema)
    ensures SchemaStep(rt, m, r, fields, schema) == Step(rt, m, r, spec, table)
    decreases |r.payload|, 1
  {
    var n := r.number;
    var f := Numbered(fields, n);
    assert SameField(spec, fields, n);
    NumberedIs(fields, n);
    SameSort(r, spec, fields, f);
    if f.Some? && f.value.rule == Arm { SameClear(m, spec, fields, f.value); }
    hide SchemaValue, DecodeValue, SameTables, SetArm, ClearOthers, SameField, Numbered, ChildName, ArmWireType;
    hide IsArm, IsMessage, IsSingle, WireOf;
    if f.Some? && r.wireType == WireOf(f.value.kind) {
      var m' := SetArm(rt, m, fields, f.value);
      assert m' == if rt == Merging && IsArm(r, spec) then ClearOthers(m, spec.arms, n) else m by {
        NoArmNoClear(rt, m, fields, f.value);
      }
      if f.value.kind.OfMessage? {
        SameValue(rt, if rt == Merging && n in m'.one then Some(m'.one[n]) else None, r.payload, f.value.kind.name,
                  schema, table);
        SameValue(rt, None, r.payload, f.value.kind.name, schema, table);
        var v := SchemaValue(rt, None, r.payload, f.value.kind.name, schema);
        if v.Some? { SameAppend(m, n, v.value); }
      }
    }
  }

  lemma NoArmNoClear(rt: Runtime, m: Message, fields: seq<Field>, f: Field)
    ensures rt == Replacing || f.rule != Arm ==> SetArm(rt, m, fields, f) == m
  {
  }

  /** Decoding by the table is decoding by the declarations it abridges. */
  lemma {:induction false} TablesDecodeAlike(
    rt: Runtime, m: Message, s: bytes, spec: ScanSpec, fields: seq<Field>, table: Table, schema: Declarations)
    requires SameTables(table, schema) && SameLevel(spec, fields, table, schema)
    ensures SchemaDecode(rt, m, s, fields, schema) == Decode(rt, m, s, spec, table)
    decreases |s|, 0, 0
  {
    hide TakeRecord, Step, SchemaStep, Decode, SchemaDecode, SameLevel, SameTables;
    if s == [] {
      DecodeNil(rt, m, s, spec, table);
      SchemaNil(rt, m, s, fields, schema);
    } else {
      SchemaCons(rt, m, s, fields, schema);
      if TakeRecord(s).Some? {
        var r := TakeRecord(s).value;
        DecodeCons(rt, m, s, r, spec, table);
        SameStep(rt, m, r, spec, fields, table, schema);
        if Step(rt, m, r, spec, table).Some? {
          TablesDecodeAlike(rt, Step(rt, m, r, spec, table).value, s[|r.raw|..], spec, fields, table, schema);
        }
      } else {
        NoRecord(rt, m, s, spec, table);
      }
    }
  }

  lemma NoRecord(rt: Runtime, m: Message, s: bytes, spec: ScanSpec, table: Table)
    requires s != [] && TakeRecord(s).None?
    ensures Decode(rt, m, s, spec, table) == None
  {
  }
}
