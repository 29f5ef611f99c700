/**
  Two decoders over the same schema knowledge. `Merging` is the protobuf rule: a repeated
  singular message is parsed into the one already there, and setting a oneof arm clears
  the others. `Replacing` is what ts-proto does: each occurrence starts afresh and arms
  are independent fields.
 */
module Decoders {
  import opened Options
  import opened Varint
  import opened Tokens
  import opened ScanTable
  import opened Records

  datatype Runtime = Merging | Replacing

  /**
    What a message level decodes to. `one` holds singular messages and oneof arms, `many`
    repeated messages, `rest` every other record in wire order.
   */
  datatype Message = Message(one: map<nat, Value>, many: map<nat, seq<Value>>, rest: seq<bytes>)

  /** A message whose inside the table does not describe is a `Leaf`: its bytes, concatenated when merged. */
  datatype Value = Leaf(data: bytes) | Node(msg: Message) | Scalar(raw: bytes)

  const EMPTY: Message := Message(map[], map[], [])

  predicate IsArm(r: Record, spec: ScanSpec) {
    r.number in spec.arms && r.wireType == ArmWireType(spec, r.number)
  }

  predicate IsMessage(r: Record, spec: ScanSpec) {
    r.wireType == LEN && (r.number in spec.singular || ChildName(spec, r.number).Some?)
  }

  predicate IsSingle(r: Record, spec: ScanSpec) {
    IsMessage(r, spec) && r.number in spec.singular
  }

  function ClearOthers(m: Message, arms: set<nat>, n: nat): Message {
    m.(one := m.one - (arms - {n}))
  }

  function Put(m: Message, n: nat, v: Value): Message {
    m.(one := m.one[n := v])
  }

  function Append(m: Message, n: nat, v: Value): Message {
    m.(many := m.many[n := (if n in m.many then m.many[n] else []) + [v]])
  }

  /** Parses a payload into `base`, the value already present (a fresh one if None). */
  function DecodeValue(rt: Runtime, base: Option<Value>, payload: bytes, child: Option<ScanSpec>, table: Table)
    : Option<Value>
    decreases |payload|, 1
  {
    match child
    case None => Some(Leaf((if base.Some? && base.value.Leaf? then base.value.data else []) + payload))
    case Some(spec) =>
      var m :- Decode(rt, if base.Some? && base.value.Node? then base.value.msg else EMPTY, payload, spec, table);
      Some(Node(m))
  }

  /** The effect of one record. */
  function Step(rt: Runtime, m: Message, r: Record, spec: ScanSpec, table: Table): Option<Message>
    decreases |r.payload|, 2
  {
    var n := r.number;
    var child := MergeChild(spec, table, n);
    var m := if rt == Merging && IsArm(r, spec) then ClearOthers(m, spec.arms, n) else m;
    if IsSingle(r, spec) then
      var base := if rt == Merging && n in m.one then Some(m.one[n]) else None;
      var v :- DecodeValue(rt, base, r.payload, child, table);
      Some(Put(m, n, v))
    else if IsArm(r, spec) then Some(Put(m, n, Scalar(r.raw)))
    else if IsMessage(r, spec) then
      var v :- DecodeValue(rt, None, r.payload, child, table);
      Some(Append(m, n, v))
    else Some(m.(rest := m.rest + [r.raw]))
  }

  /** Decodes `s` into `m`. None for malformed bytes, at this level or in any payload descended into. */
  function Decode(rt: Runtime, m: Message, s: bytes, spec: ScanSpec, table: Table): Option<Message>
    decreases |s|, 0
  {
    if s == [] then Some(m)
    else
      var r :- TakeRecord(s);
      var m' :- Step(rt, m, r, spec, table);
      Decode(rt, m', s[|r.raw|..], spec, table)
  }

  lemma DecodeNil(rt: Runtime, m: Message, s: bytes, spec: ScanSpec, table: Table)
    requires s == []
    ensures Decode(rt, m, s, spec, table) == Some(m)
  {
  }

  lemma DecodeCons(rt: Runtime, m: Message, s: bytes, r: Record, spec: ScanSpec, table: Table)
    requires s != [] && TakeRecord(s) == Some(r)
    ensures Decode(rt, m, s, spec, table) == match Step(rt, m, r, spec, table)
                                             case None => None
                                             case Some(m') => Decode(rt, m', s[|r.raw|..], spec, table)
  {
    hide TakeRecord, Step;
  }

  /** Decoding a concatenation is decoding the first part and then the second into the result. */
  lemma {:induction false} DecodeConcat(rt: Runtime, m: Message, a: bytes, b: bytes, spec: ScanSpec, table: Table)
    requires Decode(rt, m, a, spec, table).Some?
    ensures Decode(rt, m, a + b, spec, table) == Decode(rt, Decode(rt, m, a, spec, table).value, b, spec, table)
    decreases |a|
  {
    hide TakeRecord, Step, Decode;
    if a == [] {
      assert a + b == b;
      DecodeNil(rt, m, a, spec, table);
    } else {
      var r := DecodeHead(rt, m, a, spec, table);
      DecodeCons(rt, m, a, r, spec, table);
      RecordPrefix(a, b);
      DecodeCons(rt, m, a + b, r, spec, table);
      assert (a + b)[|r.raw|..] == a[|r.raw|..] + b;
      DecodeConcat(rt, Step(rt, m, r, spec, table).value, a[|r.raw|..], b, spec, table);
    }
  }

  lemma DecodeHead(rt: Runtime, m: Message, s: bytes, spec: ScanSpec, table: Table) returns (r: Record)
    requires s != [] && Decode(rt, m, s, spec, table).Some?
    ensures TakeRecord(s) == Some(r)
    ensures Step(rt, m, r, spec, table).Some?
  {
    r := TakeRecord(s).value;
  }

  /**
    The protobuf merge law: parsing two payloads into one value, one after the other, is
    parsing their concatenation.
   */
  lemma MergeLaw(base: Option<Value>, p: bytes, q: bytes, child: Option<ScanSpec>, table: Table)
    requires DecodeValue(Merging, base, p, child, table).Some?
    ensures DecodeValue(Merging, DecodeValue(Merging, base, p, child, table), q, child, table)
         == DecodeValue(Merging, base, p + q, child, table)
  {
    if child.None? {
      var d := if base.Some? && base.value.Leaf? then base.value.data else [];
      assert (d + p) + q == d + (p + q);
    } else {
      hide Decode;
      var m := if base.Some? && base.value.Node? then base.value.msg else EMPTY;
      DecodeConcat(Merging, m, p, q, child.value, table);
    }
  }
}
