/**
  The graph builder, judged by the messages it is given: what its tables say of each field, and
  that bytes merged with them read as the declarations demand.
 */
module SchemaReading {
  import opened Options
  import opened Varint
  import opened ScanTable
  import opened ScanGraph
  import opened ScanPrune
  import opened Records
  import opened Decoders
  import opened DecodeExact
  import opened Merger
  import opened MergerCases
  import opened GuardGap
  import opened MergerPrune
  import opened MergerPruneExact
  import opened ShippedTables
  import opened Schema

  const EVENT := "Event"

  /**
    What the wire model guarantees: an `Event` that is a oneof and nothing else, distinct legal
    numbers, and oneof entries that travel with a length, being messages.
   */
  ghost predicate WireModel(byName: Messages) {
    && OwnMessages(byName) && EVENT in byName && byName[EVENT].fields == []
    && forall name <- byName :: forall f <- byName[name].oneof :: WireOf(KindOf(f.typeName, byName)) == 2
  }

  // ---------------------------------------------------------------------------
  // A table entry and its message
  // ---------------------------------------------------------------------------

  /** A field or oneof entry of the message has this number and type. */
  ghost predicate HasField(m: WireMessage, n: nat, t: string) {
    exists f <- AllFields(m) :: f.number == n && f.typeName == t
  }

  ghost predicate HasSingle(m: WireMessage, n: nat, byName: Messages) {
    exists f <- AllFields(m) :: f.number == n && !f.repeated && KindOf(f.typeName, byName).OfMessage?
  }

  /** The entry lists the message's own fields, by what they are. */
  ghost predicate Lists(spec: ScanSpec, m: WireMessage, byName: Messages) {
    && (forall n :: n in spec.singular <==> HasSingle(m, n, byName))
    && (forall n, t :: n in spec.descend && spec.descend[n] == t <==> HasField(m, n, t) && t in byName)
    && (forall n, t :: n in spec.google && spec.google[n] == t <==> HasField(m, n, t) && "google.protobuf." <= t)
    && (forall n :: n in spec.arms <==> exists f <- m.oneof :: f.number == n)
    && spec.armWireTypes == map[]
  }

  lemma GoogleKind(t: string, byName: Messages)
    ensures IsMessageType(t, byName) <==> KindOf(t, byName).OfMessage?
    ensures IsGoogle(t) <==> "google.protobuf." <= t
  {
    assert |GOOGLE| == 16;
    assert |t| >= 16 && t[..16] == GOOGLE <==> GOOGLE <= t;
  }

  lemma TypedIs(m: WireMessage, p: string -> bool, n: nat, t: string)
    requires WellNumbered(m)
    ensures n in Typed(AllFields(m), p) && Typed(AllFields(m), p)[n] == t <==> HasField(m, n, t) && p(t)
  {
    hide WellNumbered;
    var fields := AllFields(m);
    if HasField(m, n, t) && p(t) {
      var f :| f in fields && f.number == n && f.typeName == t;
      var g :| g in fields && g.number == n && p(g.typeName) && Typed(fields, p)[n] == g.typeName;
      OneFieldPerNumber(m, f, g);
    }
  }

  /** The builder's entry for a message lists exactly its message fields and its oneof. */
  lemma SpecLists(m: WireMessage, byName: Messages)
    requires WellNumbered(m)
    ensures Lists(SpecOf(m, byName), m, byName)
  {
    hide WellNumbered, Typed;
    var spec, fields := SpecOf(m, byName), AllFields(m);
    forall n, t
      ensures n in spec.descend && spec.descend[n] == t <==> HasField(m, n, t) && t in byName
      ensures n in spec.google && spec.google[n] == t <==> HasField(m, n, t) && "google.protobuf." <= t
    {
      TypedIs(m, t => t in byName, n, t);
      TypedIs(m, IsGoogle, n, t);
      GoogleKind(t, byName);
    }
    forall n ensures n in spec.singular <==> HasSingle(m, n, byName) {
      forall f | f in fields ensures IsMessageType(f.typeName, byName) <==> KindOf(f.typeName, byName).OfMessage? {
        GoogleKind(f.typeName, byName);
      }
    }
  }

  // ---------------------------------------------------------------------------
  // The table abridges the declarations
  // ---------------------------------------------------------------------------

  lemma DeclaredAt(m: WireMessage, byName: Messages, i: nat)
    requires i < |AllFields(m)|
    ensures var d, f := DeclarationsOf(m, byName), AllFields(m)[i];
      && |d| == |AllFields(m)|
      && d[i] == Field(f.number, if i >= |m.fields| then Arm else if f.repeated then Repeated else Single,
                       KindOf(f.typeName, byName))
      && (i >= |m.fields| ==> f in m.oneof)
  {
  }

  lemma NumberedAt(m: WireMessage, byName: Messages, i: nat)
    requires WellNumbered(m) && i < |AllFields(m)|
    ensures Numbered(DeclarationsOf(m, byName), AllFields(m)[i].number) == Some(DeclarationsOf(m, byName)[i])
  {
    hide DeclarationsOf;
    var d, n := DeclarationsOf(m, byName), AllFields(m)[i].number;
    DeclaredAt(m, byName, i);
    NumberedIs(d, n);
    assert d[i] in d && d[i].number == n;
    var found := Numbered(d, n).value;
    var j :| 0 <= j < |d| && d[j] == found;
    DeclaredAt(m, byName, j);
  }

  lemma NumberedNone(m: WireMessage, byName: Messages, n: nat)
    requires Numbered(DeclarationsOf(m, byName), n).Some?
    ensures exists i :: 0 <= i < |AllFields(m)| && AllFields(m)[i].number == n
  {
    hide DeclarationsOf;
    var d := DeclarationsOf(m, byName);
    NumberedIs(d, n);
    var j :| 0 <= j < |d| && d[j].number == n;
    assert |d| == |AllFields(m)| by {
      if AllFields(m) != [] { DeclaredAt(m, byName, 0); } else { NoFields(m, byName); }
    }
    DeclaredAt(m, byName, j);
  }

  lemma NoFields(m: WireMessage, byName: Messages)
    requires AllFields(m) == []
    ensures DeclarationsOf(m, byName) == []
  {
    assert |m.fields| + |m.oneof| == |AllFields(m)|;
  }

  /** The entry says of every number what the declarations say. */
  lemma EntryIsDeclared(m: WireMessage, byName: Messages, spec: ScanSpec, n: nat)
    requires WellNumbered(m) && Lists(spec, m, byName) && (forall name <- byName :: !IsGoogle(name))
    requires forall f <- m.oneof :: WireOf(KindOf(f.typeName, byName)) == 2
    ensures SameField(spec, DeclarationsOf(m, byName), n)
  {
    hide DeclarationsOf, KindOf;
    var d, fields := DeclarationsOf(m, byName), AllFields(m);
    if i :| 0 <= i < |fields| && fields[i].number == n {
      NumberedAt(m, byName, i);
      DeclaredAt(m, byName, i);
      FieldIsDeclared(m, byName, spec, i);
    } else {
      if Numbered(d, n).Some? { NumberedNone(m, byName, n); assert false; }
      NumberIsAbsent(m, byName, spec, n);
    }
  }

  lemma ListedIsField(m: WireMessage, byName: Messages, spec: ScanSpec, n: nat)
    requires Lists(spec, m, byName) && (n in spec.descend || n in spec.google)
    ensures exists i :: 0 <= i < |AllFields(m)| && AllFields(m)[i].number == n
  {
    hide KindOf;
    var t := if n in spec.descend then spec.descend[n] else spec.google[n];
    assert HasField(m, n, t);
  }

  lemma NumberIsAbsent(m: WireMessage, byName: Messages, spec: ScanSpec, n: nat)
    requires Lists(spec, m, byName)
    requires forall i :: 0 <= i < |AllFields(m)| ==> AllFields(m)[i].number != n
    ensures n !in spec.arms && n !in spec.singular && ChildName(spec, n) == None
  {
    hide KindOf;
    assert !HasSingle(m, n, byName);
    if n in spec.descend || n in spec.google { ListedIsField(m, byName, spec, n); }
    assert forall f <- m.oneof :: f in AllFields(m);
  }

  lemma ArmPosition(m: WireMessage, i: nat)
    requires WellNumbered(m) && i < |AllFields(m)|
    ensures i >= |m.fields| <==> exists f <- m.oneof :: f.number == AllFields(m)[i].number
  {
    var fields := AllFields(m);
    if i >= |m.fields| {
      assert fields[i] in m.oneof;
    } else {
      forall f <- m.oneof ensures f.number != fields[i].number {
        var j :| 0 <= j < |m.oneof| && m.oneof[j] == f;
        assert fields[|m.fields| + j] == f;
      }
    }
  }

  lemma FieldIsDeclared(m: WireMessage, byName: Messages, spec: ScanSpec, i: nat)
    requires WellNumbered(m) && Lists(spec, m, byName) && i < |AllFields(m)|
    requires forall name <- byName :: !IsGoogle(name)
    requires forall f <- m.oneof :: WireOf(KindOf(f.typeName, byName)) == 2
    ensures var f := AllFields(m)[i];
      var n, kind := f.number, KindOf(f.typeName, byName);
      && (n in spec.arms <==> i >= |m.fields|)
      && (i >= |m.fields| ==> ArmWireType(spec, n) == WireOf(kind) && !f.repeated)
      && (n in spec.singular <==> kind.OfMessage? && !f.repeated)
      && ChildName(spec, n) == (if kind.OfMessage? then Some(kind.name) else None)
  {
    hide WellNumbered;
    var f := AllFields(m)[i];
    var n := f.number;
    assert f in AllFields(m);
    ArmPosition(m, i);
    if i >= |m.fields| { ArmsAreSingle(m, i); }
    GoogleKind(f.typeName, byName);
    assert HasField(m, n, f.typeName);
    if n in spec.descend { OnlyType(m, i, spec.descend[n]); }
    if n in spec.google { OnlyType(m, i, spec.google[n]); }
    if HasSingle(m, n, byName) {
      var g :| g in AllFields(m) && g.number == n && !g.repeated && KindOf(g.typeName, byName).OfMessage?;
      OneFieldPerNumber(m, f, g);
    }
  }

  lemma ArmsAreSingle(m: WireMessage, i: nat)
    requires WellNumbered(m) && |m.fields| <= i < |AllFields(m)|
    ensures !AllFields(m)[i].repeated
  {
    assert AllFields(m)[i] in m.oneof;
  }

  lemma OnlyType(m: WireMessage, i: nat, t: string)
    requires WellNumbered(m) && i < |AllFields(m)| && HasField(m, AllFields(m)[i].number, t)
    ensures t == AllFields(m)[i].typeName
  {
    hide WellNumbered;
    var g :| g in AllFields(m) && g.number == AllFields(m)[i].number && g.typeName == t;
    OneFieldPerNumber(m, AllFields(m)[i], g);
  }

  /** Everything the level names is in the table. */
  ghost predicate Reaches(spec: ScanSpec, specs: Table) {
    forall n <- spec.descend :: spec.descend[n] in specs
  }

  lemma LevelIsDeclared(name: string, byName: Messages, specs: Table)
    requires WireModel(byName) && name in byName && specs.Keys <= byName.Keys
    requires Reaches(SpecOf(byName[name], byName), specs)
    ensures SameLevel(SpecOf(byName[name], byName), DeclarationsOf(byName[name], byName),
                      WithGoogle(specs), SchemaOf(byName))
  {
    hide SpecOf, DeclarationsOf, KindOf, WellNumbered;
    var m, spec := byName[name], SpecOf(byName[name], byName);
    SpecLists(m, byName);
    forall n ensures SameField(spec, DeclarationsOf(m, byName), n) {
      EntryIsDeclared(m, byName, spec, n);
    }
    forall n | ChildName(spec, n).Some?
      ensures ChildName(spec, n).value in WithGoogle(specs) <==> ChildName(spec, n).value in SchemaOf(byName)
    {
      ChildIsDeclared(spec, m, byName, specs, n);
    }
  }

  lemma ChildIsDeclared(spec: ScanSpec, m: WireMessage, byName: Messages, specs: Table, n: nat)
    requires Lists(spec, m, byName) && specs.Keys <= byName.Keys && Reaches(spec, specs)
    requires forall name <- byName :: !IsGoogle(name)
    requires ChildName(spec, n).Some?
    ensures ChildName(spec, n).value in WithGoogle(specs) <==> ChildName(spec, n).value in SchemaOf(byName)
  {
    hide KindOf, DeclarationsOf;
    if n in spec.descend {
      assert HasField(m, n, spec.descend[n]) && spec.descend[n] in byName;
    } else {
      var t := spec.google[n];
      assert HasField(m, n, t) && "google.protobuf." <= t;
      GoogleKind(t, byName);
      assert t !in byName;
    }
  }

  lemma GoogleIsDeclared(specs: Table, byName: Messages, name: string)
    requires name in GOOGLE_NAMES
    ensures name in STRUCT_PROTO
    ensures SameLevel(WithGoogle(specs)[name], STRUCT_PROTO[name], WithGoogle(specs), SchemaOf(byName))
  {
    hide DeclarationsOf;
    var spec, d := WithGoogle(specs)[name], STRUCT_PROTO[name];
    forall n ensures SameField(spec, d, n) {
      GoogleField(name, specs, n);
    }
  }

  lemma GoogleField(name: string, specs: Table, n: nat)
    requires name in GOOGLE_NAMES
    ensures name in STRUCT_PROTO && SameField(WithGoogle(specs)[name], STRUCT_PROTO[name], n)
  {
    hide Numbered;
    var spec, d := WithGoogle(specs)[name], STRUCT_PROTO[name];
    assert forall i :: 0 <= i < |d| ==> d[i].number == i + 1;
    NumberedInOrder(d, n);
    if name == "google.protobuf.Value" {
      assert spec == GOOGLE_VALUE && |d| == 6;
      hide WithGoogle;
    } else if name == "google.protobuf.Struct.FieldsEntry" {
      assert spec == GOOGLE_FIELDS_ENTRY && |d| == 2;
    } else if name == "google.protobuf.Struct" {
      assert spec == GOOGLE_STRUCT && |d| == 1;
    } else {
      assert spec == GOOGLE_LIST_VALUE && |d| == 1;
    }
  }

  lemma NumberedInOrder(d: seq<Field>, n: nat)
    requires forall i :: 0 <= i < |d| ==> d[i].number == i + 1
    ensures Numbered(d, n) == if 1 <= n <= |d| then Some(d[n - 1]) else None
  {
    NumberedIs(d, n);
    if 1 <= n <= |d| { assert d[n - 1] in d; }
  }

  /** The whole table, google messages included, abridges the whole schema. */
  lemma TablesAreDeclared(byName: Messages, specs: Table)
    requires WireModel(byName) && Faithful(specs, byName) && ClosedOn(specs, specs.Keys)
    ensures SameTables(WithGoogle(specs), SchemaOf(byName))
  {
    hide SpecOf, DeclarationsOf, SameLevel, FitsMask, KindOf, OwnMessages;
    var table, schema := WithGoogle(specs), SchemaOf(byName);
    forall name <- table ensures name in schema && SameLevel(table[name], schema[name], table, schema) {
      if name in GOOGLE_NAMES {
        GoogleIsDeclared(specs, byName, name);
      } else {
        assert name in specs && table[name] == SpecOf(byName[name], byName);
        OwnIsDeclared(name, byName);
        LevelIsDeclared(name, byName, specs);
      }
    }
  }

  lemma OwnIsDeclared(name: string, byName: Messages)
    requires OwnMessages(byName) && name in byName
    ensures name !in GOOGLE_NAMES && SchemaOf(byName)[name] == DeclarationsOf(byName[name], byName)
  {
    GoogleNamesAreGoogle();
    hide DeclarationsOf, WellNumbered;
    assert STRUCT_PROTO.Keys == GOOGLE_NAMES;
  }

  // ---------------------------------------------------------------------------
  // Chains of messages
  // ---------------------------------------------------------------------------

  /** The message has a field or oneof entry whose type is the message `t`. */
  ghost predicate Holds(m: WireMessage, t: string, byName: Messages) {
    t in byName && exists f <- AllFields(m) :: f.typeName == t
  }

  /** Each message of the chain has a field of the next one's type. */
  ghost predicate Chain(byName: Messages, path: seq<string>) {
    && path != [] && (forall i :: 0 <= i < |path| ==> path[i] in byName)
    && (forall i :: 0 <= i < |path| - 1 ==> Holds(byName[path[i]], path[i + 1], byName))
  }

  /** A message inside some event, at any depth. */
  ghost predicate InEvent(byName: Messages, name: string)
    requires EVENT in byName
  {
    exists path :: Chain(byName, path) && Holds(byName[EVENT], path[0], byName) && path[|path| - 1] == name
  }

  /** A message with something a repetition could be wrong about: a oneof or a message that is not repeated. */
  ghost predicate Merges(m: WireMessage, byName: Messages) {
    m.oneof != [] || exists f <- AllFields(m) :: !f.repeated && KindOf(f.typeName, byName).OfMessage?
  }

  /** The message is such a one or leads to one. */
  ghost predicate LeadsToMerge(byName: Messages, name: string) {
    exists path :: Chain(byName, path) && path[0] == name && Merges(byName[path[|path| - 1]], byName)
  }

  /** A message of some event that leads to none such and yet has a Struct, Value, ListValue or entry in it. */
  ghost predicate LosesGoogle(byName: Messages)
    requires EVENT in byName
  {
    exists name <- byName ::
      && InEvent(byName, name) && !LeadsToMerge(byName, name)
      && exists f <- AllFields(byName[name]) :: f.typeName in STRUCT_PROTO
  }

  lemma DescendsAre(m: WireMessage, byName: Messages, t: string)
    requires WellNumbered(m)
    ensures t in SpecOf(m, byName).descend.Values <==> Holds(m, t, byName)
  {
    hide SpecOf, WellNumbered, KindOf;
    var spec := SpecOf(m, byName);
    SpecLists(m, byName);
    if t in spec.descend.Values {
      var n :| n in spec.descend && spec.descend[n] == t;
      assert HasField(m, n, t);
    }
    if Holds(m, t, byName) {
      var f :| f in AllFields(m) && f.typeName == t;
      assert HasField(m, f.number, t);
      assert spec.descend[f.number] == t;
    }
  }

  lemma ChecksAre(m: WireMessage, byName: Messages)
    requires WellNumbered(m)
    ensures Checks(SpecOf(m, byName)) <==> Merges(m, byName)
  {
    hide SpecOf, WellNumbered, KindOf;
    var spec := SpecOf(m, byName);
    SpecLists(m, byName);
    if n :| n in spec.singular {
      assert HasSingle(m, n, byName);
    }
    if n :| n in spec.arms {
      assert exists f <- m.oneof :: f.number == n;
    }
    if m.oneof != [] {
      assert m.oneof[0] in m.oneof && m.oneof[0].number in spec.arms;
    }
    if f :| f in AllFields(m) && !f.repeated && KindOf(f.typeName, byName).OfMessage? {
      assert HasSingle(m, f.number, byName);
    }
  }

  lemma GooglesAre(m: WireMessage, byName: Messages)
    requires WellNumbered(m)
    ensures HasGoogle(SpecOf(m, byName)) <==> exists f <- AllFields(m) :: f.typeName in STRUCT_PROTO
  {
    hide SpecOf, WellNumbered, KindOf;
    var spec := SpecOf(m, byName);
    SpecLists(m, byName);
    assert STRUCT_PROTO.Keys == GOOGLE_NAMES;
    GoogleNamesAreGoogle();
    if n :| n in spec.google && spec.google[n] in GOOGLE_NAMES {
      assert HasField(m, n, spec.google[n]);
    }
    if f :| f in AllFields(m) && f.typeName in STRUCT_PROTO {
      GoogleKind(f.typeName, byName);
      assert HasField(m, f.number, f.typeName);
      assert spec.google[f.number] == f.typeName;
    }
  }

  lemma {:induction false} ChainInside(byName: Messages, specs: Table, path: seq<string>)
    requires OwnMessages(byName) && Faithful(specs, byName) && ClosedOn(specs, specs.Keys)
    requires Chain(byName, path) && path[0] in specs
    ensures forall i :: 0 <= i < |path| ==> path[i] in specs
  {
    hide SpecOf, FitsMask, WellNumbered, Holds;
    for i := 0 to |path| - 1
      invariant forall j :: 0 <= j <= i ==> path[j] in specs
    {
      var spec := specs[path[i]];
      DescendsAre(byName[path[i]], byName, path[i + 1]);
      var n :| n in spec.descend && spec.descend[n] == path[i + 1];
    }
  }

  /** The sweep keeps exactly the messages that lead to a merge. */
  lemma WorthIsMerge(byName: Messages, specs: Table, name: string)
    requires OwnMessages(byName) && Faithful(specs, byName) && ClosedOn(specs, specs.Keys) && name in specs
    ensures Worthwhile(specs, name) <==> LeadsToMerge(byName, name)
  {
    hide SpecOf, FitsMask, WellNumbered, Merges, Holds;
    if Worthwhile(specs, name) {
      var path :| LeadsToCheck(specs, path) && path[0] == name;
      forall i | 0 <= i < |path| - 1 ensures Holds(byName[path[i]], path[i + 1], byName) {
        DescendsAre(byName[path[i]], byName, path[i + 1]);
      }
      ChecksAre(byName[path[|path| - 1]], byName);
      assert Chain(byName, path);
    }
    if LeadsToMerge(byName, name) {
      var path :| Chain(byName, path) && path[0] == name && Merges(byName[path[|path| - 1]], byName);
      ChainInside(byName, specs, path);
      forall i | 0 <= i < |path| - 1 ensures path[i + 1] in specs[path[i]].descend.Values {
        DescendsAre(byName[path[i]], byName, path[i + 1]);
      }
      ChecksAre(byName[path[|path| - 1]], byName);
      assert LeadsToCheck(specs, path);
    }
  }

  // ---------------------------------------------------------------------------
  // The envelope
  // ---------------------------------------------------------------------------

  function EventTags(byName: Messages): set<nat>
    requires EVENT in byName
  {
    set f | f in byName[EVENT].oneof :: f.number
  }

  /** Entry number to event message. */
  function EventScan(byName: Messages): map<nat, string>
    requires EVENT in byName
  {
    Typed(byName[EVENT].oneof, t => true)
  }

  lemma ScanIs(byName: Messages, n: nat, t: string)
    requires WireModel(byName)
    ensures n in EventScan(byName) && EventScan(byName)[n] == t <==> HasField(byName[EVENT], n, t)
  {
    hide KindOf;
    var m := byName[EVENT];
    assert m.oneof == AllFields(m);
    TypedIs(m, t => true, n, t);
  }

  lemma ScanValues(byName: Messages, t: string)
    requires WireModel(byName)
    ensures t in EventScan(byName).Values <==> exists f <- byName[EVENT].oneof :: f.typeName == t
  {
    hide KindOf, Typed, OwnMessages;
    var m := byName[EVENT];
    assert m.oneof == AllFields(m);
    if t in EventScan(byName).Values {
      var n :| n in EventScan(byName) && EventScan(byName)[n] == t;
      ScanIs(byName, n, t);
    }
    if f :| f in m.oneof && f.typeName == t {
      ScanIs(byName, f.number, t);
      assert HasField(m, f.number, t);
    }
  }

  /** Every entry of the envelope names a message. */
  ghost predicate EntriesExist(byName: Messages)
    requires EVENT in byName
  {
    forall f <- byName[EVENT].oneof :: f.typeName in byName
  }

  lemma ScanIsDescend(byName: Messages, spec: ScanSpec)
    requires WireModel(byName) && EntriesExist(byName) && Lists(spec, byName[EVENT], byName)
    ensures spec.descend == EventScan(byName)
  {
    hide Typed, KindOf, OwnMessages, EventScan;
    var m, scan := byName[EVENT], EventScan(byName);
    assert m.oneof == AllFields(m);
    forall n <- scan ensures n in spec.descend && spec.descend[n] == scan[n] {
      ScanIs(byName, n, scan[n]);
      assert HasField(m, n, scan[n]);
    }
    forall n <- spec.descend ensures n in scan {
      assert HasField(m, n, spec.descend[n]);
      ScanIs(byName, n, spec.descend[n]);
    }
    assert spec.descend.Keys == scan.Keys;
  }

  lemma NoGoogleEntry(byName: Messages, spec: ScanSpec)
    requires WireModel(byName) && EntriesExist(byName) && Lists(spec, byName[EVENT], byName)
    ensures spec.google == map[]
  {
    hide KindOf, WellNumbered;
    var m := byName[EVENT];
    assert m.oneof == AllFields(m);
    if n :| n in spec.google {
      assert HasField(m, n, spec.google[n]);
      GoogleKind(spec.google[n], byName);
    }
  }

  lemma ScanKeys(byName: Messages)
    requires WireModel(byName)
    ensures EventScan(byName).Keys == EventTags(byName)
  {
    hide Typed, KindOf, OwnMessages, EventScan;
    var m, scan := byName[EVENT], EventScan(byName);
    assert m.oneof == AllFields(m);
    forall n ensures n in scan <==> n in EventTags(byName) {
      if n in scan { ScanIs(byName, n, scan[n]); }
      if f :| f in m.oneof && f.number == n {
        assert HasField(m, n, f.typeName);
        ScanIs(byName, n, f.typeName);
      }
    }
  }

  /** The envelope as a oneof is the builder's own entry for `Event`. */
  lemma EnvelopeIsEntry(byName: Messages)
    requires WireModel(byName) && EntriesExist(byName)
    ensures EnvelopeOneof(EventTags(byName), EventScan(byName)) == SpecOf(byName[EVENT], byName)
    ensures EventScan(byName).Keys == EventTags(byName)
  {
    hide SpecOf, KindOf, WellNumbered, EventScan;
    var spec := SpecOf(byName[EVENT], byName);
    SpecLists(byName[EVENT], byName);
    ScanKeys(byName);
    ScanIsDescend(byName, spec);
    NoGoogleEntry(byName, spec);
    forall n ensures n in spec.singular <==> n in EventTags(byName) {
      EntryIsSingle(byName, n);
    }
    assert spec.singular == EventTags(byName);
    assert spec.arms == EventTags(byName);
  }

  lemma EntryIsSingle(byName: Messages, n: nat)
    requires WireModel(byName) && EntriesExist(byName)
    ensures HasSingle(byName[EVENT], n, byName) <==> n in EventTags(byName)
  {
    var m := byName[EVENT];
    assert m.oneof == AllFields(m);
    if f :| f in m.oneof && f.number == n {
      assert !f.repeated;
      assert KindOf(f.typeName, byName).OfMessage?;
    }
  }

  // ---------------------------------------------------------------------------
  // What the builder made
  // ---------------------------------------------------------------------------

  /** The walk's table, holding the messages of every event, and the sweep's choice among them. */
  ghost predicate Built(byName: Messages, specs: Table, keep: set<string>) {
    && WireModel(byName) && EntriesExist(byName)
    && Faithful(specs, byName) && ClosedOn(specs, specs.Keys) && KeepsWorthwhile(specs, keep)
    && EventScan(byName).Values <= specs.Keys
  }

  /** The table's descents are the fields of the project's own messages. */
  lemma DescentIsField(byName: Messages, specs: Table, name: string, t: string)
    requires OwnMessages(byName) && Faithful(specs, byName) && name in specs
    ensures name in byName && (t in specs[name].descend.Values <==> Holds(byName[name], t, byName))
  {
    hide SpecOf, FitsMask, WellNumbered, Holds;
    DescendsAre(byName[name], byName, t);
  }

  lemma DescendsIsChain(byName: Messages, specs: Table, keep: set<string>, path: seq<string>)
    requires Built(byName, specs, keep) && path != []
    requires Descends(EnvelopeSpec(EventTags(byName), EventScan(byName)), specs, path)
    ensures Chain(byName, path) && Holds(byName[EVENT], path[0], byName)
  {
    hide SpecOf, FitsMask, WellNumbered, KeepsWorthwhile, KindOf, EventScan, Holds;
    forall i | 0 <= i < |path| ensures path[i] in byName { assert path[i] in specs; }
    hide ClosedOn, Faithful;
    forall i | 0 <= i < |path| - 1 ensures Holds(byName[path[i]], path[i + 1], byName) {
      DescentIsField(byName, specs, path[i], path[i + 1]);
    }
    ScanHolds(byName, path[0]);
  }

  lemma ChainDescends(byName: Messages, specs: Table, keep: set<string>, path: seq<string>)
    requires Built(byName, specs, keep) && Chain(byName, path) && Holds(byName[EVENT], path[0], byName)
    ensures Descends(EnvelopeSpec(EventTags(byName), EventScan(byName)), specs, path)
  {
    hide SpecOf, FitsMask, WellNumbered, KeepsWorthwhile, KindOf, EventScan, Holds, ClosedOn, Faithful;
    ScanHolds(byName, path[0]);
    ChainInside(byName, specs, path);
    forall i | 0 <= i < |path| - 1 ensures path[i + 1] in specs[path[i]].descend.Values {
      DescentIsField(byName, specs, path[i], path[i + 1]);
    }
  }

  lemma ReachedIsInEvent(byName: Messages, specs: Table, keep: set<string>, name: string)
    requires Built(byName, specs, keep)
    ensures ReachedFrom(EnvelopeSpec(EventTags(byName), EventScan(byName)), specs, name) <==> InEvent(byName, name)
    ensures InEvent(byName, name) ==> name in specs
  {
    hide SpecOf, FitsMask, WellNumbered, KeepsWorthwhile, KindOf, EventScan, Holds, ClosedOn, Faithful;
    var env := EnvelopeSpec(EventTags(byName), EventScan(byName));
    if ReachedFrom(env, specs, name) {
      var path :| path != [] && Descends(env, specs, path) && path[|path| - 1] == name;
      DescendsIsChain(byName, specs, keep, path);
    }
    if InEvent(byName, name) {
      var path :| Chain(byName, path) && Holds(byName[EVENT], path[0], byName) && path[|path| - 1] == name;
      ChainDescends(byName, specs, keep, path);
      assert path[|path| - 1] in path;
    }
  }

  lemma ScanHolds(byName: Messages, t: string)
    requires WireModel(byName) && t in byName
    ensures t in EventScan(byName).Values <==> Holds(byName[EVENT], t, byName)
  {
    hide KindOf;
    ScanValues(byName, t);
    assert byName[EVENT].oneof == AllFields(byName[EVENT]);
  }

  lemma MissesIsLoses(byName: Messages, specs: Table, keep: set<string>)
    requires Built(byName, specs, keep)
    ensures MissesGoogle(EnvelopeSpec(EventTags(byName), EventScan(byName)), specs, keep) <==> LosesGoogle(byName)
  {
    hide SpecOf, FitsMask, WellNumbered, KindOf, EventScan, ReachedFrom, InEvent, Worthwhile, LeadsToMerge, HasGoogle;
    forall name
      ensures ReachedFrom(EnvelopeSpec(EventTags(byName), EventScan(byName)), specs, name) <==> InEvent(byName, name)
      ensures InEvent(byName, name) ==> name in specs
    {
      ReachedIsInEvent(byName, specs, keep, name);
    }
    forall name <- specs
      ensures name in keep <==> LeadsToMerge(byName, name)
      ensures HasGoogle(specs[name]) <==> exists f <- AllFields(byName[name]) :: f.typeName in STRUCT_PROTO
    {
      WorthIsMerge(byName, specs, name);
      GooglesAre(byName[name], byName);
    }
  }

  // ---------------------------------------------------------------------------
  // Reading by the declarations
  // ---------------------------------------------------------------------------

  /** What a standard protobuf decoder reads, knowing the .proto files only. */
  function StandardBySchema(data: bytes, byName: Messages): Option<Message>
    requires EVENT in byName
  {
    SchemaDecode(Merging, EMPTY, data, DeclarationsOf(byName[EVENT], byName), SchemaOf(byName))
  }

  /** What ts-proto, which was generated from the same files, reads after the merge with the shipped tables. */
  function ShippedBySchema(data: bytes, byName: Messages, specs: Table, keep: set<string>): Option<Message>
    requires EVENT in byName
  {
    var env := EnvelopeSpec(EventTags(byName), EventScan(byName));
    var merged :- MergedBytes(data, PruneSpec(env, keep), WithGoogle(Prune(specs, keep)));
    SchemaDecode(Replacing, EMPTY, merged, DeclarationsOf(byName[EVENT], byName), SchemaOf(byName))
  }

  lemma {:induction false} ReplacingIgnoresArms(m: Message, s: bytes, tags: set<nat>, scan: map<nat, string>,
    table: Table)
    ensures Decode(Replacing, m, s, EnvelopeSpec(tags, scan), table)
         == Decode(Replacing, m, s, EnvelopeOneof(tags, scan), table)
    decreases |s|
  {
    hide Decode, Step, TakeRecord;
    var env, oneof := EnvelopeSpec(tags, scan), EnvelopeOneof(tags, scan);
    if s == [] {
      DecodeNil(Replacing, m, s, env, table);
      DecodeNil(Replacing, m, s, oneof, table);
    } else if TakeRecord(s).None? {
      NoRecord(Replacing, m, s, env, table);
      NoRecord(Replacing, m, s, oneof, table);
    } else {
      var r := TakeRecord(s).value;
      DecodeCons(Replacing, m, s, r, env, table);
      DecodeCons(Replacing, m, s, r, oneof, table);
      ReplacingStep(m, r, tags, scan, table);
      if Step(Replacing, m, r, env, table).Some? {
        ReplacingIgnoresArms(Step(Replacing, m, r, env, table).value, s[|r.raw|..], tags, scan, table);
      }
    }
  }

  lemma ReplacingStep(m: Message, r: Record, tags: set<nat>, scan: map<nat, string>, table: Table)
    ensures Step(Replacing, m, r, EnvelopeSpec(tags, scan), table) ==
      Step(Replacing, m, r, EnvelopeOneof(tags, scan), table)
  {
    hide DecodeValue;
  }

  lemma SchemaReadings(data: bytes, byName: Messages, specs: Table, keep: set<string>)
    requires Built(byName, specs, keep)
    ensures StandardBySchema(data, byName) == StandardReading(data, EventTags(byName), EventScan(byName), specs)
    ensures ShippedBySchema(data, byName, specs, keep)
         == ShippedReading(data, EnvelopeSpec(EventTags(byName), EventScan(byName)), specs, keep)
  {
    hide SpecOf, FitsMask, KindOf, EventScan, KeepsWorthwhile, DeclarationsOf, SameTables, SameLevel, Decode,
      SchemaDecode;
    hide MergedBytes, OwnMessages, WithGoogle, SchemaOf;
    var tags, scan, table := EventTags(byName), EventScan(byName), WithGoogle(specs);
    var m, schema := byName[EVENT], SchemaOf(byName);
    TablesAreDeclared(byName, specs);
    EnvelopeIsEntry(byName);
    assert Reaches(SpecOf(m, byName), specs) by {
      forall n <- scan ensures scan[n] in specs { assert scan[n] in scan.Values; }
    }
    LevelIsDeclared(EVENT, byName, specs);
    var d := DeclarationsOf(m, byName);
    TablesDecodeAlike(Merging, EMPTY, data, SpecOf(m, byName), d, table, schema);
    var merged := MergedBytes(data, PruneSpec(EnvelopeSpec(tags, scan), keep), WithGoogle(Prune(specs, keep)));
    if merged.Some? {
      TablesDecodeAlike(Replacing, EMPTY, merged.value, SpecOf(m, byName), d, table, schema);
      ReplacingIgnoresArms(EMPTY, merged.value, tags, scan, table);
    }
  }

  lemma EnvelopeDecodable(data: bytes, tags: set<nat>, scan: map<nat, string>, table: Table)
    requires scan.Keys <= tags && SoundTable(table)
    ensures Decodable(data, EnvelopeSpec(tags, scan), table) <==>
            Decode(Merging, EMPTY, data, EnvelopeOneof(tags, scan), table).Some?
  {
    hide Decode, Decodable, RecordsOf, SoundTable;
    var env, oneof := EnvelopeSpec(tags, scan), EnvelopeOneof(tags, scan);
    DecodesExactly(Merging, EMPTY, data, oneof, table);
    DecodableIs(data, env, table);
    DecodableIs(data, oneof, table);
    forall x: Record ensures DecodableInside(x, env, table) <==> DecodableInside(x, oneof, table) {}
  }

  lemma BuiltIsShipped(byName: Messages, specs: Table, keep: set<string>)
    requires Built(byName, specs, keep)
    ensures MergerPruneExact.Shipped(EnvelopeSpec(EventTags(byName), EventScan(byName)), specs, keep)
    ensures EventScan(byName).Keys == EventTags(byName) && SoundTable(WithGoogle(specs))
  {
    hide SpecOf, KindOf, KeepsWorthwhile, EventScan, MergerPruneExact.Shipped, FitsMask, WithGoogle;
    var tags, scan := EventTags(byName), EventScan(byName);
    ScanKeys(byName);
    forall n <- scan ensures scan[n] in byName && LegalNumber(n) {
      assert scan[n] in scan.Values;
      EntryIsLegal(byName, n);
    }
    WalkIsShipped(tags, scan, byName, specs, keep);
    ShippedIsSound(EnvelopeSpec(tags, scan), specs, keep);
    GoogleIsSound(specs);
  }

  lemma EntryIsLegal(byName: Messages, n: nat)
    requires WireModel(byName) && n in EventTags(byName)
    ensures LegalNumber(n)
  {
    hide KindOf, WellNumbered;
    var f :| f in byName[EVENT].oneof && f.number == n;
    assert f in AllFields(byName[EVENT]);
  }

  /** If no event loses a google message, a one-event envelope reads as the .proto files say. */
  lemma SchemaReadsRight(data: bytes, byName: Messages, specs: Table, keep: set<string>)
    requires Built(byName, specs, keep) && !LosesGoogle(byName)
    requires |data| < TWO_32 && StandardBySchema(data, byName).Some? && OneEvent(data, EventTags(byName))
    ensures ShippedBySchema(data, byName, specs, keep) == StandardBySchema(data, byName)
  {
    hide SpecOf, KindOf, Built, EventScan, WithGoogle, Decode, SchemaDecode, Decodable, OneEvent, MissesGoogle;
    hide LosesGoogle, SoundTable, MergerPruneExact.Shipped, ShippedBySchema, StandardBySchema, ShippedReading, Prune;
    BuiltHasEvent(byName, specs, keep);
    BuiltIsShipped(byName, specs, keep);
    SchemaReadings(data, byName, specs, keep);
    EnvelopeDecodable(data, EventTags(byName), EventScan(byName), WithGoogle(specs));
    MissesIsLoses(byName, specs, keep);
    ShippedReadsRight(data, EventTags(byName), EventScan(byName), specs, keep);
  }

  lemma BuiltHasEvent(byName: Messages, specs: Table, keep: set<string>)
    requires Built(byName, specs, keep)
    ensures EVENT in byName
  {
  }

  /** If one does, some one-event envelope does not. */
  lemma SchemaMisreads(byName: Messages, specs: Table, keep: set<string>) returns (data: bytes)
    requires Built(byName, specs, keep) && LosesGoogle(byName) && |specs| <= 0x1000_0000
    ensures |data| < TWO_32 && StandardBySchema(data, byName).Some? && OneEvent(data, EventTags(byName))
    ensures ShippedBySchema(data, byName, specs, keep) != StandardBySchema(data, byName)
  {
    hide SpecOf, KindOf, Built, EventScan, WithGoogle, Decode, SchemaDecode, Decodable, OneEvent, MissesGoogle;
    hide LosesGoogle, SoundTable, MergerPruneExact.Shipped, ShippedBySchema, StandardBySchema, ShippedReading, Prune;
    BuiltHasEvent(byName, specs, keep);
    BuiltIsShipped(byName, specs, keep);
    MissesIsLoses(byName, specs, keep);
    data := ShippedMisreads(EventTags(byName), EventScan(byName), specs, keep);
    SchemaReadings(data, byName, specs, keep);
    EnvelopeDecodable(data, EventTags(byName), EventScan(byName), WithGoogle(specs));
  }

  // ---------------------------------------------------------------------------
  // The builder
  // ---------------------------------------------------------------------------

  /** A message field numbered beyond the scan's 64-bit mask; a repeated google field is not looked at. */
  ghost predicate TooHigh(m: WireMessage, byName: Messages) {
    exists f <- AllFields(m) ::
      f.number >= 64 && (f.typeName in byName || (!f.repeated && "google.protobuf." <= f.typeName))
  }

  lemma MaskIsTooHigh(m: WireMessage, byName: Messages)
    requires WellNumbered(m)
    ensures FitsMask(SpecOf(m, byName)) <==> !TooHigh(m, byName)
  {
    hide SpecOf, WellNumbered, KindOf;
    var spec := SpecOf(m, byName);
    SpecLists(m, byName);
    forall f | f in AllFields(m)
      ensures KindOf(f.typeName, byName).OfMessage? <==> f.typeName in byName || "google.protobuf." <= f.typeName
    {
      GoogleKind(f.typeName, byName);
    }
    if f :| (&& f in AllFields(m) && f.number >= 64
             && (f.typeName in byName || (!f.repeated && "google.protobuf." <= f.typeName))) {
      if f.typeName in byName {
        assert HasField(m, f.number, f.typeName);
        assert spec.descend[f.number] == f.typeName;
      } else {
        assert HasSingle(m, f.number, byName);
      }
    }
    if n :| n in spec.singular && n >= 64 {
      assert HasSingle(m, n, byName);
    }
    if n :| n in spec.descend && n >= 64 {
      assert HasField(m, n, spec.descend[n]);
    }
  }

  lemma PathIsChain(byName: Messages, path: seq<string>)
    requires OwnMessages(byName) && Path(byName, path) && path[|path| - 1] in byName
    ensures Chain(byName, path)
  {
    hide SpecOf, WellNumbered, Holds;
    forall i | 0 <= i < |path| - 1 ensures Holds(byName[path[i]], path[i + 1], byName) {
      DescendsAre(byName[path[i]], byName, path[i + 1]);
    }
  }

  lemma ChainIsPath(byName: Messages, path: seq<string>)
    requires OwnMessages(byName) && Chain(byName, path)
    ensures Path(byName, path)
  {
    hide SpecOf, WellNumbered, Holds;
    forall i | 0 <= i < |path| - 1
      ensures path[i] in byName && path[i + 1] in SpecOf(byName[path[i]], byName).descend.Values
    {
      DescendsAre(byName[path[i]], byName, path[i + 1]);
    }
  }

  /** The walk's reachability, as a chain of fields. */
  lemma ReachableIsInEvent(byName: Messages, name: string)
    requires WireModel(byName) && name in byName
    ensures ReachableFrom(byName, EventScan(byName).Values, name) <==> InEvent(byName, name)
  {
    hide SpecOf, OwnMessages, KindOf, EventScan, Holds;
    if ReachableFrom(byName, EventScan(byName).Values, name) {
      var root :| root in EventScan(byName).Values && Reachable(byName, root, name);
      var path :| Path(byName, path) && path[0] == root && path[|path| - 1] == name;
      PathIsChain(byName, path);
      ScanHolds(byName, root);
    }
    if InEvent(byName, name) {
      var path :| Chain(byName, path) && Holds(byName[EVENT], path[0], byName) && path[|path| - 1] == name;
      ChainIsPath(byName, path);
      ScanHolds(byName, path[0]);
      assert Reachable(byName, path[0], name);
    }
  }

  lemma MissingIsEntry(byName: Messages, name: string)
    requires WireModel(byName) && name !in byName
    ensures ReachableFrom(byName, EventScan(byName).Values, name) <==>
      exists f <- byName[EVENT].oneof :: f.typeName == name
  {
    hide SpecOf, OwnMessages, KindOf, EventScan;
    ScanValues(byName, name);
    if ReachableFrom(byName, EventScan(byName).Values, name) {
      var root :| root in EventScan(byName).Values && Reachable(byName, root, name);
      var path :| Path(byName, path) && path[0] == root && path[|path| - 1] == name;
      LastIsRoot(byName, path);
    }
    ReachableSelf(byName, name);
  }

  lemma LastIsRoot(byName: Messages, path: seq<string>)
    requires OwnMessages(byName) && Path(byName, path) && path[|path| - 1] !in byName
    ensures |path| == 1
  {
    hide SpecOf, WellNumbered;
    var k := |path| - 2;
    if k >= 0 {
      assert path[k + 1] in SpecOf(byName[path[k]], byName).descend.Values;
      DescendsAre(byName[path[k]], byName, path[k + 1]);
    }
  }

  /** Where the builder throws: an event that is no message, or a number beyond the mask in some event. */
  lemma FailureIs(byName: Messages)
    requires WireModel(byName)
    ensures (exists name :: ReachableFrom(byName, EventScan(byName).Values, name) && Unusable(byName, name)) <==>
            !EntriesExist(byName) || exists name <- byName :: InEvent(byName, name) && TooHigh(byName[name], byName)
  {
    hide SpecOf, KindOf, EventScan, InEvent, TooHigh, FitsMask, ReachableFrom, WellNumbered;
    forall name
      ensures name in byName ==>
        && (ReachableFrom(byName, EventScan(byName).Values, name) <==> InEvent(byName, name))
        && (Unusable(byName, name) <==> TooHigh(byName[name], byName))
      ensures name !in byName ==>
        (ReachableFrom(byName, EventScan(byName).Values, name) <==>
         exists f <- byName[EVENT].oneof :: f.typeName == name)
    {
      if name in byName {
        ReachableIsInEvent(byName, name);
        MaskIsTooHigh(byName[name], byName);
      } else {
        MissingIsEntry(byName, name);
      }
    }
  }

  /**
    The graph builder: the walk from the envelope, then the sweep. It throws exactly on an event
    that is no message or a number beyond the mask. Otherwise its table has an entry for exactly the
    messages that occur in events, each listing that message's fields; it keeps exactly those that
    lead to something to merge; and with what it ships every one-event envelope reads as the .proto
    files demand, exactly if no event holds a google message where nothing else is to be merged.
   */
  method BuildScanGraph(byName: Messages) returns (r: Option<(Table, set<string>)>)
    requires WireModel(byName)
    ensures r.None? <==>
      !EntriesExist(byName) || exists name <- byName :: InEvent(byName, name) && TooHigh(byName[name], byName)
    ensures r.Some? ==> forall name :: name in r.value.0 <==> name in byName && InEvent(byName, name)
    ensures r.Some? ==> forall name <- r.value.0 :: Lists(r.value.0[name], byName[name], byName)
    ensures r.Some? ==> forall name <- r.value.0 :: name in r.value.1 <==> LeadsToMerge(byName, name)
    ensures r.Some? && !LosesGoogle(byName) ==>
      forall data: bytes ::
        |data| < TWO_32 && StandardBySchema(data, byName).Some? && OneEvent(data, EventTags(byName)) ==>
          ShippedBySchema(data, byName, r.value.0, r.value.1) == StandardBySchema(data, byName)
    ensures r.Some? && LosesGoogle(byName) && |r.value.0| <= 0x1000_0000 ==>
      exists data: bytes ::
        |data| < TWO_32 && StandardBySchema(data, byName).Some? && OneEvent(data, EventTags(byName))
        && ShippedBySchema(data, byName, r.value.0, r.value.1) != StandardBySchema(data, byName)
  {
    hide SpecOf, FitsMask, Reachable, ReachableFrom, Unusable, KindOf, EventScan, InEvent, TooHigh, Lists, LeadsToMerge;
    hide Worthwhile, LosesGoogle, StandardBySchema, ShippedBySchema, OneEvent, OwnMessages;
    FailureIs(byName);
    var specs := WalkEnvelope(EventScan(byName).Values, byName);
    if specs.None? { return None; }
    var keep := FindWorthwhile(specs.value);
    BuiltByWalk(byName, specs.value, keep);
    EntriesListed(byName, specs.value, keep);
    if !LosesGoogle(byName) {
      forall data: bytes |
        |data| < TWO_32 && StandardBySchema(data, byName).Some? && OneEvent(data, EventTags(byName))
        ensures ShippedBySchema(data, byName, specs.value, keep) == StandardBySchema(data, byName)
      {
        SchemaReadsRight(data, byName, specs.value, keep);
      }
    } else if |specs.value| <= 0x1000_0000 {
      ghost var data := SchemaMisreads(byName, specs.value, keep);
    }
    return Some((specs.value, keep));
  }

  lemma BuiltByWalk(byName: Messages, specs: Table, keep: set<string>)
    requires WireModel(byName) && EntriesExist(byName)
    requires Faithful(specs, byName) && ClosedOn(specs, specs.Keys)
    requires forall name :: name in specs <==> ReachableFrom(byName, EventScan(byName).Values, name)
    requires forall name :: name in keep <==> Worthwhile(specs, name)
    ensures Built(byName, specs, keep)
    ensures forall name :: name in specs <==> name in byName && InEvent(byName, name)
  {
    hide SpecOf, FitsMask, Reachable, KindOf, EventScan, InEvent, OwnMessages, Worthwhile;
    forall name <- EventScan(byName).Values ensures name in specs {
      ReachableSelf(byName, name);
      assert ReachableFrom(byName, EventScan(byName).Values, name);
    }
    forall name | name in byName
      ensures ReachableFrom(byName, EventScan(byName).Values, name) <==> InEvent(byName, name)
    {
      ReachableIsInEvent(byName, name);
    }
  }

  lemma EntriesListed(byName: Messages, specs: Table, keep: set<string>)
    requires Built(byName, specs, keep)
    ensures forall name <- specs :: Lists(specs[name], byName[name], byName)
    ensures forall name <- specs :: name in keep <==> LeadsToMerge(byName, name)
  {
    hide SpecOf, FitsMask, KindOf, EventScan, Lists, LeadsToMerge, Worthwhile, WellNumbered;
    forall name <- specs
      ensures Lists(specs[name], byName[name], byName) && (name in keep <==> LeadsToMerge(byName, name))
    {
      SpecLists(byName[name], byName);
      WorthIsMerge(byName, specs, name);
    }
  }
}
