/** The scan table both runtimes generate from the wire model, and its reading rules. */
module ScanTable {
  import opened Options

  /**
    One message level. `singular` fields merge on repetition, `descend` and `google`
    name child messages, `arms` are mutually exclusive; an arm without an entry in
    `armWireTypes` is length-delimited.
   */
  datatype ScanSpec = ScanSpec(
    singular: set<nat>,
    descend: map<nat, string>,
    google: map<nat, string>,
    arms: set<nat>,
    armWireTypes: map<nat, nat>
  )

  type Table = map<string, ScanSpec>

  function Lookup(table: Table, name: string): Option<ScanSpec> {
    if name in table then Some(table[name]) else None
  }

  /** The guard follows `descend` edges only. */
  function GuardChild(spec: ScanSpec, table: Table, field: nat): Option<ScanSpec> {
    if field in spec.descend then Lookup(table, spec.descend[field]) else None
  }

  function ArmWireType(spec: ScanSpec, field: nat): nat {
    if field in spec.armWireTypes then spec.armWireTypes[field] else 2
  }

  /** The merger also follows `google` edges. */
  function ChildName(spec: ScanSpec, field: nat): Option<string> {
    if field in spec.descend then Some(spec.descend[field])
    else if field in spec.google then Some(spec.google[field])
    else None
  }

  function MergeChild(spec: ScanSpec, table: Table, field: nat): Option<ScanSpec> {
    var name :- ChildName(spec, field);
    Lookup(table, name)
  }

  /**
    What a protobuf schema guarantees of a oneof: its members are never repeated, and a
    message member is length-delimited.
   */
  predicate SoundArms(spec: ScanSpec) {
    forall n <- spec.arms ::
      && (n in spec.singular ==> ArmWireType(spec, n) == 2)
      && (n in spec.descend || n in spec.google ==> n in spec.singular)
  }

  ghost predicate SoundTable(table: Table) {
    forall name <- table :: SoundArms(table[name])
  }

  lemma SoundChild(spec: ScanSpec, table: Table, n: nat)
    requires SoundTable(table)
    ensures MergeChild(spec, table, n).Some? ==> SoundArms(MergeChild(spec, table, n).value)
  {
  }
}
