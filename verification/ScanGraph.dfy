/** Building the scan table from the wire model: reachability, then pruning what checks nothing. */
module ScanGraph {
  import opened Options
  import opened ScanTable

  datatype WireField = WireField(number: nat, typeName: string, repeated: bool)

  /** `oneof` lists the entries of the message's oneof; empty if it has none. */
  datatype WireMessage = WireMessage(fields: seq<WireField>, oneof: seq<WireField>)

  type Messages = map<string, WireMessage>

  const GOOGLE := "google.protobuf."

  predicate IsGoogle(t: string) { GOOGLE <= t }

  predicate IsMessageType(t: string, byName: Messages) { t in byName || IsGoogle(t) }

  function AllFields(m: WireMessage): seq<WireField> { m.fields + m.oneof }

  /** Field number to type name, over the fields whose type satisfies `p`. */
  function Typed(fields: seq<WireField>, p: string -> bool): (r: map<nat, string>)
    ensures forall n :: n in r ==> exists f <- fields :: f.number == n && p(f.typeName) && r[n] == f.typeName
    ensures forall f <- fields :: p(f.typeName) ==> f.number in r
  {
    if fields == [] then map[]
    else
      var k := |fields| - 1;
      var before := Typed(fields[..k], p);
      assert fields == fields[..k] + [fields[k]];
      if p(fields[k].typeName) then before[fields[k].number := fields[k].typeName] else before
  }

  function SpecOf(m: WireMessage, byName: Messages): ScanSpec {
    var fields := AllFields(m);
    ScanSpec(
      set f | f in fields && !f.repeated && IsMessageType(f.typeName, byName) :: f.number,
      Typed(fields, t => t in byName),
      Typed(fields, IsGoogle),
      set f | f in m.oneof :: f.number,
      map[])
  }

  /** Numbers the scan's 64-bit mask can hold; the builder refuses others. */
  predicate FitsMask(spec: ScanSpec) {
    (forall n <- spec.singular :: n < 64) && (forall n <- spec.descend :: n < 64)
  }

  /** What the wire model and the number ledger guarantee: oneof entries are not repeated, numbers are distinct. */
  ghost predicate WellNumbered(m: WireMessage) {
    && (forall f <- m.oneof :: !f.repeated)
    && (forall i, j :: 0 <= i < j < |AllFields(m)| ==> AllFields(m)[i].number != AllFields(m)[j].number)
  }

  lemma OneFieldPerNumber(m: WireMessage, f: WireField, g: WireField)
    requires WellNumbered(m) && f in AllFields(m) && g in AllFields(m) && f.number == g.number
    ensures f == g
  {
    var i :| 0 <= i < |AllFields(m)| && AllFields(m)[i] == f;
    var j :| 0 <= j < |AllFields(m)| && AllFields(m)[j] == g;
  }

  /** Such a message gets a spec the merger is correct on. */
  lemma SpecIsSound(m: WireMessage, byName: Messages)
    requires WellNumbered(m)
    ensures SoundArms(SpecOf(m, byName))
  {
    var spec := SpecOf(m, byName);
    var fields := AllFields(m);
    forall n | n in spec.arms && (n in spec.descend || n in spec.google) ensures n in spec.singular {
      var e :| e in m.oneof && e.number == n;
      assert e in fields;
      var f :| f in fields && f.number == n && IsMessageType(f.typeName, byName);
      OneFieldPerNumber(m, f, e);
    }
  }

  // ---------------------------------------------------------------------------
  // Walking from the envelope
  // ---------------------------------------------------------------------------

  /** Every child of a spec in `names` is itself in the table. */
  ghost predicate ClosedOn(specs: Table, names: set<string>) {
    forall name <- names :: name in specs && forall n <- specs[name].descend :: specs[name].descend[n] in specs
  }

  /** A chain of descents through the message graph; only its last name may lack a message. */
  ghost predicate Path(byName: Messages, path: seq<string>) {
    && path != []
    && (forall i :: 0 <= i < |path| - 1 ==>
          path[i] in byName && path[i + 1] in SpecOf(byName[path[i]], byName).descend.Values)
  }

  ghost predicate Reachable(byName: Messages, root: string, name: string) {
    exists path :: Path(byName, path) && path[0] == root && path[|path| - 1] == name
  }

  lemma ReachableSelf(byName: Messages, name: string)
    ensures Reachable(byName, name, name)
  {
    assert Path(byName, [name]);
  }

  lemma ReachableStep(byName: Messages, root: string, child: string, name: string)
    requires root in byName && child in SpecOf(byName[root], byName).descend.Values
    requires Reachable(byName, child, name)
    ensures Reachable(byName, root, name)
  {
    hide SpecOf;
    var path :| Path(byName, path) && path[0] == child && path[|path| - 1] == name;
    var longer := [root] + path;
    forall i | 0 <= i < |longer| - 1
      ensures longer[i] in byName && longer[i + 1] in SpecOf(byName[longer[i]], byName).descend.Values
    {
      if i > 0 { assert longer[i] == path[i - 1] && longer[i + 1] == path[i - 1 + 1]; }
    }
    assert Path(byName, longer);
  }

  /** A name the walk cannot take in. */
  predicate Unusable(byName: Messages, name: string) {
    name !in byName || !FitsMask(SpecOf(byName[name], byName))
  }

  /** A table entry is the message's own spec. */
  ghost predicate Faithful(specs: Table, byName: Messages) {
    forall name <- specs :: name in byName && specs[name] == SpecOf(byName[name], byName) && FitsMask(specs[name])
  }

  /**
    The depth-first walk. None where the source throws: a name without a message, or a
    number beyond the mask. What it adds is closed under descent and reachable from `name`.
   */
  method Visit(name: string, specs: Table, byName: Messages) returns (r: Option<Table>)
    requires Faithful(specs, byName)
    ensures r.Some? ==>
      && name in r.value && Faithful(r.value, byName)
      && specs.Keys <= r.value.Keys
      && ClosedOn(r.value, r.value.Keys - specs.Keys)
      && forall k <- r.value.Keys - specs.Keys :: Reachable(byName, name, k)
    ensures r.None? ==> exists k :: Reachable(byName, name, k) && Unusable(byName, k)
    decreases byName.Keys - specs.Keys
  {
    hide SpecOf, FitsMask, Reachable;
    if name in specs { return Some(specs); }
    ReachableSelf(byName, name);
    if name !in byName { return None; }
    var spec := SpecOf(byName[name], byName);
    if !FitsMask(spec) { return None; }
    var here := specs[name := spec];
    var todo := spec.descend.Values;
    while todo != {}
      invariant todo <= spec.descend.Values
      invariant Faithful(here, byName) && specs.Keys + {name} <= here.Keys
      invariant ClosedOn(here, here.Keys - specs.Keys - {name})
      invariant forall c <- spec.descend.Values - todo :: c in here
      invariant forall k <- here.Keys - specs.Keys :: Reachable(byName, name, k)
      decreases todo
    {
      var child :| child in todo;
      var next := Visit(child, here, byName);
      if next.None? {
        ghost var k :| Reachable(byName, child, k) && Unusable(byName, k);
        ReachableStep(byName, name, child, k);
        return None;
      }
      forall k | k in next.value.Keys - specs.Keys ensures Reachable(byName, name, k) {
        if k !in here { ReachableStep(byName, name, child, k); }
      }
      ClosedMore(here, next.value, here.Keys - specs.Keys - {name}, byName);
      todo := todo - {child};
      here := next.value;
    }
    ClosedHere(here, here.Keys - specs.Keys, name);
    return Some(here);
  }

  lemma ClosedMore(a: Table, b: Table, names: set<string>, byName: Messages)
    requires ClosedOn(a, names) && a.Keys <= b.Keys && ClosedOn(b, b.Keys - a.Keys)
    requires Faithful(a, byName) && Faithful(b, byName)
    ensures ClosedOn(b, names + (b.Keys - a.Keys))
  {
  }

  lemma ClosedHere(specs: Table, names: set<string>, name: string)
    requires ClosedOn(specs, names - {name}) && name in specs
    requires forall c <- specs[name].descend.Values :: c in specs
    ensures ClosedOn(specs, names)
  {
    forall n <- specs[name].descend ensures specs[name].descend[n] in specs {
      assert specs[name].descend[n] in specs[name].descend.Values;
    }
  }

  /** A closed table holds everything reachable from any of its names. */
  lemma ClosedHoldsReachable(specs: Table, byName: Messages, root: string, name: string)
    requires Faithful(specs, byName) && ClosedOn(specs, specs.Keys)
    requires root in specs && Reachable(byName, root, name)
    ensures name in specs
  {
    hide SpecOf, FitsMask;
    var path :| Path(byName, path) && path[0] == root && path[|path| - 1] == name;
    for i := 0 to |path| - 1
      invariant path[i] in specs
    {
      var spec := specs[path[i]];
      assert path[i + 1] in spec.descend.Values;
      var n :| n in spec.descend && spec.descend[n] == path[i + 1];
    }
  }

  ghost predicate ReachableFrom(byName: Messages, roots: set<string>, name: string) {
    exists root <- roots :: Reachable(byName, root, name)
  }

  /**
    The walk from the envelope's children collects exactly the reachable messages, and
    fails exactly when one of them is missing or beyond the mask.
   */
  method WalkEnvelope(roots: set<string>, byName: Messages) returns (r: Option<Table>)
    ensures r.Some? ==> Faithful(r.value, byName) && ClosedOn(r.value, r.value.Keys)
    ensures r.Some? ==> forall name :: name in r.value <==> ReachableFrom(byName, roots, name)
    ensures r.None? <==> exists name :: ReachableFrom(byName, roots, name) && Unusable(byName, name)
  {
    hide SpecOf, FitsMask, Reachable;
    var specs: Table := map[];
    var todo := roots;
    while todo != {}
      invariant todo <= roots
      invariant Faithful(specs, byName) && ClosedOn(specs, specs.Keys)
      invariant forall root <- roots - todo :: root in specs
      invariant forall k <- specs :: ReachableFrom(byName, roots, k)
      decreases todo
    {
      var root :| root in todo;
      var next := Visit(root, specs, byName);
      if next.None? {
        ghost var k :| Reachable(byName, root, k) && Unusable(byName, k);
        assert ReachableFrom(byName, roots, k);
        return None;
      }
      ClosedMore(specs, next.value, specs.Keys, byName);
      assert specs.Keys + (next.value.Keys - specs.Keys) == next.value.Keys;
      specs := next.value;
      todo := todo - {root};
    }
    forall name | ReachableFrom(byName, roots, name) ensures name in specs {
      var root :| root in roots && Reachable(byName, root, name);
      ClosedHoldsReachable(specs, byName, root, name);
    }
    return Some(specs);
  }
}
