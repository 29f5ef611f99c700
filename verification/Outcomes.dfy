/** A run's outcome, dissolved into the event that carries it, and rebuilt. */
module Outcomes {
  import opened Loose

  /** The outcome union: each case's payload lists, true where required. */
  datatype Spec = Spec(field: string, cases: map<string, map<string, bool>>)

  function PayloadNames(s: Spec): (r: set<string>)
    ensures forall name :: name in r <==> exists v <- s.cases :: name in s.cases[v]
  {
    set v, name | v in s.cases && name in s.cases[v] :: name
  }

  /** Names do not collide, and no case is spelled as the absent outcome. */
  ghost predicate Sound(s: Spec) {
    s.field !in PayloadNames(s) && "type" !in PayloadNames(s) && "" !in s.cases
  }

  /** The event's fields on the wire. */
  function Flatten(event: Fields, s: Spec): Fields {
    var outcome := Get(event, s.field);
    var kind := Get(FieldsOf(outcome), "type");
    var cleared := event + map name | name in PayloadNames(s) :: List([]);
    if outcome.Undefined? then cleared[s.field := Str("")]
    else if kind.Str? && kind.text in s.cases then
      (cleared + map name | name in s.cases[kind.text] :: List(AsArray(Get(FieldsOf(outcome), name))))[s.field := kind]
    else cleared[s.field := if kind.Str? then kind else Str("")]
  }

  /** The lists among `names` that are not empty. */
  function Filled(payload: Fields, names: set<string>): Fields {
    map name | name in names && AsArray(Get(payload, name)) != [] :: Get(payload, name)
  }

  /** A case keeps its required lists even when empty, and any list that is not, its own or not. */
  function Rebuild(kind: string, payload: Fields, s: Spec): Fields {
    var required := if kind in s.cases then set name | name in s.cases[kind] && s.cases[kind][name] else {};
    var own := map name | name in required :: List(AsArray(Get(payload, name)));
    (own + Filled(payload, PayloadNames(s)))["type" := Str(kind)]
  }

  /** The event rebuilt from the wire. */
  function Unflatten(record: Fields, s: Spec): Fields {
    var wire := Get(record, s.field);
    var rest := record - PayloadNames(s) - {s.field};
    if wire.Str? && wire.text != "" then rest[s.field := Rec(Rebuild(wire.text, record, s))]
    else rest + Filled(record, PayloadNames(s))
  }

  // ---------------------------------------------------------------------------
  // What decoding keeps
  // ---------------------------------------------------------------------------

  /** A payload list that is not empty is still there: in the outcome, or on the event without one. */
  lemma NoPayloadIsLost(record: Fields, s: Spec, name: string)
    requires Sound(s) && name in PayloadNames(s) && AsArray(Get(record, name)) != []
    ensures var wire := Get(record, s.field);
      var back := Unflatten(record, s);
      if wire.Str? && wire.text != ""
      then Get(back, s.field).Rec? && Get(FieldsOf(Get(back, s.field)), name) == Get(record, name)
           && Get(FieldsOf(Get(back, s.field)), "type") == wire
      else Get(back, name) == Get(record, name)
  {
  }

  /** Everything that is neither the outcome nor its payload is untouched. */
  lemma OthersAreUntouched(record: Fields, s: Spec, name: string)
    requires name != s.field && name !in PayloadNames(s)
    ensures Get(Unflatten(record, s), name) == Get(record, name) && Get(Flatten(record, s), name) == Get(record, name)
  {
  }

  // ---------------------------------------------------------------------------
  // The round trip
  // ---------------------------------------------------------------------------

  /** An outcome of a known case, with that case's lists. */
  ghost predicate ValidOutcome(v: Value, s: Spec) {
    && v.Rec? && Get(v.fields, "type").Str? && Get(v.fields, "type").text in s.cases
    && var payload := s.cases[Get(v.fields, "type").text];
       forall k :: k != "type" ==>
         if k in payload then Get(v.fields, k).List? || (!payload[k] && Get(v.fields, k).Undefined?)
         else k !in v.fields
  }

  /** The event carries no field named like an outcome's list. */
  ghost predicate ValidEvent(event: Fields, s: Spec) {
    && (forall name <- PayloadNames(s) :: name !in event)
    && (Get(event, s.field).Undefined? || ValidOutcome(Get(event, s.field), s))
  }

  /** Empty optional lists are the same as none. */
  function Normal(outcome: Fields, s: Spec): Fields {
    var kind := Get(outcome, "type");
    if kind.Str? && kind.text in s.cases
    then
      var payload := s.cases[kind.text];
      map k | k in outcome && !(k in payload && !payload[k] && outcome[k] == List([])) :: outcome[k]
    else outcome
  }

  function NormalEvent(event: Fields, s: Spec): Fields {
    var outcome := Get(event, s.field);
    if outcome.Rec? then event[s.field := Rec(Normal(outcome.fields, s))] else event
  }

  /** A valid event comes back as it was, up to absent keys and empty optional lists. */
  lemma OutcomeRoundTrips(event: Fields, s: Spec)
    requires Sound(s) && ValidEvent(event, s)
    ensures Clean(Rec(Unflatten(Flatten(event, s), s))) == Clean(Rec(NormalEvent(event, s)))
  {
    var wire := Flatten(event, s);
    var back, expected := Unflatten(wire, s), NormalEvent(event, s);
    var outcome := Get(event, s.field);
    if outcome.Undefined? {
      assert Filled(wire, PayloadNames(s)) == map[];
    } else {
      RebuiltOutcome(event, s);
    }
    hide Clean, Rebuild, Normal;
    forall k ensures Clean(Get(back, k)) == Clean(Get(expected, k)) {
      if k != s.field && k !in PayloadNames(s) {
        OthersAreUntouched(event, s, k);
        OthersAreUntouched(wire, s, k);
      }
    }
    SameReads(back, expected);
  }

  lemma RebuiltOutcome(event: Fields, s: Spec)
    requires Sound(s) && ValidOutcome(Get(event, s.field), s)
    ensures var kind := Get(Get(event, s.field).fields, "type").text;
      && Get(Flatten(event, s), s.field) == Str(kind) && kind != ""
      && Clean(Rec(Rebuild(kind, Flatten(event, s), s))) == Clean(Rec(Normal(Get(event, s.field).fields, s)))
  {
    var outcome := Get(event, s.field).fields;
    var kind := Get(outcome, "type").text;
    var rebuilt, expected := Rebuild(kind, Flatten(event, s), s), Normal(outcome, s);
    hide Clean, Rebuild, Normal;
    forall k ensures Get(rebuilt, k) == Get(expected, k) { RebuiltField(event, s, k); }
    SameReads(rebuilt, expected);
  }

  lemma RebuiltField(event: Fields, s: Spec, k: string)
    requires Sound(s) && ValidOutcome(Get(event, s.field), s)
    ensures var outcome := Get(event, s.field).fields;
      Get(Rebuild(Get(outcome, "type").text, Flatten(event, s), s), k) == Get(Normal(outcome, s), k)
  {
    var outcome := Get(event, s.field).fields;
    var kind := Get(outcome, "type").text;
    if k in PayloadNames(s) { WirePayload(event, s, k); }
    hide Flatten;
    assert k in s.cases[kind] ==> k in PayloadNames(s);
  }

  lemma WirePayload(event: Fields, s: Spec, name: string)
    requires Sound(s) && ValidOutcome(Get(event, s.field), s) && name in PayloadNames(s)
    ensures var outcome := Get(event, s.field).fields;
      Get(Flatten(event, s), name) ==
      if name in s.cases[Get(outcome, "type").text] then List(AsArray(Get(outcome, name))) else List([])
  {
  }

  /** Of a case this build does not know, encoding keeps the name and drops the lists. */
  lemma UnknownCaseKeepsItsName(event: Fields, s: Spec)
    requires Sound(s)
    requires var kind := Get(FieldsOf(Get(event, s.field)), "type");
             kind.Str? && kind.text !in s.cases && kind.text != ""
    ensures Get(Unflatten(Flatten(event, s), s), s.field)
         == Rec(map["type" := Get(FieldsOf(Get(event, s.field)), "type")])
  {
    var wire := Flatten(event, s);
    assert Filled(wire, PayloadNames(s)) == map[];
  }
}
