/** The one wire message that carries every role's fields, and back. */
module WireMessages {
  import opened Options
  import opened Loose

  /** How a role's content travels. */
  datatype Mode = NoContent | Text | TextOrParts | Map

  /** Field names of each part kind, true where the field is a source. */
  type Payload = map<string, bool>

  /** What the generator read off the schema. */
  datatype Tables = Tables(parts: map<string, Payload>, sources: map<string, set<string>>, modes: map<string, Mode>)

  /** Discriminators are not payload. */
  ghost predicate Sound(t: Tables) {
    && (forall e <- t.parts :: "type" !in t.parts[e])
    && (forall e <- t.sources :: "type" !in t.sources[e])
  }

  // ---------------------------------------------------------------------------
  // Sources and parts
  // ---------------------------------------------------------------------------

  function ToSource(v: Value, t: Tables): Value {
    var kind := Get(FieldsOf(v), "type");
    if kind.Str? && kind.text in t.sources
    then Rec(map[kind.text := Rec(map f | f in t.sources[kind.text] :: Get(v.fields, f))])
    else Undefined
  }

  /** The populated arms among `entries`. */
  function Arms(rec: Fields, entries: set<string>): (r: set<string>)
    ensures forall e :: e in r <==> e in entries && Truthy(Get(rec, e))
  {
    set e | e in entries && Truthy(Get(rec, e))
  }

  /** None where the source throws. */
  function FromSource(v: Value, t: Tables): Option<Value> {
    var rec := FieldsOf(v);
    var arms := Arms(rec, t.sources.Keys);
    if |arms| > 1 then None
    else if arms == {} then Some(Undefined)
    else
      OnlyOne(arms);
      var e :| e in arms;
      var wire := FieldsOf(Get(rec, e));
      Some(Rec((map f | f in t.sources[e] :: Get(wire, f))["type" := Str(e)]))
  }

  lemma OnlyOne(s: set<string>)
    requires |s| == 1
    ensures forall x, y :: x in s && y in s ==> x == y
  {
    var e :| e in s;
    assert |s - {e}| == 0;
    forall x <- s ensures x == e { assert x == e || x in s - {e}; }
  }

  /** Undefined for a part this build cannot encode. */
  function ToPart(v: Value, t: Tables): Value {
    var rec := FieldsOf(v);
    var kind := Get(rec, "type");
    if kind.Str? && kind.text in t.parts then
      var payload := t.parts[kind.text];
      Rec(map[kind.text := Rec(map f | f in payload :: if payload[f] then ToSource(Get(rec, f), t) else Get(rec, f))])
    else Undefined
  }

  /** A source field that is there and names no kind this build knows. */
  predicate UnreadableSource(part: Fields, f: string, t: Tables) {
    Get(part, f) != Undefined && FromSource(Get(part, f), t) == Some(Undefined)
  }

  /** None where the source throws; undefined for a part this build does not know. */
  function FromPart(v: Value, t: Tables): Option<Value> {
    var rec := FieldsOf(v);
    var arms := Arms(rec, t.parts.Keys);
    if |arms| > 1 then None
    else if arms == {} then Some(Undefined)
    else
      OnlyOne(arms);
      var e :| e in arms;
      FromArm(e, FieldsOf(Get(rec, e)), t)
  }

  function FromArm(e: string, part: Fields, t: Tables): Option<Value>
    requires e in t.parts
  {
    var payload := t.parts[e];
    if exists f <- payload :: payload[f] && FromSource(Get(part, f), t).None? then None
    else if exists f <- payload :: payload[f] && UnreadableSource(part, f, t) then Some(Undefined)
    else
      Some(Rec((map f | f in payload ::
        if payload[f] then FromSource(Get(part, f), t).value else Get(part, f))["type" := Str(e)]))
  }

  // ---------------------------------------------------------------------------
  // Messages
  // ---------------------------------------------------------------------------

  function NormalizeMetadata(v: Value): Value { if v.Rec? then v else Undefined }

  function ToWireToolCall(v: Value): Value {
    Rec(FieldsOf(v)["metadata" := NormalizeMetadata(Get(FieldsOf(v), "metadata"))])
  }

  function ToWireToolCalls(items: seq<Value>): seq<Value> {
    seq(|items|, i requires 0 <= i < |items| => ToWireToolCall(items[i]))
  }

  function ToParts(items: seq<Value>, t: Tables): seq<Value> {
    if items == [] then []
    else
      var k := |items| - 1;
      var mapped := ToPart(items[k], t);
      ToParts(items[..k], t) + if mapped.Undefined? then [] else [mapped]
  }

  /** Parts this build does not know are left out; None where one throws. */
  function FromParts(items: seq<Value>, t: Tables): Option<seq<Value>> {
    if items == [] then Some([])
    else
      var k := |items| - 1;
      var before :- FromParts(items[..k], t);
      var mapped :- FromPart(items[k], t);
      Some(before + if mapped.Undefined? then [] else [mapped])
  }

  function ToWireMessage(m: Fields, t: Tables): Fields {
    var content, role := Get(m, "content"), Get(m, "role");
    var wire := m["contentParts" := List([])]
                 ["metadata" := NormalizeMetadata(Get(m, "metadata"))]
                 ["toolCalls" := List(ToWireToolCalls(AsArray(Get(m, "toolCalls"))))];
    if content.List? then
      wire["contentParts" := List(ToParts(content.items, t))]["content" := Undefined]
    else if role.Str? && role.text in t.modes && t.modes[role.text].Map? then
      wire["activityContent" := if content.Rec? then content else Rec(map[])]["content" := Undefined]
    else wire
  }

  function RoleMode(wire: Fields, t: Tables): Option<Mode> {
    var role := match Get(wire, "role") case Str(text) => text case _ => "";
    if role in t.modes then Some(t.modes[role]) else None
  }

  /** The three wire fields that can feed `content`. */
  predicate HasText(wire: Fields) { Get(wire, "content") != Undefined }
  predicate HasParts(wire: Fields) { |AsArray(Get(wire, "contentParts"))| > 0 }
  predicate HasMap(wire: Fields) { Get(wire, "activityContent") != Undefined }

  function One(b: bool): nat { if b then 1 else 0 }

  predicate UsesParts(wire: Fields, t: Tables) {
    match RoleMode(wire, t) case Some(mode) => mode.TextOrParts? case None => HasParts(wire)
  }

  predicate UsesMap(wire: Fields, t: Tables) {
    match RoleMode(wire, t)
    case Some(mode) => mode.Map?
    case None => !UsesParts(wire, t) && HasMap(wire)
  }

  /** The checks on carriers, in the source's order. */
  predicate CarriersRefused(wire: Fields, t: Tables) {
    var known, parts, activity := RoleMode(wire, t).Some?, UsesParts(wire, t), UsesMap(wire, t);
    || (!known && One(HasText(wire)) + One(HasParts(wire)) + One(HasMap(wire)) > 1)
    || (known && !parts && HasParts(wire))
    || (known && HasMap(wire) && !activity)
    || (known && activity && HasText(wire))
    || (known && parts && HasText(wire) && HasParts(wire))
  }

  function WithoutUndefined(m: Fields): Fields { map k | k in m && !m[k].Undefined? :: m[k] }

  function FeedParts(wire: Fields, t: Tables): Option<Fields> {
    var parts :- FromParts(AsArray(Get(wire, "contentParts")), t);
    Some(wire["content" := List(parts)])
  }

  /** None where the source throws. */
  function FromWireMessage(wire: Fields, t: Tables): Option<Fields> {
    if CarriersRefused(wire, t) then None
    else
      var fed :- if UsesParts(wire, t) && !HasText(wire)
                 then FeedParts(wire, t) else Some(wire);
      var whole := if UsesMap(wire, t) && HasMap(wire) then fed["content" := Get(wire, "activityContent")] else fed;
      var bare := whole - {"activityContent", "contentParts"};
      Some(WithoutUndefined(if AsArray(Get(wire, "toolCalls")) == [] then bare - {"toolCalls"} else bare))
  }

  // ---------------------------------------------------------------------------
  // What decoding refuses and keeps
  // ---------------------------------------------------------------------------

  /** The carrier checks refuse exactly: two carriers at once, or a carrier the known role does not use. */
  lemma RefusedExactly(wire: Fields, t: Tables)
    ensures CarriersRefused(wire, t) <==>
      || (HasText(wire) && HasParts(wire)) || (HasText(wire) && HasMap(wire)) || (HasParts(wire) && HasMap(wire))
      || (RoleMode(wire, t).Some? &&
          var mode := RoleMode(wire, t).value;
          (HasParts(wire) && !mode.TextOrParts?) || (HasMap(wire) && !mode.Map?) || (HasText(wire) && mode.Map?))
  {
  }

  /** Whatever is not refused keeps the one carrier it had, under `content`. */
  lemma NoCarrierIsLost(wire: Fields, t: Tables)
    requires FromWireMessage(wire, t).Some?
    ensures var content := Get(FromWireMessage(wire, t).value, "content");
      && (HasText(wire) ==> content == Get(wire, "content"))
      && (HasMap(wire) ==> content == Get(wire, "activityContent"))
      && (HasParts(wire) ==> content.List? && Some(content.items) == FromParts(AsArray(Get(wire, "contentParts")), t))
  {
    RefusedExactly(wire, t);
  }
}
