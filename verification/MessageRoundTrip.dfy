/** Messages survive the trip over the wire. */
module MessageRoundTrip {
  import opened Options
  import opened Loose
  import opened WireMessages

  // ---------------------------------------------------------------------------
  // What the schema calls valid
  // ---------------------------------------------------------------------------

  predicate ValidSource(v: Value, t: Tables) {
    && v.Rec? && Get(v.fields, "type").Str? && Get(v.fields, "type").text in t.sources
    && forall k <- v.fields :: k == "type" || k in t.sources[Get(v.fields, "type").text]
  }

  predicate ValidPart(v: Value, t: Tables) {
    && v.Rec? && Get(v.fields, "type").Str? && Get(v.fields, "type").text in t.parts
    && var payload := t.parts[Get(v.fields, "type").text];
       forall k <- v.fields ::
         || k == "type"
         || (k in payload && (payload[k] ==> v.fields[k].Undefined? || ValidSource(v.fields[k], t)))
  }

  predicate ValidMetadata(v: Value) { v.Undefined? || v.Rec? }

  predicate ValidToolCalls(v: Value) {
    || v.Undefined?
    || (v.List? && forall call <- v.items :: call.Rec? && ValidMetadata(Get(call.fields, "metadata")))
  }

  predicate ValidContent(v: Value, mode: Mode, t: Tables) {
    match mode
    case NoContent => v.Undefined?
    case Text => v.Undefined? || v.Str?
    case TextOrParts => v.Undefined? || v.Str? || (v.List? && forall part <- v.items :: ValidPart(part, t))
    case Map => v.Rec?
  }

  /** A message of a known role; content may be missing wherever the role does not need a map. */
  predicate ValidMessage(m: Fields, t: Tables) {
    && Get(m, "role").Str? && Get(m, "role").text in t.modes
    && "contentParts" !in m && "activityContent" !in m
    && ValidMetadata(Get(m, "metadata")) && ValidToolCalls(Get(m, "toolCalls"))
    && ValidContent(Get(m, "content"), t.modes[Get(m, "role").text], t)
  }

  // ---------------------------------------------------------------------------
  // Sources and parts
  // ---------------------------------------------------------------------------

  lemma OneArm(e: string, inner: Value, entries: set<string>)
    requires e in entries && Truthy(inner)
    ensures Arms(map[e := inner], entries) == {e}
  {
  }

  lemma SourceRoundTrip(v: Value, t: Tables)
    requires Sound(t) && ValidSource(v, t)
    ensures FromSource(ToSource(v, t), t).Some?
    ensures var back := FromSource(ToSource(v, t), t).value; back.Rec? && Clean(back) == Clean(v)
  {
    var e := Get(v.fields, "type").text;
    var inner: Fields := map f | f in t.sources[e] :: Get(v.fields, f);
    assert ToSource(v, t) == Rec(map[e := Rec(inner)]);
    OneArm(e, Rec(inner), t.sources.Keys);
    var back: Fields := (map f | f in t.sources[e] :: Get(inner, f))["type" := Str(e)];
    assert FromSource(ToSource(v, t), t) == Some(Rec(back));
    hide Clean;
    forall k ensures Get(back, k) == Get(v.fields, k) {}
    SameReads(back, v.fields);
  }

  lemma AbsentSource(t: Tables)
    ensures FromSource(Undefined, t) == Some(Undefined) && ToSource(Undefined, t) == Undefined
  {
    assert Arms(map[], t.sources.Keys) == {};
  }

  /** The wire form of a valid part's field, read back. */
  lemma PartFieldRoundTrip(part: Fields, f: string, t: Tables)
    requires Sound(t) && (Get(part, f).Undefined? || ValidSource(Get(part, f), t))
    ensures var sent := ToSource(Get(part, f), t);
      && FromSource(sent, t).Some? && Clean(FromSource(sent, t).value) == Clean(Get(part, f))
      && (sent != Undefined ==> FromSource(sent, t) != Some(Undefined))
  {
    hide FromSource, ToSource, Clean;
    AbsentSource(t);
    if !Get(part, f).Undefined? { SourceRoundTrip(Get(part, f), t); }
  }

  lemma PartRoundTrip(v: Value, t: Tables)
    requires Sound(t) && ValidPart(v, t)
    ensures ToPart(v, t) != Undefined && FromPart(ToPart(v, t), t).Some?
    ensures var back := FromPart(ToPart(v, t), t).value; back.Rec? && Clean(back) == Clean(v)
  {
    hide FromSource, ToSource, Clean, Arms;
    var e := Get(v.fields, "type").text;
    var payload := t.parts[e];
    var inner: Fields := map f | f in payload :: if payload[f] then ToSource(Get(v.fields, f), t) else Get(v.fields, f);
    assert ToPart(v, t) == Rec(map[e := Rec(inner)]);
    OneArm(e, Rec(inner), t.parts.Keys);
    assert FromPart(ToPart(v, t), t) == FromArm(e, inner, t);
    ArmRoundTrip(v.fields, e, inner, t);
  }

  lemma ArmRoundTrip(part: Fields, e: string, inner: Fields, t: Tables)
    requires Sound(t) && ValidPart(Rec(part), t) && Get(part, "type") == Str(e) && inner.Keys == t.parts[e].Keys
    requires forall f <- inner :: inner[f] == if t.parts[e][f] then ToSource(Get(part, f), t) else Get(part, f)
    ensures FromArm(e, inner, t).Some?
    ensures var back := FromArm(e, inner, t).value; back.Rec? && Clean(back) == Clean(Rec(part))
  {
    hide FromSource, ToSource, Clean, Sound;
    var payload := t.parts[e];
    assert "type" !in payload by { SoundPart(t, e); }
    forall f <- payload | payload[f]
      ensures FromSource(Get(inner, f), t).Some? && !UnreadableSource(inner, f, t)
      ensures Clean(FromSource(Get(inner, f), t).value) == Clean(Get(part, f))
    {
      PartFieldRoundTrip(part, f, t);
    }
    var back := FromArm(e, inner, t).value.fields;
    forall k ensures Clean(Get(back, k)) == Clean(Get(part, k)) {}
    SameReads(back, part);
  }

  lemma SoundPart(t: Tables, e: string)
    requires Sound(t) && e in t.parts
    ensures "type" !in t.parts[e]
  {
  }

  lemma {:induction false} PartsRoundTrip(items: seq<Value>, t: Tables)
    requires Sound(t) && forall part <- items :: ValidPart(part, t)
    ensures FromParts(ToParts(items, t), t).Some? && |ToParts(items, t)| == |items|
    ensures Clean(List(FromParts(ToParts(items, t), t).value)) == Clean(List(items))
  {
    hide Sound, ValidPart, FromPart, ToPart, FromParts, ToParts, Clean;
    if items == [] {
      NoParts(t);
    } else {
      var k := |items| - 1;
      var init, last := items[..k], items[k];
      assert items == init + [last];
      assert last in items && forall part <- init :: part in items;
      PartsRoundTrip(init, t);
      PartRoundTrip(last, t);
      PartsSnoc(init, last, t);
      CleanAppend(FromParts(ToParts(init, t), t).value, FromPart(ToPart(last, t), t).value, init, last);
    }
  }

  lemma NoParts(t: Tables)
    ensures ToParts([], t) == [] && FromParts([], t) == Some([])
  {
  }

  lemma PartsSnoc(items: seq<Value>, last: Value, t: Tables)
    requires FromParts(ToParts(items, t), t).Some? && ToPart(last, t) != Undefined
    requires FromPart(ToPart(last, t), t).Some? && FromPart(ToPart(last, t), t).value.Rec?
    ensures ToParts(items + [last], t) == ToParts(items, t) + [ToPart(last, t)]
    ensures FromParts(ToParts(items + [last], t), t)
         == Some(FromParts(ToParts(items, t), t).value + [FromPart(ToPart(last, t), t).value])
  {
    hide FromPart, ToPart;
    assert (items + [last])[..|items|] == items;
    var sent := ToParts(items, t);
    assert (sent + [ToPart(last, t)])[..|sent|] == sent;
  }

  lemma CleanAppend(a: seq<Value>, x: Value, b: seq<Value>, y: Value)
    requires Clean(List(a)) == Clean(List(b)) && Clean(x) == Clean(y)
    ensures Clean(List(a + [x])) == Clean(List(b + [y]))
  {
    var ca, cb := Clean(List(a)).items, Clean(List(b)).items;
    assert |a| == |ca| == |cb| == |b|;
    forall i | 0 <= i < |a| ensures Clean(a[i]) == Clean(b[i]) { assert ca[i] == cb[i]; }
    SameItems(a + [x], b + [y]);
  }

  // ---------------------------------------------------------------------------
  // Messages
  // ---------------------------------------------------------------------------

  /** An empty list of tool calls is the same as none. */
  function Normal(m: Fields): Fields { if Get(m, "toolCalls") == List([]) then m - {"toolCalls"} else m }

  lemma ToolCallRoundTrip(v: Value)
    requires v.Rec? && ValidMetadata(Get(v.fields, "metadata"))
    ensures Clean(ToWireToolCall(v)) == Clean(v)
  {
    var sent := ToWireToolCall(v).fields;
    hide Clean;
    forall k ensures Get(sent, k) == Get(v.fields, k) {}
    SameReads(sent, v.fields);
  }

  lemma ToolCallsRoundTrip(v: Value)
    requires ValidToolCalls(v)
    ensures Clean(List(ToWireToolCalls(AsArray(v)))) == Clean(List(AsArray(v)))
  {
    var calls := AsArray(v);
    forall i | 0 <= i < |calls| ensures Clean(ToWireToolCall(calls[i])) == Clean(calls[i]) {
      assert calls[i] in calls;
      ToolCallRoundTrip(calls[i]);
    }
    SameItems(ToWireToolCalls(calls), calls);
  }

  /** What the trip makes of the content: missing content of a role with parts comes back as an empty list. */
  function Returned(content: Value, mode: Mode): Value {
    if mode.TextOrParts? && content.Undefined? then List([]) else content
  }

  lemma ContentRoundTrip(m: Fields, t: Tables)
    requires Sound(t) && ValidMessage(m, t)
    ensures FromWireMessage(ToWireMessage(m, t), t).Some?
    ensures var back := FromWireMessage(ToWireMessage(m, t), t).value;
      Clean(Get(back, "content")) == Clean(Returned(Get(m, "content"), t.modes[Get(m, "role").text]))
  {
    hide Sound, FromParts, ToParts, Clean, ToWireToolCalls;
    var content := Get(m, "content");
    if content.List? { PartsRoundTrip(content.items, t); }
    NoParts(t);
  }

  lemma OtherFieldsRoundTrip(m: Fields, t: Tables, k: string)
    requires ValidMessage(m, t) && FromWireMessage(ToWireMessage(m, t), t).Some? && k != "content"
    ensures var back := FromWireMessage(ToWireMessage(m, t), t).value;
      Clean(Get(back, k)) == Clean(Get(Normal(m), k))
  {
    hide FromParts, ToParts, Clean, ToWireToolCalls, ValidContent, CarriersRefused, UsesParts, UsesMap, HasText, HasMap;
    ToolCallsRoundTrip(Get(m, "toolCalls"));
    SameNumber(AsArray(Get(m, "toolCalls")));
  }

  lemma SameNumber(items: seq<Value>)
    ensures |ToWireToolCalls(items)| == |items|
  {
  }

  /**
    A valid message comes back as it was, up to absent keys and empty tool calls, exactly when
    its content is not missing from a role with parts.
   */
  lemma MessageRoundTrips(m: Fields, t: Tables)
    requires Sound(t) && ValidMessage(m, t)
    ensures FromWireMessage(ToWireMessage(m, t), t).Some?
    ensures Clean(Rec(FromWireMessage(ToWireMessage(m, t), t).value)) == Clean(Rec(Normal(m)))
       <==> !(t.modes[Get(m, "role").text].TextOrParts? && Get(m, "content").Undefined?)
  {
    hide FromWireMessage, ToWireMessage, Clean, Sound;
    ContentRoundTrip(m, t);
    var back := FromWireMessage(ToWireMessage(m, t), t).value;
    assert Get(Normal(m), "content") == Get(m, "content");
    if t.modes[Get(m, "role").text].TextOrParts? && Get(m, "content").Undefined? {
      if Clean(Rec(back)) == Clean(Rec(Normal(m))) { CleanShows(back, Normal(m), "content"); }
    } else {
      forall k ensures Clean(Get(back, k)) == Clean(Get(Normal(m), k)) {
        if k != "content" { OtherFieldsRoundTrip(m, t, k); }
      }
      SameReads(back, Normal(m));
    }
  }
}
