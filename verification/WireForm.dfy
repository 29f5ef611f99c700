/** What goes over the wire and what is made of it: the shape of encoded messages, and of what decoding drops. */
module WireForm {
  import opened Options
  import opened Loose
  import opened WireMessages
  import opened MessageRoundTrip
  import Outcomes

  // ---------------------------------------------------------------------------
  // Encoded messages
  // ---------------------------------------------------------------------------

  /** A oneof with the one arm `kind` set, holding exactly the given fields. */
  ghost predicate OneArmed(sent: Value, kind: string, names: set<string>) {
    && sent.Rec? && sent.fields.Keys == {kind} && sent.fields[kind].Rec?
    && sent.fields[kind].fields.Keys == names
  }

  /** A source travels as the arm its type names, with its fields; a missing one stays missing. */
  ghost predicate SourceForm(sent: Value, source: Value, t: Tables) {
    if source.Undefined? then sent.Undefined?
    else
      && ValidSource(source, t)
      && var kind := Get(source.fields, "type").text;
         OneArmed(sent, kind, t.sources[kind])
         && forall f <- t.sources[kind] :: sent.fields[kind].fields[f] == Get(source.fields, f)
  }

  /** A part travels as the arm its type names; its sources as sources, everything else as it is. */
  ghost predicate PartForm(sent: Value, part: Value, t: Tables)
    requires ValidPart(part, t)
  {
    var kind := Get(part.fields, "type").text;
    && OneArmed(sent, kind, t.parts[kind].Keys)
    && forall f <- t.parts[kind] ::
         var carried := sent.fields[kind].fields[f];
         if t.parts[kind][f] then SourceForm(carried, Get(part.fields, f), t) else carried == Get(part.fields, f)
  }

  lemma SourceIsSent(source: Value, t: Tables)
    requires source.Undefined? || ValidSource(source, t)
    ensures SourceForm(ToSource(source, t), source, t)
  {
    if !source.Undefined? {
      var kind := Get(source.fields, "type").text;
      assert ToSource(source, t).fields.Keys == {kind};
    }
  }

  lemma PartIsSent(part: Value, t: Tables)
    requires Sound(t) && ValidPart(part, t)
    ensures PartForm(ToPart(part, t), part, t)
  {
    hide ToSource, SourceForm;
    var kind := Get(part.fields, "type").text;
    assert ToPart(part, t).fields.Keys == {kind};
    forall f <- t.parts[kind] | t.parts[kind][f]
      ensures SourceForm(ToSource(Get(part.fields, f), t), Get(part.fields, f), t)
    {
      SourceIsSent(Get(part.fields, f), t);
    }
  }

  lemma {:induction false} PartsAreSent(items: seq<Value>, t: Tables)
    requires Sound(t) && forall part <- items :: ValidPart(part, t)
    ensures |ToParts(items, t)| == |items|
    ensures forall i :: 0 <= i < |items| ==> items[i] in items && PartForm(ToParts(items, t)[i], items[i], t)
  {
    hide ValidPart, PartForm, ToPart;
    if items != [] {
      var k := |items| - 1;
      var init, last := items[..k], items[k];
      assert forall part <- init :: part in items;
      PartsAreSent(init, t);
      PartIsSent(last, t);
      PartIsThere(last, t);
      forall i | 0 <= i < |items| ensures items[i] in items && PartForm(ToParts(items, t)[i], items[i], t) {
        if i < k { assert items[i] == init[i]; }
      }
    }
  }

  lemma PartIsThere(part: Value, t: Tables)
    requires ValidPart(part, t) && PartForm(ToPart(part, t), part, t)
    ensures !ToPart(part, t).Undefined?
  {
  }

  /** The call as it was, key by key. */
  ghost predicate SameCall(sent: Value, call: Value) {
    sent.Rec? && call.Rec? && forall k :: Get(sent.fields, k) == Get(call.fields, k)
  }

  /** The content parts on the wire: one for each part of the message, in order; none unless it has parts. */
  ghost predicate PartsForm(wire: Fields, m: Fields, t: Tables)
    requires ValidMessage(m, t)
  {
    var content, sent := Get(m, "content"), Get(wire, "contentParts");
    && sent.List?
    && (content.List? ==>
          && |sent.items| == |content.items|
          && forall i :: 0 <= i < |content.items| ==>
               ValidPart(content.items[i], t) && PartForm(sent.items[i], content.items[i], t))
    && (!content.List? ==> sent.items == [])
  }

  /** The one carrier each form of content takes, and every other field as it was. */
  ghost predicate MessageForm(wire: Fields, m: Fields, t: Tables)
    requires ValidMessage(m, t)
  {
    var content, calls := Get(m, "content"), Get(wire, "toolCalls");
    && Get(wire, "content") == (if content.Str? then content else Undefined)
    && PartsForm(wire, m, t)
    && Get(wire, "activityContent") == (if t.modes[Get(m, "role").text].Map? then content else Undefined)
    && calls.List? && |calls.items| == |AsArray(Get(m, "toolCalls"))|
    && (forall i :: 0 <= i < |calls.items| ==> SameCall(calls.items[i], AsArray(Get(m, "toolCalls"))[i]))
    && forall k :: k !in {"content", "contentParts", "activityContent", "toolCalls"} ==> Get(wire, k) == Get(m, k)
  }

  /** Every valid message is encoded in that form. */
  lemma MessageIsSent(m: Fields, t: Tables)
    requires Sound(t) && ValidMessage(m, t)
    ensures MessageForm(ToWireMessage(m, t), m, t)
  {
    hide ToParts, PartForm, ToWireToolCalls, ValidPart;
    var content, wire := Get(m, "content"), ToWireMessage(m, t);
    if content.List? {
      PartsAreSent(content.items, t);
      assert forall i :: 0 <= i < |content.items| ==> content.items[i] in content.items;
    }
    CallsAreSent(Get(m, "toolCalls"));
    var calls := Get(wire, "toolCalls");
    assert calls == List(ToWireToolCalls(AsArray(Get(m, "toolCalls"))));
    assert PartsForm(wire, m, t);
  }

  lemma CallsAreSent(v: Value)
    requires ValidToolCalls(v)
    ensures var calls := AsArray(v);
      |ToWireToolCalls(calls)| == |calls|
      && forall i :: 0 <= i < |calls| ==> SameCall(ToWireToolCalls(calls)[i], calls[i])
  {
    var calls := AsArray(v);
    forall i | 0 <= i < |calls| ensures SameCall(ToWireToolCalls(calls)[i], calls[i]) {
      assert calls[i] in calls;
    }
  }

  function RecordOnly(v: Value): Value { if v.Rec? then v else Undefined }

  /** Of any message, valid or not: metadata that is no record is not sent, and map roles always send a map. */
  lemma AnyMessageIsSent(m: Fields, t: Tables)
    ensures var wire, calls := ToWireMessage(m, t), AsArray(Get(m, "toolCalls"));
      && Get(wire, "metadata") == RecordOnly(Get(m, "metadata"))
      && Get(wire, "toolCalls").List? && |Get(wire, "toolCalls").items| == |calls|
      && (forall i :: 0 <= i < |calls| ==>
            var sent := Get(wire, "toolCalls").items[i];
            && sent.Rec? && Get(sent.fields, "metadata") == RecordOnly(Get(FieldsOf(calls[i]), "metadata"))
            && forall k :: k != "metadata" ==> Get(sent.fields, k) == Get(FieldsOf(calls[i]), k))
      && (Get(m, "role").Str? && Get(m, "role").text in t.modes && t.modes[Get(m, "role").text] == Map
          && !Get(m, "content").List? ==>
            && Get(wire, "content") == Undefined
            && Get(wire, "activityContent") ==
                 (if Get(m, "content").Rec? then Get(m, "content") else Rec(map[])))
  {
    hide ToParts;
  }

  /** Of a valid message at most one of the three carriers is populated. */
  lemma OneCarrierIsSent(m: Fields, t: Tables)
    requires Sound(t) && ValidMessage(m, t)
    ensures var wire := ToWireMessage(m, t);
      !(HasText(wire) && HasParts(wire)) && !(HasText(wire) && HasMap(wire)) && !(HasParts(wire) && HasMap(wire))
  {
    hide ToWireMessage, PartForm;
    MessageIsSent(m, t);
  }

  // ---------------------------------------------------------------------------
  // Decoded messages
  // ---------------------------------------------------------------------------

  /** Of any message that is accepted, whatever its role: all that carries no content comes back as it arrived. */
  lemma OthersComeBack(wire: Fields, t: Tables, k: string)
    requires FromWireMessage(wire, t).Some? && k !in {"content", "contentParts", "activityContent"}
    ensures var back := FromWireMessage(wire, t).value;
      && "contentParts" !in back && "activityContent" !in back
      && Get(back, k) == (if k == "toolCalls" && AsArray(Get(wire, k)) == [] then Undefined else Get(wire, k))
  {
    hide CarriersRefused, FromParts;
  }

  /** Content that arrives in no carrier: an empty list for a role with parts, none otherwise. */
  lemma MissingContent(wire: Fields, t: Tables)
    requires FromWireMessage(wire, t).Some? && !HasText(wire) && !HasParts(wire) && !HasMap(wire)
    ensures Get(FromWireMessage(wire, t).value, "content") ==
      if RoleMode(wire, t) == Some(TextOrParts) then List([]) else Undefined
  {
  }

  // ---------------------------------------------------------------------------
  // Arms of the future
  // ---------------------------------------------------------------------------

  /** Neither absent nor null, empty, zero or false. */
  predicate IsSet(v: Value) {
    v != Undefined && v != Null && v != Str("") && (v.Scalar? ==> v.truthy)
  }

  lemma SetIsTruthy(v: Value)
    ensures IsSet(v) <==> Truthy(v)
  {
  }

  lemma SetArms(rec: Fields, entries: set<string>)
    ensures forall e :: e in Arms(rec, entries) <==> e in entries && IsSet(Get(rec, e))
  {
    forall e ensures IsSet(Get(rec, e)) <==> Truthy(Get(rec, e)) {
      SetIsTruthy(Get(rec, e));
    }
  }

  ghost predicate TwoArms(rec: Fields, entries: set<string>) {
    exists d, e :: d in entries && e in entries && d != e && IsSet(Get(rec, d)) && IsSet(Get(rec, e))
  }

  lemma CountArms(rec: Fields, entries: set<string>)
    ensures |Arms(rec, entries)| > 1 <==> TwoArms(rec, entries)
  {
    SetArms(rec, entries);
    hide IsSet, Truthy;
    var arms := Arms(rec, entries);
    if |arms| > 1 {
      var d :| d in arms;
      assert |arms - {d}| == |arms| - 1;
      var e :| e in arms - {d};
      assert d in arms && e in arms && d != e;
    }
    if TwoArms(rec, entries) {
      var d, e :| d in entries && e in entries && d != e && IsSet(Get(rec, d)) && IsSet(Get(rec, e));
      assert {d, e} <= arms;
      SubsetSize({d, e}, arms);
      assert |{d, e}| == 2;
    }
  }

  lemma SubsetSize(a: set<string>, b: set<string>)
    requires a <= b
    ensures |a| <= |b|
  {
    if a != {} {
      var x :| x in a;
      SubsetSize(a - {x}, b - {x});
    }
  }

  /** A source is refused exactly for two arms, unreadable exactly for none, and otherwise its one arm's fields. */
  lemma SourceIsRead(v: Value, t: Tables)
    ensures FromSource(v, t).None? <==> TwoArms(FieldsOf(v), t.sources.Keys)
    ensures FromSource(v, t) == Some(Undefined) <==> forall e <- t.sources :: !IsSet(Get(FieldsOf(v), e))
    ensures forall e <- t.sources :: !TwoArms(FieldsOf(v), t.sources.Keys) && IsSet(Get(FieldsOf(v), e)) ==>
      FromSource(v, t) ==
        Some(Rec((map f | f in t.sources[e] :: Get(FieldsOf(Get(FieldsOf(v), e)), f))["type" := Str(e)]))
  {
    CountArms(FieldsOf(v), t.sources.Keys);
    SetArms(FieldsOf(v), t.sources.Keys);
    hide IsSet, Truthy;
    var arms := Arms(FieldsOf(v), t.sources.Keys);
    if |arms| == 1 { OnlyOne(arms); }
    assert arms == {} <==> forall e <- t.sources :: !IsSet(Get(FieldsOf(v), e));
  }

  /** One of the part's source fields has two arms. */
  ghost predicate BadSource(part: Fields, payload: Payload, t: Tables) {
    exists f <- payload :: payload[f] && TwoArms(FieldsOf(Get(part, f)), t.sources.Keys)
  }

  /** One of them is there and has no arm this build knows. */
  ghost predicate FutureSource(part: Fields, payload: Payload, t: Tables) {
    exists f <- payload :: payload[f] && Get(part, f) != Undefined
                           && forall e <- t.sources :: !IsSet(Get(FieldsOf(Get(part, f)), e))
  }

  /** A part of that type with the fields the type has, sources read as sources. */
  ghost predicate ReadAs(v: Value, e: string, part: Fields, t: Tables)
    requires e in t.parts
  {
    && v.Rec? && v.fields.Keys == t.parts[e].Keys + {"type"} && Get(v.fields, "type") == Str(e)
    && forall f <- t.parts[e] :: f != "type" ==>
         if t.parts[e][f] then FromSource(Get(part, f), t) == Some(Get(v.fields, f))
         else Get(v.fields, f) == Get(part, f)
  }

  /** What becomes of a part from the wire: refused, dropped, or read under the arm it has. */
  lemma PartIsRead(v: Value, t: Tables)
    ensures TwoArms(FieldsOf(v), t.parts.Keys) ==> FromPart(v, t).None?
    ensures (forall e <- t.parts :: !IsSet(Get(FieldsOf(v), e))) ==> FromPart(v, t) == Some(Undefined)
    ensures forall e <- t.parts :: !TwoArms(FieldsOf(v), t.parts.Keys) && IsSet(Get(FieldsOf(v), e)) ==>
      var part := FieldsOf(Get(FieldsOf(v), e));
      && (FromPart(v, t).None? <==> BadSource(part, t.parts[e], t))
      && (FromPart(v, t) == Some(Undefined) <==> !BadSource(part, t.parts[e], t) && FutureSource(part, t.parts[e], t))
      && (!BadSource(part, t.parts[e], t) && !FutureSource(part, t.parts[e], t) ==>
            ReadAs(FromPart(v, t).value, e, part, t))
  {
    hide FromArm, IsSet, Truthy, ReadAs;
    var rec := FieldsOf(v);
    CountArms(rec, t.parts.Keys);
    SetArms(rec, t.parts.Keys);
    var arms := Arms(rec, t.parts.Keys);
    assert arms == {} <==> forall e <- t.parts :: !IsSet(Get(rec, e));
    if |arms| == 1 { OnlyOne(arms); }
    forall e <- t.parts | !TwoArms(rec, t.parts.Keys) && IsSet(Get(rec, e))
      ensures FromPart(v, t) == FromArm(e, FieldsOf(Get(rec, e)), t)
      ensures var part := FieldsOf(Get(rec, e));
        && (FromArm(e, part, t).None? <==> BadSource(part, t.parts[e], t))
        && (FromArm(e, part, t) == Some(Undefined) <==>
              !BadSource(part, t.parts[e], t) && FutureSource(part, t.parts[e], t))
        && (!BadSource(part, t.parts[e], t) && !FutureSource(part, t.parts[e], t) ==>
              ReadAs(FromArm(e, part, t).value, e, part, t))
    {
      assert e in arms;
      ArmIsRead(e, FieldsOf(Get(rec, e)), t);
    }
  }

  lemma ArmIsRead(e: string, part: Fields, t: Tables)
    requires e in t.parts
    ensures FromArm(e, part, t).None? <==> BadSource(part, t.parts[e], t)
    ensures FromArm(e, part, t) == Some(Undefined) <==>
      !BadSource(part, t.parts[e], t) && FutureSource(part, t.parts[e], t)
    ensures !BadSource(part, t.parts[e], t) && !FutureSource(part, t.parts[e], t) ==>
      ReadAs(FromArm(e, part, t).value, e, part, t)
  {
    hide FromSource, TwoArms, IsSet;
    forall f <- t.parts[e]
      ensures FromSource(Get(part, f), t).None? <==> TwoArms(FieldsOf(Get(part, f)), t.sources.Keys)
      ensures FromSource(Get(part, f), t) == Some(Undefined) <==>
        forall e <- t.sources :: !IsSet(Get(FieldsOf(Get(part, f)), e))
    {
      SourceIsRead(Get(part, f), t);
    }
  }

  // ---------------------------------------------------------------------------
  // Flattened outcomes
  // ---------------------------------------------------------------------------

  /**
    Of any event: the outcome travels as a string, and each list of any case as a list, empty unless this
    case has it.
   */
  lemma OutcomeIsSent(event: Fields, s: Outcomes.Spec)
    requires Outcomes.Sound(s)
    ensures var wire, kind := Outcomes.Flatten(event, s), Get(FieldsOf(Get(event, s.field)), "type");
      && Get(wire, s.field) == (if kind.Str? then kind else Str(""))
      && forall name <- Outcomes.PayloadNames(s) ::
           Get(wire, name) == List(
             if kind.Str? && kind.text in s.cases && name in s.cases[kind.text]
             then AsArray(Get(FieldsOf(Get(event, s.field)), name)) else [])
  {
  }
}
