/** The envelope guard of the C# runtime, which also reports whether the bytes could be a newer event. */
module DotnetGuard {
  import opened Options
  import opened Varint
  import opened Tokens
  import opened ScanTable
  import opened Guard
  import opened GuardExact

  ghost predicate KnowsExactly(known: array<bool>, tags: set<nat>)
    reads known
  {
    forall f: nat :: f in tags <==> f < known.Length && known[f]
  }

  /** The lookup array the generated guard indexes instead of a set. */
  method BuildKnownTags(tags: seq<nat>) returns (known: array<bool>)
    requires tags != []
    ensures fresh(known)
    ensures KnowsExactly(known, set t | t in tags)
  {
    var top := tags[0];
    for i := 1 to |tags|
      invariant forall j :: 0 <= j < i ==> tags[j] <= top
    {
      if tags[i] > top { top := tags[i]; }
    }
    known := new bool[top + 1](i => false);
    for i := 0 to |tags|
      invariant forall f: nat :: f < known.Length && known[f] <==> f in tags[..i]
    {
      known[tags[i]] := true;
      assert tags[..i + 1] == tags[..i] + [tags[i]];
    }
    assert tags[..|tags|] == tags;
  }

  // ---------------------------------------------------------------------------
  // The nested scans
  // ---------------------------------------------------------------------------

  /**
    One generated `Scan<Name>` method: the loop over tags, the check of the oneof, and a switch
    over the fields that descend, each case calling another such method.
   */
  method ScanNamed(data: bytes, name: string, table: Table) returns (ok: bool)
    requires name in table
    ensures ok <==> ScanFrom(data, 0, 0, table[name], table)
    decreases |data|
  {
    hide ScanFrom, TakeToken;
    var spec := table[name];
    var cursor := new Cursor();
    var groupDepth: int := 0;
    var seenArm: nat := 0;
    assert data[0..] == data;
    while cursor.offset < |data|
      invariant cursor.offset <= |data|
      invariant groupDepth >= 0
      invariant ScanFrom(data, 0, 0, spec, table) <==>
                ScanFrom(data[cursor.offset..], groupDepth, seenArm, spec, table)
      decreases |data| - cursor.offset
    {
      ghost var o := cursor.offset;
      ScanUnfold(data[o..], groupDepth, seenArm, spec, table);
      var r := ReadToken(Loose, data, cursor);
      if r.None? { return false; }
      var t := r.value;
      Suffix(data, o, t.size);
      match t.wireType {
        case 3 =>
          groupDepth := groupDepth + 1;
        case 4 =>
          groupDepth := groupDepth - 1;
          if groupDepth < 0 { return false; }
        case 2 =>
          if groupDepth == 0 {
            var admitted := AdmitArm(t.field, spec.arms, seenArm);
            if admitted.None? { return false; }
            seenArm := admitted.value;
            if t.field in spec.descend && spec.descend[t.field] in table {
              var inner := ScanNamed(t.payload, spec.descend[t.field], table);
              if !inner { return false; }
            }
          }
        case _ =>
      }
    }
    ScanDone(data[cursor.offset..], groupDepth, seenArm, spec, table);
    ok := groupDepth == 0;
  }

  /** The oneof check, which the generator emits only for a message that has arms. */
  method AdmitArm(field: nat, arms: set<nat>, seenArm: nat) returns (r: Option<nat>)
    ensures r == if field !in arms then Some(seenArm)
                 else if seenArm == 0 || seenArm == field then Some(field) else None
  {
    if arms == {} { return Some(seenArm); }
    if field in arms {
      if seenArm != 0 && seenArm != field { return None; }
      return Some(field);
    }
    return Some(seenArm);
  }

  // ---------------------------------------------------------------------------
  // The envelope
  // ---------------------------------------------------------------------------

  /** None where the source throws; otherwise its answer. */
  function DotnetFrom(
    s: bytes, depth: nat, event: nat, knownTags: nat, unknownArms: nat, env: ScanSpec, table: Table
  ): Option<bool>
    decreases |s|
  {
    if s == [] then if depth == 0 then Some(knownTags == 0 && unknownArms > 0) else None
    else
      var t :- TakeToken(Loose, s);
      var rest := s[t.size..];
      var known := depth == 0 && t.field in env.singular;
      if t.wireType == START_GROUP then
        DotnetFrom(rest, depth + 1, event, if known then knownTags + 1 else knownTags, unknownArms, env, table)
      else if t.wireType == END_GROUP then
        if depth == 0 then None else DotnetFrom(rest, depth - 1, event, knownTags, unknownArms, env, table)
      else if known && event != 0 && event != t.field then None
      else if depth == 0 && t.wireType == LEN && !ScanChild(t, env, table) then None
      else
        DotnetFrom(rest, depth,
                   if known then t.field else event,
                   if known then knownTags + 1 else knownTags,
                   if depth == 0 && !known && t.wireType == LEN then unknownArms + 1 else unknownArms,
                   env, table)
  }

  method AssertWellFormedEnvelope(data: bytes, known: array<bool>, env: ScanSpec, table: Table)
    returns (r: Option<bool>)
    requires KnowsExactly(known, env.singular)
    ensures r == DotnetFrom(data, 0, 0, 0, 0, env, table)
  {
    hide DotnetFrom, TakeToken, ScanFrom;
    var knownTags, knownEventField, unknownEventArms := 0, 0, 0;
    var cursor := new Cursor();
    var groupDepth: int := 0;
    assert data[0..] == data;
    while cursor.offset < |data|
      invariant cursor.offset <= |data|
      invariant groupDepth >= 0
      invariant DotnetFrom(data, 0, 0, 0, 0, env, table) ==
        DotnetFrom(data[cursor.offset..], groupDepth, knownEventField, knownTags, unknownEventArms, env, table)
      decreases |data| - cursor.offset
    {
      ghost var o := cursor.offset;
      DotnetUnfold(data[o..], groupDepth, knownEventField, knownTags, unknownEventArms, env, table);
      var r := ReadToken(Loose, data, cursor);
      if r.None? { return None; }
      var t := r.value;
      Suffix(data, o, t.size);
      if t.wireType == START_GROUP {
        if groupDepth == 0 && t.field < known.Length && known[t.field] {
          knownTags := knownTags + 1;
        }
        groupDepth := groupDepth + 1;
        continue;
      }
      if t.wireType == END_GROUP {
        groupDepth := groupDepth - 1;
        if groupDepth < 0 { return None; }
        continue;
      }
      if groupDepth == 0 && t.field < known.Length && known[t.field] {
        if knownEventField != 0 && knownEventField != t.field { return None; }
        knownTags := knownTags + 1;
        knownEventField := t.field;
      }
      if t.wireType == LEN {
        if groupDepth == 0 && (t.field >= known.Length || !known[t.field]) {
          unknownEventArms := unknownEventArms + 1;
        }
        if groupDepth == 0 && t.field in env.descend && env.descend[t.field] in table {
          var inner := ScanNamed(t.payload, env.descend[t.field], table);
          if !inner { return None; }
        }
      }
    }
    DotnetDone(data[cursor.offset..], groupDepth, knownEventField, knownTags, unknownEventArms, env, table);
    if groupDepth != 0 { return None; }
    return Some(knownTags == 0 && unknownEventArms > 0);
  }

  lemma DotnetDone(
    s: bytes, depth: nat, event: nat, knownTags: nat, unknownArms: nat, env: ScanSpec, table: Table)
    requires s == []
    ensures DotnetFrom(s, depth, event, knownTags, unknownArms, env, table)
         == if depth == 0 then Some(knownTags == 0 && unknownArms > 0) else None
  {
  }

  lemma DotnetUnfold(
    s: bytes, depth: nat, event: nat, knownTags: nat, unknownArms: nat, env: ScanSpec, table: Table)
    requires s != []
    ensures TakeToken(Loose, s).None? ==> DotnetFrom(s, depth, event, knownTags, unknownArms, env, table).None?
    ensures TakeToken(Loose, s).Some? ==>
      var t := TakeToken(Loose, s).value;
      var rest := s[t.size..];
      var known := depth == 0 && t.field in env.singular;
      DotnetFrom(s, depth, event, knownTags, unknownArms, env, table) ==
        if t.wireType == START_GROUP then
          DotnetFrom(rest, depth + 1, event, if known then knownTags + 1 else knownTags, unknownArms, env, table)
        else if t.wireType == END_GROUP then
          if depth == 0 then None else DotnetFrom(rest, depth - 1, event, knownTags, unknownArms, env, table)
        else if known && event != 0 && event != t.field then None
        else if depth == 0 && t.wireType == LEN && !ScanChild(t, env, table) then None
        else
          DotnetFrom(rest, depth,
                     if known then t.field else event,
                     if known then knownTags + 1 else knownTags,
                     if depth == 0 && !known && t.wireType == LEN then unknownArms + 1 else unknownArms,
                     env, table)
  {
  }

  // ---------------------------------------------------------------------------
  // What it accepts, and what its answer means
  // ---------------------------------------------------------------------------

  function NotKnown(tags: set<nat>): Token -> bool {
    (t: Token) => t.wireType != END_GROUP ==> t.field !in tags
  }

  function NotUnknownArm(tags: set<nat>): Token -> bool {
    (t: Token) => t.wireType == LEN ==> t.field in tags
  }

  /** No top-level tag, a group's opening tag included, names a known event. */
  ghost predicate NamesNoEvent(d: int, ts: seq<Token>, tags: set<nat>) {
    ForTop(d, ts, NotKnown(tags))
  }

  /** Some top-level length-delimited field is not a known event. */
  ghost predicate HasUnknownArm(d: int, ts: seq<Token>, tags: set<nat>) {
    !ForTop(d, ts, NotUnknownArm(tags))
  }

  lemma {:induction false} DotnetIsTokens(
    s: bytes, d: nat, event: nat, knownTags: nat, unknownArms: nat, env: ScanSpec, table: Table)
    ensures DotnetFrom(s, d, event, knownTags, unknownArms, env, table).Some? <==>
            EnvelopeFrom(s, d, event, env, table)
    ensures DotnetFrom(s, d, event, knownTags, unknownArms, env, table).Some? ==>
      && TokensOf(Loose, s).Some?
      && var ts := TokensOf(Loose, s).value;
         DotnetFrom(s, d, event, knownTags, unknownArms, env, table).value <==>
           && knownTags == 0 && NamesNoEvent(d, ts, env.singular)
           && (unknownArms > 0 || HasUnknownArm(d, ts, env.singular))
    decreases |s|
  {
    if s == [] {
    } else if TakeToken(Loose, s).Some? {
      DotnetIsTokensStep(s, d, event, knownTags, unknownArms, env, table, TakeToken(Loose, s).value);
    }
  }

  lemma {:induction false} DotnetIsTokensStep(
    s: bytes, d: nat, event: nat, knownTags: nat, unknownArms: nat, env: ScanSpec, table: Table, t: Token)
    requires s != [] && TakeToken(Loose, s) == Some(t)
    ensures DotnetFrom(s, d, event, knownTags, unknownArms, env, table).Some? <==>
            EnvelopeFrom(s, d, event, env, table)
    ensures DotnetFrom(s, d, event, knownTags, unknownArms, env, table).Some? ==>
      && TokensOf(Loose, s).Some?
      && var ts := TokensOf(Loose, s).value;
         DotnetFrom(s, d, event, knownTags, unknownArms, env, table).value <==>
           && knownTags == 0 && NamesNoEvent(d, ts, env.singular)
           && (unknownArms > 0 || HasUnknownArm(d, ts, env.singular))
    decreases |s|, 0
  {
    hide DotnetFrom, EnvelopeFrom, TokensOf, TakeToken, ScanChild, ForTop;
    DotnetUnfold(s, d, event, knownTags, unknownArms, env, table);
    EnvelopeUnfold(s, d, event, env, table);
    TokensCons(Loose, s, t);
    var rest, d' := s[t.size..], d + Nesting(t);
    if d' >= 0 {
      var known := d == 0 && t.field in env.singular;
      var names := known && t.wireType != START_GROUP && t.wireType != END_GROUP;
      DotnetIsTokens(
        rest, d', if names then t.field else event,
        if known && t.wireType != END_GROUP then knownTags + 1 else knownTags,
        if d == 0 && !known && t.wireType == LEN then unknownArms + 1 else unknownArms,
        env, table);
      if TokensOf(Loose, rest).Some? {
        var ts := TokensOf(Loose, rest).value;
        ForTopCons(d, t, ts, NotKnown(env.singular));
        ForTopCons(d, t, ts, NotUnknownArm(env.singular));
      }
    }
  }

  /** The two runtimes accept the same envelopes. */
  lemma DotnetAcceptsTheSame(data: bytes, env: ScanSpec, table: Table)
    ensures DotnetFrom(data, 0, 0, 0, 0, env, table).Some? <==> EnvelopeAccepts(data, env, table)
  {
    hide *;
    DotnetIsTokens(data, 0, 0, 0, 0, env, table);
    EnvelopeAcceptsExactly(data, env, table);
  }

  /** The C# answer is "could be a newer event" exactly when no event is named and an unknown arm is present. */
  lemma DotnetAnswer(data: bytes, env: ScanSpec, table: Table)
    requires EnvelopeAccepts(data, env, table)
    ensures TokensOf(Loose, data).Some?
    ensures DotnetFrom(data, 0, 0, 0, 0, env, table) == Some(
              && NamesNoEvent(0, TokensOf(Loose, data).value, env.singular)
              && HasUnknownArm(0, TokensOf(Loose, data).value, env.singular))
  {
    DotnetAcceptsTheSame(data, env, table);
    DotnetIsTokens(data, 0, 0, 0, 0, env, table);
  }
}
