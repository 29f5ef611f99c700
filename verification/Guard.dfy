/** The recursive wire guard of the TypeScript runtime, and exactly what it accepts. */
module Guard {
  import opened Options
  import opened Varint
  import opened Tokens
  import opened ScanTable

  // ---------------------------------------------------------------------------
  // One message level
  // ---------------------------------------------------------------------------

  /** The scan of the input still ahead, at group depth `depth` with arm `arm` seen (0: none). */
  predicate ScanFrom(s: bytes, depth: nat, arm: nat, spec: ScanSpec, table: Table)
    decreases |s|
  {
    if s == [] then depth == 0
    else
      match TakeToken(Loose, s)
      case None => false
      case Some(t) =>
        var rest := s[t.size..];
        if t.wireType == START_GROUP then ScanFrom(rest, depth + 1, arm, spec, table)
        else if t.wireType == END_GROUP then depth > 0 && ScanFrom(rest, depth - 1, arm, spec, table)
        else if t.wireType == LEN && depth == 0 then
          && (t.field in spec.arms ==> arm == 0 || arm == t.field)
          && ScanChild(t, spec, table)
          && ScanFrom(rest, 0, if t.field in spec.arms then t.field else arm, spec, table)
        else ScanFrom(rest, depth, arm, spec, table)
  }

  predicate ScanChild(t: Token, spec: ScanSpec, table: Table)
    decreases |t.payload| + 1
  {
    match GuardChild(spec, table, t.field)
    case None => true
    case Some(child) => ScanFrom(t.payload, 0, 0, child, table)
  }

  /** Walks one message level, recursing along `descend` edges. `ok` is false where the source throws. */
  method ScanMessage(data: bytes, spec: ScanSpec, table: Table) returns (ok: bool)
    ensures ok <==> ScanFrom(data, 0, 0, spec, table)
    decreases |data|
  {
    hide ScanFrom, TakeToken;
    var cursor := new Cursor();
    var groupDepth: int := 0;
    var seenArm := 0;
    assert data[0..] == data;
    while cursor.offset < |data|
      invariant cursor.offset <= |data|
      invariant groupDepth >= 0
      invariant ScanFrom(data, 0, 0, spec, table) <==>
                ScanFrom(data[cursor.offset..], groupDepth, seenArm, spec, table)
      decreases |data| - cursor.offset
    {
      ghost var o := cursor.offset;
      ScanUnfold(data[o..], groupDepth, seenArm, spec, table);
      var r := ReadToken(Loose, data, cursor);
      if r.None? { return false; }
      var t := r.value;
      Suffix(data, o, t.size);
      if t.wireType == START_GROUP {
        groupDepth := groupDepth + 1;
        continue;
      }
      if t.wireType == END_GROUP {
        groupDepth := groupDepth - 1;
        if groupDepth < 0 { return false; }
        continue;
      }
      if t.wireType == LEN && groupDepth == 0 {
        if t.field in spec.arms {
          if seenArm != 0 && seenArm != t.field { return false; }
          seenArm := t.field;
        }
        if t.field in spec.descend {
          var child := spec.descend[t.field];
          if child in table {
            var inner := ScanMessage(t.payload, table[child], table);
            if !inner { return false; }
          }
        }
      }
    }
    ScanDone(data[cursor.offset..], groupDepth, seenArm, spec, table);
    ok := groupDepth == 0;
  }

  lemma ScanDone(s: bytes, depth: nat, arm: nat, spec: ScanSpec, table: Table)
    requires s == []
    ensures ScanFrom(s, depth, arm, spec, table) <==> depth == 0
  {
  }

  lemma ScanUnfold(s: bytes, depth: nat, arm: nat, spec: ScanSpec, table: Table)
    requires s != []
    ensures TakeToken(Loose, s).None? ==> !ScanFrom(s, depth, arm, spec, table)
    ensures TakeToken(Loose, s).Some? ==>
      var t := TakeToken(Loose, s).value;
      var rest := s[t.size..];
      ScanFrom(s, depth, arm, spec, table) ==
        (if t.wireType == START_GROUP then ScanFrom(rest, depth + 1, arm, spec, table)
         else if t.wireType == END_GROUP then depth > 0 && ScanFrom(rest, depth - 1, arm, spec, table)
         else if t.wireType == LEN && depth == 0 then
           && (t.field in spec.arms ==> arm == 0 || arm == t.field)
           && ScanChild(t, spec, table)
           && ScanFrom(rest, 0, if t.field in spec.arms then t.field else arm, spec, table)
         else ScanFrom(rest, depth, arm, spec, table))
  {
  }

  /** The same descents with every oneof check removed: what is left is well-formedness. */
  function NoArms(spec: ScanSpec): ScanSpec { spec.(arms := {}) }

  function Structural(table: Table): Table { map name | name in table :: NoArms(table[name]) }

  // ---------------------------------------------------------------------------
  // The envelope
  // ---------------------------------------------------------------------------

  /** The envelope level: `env.singular` holds the known event numbers, `env.descend` their messages. */
  predicate EnvelopeFrom(s: bytes, depth: nat, seen: nat, env: ScanSpec, table: Table)
    decreases |s|
  {
    if s == [] then depth == 0
    else
      match TakeToken(Loose, s)
      case None => false
      case Some(t) =>
        var rest := s[t.size..];
        if t.wireType == START_GROUP then EnvelopeFrom(rest, depth + 1, seen, env, table)
        else if t.wireType == END_GROUP then depth > 0 && EnvelopeFrom(rest, depth - 1, seen, env, table)
        else if depth == 0 then
          && (t.field in env.singular ==> seen == 0 || seen == t.field)
          && (t.wireType == LEN ==> ScanChild(t, env, table))
          && EnvelopeFrom(rest, 0, if t.field in env.singular then t.field else seen, env, table)
        else EnvelopeFrom(rest, depth, seen, env, table)
  }

  /** Rejects different known event kinds in one envelope, then checks each payload. */
  method AssertWellFormedEnvelope(data: bytes, env: ScanSpec, table: Table) returns (ok: bool)
    ensures ok <==> EnvelopeFrom(data, 0, 0, env, table)
  {
    hide EnvelopeFrom, TakeToken, ScanFrom;
    var seen: set<nat> := {};
    ghost var last := 0;
    var cursor := new Cursor();
    var groupDepth: int := 0;
    assert data[0..] == data;
    while cursor.offset < |data|
      invariant cursor.offset <= |data|
      invariant groupDepth >= 0
      invariant seen == if last == 0 then {} else {last}
      invariant EnvelopeFrom(data, 0, 0, env, table) <==>
                EnvelopeFrom(data[cursor.offset..], groupDepth, last, env, table)
      decreases |data| - cursor.offset
    {
      ghost var o := cursor.offset;
      EnvelopeUnfold(data[o..], groupDepth, last, env, table);
      var r := ReadToken(Loose, data, cursor);
      if r.None? { return false; }
      var t := r.value;
      Suffix(data, o, t.size);
      if t.wireType == START_GROUP {
        groupDepth := groupDepth + 1;
        continue;
      }
      if t.wireType == END_GROUP {
        groupDepth := groupDepth - 1;
        if groupDepth < 0 { return false; }
        continue;
      }
      if groupDepth == 0 && t.field in env.singular {
        if |seen| > 0 && t.field !in seen { return false; }
        seen := seen + {t.field};
        last := t.field;
      }
      if t.wireType == LEN && groupDepth == 0 {
        if t.field in env.descend {
          var child := env.descend[t.field];
          if child in table {
            var inner := ScanMessage(t.payload, table[child], table);
            if !inner { return false; }
          }
        }
      }
    }
    EnvelopeDone(data[cursor.offset..], groupDepth, last, env, table);
    ok := groupDepth == 0;
  }

  lemma EnvelopeDone(s: bytes, depth: nat, seen: nat, env: ScanSpec, table: Table)
    requires s == []
    ensures EnvelopeFrom(s, depth, seen, env, table) <==> depth == 0
  {
  }

  lemma EnvelopeUnfold(s: bytes, depth: nat, seen: nat, env: ScanSpec, table: Table)
    requires s != []
    ensures TakeToken(Loose, s).None? ==> !EnvelopeFrom(s, depth, seen, env, table)
    ensures TakeToken(Loose, s).Some? ==>
      var t := TakeToken(Loose, s).value;
      var rest := s[t.size..];
      EnvelopeFrom(s, depth, seen, env, table) ==
        (if t.wireType == START_GROUP then EnvelopeFrom(rest, depth + 1, seen, env, table)
         else if t.wireType == END_GROUP then depth > 0 && EnvelopeFrom(rest, depth - 1, seen, env, table)
         else if depth == 0 then
           && (t.field in env.singular ==> seen == 0 || seen == t.field)
           && (t.wireType == LEN ==> ScanChild(t, env, table))
           && EnvelopeFrom(rest, 0, if t.field in env.singular then t.field else seen, env, table)
         else EnvelopeFrom(rest, depth, seen, env, table))
  {
  }
}
