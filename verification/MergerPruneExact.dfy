/** Pruning the scan table is invisible to the merger exactly when it drops no google field it could meet. */
module MergerPruneExact {
  import opened Options
  import opened Varint
  import opened Tokens
  import opened ScanTable
  import opened ScanPrune
  import opened Records
  import opened Decoders
  import opened DecodeExact
  import opened Merger
  import opened MergerCorrect
  import opened MergerCanonical
  import opened MergerCases
  import opened MergerPrune

  /** Field numbers protobuf allows. */
  predicate LegalNumber(n: nat) { 0 < n < 0x2000_0000 }

  /** What a generated level guarantees. */
  ghost predicate Level(spec: ScanSpec, specs: Table) {
    && SoundArms(spec) && NoGoogleClash(spec)
    && spec.google.Values !! specs.Keys
    && (forall n <- spec.descend :: LegalNumber(n)) && (forall n <- spec.google :: LegalNumber(n))
  }

  /** The generated table, before the google specs join it, and the envelope's level. */
  ghost predicate Shipped(env: ScanSpec, specs: Table, keep: set<string>) {
    && Generated(specs) && KeepsWorthwhile(specs, keep)
    && (forall name <- specs :: Level(specs[name], specs))
    && Level(env, specs) && env.descend.Values !! GOOGLE_NAMES
  }

  /** Descents from `spec`, each naming a generated message. */
  ghost predicate Descends(spec: ScanSpec, specs: Table, path: seq<string>) {
    path != [] ==>
      && path[0] in spec.descend.Values && (forall name <- path :: name in specs)
      && forall i :: 0 <= i < |path| - 1 ==> path[i + 1] in specs[path[i]].descend.Values
  }

  ghost predicate ReachedFrom(spec: ScanSpec, specs: Table, name: string) {
    exists path :: path != [] && Descends(spec, specs, path) && path[|path| - 1] == name
  }

  /** A field of one of the four google messages the table describes. */
  ghost predicate HasGoogle(spec: ScanSpec) {
    exists n <- spec.google :: spec.google[n] in GOOGLE_NAMES
  }

  /** Some message that pruning drops has such a field, and the merger can get to it. */
  ghost predicate MissesGoogle(env: ScanSpec, specs: Table, keep: set<string>) {
    exists name :: ReachedFrom(env, specs, name) && name !in keep && HasGoogle(specs[name])
  }

  function MergedBytes(data: bytes, spec: ScanSpec, table: Table): Option<bytes> {
    var (out, _) :- MergeBytes(data, spec, table);
    Some(out)
  }

  // ---------------------------------------------------------------------------
  // Without such a message pruning is invisible
  // ---------------------------------------------------------------------------

  lemma ReachedChild(env: ScanSpec, specs: Table, name: string, n: nat)
    requires ReachedFrom(env, specs, name) && name in specs && n in specs[name].descend
    requires specs[name].descend[n] in specs
    ensures ReachedFrom(env, specs, specs[name].descend[n])
  {
    var path :| path != [] && Descends(env, specs, path) && path[|path| - 1] == name;
    var longer := path + [specs[name].descend[n]];
    assert specs[name].descend[n] in specs[name].descend.Values;
    assert Descends(env, specs, longer);
  }

  lemma ReachedFirst(env: ScanSpec, specs: Table, n: nat)
    requires n in env.descend && env.descend[n] in specs
    ensures ReachedFrom(env, specs, env.descend[n])
  {
    assert env.descend[n] in env.descend.Values;
    assert Descends(env, specs, [env.descend[n]]);
  }

  lemma ScopeIsPrunable(env: ScanSpec, specs: Table, keep: set<string>, scope: set<string>)
    requires Shipped(env, specs, keep) && !MissesGoogle(env, specs, keep)
    requires scope == (set name | name in specs && ReachedFrom(env, specs, name)) + GOOGLE_NAMES
    ensures Prunable(WithGoogle(specs), keep + GOOGLE_NAMES, scope)
    ensures Regular(env, WithGoogle(specs), keep + GOOGLE_NAMES, scope)
  {
    hide KeepsWorthwhile, ReachedFrom, SoundArms, WithGoogle, Regular, QuietGoogle, Level, HasGoogle;
    var all, kept := WithGoogle(specs), keep + GOOGLE_NAMES;
    KeepsWorthwhileWithGoogle(specs, keep);
    ShippedIsSound(env, specs, keep);
    GoogleIsSound(specs);
    forall name <- scope | name in all
      ensures Regular(all[name], all, kept, scope) && (name !in kept ==> QuietGoogle(all[name], all))
    {
      if name in GOOGLE_NAMES {
        GoogleIsRegular(specs, kept, scope, name);
      } else {
        OwnIsRegular(env, specs, keep, scope, name);
      }
    }
    forall n <- env.descend | env.descend[n] in specs ensures env.descend[n] in scope {
      ReachedFirst(env, specs, n);
    }
    LevelIsRegular(env, specs, keep, scope);
  }

  lemma OwnIsRegular(env: ScanSpec, specs: Table, keep: set<string>, scope: set<string>, name: string)
    requires Shipped(env, specs, keep) && !MissesGoogle(env, specs, keep)
    requires scope == (set name | name in specs && ReachedFrom(env, specs, name)) + GOOGLE_NAMES
    requires name in specs && ReachedFrom(env, specs, name)
    ensures var all, kept := WithGoogle(specs), keep + GOOGLE_NAMES;
      && name in all && all[name] == specs[name] && Regular(specs[name], all, kept, scope)
      && (name !in kept ==> QuietGoogle(specs[name], all))
  {
    hide KeepsWorthwhile, ReachedFrom, SoundArms, Level, Regular, HasGoogle, QuietGoogle;
    assert name !in GOOGLE_NAMES;
    assert Level(specs[name], specs);
    forall n <- specs[name].descend | specs[name].descend[n] in specs ensures specs[name].descend[n] in scope {
      ReachedChild(env, specs, name, n);
    }
    LevelIsRegular(specs[name], specs, keep, scope);
    if name !in keep { NoGoogleIsQuiet(specs[name], specs); }
  }

  lemma NoGoogleIsQuiet(spec: ScanSpec, specs: Table)
    requires Level(spec, specs) && !HasGoogle(spec)
    ensures QuietGoogle(spec, WithGoogle(specs))
  {
    GoogleOnly(spec, specs);
  }

  lemma LevelIsRegular(spec: ScanSpec, specs: Table, keep: set<string>, scope: set<string>)
    requires Level(spec, specs) && spec.descend.Values !! GOOGLE_NAMES && GOOGLE_NAMES <= scope
    requires forall n <- spec.descend :: spec.descend[n] in specs ==> spec.descend[n] in scope
    ensures Regular(spec, WithGoogle(specs), keep + GOOGLE_NAMES, scope)
  {
    hide SoundArms;
    GoogleOnly(spec, specs);
    forall n <- spec.descend ensures spec.descend[n] !in GOOGLE_NAMES {
      assert spec.descend[n] in spec.descend.Values;
    }
  }

  lemma GoogleOnly(spec: ScanSpec, specs: Table)
    requires spec.google.Values !! specs.Keys
    ensures forall n <- spec.google :: spec.google[n] in WithGoogle(specs) ==> spec.google[n] in GOOGLE_NAMES
  {
    forall n <- spec.google ensures spec.google[n] in WithGoogle(specs) ==> spec.google[n] in GOOGLE_NAMES {
      assert spec.google[n] in spec.google.Values;
    }
  }

  lemma GoogleIsRegular(specs: Table, kept: set<string>, scope: set<string>, name: string)
    requires name in GOOGLE_NAMES && GOOGLE_NAMES <= scope && GOOGLE_NAMES <= kept
    ensures Regular(WithGoogle(specs)[name], WithGoogle(specs), kept, scope)
  {
    var spec := WithGoogle(specs)[name];
    assert spec.google == map[] && forall n <- spec.descend :: spec.descend[n] in GOOGLE_NAMES;
    assert SoundArms(GOOGLE_VALUE);
  }

  /** Then the shipped, pruned table merges every decodable envelope as the whole table would. */
  lemma ShippedTableMergesAlike(data: bytes, env: ScanSpec, specs: Table, keep: set<string>)
    requires Shipped(env, specs, keep) && !MissesGoogle(env, specs, keep)
    requires |data| < TWO_32 && Decodable(data, env, WithGoogle(specs))
    ensures MergeBytes(data, env, WithGoogle(specs))
         == MergeBytes(data, PruneSpec(env, keep), WithGoogle(Prune(specs, keep)))
  {
    hide Decode, MergeBytes, Prune, WithGoogle, Decodable, Regular, Prunable, SoundArms, MissesGoogle, ReachedFrom;
    var all, kept := WithGoogle(specs), keep + GOOGLE_NAMES;
    var scope := (set name | name in specs && ReachedFrom(env, specs, name)) + GOOGLE_NAMES;
    ScopeIsPrunable(env, specs, keep, scope);
    GoogleSurvivesPruning(specs, keep);
    SpecIgnoresGoogle(env, keep);
    DecodesExactly(Merging, EMPTY, data, env, all) by { GoogleIsSound(specs); }
    PruningKeepsMerge(data, env, all, kept, scope);
  }

  // ---------------------------------------------------------------------------
  // With one, some envelope shows the difference
  // ---------------------------------------------------------------------------

  lemma {:induction false} EncodeFits(n: nat, k: nat)
    requires k > 0 && n < Pow2(7 * k)
    ensures |Encode(n)| <= k
  {
    if n >= 128 {
      Pow2Add(7, 7 * (k - 1));
      SmallPowers();
      assert Pow2(7) == 128;
      if k > 1 { EncodeFits(n / 128, k - 1); }
    }
  }

  /** Wrapping a payload in a record costs ten bytes at most. */
  lemma WrapCost(n: nat, payload: bytes)
    requires LegalNumber(n) && |payload| < TWO_32
    ensures |EncodeRecord(n, payload)| <= |payload| + 10
  {
    assert Pow2(7 * 5) >= TWO_32 by { SmallPowers(); Pow2Add(28, 7); Pow2Add(14, 14); Pow2Add(7, 7); }
    EncodeFits(n * 8 + LEN, 5);
    EncodeFits(|payload|, 5);
  }

  lemma WrappedRecord(n: nat, payload: bytes)
    requires LegalNumber(n) && |payload| < TWO_32
    ensures RecordsOf(EncodeRecord(n, payload)) == Some([Record(n, LEN, payload, EncodeRecord(n, payload))])
  {
    hide TakeRecord, EncodeRecord;
    var s := EncodeRecord(n, payload);
    EncodedRecordReadsBack(n, payload, []);
    assert s + [] == s;
    OneRecord(s, Record(n, LEN, payload, s));
  }

  /** A wrapped payload is canonical, or decodable, exactly if the payload is, or is not described. */
  lemma WrappedIs(n: nat, payload: bytes, spec: ScanSpec, table: Table)
    requires LegalNumber(n) && |payload| < TWO_32
    ensures var s, x := EncodeRecord(n, payload), Record(n, LEN, payload, EncodeRecord(n, payload));
      && (Canonical(s, spec, table) <==> CanonicalInside(x, spec, table))
      && (Decodable(s, spec, table) <==> DecodableInside(x, spec, table))
  {
    hide RecordsOf, Canonical, Decodable, EncodeRecord, CanonicalInside, DecodableInside;
    var s := EncodeRecord(n, payload);
    WrappedRecord(n, payload);
    CanonicalIs(s, spec, table);
    DecodableIs(s, spec, table);
  }

  /** A decodable payload that the two decoders read differently. */
  ghost predicate Misread(w: bytes, spec: ScanSpec, table: Table) {
    && Decodable(w, spec, table)
    && Decode(Replacing, EMPTY, w, spec, table) != Decode(Merging, EMPTY, w, spec, table)
  }

  lemma WrappedDecodes(rt: Runtime, n: nat, payload: bytes, spec: ScanSpec, table: Table)
    requires LegalNumber(n) && |payload| < TWO_32 && SoundArms(spec) && MergeChild(spec, table, n).Some?
    ensures var m := Decode(rt, EMPTY, payload, MergeChild(spec, table, n).value, table);
      Decode(rt, EMPTY, EncodeRecord(n, payload), spec, table) ==
        if m.None? then None
        else if n in spec.singular then Some(Put(EMPTY, n, Node(m.value)))
        else Some(Append(EMPTY, n, Node(m.value)))
  {
    hide TakeRecord, EncodeRecord, Decode;
    var s := EncodeRecord(n, payload);
    EncodedRecordReadsBack(n, payload, []);
    assert s + [] == s;
    DecodeOneRecord(rt, EMPTY, s, Record(n, LEN, payload, s), spec, table);
    assert ClearOthers(EMPTY, spec.arms, n) == EMPTY;
  }

  lemma WrappedIsMisread(n: nat, payload: bytes, spec: ScanSpec, table: Table)
    requires LegalNumber(n) && |payload| < TWO_32 && SoundArms(spec) && MergeChild(spec, table, n).Some?
    requires Misread(payload, MergeChild(spec, table, n).value, table)
    ensures Misread(EncodeRecord(n, payload), spec, table)
  {
    var child := MergeChild(spec, table, n).value;
    hide Decodable, EncodeRecord, Decode;
    WrappedIs(n, payload, spec, table);
    WrappedDecodes(Replacing, n, payload, spec, table);
    WrappedDecodes(Merging, n, payload, spec, table);
    var a, b := Decode(Replacing, EMPTY, payload, child, table), Decode(Merging, EMPTY, payload, child, table);
    if a.Some? && b.Some? {
      assert Put(EMPTY, n, Node(a.value)).one[n] == Node(a.value);
      assert Put(EMPTY, n, Node(b.value)).one[n] == Node(b.value);
      AppendedDiffer(n, Node(a.value), Node(b.value));
    }
  }

  lemma AppendedDiffer(n: nat, v: Value, w: Value)
    requires v != w
    ensures Append(EMPTY, n, v) != Append(EMPTY, n, w)
  {
    assert Append(EMPTY, n, v).many[n] == [v] && Append(EMPTY, n, w).many[n] == [w];
    assert [v][0] != [w][0];
  }

  /** A `google.protobuf.Value` that is null and then true. */
  const TWO_ARMS: bytes := [0x08, 0x00, 0x20, 0x01]

  lemma VarintRecord(tag: byte, v: byte, u: bytes)
    requires 8 <= tag < 128 && tag % 8 == 0 && v < 128
    ensures TakeRecord([tag, v] + u) == Some(Record(tag / 8, 0, [], [tag, v]))
  {
    var s := [tag, v] + u;
    assert s[..2] == [tag, v];
    VarintToken(s, tag, v);
    hide TakeToken;
  }

  lemma VarintToken(s: bytes, tag: byte, v: byte)
    requires 8 <= tag < 128 && tag % 8 == 0 && v < 128 && [tag, v] <= s
    ensures TakeToken(Loose, s) == Some(Token(tag / 8, 0, [], 2))
  {
    VarintSizeAt(s, 1);
    VarintSizeAt(s[1..], 1);
    assert s[..1] == [tag];
    assert Base128([tag]) == tag by { assert [tag][1..] == []; }
    hide VarintSize, Base128;
  }

  /** Both arms stay for one decoder, the last one for the other. */
  lemma TwoArmsAreMisread(table: Table)
    ensures Misread(TWO_ARMS, GOOGLE_VALUE, table) && |TWO_ARMS| == 4
  {
    var a: bytes, b: bytes := [0x08, 0x00], [0x20, 0x01];
    VarintRecord(0x08, 0x00, []);
    VarintRecord(0x20, 0x01, []);
    assert a + b == TWO_ARMS && a + [] == a && b + [] == b;
    var x, y := Record(1, 0, [], a), Record(4, 0, [], b);
    ValueArms(x, y);
    hide *;
    PairIsMisread(a, b, x, y, table);
  }

  lemma ValueArms(x: Record, y: Record)
    requires x.number == 1 && y.number == 4 && x.wireType == y.wireType == 0
    ensures IsArm(x, GOOGLE_VALUE) && IsArm(y, GOOGLE_VALUE)
    ensures !IsMessage(x, GOOGLE_VALUE) && !IsMessage(y, GOOGLE_VALUE)
  {
  }

  lemma PairIsMisread(a: bytes, b: bytes, x: Record, y: Record, table: Table)
    requires TakeRecord(a) == Some(x) && TakeRecord(b) == Some(y) && x.raw == a && y.raw == b
    requires x.number == 1 && y.number == 4 && IsArm(x, GOOGLE_VALUE) && IsArm(y, GOOGLE_VALUE)
    requires !IsMessage(x, GOOGLE_VALUE) && !IsMessage(y, GOOGLE_VALUE)
    ensures Misread(a + b, GOOGLE_VALUE, table)
  {
    hide TakeRecord, RecordsOf, Decodable, Decode, IsArm, IsMessage;
    OneRecord(a, x);
    OneRecord(b, y);
    RecordsConcat(a, b);
    assert [x] + [y] == [x, y];
    DecodableIs(a + b, GOOGLE_VALUE, table);
    TwoArmsDecode(Replacing, a, b, x, y, table);
    TwoArmsDecode(Merging, a, b, x, y, table);
  }

  lemma TwoArmsDecode(rt: Runtime, a: bytes, b: bytes, x: Record, y: Record, table: Table)
    requires TakeRecord(a) == Some(x) && TakeRecord(b) == Some(y) && x.raw == a && y.raw == b
    requires x.number == 1 && y.number == 4 && IsArm(x, GOOGLE_VALUE) && IsArm(y, GOOGLE_VALUE)
    requires !IsMessage(x, GOOGLE_VALUE) && !IsMessage(y, GOOGLE_VALUE)
    ensures var m := Decode(rt, EMPTY, a + b, GOOGLE_VALUE, table);
      m.Some? && (1 in m.value.one <==> rt == Replacing)
  {
    hide TakeRecord, Decode, IsMessage, IsArm;
    DecodeOneRecord(rt, EMPTY, a, x, GOOGLE_VALUE, table);
    var m := Step(rt, EMPTY, x, GOOGLE_VALUE, table).value;
    DecodeConcat(rt, EMPTY, a, b, GOOGLE_VALUE, table);
    DecodeOneRecord(rt, m, b, y, GOOGLE_VALUE, table);
  }

  lemma GoogleChildren(specs: Table)
    ensures var all := WithGoogle(specs);
      && MergeChild(GOOGLE_STRUCT, all, 1) == Some(GOOGLE_FIELDS_ENTRY)
      && MergeChild(GOOGLE_FIELDS_ENTRY, all, 2) == Some(GOOGLE_VALUE)
      && MergeChild(GOOGLE_LIST_VALUE, all, 1) == Some(GOOGLE_VALUE)
  {
  }

  lemma GoogleSound()
    ensures SoundArms(GOOGLE_STRUCT) && SoundArms(GOOGLE_FIELDS_ENTRY) && SoundArms(GOOGLE_LIST_VALUE)
  {
  }

  /** Every google message of the table has such a payload. */
  lemma GoogleWitness(specs: Table, name: string) returns (w: bytes)
    requires name in GOOGLE_NAMES
    ensures Misread(w, WithGoogle(specs)[name], WithGoogle(specs)) && |w| <= 24
  {
    var all := WithGoogle(specs);
    GoogleChildren(specs);
    GoogleSound();
    hide Misread, EncodeRecord, SoundArms, MergeChild;
    TwoArmsAreMisread(all);
    w := TWO_ARMS;
    if name == "google.protobuf.ListValue" {
      WrappedIsMisread(1, w, GOOGLE_LIST_VALUE, all);
      WrapCost(1, w);
      w := EncodeRecord(1, w);
    } else if name != "google.protobuf.Value" {
      WrappedIsMisread(2, w, GOOGLE_FIELDS_ENTRY, all);
      WrapCost(2, w);
      w := EncodeRecord(2, w);
      if name == "google.protobuf.Struct" {
        WrappedIsMisread(1, w, GOOGLE_STRUCT, all);
        WrapCost(1, w);
        w := EncodeRecord(1, w);
      }
    }
  }

  lemma GoogleFieldWitness(spec: ScanSpec, specs: Table) returns (data: bytes)
    requires HasGoogle(spec) && Level(spec, specs)
    ensures Misread(data, spec, WithGoogle(specs)) && |data| <= 34
  {
    hide Misread, EncodeRecord;
    var all := WithGoogle(specs);
    var g :| g in spec.google && spec.google[g] in GOOGLE_NAMES;
    var w := GoogleWitness(specs, spec.google[g]);
    assert MergeChild(spec, all, g) == Some(all[spec.google[g]]);
    WrappedIsMisread(g, w, spec, all);
    WrapCost(g, w);
    data := EncodeRecord(g, w);
  }

  /** One record per descent around such a payload: read differently, and left alone by the pruned table. */
  lemma {:induction false} NestedWitness(
    spec: ScanSpec, specs: Table, keep: set<string>, path: seq<string>) returns (data: bytes)
    requires Generated(specs) && (forall name <- specs :: Level(specs[name], specs)) && Level(spec, specs)
    requires path != [] && Descends(spec, specs, path) && |path| <= 0x1000_0000
    requires path[|path| - 1] !in keep && HasGoogle(specs[path[|path| - 1]])
    ensures Misread(data, spec, WithGoogle(specs)) && |data| <= 10 * |path| + 34
    ensures Canonical(data, PruneSpec(spec, keep), WithGoogle(Prune(specs, keep)))
    ensures exists x :: RecordsOf(data) == Some([x])
    decreases |path|
  {
    hide Misread, EncodeRecord, Canonical, Decodable, HasGoogle, WithGoogle, Prune, PruneSpec, MergeChild, RecordsOf;
    var all := WithGoogle(specs);
    var n := FirstDescent(spec, specs, path);
    var child := specs[path[0]];
    var inner: bytes;
    if |path| == 1 {
      inner := GoogleFieldWitness(child, specs);
    } else {
      RestDescends(spec, specs, path);
      inner := NestedWitness(child, specs, keep, path[1..]);
    }
    WrappedIsMisread(n, inner, spec, all);
    WrapCost(n, inner);
    data := EncodeRecord(n, inner);
    WrappedRecord(n, inner);
    PrunedChild(spec, specs, keep, n);
    WrappedIs(n, inner, PruneSpec(spec, keep), WithGoogle(Prune(specs, keep)));
  }

  lemma FirstDescent(spec: ScanSpec, specs: Table, path: seq<string>) returns (n: nat)
    requires Generated(specs) && path != [] && Descends(spec, specs, path)
    ensures n in spec.descend && spec.descend[n] == path[0] && path[0] in specs
    ensures MergeChild(spec, WithGoogle(specs), n) == Some(specs[path[0]])
  {
    n :| n in spec.descend && spec.descend[n] == path[0];
    assert path[0] in path && path[0] !in GOOGLE_NAMES;
  }

  lemma RestDescends(spec: ScanSpec, specs: Table, path: seq<string>)
    requires |path| > 1 && Descends(spec, specs, path)
    ensures path[0] in specs && Descends(specs[path[0]], specs, path[1..])
    ensures path[1..][|path| - 2] == path[|path| - 1]
  {
    assert path[0] in path;
  }

  lemma PrunedChild(spec: ScanSpec, specs: Table, keep: set<string>, n: nat)
    requires Generated(specs) && NoGoogleClash(spec) && n in spec.descend && spec.descend[n] in specs
    ensures MergeChild(PruneSpec(spec, keep), WithGoogle(Prune(specs, keep)), n)
         == if spec.descend[n] in keep then Some(PruneSpec(specs[spec.descend[n]], keep)) else None
  {
  }

  // ---------------------------------------------------------------------------
  // Short paths
  // ---------------------------------------------------------------------------

  ghost predicate NoRepeat(path: seq<string>) { forall i, j :: 0 <= i < j < |path| ==> path[i] != path[j] }

  /** A path can leave out its detours. */
  lemma {:induction false} Straighten(spec: ScanSpec, specs: Table, path: seq<string>) returns (short: seq<string>)
    requires path != [] && Descends(spec, specs, path)
    ensures short != [] && Descends(spec, specs, short) && short[|short| - 1] == path[|path| - 1] && NoRepeat(short)
    decreases |path|
  {
    short := path;
    if !NoRepeat(path) {
      var i, j :| 0 <= i < j < |path| && path[i] == path[j];
      var cut := path[..i] + path[j..];
      forall k | 0 <= k < |cut| - 1 ensures cut[k + 1] in specs[cut[k]].descend.Values {
        if k < i - 1 {
          assert cut[k] == path[k] && cut[k + 1] == path[k + 1];
        } else if k == i - 1 {
          assert cut[k] == path[k] && cut[k + 1] == path[j] == path[k + 1];
        } else {
          assert cut[k] == path[k - i + j] && cut[k + 1] == path[k - i + j + 1];
        }
      }
      assert forall name <- cut :: name in path;
      assert cut[0] == path[0] && cut[|cut| - 1] == path[|path| - 1];
      short := Straighten(spec, specs, cut);
    }
  }

  lemma {:induction false} NoRepeatFits(path: seq<string>, names: set<string>)
    requires NoRepeat(path) && forall name <- path :: name in names
    ensures |path| <= |names|
  {
    if path != [] {
      var k := |path| - 1;
      assert path[k] in path;
      assert forall name <- path[..k] :: name in path && name != path[k];
      NoRepeatFits(path[..k], names - {path[k]});
    }
  }

  // ---------------------------------------------------------------------------
  // Exactly
  // ---------------------------------------------------------------------------

  lemma MissedEnvelope(env: ScanSpec, specs: Table, keep: set<string>) returns (data: bytes)
    requires Shipped(env, specs, keep) && |specs| <= 0x1000_0000 && MissesGoogle(env, specs, keep)
    ensures |data| < TWO_32 && Misread(data, env, WithGoogle(specs)) && (exists x :: RecordsOf(data) == Some([x]))
    ensures MergedBytes(data, PruneSpec(env, keep), WithGoogle(Prune(specs, keep))) == Some(data)
  {
    hide WithGoogle, Prune, PruneSpec, Canonical, Decodable, MergeBytes, Misread, KeepsWorthwhile, Generated, Level;
    var short := ShortPath(env, specs, keep);
    data := NestedWitness(env, specs, keep, short);
    ShippedIsSound(env, specs, keep);
    PrunedIsSound(env, specs, keep);
    CanonicalIsReused(data, PruneSpec(env, keep), WithGoogle(Prune(specs, keep)));
  }

  /** What is read differently is changed by a merge that looks. */
  lemma MisreadIsChanged(data: bytes, env: ScanSpec, table: Table)
    requires SoundArms(env) && SoundTable(table) && |data| < TWO_32 && Misread(data, env, table)
    ensures MergedBytes(data, env, table) != Some(data)
  {
    hide Decodable, MergeBytes, SoundTable, SoundArms, Decode;
    MergeAgreesExactly(data, env, table);
  }

  lemma ShippedIsSound(env: ScanSpec, specs: Table, keep: set<string>)
    requires Shipped(env, specs, keep)
    ensures SoundArms(env) && SoundTable(specs)
  {
    assert forall name <- specs :: Level(specs[name], specs);
  }

  lemma ShortPath(env: ScanSpec, specs: Table, keep: set<string>) returns (short: seq<string>)
    requires MissesGoogle(env, specs, keep)
    ensures short != [] && Descends(env, specs, short) && |short| <= |specs|
    ensures short[|short| - 1] in specs && short[|short| - 1] !in keep && HasGoogle(specs[short[|short| - 1]])
  {
    hide HasGoogle;
    var name :| ReachedFrom(env, specs, name) && name !in keep && HasGoogle(specs[name]);
    var path :| path != [] && Descends(env, specs, path) && path[|path| - 1] == name;
    short := Straighten(env, specs, path);
    assert short[|short| - 1] in short;
    NoRepeatFits(short, specs.Keys);
    assert |specs.Keys| == |specs|;
  }

  lemma PrunedIsSound(env: ScanSpec, specs: Table, keep: set<string>)
    requires SoundArms(env) && SoundTable(specs)
    ensures SoundArms(PruneSpec(env, keep)) && SoundTable(WithGoogle(Prune(specs, keep)))
  {
    assert SoundTable(Prune(specs, keep));
    GoogleIsSound(Prune(specs, keep));
  }

  /**
    The shipped table merges every decodable envelope as the whole one would, exactly when no
    message that pruning drops and the envelope leads to has a google field the table describes.
   */
  lemma PruningIsInvisibleExactly(env: ScanSpec, specs: Table, keep: set<string>)
    requires Shipped(env, specs, keep) && |specs| <= 0x1000_0000
    ensures !MissesGoogle(env, specs, keep) <==>
      forall data: bytes :: |data| < TWO_32 && Decodable(data, env, WithGoogle(specs)) ==>
        MergedBytes(data, env, WithGoogle(specs))
        == MergedBytes(data, PruneSpec(env, keep), WithGoogle(Prune(specs, keep)))
  {
    hide WithGoogle, Prune, PruneSpec, Decodable, MergeBytes, Shipped, MissesGoogle;
    if MissesGoogle(env, specs, keep) {
      var data := MissedEnvelope(env, specs, keep);
      ShippedIsSound(env, specs, keep);
      GoogleIsSound(specs);
      MisreadIsChanged(data, env, WithGoogle(specs));
    } else {
      forall data: bytes | |data| < TWO_32 && Decodable(data, env, WithGoogle(specs))
        ensures MergedBytes(data, env, WithGoogle(specs))
             == MergedBytes(data, PruneSpec(env, keep), WithGoogle(Prune(specs, keep)))
      {
        ShippedTableMergesAlike(data, env, specs, keep);
      }
    }
  }
}
