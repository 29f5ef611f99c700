/** What the binary reader reads with the tables it ships, which leave out what pruning drops. */
module ShippedTables {
  import opened Options
  import opened Varint
  import opened ScanTable
  import opened ScanGraph
  import opened ScanPrune
  import opened Guard
  import opened GuardGap
  import opened Records
  import opened Decoders
  import opened DecodeExact
  import opened Merger
  import opened MergerCanonical
  import opened MergerCases
  import opened MergerPrune
  import opened MergerPruneExact

  /** Merge with the shipped tables, then decode as ts-proto does, which knows the whole schema. */
  function ShippedReading(data: bytes, env: ScanSpec, specs: Table, keep: set<string>): Option<Message> {
    var merged :- MergedBytes(data, PruneSpec(env, keep), WithGoogle(Prune(specs, keep)));
    Decode(Replacing, EMPTY, merged, env, WithGoogle(specs))
  }

  /** What a standard protobuf decoder reads: messages merge, and the last event wins. */
  function StandardReading(data: bytes, tags: set<nat>, scan: map<nat, string>, specs: Table): Option<Message> {
    Decode(Merging, EMPTY, data, EnvelopeOneof(tags, scan), WithGoogle(specs))
  }

  /** If pruning misses no google field, one-event envelopes read alike. */
  lemma ShippedReadsRight(data: bytes, tags: set<nat>, scan: map<nat, string>, specs: Table, keep: set<string>)
    requires Shipped(EnvelopeSpec(tags, scan), specs, keep) && !MissesGoogle(EnvelopeSpec(tags, scan), specs, keep)
    requires scan.Keys <= tags && |data| < TWO_32
    requires Decodable(data, EnvelopeSpec(tags, scan), WithGoogle(specs)) && OneEvent(data, tags)
    ensures ShippedReading(data, EnvelopeSpec(tags, scan), specs, keep) == StandardReading(data, tags, scan, specs)
  {
    hide WithGoogle, Prune, PruneSpec, Decodable, MergeBytes, Shipped, MissesGoogle, Decode, OneEvent, SoundTable;
    ShippedIsSound(EnvelopeSpec(tags, scan), specs, keep);
    EnvelopeDecodesAsMerged(data, tags, scan, specs);
    ShippedTableMergesAlike(data, EnvelopeSpec(tags, scan), specs, keep);
  }

  /** If it misses one, some one-event envelope does not. */
  lemma ShippedMisreads(tags: set<nat>, scan: map<nat, string>, specs: Table, keep: set<string>)
    returns (data: bytes)
    requires Shipped(EnvelopeSpec(tags, scan), specs, keep) && MissesGoogle(EnvelopeSpec(tags, scan), specs, keep)
    requires scan.Keys <= tags && |specs| <= 0x1000_0000
    ensures |data| < TWO_32 && Decodable(data, EnvelopeSpec(tags, scan), WithGoogle(specs)) && OneEvent(data, tags)
    ensures ShippedReading(data, EnvelopeSpec(tags, scan), specs, keep) != StandardReading(data, tags, scan, specs)
  {
    hide WithGoogle, Prune, PruneSpec, Decodable, MergeBytes, Shipped, MissesGoogle, Decode, SoundTable, RecordsOf;
    hide Misread, OneEvent, MergedBytes, ShippedReading, StandardReading;
    data := MissedEnvelope(EnvelopeSpec(tags, scan), specs, keep);
    ShippedIsSound(EnvelopeSpec(tags, scan), specs, keep);
    MisreadIsMisread(data, tags, scan, specs, keep);
  }

  /**
    The binary reader reads every decodable one-event envelope as a standard decoder does,
    exactly when no message that pruning drops and the envelope leads to has a google field
    the table describes.
   */
  lemma ShippedReadsRightExactly(tags: set<nat>, scan: map<nat, string>, specs: Table, keep: set<string>)
    requires Shipped(EnvelopeSpec(tags, scan), specs, keep) && scan.Keys <= tags && |specs| <= 0x1000_0000
    ensures !MissesGoogle(EnvelopeSpec(tags, scan), specs, keep) <==>
      forall data: bytes ::
        |data| < TWO_32 && Decodable(data, EnvelopeSpec(tags, scan), WithGoogle(specs)) && OneEvent(data, tags) ==>
          ShippedReading(data, EnvelopeSpec(tags, scan), specs, keep) == StandardReading(data, tags, scan, specs)
  {
    hide WithGoogle, Decodable, Shipped, MissesGoogle, OneEvent, ShippedReading, StandardReading, EnvelopeSpec;
    if MissesGoogle(EnvelopeSpec(tags, scan), specs, keep) {
      var data := ShippedMisreads(tags, scan, specs, keep);
    } else {
      forall data: bytes |
        |data| < TWO_32 && Decodable(data, EnvelopeSpec(tags, scan), WithGoogle(specs)) && OneEvent(data, tags)
        ensures ShippedReading(data, EnvelopeSpec(tags, scan), specs, keep) == StandardReading(data, tags, scan, specs)
      {
        ShippedReadsRight(data, tags, scan, specs, keep);
      }
    }
  }

  /** The whole of `decode`'s front: the shipped guard accepts, then the shipped merge is read right. */
  lemma GuardedEnvelopeDecodes(data: bytes, tags: set<nat>, scan: map<nat, string>, specs: Table, keep: set<string>)
    requires Shipped(EnvelopeSpec(tags, scan), specs, keep) && !MissesGoogle(EnvelopeSpec(tags, scan), specs, keep)
    requires scan.Keys <= tags && |data| < TWO_32
    requires EnvelopeFrom(data, 0, 0, PruneSpec(EnvelopeSpec(tags, scan), keep), WithGoogle(Prune(specs, keep)))
    requires Decodable(data, EnvelopeSpec(tags, scan), WithGoogle(specs))
    ensures ShippedReading(data, EnvelopeSpec(tags, scan), specs, keep) == StandardReading(data, tags, scan, specs)
  {
    hide WithGoogle, Prune, Decodable, MergeBytes, Shipped, MissesGoogle, Decode, OneEvent, EnvelopeFrom, Unchecked;
    EnvelopeLeavesOpen(data, PruneSpec(EnvelopeSpec(tags, scan), keep), WithGoogle(Prune(specs, keep)));
    ShippedReadsRight(data, tags, scan, specs, keep);
  }

  // ---------------------------------------------------------------------------
  // A schema for which it fails
  // ---------------------------------------------------------------------------

  /** A message whose only field is a repeated `google.protobuf.Value` checks nothing, so it is dropped. */
  const BAG: ScanSpec := ScanSpec({}, map[], map[1 := "google.protobuf.Value"], {}, map[])

  /** An envelope whose one event is such a bag, holding a value that is null and then true. */
  const BAG_EVENT: bytes := [0x0A, 0x06, 0x0A, 0x04, 0x08, 0x00, 0x20, 0x01]

  /** So the binary reader sees both arms of a value of which protobuf keeps the last. */
  lemma BagOfValuesIsMisread()
    ensures var specs, env := map["Bag" := BAG], EnvelopeSpec({1}, map[1 := "Bag"]);
      && KeepsWorthwhile(specs, {})
      && Decodable(BAG_EVENT, env, WithGoogle(specs)) && OneEvent(BAG_EVENT, {1})
      && MergedBytes(BAG_EVENT, PruneSpec(env, {}), WithGoogle(Prune(specs, {}))) == Some(BAG_EVENT)
      && ShippedReading(BAG_EVENT, env, specs, {}) != StandardReading(BAG_EVENT, {1}, map[1 := "Bag"], specs)
  {
    var specs, scan := map["Bag" := BAG], map[1 := "Bag"];
    var env := EnvelopeSpec({1}, scan);
    BagChecksNothing(specs);
    BagEventIs();
    BagIsMisread(specs, env);
    BagIsLeft(specs, env);
    BagIsSound(specs, env);
    hide *;
    WrappedRecord(1, EncodeRecord(1, TWO_ARMS));
    MisreadIsMisread(BAG_EVENT, {1}, scan, specs, {});
  }

  /** A misread one-record envelope that the shipped merge leaves alone is read wrongly. */
  lemma MisreadIsMisread(data: bytes, tags: set<nat>, scan: map<nat, string>, specs: Table, keep: set<string>)
    requires scan.Keys <= tags && SoundTable(specs) && SoundArms(EnvelopeSpec(tags, scan))
    requires Misread(data, EnvelopeSpec(tags, scan), WithGoogle(specs)) && exists x :: RecordsOf(data) == Some([x])
    requires MergedBytes(data, PruneSpec(EnvelopeSpec(tags, scan), keep), WithGoogle(Prune(specs, keep))) == Some(data)
    ensures Decodable(data, EnvelopeSpec(tags, scan), WithGoogle(specs)) && OneEvent(data, tags)
    ensures ShippedReading(data, EnvelopeSpec(tags, scan), specs, keep) != StandardReading(data, tags, scan, specs)
  {
    hide WithGoogle, Prune, PruneSpec, Decodable, MergeBytes, Decode, SoundTable, SoundArms, RecordsOf;
    GoogleIsSound(specs);
    DecodesExactly(Merging, EMPTY, data, EnvelopeSpec(tags, scan), WithGoogle(specs));
    OneofMattersExactly(data, tags, scan, WithGoogle(specs));
  }

  lemma BagIsSound(specs: Table, env: ScanSpec)
    requires specs == map["Bag" := BAG] && env == EnvelopeSpec({1}, map[1 := "Bag"])
    ensures SoundTable(specs) && SoundArms(env) && env.descend.Keys <= env.singular && LegalNumber(1)
    ensures (map[1 := "Bag"]).Keys <= {1}
  {
  }

  lemma BagChecksNothing(specs: Table)
    requires specs == map["Bag" := BAG]
    ensures KeepsWorthwhile(specs, {})
  {
  }

  lemma BagEventIs()
    ensures BAG_EVENT == EncodeRecord(1, EncodeRecord(1, TWO_ARMS)) && |EncodeRecord(1, TWO_ARMS)| == 6
  {
    hide EncodeRecord;
    ShortEncode(0x0A, 0x04, TWO_ARMS);
    ShortEncode(0x0A, 0x06, [0x0A, 0x04] + TWO_ARMS);
  }

  lemma BagIsMisread(specs: Table, env: ScanSpec)
    requires specs == map["Bag" := BAG] && env == EnvelopeSpec({1}, map[1 := "Bag"])
    ensures Misread(EncodeRecord(1, EncodeRecord(1, TWO_ARMS)), env, WithGoogle(specs))
  {
    var all := WithGoogle(specs);
    assert MergeChild(BAG, all, 1) == Some(GOOGLE_VALUE) && MergeChild(env, all, 1) == Some(BAG);
    BagEventIs();
    hide Misread, EncodeRecord, WithGoogle, MergeChild;
    TwoArmsAreMisread(all);
    WrappedIsMisread(1, TWO_ARMS, BAG, all);
    WrappedIsMisread(1, EncodeRecord(1, TWO_ARMS), env, all);
  }

  lemma BagIsLeft(specs: Table, env: ScanSpec)
    requires specs == map["Bag" := BAG] && env == EnvelopeSpec({1}, map[1 := "Bag"])
    ensures var data := EncodeRecord(1, EncodeRecord(1, TWO_ARMS));
      MergedBytes(data, PruneSpec(env, {}), WithGoogle(Prune(specs, {}))) == Some(data)
  {
    var small := WithGoogle(Prune(specs, {}));
    assert MergeChild(PruneSpec(env, {}), small, 1) == None;
    BagEventIs();
    GoogleIsSound(Prune(specs, {}));
    hide EncodeRecord, WithGoogle, MergeChild, Canonical, MergeBytes, SoundTable;
    var data := EncodeRecord(1, EncodeRecord(1, TWO_ARMS));
    WrappedIs(1, EncodeRecord(1, TWO_ARMS), PruneSpec(env, {}), small);
    CanonicalIsReused(data, PruneSpec(env, {}), small);
  }

  // ---------------------------------------------------------------------------
  // The tables the generator builds
  // ---------------------------------------------------------------------------

  /** Numbers protobuf allows, and no message of the schema's own is a google one. */
  ghost predicate OwnMessages(byName: Messages) {
    forall name <- byName ::
      !IsGoogle(name) && WellNumbered(byName[name]) && forall f <- AllFields(byName[name]) :: LegalNumber(f.number)
  }

  lemma SpecIsLevel(name: string, byName: Messages, specs: Table)
    requires OwnMessages(byName) && name in byName && specs.Keys <= byName.Keys
    ensures Level(SpecOf(byName[name], byName), specs)
  {
    var m := byName[name];
    var spec, fields := SpecOf(m, byName), AllFields(m);
    SpecIsSound(m, byName);
    hide SoundArms, IsGoogle, WellNumbered;
    forall n <- spec.descend ensures n !in spec.google {
      if n in spec.google {
        var f :| f in fields && f.number == n && f.typeName in byName;
        var g :| g in fields && g.number == n && IsGoogle(g.typeName);
        OneFieldPerNumber(m, f, g);
      }
    }
    forall t <- spec.google.Values ensures t !in specs {
      var n :| n in spec.google && spec.google[n] == t;
    }
  }

  lemma GoogleNamesAreGoogle()
    ensures forall name <- GOOGLE_NAMES :: IsGoogle(name)
  {
  }

  lemma DescentsAreOwn(name: string, byName: Messages)
    requires OwnMessages(byName) && name in byName
    ensures SpecOf(byName[name], byName).descend.Values !! GOOGLE_NAMES
  {
    GoogleNamesAreGoogle();
    hide IsGoogle;
    var spec := SpecOf(byName[name], byName);
    forall t <- spec.descend.Values ensures t in byName {
      var n :| n in spec.descend && spec.descend[n] == t;
    }
  }

  /** The table the walk returns, with what the sweep keeps of it, meets every hypothesis above. */
  lemma WalkIsShipped(tags: set<nat>, scan: map<nat, string>, byName: Messages, specs: Table, keep: set<string>)
    requires OwnMessages(byName) && Faithful(specs, byName) && KeepsWorthwhile(specs, keep)
    requires (forall n <- scan :: scan[n] in byName && LegalNumber(n)) && scan.Keys <= tags
    ensures Shipped(EnvelopeSpec(tags, scan), specs, keep)
  {
    hide KeepsWorthwhile, SpecOf, FitsMask, WellNumbered, IsGoogle;
    GoogleNamesAreGoogle();
    var env := EnvelopeSpec(tags, scan);
    forall name <- specs ensures Level(specs[name], specs) && specs[name].descend.Values !! GOOGLE_NAMES {
      SpecIsLevel(name, byName, specs);
      DescentsAreOwn(name, byName);
    }
    forall t <- env.descend.Values ensures t !in GOOGLE_NAMES {
      var n :| n in env.descend && env.descend[n] == t;
    }
  }
}
