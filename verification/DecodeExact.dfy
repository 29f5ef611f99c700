/** Which bytes decode: a condition on the record structure alone. */
module DecodeExact {
  import opened Options
  import opened Varint
  import opened Tokens
  import opened ScanTable
  import opened Records
  import opened Decoders

  // ---------------------------------------------------------------------------
  // Records are tokens whose groups match
  // ---------------------------------------------------------------------------

  /** Splits into tokens that close the groups `open`, innermost last, and all their own. */
  predicate Closes(s: bytes, open: seq<nat>) {
    TokensOf(Loose, s).Some? && Matched(open, TokensOf(Loose, s).value)
  }

  lemma ClosesDone(s: bytes, open: seq<nat>)
    requires s == []
    ensures Closes(s, open) <==> open == []
  {
  }

  lemma ClosesUnfold(s: bytes, open: seq<nat>)
    requires s != []
    ensures TakeToken(Loose, s).None? ==> !Closes(s, open)
    ensures TakeToken(Loose, s).Some? ==>
      var t := TakeToken(Loose, s).value;
      var rest := s[t.size..];
      Closes(s, open) ==
        (if t.wireType == START_GROUP then Closes(rest, open + [t.field])
         else if t.wireType == END_GROUP then
           open != [] && open[|open| - 1] == t.field && Closes(rest, open[..|open| - 1])
         else Closes(rest, open))
  {
    hide TakeToken, Matched;
    if TakeToken(Loose, s).Some? {
      var t := TakeToken(Loose, s).value;
      TokensCons(Loose, s, t);
      if TokensOf(Loose, s[t.size..]).Some? { MatchedCons(open, t, TokensOf(Loose, s[t.size..]).value); }
    }
  }

  /** Closing one more group is reading to its end and closing the rest behind it. */
  lemma {:induction false} GroupCloses(s: bytes, open: seq<nat>, field: nat)
    ensures Closes(s, open + [field]) <==> GroupSize(s, field) > 0 && Closes(s[GroupSize(s, field)..], open)
    decreases |s|
  {
    hide Closes, TakeToken, GroupSize;
    var inside := open + [field];
    assert inside[..|inside| - 1] == open;
    if s == [] {
      ClosesDone(s, inside);
      NoGroup(s, field);
    } else {
      ClosesUnfold(s, inside);
      if TakeToken(Loose, s).None? {
        NoGroup(s, field);
      } else {
        var t := TakeToken(Loose, s).value;
        GroupUnfold(s, field, t);
        var rest := s[t.size..];
        if t.wireType == START_GROUP {
          GroupCloses(rest, inside, t.field);
          var inner := GroupSize(rest, t.field);
          if inner > 0 {
            assert rest[inner..] == s[t.size + inner..];
            GroupCloses(rest[inner..], open, field);
            Cut(s, t.size + inner, GroupSize(rest[inner..], field));
          }
        } else if t.wireType != END_GROUP {
          GroupCloses(rest, open, field);
          Cut(s, t.size, GroupSize(rest, field));
        }
      }
    }
  }

  lemma Cut(s: bytes, i: nat, j: nat)
    requires i + j <= |s|
    ensures s[i..][j..] == s[i + j..]
  {
  }

  lemma NoGroup(s: bytes, field: nat)
    requires TakeToken(Loose, s).None?
    ensures GroupSize(s, field) == 0
  {
  }

  /** The bytes split into records exactly when they split into tokens whose groups end as they began. */
  lemma {:induction false} RecordsExactly(s: bytes)
    ensures RecordsOf(s).Some? <==> Closes(s, [])
    decreases |s|
  {
    hide Closes, TakeToken, GroupSize, RecordsOf;
    if s == [] {
      RecordsNil(s);
      ClosesDone(s, []);
    } else {
      ClosesUnfold(s, []);
      RecordsUnfold(s);
      if TakeToken(Loose, s).Some? {
        var t := TakeToken(Loose, s).value;
        var k := RecordSize(s, t);
        if t.wireType == START_GROUP {
          GroupCloses(s[t.size..], [], t.field);
          assert [] + [t.field] == [t.field];
          Cut(s, t.size, GroupSize(s[t.size..], t.field));
        }
        if k > 0 { RecordsExactly(s[k..]); }
      }
    }
  }

  lemma RecordsUnfold(s: bytes)
    requires s != []
    ensures TakeRecord(s).None? ==> RecordsOf(s).None?
    ensures TakeRecord(s).Some? ==>
      RecordsOf(s).Some? == RecordsOf(s[|TakeRecord(s).value.raw|..]).Some?
      && (RecordsOf(s).Some? ==>
            RecordsOf(s).value == [TakeRecord(s).value] + RecordsOf(s[|TakeRecord(s).value.raw|..]).value)
  {
    hide TakeRecord;
  }

  // ---------------------------------------------------------------------------
  // What decodes
  // ---------------------------------------------------------------------------

  /** Splits into records, and so does every payload the table describes, level by level. */
  ghost predicate Decodable(data: bytes, spec: ScanSpec, table: Table)
    decreases |data|
  {
    match RecordsOf(data)
    case None => false
    case Some(xs) =>
      forall i :: 0 <= i < |xs| && IsMessage(xs[i], spec) ==>
        match MergeChild(spec, table, xs[i].number)
        case None => true
        case Some(child) => assert xs[i] in xs; Decodable(xs[i].payload, child, table)
  }

  /** One record's payload is decodable, if the table describes it. */
  ghost predicate DecodableInside(x: Record, spec: ScanSpec, table: Table) {
    IsMessage(x, spec) && MergeChild(spec, table, x.number).Some? ==>
      Decodable(x.payload, MergeChild(spec, table, x.number).value, table)
  }

  lemma DecodableIs(data: bytes, spec: ScanSpec, table: Table)
    ensures Decodable(data, spec, table) <==>
      RecordsOf(data).Some? && forall x <- RecordsOf(data).value :: DecodableInside(x, spec, table)
  {
    if RecordsOf(data).Some? {
      var xs := RecordsOf(data).value;
      if Decodable(data, spec, table) {
        forall x <- xs ensures DecodableInside(x, spec, table) {
          var i :| 0 <= i < |xs| && xs[i] == x;
        }
      } else {
        assert forall i :: 0 <= i < |xs| ==> xs[i] in xs;
      }
    }
  }

  lemma DecodableCons(s: bytes, spec: ScanSpec, table: Table)
    requires s != []
    ensures Decodable(s, spec, table) <==>
      && TakeRecord(s).Some? && DecodableInside(TakeRecord(s).value, spec, table)
      && Decodable(s[|TakeRecord(s).value.raw|..], spec, table)
  {
    hide TakeRecord, Decodable, DecodableInside, RecordsOf;
    DecodableIs(s, spec, table);
    RecordsUnfold(s);
    if TakeRecord(s).Some? {
      var x := TakeRecord(s).value;
      DecodableIs(s[|x.raw|..], spec, table);
      if RecordsOf(s).Some? {
        assert RecordsOf(s).value == [x] + RecordsOf(s[|x.raw|..]).value;
      }
    }
  }

  /** Decoding succeeds exactly on decodable bytes, by either decoder, whatever it decodes into. */
  lemma {:induction false} DecodesExactly(rt: Runtime, m: Message, s: bytes, spec: ScanSpec, table: Table)
    requires SoundArms(spec) && SoundTable(table)
    ensures Decode(rt, m, s, spec, table).Some? <==> Decodable(s, spec, table)
    decreases |s|, 1
  {
    hide TakeRecord, Step, Decode, Decodable, DecodableInside, SoundArms, SoundTable;
    if s == [] {
      DecodeNil(rt, m, s, spec, table);
      DecodableIs(s, spec, table);
      RecordsNil(s);
    } else {
      DecodableCons(s, spec, table);
      if TakeRecord(s).Some? {
        var r := TakeRecord(s).value;
        DecodeCons(rt, m, s, r, spec, table);
        StepsExactly(rt, m, r, spec, table);
        if Step(rt, m, r, spec, table).Some? {
          DecodesExactly(rt, Step(rt, m, r, spec, table).value, s[|r.raw|..], spec, table);
        }
      } else {
        NoRecordNoDecode(rt, m, s, spec, table);
      }
    }
  }

  lemma NoRecordNoDecode(rt: Runtime, m: Message, s: bytes, spec: ScanSpec, table: Table)
    requires s != [] && TakeRecord(s).None?
    ensures Decode(rt, m, s, spec, table).None?
  {
  }

  lemma {:induction false} StepsExactly(rt: Runtime, m: Message, r: Record, spec: ScanSpec, table: Table)
    requires SoundArms(spec) && SoundTable(table)
    ensures Step(rt, m, r, spec, table).Some? <==> DecodableInside(r, spec, table)
    decreases |r.payload|, 2
  {
    hide Decode, Decodable, SoundTable;
    SoundChild(spec, table, r.number);
    var child := MergeChild(spec, table, r.number);
    if IsMessage(r, spec) && child.Some? {
      var n := r.number;
      var m' := if rt == Merging && IsArm(r, spec) then ClearOthers(m, spec.arms, n) else m;
      var base := if rt == Merging && n in m'.one && m'.one[n].Node? then m'.one[n].msg else EMPTY;
      DecodesExactly(rt, base, r.payload, child.value, table);
      DecodesExactly(rt, EMPTY, r.payload, child.value, table);
    }
  }
}
