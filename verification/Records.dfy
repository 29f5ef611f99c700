/** Whole records as the merger's reader sees them: a group, with everything in it, is one record. */
module Records {
  import opened Options
  import opened Varint
  import opened Tokens

  /** `payload` is empty unless the record is length-delimited; `raw` is all of its bytes. */
  datatype Record = Record(number: nat, wireType: nat, payload: bytes, raw: bytes)

  /** The bytes up to and including the end tag of group `field`, nested groups stepped over; 0 if malformed. */
  function GroupSize(s: bytes, field: nat): (k: nat)
    ensures k <= |s|
    decreases |s|
  {
    match TakeToken(Loose, s)
    case None => 0
    case Some(t) =>
      if t.wireType == END_GROUP then if t.field == field then t.size else 0
      else
        var inner := if t.wireType == START_GROUP then GroupSize(s[t.size..], t.field) else 0;
        if t.wireType == START_GROUP && inner == 0 then 0
        else
          var after := GroupSize(s[t.size + inner..], field);
          if after == 0 then 0 else t.size + inner + after
  }

  /** The size of the record a token begins; 0 if it begins none. */
  function RecordSize(s: bytes, t: Token): (k: nat)
    requires 0 < t.size <= |s|
    ensures k <= |s|
    ensures k > 0 ==> k >= t.size
  {
    if t.wireType == END_GROUP then 0
    else if t.wireType == START_GROUP then
      var g := GroupSize(s[t.size..], t.field);
      if g == 0 then 0 else t.size + g
    else t.size
  }

  function TakeRecord(s: bytes): (r: Option<Record>)
    ensures r.Some? ==> 0 < |r.value.raw| <= |s| && r.value.raw == s[..|r.value.raw|]
    ensures r.Some? ==> |r.value.payload| < |r.value.raw| && r.value.number > 0
    ensures r.Some? && r.value.wireType != LEN ==> r.value.payload == []
  {
    var t :- TakeToken(Loose, s);
    var k := RecordSize(s, t);
    if k == 0 then None else Some(Record(t.field, t.wireType, t.payload, s[..k]))
  }

  function RecordsOf(s: bytes): (r: Option<seq<Record>>)
    ensures r.Some? ==> forall x <- r.value :: |x.payload| < |s|
    decreases |s|
  {
    if s == [] then Some([])
    else
      var x :- TakeRecord(s);
      var xs :- RecordsOf(s[|x.raw|..]);
      Some([x] + xs)
  }

  // ---------------------------------------------------------------------------
  // A record is read from its own bytes
  // ---------------------------------------------------------------------------

  lemma VarintOwn(s: bytes, k: nat)
    requires 0 < VarintSize(s) <= k <= |s|
    ensures VarintSize(s[..k]) == VarintSize(s)
    ensures Low32(s[..k]) == Low32(s)
  {
    var n := VarintSize(s);
    VarintSizeAt(s[..k], n);
    assert s[..k][..n] == s[..n];
  }

  lemma BodyOwn(s: bytes, k: nat, tag: nat, n: nat)
    requires k > 0
    requires TakeBody(Loose, s, k, tag).Some?
    requires TakeBody(Loose, s, k, tag).value.size - k <= n <= |s|
    ensures TakeBody(Loose, s[..n], k, tag) == TakeBody(Loose, s, k, tag)
  {
    hide VarintSize, Low32;
    if tag % 8 == 0 || tag % 8 == LEN {
      VarintOwn(s, n);
      if tag % 8 == LEN {
        var j, m := VarintSize(s), Low32(s);
        assert s[..n][j..j + m] == s[j..j + m];
      }
    }
  }

  lemma TokenOwn(s: bytes, n: nat)
    requires TakeToken(Loose, s).Some?
    requires TakeToken(Loose, s).value.size <= n <= |s|
    ensures TakeToken(Loose, s[..n]) == TakeToken(Loose, s)
  {
    hide VarintSize, Low32, TakeBody;
    var k := VarintSize(s);
    VarintOwn(s, n);
    assert s[..n][k..] == s[k..][..n - k];
    BodyOwn(s[k..], k, Low32(s), n - k);
  }

  lemma GroupUnfold(s: bytes, field: nat, t: Token)
    requires TakeToken(Loose, s) == Some(t)
    ensures t.wireType == END_GROUP ==> GroupSize(s, field) == if t.field == field then t.size else 0
    ensures t.wireType == START_GROUP ==>
      var inner := GroupSize(s[t.size..], t.field);
      GroupSize(s, field) ==
        if inner == 0 || GroupSize(s[t.size + inner..], field) == 0 then 0
        else t.size + inner + GroupSize(s[t.size + inner..], field)
    ensures t.wireType != START_GROUP && t.wireType != END_GROUP ==>
      GroupSize(s, field) ==
        if GroupSize(s[t.size..], field) == 0 then 0 else t.size + GroupSize(s[t.size..], field)
  {
    hide TakeToken;
  }

  lemma {:induction false} GroupOwn(s: bytes, field: nat, n: nat)
    requires 0 < GroupSize(s, field) <= n <= |s|
    ensures GroupSize(s[..n], field) == GroupSize(s, field)
    decreases |s|
  {
    hide TakeToken, GroupSize;
    var t := GroupHead(s, field);
    GroupUnfold(s, field, t);
    TokenOwn(s, n);
    GroupUnfold(s[..n], field, t);
    var k := t.size;
    assert s[..n][k..] == s[k..][..n - k];
    if t.wireType == START_GROUP {
      var inner := GroupSize(s[k..], t.field);
      GroupOwn(s[k..], t.field, n - k);
      assert s[..n][k + inner..] == s[k + inner..][..n - k - inner];
      GroupOwn(s[k + inner..], field, n - k - inner);
    } else if t.wireType != END_GROUP {
      GroupOwn(s[k..], field, n - k);
    }
  }

  lemma GroupHead(s: bytes, field: nat) returns (t: Token)
    requires GroupSize(s, field) > 0
    ensures TakeToken(Loose, s) == Some(t)
    ensures t.size <= GroupSize(s, field)
  {
    t := TakeToken(Loose, s).value;
  }

  lemma {:induction false} GroupPrefix(s: bytes, field: nat, u: bytes)
    requires GroupSize(s, field) > 0
    ensures GroupSize(s + u, field) == GroupSize(s, field)
    decreases |s|
  {
    hide TakeToken, GroupSize;
    var t := GroupHead(s, field);
    GroupUnfold(s, field, t);
    TokenPrefix(Loose, s, u);
    GroupUnfold(s + u, field, t);
    var k := t.size;
    assert (s + u)[k..] == s[k..] + u;
    if t.wireType == START_GROUP {
      var inner := GroupSize(s[k..], t.field);
      GroupPrefix(s[k..], t.field, u);
      assert (s + u)[k + inner..] == s[k + inner..] + u;
      GroupPrefix(s[k + inner..], field, u);
    } else if t.wireType != END_GROUP {
      GroupPrefix(s[k..], field, u);
    }
  }

  /** What follows a record does not change how it reads. */
  lemma RecordPrefix(s: bytes, u: bytes)
    requires TakeRecord(s).Some?
    ensures TakeRecord(s + u) == TakeRecord(s)
  {
    hide TakeToken, GroupSize;
    TokenPrefix(Loose, s, u);
    var t := TakeToken(Loose, s).value;
    if t.wireType == START_GROUP {
      assert (s + u)[t.size..] == s[t.size..] + u;
      GroupPrefix(s[t.size..], t.field, u);
    }
    var k := RecordSize(s, t);
    assert (s + u)[..k] == s[..k];
  }

  /** A record's own bytes read back as that record, whatever follows them. */
  lemma RecordReadsBack(s: bytes, u: bytes)
    requires TakeRecord(s).Some?
    ensures TakeRecord(TakeRecord(s).value.raw + u) == TakeRecord(s)
  {
    hide TakeToken, GroupSize;
    var t, r := TakeToken(Loose, s).value, TakeRecord(s).value;
    var k := |r.raw|;
    TokenOwn(s, k);
    if t.wireType == START_GROUP {
      assert s[..k][t.size..] == s[t.size..][..k - t.size];
      GroupOwn(s[t.size..], t.field, k - t.size);
    }
    assert s[..k][..k] == s[..k];
    assert TakeRecord(r.raw) == Some(r);
    RecordPrefix(r.raw, u);
  }

  lemma RecordsNil(s: bytes)
    requires s == []
    ensures RecordsOf(s) == Some([])
  {
  }

  lemma RecordsHead(s: bytes) returns (x: Record)
    requires s != [] && RecordsOf(s).Some?
    ensures TakeRecord(s) == Some(x)
  {
    x := TakeRecord(s).value;
  }

  lemma RecordsCons(s: bytes, x: Record)
    requires s != [] && TakeRecord(s) == Some(x)
    ensures RecordsOf(s) == match RecordsOf(s[|x.raw|..])
                            case None => None
                            case Some(xs) => Some([x] + xs)
  {
  }

  /** Splitting into records is a homomorphism too. */
  lemma {:induction false} RecordsConcat(a: bytes, b: bytes)
    requires RecordsOf(a).Some? && RecordsOf(b).Some?
    ensures RecordsOf(a + b) == Some(RecordsOf(a).value + RecordsOf(b).value)
    decreases |a|
  {
    hide TakeRecord, RecordsOf;
    if a == [] {
      assert a + b == b;
      RecordsNil(a);
      assert [] + RecordsOf(b).value == RecordsOf(b).value;
    } else {
      var x := RecordsHead(a);
      var a' := a[|x.raw|..];
      RecordsCons(a, x);
      RecordsConcat(a', b);
      RecordPrefix(a, b);
      assert (a + b)[|x.raw|..] == a' + b;
      RecordsCons(a + b, x);
      ConsConcat(x, RecordsOf(a').value, RecordsOf(b).value);
    }
  }

  // ---------------------------------------------------------------------------
  // The writer's length-delimited record
  // ---------------------------------------------------------------------------

  function EncodeRecord(number: nat, payload: bytes): (s: bytes)
    ensures s != []
  {
    Encode(number * 8 + LEN) + (Encode(|payload|) + payload)
  }

  lemma EncodedBody(payload: bytes, u: bytes, k: nat, tag: nat)
    requires k > 0 && tag / 8 > 0 && tag % 8 == LEN && |payload| < TWO_32
    ensures TakeBody(Loose, Encode(|payload|) + (payload + u), k, tag)
         == Some(Token(tag / 8, LEN, payload, k + |Encode(|payload|)| + |payload|))
  {
    hide VarintSize, Low32, Encode;
    var len := Encode(|payload|);
    EncodeRoundTrip(|payload|, payload + u);
    assert (len + (payload + u))[|len|..|len| + |payload|] == payload;
  }

  lemma EncodedToken(number: nat, payload: bytes, u: bytes)
    requires number > 0 && number * 8 + LEN < TWO_32 && |payload| < TWO_32
    ensures TakeToken(Loose, EncodeRecord(number, payload) + u)
         == Some(Token(number, LEN, payload, |EncodeRecord(number, payload)|))
  {
    hide VarintSize, Low32, Encode, TakeBody;
    var tag, len := Encode(number * 8 + LEN), Encode(|payload|);
    var s := EncodeRecord(number, payload) + u;
    assert s == tag + (len + (payload + u));
    EncodeRoundTrip(number * 8 + LEN, len + (payload + u));
    assert s[|tag|..] == len + (payload + u);
    EncodedBody(payload, u, |tag|, number * 8 + LEN);
  }

  /** Writing a length-delimited record and reading it gives the number and payload back. */
  lemma EncodedRecordReadsBack(number: nat, payload: bytes, u: bytes)
    requires number > 0 && number * 8 + LEN < TWO_32 && |payload| < TWO_32
    ensures TakeRecord(EncodeRecord(number, payload) + u)
         == Some(Record(number, LEN, payload, EncodeRecord(number, payload)))
  {
    hide TakeToken, EncodeRecord;
    EncodedToken(number, payload, u);
    var e := EncodeRecord(number, payload);
    assert (e + u)[..|e|] == e;
  }

  lemma LenRecordShape(s: bytes)
    requires TakeRecord(s).Some? && TakeRecord(s).value.wireType == LEN
    ensures var r := TakeRecord(s).value;
      && r.number * 8 + LEN < TWO_32
      && |EncodeRecord(r.number, r.payload)| <= |r.raw|
      && |Encode(r.number * 8 + LEN)| + |r.payload| < |r.raw|
  {
    hide VarintSize, Low32, Encode;
    var k := VarintSize(s);
    EncodeMinimal(s);
    EncodeMinimal(s[k..]);
    var r := TakeRecord(s).value;
    assert Low32(s) == r.number * 8 + LEN;
    assert |r.payload| == Low32(s[k..]);
  }
}
