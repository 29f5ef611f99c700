/**
  What the token readers take from the wire, said about written bytes: a tag, then exactly
  as many bytes as its wire type announces.
 */
module TokenLaws {
  import opened Options
  import opened Varint
  import opened Tokens

  const TWO_64: nat := 0x1_0000_0000_0000_0000

  // ---------------------------------------------------------------------------
  // The width-checked readers accept by value
  // ---------------------------------------------------------------------------

  lemma LastDigit(s: bytes, k: nat)
    requires 0 < k <= |s|
    ensures Base128(s[..k]) == Base128(s[..k - 1]) + (s[k - 1] % 128) * Pow2(7 * (k - 1))
    ensures Base128(s[..k - 1]) < Pow2(7 * (k - 1))
  {
    assert s[..k] == s[..k - 1] + [s[k - 1]];
    Base128Snoc(s[..k - 1], s[k - 1]);
    Base128Bound(s[..k - 1]);
  }

  lemma BigPowers()
    ensures Pow2(63) == 0x8000_0000_0000_0000 && Pow2(64) == TWO_64
  {
    SmallPowers();
    Pow2Add(28, 35);
    Pow2Add(32, 32);
  }

  /** Tags and lengths: at most five bytes, and a number of 32 bits. */
  lemma Varint32Exactly(s: bytes)
    ensures var k := VarintSize(s);
      Varint32(s) == if 0 < k <= 5 && Base128(s[..k]) < TWO_32 then Some(Base128(s[..k])) else None
  {
    hide Pow2, Base128;
    var k := VarintSize(s);
    SmallPowers();
    if 0 < k < 5 {
      Base128Bound(s[..k]);
      Pow2Mono(7 * k, 28);
    } else if k == 5 {
      LastDigit(s, 5);
    }
  }

  /** Values: at most ten bytes, and a number of 64 bits. */
  lemma Varint64Exactly(s: bytes)
    ensures var k := VarintSize(s);
      Varint64(s) == if 0 < k <= 10 && Base128(s[..k]) < TWO_64 then Some(Base128(s[..k])) else None
  {
    hide Pow2, Base128;
    var k := VarintSize(s);
    BigPowers();
    if 0 < k < 10 {
      Base128Bound(s[..k]);
      Pow2Mono(7 * k, 63);
    } else if k == 10 {
      LastDigit(s, 10);
    }
  }

  lemma {:induction false} EncodedSize(n: nat, k: nat)
    requires 0 < k && n < Pow2(7 * k)
    ensures |Encode(n)| <= k
  {
    SmallPowers();
    if n >= 128 {
      if k == 1 { assert false; }
      Pow2Add(7, 7 * (k - 1));
      assert 7 * k == 7 + 7 * (k - 1);
      EncodedSize(n / 128, k - 1);
    }
  }

  /** Both readers read a written 32-bit number back. */
  lemma NumberReadsBack(mode: Mode, n: nat, rest: bytes)
    requires n < TWO_32
    ensures Number32(mode, Encode(n) + rest) == Some(n)
    ensures VarintSize(Encode(n) + rest) == |Encode(n)|
  {
    EncodeRoundTrip(n, rest);
    EncodeReads(n, rest);
    assert (Encode(n) + rest)[..|Encode(n)|] == Encode(n);
    SmallPowers();
    EncodedSize(n, 5);
    Varint32Exactly(Encode(n) + rest);
  }

  /** Both readers step over a written 64-bit value. */
  lemma ValueReadsBack(mode: Mode, v: nat, rest: bytes)
    requires v < TWO_64
    ensures ValueSize(mode, Encode(v) + rest) == |Encode(v)|
  {
    EncodeReads(v, rest);
    assert (Encode(v) + rest)[..|Encode(v)|] == Encode(v);
    BigPowers();
    Pow2Mono(64, 70);
    EncodedSize(v, 10);
    Varint64Exactly(Encode(v) + rest);
  }

  // ---------------------------------------------------------------------------
  // One token
  // ---------------------------------------------------------------------------

  /** A field number and wire type as the writer packs them. */
  function TagOf(field: nat, wireType: nat): nat { field * 8 + wireType }

  predicate LegalField(field: nat) { 0 < field < 0x2000_0000 }

  lemma TagReadsBack(mode: Mode, field: nat, wireType: nat, rest: bytes)
    requires LegalField(field) && wireType < 8
    ensures var tag := Encode(TagOf(field, wireType));
      TakeToken(mode, tag + rest) == TakeBody(mode, rest, |tag|, TagOf(field, wireType))
    ensures TagOf(field, wireType) / 8 == field && TagOf(field, wireType) % 8 == wireType
  {
    hide Number32, TakeBody, Encode, VarintSize;
    var tag := Encode(TagOf(field, wireType));
    NumberReadsBack(mode, TagOf(field, wireType), rest);
    assert (tag + rest)[|tag|..] == rest;
  }

  /** Wire type 1 takes eight bytes, whatever they are. */
  lemma Fixed64ReadsBack(mode: Mode, field: nat, body: bytes, rest: bytes)
    requires LegalField(field) && |body| == 8
    ensures var tag := Encode(TagOf(field, 1));
      TakeToken(mode, tag + (body + rest)) == Some(Token(field, 1, [], |tag| + 8))
  {
    hide TakeToken, TagOf, Number32, ValueSize, Encode, VarintSize, Base128;
    TagReadsBack(mode, field, 1, body + rest);
  }

  /** Wire type 5 takes four. */
  lemma Fixed32ReadsBack(mode: Mode, field: nat, body: bytes, rest: bytes)
    requires LegalField(field) && |body| == 4
    ensures var tag := Encode(TagOf(field, 5));
      TakeToken(mode, tag + (body + rest)) == Some(Token(field, 5, [], |tag| + 4))
  {
    hide TakeToken, TagOf, Number32, ValueSize, Encode, VarintSize, Base128;
    TagReadsBack(mode, field, 5, body + rest);
  }

  /** With fewer bytes left both are refused. */
  lemma ShortFixedIsRefused(mode: Mode, field: nat, rest: bytes)
    requires LegalField(field)
    ensures |rest| < 8 ==> TakeToken(mode, Encode(TagOf(field, 1)) + rest) == None
    ensures |rest| < 4 ==> TakeToken(mode, Encode(TagOf(field, 5)) + rest) == None
  {
    hide TakeToken, TagOf, Number32, ValueSize, Encode, VarintSize, Base128;
    TagReadsBack(mode, field, 1, rest);
    TagReadsBack(mode, field, 5, rest);
  }

  /** Wire type 0 takes one varint: a written 64-bit value in both modes. */
  lemma VarintReadsBack(mode: Mode, field: nat, v: nat, rest: bytes)
    requires LegalField(field) && v < TWO_64
    ensures var tag := Encode(TagOf(field, 0));
      TakeToken(mode, tag + (Encode(v) + rest)) == Some(Token(field, 0, [], |tag| + |Encode(v)|))
  {
    hide TakeToken, TagOf, Number32, ValueSize, Encode, VarintSize, Base128;
    TagReadsBack(mode, field, 0, Encode(v) + rest);
    ValueReadsBack(mode, v, rest);
  }

  /** Any other encoding of a value: the masking reader takes it whatever its length, the strict one up to 64 bits. */
  lemma AnyVarintIsTaken(mode: Mode, field: nat, body: bytes, rest: bytes)
    requires LegalField(field) && body != [] && VarintSize(body) == |body|
    ensures var tag := Encode(TagOf(field, 0));
      TakeToken(mode, tag + (body + rest)) ==
        if mode == Loose || (|body| <= 10 && Base128(body) < TWO_64) then Some(Token(field, 0, [], |tag| + |body|))
        else None
  {
    hide TakeToken, TagOf, Number32, Encode, VarintSize, Base128;
    TagReadsBack(mode, field, 0, body + rest);
    VarintPrefix(body, rest);
    Varint64Exactly(body);
    assert body[..|body|] == body;
  }

  /** Wire type 2 takes a length and as many bytes. */
  lemma PayloadReadsBack(mode: Mode, field: nat, payload: bytes, rest: bytes)
    requires LegalField(field) && |payload| < TWO_32
    ensures var head := Encode(TagOf(field, 2)) + Encode(|payload|);
      TakeToken(mode, head + (payload + rest)) == Some(Token(field, 2, payload, |head| + |payload|))
  {
    hide TakeToken, TagOf, Number32, ValueSize, Encode, VarintSize, Base128;
    var tag, len := Encode(TagOf(field, 2)), Encode(|payload|);
    assert (tag + len) + (payload + rest) == tag + (len + (payload + rest));
    TagReadsBack(mode, field, 2, len + (payload + rest));
    NumberReadsBack(mode, |payload|, payload + rest);
    assert (len + (payload + rest))[|len|..|len| + |payload|] == payload;
  }

  /** A group's tags stand alone; 6 and 7 are no wire types, and 0 is no field. */
  lemma BareTagReadsBack(mode: Mode, field: nat, wireType: nat, rest: bytes)
    requires LegalField(field) && wireType in {3, 4, 6, 7}
    ensures var tag := Encode(TagOf(field, wireType));
      TakeToken(mode, tag + rest) == if wireType < 6 then Some(Token(field, wireType, [], |tag|)) else None
  {
    hide TakeToken, TagOf, Number32, ValueSize, Encode, VarintSize, Base128;
    TagReadsBack(mode, field, wireType, rest);
  }

  lemma FieldZeroIsRefused(mode: Mode, wireType: nat, rest: bytes)
    requires wireType < 8
    ensures TakeToken(mode, Encode(wireType) + rest) == None
  {
    hide Number32, Encode, VarintSize;
    NumberReadsBack(mode, wireType, rest);
  }

  // ---------------------------------------------------------------------------
  // Every token is of that form
  // ---------------------------------------------------------------------------

  /** `s` is one varint that reads as `n`; the strict reader also wants it within the width. */
  ghost predicate IsNumber(mode: Mode, s: bytes, n: nat) {
    && s != [] && VarintSize(s) == |s|
    && (mode == Loose ==> n == Base128(s) % TWO_32)
    && (mode == Strict ==> |s| <= 5 && n == Base128(s) < TWO_32)
  }

  /** The wire format of what follows a tag, by wire type. */
  ghost predicate IsBody(mode: Mode, s: bytes, wireType: nat, payload: bytes) {
    if wireType == 0 then
      && s != [] && VarintSize(s) == |s| && payload == []
      && (mode == Strict ==> |s| <= 10 && Base128(s) < TWO_64)
    else if wireType == 1 then |s| == 8 && payload == []
    else if wireType == 2 then exists j :: 0 <= j <= |s| && s[j..] == payload && IsNumber(mode, s[..j], |payload|)
    else if wireType == 5 then |s| == 4 && payload == []
    else (wireType == 3 || wireType == 4) && s == [] && payload == []
  }

  /** `s` is exactly one token: a tag that names `t`'s field and type, and `t`'s body. */
  ghost predicate IsToken(mode: Mode, s: bytes, t: Token) {
    && t.field > 0 && t.wireType < 8 && t.size == |s|
    && exists k :: 0 <= k <= |s| && IsNumber(mode, s[..k], TagOf(t.field, t.wireType))
                   && IsBody(mode, s[k..], t.wireType, t.payload)
  }

  /** The first `k` bytes are one varint exactly if the varint at the front ends there. */
  lemma FrontVarint(s: bytes, k: nat)
    requires 0 < k <= |s|
    ensures VarintSize(s[..k]) == k <==> VarintSize(s) == k
  {
    hide VarintSize;
    if VarintSize(s[..k]) == k {
      VarintPrefix(s[..k], s[k..]);
      assert s == s[..k] + s[k..];
    }
    if VarintSize(s) == k {
      VarintSizeAt(s[..k], k);
    }
  }

  lemma NumberIs(mode: Mode, s: bytes, k: nat, n: nat)
    requires k <= |s|
    ensures IsNumber(mode, s[..k], n) <==> Number32(mode, s) == Some(n) && k == VarintSize(s)
  {
    hide Base128, VarintSize, Varint32;
    Varint32Exactly(s);
    if k > 0 { FrontVarint(s, k); }
    assert s[..k][..k] == s[..k];
  }

  lemma BodyIs(mode: Mode, s: bytes, k: nat, tag: nat, t: Token)
    requires k > 0 && tag / 8 > 0
    requires k <= t.size <= k + |s|
    ensures TakeBody(mode, s, k, tag) == Some(t) <==>
      t.field == tag / 8 && t.wireType == tag % 8 && IsBody(mode, s[..t.size - k], t.wireType, t.payload)
  {
    hide Base128, VarintSize, Number32, IsNumber, ValueSize;
    var n, w := t.size - k, tag % 8;
    if w == 0 {
      ValueIs(mode, s, n);
      hide IsBody;
    } else if w == 2 {
      PayloadIs(mode, s, n, t.payload);
      hide IsBody;
    }
  }

  lemma ValueIs(mode: Mode, s: bytes, n: nat)
    requires n <= |s|
    ensures forall payload :: IsBody(mode, s[..n], 0, payload) <==> payload == [] && n > 0 && ValueSize(mode, s) == n
  {
    hide Base128, VarintSize, Varint64;
    Varint64Exactly(s);
    if n > 0 { FrontVarint(s, n); }
    assert s[..n][..n] == s[..n];
  }

  lemma PayloadIs(mode: Mode, s: bytes, n: nat, payload: bytes)
    requires n <= |s|
    ensures IsBody(mode, s[..n], 2, payload) <==>
      var j, m := VarintSize(s), Number32(mode, s);
      m.Some? && j + m.value == n && payload == s[j..n]
  {
    hide Base128, VarintSize, IsNumber, Number32;
    var own := s[..n];
    var j := VarintSize(s);
    forall i | 0 <= i <= n && own[i..] == payload
      ensures IsNumber(mode, own[..i], |payload|) <==> Number32(mode, s) == Some(|payload|) && i == j
    {
      assert own[..i] == s[..i];
      NumberIs(mode, s, i, |payload|);
    }
    if Number32(mode, s).Some? && j + Number32(mode, s).value == n && payload == s[j..n] {
      assert own[j..] == payload;
      assert IsNumber(mode, own[..j], |payload|);
    }
    if IsBody(mode, own, 2, payload) {
      var i :| 0 <= i <= n && own[i..] == payload && IsNumber(mode, own[..i], |payload|);
      assert own[j..] == s[j..n];
    }
  }

  /** The reader takes a token from the front of `s` exactly if the front of `s` is that token. */
  lemma TokenExactly(mode: Mode, s: bytes, t: Token)
    requires t.size <= |s|
    ensures TakeToken(mode, s) == Some(t) <==> IsToken(mode, s[..t.size], t)
  {
    hide Base128, VarintSize, Number32, TakeBody, IsNumber, IsBody;
    var own, v, tag := s[..t.size], VarintSize(s), Number32(mode, s);
    forall k | 0 <= k <= |own|
      ensures IsNumber(mode, own[..k], TagOf(t.field, t.wireType)) <==>
                tag == Some(TagOf(t.field, t.wireType)) && k == v
    {
      assert own[..k] == s[..k];
      NumberIs(mode, s, k, TagOf(t.field, t.wireType));
    }
    if tag.Some? && v <= t.size && tag.value / 8 > 0 {
      BodyIs(mode, s[v..], v, tag.value, t);
      assert s[v..][..t.size - v] == own[v..];
    }
  }
}
