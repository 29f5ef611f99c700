/**
  Base-128 integers as they appear on the protobuf wire: the masking reader the
  guard uses, the width-checked reader the future-event walkers use, and the
  minimal encoding the merger's writer produces.
 */
module Varint {
  import opened Options

  type byte = b: int | 0 <= b < 256
  type bytes = seq<byte>

  const TWO_32: nat := 0x1_0000_0000

  /** Where a reader stands in its input; readers advance it in place. */
  class Cursor {
    var offset: nat
    constructor ()
      ensures offset == 0
    {
      offset := 0;
    }
  }

  function Pow2(n: nat): (p: nat)
    ensures p > 0
  {
    if n == 0 then 1 else 2 * Pow2(n - 1)
  }

  /** The bytes a varint occupies: up to the first byte without a continuation bit; 0 if there is none. */
  function VarintSize(s: bytes): (k: nat)
    ensures k <= |s|
    ensures k > 0 ==> s[k - 1] < 128 && forall i :: 0 <= i < k - 1 ==> s[i] >= 128
    ensures k == 0 ==> forall i :: 0 <= i < |s| ==> s[i] >= 128
  {
    if s == [] then 0
    else if s[0] < 128 then 1
    else
      var k := VarintSize(s[1..]);
      if k == 0 then 0 else k + 1
  }

  /** The number whose seven-bit digits, least significant first, are the low bits of `s`. */
  function Base128(s: bytes): nat {
    if s == [] then 0 else s[0] % 128 + 128 * Base128(s[1..])
  }

  /** The leading varint of `s`, reduced to 32 bits. */
  function Low32(s: bytes): (v: nat)
    ensures v < TWO_32
  {
    Base128(s[..VarintSize(s)]) % TWO_32
  }

  // ---------------------------------------------------------------------------
  // The masking reader
  // ---------------------------------------------------------------------------

  lemma Pow2Add(m: nat, n: nat)
    ensures Pow2(m + n) == Pow2(m) * Pow2(n)
  {
    if m != 0 {
      Pow2Add(m - 1, n);
      assert Pow2(m + n) == 2 * Pow2(m - 1 + n);
    }
  }

  lemma {:induction false} Base128Snoc(s: bytes, b: byte)
    ensures Base128(s + [b]) == Base128(s) + (b % 128) * Pow2(7 * |s|)
  {
    if s == [] {
      assert s + [b] == [b];
      assert Base128([b]) == b % 128 + 128 * Base128([b][1..]);
      assert [b][1..] == [];
    } else {
      assert (s + [b])[1..] == s[1..] + [b];
      Base128Snoc(s[1..], b);
      Pow2Add(7, 7 * |s[1..]|);
      assert Pow2(7) == 128 by { SmallPowers(); }
      assert 7 * |s| == 7 + 7 * |s[1..]|;
      var p := Pow2(7 * |s[1..]|);
      assert 128 * ((b % 128) * p) == (b % 128) * (128 * p);
    }
  }

  lemma SmallPowers()
    ensures Pow2(7) == 128
    ensures Pow2(14) == 0x4000 && Pow2(21) == 0x20_0000 && Pow2(28) == 0x1000_0000
    ensures Pow2(32) == TWO_32 && Pow2(35) == 8 * TWO_32
  {
    assert Pow2(4) == 16;
    assert Pow2(7) == 128 by { Pow2Add(4, 3); assert Pow2(3) == 8; }
    Pow2Add(7, 7);
    Pow2Add(14, 7);
    Pow2Add(21, 7);
    Pow2Add(28, 4);
    Pow2Add(28, 7);
  }

  /** What one more byte contributes once everything above bit 31 is masked away. */
  function MaskedDigit(b: byte, shift: nat): nat {
    if shift < 28 then (b % 128) * Pow2(shift)
    else if shift == 28 then (b % 16) * Pow2(28)
    else 0
  }

  lemma DropHigh(q: nat, r: nat)
    ensures (q * TWO_32 + r) % TWO_32 == r % TWO_32
  {
    assert q * 0x1_0000_0000 + r == 0x1_0000_0000 * (q + r / 0x1_0000_0000) + r % 0x1_0000_0000;
  }

  /** Masking byte by byte is reduction modulo 2^32. */
  lemma MaskedStep(s: bytes, b: byte, masked: nat)
    requires masked == Base128(s) % TWO_32
    requires |s| <= 4 ==> Base128(s) < Pow2(7 * |s|)
    ensures masked + MaskedDigit(b, 7 * |s|) == Base128(s + [b]) % TWO_32
  {
    hide Base128, Pow2;
    Base128Snoc(s, b);
    var v := Base128(s);
    if |s| < 4 {
      SmallPowers();
      Pow2Mono(7 * |s|, 21);
      MaskedSmall(v, b % 128, Pow2(7 * |s|));
    } else if |s| == 4 {
      MaskedFifth(v, b);
    } else {
      MaskedLate(v, b, 7 * |s|);
    }
  }

  lemma MaskedFifth(v: nat, b: byte)
    requires v < Pow2(28)
    ensures v + (b % 16) * Pow2(28) == (v + (b % 128) * Pow2(28)) % TWO_32
  {
    SmallPowers();
    hide Pow2;
    var hi, lo := (b % 128) / 16, b % 16;
    assert b % 128 == 16 * hi + lo;
    DropHigh(hi, v + lo * 0x1000_0000);
  }

  lemma MulShuffle(d: nat, p: nat)
    ensures d * (TWO_32 * p) == (d * p) * TWO_32
  {
  }

  lemma MaskedLate(v: nat, b: byte, n: nat)
    requires n >= 32
    ensures v % TWO_32 == (v + (b % 128) * Pow2(n)) % TWO_32
  {
    var d, p := b % 128, Pow2(n - 32);
    assert Pow2(n) == TWO_32 * p by {
      SmallPowers();
      Pow2Add(32, n - 32);
    }
    MulShuffle(d, p);
    DropHigh(d * p, v);
  }

  lemma MaskedSmall(v: nat, d: nat, p: nat)
    requires v < p <= 0x20_0000 && d < 128
    ensures v % TWO_32 + d * p == (v + d * p) % TWO_32
  {
    assert d * p <= 127 * p;
  }

  lemma {:induction false} Base128Bound(s: bytes)
    ensures Base128(s) < Pow2(7 * |s|)
  {
    if s != [] {
      Base128Bound(s[1..]);
      Pow2Add(7, 7 * |s[1..]|);
      SmallPowers();
      assert 7 * |s| == 7 + 7 * |s[1..]|;
    }
  }

  lemma VarintSizeAt(s: bytes, k: nat)
    requires 0 < k <= |s|
    requires s[k - 1] < 128
    requires forall i :: 0 <= i < k - 1 ==> s[i] >= 128
    ensures VarintSize(s) == k
  {
    if k > 1 {
      VarintSizeAt(s[1..], k - 1);
    }
  }

  /** The low seven bits, the fifth byte's low four, or nothing. */
  method AddDigit(result: nat, b: byte, shift: nat) returns (r: nat)
    ensures r == result + MaskedDigit(b, shift)
  {
    r := result;
    if shift < 28 {
      r := r + (b % 128) * Pow2(shift);
    } else if shift == 28 {
      r := r + (b % 16) * Pow2(28);
    }
  }

  lemma NoDigits(s: bytes)
    ensures Base128(s[..0]) == 0
  {
  }

  lemma {:induction false} NeverEnds(s: bytes)
    requires forall b <- s :: b >= 128
    ensures VarintSize(s) == 0
  {
    if s != [] {
      assert s[0] in s && forall b <- s[1..] :: b in s;
      NeverEnds(s[1..]);
    }
  }

  /**
    Reads one varint, keeping the low 32 bits: an encoding of any length yields its
    base-128 value modulo 2^32, and the cursor moves past it. Fails exactly when the
    input ends inside the varint.
   */
  method ReadVarint(data: bytes, cursor: Cursor) returns (r: Option<nat>)
    requires cursor.offset <= |data|
    modifies cursor
    ensures r.Some? <==> VarintSize(data[old(cursor.offset)..]) > 0
    ensures r.Some? ==> r.value == Low32(data[old(cursor.offset)..])
    ensures r.Some? ==> cursor.offset == old(cursor.offset) + VarintSize(data[old(cursor.offset)..])
    ensures cursor.offset <= |data|
  {
    ghost var start := cursor.offset;
    ghost var s := data[start..];
    var result := 0;
    var shift := 0;
    NoDigits(s);
    hide Pow2, Base128, VarintSize, MaskedDigit;
    while true
      invariant start <= cursor.offset <= |data|
      invariant shift == 7 * (cursor.offset - start)
      invariant forall i :: 0 <= i < cursor.offset - start ==> s[i] >= 128
      invariant result == Base128(s[..cursor.offset - start]) % TWO_32
      decreases |data| - cursor.offset
    {
      if cursor.offset >= |data| {
        assert s[..cursor.offset - start] == s;
        NeverEnds(s);
        return None;
      }
      var b := data[cursor.offset];
      ghost var k := cursor.offset - start;
      assert b == s[k] && s[..k + 1] == s[..k] + [b];
      Base128Bound(s[..k]);
      MaskedStep(s[..k], b, result);
      cursor.offset := cursor.offset + 1;
      result := AddDigit(result, b, shift);
      shift := shift + 7;
      if b < 128 {
        VarintSizeAt(s, k + 1);
        return Some(result);
      }
    }
  }

  // ---------------------------------------------------------------------------
  // The width-checked reader
  // ---------------------------------------------------------------------------

  /** A varint of at most `maxBytes` bytes whose last possible byte is at most `lastByteMax`. */
  function Bounded(s: bytes, maxBytes: nat, lastByteMax: nat): Option<nat> {
    var k := VarintSize(s);
    if k == 0 || k > maxBytes || (k == maxBytes && s[k - 1] > lastByteMax) then None
    else Some(Base128(s[..k]))
  }

  /** As the source's -1 convention: None stands for -1. */
  method BoundedVarint(data: bytes, cursor: Cursor, maxBytes: nat, lastByteMax: nat) returns (r: Option<nat>)
    requires cursor.offset <= |data|
    requires 0 < maxBytes && lastByteMax < 128
    modifies cursor
    ensures r == Bounded(data[old(cursor.offset)..], maxBytes, lastByteMax)
    ensures r.Some? ==> cursor.offset == old(cursor.offset) + VarintSize(data[old(cursor.offset)..])
    ensures cursor.offset <= |data|
  {
    ghost var start := cursor.offset;
    ghost var s := data[start..];
    var result := 0;
    var shift := 0;
    var count := 0;
    while true
      invariant start <= cursor.offset <= |data|
      invariant count == cursor.offset - start <= maxBytes
      invariant shift == 7 * count
      invariant forall i :: 0 <= i < count ==> s[i] >= 128
      invariant count == maxBytes ==> count == 0
      invariant result == Base128(s[..count])
      decreases |data| - cursor.offset
    {
      if cursor.offset >= |data| || count >= maxBytes {
        assert cursor.offset == |data|;
        assert forall i :: 0 <= i < |s| ==> s[i] >= 128;
        return None;
      }
      var b := data[cursor.offset];
      assert b == s[count] && s[..count + 1] == s[..count] + [b];
      Base128Snoc(s[..count], b);
      cursor.offset := cursor.offset + 1;
      count := count + 1;
      if count == maxBytes && b > lastByteMax {
        TooWide(s, count);
        return None;
      }
      result := result + (b % 128) * Pow2(shift);
      shift := shift + 7;
      if b < 128 {
        VarintSizeAt(s, count);
        return Some(result);
      }
    }
  }

  lemma TooWide(s: bytes, k: nat)
    requires 0 < k <= |s|
    requires forall i :: 0 <= i < k - 1 ==> s[i] >= 128
    ensures VarintSize(s) == 0 || VarintSize(s) >= k
  {
  }

  /** Tags and lengths: five bytes, the last holding four bits. */
  function Varint32(s: bytes): Option<nat> { Bounded(s, 5, 15) }

  /** Values: ten bytes, the last holding one bit. */
  function Varint64(s: bytes): Option<nat> { Bounded(s, 10, 1) }

  /** A tag or length the strict reader accepts fits 32 bits, and the masking reader sees the same number. */
  lemma Varint32Agrees(s: bytes)
    requires Varint32(s).Some?
    ensures Varint32(s).value < TWO_32
    ensures Varint32(s).value == Low32(s)
    ensures Varint32(s).value / 8 < 0x2000_0000
  {
    var k := VarintSize(s);
    SmallPowers();
    Base128Bound(s[..k]);
    if k == 5 {
      assert s[..5] == s[..4] + [s[4]];
      Base128Snoc(s[..4], s[4]);
      Base128Bound(s[..4]);
    } else {
      Pow2Mono(7 * k, 28);
    }
  }

  lemma Pow2Mono(m: nat, n: nat)
    requires m <= n
    ensures Pow2(m) <= Pow2(n)
  {
    Pow2Add(m, n - m);
    assert Pow2(m) * 1 <= Pow2(m) * Pow2(n - m);
  }

  // ---------------------------------------------------------------------------
  // The writer
  // ---------------------------------------------------------------------------

  /** The encoding a protobuf writer produces: no redundant continuation bytes. */
  function Encode(n: nat): (s: bytes)
    ensures s != []
  {
    if n < 128 then [n] else [n % 128 + 128] + Encode(n / 128)
  }

  lemma {:induction false} EncodeReads(n: nat, rest: bytes)
    ensures VarintSize(Encode(n) + rest) == |Encode(n)|
    ensures Base128(Encode(n)) == n
  {
    if n < 128 {
      assert Encode(n)[1..] == [];
      assert Base128(Encode(n)) == n % 128 + 128 * Base128([]);
    } else {
      EncodeReads(n / 128, rest);
      var s := Encode(n);
      assert s[1..] == Encode(n / 128);
      assert (s + rest)[1..] == s[1..] + rest;
      assert s[0] == n % 128 + 128;
      assert s[0] % 128 == n % 128;
    }
  }

  /** Encoding then reading a 32-bit number gives it back and consumes exactly the encoding. */
  lemma EncodeRoundTrip(n: nat, rest: bytes)
    requires n < TWO_32
    ensures VarintSize(Encode(n) + rest) == |Encode(n)|
    ensures Low32(Encode(n) + rest) == n
  {
    EncodeReads(n, rest);
    assert (Encode(n) + rest)[..|Encode(n)|] == Encode(n);
  }

  lemma EncodeMono(m: nat, n: nat)
    requires m <= n
    ensures |Encode(m)| <= |Encode(n)|
  {
    if m >= 128 {
      EncodeMono(m / 128, n / 128);
    }
  }

  lemma {:induction false} EncodeIsShortest(s: bytes)
    requires s != []
    ensures |Encode(Base128(s))| <= |s|
  {
    var n := Base128(s);
    if n >= 128 {
      assert s[1..] != [] by {
        assert Base128([]) == 0;
      }
      EncodeIsShortest(s[1..]);
      assert n / 128 == Base128(s[1..]);
    }
  }

  /** No varint is shorter than the minimal encoding of the 32-bit number it reads as. */
  lemma EncodeMinimal(s: bytes)
    requires VarintSize(s) > 0
    ensures |Encode(Low32(s))| <= VarintSize(s)
  {
    var p := s[..VarintSize(s)];
    EncodeIsShortest(p);
    EncodeMono(Low32(s), Base128(p));
  }

  /** Reading stops at the varint's end, so what follows does not matter. */
  lemma VarintPrefix(s: bytes, t: bytes)
    requires VarintSize(s) > 0
    ensures VarintSize(s + t) == VarintSize(s)
    ensures Low32(s + t) == Low32(s)
    ensures Varint32(s + t) == Varint32(s) && Varint64(s + t) == Varint64(s)
  {
    var k := VarintSize(s);
    VarintSizeAt(s + t, k);
    assert (s + t)[..k] == s[..k];
  }
}
