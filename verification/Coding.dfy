/** Fixed-width and variable-length integers, and length-prefixed strings, as bytes. */
module Coding {
  import opened Keys

  type Byte = n: nat | n < 256
  type Bytes = seq<Byte>
  const TWO_32: nat := 0x1_0000_0000
  const TWO_64: nat := 0x1_0000_0000_0000_0000
  type Word = n: nat | n < TWO_32

  function Zeros(n: nat): (b: Bytes)
    ensures |b| == n
  {
    seq(n, _ => 0)
  }

  /** The checksum of a string, any function into 32 bits. */
  type Checksum = Bytes -> Word

  // ----- fixed width, little endian

  function Fixed32(n: nat): (b: Bytes)
    requires n < TWO_32
    ensures |b| == 4
  {
    [n % 256, n / 256 % 256, n / 0x1_0000 % 256, n / 0x100_0000]
  }

  function DecodeFixed32(b: Bytes): (n: nat)
    requires |b| >= 4
    ensures n < TWO_32
  {
    (b[0] as int) + 256 * (b[1] as int) + 0x1_0000 * (b[2] as int) + 0x100_0000 * (b[3] as int)
  }

  function Fixed64(n: nat): (b: Bytes)
    requires n < TWO_64
    ensures |b| == 8
  {
    Fixed32(n % TWO_32) + Fixed32(n / TWO_32)
  }

  function DecodeFixed64(b: Bytes): nat
    requires |b| >= 8
  {
    DecodeFixed32(b) + TWO_32 * DecodeFixed32(b[4..])
  }

  lemma Fixed64Fits(b: Bytes)
    requires |b| >= 8
    ensures DecodeFixed64(b) < TWO_64
  {
  }

  /** The first byte weighs least. */
  lemma Fixed32Places(n: nat)
    requires n < TWO_32
    ensures var b := Fixed32(n);
      b[0] as int + 0x100 * b[1] as int + 0x1_0000 * b[2] as int + 0x100_0000 * b[3] as int == n
  {
    var m := n / 256;
    assert n == 256 * m + n % 256;
    var k := m / 256;
    assert m == 256 * k + m % 256 && n / 0x1_0000 == k && n / 0x100_0000 == k / 256;
  }

  lemma Fixed64Places(n: nat)
    requires n < TWO_64
    ensures var b := Fixed64(n);
      b[0] as int + 0x100 * b[1] as int + 0x1_0000 * b[2] as int + 0x100_0000 * b[3] as int
        + 0x1_0000_0000 * b[4] as int + 0x100_0000_0000 * b[5] as int + 0x1_0000_0000_0000 * b[6] as int
        + 0x100_0000_0000_0000 * b[7] as int == n
  {
    hide Fixed32;
    Fixed32Places(n % TWO_32);
    Fixed32Places(n / TWO_32);
  }

  lemma Fixed32RoundTrip(n: nat, rest: Bytes)
    requires n < TWO_32
    ensures DecodeFixed32(Fixed32(n) + rest) == n
  {
    var m := n / 256;
    assert n == 256 * m + n % 256;
    var k := m / 256;
    assert m == 256 * k + m % 256 && n / 0x1_0000 == k && n / 0x100_0000 == k / 256;
  }

  lemma DecodedFixed32(b: Bytes)
    requires |b| >= 4
    ensures Fixed32(DecodeFixed32(b)) == b[..4]
  {
    var n := DecodeFixed32(b);
    var m := b[1] as int + 256 * b[2] as int + 0x1_0000 * b[3] as int;
    var k := b[2] as int + 256 * b[3] as int;
    assert n == b[0] as int + 256 * m && m == b[1] as int + 256 * k;
    assert n / 256 == m && m / 256 == k && n / 0x1_0000 == k && n / 0x100_0000 == k / 256;
  }

  lemma Fixed64RoundTrip(n: nat, rest: Bytes)
    requires n < TWO_64
    ensures DecodeFixed64(Fixed64(n) + rest) == n
  {
    var lo, hi := n % TWO_32, n / TWO_32;
    Fixed32RoundTrip(lo, Fixed32(hi) + rest);
    Fixed32RoundTrip(hi, rest);
    assert Fixed64(n) + rest == Fixed32(lo) + (Fixed32(hi) + rest);
    assert (Fixed64(n) + rest)[4..] == Fixed32(hi) + rest;
  }

  // ----- varints

  /** Seven bits a byte, low bits first, the high bit set on all bytes but the last. */
  function Varint(v: nat): (b: Bytes)
    ensures |b| > 0
  {
    if v < 128 then [v] else [v % 128 + 128] + Varint(v / 128)
  }

  lemma VarintUnfolded(v: nat, v7: nat, v14: nat, v21: nat, v28: nat)
    requires v7 == v / 128 && v14 == v7 / 128 && v21 == v14 / 128 && v28 == v21 / 128 && v28 < 128
    ensures Varint(v) ==
      if v < 128 then [v]
      else if v7 < 128 then [v % 128 + 128, v7]
      else if v14 < 128 then [v % 128 + 128, v7 % 128 + 128, v14]
      else if v21 < 128 then [v % 128 + 128, v7 % 128 + 128, v14 % 128 + 128, v21]
      else [v % 128 + 128, v7 % 128 + 128, v14 % 128 + 128, v21 % 128 + 128, v28]
  {
    assert Varint(v28) == [v28];
    assert Varint(v21) == if v21 < 128 then [v21] else [v21 % 128 + 128, v28];
    assert Varint(v14) == if v14 < 128 then [v14] else [v14 % 128 + 128] + Varint(v21);
    assert Varint(v7) == if v7 < 128 then [v7] else [v7 % 128 + 128] + Varint(v14);
  }

  function Pow128(i: nat): (p: nat)
    ensures p > 0
  {
    if i == 0 then 1 else 128 * Pow128(i - 1)
  }

  lemma QuotientIs(v: nat, d: nat, q: nat, r: nat)
    requires v == d * q + r && r < d
    ensures v / d == q
  {
    var q', r' := v / d, v % d;
    assert v == d * q' + r';
    assert q' < q ==> d * (q' + 1) <= d * q;
    assert q < q' ==> d * (q + 1) <= d * q';
  }

  lemma DivideTwice(v: nat, p: nat)
    requires p > 0
    ensures v / 128 / p == v / (128 * p)
  {
    var q, r := v / 128, v % 128;
    var a, b := q / p, q % p;
    assert v == (128 * p) * a + (128 * b + r);
    assert 128 * b + r < 128 * p;
    QuotientIs(v, 128 * p, a, 128 * b + r);
  }

  /** The digits of v to the base 128, the lowest first, and no more of them than needed; all
      bytes but the last have the high bit set. */
  lemma {:induction false} VarintDigits(v: nat, i: nat)
    requires i < |Varint(v)|
    ensures Varint(v)[i] == v / Pow128(i) % 128 + (if i < |Varint(v)| - 1 then 128 else 0)
    ensures i < |Varint(v)| - 1 <==> v / Pow128(i) >= 128
  {
    if i == 0 {
      assert Pow128(0) == 1;
    } else {
      VarintDigits(v / 128, i - 1);
      DivideTwice(v, Pow128(i - 1));
    }
  }

  method EncodeVarint32(v: nat) returns (b: Bytes)
    requires v < TWO_32
    ensures b == Varint(v)
  {
    var v7, v14, v21, v28 := v / 0x80, v / 0x4000, v / 0x20_0000, v / 0x1000_0000;
    assert v14 == v7 / 128 && v21 == v14 / 128 && v28 == v21 / 128 && v28 < 128;
    VarintUnfolded(v, v7, v14, v21, v28);
    if v < 0x80 {
      b := [v];
    } else if v < 0x4000 {
      b := [v % 128 + 128, v7];
    } else if v < 0x20_0000 {
      b := [v % 128 + 128, v7 % 128 + 128, v14];
    } else if v < 0x1000_0000 {
      b := [v % 128 + 128, v7 % 128 + 128, v14 % 128 + 128, v21];
    } else {
      b := [v % 128 + 128, v7 % 128 + 128, v14 % 128 + 128, v21 % 128 + 128, v28];
    }
  }

  lemma Varint32Short(v: nat)
    requires v < TWO_32
    ensures |Varint(v)| <= 5
  {
    VarintUnfolded(v, v / 128, v / 128 / 128, v / 128 / 128 / 128, v / 128 / 128 / 128 / 128);
  }

  lemma Varint64Short(v: nat)
    requires v < TWO_64
    ensures |Varint(v)| <= 10
  {
    var high := v / 0x8_0000_0000;
    var v7, v14, v21, v28 := v / 128, v / 128 / 128, v / 128 / 128 / 128, v / 128 / 128 / 128 / 128;
    assert v28 / 128 == high && high < TWO_32;
    Varint32Short(high);
    assert v28 >= 128 ==> |Varint(v28)| == 1 + |Varint(high)|;
    assert v21 >= 128 ==> |Varint(v21)| == 1 + |Varint(v28)|;
    assert v14 >= 128 ==> |Varint(v14)| == 1 + |Varint(v21)|;
    assert v7 >= 128 ==> |Varint(v7)| == 1 + |Varint(v14)|;
  }

  /** What is left of the input after a value has been taken off its front. */
  datatype Taken<+T> = Taken(value: T, rest: Bytes)

  /** The decoding loop: i bytes consumed, place is the weight of the next byte. */
  function VarintFrom(input: Bytes, i: nat, place: nat, result: nat, maxBytes: nat, modulus: nat): (t: Option<Taken<nat>>)
    requires modulus > 0
    ensures t.Some? ==> |t.value.rest| < |input|
    decreases |input|
  {
    if i >= maxBytes || input == [] then None
    else
      var next := result + input[0] % 128 * place % modulus;
      if input[0] >= 128 then VarintFrom(input[1..], i + 1, place * 128, next, maxBytes, modulus)
      else Some(Taken(next, input[1..]))
  }

  function GetVarint32(input: Bytes): (t: Option<Taken<nat>>)
    ensures t.Some? ==> |t.value.rest| < |input|
  {
    VarintFrom(input, 0, 1, 0, 5, TWO_32)
  }

  function GetVarint64(input: Bytes): (t: Option<Taken<nat>>)
    ensures t.Some? ==> |t.value.rest| < |input|
  {
    VarintFrom(input, 0, 1, 0, 10, TWO_64)
  }

  lemma Distribute(low: nat, high: nat, place: nat)
    ensures (low + 128 * high) * place == low * place + high * (128 * place)
  {
  }

  lemma AtLeastOnce(high: nat, unit: nat)
    requires high >= 1
    ensures high * unit >= unit
  {
    assert (high - 1) * unit >= 0;
  }

  lemma PlaceValue(v: nat, place: nat, modulus: nat)
    requires v >= 128 && place > 0 && v * place < modulus
    ensures v * place == v % 128 * place + v / 128 * (128 * place)
    ensures v % 128 * place < modulus && v / 128 * (128 * place) < modulus && 128 * place < modulus
  {
    var low, high := v % 128, v / 128;
    assert v == low + 128 * high;
    Distribute(low, high, place);
    AtLeastOnce(high, 128 * place);
    var lows: nat := low * place;
  }

  /** One byte of the decoding loop, when it contributes digit without overflow. */
  lemma VarintStep(input: Bytes, i: nat, place: nat, result: nat, maxBytes: nat, modulus: nat, digit: nat)
    requires modulus > 0 && i < maxBytes && input != [] && digit == input[0] % 128 * place < modulus
    ensures VarintFrom(input, i, place, result, maxBytes, modulus) ==
      if input[0] >= 128 then VarintFrom(input[1..], i + 1, place * 128, result + digit, maxBytes, modulus)
      else Some(Taken(result + digit, input[1..]))
  {
    assert digit % modulus == digit;
  }

  /** A value that fits is decoded whatever follows it. */
  lemma {:induction false} VarintDecodes(v: nat, rest: Bytes, i: nat, place: nat, result: nat, maxBytes: nat, modulus: nat)
    requires place == Pow128(i) && v * place < modulus <= Pow128(maxBytes) && i < maxBytes
    ensures VarintFrom(Varint(v) + rest, i, place, result, maxBytes, modulus) == Some(Taken(result + v * place, rest))
    decreases v
  {
    var input := Varint(v) + rest;
    var digit := v % 128 * place;
    if v < 128 {
      assert input[0] == v && input[1..] == rest;
      VarintStep(input, i, place, result, maxBytes, modulus, digit);
    } else {
      PlaceValue(v, place, modulus);
      var high, total := v / 128, v * place;
      assert total == digit + high * (128 * place);
      assert Pow128(i + 1) == 128 * place;
      assert input[0] == v % 128 + 128 && input[1..] == Varint(high) + rest;
      VarintStep(input, i, place, result, maxBytes, modulus, digit);
      VarintDecodes(high, rest, i + 1, 128 * place, result + digit, maxBytes, modulus);
    }
  }

  lemma Varint32RoundTrip(v: nat, rest: Bytes)
    requires v < TWO_32
    ensures GetVarint32(Varint(v) + rest) == Some(Taken(v, rest))
  {
    assert Pow128(5) == 0x8_0000_0000;
    VarintDecodes(v, rest, 0, 1, 0, 5, TWO_32);
  }

  lemma Varint64RoundTrip(v: nat, rest: Bytes)
    requires v < TWO_64
    ensures GetVarint64(Varint(v) + rest) == Some(Taken(v, rest))
  {
    assert Pow128(5) == 0x8_0000_0000;
    assert Pow128(10) == 0x40_0000_0000_0000_0000;
    VarintDecodes(v, rest, 0, 1, 0, 10, TWO_64);
  }

  // ----- length-prefixed strings

  function LengthPrefixed(s: Bytes): Bytes {
    Varint(|s|) + s
  }

  lemma ShortVarint(v: nat)
    requires v < 128
    ensures Varint(v) == [v]
  {
  }

  lemma ShortPrefixed(s: Bytes)
    requires |s| < 128
    ensures LengthPrefixed(s) == [|s|] + s
  {
  }

  function GetLengthPrefixed(input: Bytes): (t: Option<Taken<Bytes>>)
    ensures t.Some? ==> |t.value.rest| < |input|
  {
    match GetVarint32(input)
    case Some(t) => if |t.rest| >= t.value then Some(Taken(t.rest[..t.value], t.rest[t.value..])) else None
    case None => None
  }

  lemma LengthPrefixedRoundTrip(s: Bytes, rest: Bytes)
    requires |s| < TWO_32
    ensures GetLengthPrefixed(LengthPrefixed(s) + rest) == Some(Taken(s, rest))
  {
    assert LengthPrefixed(s) + rest == Varint(|s|) + (s + rest);
    Varint32RoundTrip(|s|, s + rest);
    assert (s + rest)[..|s|] == s && (s + rest)[|s|..] == rest;
  }

  // ----- stored checksums

  const MASK_DELTA: nat := 0xa282ead8

  /** Rotates right by 15 bits and adds a constant, modulo 2^32. */
  function Mask(crc: nat): (m: nat)
    requires crc < TWO_32
    ensures m < TWO_32
  {
    (crc / 0x8000 + crc % 0x8000 * 0x2_0000 + MASK_DELTA) % TWO_32
  }

  function Unmask(masked: nat): (crc: nat)
    requires masked < TWO_32
    ensures crc < TWO_32
  {
    var rot := (masked + TWO_32 - MASK_DELTA) % TWO_32;
    rot / 0x2_0000 + rot % 0x2_0000 * 0x8000
  }

  lemma UnmaskInvertsMask(crc: nat)
    requires crc < TWO_32
    ensures Unmask(Mask(crc)) == crc
  {
    var hi, lo := crc / 0x8000, crc % 0x8000;
    var rot := hi + lo * 0x2_0000;
    assert hi < 0x2_0000 && rot < TWO_32;
    assert (Mask(crc) + TWO_32 - MASK_DELTA) % TWO_32 == rot;
    assert rot / 0x2_0000 == lo && rot % 0x2_0000 == hi;
  }

  /** Taking off the constant leaves the checksum with its low fifteen bits moved to the top. */
  lemma MaskRotates(crc: nat)
    requires crc < TWO_32
    ensures (Mask(crc) + 0x5d7d_1528) % 0x1_0000_0000 == 0x2_0000 * (crc % 0x8000) + crc / 0x8000
  {
    assert crc / 0x8000 < 0x2_0000;
    assert crc % 0x8000 * 0x2_0000 + crc / 0x8000 < TWO_32;
  }

  lemma MaskInvertsUnmask(masked: nat)
    requires masked < TWO_32
    ensures Mask(Unmask(masked)) == masked
  {
    var rot := (masked + TWO_32 - MASK_DELTA) % TWO_32;
    var hi, lo := rot / 0x2_0000, rot % 0x2_0000;
    assert rot == hi * 0x2_0000 + lo && hi < 0x8000;
    assert Unmask(masked) / 0x8000 == lo && Unmask(masked) % 0x8000 == hi;
    assert (rot + MASK_DELTA) % TWO_32 == masked;
  }
}
