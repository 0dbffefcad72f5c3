/** The wire format as a reader without the descriptor sees it: keys, and values that their wire
    type alone delimits. */
module PbFormat {
  import opened Keys
  import opened Coding
  import opened PbWire
  import opened PbMessages

  // ----- values by wire type

  /** Bytes with the high bit set, and a last one without. */
  predicate IsVarint(b: Bytes) {
    && b != []
    && b[|b| - 1] < 128
    && forall i | 0 <= i < |b| - 1 :: b[i] >= 128
  }

  ghost predicate IsPrefixed(b: Bytes) {
    exists body :: b == LengthPrefixed(body)
  }

  /** How far a value reaches: wire type 0 is a varint, 1 has eight bytes, 2 a length and as many
      bytes, 5 has four bytes. */
  ghost predicate IsWireValue(wireType: nat, b: Bytes) {
    || (wireType == 0 && IsVarint(b))
    || (wireType == 1 && |b| == 8)
    || (wireType == 2 && IsPrefixed(b))
    || (wireType == 5 && |b| == 4)
  }

  lemma {:induction false} VarintIsOne(n: nat)
    ensures IsVarint(Varint(n))
  {
    if n >= 128 {
      VarintIsOne(n / 128);
      var b, c := Varint(n), Varint(n / 128);
      forall i | 0 <= i < |b| - 1
        ensures b[i] >= 128
      {
        assert i > 0 ==> b[i] == c[i - 1];
      }
    }
  }

  /** A varint tells where it ends. */
  lemma VarintEnds(a: Bytes, x: Bytes, b: Bytes, y: Bytes)
    requires IsVarint(a) && IsVarint(b) && a + x == b + y
    ensures a == b && x == y
  {
    assert forall i | 0 <= i < |a| :: a[i] == (b + y)[i];
    assert forall i | 0 <= i < |b| :: b[i] == (a + x)[i];
    SameFront(a, x, b, y);
  }

  lemma SameFront(a: Bytes, x: Bytes, b: Bytes, y: Bytes)
    requires a + x == b + y && |a| == |b|
    ensures a == b && x == y
  {
    assert a == (a + x)[..|a|] && b == (b + y)[..|b|];
    assert x == (a + x)[|a|..] && y == (b + y)[|b|..];
  }

  lemma NumberOfVarint(m: nat, n: nat)
    requires m < TWO_32 && n < TWO_32 && Varint(m) == Varint(n)
    ensures m == n
  {
    hide Varint, GetVarint32;
    Varint32RoundTrip(m, []);
    Varint32RoundTrip(n, []);
  }

  lemma PrefixedEnds(p: Bytes, x: Bytes, q: Bytes, y: Bytes)
    requires LengthPrefixed(p) + x == LengthPrefixed(q) + y && |p| < TWO_32 && |q| < TWO_32
    ensures p == q && x == y
  {
    hide Varint, IsVarint;
    VarintIsOne(|p|);
    VarintIsOne(|q|);
    assert LengthPrefixed(p) + x == Varint(|p|) + (p + x);
    assert LengthPrefixed(q) + y == Varint(|q|) + (q + y);
    VarintEnds(Varint(|p|), p + x, Varint(|q|), q + y);
    NumberOfVarint(|p|, |q|);
    SameFront(p, x, q, y);
  }

  /** A value tells where it ends. */
  lemma ValueEnds(wireType: nat, a: Bytes, x: Bytes, b: Bytes, y: Bytes)
    requires IsWireValue(wireType, a) && IsWireValue(wireType, b) && a + x == b + y
    requires |a| < TWO_32 && |b| < TWO_32
    ensures a == b && x == y
  {
    hide IsVarint, LengthPrefixed;
    if wireType == 0 {
      VarintEnds(a, x, b, y);
    } else if wireType == 2 {
      var p :| a == LengthPrefixed(p);
      var q :| b == LengthPrefixed(q);
      PrefixLonger(p);
      PrefixLonger(q);
      PrefixedEnds(p, x, q, y);
    } else {
      SameFront(a, x, b, y);
    }
  }

  lemma PrefixLonger(p: Bytes)
    ensures |p| < |LengthPrefixed(p)|
  {
  }

  // ----- what the encoder writes, seen so

  /** A value takes exactly the bytes that its wire type says. */
  lemma EncodingIsValue(f: Field, v: Value)
    requires Typed(f, v) && Encoding(f, v).Some?
    ensures IsWireValue(WireType(f.kind), Encoding(f, v).value)
  {
    hide Varint, IsVarint, LengthPrefixed, Fixed32, Fixed64, MessageEncoding, StringLength, TypedMessage;
    match f.kind
    case VarintKind => VarintIsOne(v.n % TWO_64);
    case UVarintKind => VarintIsOne(v.n);
    case SVarintKind => VarintIsOne(ZigZag(v.n));
    case Fixed32Kind => Fixed32Length(v.n);
    case Fixed64Kind => Fixed64Length(v.n);
    case BytesKind => Prefixed(v.bytes[..v.size]);
    case StringKind => Prefixed(v.chars[..StringLength(v.chars)]);
    case FixedBytesKind => Prefixed(v.chars);
    case SubmessageKind(fields) => Prefixed(MessageEncoding(fields, v, 0).value);
  }

  lemma Fixed32Length(n: nat)
    requires n < TWO_32
    ensures |Fixed32(n)| == 4
  {
  }

  lemma Fixed64Length(n: nat)
    requires n < TWO_64
    ensures |Fixed64(n)| == 8
  {
  }

  lemma Prefixed(body: Bytes)
    ensures IsPrefixed(LengthPrefixed(body))
  {
  }

  /** The key of a single value is one byte when its tag is small: eight times the tag, and 0 for
      integers, 5 and 1 for fixed sizes of four and eight bytes, 2 for all that has a length. */
  lemma KeyByte(f: Field, d: Data)
    requires TypedData(f, d) && f.rule.Required? && 0 < f.tag < 16 && FieldEncoding(f, d).Some?
    ensures FieldEncoding(f, d).value != []
    ensures FieldEncoding(f, d).value[0] == 8 * f.tag +
      match f.kind
      case VarintKind | UVarintKind | SVarintKind => 0
      case Fixed64Kind => 1
      case BytesKind | StringKind | SubmessageKind(_) | FixedBytesKind => 2
      case Fixed32Kind => 5
  {
    hide Encoding, Typed;
  }

  // ----- fields

  datatype WireField = WireField(tag: nat, wireType: nat, value: Bytes)

  function FieldBytes(x: WireField): Bytes {
    Tag(x.tag, x.wireType) + x.value
  }

  ghost predicate IsWireField(x: WireField) {
    0 < x.tag < 0x2000_0000 && IsWireValue(x.wireType, x.value)
  }

  ghost function WireBytes(xs: seq<WireField>): Bytes {
    if xs == [] then [] else FieldBytes(xs[0]) + WireBytes(xs[1..])
  }

  ghost predicate AllWireFields(xs: seq<WireField>) {
    forall i | 0 <= i < |xs| :: IsWireField(xs[i])
  }

  predicate HasTag(fields: seq<Field>, tag: nat) {
    exists k | 0 <= k < |fields| :: fields[k].tag == tag
  }

  /** Those of the fields that the descriptor has. */
  ghost function Known(fields: seq<Field>, xs: seq<WireField>): seq<WireField> {
    if xs == [] then []
    else (if HasTag(fields, xs[0].tag) then [xs[0]] else []) + Known(fields, xs[1..])
  }

  /** Two ways to see the same bytes as a field and more agree. */
  lemma FieldEnds(x: WireField, more: Bytes, y: WireField, rest: Bytes)
    requires IsWireField(x) && IsWireField(y) && FieldBytes(x) + more == FieldBytes(y) + rest
    requires |x.value| < TWO_32 && |y.value| < TWO_32
    ensures x == y && more == rest
  {
    hide IsWireValue, Varint, IsVarint;
    var kx, ky := x.tag * 8 + x.wireType, y.tag * 8 + y.wireType;
    WireTypes(x);
    WireTypes(y);
    VarintIsOne(kx);
    VarintIsOne(ky);
    assert FieldBytes(x) + more == Varint(kx) + (x.value + more);
    assert FieldBytes(y) + rest == Varint(ky) + (y.value + rest);
    VarintEnds(Varint(kx), x.value + more, Varint(ky), y.value + rest);
    NumberOfVarint(kx, ky);
    ValueEnds(x.wireType, x.value, more, y.value, rest);
  }

  lemma WireTypes(x: WireField)
    requires IsWireField(x)
    ensures x.wireType < 8
  {
  }

  lemma {:induction false} WireBytesJoin(xs: seq<WireField>, ys: seq<WireField>)
    ensures WireBytes(xs + ys) == WireBytes(xs) + WireBytes(ys)
  {
    if xs == [] {
      assert xs + ys == ys;
    } else {
      assert (xs + ys)[1..] == xs[1..] + ys;
      WireBytesJoin(xs[1..], ys);
    }
  }

  lemma {:induction false} AllKnown(fields: seq<Field>, xs: seq<WireField>)
    requires forall i | 0 <= i < |xs| :: HasTag(fields, xs[i].tag)
    ensures Known(fields, xs) == xs
  {
    if xs != [] {
      AllKnown(fields, xs[1..]);
    }
  }

  // ----- an encoding as a list of fields

  lemma OneWireField(f: Field, v: Value) returns (x: WireField)
    requires Typed(f, v) && Encoding(f, v).Some? && 0 < f.tag < 0x2000_0000
    ensures IsWireField(x) && x.tag == f.tag && FieldBytes(x) == Tag(f.tag, WireType(f.kind)) + Encoding(f, v).value
  {
    hide Encoding, IsWireValue;
    EncodingIsValue(f, v);
    x := WireField(f.tag, WireType(f.kind), Encoding(f, v).value);
  }

  lemma Singly(x: WireField)
    ensures WireBytes([x]) == FieldBytes(x)
  {
    assert [x][1..] == [];
    assert FieldBytes(x) + [] == FieldBytes(x);
  }

  lemma {:induction false} ItemFields(f: Field, vs: seq<Value>, i: nat) returns (xs: seq<WireField>)
    requires i <= |vs| && (forall k | 0 <= k < |vs| :: Typed(f, vs[k])) && 0 < f.tag < 0x2000_0000
    requires ItemsEncoding(f, vs, i, true).Some?
    ensures AllWireFields(xs) && (forall n | 0 <= n < |xs| :: xs[n].tag == f.tag)
    ensures WireBytes(xs) == ItemsEncoding(f, vs, i, true).value
    decreases |vs| - i
  {
    hide Encoding, IsWireField, Tag, Typed;
    if i == |vs| {
      xs := [];
    } else {
      var x := OneWireField(f, vs[i]);
      var rest := ItemFields(f, vs, i + 1);
      xs := [x] + rest;
      assert xs[1..] == rest;
    }
  }

  lemma FieldFields(f: Field, d: Data) returns (xs: seq<WireField>)
    requires TypedData(f, d) && FieldEncoding(f, d).Some? && 0 < f.tag < 0x2000_0000
    ensures AllWireFields(xs) && (forall n | 0 <= n < |xs| :: xs[n].tag == f.tag)
    ensures WireBytes(xs) == FieldEncoding(f, d).value
  {
    hide Encoding, IsWireField, Tag, Typed, ItemsEncoding, LengthPrefixed;
    xs := [];
    if FieldEncoding(f, d).value == [] {
      return;
    }
    if f.rule.Repeated? {
      var vs := d.values[..d.count];
      if Packable(f.kind) {
        var body := ItemsEncoding(f, vs, 0, false).value;
        var x := WireField(f.tag, WT_STRING, LengthPrefixed(body));
        PackedField(x, body);
        Singly(x);
        xs := [x];
      } else {
        xs := ItemFields(f, vs, 0);
      }
    } else {
      var x := OneWireField(f, d.value);
      Singly(x);
      xs := [x];
    }
  }

  lemma PackedField(x: WireField, body: Bytes)
    requires 0 < x.tag < 0x2000_0000 && x.wireType == WT_STRING && x.value == LengthPrefixed(body)
    ensures IsWireField(x)
  {
    Prefixed(body);
  }

  /** An encoding is a list of fields of the descriptor. */
  lemma {:induction false} MessageFields(fields: seq<Field>, m: Value, k: nat) returns (xs: seq<WireField>)
    requires Legal(fields) && TypedMessage(fields, m) && k <= |fields| && MessageEncoding(fields, m, k).Some?
    ensures AllWireFields(xs) && WireBytes(xs) == MessageEncoding(fields, m, k).value && Known(fields, xs) == xs
    decreases |fields| - k
  {
    hide FieldEncoding, IsWireField, TypedData, LegalKind;
    if k == |fields| {
      xs := [];
    } else {
      var first := FieldFields(fields[k], m.slots[fields[k].slot]);
      var rest := MessageFields(fields, m, k + 1);
      forall i | 0 <= i < |first|
        ensures HasTag(fields, first[i].tag)
      {
        assert fields[k].tag == first[i].tag;
      }
      AllKnown(fields, first);
      KnownJoin(fields, first, rest);
      WireBytesJoin(first, rest);
      xs := first + rest;
    }
  }

  lemma {:induction false} KnownJoin(fields: seq<Field>, xs: seq<WireField>, ys: seq<WireField>)
    ensures Known(fields, xs + ys) == Known(fields, xs) + Known(fields, ys)
  {
    hide HasTag;
    if xs == [] {
      assert xs + ys == ys;
    } else {
      assert (xs + ys)[1..] == xs[1..] + ys;
      KnownJoin(fields, xs[1..], ys);
    }
  }
}
