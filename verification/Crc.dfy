/** The checksum CRC-32C (section 12.1 of RFC 3720), byte by byte and in four interleaved strides.
    Registers and bytes are written as their bits, lowest first, so that the bytes of a little-endian
    word simply follow each other. */
module Crc {

  type Bits = seq<bool>
  type Word = w: Bits | |w| == 32 witness seq(32, _ => false)
  type Octet = b: Bits | |b| == 8 witness seq(8, _ => false)

  function Zeros(n: nat): (z: Bits)
    ensures |z| == n && forall i | 0 <= i < n :: !z[i]
  {
    seq(n, _ => false)
  }

  function Xor(a: Bits, b: Bits): (r: Bits)
    requires |a| == |b|
    ensures |r| == |a| && forall i | 0 <= i < |r| :: r[i] == (a[i] != b[i])
  {
    seq(|a|, i requires 0 <= i < |a| => a[i] != b[i])
  }

  /** 0x82f63b78, lowest bit first. Only the check value and the residue depend on which polynomial it is. */
  const POLYNOMIAL: Word := [
    false, false, false, true, true, true, true, false,
    true, true, false, true, true, true, false, false,
    false, true, true, false, true, true, true, true,
    false, true, false, false, false, false, false, true]

  // ----- shifting a register

  /** One zero bit more. */
  function Bit(x: Word): Word {
    Xor(x[1..] + [false], if x[0] then POLYNOMIAL else Zeros(32))
  }

  /** The register after n zero bits more. */
  function Advance(x: Word, n: nat): Word
    decreases n
  {
    if n == 0 then x else Advance(Bit(x), n - 1)
  }

  lemma BitXor(x: Word, y: Word)
    ensures Bit(Xor(x, y)) == Xor(Bit(x), Bit(y))
  {
    assert Xor(x, y)[0] == (x[0] != y[0]);
    hide POLYNOMIAL;
  }

  lemma {:induction false} AdvanceXor(x: Word, y: Word, n: nat)
    ensures Advance(Xor(x, y), n) == Xor(Advance(x, n), Advance(y, n))
    decreases n
  {
    hide Bit, Xor;
    if n > 0 {
      BitXor(x, y);
      AdvanceXor(Bit(x), Bit(y), n - 1);
    }
  }

  lemma {:induction false} AdvanceMore(x: Word, m: nat, n: nat)
    ensures Advance(x, m + n) == Advance(Advance(x, m), n)
    decreases m
  {
    hide Bit;
    if m > 0 {
      AdvanceMore(Bit(x), m - 1, n);
    }
  }

  lemma EvenBit(x: Word)
    requires !x[0]
    ensures Bit(x) == x[1..] + [false]
  {
    hide POLYNOMIAL;
  }

  lemma AdvanceOne(x: Word, n: nat)
    ensures Advance(x, n + 1) == Advance(Bit(x), n)
  {
  }

  lemma AdvanceNone(l: Word)
    ensures Advance(l, 0) == l
  {
  }

  /** Bits that are zero are shifted out. */
  lemma {:induction false} ShiftOut(x: Word, n: nat)
    requires n <= 32 && forall i | 0 <= i < n :: !x[i]
    ensures Advance(x, n) == x[n..] + Zeros(n)
    decreases n
  {
    hide Bit, Advance;
    if n > 0 {
      EvenBit(x);
      AdvanceOne(x, n - 1);
      ShiftOut(Bit(x), n - 1);
      assert Bit(x)[n-1..] == x[n..] + [false];
    } else {
      AdvanceNone(x);
    }
  }

  // ----- the tables

  /** A byte in place k of an otherwise zero word. */
  function At(c: Octet, k: nat): Word
    requires k < 4
  {
    Zeros(8 * k) + c + Zeros(24 - 8 * k)
  }

  /** What the low byte of a register contributes after eight bits. */
  function ByteExtension(c: Octet): Word {
    Advance(At(c, 0), 8)
  }

  /** What byte k of a register contributes after sixteen bytes. */
  function StrideExtension(k: nat, c: Octet): Word
    requires k < 4
  {
    Advance(At(c, k), 128)
  }

  /** One byte of data. */
  function Step(l: Word, b: Octet): Word {
    Xor(ByteExtension(Xor(l[..8], b)), l[8..] + Zeros(8))
  }

  function Fold(l: Word, data: seq<Octet>): Word {
    if data == [] then l else Step(Fold(l, data[..|data|-1]), data[|data|-1])
  }

  lemma {:induction false} FoldAppend(l: Word, a: seq<Octet>, b: seq<Octet>)
    ensures Fold(l, a + b) == Fold(Fold(l, a), b)
  {
    hide Step;
    if b == [] {
      assert a + b == a;
    } else {
      FoldAppend(l, a, b[..|b|-1]);
      assert (a + b)[..|a + b|-1] == a + b[..|b|-1];
    }
  }

  /** The table and the shift together advance the register by eight bits. */
  lemma LowAndHigh(y: Word)
    ensures Advance(y, 8) == Xor(ByteExtension(y[..8]), y[8..] + Zeros(8))
  {
    hide Bit, Advance, Xor, POLYNOMIAL;
    var high: Word := Zeros(8) + y[8..];
    assert Xor(At(y[..8], 0), high) == y;
    AdvanceXor(At(y[..8], 0), high, 8);
    assert high[..8] == Zeros(8);
    ShiftOut(high, 8);
    assert high[8..] == y[8..];
  }

  lemma StepAdvances(l: Word, b: Octet)
    ensures Step(l, b) == Advance(Xor(l, At(b, 0)), 8)
  {
    hide Bit, Advance, POLYNOMIAL;
    var y := Xor(l, At(b, 0));
    LowAndHigh(y);
    assert y[..8] == Xor(l[..8], b);
    assert y[8..] == l[8..];
  }

  /** A byte that comes after k others might as well have been in place k before them. */
  lemma ByteInPlace(x: Word, k: nat, b: Octet)
    requires k < 4
    ensures Step(Advance(x, 8 * k), b) == Advance(Xor(x, At(b, k)), 8 * k + 8)
  {
    hide Bit, Advance, Xor, POLYNOMIAL;
    StepAdvances(Advance(x, 8 * k), b);
    assert At(b, k)[..8 * k] == Zeros(8 * k);
    ShiftOut(At(b, k), 8 * k);
    assert At(b, k)[8 * k..] + Zeros(8 * k) == At(b, 0);
    AdvanceXor(x, At(b, k), 8 * k);
    AdvanceMore(Xor(x, At(b, k)), 8 * k, 8);
  }

  /** One word of data. */
  function WordStep(l: Word, w: Word): Word {
    Advance(Xor(l, w), 32)
  }

  function Joined(b: seq<Octet>): Word
    requires |b| == 4
  {
    seq(32, i requires 0 <= i < 32 => b[i / 8][i % 8])
  }

  function ReadWord(data: seq<Octet>, p: nat): Word
    requires p + 4 <= |data|
  {
    Joined([data[p], data[p+1], data[p+2], data[p+3]])
  }

  lemma FoldFour(l: Word, data: seq<Octet>)
    requires |data| == 4
    ensures Fold(l, data) == Step(Step(Step(Step(l, data[0]), data[1]), data[2]), data[3])
  {
    hide Step;
    assert data[..3][..2] == data[..2] && data[..2][..1] == data[..1] && data[..1][..0] == [];
    assert Fold(l, data[..1]) == Step(l, data[0]);
    assert Fold(l, data[..2]) == Step(Fold(l, data[..1]), data[1]);
    assert Fold(l, data[..3]) == Step(Fold(l, data[..2]), data[2]);
  }

  lemma FourBytes(l: Word, data: seq<Octet>)
    requires |data| == 4
    ensures Fold(l, data) == WordStep(l, ReadWord(data, 0))
  {
    hide Step, Advance, Xor, POLYNOMIAL;
    var x1 := Xor(l, At(data[0], 0));
    var x2 := Xor(x1, At(data[1], 1));
    var x3 := Xor(x2, At(data[2], 2));
    var x4 := Xor(x3, At(data[3], 3));
    ByteInPlace(l, 0, data[0]);
    ByteInPlace(x1, 1, data[1]);
    ByteInPlace(x2, 2, data[2]);
    ByteInPlace(x3, 3, data[3]);
    AdvanceNone(l);
    FoldFour(l, data);
    assert x4 == Xor(l, ReadWord(data, 0));
  }

  // ----- four strides

  /** Byte k of a word. */
  function ByteOf(w: Word, k: nat): Octet
    requires k < 4
  {
    w[8 * k..8 * k + 8]
  }

  /** One word of one of the four strides: the register is advanced past the words of the others. */
  function Stride(crc: Word, w: Word): Word {
    Xor(w, Xor(StrideExtension(0, ByteOf(crc, 0)),
           Xor(StrideExtension(1, ByteOf(crc, 1)),
           Xor(StrideExtension(2, ByteOf(crc, 2)), StrideExtension(3, ByteOf(crc, 3))))))
  }

  lemma StrideAdvances(crc: Word, w: Word)
    ensures Stride(crc, w) == Xor(w, Advance(crc, 128))
  {
    hide Bit, Advance, Xor, POLYNOMIAL;
    var a, b, c, d := At(ByteOf(crc, 0), 0), At(ByteOf(crc, 1), 1), At(ByteOf(crc, 2), 2), At(ByteOf(crc, 3), 3);
    assert Xor(a, Xor(b, Xor(c, d))) == crc;
    AdvanceXor(a, Xor(b, Xor(c, d)), 128);
    AdvanceXor(b, Xor(c, d), 128);
    AdvanceXor(c, d, 128);
  }

  /** The four strides put together: as if their words were what is left to read. */
  function Combined(c0: Word, c1: Word, c2: Word, c3: Word): Word {
    WordStep(WordStep(WordStep(WordStep(Zeros(32), c0), c1), c2), c3)
  }

  lemma XorZero(x: Word)
    ensures Xor(Zeros(32), x) == x
  {
  }

  lemma WordStepIs(l: Word, w: Word)
    ensures WordStep(l, w) == Xor(Advance(l, 32), Advance(w, 32))
  {
    AdvanceXor(l, w, 32);
  }

  lemma FirstWord(c0: Word)
    ensures WordStep(Zeros(32), c0) == Advance(c0, 32)
  {
    hide Advance;
    XorZero(c0);
  }

  lemma XorFour(a: Word, b: Word, c: Word, d: Word)
    ensures Xor(Xor(Xor(a, b), c), d) == Xor(a, Xor(b, Xor(c, d)))
  {
    hide Xor;
  }

  /** The strides are independent. */
  lemma CombinedIs(c0: Word, c1: Word, c2: Word, c3: Word)
    ensures Combined(c0, c1, c2, c3)
         == Xor(Advance(c0, 128), Xor(Advance(c1, 96), Xor(Advance(c2, 64), Advance(c3, 32))))
  {
    hide Bit, Advance, Xor, POLYNOMIAL, WordStep;
    XorZero(c0);
    var s0, s1 := Advance(c0, 32), Xor(Advance(c0, 64), Advance(c1, 32));
    FirstWord(c0);
    WordStepIs(s0, c1);
    AdvanceMore(c0, 32, 32);
    WordStepIs(s1, c2);
    AdvanceXor(Advance(c0, 64), Advance(c1, 32), 32);
    AdvanceMore(c0, 64, 32);
    AdvanceMore(c1, 32, 32);
    var s2 := Xor(Xor(Advance(c0, 96), Advance(c1, 64)), Advance(c2, 32));
    WordStepIs(s2, c3);
    AdvanceXor(Xor(Advance(c0, 96), Advance(c1, 64)), Advance(c2, 32), 32);
    AdvanceXor(Advance(c0, 96), Advance(c1, 64), 32);
    AdvanceMore(c0, 96, 32);
    AdvanceMore(c1, 64, 32);
    AdvanceMore(c2, 32, 32);
    XorFour(Advance(c0, 128), Advance(c1, 96), Advance(c2, 64), Advance(c3, 32));
  }

  lemma XorTurn(a: Word, b: Word, c: Word, d: Word, w: Word)
    ensures Xor(Xor(a, Xor(b, Xor(c, d))), w) == Xor(b, Xor(c, Xor(d, Xor(w, a))))
  {
    hide Xor;
  }

  /** One more word, taken by the stride whose turn it is. */
  lemma WordTaken(c0: Word, c1: Word, c2: Word, c3: Word, w: Word)
    ensures WordStep(Combined(c0, c1, c2, c3), w) == Combined(c1, c2, c3, Stride(c0, w))
  {
    hide Bit, Advance, Xor, POLYNOMIAL, WordStep, Combined, Stride;
    CombinedIs(c0, c1, c2, c3);
    StrideAdvances(c0, w);
    CombinedIs(c1, c2, c3, Stride(c0, w));
    var a, b, c, d := Advance(c0, 128), Advance(c1, 96), Advance(c2, 64), Advance(c3, 32);
    WordStepIs(Xor(a, Xor(b, Xor(c, d))), w);
    AdvanceXor(a, Xor(b, Xor(c, d)), 32);
    AdvanceXor(b, Xor(c, d), 32);
    AdvanceXor(c, d, 32);
    AdvanceMore(c1, 96, 32);
    AdvanceMore(c2, 64, 32);
    AdvanceMore(c3, 32, 32);
    AdvanceXor(w, a, 32);
    XorTurn(Advance(a, 32), Advance(c1, 128), Advance(c2, 96), Advance(c3, 64), Advance(w, 32));
  }

  /** The first four words. */
  lemma FourWords(l: Word, w0: Word, w1: Word, w2: Word, w3: Word)
    ensures WordStep(WordStep(WordStep(WordStep(l, w0), w1), w2), w3) == Combined(Xor(w0, l), w1, w2, w3)
  {
    hide Advance, Xor;
    assert Xor(Zeros(32), Xor(w0, l)) == Xor(l, w0);
  }

  /** A swath of four words, one for each stride. */
  lemma SwathTaken(c0: Word, c1: Word, c2: Word, c3: Word, w0: Word, w1: Word, w2: Word, w3: Word)
    ensures WordStep(WordStep(WordStep(WordStep(Combined(c0, c1, c2, c3), w0), w1), w2), w3)
         == Combined(Stride(c0, w0), Stride(c1, w1), Stride(c2, w2), Stride(c3, w3))
  {
    hide Combined, Stride, WordStep;
    WordTaken(c0, c1, c2, c3, w0);
    WordTaken(c1, c2, c3, Stride(c0, w0), w1);
    WordTaken(c2, c3, Stride(c0, w0), Stride(c1, w1), w2);
    WordTaken(c3, Stride(c0, w0), Stride(c1, w1), Stride(c2, w2), w3);
  }

  // ----- extending a checksum

  function Ones(): Word {
    seq(32, _ => true)
  }

  /** The checksum of a followed by data, when crc is that of a. */
  function Crc(crc: Word, data: seq<Octet>): Word {
    Xor(Fold(Xor(crc, Ones()), data), Ones())
  }

  /** Extending by two strings in turn is extending by both. */
  lemma ExtendTwice(crc: Word, a: seq<Octet>, b: seq<Octet>)
    ensures Crc(Crc(crc, a), b) == Crc(crc, a + b)
  {
    hide Fold, Xor;
    FoldAppend(Xor(crc, Ones()), a, b);
    var l := Fold(Xor(crc, Ones()), a);
    assert Xor(Xor(l, Ones()), Ones()) == l;
  }

  lemma FoldByte(l: Word, data: seq<Octet>, p: nat)
    requires p < |data|
    ensures Fold(l, data[..p+1]) == Step(Fold(l, data[..p]), data[p])
  {
    hide Step;
    assert data[..p+1][..p] == data[..p];
  }

  lemma FoldWord(l: Word, data: seq<Octet>, p: nat)
    requires p + 4 <= |data|
    ensures Fold(l, data[..p+4]) == WordStep(Fold(l, data[..p]), ReadWord(data, p))
  {
    hide Fold, WordStep;
    var d := data[p..p+4];
    assert data[..p] + d == data[..p+4];
    FoldAppend(l, data[..p], d);
    FourBytes(Fold(l, data[..p]), d);
    assert ReadWord(d, 0) == ReadWord(data, p);
  }

  lemma FoldSwath(l: Word, data: seq<Octet>, p: nat)
    requires p + 16 <= |data|
    ensures Fold(l, data[..p+16]) == WordStep(WordStep(WordStep(WordStep(Fold(l, data[..p]),
      ReadWord(data, p)), ReadWord(data, p + 4)), ReadWord(data, p + 8)), ReadWord(data, p + 12))
  {
    hide Fold, WordStep, ReadWord;
    FoldWord(l, data, p);
    FoldWord(l, data, p + 4);
    FoldWord(l, data, p + 8);
    FoldWord(l, data, p + 12);
  }

  /** The last word of each stride, four bytes at a time. */
  method FinishStride(crc: Word, l: Word) returns (r: Word)
    ensures r == WordStep(l, crc)
  {
    hide Bit, Advance, Xor, ByteExtension, POLYNOMIAL;
    var w := Xor(crc, l);
    assert w == Xor(l, crc);
    ghost var start := w;
    AdvanceNone(w);
    for i := 0 to 4
      invariant w == Advance(start, 8 * i)
    {
      LowAndHigh(w);
      AdvanceMore(start, 8 * i, 8);
      w := Xor(w[8..] + Zeros(8), ByteExtension(w[..8]));
      assert w == Xor(ByteExtension(Advance(start, 8 * i)[..8]), Advance(start, 8 * i)[8..] + Zeros(8));
    }
    r := w;
  }

  lemma NothingFolded(l: Word, data: seq<Octet>)
    ensures Fold(l, data[..0]) == l
  {
  }

  lemma CombinedSteps(c0: Word, c1: Word, c2: Word, c3: Word)
    ensures Combined(c0, c1, c2, c3) == WordStep(WordStep(WordStep(WordStep(Zeros(32), c0), c1), c2), c3)
  {
    hide WordStep;
  }

  method Strides(l0: Word, data: seq<Octet>, p0: nat, ghost start: Word) returns (l: Word, p: nat)
    requires p0 + 16 <= |data| && l0 == Fold(start, data[..p0])
    ensures p0 <= p <= |data| && |data| - p < 4 && l == Fold(start, data[..p])
  {
    hide WordStep, Combined, Stride, Fold, Xor, ReadWord;
    p := p0;
    var crc0: Word := Xor(ReadWord(data, p), l0);
    var crc1: Word, crc2: Word, crc3: Word := ReadWord(data, p + 4), ReadWord(data, p + 8), ReadWord(data, p + 12);
    FoldSwath(start, data, p);
    FourWords(l0, ReadWord(data, p), crc1, crc2, crc3);
    p := p + 16;
    while |data| - p >= 16
      invariant p0 <= p <= |data| && Combined(crc0, crc1, crc2, crc3) == Fold(start, data[..p])
      decreases |data| - p
    {
      FoldSwath(start, data, p);
      SwathTaken(crc0, crc1, crc2, crc3, ReadWord(data, p), ReadWord(data, p + 4), ReadWord(data, p + 8), ReadWord(data, p + 12));
      crc0 := Stride(crc0, ReadWord(data, p));
      crc1 := Stride(crc1, ReadWord(data, p + 4));
      crc2 := Stride(crc2, ReadWord(data, p + 8));
      crc3 := Stride(crc3, ReadWord(data, p + 12));
      p := p + 16;
    }
    while |data| - p >= 4
      invariant p0 <= p <= |data| && Combined(crc0, crc1, crc2, crc3) == Fold(start, data[..p])
      decreases |data| - p
    {
      FoldWord(start, data, p);
      WordTaken(crc0, crc1, crc2, crc3, ReadWord(data, p));
      crc0 := Stride(crc0, ReadWord(data, p));
      crc0, crc1, crc2, crc3 := crc1, crc2, crc3, crc0;
      p := p + 4;
    }
    CombinedSteps(crc0, crc1, crc2, crc3);
    l := Zeros(32);
    l := FinishStride(crc0, l);
    l := FinishStride(crc1, l);
    l := FinishStride(crc2, l);
    l := FinishStride(crc3, l);
  }

  /** Bytes up to a word boundary, then swaths of sixteen bytes, words, and the bytes that are left. */
  method Extend(crc: Word, data: seq<Octet>, address: nat) returns (r: Word)
    ensures r == Crc(crc, data)
  {
    hide Step, WordStep, Combined, Stride, Fold, Xor, ReadWord;
    var l := Xor(crc, Ones());
    ghost var start := l;
    var p := 0;
    var lead := (4 - address % 4) % 4;
    NothingFolded(start, data);
    if lead <= |data| {
      while p != lead
        invariant p <= lead <= |data| && l == Fold(start, data[..p])
        decreases lead - p
      {
        FoldByte(start, data, p);
        l := Step(l, data[p]);
        p := p + 1;
      }
    }
    if |data| - p >= 16 {
      l, p := Strides(l, data, p, start);
    }
    while p != |data|
      invariant p <= |data| && l == Fold(start, data[..p])
      decreases |data| - p
    {
      FoldByte(start, data, p);
      l := Step(l, data[p]);
      p := p + 1;
    }
    assert data[..p] == data;
    r := Xor(l, Ones());
  }

  // ----- checksums as numbers

  predicate Has(x: bv32, m: bv32) {
    x & m != 0
  }

  /** One bit. */
  function Mask(i: nat): bv32 {
    match i
    case 0 => 0x1 case 1 => 0x2 case 2 => 0x4 case 3 => 0x8
    case 4 => 0x10 case 5 => 0x20 case 6 => 0x40 case 7 => 0x80
    case 8 => 0x100 case 9 => 0x200 case 10 => 0x400 case 11 => 0x800
    case 12 => 0x1000 case 13 => 0x2000 case 14 => 0x4000 case 15 => 0x8000
    case 16 => 0x10000 case 17 => 0x20000 case 18 => 0x40000 case 19 => 0x80000
    case 20 => 0x100000 case 21 => 0x200000 case 22 => 0x400000 case 23 => 0x800000
    case 24 => 0x1000000 case 25 => 0x2000000 case 26 => 0x4000000 case 27 => 0x8000000
    case 28 => 0x10000000 case 29 => 0x20000000 case 30 => 0x40000000 case 31 => 0x80000000
    case _ => 0
  }

  /** The bits of a number, lowest first. */
  function ToBits(x: bv32): Word {
    seq(32, i requires 0 <= i < 32 => Has(x, Mask(i)))
  }

  /** A byte, given as a number below 256. */
  function ToOctet(c: bv32): Octet {
    ToBits(c)[..8]
  }

  function Shifted(x: bv32): bv32 {
    if Has(x, Mask(0)) then (x >> 1) ^ 0x82f6_3b78 else x >> 1
  }

  function Shifted8(x: bv32): bv32 {
    Shifted(Shifted(Shifted(Shifted(Shifted(Shifted(Shifted(Shifted(x))))))))
  }

  lemma OneBit(x: bv32, y: bv32, m: bv32)
    requires m != 0 && m & (m - 1) == 0
    ensures Has(x ^ y, m) <==> Has(x, m) != Has(y, m)
  {
  }

  lemma SingleBit(i: nat)
    requires i < 32
    ensures Mask(i) != 0 && Mask(i) & (Mask(i) - 1) == 0
  {
  }

  lemma NotTop(i: nat)
    requires i < 31
    ensures Mask(i) & 0x8000_0000 == 0
  {
  }

  lemma NextLowMask(i: nat)
    requires i < 16
    ensures Mask(i + 1) == Mask(i) << 1
  {
  }

  lemma NextHighMask(i: nat)
    requires 16 <= i < 31
    ensures Mask(i + 1) == Mask(i) << 1
  {
  }

  lemma XorBits(x: bv32, y: bv32)
    ensures Xor(ToBits(x), ToBits(y)) == ToBits(x ^ y)
  {
    hide Has, Mask;
    forall i | 0 <= i < 32
      ensures Has(x ^ y, Mask(i)) <==> Has(x, Mask(i)) != Has(y, Mask(i))
    {
      SingleBit(i);
      OneBit(x, y, Mask(i));
    }
  }

  lemma PolynomialBits()
    ensures POLYNOMIAL == ToBits(0x82f6_3b78) && Zeros(32) == ToBits(0) && Ones() == ToBits(0xffff_ffff)
  {
  }

  lemma HalfBit(x: bv32, m: bv32, n: bv32)
    requires m & 0x8000_0000 == 0 && n == m << 1
    ensures Has(x >> 1, m) <==> Has(x, n)
  {
  }

  lemma TopBit(x: bv32)
    ensures !Has(x >> 1, Mask(31))
  {
  }

  lemma HalfBits(x: bv32)
    ensures ToBits(x)[1..] + [false] == ToBits(x >> 1) && (ToBits(x)[0] <==> Has(x, Mask(0)))
  {
    hide Has, Mask;
    forall i | 0 <= i < 31
      ensures Has(x >> 1, Mask(i)) <==> Has(x, Mask(i + 1))
    {
      NotTop(i);
      if i < 16 { NextLowMask(i); } else { NextHighMask(i); }
      HalfBit(x, Mask(i), Mask(i + 1));
    }
    TopBit(x);
  }

  lemma XorZeros(x: Word)
    ensures Xor(x, Zeros(32)) == x
  {
  }

  lemma BitShifts(x: bv32)
    ensures Bit(ToBits(x)) == ToBits(Shifted(x))
  {
    hide ToBits, Xor, POLYNOMIAL, Has, Mask;
    HalfBits(x);
    PolynomialBits();
    if Has(x, Mask(0)) {
      XorBits(x >> 1, 0x82f6_3b78);
    } else {
      XorZeros(ToBits(x >> 1));
    }
  }

  lemma AdvanceShifts(x: bv32)
    ensures Advance(ToBits(x), 8) == ToBits(Shifted8(x))
  {
    hide ToBits, Bit, Advance, Shifted;
    var x1 := Shifted(x);
    var x2 := Shifted(x1);
    var x3 := Shifted(x2);
    var x4 := Shifted(x3);
    var x5 := Shifted(x4);
    var x6 := Shifted(x5);
    var x7 := Shifted(x6);
    AdvanceOne(ToBits(x), 7);
    BitShifts(x);
    AdvanceOne(ToBits(x1), 6);
    BitShifts(x1);
    AdvanceOne(ToBits(x2), 5);
    BitShifts(x2);
    AdvanceOne(ToBits(x3), 4);
    BitShifts(x3);
    AdvanceOne(ToBits(x4), 3);
    BitShifts(x4);
    AdvanceOne(ToBits(x5), 2);
    BitShifts(x5);
    AdvanceOne(ToBits(x6), 1);
    BitShifts(x6);
    AdvanceOne(ToBits(x7), 0);
    BitShifts(x7);
    AdvanceNone(ToBits(Shifted(x7)));
  }

  lemma OctetInPlace(c: bv32)
    requires c & 0xffff_ff00 == 0
    ensures At(ToOctet(c), 0) == ToBits(c)
  {
  }

  lemma StepShifts(l: bv32, c: bv32)
    requires c & 0xffff_ff00 == 0
    ensures Step(ToBits(l), ToOctet(c)) == ToBits(Shifted8(l ^ c))
  {
    hide ToBits, Bit, Advance, Shifted8, Xor, At, ToOctet, Step;
    StepAdvances(ToBits(l), ToOctet(c));
    OctetInPlace(c);
    XorBits(l, c);
    AdvanceShifts(l ^ c);
  }

  lemma BytesJoined(c: Word)
    ensures ReadWord([ByteOf(c, 0), ByteOf(c, 1), ByteOf(c, 2), ByteOf(c, 3)], 0) == c
  {
  }

  lemma XorComplement(l: Word)
    ensures Xor(l, Xor(l, Ones())) == Ones()
  {
  }

  lemma OnesAdvanced()
    ensures Advance(Ones(), 32) == ToBits(0xb798_b438)
  {
    hide ToBits, Bit, Advance;
    PolynomialBits();
    AdvanceMore(ToBits(0xffff_ffff), 8, 24);
    AdvanceShifts(0xffff_ffff);
    AdvanceMore(ToBits(0xad82acae), 8, 16);
    AdvanceShifts(0xad82acae);
    AdvanceMore(ToBits(0x0e9e882d), 8, 8);
    AdvanceShifts(0x0e9e882d);
    AdvanceShifts(0x9f9b5c85);
  }

  /** Whatever the string, a checksum taken over it and its own four checksum bytes, low byte first,
      is one fixed word. */
  lemma Residue(crc: Word, data: seq<Octet>)
    ensures var c := Crc(crc, data);
      Crc(crc, data + [ByteOf(c, 0), ByteOf(c, 1), ByteOf(c, 2), ByteOf(c, 3)]) == ToBits(0x4867_4bc7)
  {
    hide ToBits, Bit, Advance, Fold, Xor, Shifted, Shifted8, Step, ReadWord, ByteOf;
    var c := Crc(crc, data);
    var own := [ByteOf(c, 0), ByteOf(c, 1), ByteOf(c, 2), ByteOf(c, 3)];
    var l := Fold(Xor(crc, Ones()), data);
    FoldAppend(Xor(crc, Ones()), data, own);
    FourBytes(l, own);
    BytesJoined(c);
    XorComplement(l);
    OnesAdvanced();
    PolynomialBits();
    XorBits(0xb798_b438, 0xffff_ffff);
  }

  lemma ByteTaken(data: seq<Octet>, l: bv32, c: bv32, l': bv32, i: nat)
    requires i < |data| && data[i] == ToOctet(c) && c & 0xffff_ff00 == 0 && l' == Shifted8(l ^ c)
    requires Fold(Ones(), data[..i]) == ToBits(l)
    ensures Fold(Ones(), data[..i+1]) == ToBits(l')
  {
    hide ToBits, Shifted8, Step, ToOctet;
    FoldByte(Ones(), data, i);
    StepShifts(l, c);
  }

  /** The check value: the checksum of the nine digits from 1 to 9 in ASCII. */
  lemma CheckValue()
    ensures Crc(Zeros(32), [ToOctet(0x31), ToOctet(0x32), ToOctet(0x33), ToOctet(0x34), ToOctet(0x35), ToOctet(0x36),
                            ToOctet(0x37), ToOctet(0x38), ToOctet(0x39)]) == ToBits(0xe306_9283)
  {
    hide ToBits, Fold, ToOctet, Xor;
    var data := [ToOctet(0x31), ToOctet(0x32), ToOctet(0x33), ToOctet(0x34), ToOctet(0x35), ToOctet(0x36),
                 ToOctet(0x37), ToOctet(0x38), ToOctet(0x39)];
    PolynomialBits();
    XorZero(Ones());
    NothingFolded(Ones(), data);
    ByteTaken(data, 0xffffffff, 0x31, 0x6f0a661c, 0);
    ByteTaken(data, 0x6f0a661c, 0x32, 0x8caa3b9f, 1);
    ByteTaken(data, 0x8caa3b9f, 0x33, 0xef84d04d, 2);
    ByteTaken(data, 0xef84d04d, 0x34, 0x09c50b11, 3);
    ByteTaken(data, 0x09c50b11, 0x35, 0xe72edcca, 4);
    ByteTaken(data, 0xe72edcca, 0x36, 0xbeca8e79, 5);
    ByteTaken(data, 0xbeca8e79, 0x37, 0xedbd6815, 6);
    ByteTaken(data, 0xedbd6815, 0x38, 0x9f787f65, 7);
    ByteTaken(data, 0x9f787f65, 0x39, 0x1cf96d7c, 8);
    assert data[..9] == data;
    XorBits(0x1cf96d7c, 0xffff_ffff);
  }
}
