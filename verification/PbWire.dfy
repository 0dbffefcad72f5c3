/** The wire format of protocol buffers: streams, varints, zigzag numbers and tags. */
module PbWire {
  import opened Keys
  import opened Coding

  // ----- writing

  /** A stream that only counts, or one that stops at a size. */
  datatype Limits = Limits(sizing: bool, maxSize: nat)

  /** What a stream has taken so far. */
  datatype Progress = Progress(written: nat, bytes: Bytes)

  predicate Within(l: Limits, a: Progress) {
    l.sizing || a.written <= l.maxSize
  }

  /** Writing e, which is None when there is nothing valid to write: all of it, or a failure. */
  ghost predicate Writes(l: Limits, a: Progress, b: Progress, ok: bool, e: Option<Bytes>) {
    && Within(l, b)
    && (ok <==> e.Some? && (l.sizing || a.written + |e.value| <= l.maxSize))
    && (ok ==> b.written == a.written + |e.value| && b.bytes == if l.sizing then a.bytes else a.bytes + e.value)
  }

  function Then(a: Option<Bytes>, b: Option<Bytes>): (r: Option<Bytes>) {
    if a.Some? && b.Some? then Some(a.value + b.value) else None
  }

  lemma WritesThen(l: Limits, a: Progress, b: Progress, c: Progress, ok: bool, e: Option<Bytes>, ok': bool, e': Option<Bytes>)
    requires Writes(l, a, b, ok, e)
    requires ok ==> Writes(l, b, c, ok', e')
    ensures Writes(l, a, if ok then c else b, ok && ok', Then(e, e'))
  {
    if ok && ok' && !l.sizing {
      assert a.bytes + e.value + e'.value == a.bytes + (e.value + e'.value);
    }
  }

  lemma ThenAssociates(a: Option<Bytes>, b: Option<Bytes>, c: Option<Bytes>)
    ensures Then(Then(a, b), c) == Then(a, Then(b, c))
  {
    if a.Some? && b.Some? && c.Some? {
      assert a.value + b.value + c.value == a.value + (b.value + c.value);
    }
  }

  /** Clears the top bit of the last byte. */
  function Ended(buffer: Bytes): Bytes
    requires buffer != [] && buffer[|buffer| - 1] >= 128
  {
    buffer[..|buffer| - 1] + [buffer[|buffer| - 1] - 128]
  }

  lemma VarintGrows(value: nat, buffer: Bytes, rest: nat)
    requires rest > 0 && Varint(value) == buffer + Varint(rest)
    ensures var buffer' := buffer + [rest % 128 + 128];
      if rest / 128 > 0 then Varint(value) == buffer' + Varint(rest / 128) else Varint(value) == Ended(buffer')
  {
    var buffer' := buffer + [rest % 128 + 128];
    if rest < 128 {
      assert buffer'[..|buffer'| - 1] == buffer;
    } else {
      assert buffer + ([rest % 128 + 128] + Varint(rest / 128)) == buffer' + Varint(rest / 128);
    }
  }

  method VarintBuffer(value: nat) returns (buffer: Bytes)
    requires value > 0
    ensures buffer == Varint(value)
  {
    hide Varint;
    buffer := [];
    var rest: nat := value;
    while rest > 0
      invariant rest > 0 ==> Varint(value) == buffer + Varint(rest)
      invariant rest == 0 ==> buffer != [] && buffer[|buffer| - 1] >= 128 && Varint(value) == Ended(buffer)
    {
      VarintGrows(value, buffer, rest);
      buffer := buffer + [rest % 128 + 128];
      rest := rest / 128;
    }
    buffer := Ended(buffer);
  }

  function Tag(tag: nat, wireType: nat): Bytes {
    Varint(tag * 8 + wireType)
  }

  class OStream {
    const limits: Limits
    var bytesWritten: nat
    var state: Bytes

    ghost function At(): Progress
      reads this
    {
      Progress(bytesWritten, state)
    }

    constructor (limits: Limits, state: Bytes)
      ensures this.limits == limits && At() == Progress(0, state)
    {
      this.limits := limits;
      this.bytesWritten := 0;
      this.state := state;
    }

    method Write(buffer: Bytes) returns (ok: bool)
      requires Within(limits, At())
      modifies this
      ensures Writes(limits, old(At()), At(), ok, Some(buffer))
    {
      if !limits.sizing {
        if bytesWritten + |buffer| > limits.maxSize {
          return false;
        }
        state := state + buffer;
      }
      bytesWritten := bytesWritten + |buffer|;
      return true;
    }

    /** Counts bytes without writing them. */
    method Count(count: nat)
      requires limits.sizing
      modifies this
      ensures At() == Progress(old(bytesWritten) + count, old(state))
    {
      bytesWritten := bytesWritten + count;
    }

    method EncodeVarint(value: nat) returns (ok: bool)
      requires Within(limits, At())
      modifies this
      ensures Writes(limits, old(At()), At(), ok, Some(Varint(value)))
    {
      if value <= 0x7F {
        ok := Write([value]);
        return;
      }
      var buffer := VarintBuffer(value);
      ok := Write(buffer);
    }

    method EncodeTag(wireType: nat, tag: nat) returns (ok: bool)
      requires Within(limits, At())
      modifies this
      ensures Writes(limits, old(At()), At(), ok, Some(Tag(tag, wireType)))
    {
      ok := EncodeVarint(tag * 8 + wireType);
    }

    method EncodeString(buffer: Bytes) returns (ok: bool)
      requires Within(limits, At())
      modifies this
      ensures Writes(limits, old(At()), At(), ok, Some(LengthPrefixed(buffer)))
    {
      hide Writes;
      ghost var a := At();
      ok := EncodeVarint(|buffer|);
      ghost var b := At();
      var ok' := false;
      if ok {
        ok' := Write(buffer);
      }
      WritesThen(limits, a, b, At(), ok, Some(Varint(|buffer|)), ok', Some(buffer));
      ok := ok && ok';
    }
  }

  const WT_VARINT: nat := 0
  const WT_64BIT: nat := 1
  const WT_STRING: nat := 2
  const WT_32BIT: nat := 5

  /** Small negative numbers become small positive ones. */
  function ZigZag(n: int): (z: nat) {
    if n < 0 then -2 * n - 1 else 2 * n
  }

  /** In the order 0, -1, 1, -2, 2. */
  lemma ZigZagOrder(n: nat)
    ensures ZigZag(n) == 2 * n && ZigZag(-1 - n) == 2 * n + 1
  {
  }

  function UnZigZag(z: nat): (n: int)
    ensures forall m: int :: ZigZag(m) == z <==> m == n
  {
    if z % 2 == 1 then -(z / 2) - 1 else z / 2
  }

  // ----- reading

  /** The bytes from the read position on, of which a stream may take the first left. */
  datatype Cursor = Cursor(state: Bytes, left: nat)
  {
    ghost predicate Valid() {
      left <= |state|
    }

    ghost function Window(): Bytes
      requires Valid()
    {
      state[..left]
    }
  }

  /** Some bytes have been taken off the front. */
  ghost predicate Advanced(a: Cursor, b: Cursor) {
    a.Valid() && b.left <= a.left && b.state == a.state[a.left - b.left..]
  }

  lemma AdvancedWindow(a: Cursor, b: Cursor)
    requires Advanced(a, b)
    ensures b.Valid() && b.Window() == a.Window()[a.left - b.left..]
  {
  }

  lemma AdvancedTwice(a: Cursor, b: Cursor, c: Cursor)
    requires Advanced(a, b) && Advanced(b, c)
    ensures Advanced(a, c)
  {
  }

  function Place(bitpos: nat): (p: nat)
    ensures p > 0
  {
    match bitpos
    case 7 => 0x80
    case 14 => 0x4000
    case 21 => 0x20_0000
    case 28 => 0x1000_0000
    case 35 => 0x8_0000_0000
    case 42 => 0x400_0000_0000
    case 49 => 0x2_0000_0000_0000
    case 56 => 0x100_0000_0000_0000
    case 63 => 0x8000_0000_0000_0000
    case 70 => 0x40_0000_0000_0000_0000
    case _ => 1
  }

  /** The seven bits of v from bitpos on. */
  ghost function Digit(v: nat, bitpos: nat): nat {
    v / Place(bitpos) % 128
  }

  /** What the check of the higher bytes lets through, beyond 32 bits: bit 31 and bit 63 are set,
      and the groups of seven bits from bit 35 on are all ones or all zeros. Bits 32 to 34 are not
      looked at. */
  ghost predicate TakenAsExtended(v: nat) {
    && 0x8000_0000_0000_0000 <= v < TWO_64
    && v / 0x8000_0000 % 2 == 1
    && forall p {:trigger Digit(v, p)} :: p == 35 || p == 42 || p == 49 || p == 56 ==> Digit(v, p) == 0 || Digit(v, p) == 127
  }

  /** What is known of v once the bits below bitpos have been read. */
  ghost predicate Scanned(v: nat, bitpos: nat, result: nat, high: nat) {
    && v < TWO_64 && 7 <= bitpos <= 70 && bitpos % 7 == 0
    && high == v / Place(bitpos)
    && result == (if bitpos <= 28 then v % Place(bitpos) else v % TWO_32)
    && forall p {:trigger Digit(v, p)} :: (p == 35 || p == 42 || p == 49 || p == 56) && p < bitpos ==>
         Digit(v, p) == 0 || (Digit(v, p) == 127 && result >= 0x8000_0000)
  }

  /** byte is the last one of v, read just before bitpos. */
  ghost predicate LastByte(v: nat, bitpos: nat, byte: Byte) {
    && 14 <= bitpos && (bitpos <= 35 || (bitpos == 70 && v / 0x8000_0000 % 2 == 1))
    && byte < 128 && 0 < byte == v / Place(bitpos - 7)
  }

  /** The seven low bits of byte put at place, in 32 bits. */
  function PutAt(result: nat, byte: Byte, place: nat): nat {
    result + byte % 128 * place % TWO_32
  }

  lemma StartScanned(v: nat)
    ensures Place(7) == 128
    ensures 128 <= v < TWO_64 ==> Scanned(v, 7, v % 128, v / 128)
  {
  }

  lemma VarintHead(v: nat, rest: Bytes)
    ensures |Varint(v) + rest| > 0
    ensures var input := Varint(v) + rest;
      if v < 128 then input[0] == v && input[1..] == rest
      else input[0] == v % 128 + 128 && input[1..] == Varint(v / 128) + rest
  {
  }

  lemma Bit31(v: nat)
    ensures v % TWO_32 >= 0x8000_0000 <==> v / 0x8000_0000 % 2 == 1
  {
  }

  lemma HighRefused(v: nat, bitpos: nat, result: nat, high: nat, byte: Byte)
    requires Scanned(v, bitpos, result, high) && 32 <= bitpos && high > 0
    requires byte % 128 == high % 128 && (byte >= 128 <==> high >= 128)
    requires byte % 128 != 0 && (result < 0x8000_0000 || byte != if bitpos < 63 then 0xFF else 0x01)
    ensures v >= TWO_32 && !TakenAsExtended(v)
  {
    Bit31(v);
    assert Digit(v, bitpos) == byte % 128;
  }

  lemma NextHigh(v: nat, bitpos: nat)
    requires 7 <= bitpos <= 63 && bitpos % 7 == 0
    ensures v / Place(bitpos) / 128 == v / Place(bitpos + 7)
  {
  }

  lemma NextDigit(v: nat, bitpos: nat)
    requires bitpos == 7 || bitpos == 14 || bitpos == 21
    ensures v % Place(bitpos + 7) == v % Place(bitpos) + v / Place(bitpos) % 128 * Place(bitpos)
  {
  }

  lemma HighScanned(v: nat, bitpos: nat, result: nat, high: nat, byte: Byte)
    requires Scanned(v, bitpos, result, high) && 32 <= bitpos && high > 0
    requires byte % 128 == high % 128 && (byte >= 128 <==> high >= 128)
    requires byte % 128 == 0 || (result >= 0x8000_0000 && byte == if bitpos < 63 then 0xFF else 0x01)
    ensures Scanned(v, bitpos + 7, result, high / 128)
    ensures byte < 128 ==> LastByte(v, bitpos + 7, byte)
  {
    NextHigh(v, bitpos);
    Bit31(v);
  }

  lemma FourBits(v: nat)
    ensures v % TWO_32 == v % 0x1000_0000 + v / 0x1000_0000 % 128 * 0x1000_0000 % TWO_32
  {
    assert v / 0x1000_0000 % 128 % 16 == v / 0x1000_0000 % 16;
  }

  lemma PutLow(v: nat, bitpos: nat, byte: Byte)
    requires bitpos == 7 || bitpos == 14 || bitpos == 21
    requires byte % 128 == v / Place(bitpos) % 128
    ensures PutAt(v % Place(bitpos), byte, Place(bitpos)) == v % Place(bitpos + 7)
  {
    NextDigit(v, bitpos);
    assert byte % 128 * Place(bitpos) < TWO_32;
  }

  lemma PutTop(v: nat, byte: Byte)
    requires byte % 128 == v / Place(28) % 128
    ensures PutAt(v % Place(28), byte, Place(28)) == v % TWO_32
  {
    FourBits(v);
  }

  lemma LowScanned(v: nat, bitpos: nat, result: nat, high: nat, byte: Byte)
    requires Scanned(v, bitpos, result, high) && bitpos < 32 && high > 0
    requires byte % 128 == high % 128 && (byte >= 128 <==> high >= 128)
    ensures Scanned(v, bitpos + 7, PutAt(result, byte, Place(bitpos)), high / 128)
  {
    hide PutAt;
    NextHigh(v, bitpos);
    if bitpos < 28 {
      PutLow(v, bitpos, byte);
    } else {
      PutTop(v, byte);
    }
  }

  lemma LowLast(v: nat, bitpos: nat, result: nat, high: nat, byte: Byte)
    requires Scanned(v, bitpos, result, high) && bitpos < 32 && high > 0
    requires byte % 128 == high % 128 && (byte >= 128 <==> high >= 128)
    ensures byte < 128 ==> LastByte(v, bitpos + 7, byte)
  {
  }

  lemma LowFits(result: nat, bitpos: nat, byte: Byte)
    requires bitpos % 7 == 0 && 7 <= bitpos < 32 && result < Place(bitpos)
    ensures PutAt(result, byte, Place(bitpos)) < TWO_32
    ensures bitpos + 7 < 32 ==> PutAt(result, byte, Place(bitpos)) < Place(bitpos) * 128 == Place(bitpos + 7)
  {
    assert bitpos == 7 || bitpos == 14 || bitpos == 21 || bitpos == 28;
  }

  lemma AllScanned(v: nat, bitpos: nat, result: nat, byte: Byte)
    requires Scanned(v, bitpos, result, 0) && LastByte(v, bitpos, byte)
    ensures bitpos == 35 && byte / 16 % 8 != 0 <==> !(v < TWO_32 || TakenAsExtended(v))
    ensures v < TWO_32 || TakenAsExtended(v) ==> result == v % TWO_32
  {
    Bit31(v);
  }

  /** Adds the seven bits of a byte to the result, or checks them when they lie beyond it. */
  method TakeGroup(bitpos: nat, place: nat, result: nat, byte: Byte, ghost given: bool, ghost v: nat, ghost high: nat)
    returns (ok: bool, result': nat)
    requires bitpos % 7 == 0 && bitpos >= 7 && result < TWO_32
    requires bitpos < 32 ==> place == Place(bitpos) && result < place
    requires given ==> Scanned(v, bitpos, result, high) && high > 0
    requires given ==> byte % 128 == high % 128 && (byte >= 128 <==> high >= 128)
    ensures !ok && given ==> v >= TWO_32 && !TakenAsExtended(v)
    ensures result' < TWO_32 && (bitpos + 7 < 32 ==> result' < place * 128 == Place(bitpos + 7))
    ensures ok && given ==> Scanned(v, bitpos + 7, result', high / 128) && (byte < 128 ==> LastByte(v, bitpos + 7, byte))
  {
    hide TakenAsExtended, Scanned, LastByte, PutAt, Place;
    result' := result;
    if bitpos >= 32 {
      var signExtension := if bitpos < 63 then 0xFF else 0x01;
      if byte % 128 != 0 && (result < 0x8000_0000 || byte != signExtension) {
        if given { HighRefused(v, bitpos, result, high, byte); }
        return false, result;
      }
      if given { HighScanned(v, bitpos, result, high, byte); }
    } else {
      if given {
        LowScanned(v, bitpos, result, high, byte);
        LowLast(v, bitpos, result, high, byte);
      }
      LowFits(result, bitpos, byte);
      result' := PutAt(result, byte, place);
    }
    ok := true;
  }

  class IStream {
    var state: Bytes
    var bytesLeft: nat

    ghost function At(): Cursor
      reads this
    {
      Cursor(state, bytesLeft)
    }

    ghost predicate Valid()
      reads this
    {
      At().Valid()
    }

    ghost function Window(): Bytes
      requires Valid()
      reads this
    {
      At().Window()
    }

    constructor (state: Bytes, bytesLeft: nat)
      requires bytesLeft <= |state|
      ensures Valid() && At() == Cursor(state, bytesLeft)
    {
      this.state := state;
      this.bytesLeft := bytesLeft;
    }

    method Read(count: nat) returns (ok: bool, buffer: Bytes)
      requires Valid()
      modifies this
      ensures Valid() && Advanced(old(At()), At())
      ensures ok <==> count <= old(bytesLeft)
      ensures ok ==> buffer == old(Window())[..count] && bytesLeft == old(bytesLeft) - count
      ensures !ok ==> bytesLeft == old(bytesLeft)
    {
      if bytesLeft < count {
        return false, [];
      }
      buffer := state[..count];
      state := state[count..];
      bytesLeft := bytesLeft - count;
      return true, buffer;
    }

    method ReadByte() returns (ok: bool, byte: Byte)
      requires Valid()
      modifies this
      ensures Valid() && Advanced(old(At()), At())
      ensures ok <==> old(bytesLeft) > 0
      ensures ok ==> byte == old(Window())[0] && Window() == old(Window())[1..] && bytesLeft == old(bytesLeft) - 1
      ensures !ok ==> bytesLeft == old(bytesLeft)
    {
      if bytesLeft == 0 {
        return false, 0;
      }
      byte := state[0];
      state := state[1..];
      bytesLeft := bytesLeft - 1;
      return true, byte;
    }

    /** Ten bytes at most, and 64 bits. */
    method DecodeVarint() returns (ok: bool, value: nat)
      requires Valid()
      modifies this
      ensures Valid() && Advanced(old(At()), At())
      ensures ok <==> GetVarint64(old(Window())).Some?
      ensures ok ==> GetVarint64(old(Window())).value == Taken(value, Window())
    {
      var bitpos: nat, place: nat, result: nat := 0, 1, 0;
      ghost var start := At();
      var more := true;
      value := 0;
      while more
        invariant Valid() && Advanced(start, At())
        invariant bitpos % 7 == 0 && place > 0
        invariant if more then VarintFrom(start.Window(), 0, 1, 0, 10, TWO_64) == VarintFrom(Window(), bitpos / 7, place, result, 10, TWO_64)
                  else VarintFrom(start.Window(), 0, 1, 0, 10, TWO_64) == Some(Taken(result, Window()))
        decreases bytesLeft, more
      {
        if bitpos >= 64 {
          return false, 0;
        }
        var byte: Byte;
        ghost var before := At();
        ok, byte := ReadByte();
        if !ok {
          return;
        }
        AdvancedTwice(start, before, At());
        result := result + byte % 128 * place % TWO_64;
        place := place * 128;
        bitpos := bitpos + 7;
        more := byte >= 128;
      }
      return true, result;
    }

    /** A number of 32 bits, or one taken as such a number extended to 64 bits; rest is what
        should be left after v. */
    method DecodeVarint32(ghost v: nat, ghost rest: Bytes) returns (ok: bool, value: nat, eof: bool)
      requires Valid()
      modifies this
      ensures Valid() && Advanced(old(At()), At())
      ensures old(bytesLeft) == 0 ==> !ok && eof
      ensures ok ==> value < TWO_32 && bytesLeft < old(bytesLeft)
      ensures v < TWO_64 && old(Window()) == Varint(v) + rest ==>
        && (ok <==> v < TWO_32 || TakenAsExtended(v))
        && (ok ==> value == v % TWO_32 && Window() == rest)
    {
      hide Varint, TakenAsExtended, Scanned, LastByte, PutAt, Place;
      StartScanned(v);
      ghost var start := At();
      ghost var given := v < TWO_64 && Window() == Varint(v) + rest;
      eof := false;
      value := 0;
      var byte: Byte;
      VarintHead(v, rest);
      ok, byte := ReadByte();
      if !ok {
        eof := bytesLeft == 0;
        return;
      }
      if byte < 128 {
        value := byte;
        return;
      }
      var result: nat, bitpos: nat, place: nat := byte % 128, 7, 128;
      ghost var high: nat := v / 128;
      var more := true;
      while more
        invariant Valid() && Advanced(start, At()) && bytesLeft < start.left
        invariant bitpos % 7 == 0 && bitpos >= 7 && result < TWO_32
        invariant bitpos < 32 ==> place == Place(bitpos) && result < place
        invariant given ==> Scanned(v, bitpos, result, high)
        invariant given && more ==> high > 0 && Window() == Varint(high) + rest
        invariant given && !more ==> high == 0 && Window() == rest && LastByte(v, bitpos, byte)
        decreases bytesLeft, more
      {
        ghost var before := At();
        VarintHead(high, rest);
        ok, byte := ReadByte();
        if !ok {
          return;
        }
        AdvancedTwice(start, before, At());
        ok, result := TakeGroup(bitpos, place, result, byte, given, v, high);
        if !ok {
          return;
        }
        place := place * 128;
        bitpos := bitpos + 7;
        high := high / 128;
        more := byte >= 128;
      }
      if given { AllScanned(v, bitpos, result, byte); }
      if bitpos == 35 && byte / 16 % 8 != 0 {
        return false, 0, false;
      }
      return true, result, false;
    }
  }

  /** A negative number of 32 bits that was written with 64 is taken. */
  lemma ExtendedTaken(n: int)
    requires -0x8000_0000 <= n < 0
    ensures TakenAsExtended(n + TWO_64) && (n + TWO_64) % TWO_32 == n + TWO_32
  {
  }

  /** And so is this number, which is no extension of one of 32 bits. */
  lemma OtherTaken()
    ensures TakenAsExtended(0x8000_0000_8000_0000) && 0x8000_0000_8000_0000 < TWO_64 - 0x8000_0000
  {
    assert forall p :: p == 35 || p == 42 || p == 49 || p == 56 ==> Digit(0x8000_0000_8000_0000, p) == 0;
  }
}
