/** The decoder, and what it makes of the encoder's bytes. */
module PbDecode {
  import opened Keys
  import opened Coding
  import opened PbWire
  import opened PbMessages
  import opened PbFields
  import opened PbEncode
  import opened PbFormat

  /** The window begins with the encoding of w. */
  ghost predicate Begins(f: Field, w: Value, window: Bytes, rest: Bytes) {
    && Typed(f, w)
    && Restorable(f, w)
    && LegalKind(f)
    && |window| < TWO_32
    && Encoding(f, w).Some?
    && window == Encoding(f, w).value + rest
  }

  /** The number between -span / 2 and span / 2 with these low bits. */
  function Wrap(low: nat, span: nat): (r: int)
    requires low < span && span % 2 == 0
    ensures -(span / 2) <= r < span / 2
    ensures r == low || r == low - span
  {
    if low >= span / 2 then low - span else low
  }

  lemma LowBits(n: int, span: nat)
    requires span > 0 && 0 <= n + span && n < span
    ensures n % span == if n < 0 then n + span else n
  {
  }

  /** The number of dataSize bytes that has the low bits of n. */
  function ToSigned(n: int, dataSize: nat): (r: int)
    ensures Signed(dataSize, r)
    ensures IntegerSize(dataSize) && Signed(dataSize, n) ==> r == n
  {
    assert IntegerSize(dataSize) && Signed(dataSize, n) ==> n % Span(dataSize) == if n < 0 then n + Span(dataSize) else n by {
      if IntegerSize(dataSize) && Signed(dataSize, n) {
        LowBits(n, Span(dataSize));
      }
    }
    if dataSize == 1 then Wrap(n % 0x100, 0x100)
    else if dataSize == 2 then Wrap(n % 0x1_0000, 0x1_0000)
    else if dataSize == 4 then Wrap(n % TWO_32, TWO_32)
    else Wrap(n % TWO_64, TWO_64)
  }

  function ToUnsigned(n: nat, dataSize: nat): (r: nat)
    ensures Unsigned(dataSize, r)
    ensures IntegerSize(dataSize) && Unsigned(dataSize, n) ==> r == n
  {
    if dataSize == 1 then n % 0x100
    else if dataSize == 2 then n % 0x1_0000
    else if dataSize == 4 then n % TWO_32
    else n % TWO_64
  }

  /** A negative number survives being cut to 32 or 64 bits. */
  lemma SignSurvives(n: int, dataSize: nat)
    requires IntegerSize(dataSize) && Signed(dataSize, n)
    ensures ToSigned(ToSigned(n % TWO_64, if dataSize == 8 then 8 else 4), dataSize) == n
    ensures ToSigned(n % TWO_64, if dataSize == 8 then 8 else 4) == n
  {
    assert n % TWO_64 == if n < 0 then n + TWO_64 else n;
    assert (n % TWO_64) % TWO_32 == n % TWO_32;
  }

  lemma NumberTyped(f: Field, n: int)
    requires f.dataSize < TWO_32
    requires match f.kind
      case VarintKind | SVarintKind => Signed(f.dataSize, n)
      case UVarintKind => Unsigned(f.dataSize, n)
      case Fixed32Kind => 0 <= n < TWO_32
      case Fixed64Kind => 0 <= n < TWO_64
      case _ => false
    ensures Typed(f, Number(n))
  {
  }

  /** What a window that begins with an integer looks like. */
  lemma BeginsInteger(f: Field, w: Value, window: Bytes, rest: Bytes)
    requires Begins(f, w, window, rest) && (f.kind.VarintKind? || f.kind.UVarintKind? || f.kind.SVarintKind?)
    ensures w.Number? && IntegerSize(f.dataSize)
    ensures if f.kind.UVarintKind? then Unsigned(f.dataSize, w.n) else Signed(f.dataSize, w.n)
    ensures f.kind.VarintKind? ==> window == Varint(w.n % TWO_64) + rest
    ensures f.kind.UVarintKind? ==> 0 <= w.n < TWO_64 && window == Varint(w.n) + rest
    ensures f.kind.SVarintKind? ==> ZigZag(w.n) < TWO_64 && window == Varint(ZigZag(w.n)) + rest
  {
    hide Varint;
  }

  lemma BeginsFixed(f: Field, w: Value, window: Bytes, rest: Bytes)
    requires Begins(f, w, window, rest) && (f.kind.Fixed32Kind? || f.kind.Fixed64Kind?)
    ensures w.Number?
    ensures f.kind.Fixed32Kind? ==> 0 <= w.n < TWO_32 && window == Fixed32(w.n) + rest
    ensures f.kind.Fixed64Kind? ==> 0 <= w.n < TWO_64 && window == Fixed64(w.n) + rest
  {
    hide Fixed32, Fixed64;
  }

  method DecodeSigned(s: IStream, f: Field, ghost w: Value, ghost rest: Bytes) returns (ok: bool, v: Value)
    requires s.Valid() && f.kind.VarintKind? && f.dataSize < TWO_32
    modifies s
    ensures s.Valid() && Advanced(old(s.At()), s.At())
    ensures ok ==> Typed(f, v)
    ensures Begins(f, w, old(s.Window()), rest) ==> ok && v == w && s.Window() == rest
    ensures var d := GetVarint64(old(s.Window()));
      && (ok <==> d.Some? && IntegerSize(f.dataSize) && Signed(f.dataSize, ToSigned(d.value.value, if f.dataSize == 8 then 8 else 4)))
      && (ok ==> v == Number(ToSigned(d.value.value, if f.dataSize == 8 then 8 else 4)) && s.Window() == d.value.rest)
  {
    hide Varint, GetVarint64, ToSigned, Begins, Typed, Advanced;
    if Begins(f, w, s.Window(), rest) {
      BeginsInteger(f, w, s.Window(), rest);
      Varint64RoundTrip(w.n % TWO_64, rest);
      SignSurvives(w.n, f.dataSize);
    }
    v := Number(0);
    var value;
    ok, value := s.DecodeVarint();
    if !ok {
      return;
    }
    var svalue := ToSigned(value, if f.dataSize == 8 then 8 else 4);
    if !IntegerSize(f.dataSize) {
      return false, v;
    }
    var clamped := ToSigned(svalue, f.dataSize);
    if clamped != svalue {
      return false, v;
    }
    NumberTyped(f, clamped);
    v := Number(clamped);
  }

  method DecodeUnsigned(s: IStream, f: Field, ghost w: Value, ghost rest: Bytes) returns (ok: bool, v: Value)
    requires s.Valid() && f.kind.UVarintKind? && f.dataSize < TWO_32
    modifies s
    ensures s.Valid() && Advanced(old(s.At()), s.At())
    ensures ok ==> Typed(f, v)
    ensures Begins(f, w, old(s.Window()), rest) ==> ok && v == w && s.Window() == rest
    ensures var d := GetVarint64(old(s.Window()));
      && (ok <==> d.Some? && IntegerSize(f.dataSize) && Unsigned(f.dataSize, d.value.value))
      && (ok ==> v == Number(d.value.value) && s.Window() == d.value.rest)
  {
    hide Varint, GetVarint64, ToUnsigned, Begins, Typed, Advanced;
    if Begins(f, w, s.Window(), rest) {
      BeginsInteger(f, w, s.Window(), rest);
      Varint64RoundTrip(w.n, rest);
    }
    v := Number(0);
    var value;
    ok, value := s.DecodeVarint();
    if !ok {
      return;
    }
    if !IntegerSize(f.dataSize) {
      return false, v;
    }
    var clamped := ToUnsigned(value, f.dataSize);
    if clamped != value {
      return false, v;
    }
    NumberTyped(f, clamped);
    v := Number(clamped);
  }

  method DecodeZigZag(s: IStream, f: Field, ghost w: Value, ghost rest: Bytes) returns (ok: bool, v: Value)
    requires s.Valid() && f.kind.SVarintKind? && f.dataSize < TWO_32
    modifies s
    ensures s.Valid() && Advanced(old(s.At()), s.At())
    ensures ok ==> Typed(f, v)
    ensures Begins(f, w, old(s.Window()), rest) ==> ok && v == w && s.Window() == rest
    ensures var d := GetVarint64(old(s.Window()));
      && (ok <==> d.Some? && IntegerSize(f.dataSize) && Signed(f.dataSize, UnZigZag(d.value.value)))
      && (ok ==> v == Number(UnZigZag(d.value.value)) && s.Window() == d.value.rest)
  {
    hide Varint, GetVarint64, ToSigned, ZigZag, Begins, Typed, Advanced;
    if Begins(f, w, s.Window(), rest) {
      BeginsInteger(f, w, s.Window(), rest);
      Varint64RoundTrip(ZigZag(w.n), rest);
    }
    v := Number(0);
    var value;
    ok, value := s.DecodeVarint();
    if !ok {
      return;
    }
    if !IntegerSize(f.dataSize) {
      return false, v;
    }
    var number := UnZigZag(value);
    var clamped := ToSigned(number, f.dataSize);
    if clamped != number {
      return false, v;
    }
    NumberTyped(f, clamped);
    v := Number(clamped);
  }

  /** Reads the characters of a string of which the length has been read. */
  method ReadBody(s: IStream, size: nat, ghost body: Bytes, ghost rest: Bytes) returns (ok: bool, buffer: Bytes)
    requires s.Valid()
    modifies s
    ensures s.Valid() && Advanced(old(s.At()), s.At())
    ensures ok ==> |buffer| == size
    ensures old(s.Window()) == body + rest && size == |body| ==> ok && buffer == body && s.Window() == rest
  {
    ghost var start := s.At();
    ok, buffer := s.Read(size);
    if ok {
      AdvancedWindow(start, s.At());
      if start.Window() == body + rest && size == |body| {
        assert (body + rest)[..size] == body && (body + rest)[size..] == rest;
      }
    }
  }

  method DecodeFixed(s: IStream, f: Field, ghost w: Value, ghost rest: Bytes) returns (ok: bool, v: Value)
    requires s.Valid() && (f.kind.Fixed32Kind? || f.kind.Fixed64Kind?) && f.dataSize < TWO_32
    modifies s
    ensures s.Valid() && Advanced(old(s.At()), s.At())
    ensures ok ==> Typed(f, v)
    ensures Begins(f, w, old(s.Window()), rest) ==> ok && v == w && s.Window() == rest
  {
    hide DecodeFixed32, Fixed32, DecodeFixed64, Fixed64, Begins, Typed, Advanced;
    ghost var given := Begins(f, w, s.Window(), rest);
    if given {
      BeginsFixed(f, w, s.Window(), rest);
    }
    ghost var body := if !given then [] else if f.kind.Fixed32Kind? then Fixed32(w.n) else Fixed64(w.n);
    var size := if f.kind.Fixed32Kind? then 4 else 8;
    v := Number(0);
    var buffer;
    ok, buffer := ReadBody(s, size, body, rest);
    if !ok {
      return;
    }
    assert buffer + [] == buffer;
    if f.kind.Fixed32Kind? {
      v := Number(DecodeFixed32(buffer));
      if given {
        Fixed32RoundTrip(w.n, []);
      }
    } else {
      Fixed64Fits(buffer);
      v := Number(DecodeFixed64(buffer));
      if given {
        Fixed64RoundTrip(w.n, []);
      }
    }
    NumberTyped(f, v.n);
  }

  /** The length in front of a string, when that is what the window begins with. */
  method DecodeLength(s: IStream, ghost body: Bytes, ghost rest: Bytes) returns (ok: bool, size: nat)
    requires s.Valid()
    modifies s
    ensures s.Valid() && Advanced(old(s.At()), s.At())
    ensures ok ==> size < TWO_32 && s.bytesLeft < old(s.bytesLeft)
    ensures old(s.Window()) == LengthPrefixed(body) + rest && |body| < TWO_32 ==>
      ok && size == |body| && s.Window() == body + rest
  {
    hide Varint;
    if s.Window() == LengthPrefixed(body) + rest {
      assert LengthPrefixed(body) + rest == Varint(|body|) + (body + rest);
    }
    var eof;
    ok, size, eof := s.DecodeVarint32(|body|, body + rest);
  }

  /** Overwrites the front of a buffer. */
  function Overwritten(dest: Bytes, front: Bytes): (r: Bytes)
    requires |front| <= |dest|
    ensures |r| == |dest| && r[..|front|] == front
  {
    front + dest[|front|..]
  }

  /** What a window that begins with a string of some kind looks like. */
  lemma BeginsString(f: Field, w: Value, window: Bytes, rest: Bytes)
    requires Begins(f, w, window, rest)
    ensures |window| < TWO_32
    ensures f.kind.BytesKind? ==>
      && w.Blob? && w.size + BYTES_OFFSET <= f.dataSize == |w.bytes| + BYTES_OFFSET
      && window == LengthPrefixed(w.bytes[..w.size]) + rest
    ensures f.kind.StringKind? ==>
      && w.Buffer? && StringLength(w.chars) < |w.chars| == f.dataSize < TWO_32
      && window == LengthPrefixed(w.chars[..StringLength(w.chars)]) + rest
    ensures f.kind.FixedBytesKind? ==> w.Buffer? && |w.chars| == f.dataSize && window == LengthPrefixed(w.chars) + rest
  {
    hide LengthPrefixed, StringLength;
  }

  lemma BlobTyped(f: Field, v: Value)
    requires f.kind.BytesKind?
    ensures Typed(f, v) <==> f.dataSize < TWO_32 && v.Blob? && v.size < TWO_32 && f.dataSize == BYTES_OFFSET + |v.bytes|
  {
  }

  lemma BufferTyped(f: Field, v: Value)
    requires f.kind.StringKind? || f.kind.FixedBytesKind?
    ensures Typed(f, v) <==> f.dataSize < TWO_32 && v.Buffer? && |v.chars| == f.dataSize
  {
  }

  lemma BlobSame(f: Field, v: Value, w: Value)
    requires f.kind.BytesKind? && Typed(f, v) && Typed(f, w)
    requires v.size == w.size <= |v.bytes| && w.size <= |w.bytes| && v.bytes[..w.size] == w.bytes[..w.size]
    ensures Same(f, v, w)
  {
  }

  lemma BufferSame(f: Field, v: Value, w: Value)
    requires f.kind.StringKind? && Typed(f, v) && Typed(f, w)
    requires v.chars[..StringLength(v.chars)] == w.chars[..StringLength(w.chars)]
    ensures Same(f, v, w)
  {
  }

  method DecodeBytes(s: IStream, f: Field, dest: Value, ghost w: Value, ghost rest: Bytes) returns (ok: bool, v: Value)
    requires s.Valid() && f.kind.BytesKind? && Typed(f, dest)
    modifies s
    ensures s.Valid() && (ok ==> Advanced(old(s.At()), s.At()) && Typed(f, v))
    ensures Begins(f, w, old(s.Window()), rest) ==> ok && Same(f, v, w) && s.Window() == rest
  {
    hide LengthPrefixed, Begins, Typed, Same, Advanced;
    ghost var given := Begins(f, w, s.Window(), rest);
    if given {
      BeginsString(f, w, s.Window(), rest);
      BlobTyped(f, w);
    }
    BlobTyped(f, dest);
    ghost var body := if given then w.bytes[..w.size] else [];
    ghost var start := s.At();
    v := dest;
    var size, buffer;
    ok, size := DecodeLength(s, body, rest);
    if !ok {
      return;
    }
    if size + BYTES_OFFSET > f.dataSize {
      return false, v;
    }
    ghost var middle := s.At();
    ok, buffer := ReadBody(s, size, body, rest);
    if ok {
      AdvancedTwice(start, middle, s.At());
      v := Blob(size, Overwritten(dest.bytes, buffer));
      BlobTyped(f, v);
      if given {
        BlobSame(f, v, w);
      }
    }
  }

  lemma LengthIs(copy: Bytes, size: nat, chars: Bytes)
    requires size < |copy| && copy[size] == 0 && size == StringLength(chars) && copy[..size] == chars[..size]
    ensures StringLength(copy) == size
  {
    forall i | 0 <= i < size
      ensures copy[i] == chars[i]
    {
      assert copy[..size][i] == chars[..size][i];
    }
  }

  lemma Terminated(chars: Bytes, copy: Bytes, size: nat)
    requires size == StringLength(chars) && size < |copy|
    requires copy[..size + 1] == chars[..size] + [0]
    ensures StringLength(copy) == size && copy[..size] == chars[..size]
  {
    assert copy[..size] == copy[..size + 1][..size] && copy[size] == copy[..size + 1][size];
    LengthIs(copy, size, chars);
  }

  /** A buffer with a string and its terminator in front holds that string. */
  lemma StringRead(f: Field, dest: Value, buffer: Bytes, w: Value, given: bool)
    requires f.kind.StringKind? && Typed(f, dest) && dest.Buffer? && |buffer| < |dest.chars|
    requires given ==> Typed(f, w) && w.Buffer? && buffer == w.chars[..StringLength(w.chars)]
    ensures var v := Buffer(Overwritten(dest.chars, buffer + [0])); Typed(f, v) && (given ==> Same(f, v, w))
  {
    hide Typed, Same, StringLength;
    var v := Buffer(Overwritten(dest.chars, buffer + [0]));
    BufferTyped(f, dest);
    BufferTyped(f, v);
    if given {
      Terminated(w.chars, v.chars, |buffer|);
      BufferSame(f, v, w);
    }
  }

  /** The string, a terminator, and what was in the buffer after them. */
  method DecodeString(s: IStream, f: Field, dest: Value, ghost w: Value, ghost rest: Bytes) returns (ok: bool, v: Value)
    requires s.Valid() && f.kind.StringKind? && Typed(f, dest)
    modifies s
    ensures s.Valid() && (ok ==> Advanced(old(s.At()), s.At()) && Typed(f, v))
    ensures Begins(f, w, old(s.Window()), rest) ==> ok && Same(f, v, w) && s.Window() == rest
  {
    hide LengthPrefixed, Begins, Typed, Same, Advanced, StringLength, Overwritten;
    ghost var given := Begins(f, w, s.Window(), rest);
    if given {
      BeginsString(f, w, s.Window(), rest);
      BufferTyped(f, w);
    }
    BufferTyped(f, dest);
    ghost var body := if given then w.chars[..StringLength(w.chars)] else [];
    ghost var start := s.At();
    v := dest;
    var size, buffer;
    ok, size := DecodeLength(s, body, rest);
    if !ok {
      return;
    }
    var allocSize := (size + 1) % TWO_32;
    if allocSize < size || allocSize > f.dataSize {
      return false, v;
    }
    ghost var middle := s.At();
    ok, buffer := ReadBody(s, size, body, rest);
    if ok {
      AdvancedTwice(start, middle, s.At());
      v := Buffer(Overwritten(dest.chars, buffer + [0]));
      StringRead(f, dest, buffer, w, given);
    }
  }

  /** An empty string stands for all zeros; any other must have the length of the field. */
  method DecodeFixedBytes(s: IStream, f: Field, dest: Value, ghost body: Bytes, ghost rest: Bytes) returns (ok: bool, v: Value)
    requires s.Valid() && f.kind.FixedBytesKind? && Typed(f, dest)
    modifies s
    ensures s.Valid() && (ok ==> Advanced(old(s.At()), s.At()) && Typed(f, v))
    ensures Begins(f, Buffer(body), old(s.Window()), rest) ==> ok && v == Buffer(body) && s.Window() == rest
    ensures old(s.Window()) == LengthPrefixed(body) + rest && |body| < TWO_32 ==>
      && (ok <==> body == [] || |body| == f.dataSize)
      && (ok ==> v == Buffer(if body == [] then seq(f.dataSize, _ => 0) else body) && s.Window() == rest)
  {
    hide LengthPrefixed, Begins, Typed, Advanced;
    if Begins(f, Buffer(body), s.Window(), rest) {
      BeginsString(f, Buffer(body), s.Window(), rest);
    }
    BufferTyped(f, dest);
    ghost var start := s.At();
    v := dest;
    var size, buffer;
    ok, size := DecodeLength(s, body, rest);
    if !ok {
      return;
    }
    if size == 0 {
      v := Buffer(seq(f.dataSize, _ => 0));
      BufferTyped(f, v);
      assert |body| == f.dataSize == 0 ==> v.chars == body;
      return;
    }
    if size != f.dataSize {
      return false, v;
    }
    ghost var middle := s.At();
    ok, buffer := ReadBody(s, f.dataSize, body, rest);
    if ok {
      AdvancedTwice(start, middle, s.At());
      v := Buffer(buffer);
      BufferTyped(f, v);
    }
  }

  // ----- substreams

  /** A stream over the next size bytes, where size is read first; the parent gives them up. */
  method MakeStringSubstream(s: IStream, ghost body: Bytes, ghost rest: Bytes) returns (ok: bool, sub: IStream)
    requires s.Valid()
    modifies s
    ensures s.Valid() && fresh(sub) && sub.Valid()
    ensures ok ==> sub.state == s.state && sub.bytesLeft + s.bytesLeft <= |s.state|
    ensures ok ==> sub.bytesLeft + s.bytesLeft < old(s.bytesLeft)
    ensures ok ==> Advanced(old(s.At()), Cursor(s.state, sub.bytesLeft + s.bytesLeft))
    ensures old(s.Window()) == LengthPrefixed(body) + rest && |old(s.Window())| < TWO_32 ==>
      ok && sub.Window() == body && s.state[..sub.bytesLeft + s.bytesLeft] == body + rest
  {
    var size;
    ok, size := DecodeLength(s, body, rest);
    if ok && s.bytesLeft < size {
      ok := false;
    }
    if !ok {
      sub := new IStream([], 0);
      return;
    }
    sub := new IStream(s.state, size);
    s.bytesLeft := s.bytesLeft - size;
  }

  /** Skips what is left of the substream; the parent reads on after it. */
  method CloseStringSubstream(s: IStream, sub: IStream, ghost middle: Cursor, ghost size: nat)
    requires s != sub && middle.Valid() && size + s.bytesLeft == middle.left
    requires sub.Valid() && Advanced(Cursor(middle.state, size), sub.At())
    modifies s, sub
    ensures s.Valid() && Advanced(middle, s.At()) && s.bytesLeft == old(s.bytesLeft)
    ensures s.Window() == middle.Window()[size..]
  {
    if sub.bytesLeft > 0 {
      ghost var before := sub.At();
      var ok, skipped := sub.Read(sub.bytesLeft);
      AdvancedTwice(Cursor(middle.state, size), before, sub.At());
    }
    s.state := sub.state;
    AdvancedWindow(middle, s.At());
  }

  // ----- clearing a struct

  /** The window is the encoding of w. */
  ghost predicate Encodes(fields: seq<Field>, w: Value, window: Bytes) {
    && TypedMessage(fields, w)
    && RestorableMessage(fields, w)
    && |window| < TWO_32
    && MessageEncoding(fields, w, 0) == Some(window)
  }

  lemma BodyShorter(body: Bytes, rest: Bytes)
    ensures |body| <= |LengthPrefixed(body) + rest|
  {
  }

  ghost function SubmessageBody(f: Field, fields: seq<Field>, w: Value, window: Bytes, rest: Bytes): (body: Bytes)
    requires f.kind == SubmessageKind(fields) && Begins(f, w, window, rest)
    ensures Typed(f, w) && TypedMessage(fields, w) && Encodes(fields, w, body) && window == LengthPrefixed(body) + rest && |window| < TWO_32
  {
    BodyShorter(MessageEncoding(fields, w, 0).value, rest);
    MessageEncoding(fields, w, 0).value
  }

  /** The predicates about values of a submessage field are those about structs. */
  lemma SubmessageKinds(f: Field, fields: seq<Field>, v: Value)
    requires f.kind == SubmessageKind(fields) && LegalKind(f)
    ensures Legal(fields)
    ensures Typed(f, v) <==> TypedMessage(fields, v)
    ensures Typed(f, v) ==> (Cleared(f, v) <==> ClearedMessage(fields, v))
  {
    hide TypedMessage, ClearedMessage, Legal;
  }

  method ValueToDefault(f: Field, v: Value) returns (r: Value)
    requires LegalKind(f) && Typed(f, v)
    ensures Typed(f, r) && Cleared(f, r)
    decreases f, 0
  {
    if f.kind.SubmessageKind? {
      r := SetToDefaults(f.kind.fields, v);
    } else {
      ZeroValueTyped(f);
      r := ZeroValue(f);
    }
  }

  /** Not present, with an empty array, or with nothing chosen; the rest is zero. */
  method FieldToDefault(f: Field, d: Data) returns (r: Data)
    requires LegalKind(f) && f.tag > 0 && TypedData(f, d)
    ensures TypedData(f, r) && ClearedData(f, r) && (f.rule.OneOf? ==> r.which == 0)
    decreases f, 1
  {
    match f.rule
    case Required =>
      var v := ValueToDefault(f, d.value);
      r := Single(v);
    case Optional =>
      var v := ValueToDefault(f, d.value);
      r := Flagged(false, v);
    case Repeated(_) =>
      r := Counted(0, d.values);
    case OneOf =>
      r := Chosen(0, d.value);
  }

  lemma SharedSlot(fields: seq<Field>, i: nat, k: nat)
    requires Legal(fields) && i < |fields| && k < |fields| && i != k && fields[i].slot == fields[k].slot
    ensures fields[i].rule.OneOf? && fields[k].rule.OneOf? && fields[i].tag != fields[k].tag
    ensures fields[i].tag > 0
  {
  }

  /** A struct stays typed when one field is written; in a union only the field it is chosen as. */
  lemma SlotWritten(fields: seq<Field>, m: Value, k: nat, d: Data)
    requires Legal(fields) && TypedMessage(fields, m) && k < |fields| && TypedData(fields[k], d)
    requires fields[k].rule.OneOf? ==> d.which == 0 || d.which == fields[k].tag
    ensures TypedMessage(fields, Message(m.slots[fields[k].slot := d]))
  {
    hide Typed, LegalKind;
    var m' := Message(m.slots[fields[k].slot := d]);
    forall i | 0 <= i < |fields|
      ensures fields[i].slot < |m'.slots| && TypedData(fields[i], m'.slots[fields[i].slot])
    {
      assert TypedData(fields[i], m.slots[fields[i].slot]);
      if fields[i].slot == fields[k].slot && i != k {
        SharedSlot(fields, i, k);
      }
    }
  }

  lemma KeepsCleared(fields: seq<Field>, m: Value, k: nat, d: Data)
    requires Legal(fields) && TypedMessage(fields, m) && k < |fields| && TypedData(fields[k], d) && ClearedData(fields[k], d)
    requires fields[k].rule.OneOf? ==> d.which == 0
    requires TypedMessage(fields, Message(m.slots[fields[k].slot := d]))
    ensures forall i | 0 <= i < |fields| && (i == k || ClearedData(fields[i], m.slots[fields[i].slot])) ::
      ClearedData(fields[i], m.slots[fields[k].slot := d][fields[i].slot])
  {
    hide LegalKind, Typed;
    forall i | 0 <= i < |fields| && (i == k || ClearedData(fields[i], m.slots[fields[i].slot]))
      ensures ClearedData(fields[i], m.slots[fields[k].slot := d][fields[i].slot])
    {
      if fields[i].slot == fields[k].slot && i != k {
        SharedSlot(fields, i, k);
      }
    }
  }

  method SetToDefaults(fields: seq<Field>, dest: Value) returns (m: Value)
    requires Legal(fields) && TypedMessage(fields, dest)
    ensures TypedMessage(fields, m) && ClearedMessage(fields, m)
    decreases fields, 0
  {
    hide LegalKind, TypedData, ClearedData;
    m := dest;
    var iter := new FieldIter(fields);
    if fields == [] {
      return;
    }
    var more := true;
    while more
      invariant iter.Valid() && iter.fields == fields && fresh(iter) && TypedMessage(fields, m)
      invariant forall i | 0 <= i < (if more then iter.pos else |fields|) :: ClearedData(fields[i], m.slots[fields[i].slot])
      decreases more, |fields| - iter.pos
    {
      var k := iter.pos;
      var f := fields[k];
      var d := FieldToDefault(f, m.slots[f.slot]);
      SlotWritten(fields, m, k, d);
      KeepsCleared(fields, m, k, d);
      m := Message(m.slots[f.slot := d]);
      more := iter.Next();
    }
  }

  // ----- restoring a struct field by field

  ghost predicate RestorableTyped(fields: seq<Field>, w: Value) {
    TypedMessage(fields, w) && RestorableMessage(fields, w)
  }

  /** Nothing of the field has been read yet. */
  ghost predicate Waiting(f: Field, d: Data, e: Data)
    requires TypedData(f, d) && TypedData(f, e)
  {
    if f.rule.OneOf? then d.which == 0 || d.which == e.which else ClearedData(f, d)
  }

  /** The first j values of an array have been read. */
  ghost predicate Partly(f: Field, d: Data, e: Data, j: nat)
    requires TypedData(f, d) && TypedData(f, e)
  {
    if j == 0 then Waiting(f, d, e)
    else
      && f.rule.Repeated?
      && !Packable(f.kind)
      && j < e.count <= |e.values|
      && d.count == j
      && forall i | 0 <= i < j :: Same(f, d.values[i], e.values[i])
  }

  /** The fields before k have been restored, and j values of field k. */
  ghost predicate Restoring(fields: seq<Field>, m: Value, w: Value, k: nat, j: nat) {
    && TypedMessage(fields, m)
    && TypedMessage(fields, w)
    && k <= |fields|
    && (k == |fields| ==> j == 0)
    && (forall i | 0 <= i < k :: SameData(fields[i], m.slots[fields[i].slot], w.slots[fields[i].slot]))
    && (forall i | k < i < |fields| :: Waiting(fields[i], m.slots[fields[i].slot], w.slots[fields[i].slot]))
    && (k < |fields| ==> Partly(fields[k], m.slots[fields[k].slot], w.slots[fields[k].slot], j))
  }

  ghost predicate UnreadItems(fields: seq<Field>, w: Value, k: nat, j: nat, window: Bytes)
    requires TypedMessage(fields, w) && k < |fields|
  {
    var f, e := fields[k], w.slots[fields[k].slot];
    && f.rule.Repeated?
    && TypedData(f, e)
    && j <= e.count <= |e.values|
    && Then(ItemsEncoding(f, e.values[..e.count], j, true), MessageEncoding(fields, w, k + 1)) == Some(window)
  }

  /** The bytes of what has not been read yet. */
  ghost predicate Unread(fields: seq<Field>, w: Value, k: nat, j: nat, window: Bytes) {
    && TypedMessage(fields, w)
    && k <= |fields|
    && if j == 0 then MessageEncoding(fields, w, k) == Some(window)
       else k < |fields| && UnreadItems(fields, w, k, j, window)
  }

  const MAX_REQUIRED_FIELDS: nat := 64

  /** The required fields before k have been seen, as far as that is recorded. */
  ghost predicate SeenBefore(fields: seq<Field>, k: nat, seen: set<nat>) {
    forall i | 0 <= i < k && i < |fields| && fields[i].rule.Required? && RequiredBefore(fields, i) < MAX_REQUIRED_FIELDS ::
      RequiredBefore(fields, i) in seen
  }

  /** Everything before k is back in the struct, and the stream holds the rest. */
  ghost predicate OnTheWay(fields: seq<Field>, m: Value, w: Value, k: nat, j: nat, window: Bytes, seen: set<nat>) {
    && RestorableTyped(fields, w)
    && |window| < TWO_32
    && Restoring(fields, m, w, k, j)
    && Unread(fields, w, k, j, window)
    && SeenBefore(fields, k, seen)
  }

  lemma NothingAdvanced(a: Cursor)
    requires a.Valid()
    ensures Advanced(a, a)
  {
  }

  lemma Underway(fields: seq<Field>, m: Value, w: Value, window: Bytes)
    requires Legal(fields) && TypedMessage(fields, m) && Encodes(fields, w, window) && ClearedMessage(fields, m)
    ensures OnTheWay(fields, m, w, 0, 0, window, {})
  {
    hide LegalKind, Typed, Cleared, Restorable, MessageEncoding;
  }

  ghost predicate Alone(f: Field) {
    !f.rule.Repeated?
  }

  /** The field is in the struct. */
  ghost predicate Present(f: Field, e: Data)
    requires TypedData(f, e)
  {
    match f.rule
    case Required => true
    case Optional => e.has
    case Repeated(_) => e.count > 0
    case OneOf => e.which == f.tag
  }

  /** The window begins with the value of a field that is alone. */
  ghost predicate BeginsAlone(f: Field, d: Data, e: Data, window: Bytes, rest: Bytes)
    requires TypedData(f, d)
  {
    && Alone(f)
    && TypedData(f, e)
    && Present(f, e)
    && Begins(f, e.value, window, rest)
    && (f.rule.OneOf? || Cleared(f, d.value))
  }

  /** The window begins with a packed array. */
  ghost predicate BeginsPacked(f: Field, d: Data, e: Data, window: Bytes, rest: Bytes)
    requires TypedData(f, d)
  {
    && f.rule.Repeated?
    && Packable(f.kind)
    && TypedData(f, e)
    && d.count == 0
    && e.count <= |e.values|
    && |window| < TWO_32
    && var items := ItemsEncoding(f, e.values[..e.count], 0, false);
       items.Some? && window == LengthPrefixed(items.value) + rest
  }

  /** The window begins with value j of an array, and j values have been read. */
  ghost predicate BeginsItem(f: Field, d: Data, e: Data, j: nat, window: Bytes, rest: Bytes)
    requires TypedData(f, d)
  {
    && f.rule.Repeated?
    && !Packable(f.kind)
    && TypedData(f, e)
    && j < e.count <= |e.values|
    && d.count == j
    && Begins(f, e.values[j], window, rest)
  }

  /** The next bytes are the key of field k, its value or one of its values, and the rest. */
  ghost predicate KeyNext(fields: seq<Field>, m: Value, w: Value, k: nat, j: nat, wireType: nat, window: Bytes, value: Bytes, rest: Bytes) {
    && Restoring(fields, m, w, k, j)
    && k < |fields|
    && IsWireValue(wireType, value)
    && window == Tag(fields[k].tag, wireType) + (value + rest)
    && var f, d, e := fields[k], m.slots[fields[k].slot], w.slots[fields[k].slot];
       if Alone(f) then j == 0 && BeginsAlone(f, d, e, value, []) && Unread(fields, w, k + 1, 0, rest)
       else if Packable(f.kind) then
         j == 0 && wireType == WT_STRING && BeginsPacked(f, d, e, value, []) && Unread(fields, w, k + 1, 0, rest)
       else BeginsItem(f, d, e, j, value, []) && UnreadItems(fields, w, k, j + 1, rest)
  }

  /** A value is the same whatever follows it. */
  lemma WhateverFollows(f: Field, d: Data, e: Data, j: nat, value: Bytes, tail: Bytes)
    requires TypedData(f, d) && |value + tail| < TWO_32
    ensures BeginsAlone(f, d, e, value, []) ==> BeginsAlone(f, d, e, value + tail, tail)
    ensures BeginsPacked(f, d, e, value, []) ==> BeginsPacked(f, d, e, value + tail, tail)
    ensures BeginsItem(f, d, e, j, value, []) ==> BeginsItem(f, d, e, j, value + tail, tail)
  {
    hide Typed, Encoding, Restorable, Cleared, LengthPrefixed, ItemsEncoding, LegalKind;
    assert forall b: Bytes :: b + [] == b;
  }

  /** None of these fields is required. */
  ghost predicate NoneRequired(fields: seq<Field>, k: nat, at: nat) {
    forall i | k <= i < at && i < |fields| :: !fields[i].rule.Required?
  }

  // ----- the tag of the next field

  lemma NextField(fields: seq<Field>, w: Value, k: nat, window: Bytes) returns (e: Bytes, rest: Bytes)
    requires Unread(fields, w, k, 0, window) && k < |fields|
    ensures TypedData(fields[k], w.slots[fields[k].slot])
    ensures FieldEncoding(fields[k], w.slots[fields[k].slot]) == Some(e)
    ensures Unread(fields, w, k + 1, 0, rest) && window == e + rest
  {
    hide FieldEncoding;
    e := FieldEncoding(fields[k], w.slots[fields[k].slot]).value;
    rest := MessageEncoding(fields, w, k + 1).value;
  }

  /** A field that is not in the struct has no bytes, and any other has some. */
  lemma AbsentIsEmpty(f: Field, e: Data)
    requires TypedData(f, e) && FieldEncoding(f, e).Some?
    ensures Present(f, e) <==> FieldEncoding(f, e).value != []
  {
    hide Encoding;
    if f.rule.Repeated? && 0 < e.count && !Packable(f.kind) {
      assert e.values[..e.count] != [];
    }
  }

  lemma AbsentIsSame(f: Field, d: Data, e: Data)
    requires TypedData(f, d) && TypedData(f, e) && Waiting(f, d, e) && !Present(f, e) && f.tag > 0
    ensures SameData(f, d, e)
  {
  }

  /** Fields that are not in the struct need nothing. */
  lemma {:induction false} SkipAbsent(fields: seq<Field>, m: Value, w: Value, k: nat, window: Bytes) returns (k': nat)
    requires Legal(fields) && Restoring(fields, m, w, k, 0) && Unread(fields, w, k, 0, window)
    ensures k <= k' && Restoring(fields, m, w, k', 0) && Unread(fields, w, k', 0, window)
    ensures k' == |fields| <==> window == []
    ensures k' < |fields| ==> TypedData(fields[k'], w.slots[fields[k'].slot]) && Present(fields[k'], w.slots[fields[k'].slot])
    ensures NoneRequired(fields, k, k')
    decreases |fields| - k
  {
    hide TypedData, SameData, Waiting, FieldEncoding, LegalKind;
    k' := k;
    if k < |fields| {
      var f, d, e0 := fields[k], m.slots[fields[k].slot], w.slots[fields[k].slot];
      var e, rest := NextField(fields, w, k, window);
      AbsentIsEmpty(f, e0);
      if !Present(f, e0) {
        AbsentIsSame(f, d, e0);
        assert [] + rest == rest;
        k' := SkipAbsent(fields, m, w, k + 1, window);
      }
    }
  }

  lemma RestorableAt(fields: seq<Field>, w: Value, k: nat)
    requires Legal(fields) && RestorableTyped(fields, w) && k < |fields|
    ensures LegalKind(fields[k]) && fields[k].tag > 0
    ensures TypedData(fields[k], w.slots[fields[k].slot]) && RestorableData(fields[k], w.slots[fields[k].slot])
  {
  }

  lemma SplitTag(tag: Bytes, value: Bytes, more: Bytes)
    ensures tag + value + more == tag + (value + more)
    ensures |value + more| <= |tag + value + more|
  {
  }

  lemma KeyOfAlone(fields: seq<Field>, m: Value, w: Value, k: nat, window: Bytes) returns (value: Bytes, rest: Bytes)
    requires Legal(fields) && RestorableTyped(fields, w) && |window| < TWO_32
    requires Restoring(fields, m, w, k, 0) && Unread(fields, w, k, 0, window) && k < |fields| && Alone(fields[k])
    requires TypedData(fields[k], w.slots[fields[k].slot]) && Present(fields[k], w.slots[fields[k].slot])
    ensures KeyNext(fields, m, w, k, 0, WireType(fields[k].kind), window, value, rest)
  {
    hide Encoding, Tag, Typed, SameData, Restorable, Cleared, IsWireValue;
    var f, e0 := fields[k], w.slots[fields[k].slot];
    var e, next := NextField(fields, w, k, window);
    rest := next;
    RestorableAt(fields, w, k);
    var tag := Tag(f.tag, WireType(f.kind));
    value := Encoding(f, e0.value).value;
    EncodingIsValue(f, e0.value);
    assert e == tag + value && value + [] == value;
    SplitTag(tag, value, rest);
  }

  lemma KeyOfPacked(fields: seq<Field>, m: Value, w: Value, k: nat, window: Bytes) returns (value: Bytes, rest: Bytes)
    requires |window| < TWO_32
    requires Restoring(fields, m, w, k, 0) && Unread(fields, w, k, 0, window) && k < |fields|
    requires fields[k].rule.Repeated? && Packable(fields[k].kind)
    requires TypedData(fields[k], w.slots[fields[k].slot]) && Present(fields[k], w.slots[fields[k].slot])
    ensures KeyNext(fields, m, w, k, 0, WT_STRING, window, value, rest)
  {
    hide Encoding, ItemsEncoding, Tag, Typed, SameData, LengthPrefixed;
    var f, e0 := fields[k], w.slots[fields[k].slot];
    var e, next := NextField(fields, w, k, window);
    rest := next;
    var tag, body := Tag(f.tag, WT_STRING), ItemsEncoding(f, e0.values[..e0.count], 0, false).value;
    value := LengthPrefixed(body);
    Prefixed(body);
    assert e == tag + value && value + [] == value;
    SplitTag(tag, value, rest);
  }

  lemma ItemsFromField(fields: seq<Field>, w: Value, k: nat, window: Bytes)
    requires Unread(fields, w, k, 0, window) && k < |fields| && fields[k].rule.Repeated? && !Packable(fields[k].kind)
    requires TypedData(fields[k], w.slots[fields[k].slot]) && Present(fields[k], w.slots[fields[k].slot])
    ensures UnreadItems(fields, w, k, 0, window)
  {
    hide ItemsEncoding, Typed;
    var e, rest := NextField(fields, w, k, window);
  }

  lemma KeyOfItem(fields: seq<Field>, m: Value, w: Value, k: nat, j: nat, window: Bytes) returns (value: Bytes, rest: Bytes)
    requires Legal(fields) && RestorableTyped(fields, w) && |window| < TWO_32
    requires Restoring(fields, m, w, k, j) && k < |fields| && UnreadItems(fields, w, k, j, window)
    requires fields[k].rule.Repeated? && !Packable(fields[k].kind)
    requires TypedData(fields[k], w.slots[fields[k].slot]) && j < w.slots[fields[k].slot].count
    ensures KeyNext(fields, m, w, k, j, WireType(fields[k].kind), window, value, rest)
  {
    hide Encoding, Tag, Typed, SameData, Restorable, IsWireValue;
    var f, e0 := fields[k], w.slots[fields[k].slot];
    var vs := e0.values[..e0.count];
    RestorableAt(fields, w, k);
    var tag := Tag(f.tag, WireType(f.kind));
    value := Encoding(f, vs[j]).value;
    EncodingIsValue(f, vs[j]);
    assert value + [] == value;
    var items, fieldsAfter := ItemsEncoding(f, vs, j + 1, true).value, MessageEncoding(fields, w, k + 1).value;
    rest := items + fieldsAfter;
    assert window == tag + value + items + fieldsAfter;
    assert tag + value + items + fieldsAfter == tag + value + rest;
    SplitTag(tag, value, rest);
  }

  /** The key that comes next, when anything comes. */
  lemma KeyAhead(fields: seq<Field>, m: Value, w: Value, k: nat, j: nat, window: Bytes)
    returns (k': nat, wireType: nat, value: Bytes, rest: Bytes)
    requires Legal(fields) && RestorableTyped(fields, w) && |window| < TWO_32
    requires Restoring(fields, m, w, k, j) && Unread(fields, w, k, j, window) && window != []
    ensures k <= k' < |fields| && (j > 0 ==> k' == k)
    ensures KeyNext(fields, m, w, k', j, wireType, window, value, rest)
    ensures NoneRequired(fields, k, k')
  {
    hide Legal, RestorableTyped, KeyNext, Typed, SameData, Waiting, Same, Encoding;
    k' := k;
    if j == 0 {
      k' := SkipAbsent(fields, m, w, k, window);
    }
    var f, e := fields[k'], w.slots[fields[k'].slot];
    if Alone(f) {
      wireType := WireType(f.kind);
      value, rest := KeyOfAlone(fields, m, w, k', window);
    } else if Packable(f.kind) {
      wireType := WT_STRING;
      value, rest := KeyOfPacked(fields, m, w, k', window);
    } else {
      wireType := WireType(f.kind);
      if j == 0 {
        ItemsFromField(fields, w, k', window);
      }
      value, rest := KeyOfItem(fields, m, w, k', j, window);
    }
  }

  /** The next field, as a reader without the descriptor sees it. */
  lemma KeyNextField(fields: seq<Field>, m: Value, w: Value, k: nat, j: nat, wireType: nat, window: Bytes, value: Bytes, rest: Bytes)
    requires Legal(fields) && KeyNext(fields, m, w, k, j, wireType, window, value, rest)
    ensures k < |fields| && |value| <= |window|
    ensures var x := WireField(fields[k].tag, wireType, value);
      IsWireField(x) && window == FieldBytes(x) + rest
  {
    hide Tag, IsWireValue;
    SplitTag(Tag(fields[k].tag, wireType), value, rest);
  }

  method DecodeTag(s: IStream, ghost tag0: nat, ghost wireType0: nat, ghost after: Bytes)
    returns (ok: bool, wireType: nat, tag: nat, eof: bool)
    requires s.Valid()
    modifies s
    ensures s.Valid() && Advanced(old(s.At()), s.At())
    ensures ok ==> s.bytesLeft < old(s.bytesLeft)
    ensures 0 < tag0 < 0x2000_0000 && wireType0 < 8 && old(s.Window()) == Tag(tag0, wireType0) + after ==>
      ok && tag == tag0 && wireType == wireType0 && s.Window() == after
  {
    hide Varint;
    var temp;
    ok, temp, eof := s.DecodeVarint32(tag0 * 8 + wireType0, after);
    if !ok {
      return false, 0, 0, eof;
    }
    if temp == 0 {
      return false, 0, 0, true;
    }
    return true, temp % 8, temp / 8, eof;
  }

  /** The key of field at has been read; the fields from k to it are not in the struct. */
  ghost predicate KeyRead(fields: seq<Field>, m: Value, w: Value, k: nat, at: nat, j: nat, wireType: nat, tag: nat,
                          window: Bytes, value: Bytes, rest: Bytes, seen: set<nat>) {
    && KeyNext(fields, m, w, at, j, wireType, window, value, rest)
    && fields[at].tag == tag
    && k <= at
    && NoneRequired(fields, k, at)
    && SeenBefore(fields, k, seen)
  }

  /** Passes over bytes with the high bit set and the one after them. */
  method SkipVarint(s: IStream, ghost value: Bytes, ghost rest: Bytes) returns (ok: bool)
    requires s.Valid()
    modifies s
    ensures s.Valid() && Advanced(old(s.At()), s.At())
    ensures IsVarint(value) && old(s.Window()) == value + rest ==> ok && s.Window() == rest
  {
    ghost var start := s.At();
    ghost var given := IsVarint(value) && s.Window() == value + rest;
    NothingAdvanced(start);
    var byte: Byte := 128;
    ghost var i := 0;
    ok := true;
    while byte >= 128
      invariant s.Valid() && Advanced(start, s.At())
      invariant 0 <= i && (given ==> i <= |value|)
      invariant given ==> s.Window() == value[i..] + rest && (byte >= 128 <==> i < |value|)
      decreases s.bytesLeft, byte
    {
      ghost var before := s.At();
      ok, byte := s.ReadByte();
      AdvancedTwice(start, before, s.At());
      if !ok {
        return;
      }
      if given {
        assert value[i..] == [value[i]] + value[i+1..];
      }
      i := i + 1;
    }
  }

  method SkipString(s: IStream, ghost body: Bytes, ghost rest: Bytes) returns (ok: bool)
    requires s.Valid()
    modifies s
    ensures s.Valid() && Advanced(old(s.At()), s.At())
    ensures old(s.Window()) == LengthPrefixed(body) + rest && |body| < TWO_32 ==> ok && s.Window() == rest
  {
    hide LengthPrefixed;
    ghost var start := s.At();
    var length, skipped;
    ok, length := DecodeLength(s, body, rest);
    ghost var middle := s.At();
    if ok {
      ok, skipped := ReadBody(s, length, body, rest);
      AdvancedTwice(start, middle, s.At());
    }
  }

  method SkipBytes(s: IStream, count: nat, ghost value: Bytes, ghost rest: Bytes) returns (ok: bool)
    requires s.Valid()
    modifies s
    ensures s.Valid() && Advanced(old(s.At()), s.At())
    ensures |value| == count && old(s.Window()) == value + rest ==> ok && s.Window() == rest
  {
    var skipped;
    ok, skipped := ReadBody(s, count, value, rest);
  }

  /** Passes over a value of a field that the descriptor does not have. */
  method SkipField(s: IStream, wireType: nat, ghost value: Bytes, ghost rest: Bytes) returns (ok: bool)
    requires s.Valid()
    modifies s
    ensures s.Valid() && (ok ==> Advanced(old(s.At()), s.At()))
    ensures IsWireValue(wireType, value) && |value| < TWO_32 && old(s.Window()) == value + rest ==> ok && s.Window() == rest
  {
    hide Advanced, LengthPrefixed, IsVarint;
    ghost var body := [];
    if IsPrefixed(value) {
      body :| value == LengthPrefixed(body);
      PrefixLonger(body);
    }
    if wireType == WT_VARINT {
      ok := SkipVarint(s, value, rest);
    } else if wireType == WT_64BIT {
      ok := SkipBytes(s, 8, value, rest);
    } else if wireType == WT_STRING {
      ok := SkipString(s, body, rest);
    } else if wireType == WT_32BIT {
      ok := SkipBytes(s, 4, value, rest);
    } else {
      ok := false;
    }
  }

  // ----- one field

  /** Tags are different. */
  lemma OneField(fields: seq<Field>, i: nat, k: nat)
    requires Legal(fields) && i < |fields| && k < |fields| && fields[i].tag == fields[k].tag
    ensures i == k
  {
  }

  lemma LegalAt(fields: seq<Field>, i: nat)
    requires Legal(fields) && i < |fields|
    ensures LegalKind(fields[i]) && fields[i].tag > 0
    ensures exists k | 0 <= k < |fields| :: fields[k].tag == fields[i].tag
  {
  }

  /** A union that is about to be read into has not been chosen as anything else. */
  lemma ChosenBefore(fields: seq<Field>, m: Value, w: Value, k: nat, j: nat, wireType: nat, window: Bytes, value: Bytes, rest: Bytes)
    requires KeyNext(fields, m, w, k, j, wireType, window, value, rest)
    ensures k < |fields| && TypedMessage(fields, m) && TypedMessage(fields, w)
    ensures TypedData(fields[k], m.slots[fields[k].slot])
    ensures fields[k].rule.OneOf? ==> m.slots[fields[k].slot].which == 0 || m.slots[fields[k].slot].which == fields[k].tag
  {
  }

  /** Looks up what the union held before, which must be one of the fields, and comes back. */
  method ReleaseUnion(iter: FieldIter, f: Field, d: Data) returns (ok: bool)
    requires iter.Valid() && iter.fields != [] && iter.fields[iter.pos] == f && TypedData(f, d)
    modifies iter
    ensures iter.Valid()
    ensures !f.rule.OneOf? || d.which == 0 || d.which == f.tag ==> ok && iter.pos == old(iter.pos)
  {
    ok := true;
    if f.rule.OneOf? && d.which != 0 && d.which != f.tag {
      ok := iter.Find(d.which);
      if ok {
        ok := iter.Find(f.tag);
      }
    }
  }

  /** One more value of an array has been read. */
  ghost predicate ItemRead(f: Field, d: Data, r: Data, e: Data, j: nat)
    requires TypedData(f, d) && TypedData(f, r) && TypedData(f, e)
  {
    && f.rule.Repeated?
    && j < |d.values|
    && r.count == j + 1
    && Same(f, r.values[j], e.values[j])
    && forall i | 0 <= i < j :: r.values[i] == d.values[i]
  }

  /** A submessage in a union starts out cleared. */
  method UnionToDefault(f: Field, d: Data) returns (v: Value)
    requires LegalKind(f) && f.tag > 0 && TypedData(f, d) && f.rule.OneOf?
    ensures Typed(f, v) && Cleared(f, v)
    decreases f, 1
  {
    if f.kind.SubmessageKind? {
      var fields := f.kind.fields;
      ZeroMessageTyped(fields);
      v := SetToDefaults(fields, ZeroMessage(fields));
    } else if d.which == f.tag {
      v := d.value;
    } else {
      ZeroValueTyped(f);
      v := ZeroValue(f);
    }
  }

  method DecodeAlone(s: IStream, f: Field, d: Data, ghost e: Data, ghost rest: Bytes) returns (ok: bool, r: Data)
    requires s.Valid() && LegalKind(f) && f.tag > 0 && TypedData(f, d) && Alone(f)
    modifies s
    ensures s.Valid() && (ok ==> Advanced(old(s.At()), s.At()) && TypedData(f, r))
    ensures ok && f.rule.OneOf? ==> r.which == f.tag
    ensures BeginsAlone(f, d, e, old(s.Window()), rest) ==> ok && SameData(f, r, e) && s.Window() == rest
    decreases f, 2
  {
    hide Begins, Typed, Same, Cleared, Advanced;
    r := d;
    ghost var given := BeginsAlone(f, d, e, s.Window(), rest);
    ghost var w := if given then e.value else Number(0);
    var v: Value;
    match f.rule
    case Required =>
      ok, v := DecodeValue(s, f, d.value, w, rest);
      r := Single(v);
    case Optional =>
      ok, v := DecodeValue(s, f, d.value, w, rest);
      r := Flagged(true, v);
    case OneOf =>
      v := UnionToDefault(f, d);
      ok, v := DecodeValue(s, f, v, w, rest);
      r := Chosen(f.tag, v);
  }

  /** What the substream holds are the values from i on. */
  ghost predicate HoldsItems(f: Field, vs: seq<Value>, i: nat, window: Bytes) {
    && i <= |vs|
    && (forall k | 0 <= k < |vs| :: Typed(f, vs[k]))
    && |window| < TWO_32
    && ItemsEncoding(f, vs, i, false) == Some(window)
  }

  ghost predicate SamePrefix(f: Field, r: Data, vs: seq<Value>, n: nat)
    requires TypedData(f, r) && forall k | 0 <= k < |vs| :: Typed(f, vs[k])
  {
    f.rule.Repeated? && n <= |vs| && n <= |r.values| && forall i | 0 <= i < n :: Same(f, r.values[i], vs[i])
  }

  lemma ItemsTyped(f: Field, vs: seq<Value>, i: nat, window: Bytes)
    requires HoldsItems(f, vs, i, window)
    ensures forall k | 0 <= k < |vs| :: Typed(f, vs[k])
  {
  }

  lemma NextItem(f: Field, vs: seq<Value>, i: nat, window: Bytes) returns (rest: Bytes)
    requires HoldsItems(f, vs, i, window) && Packable(f.kind) && LegalKind(f)
    ensures i == |vs| <==> window == []
    ensures i < |vs| ==> Begins(f, vs[i], window, rest) && HoldsItems(f, vs, i + 1, rest)
  {
    rest := [];
    if i < |vs| {
      var e := Encoding(f, vs[i]);
      rest := ItemsEncoding(f, vs, i + 1, false).value;
      assert window == e.value + rest && e.value != [];
    }
  }

  lemma HeldAtMost(f: Field, vs: seq<Value>, i: nat, window: Bytes)
    requires HoldsItems(f, vs, i, window)
    ensures i <= |vs|
  {
  }

  method DecodePackedItems(sub: IStream, f: Field, d: Data, ghost vs: seq<Value>) returns (ok: bool, r: Data)
    requires sub.Valid() && LegalKind(f) && TypedData(f, d) && f.rule.Repeated? && Packable(f.kind)
    modifies sub
    ensures sub.Valid() && (ok ==> Advanced(old(sub.At()), sub.At())) && TypedData(f, r)
    ensures d.count == 0 && |vs| <= f.rule.arraySize && HoldsItems(f, vs, 0, old(sub.Window())) ==>
      ok && sub.bytesLeft == 0 && r.count == |vs| && SamePrefix(f, r, vs, |vs|)
    decreases f, 2
  {
    hide Begins, Typed, Same, HoldsItems, Advanced;
    ghost var given := d.count == 0 && |vs| <= f.rule.arraySize && HoldsItems(f, vs, 0, sub.Window());
    ghost var start := sub.At();
    NothingAdvanced(start);
    r := d;
    if given {
      ItemsTyped(f, vs, 0, sub.Window());
    }
    while sub.bytesLeft > 0 && r.count < f.rule.arraySize
      invariant sub.Valid() && Advanced(start, sub.At()) && TypedData(f, r)
      invariant given ==> HoldsItems(f, vs, r.count, sub.Window()) && SamePrefix(f, r, vs, r.count)
      decreases f.rule.arraySize - r.count
    {
      ghost var i := r.count;
      ghost var w, rest := Number(0), [];
      ghost var before := sub.At();
      if given {
        rest := NextItem(f, vs, i, sub.Window());
        w := vs[i];
      }
      var v;
      ok, v := DecodeValue(sub, f, r.values[r.count], w, rest);
      if !ok {
        return;
      }
      AdvancedTwice(start, before, sub.At());
      r := Counted(r.count + 1, r.values[r.count := v]);
    }
    ok := true;
    if given {
      var rest := NextItem(f, vs, r.count, sub.Window());
      HeldAtMost(f, vs, r.count, sub.Window());
    }
  }

  method DecodePacked(s: IStream, f: Field, d: Data, ghost e: Data, ghost rest: Bytes) returns (ok: bool, r: Data)
    requires s.Valid() && LegalKind(f) && TypedData(f, d) && f.rule.Repeated? && Packable(f.kind)
    modifies s
    ensures s.Valid() && (ok ==> Advanced(old(s.At()), s.At()) && TypedData(f, r))
    ensures BeginsPacked(f, d, e, old(s.Window()), rest) ==> ok && SameData(f, r, e) && s.Window() == rest
    decreases f, 3
  {
    hide Typed, Same, LengthPrefixed, Advanced, ItemsEncoding;
    ghost var given := BeginsPacked(f, d, e, s.Window(), rest);
    ghost var vs := if given then e.values[..e.count] else [];
    ghost var body := if given then ItemsEncoding(f, vs, 0, false).value else [];
    ghost var start := s.At();
    r := d;
    var sub;
    ok, sub := MakeStringSubstream(s, body, rest);
    if !ok {
      return;
    }
    ghost var middle := Cursor(s.state, sub.bytesLeft + s.bytesLeft);
    ghost var size := sub.bytesLeft;
    ok, r := DecodePackedItems(sub, f, d, vs);
    if !ok || sub.bytesLeft != 0 {
      return false, r;
    }
    CloseStringSubstream(s, sub, middle, size);
    AdvancedTwice(start, middle, s.At());
    if given {
      assert (body + rest)[|body|..] == rest;
    }
  }

  method DecodeItem(s: IStream, f: Field, d: Data, ghost e: Data, ghost j: nat, ghost rest: Bytes) returns (ok: bool, r: Data)
    requires s.Valid() && LegalKind(f) && TypedData(f, d) && f.rule.Repeated?
    modifies s
    ensures s.Valid() && (ok ==> Advanced(old(s.At()), s.At()) && TypedData(f, r))
    ensures BeginsItem(f, d, e, j, old(s.Window()), rest) ==> ok && ItemRead(f, d, r, e, j) && s.Window() == rest
    decreases f, 2
  {
    hide Begins, Typed, Same, Cleared, Advanced;
    r := d;
    if d.count >= f.rule.arraySize {
      return false, d;
    }
    ghost var given := BeginsItem(f, d, e, j, s.Window(), rest);
    ghost var w := if given then e.values[j] else Number(0);
    var v;
    ok, v := DecodeValue(s, f, d.values[d.count], w, rest);
    if ok {
      r := Counted(d.count + 1, d.values[d.count := v]);
    }
  }

  method DecodeField(s: IStream, wireType: nat, f: Field, d: Data, ghost e: Data, ghost j: nat, ghost rest: Bytes)
    returns (ok: bool, r: Data)
    requires s.Valid() && LegalKind(f) && f.tag > 0 && TypedData(f, d)
    modifies s
    ensures s.Valid() && (ok ==> Advanced(old(s.At()), s.At()) && TypedData(f, r))
    ensures ok && f.rule.OneOf? ==> r.which == f.tag
    ensures BeginsAlone(f, d, e, old(s.Window()), rest) ==> ok && SameData(f, r, e) && s.Window() == rest
    ensures BeginsPacked(f, d, e, old(s.Window()), rest) && wireType == WT_STRING ==> ok && SameData(f, r, e) && s.Window() == rest
    ensures BeginsItem(f, d, e, j, old(s.Window()), rest) ==> ok && ItemRead(f, d, r, e, j) && s.Window() == rest
    decreases f, 4
  {
    hide Begins, Typed, Same, Cleared, Advanced;
    if !f.rule.Repeated? {
      ok, r := DecodeAlone(s, f, d, e, rest);
    } else if wireType == WT_STRING && Packable(f.kind) {
      ok, r := DecodePacked(s, f, d, e, rest);
    } else {
      ok, r := DecodeItem(s, f, d, e, j, rest);
    }
  }

  /** What decoding the field must have done. */
  ghost predicate FieldRead(f: Field, d: Data, r: Data, e: Data, j: nat)
  {
    && TypedData(f, d) && TypedData(f, r) && TypedData(f, e)
    && (f.rule.OneOf? ==> r.which == f.tag)
    && if Alone(f) || Packable(f.kind) then SameData(f, r, e) else ItemRead(f, d, r, e, j)
  }

  ghost function Written(fields: seq<Field>, m: Value, k: nat, r: Data): Value
    requires k < |fields| && m.Message? && fields[k].slot < |m.slots|
  {
    Message(m.slots[fields[k].slot := r])
  }

  // ----- one more field restored

  lemma RestoringTyped(fields: seq<Field>, m: Value, w: Value, k: nat, j: nat)
    requires Restoring(fields, m, w, k, j)
    ensures TypedMessage(fields, m) && TypedMessage(fields, w)
  {
  }

  /** Reading field k leaves what is known of the others, also of those in the same union. */
  lemma OthersKept(fields: seq<Field>, m: Value, w: Value, k: nat, j: nat, r: Data)
    requires Legal(fields) && Restoring(fields, m, w, k, j) && k < |fields| && TypedData(fields[k], r)
    requires TypedData(fields[k], w.slots[fields[k].slot])
    requires fields[k].rule.OneOf? ==> r.which == fields[k].tag == w.slots[fields[k].slot].which
    ensures var m' := Written(fields, m, k, r);
      && TypedMessage(fields, m')
      && m'.slots[fields[k].slot] == r
      && (forall i | 0 <= i < k :: SameData(fields[i], m'.slots[fields[i].slot], w.slots[fields[i].slot]))
      && (forall i | k < i < |fields| :: Waiting(fields[i], m'.slots[fields[i].slot], w.slots[fields[i].slot]))
  {
    hide LegalKind, Typed, Partly;
    SlotWritten(fields, m, k, r);
    forall i | 0 <= i < |fields| && i != k && fields[i].slot == fields[k].slot
      ensures fields[i].rule.OneOf? && fields[k].rule.OneOf? && fields[i].tag != fields[k].tag
    {
      SharedSlot(fields, i, k);
    }
  }

  lemma WholeFieldRead(fields: seq<Field>, m: Value, w: Value, k: nat, j: nat, r: Data)
    requires Legal(fields) && Restoring(fields, m, w, k, j) && k < |fields| && TypedData(fields[k], r)
    requires TypedData(fields[k], w.slots[fields[k].slot]) && SameData(fields[k], r, w.slots[fields[k].slot])
    requires fields[k].rule.OneOf? ==> r.which == fields[k].tag == w.slots[fields[k].slot].which
    ensures Restoring(fields, Written(fields, m, k, r), w, k + 1, 0)
  {
    hide TypedData, SameData, Waiting, LegalKind;
    OthersKept(fields, m, w, k, j, r);
  }

  lemma ItemsSame(f: Field, d: Data, r: Data, e: Data, j: nat)
    requires TypedData(f, d) && TypedData(f, r) && TypedData(f, e) && !Packable(f.kind)
    requires ItemRead(f, d, r, e, j) && j < e.count <= |e.values| && Partly(f, d, e, j)
    ensures forall i | 0 <= i <= j :: Same(f, r.values[i], e.values[i])
    ensures j + 1 == e.count ==> SameData(f, r, e)
  {
    hide Same, Typed;
  }

  lemma OneItemRead(fields: seq<Field>, m: Value, w: Value, k: nat, j: nat, r: Data)
    requires Legal(fields) && Restoring(fields, m, w, k, j) && k < |fields| && TypedData(fields[k], r)
    requires var f, d, e := fields[k], m.slots[fields[k].slot], w.slots[fields[k].slot];
      && TypedData(f, d) && TypedData(f, e)
      && !Packable(f.kind)
      && ItemRead(f, d, r, e, j)
      && j < e.count <= |e.values|
    ensures var e := w.slots[fields[k].slot];
      Restoring(fields, Written(fields, m, k, r), w, if j + 1 == e.count then k + 1 else k, if j + 1 == e.count then 0 else j + 1)
  {
    hide Same, Typed, LegalKind;
    var f, d, e := fields[k], m.slots[fields[k].slot], w.slots[fields[k].slot];
    ItemsSame(f, d, r, e, j);
    if j + 1 == e.count {
      hide *;
      WholeFieldRead(fields, m, w, k, j, r);
    } else {
      hide SameData, Waiting;
      OthersKept(fields, m, w, k, j, r);
    }
  }

  lemma ItemsEnd(fields: seq<Field>, w: Value, k: nat, j: nat, rest: Bytes)
    requires TypedMessage(fields, w) && k < |fields| && UnreadItems(fields, w, k, j, rest) && j > 0
    ensures var e := w.slots[fields[k].slot];
      Unread(fields, w, if j == e.count then k + 1 else k, if j == e.count then 0 else j, rest)
  {
    hide Encoding, Typed;
    var f, e := fields[k], w.slots[fields[k].slot];
    if j == e.count {
      assert ItemsEncoding(f, e.values[..e.count], j, true) == Some([]);
      assert [] + MessageEncoding(fields, w, k + 1).value == MessageEncoding(fields, w, k + 1).value;
    }
  }

  lemma FieldRestored(fields: seq<Field>, m: Value, w: Value, k: nat, j: nat, wireType: nat, window: Bytes, value: Bytes,
                      rest: Bytes, r: Data) returns (k': nat, j': nat)
    requires Legal(fields) && KeyNext(fields, m, w, k, j, wireType, window, value, rest)
    requires FieldRead(fields[k], m.slots[fields[k].slot], r, w.slots[fields[k].slot], j)
    ensures Restoring(fields, Written(fields, m, k, r), w, k', j') && Unread(fields, w, k', j', rest)
    ensures k' == k || k' == k + 1
    ensures fields[k].rule.Required? ==> k' == k + 1
  {
    hide Begins, Typed, Same, SameData, Waiting, Legal, Restoring, UnreadItems, Unread;
    RestoringTyped(fields, m, w, k, j);
    var f, e := fields[k], w.slots[fields[k].slot];
    if Alone(f) || Packable(f.kind) {
      WholeFieldRead(fields, m, w, k, j, r);
      return k + 1, 0;
    }
    OneItemRead(fields, m, w, k, j, r);
    ItemsEnd(fields, w, k, j + 1, rest);
    k' := if j + 1 == e.count then k + 1 else k;
    j' := if j + 1 == e.count then 0 else j + 1;
  }

  /** The value comes next in the window. */
  ghost predicate Ahead(window: Bytes, value: Bytes, tail: Bytes) {
    window == value + tail && |window| < TWO_32
  }

  /** A field of the descriptor: its value goes to its place in the struct. */
  method DecodeKnown(s: IStream, iter: FieldIter, wireType: nat, m: Value, ghost w: Value,
                     ghost k: nat, ghost j: nat, ghost window: Bytes, ghost value: Bytes, ghost rest: Bytes, ghost tail: Bytes)
    returns (ok: bool, r: Value, ghost k': nat, ghost j': nat)
    requires s.Valid() && iter.Valid() && iter.fields != [] && Legal(iter.fields) && TypedMessage(iter.fields, m)
    modifies s, iter
    ensures s.Valid() && iter.Valid()
    ensures ok ==> Advanced(old(s.At()), s.At()) && TypedMessage(iter.fields, r)
    ensures KeyNext(iter.fields, m, w, k, j, wireType, window, value, rest) && old(iter.pos) == k && Ahead(old(s.Window()), value, tail) ==>
      && ok
      && Restoring(iter.fields, r, w, k', j')
      && Unread(iter.fields, w, k', j', rest)
      && s.Window() == tail
      && (k' == k || k' == k + 1)
      && (iter.fields[k].rule.Required? ==> k' == k + 1)
    decreases iter.fields, 0, 1
  {
    hide Restoring, Unread, UnreadItems, Typed, Begins, Same, SameData, Cleared, Waiting, RequiredBefore;
    var fields := iter.fields;
    ghost var given := KeyNext(fields, m, w, k, j, wireType, window, value, rest) && iter.pos == k && Ahead(s.Window(), value, tail);
    r := m;
    k', j' := 0, 0;
    var f := fields[iter.pos];
    var d := m.slots[f.slot];
    LegalAt(fields, iter.pos);
    if given {
      ChosenBefore(fields, m, w, k, j, wireType, window, value, rest);
      WhateverFollows(f, d, w.slots[f.slot], j, value, tail);
    }
    ok := ReleaseUnion(iter, f, d);
    if !ok {
      return;
    }
    ghost var e := if given then w.slots[f.slot] else d;
    var d';
    ok, d' := DecodeField(s, wireType, f, d, e, j, tail);
    if !ok {
      return;
    }
    SlotWritten(fields, m, old(iter.pos), d');
    r := Message(m.slots[f.slot := d']);
    if given {
      k', j' := FieldRestored(fields, m, w, k, j, wireType, window, value, rest, d');
    }
  }

  lemma SeenMore(fields: seq<Field>, k: nat, at: nat, k': nat, seen: set<nat>, seen': set<nat>)
    requires SeenBefore(fields, k, seen) && seen <= seen' && k <= at < |fields| && (k' == at || k' == at + 1)
    requires NoneRequired(fields, k, at)
    requires fields[at].rule.Required? && RequiredBefore(fields, at) < MAX_REQUIRED_FIELDS ==> RequiredBefore(fields, at) in seen'
    ensures SeenBefore(fields, k', seen')
  {
  }

  /** What follows a key: a field of the descriptor, or something to skip. */
  method DecodeTagged(s: IStream, iter: FieldIter, wireType: nat, tag: nat, m: Value, seen: set<nat>, ghost w: Value, ghost k: nat,
                      ghost at: nat, ghost j: nat, ghost window: Bytes, ghost value: Bytes, ghost rest: Bytes, ghost tail: Bytes)
    returns (ok: bool, r: Value, seen': set<nat>, ghost k': nat, ghost j': nat)
    requires s.Valid() && iter.Valid() && Legal(iter.fields) && TypedMessage(iter.fields, m)
    modifies s, iter
    ensures s.Valid() && iter.Valid()
    ensures ok ==> Advanced(old(s.At()), s.At()) && TypedMessage(iter.fields, r)
    ensures KeyRead(iter.fields, m, w, k, at, j, wireType, tag, window, value, rest, seen) && Ahead(old(s.Window()), value, tail) ==>
      && ok
      && Restoring(iter.fields, r, w, k', j')
      && Unread(iter.fields, w, k', j', rest)
      && s.Window() == tail
      && SeenBefore(iter.fields, k', seen')
    ensures tag > 0 && !HasTag(iter.fields, tag) && IsWireValue(wireType, value) && Ahead(old(s.Window()), value, tail) ==>
      ok && r == m && seen' == seen && s.Window() == tail
    decreases iter.fields, 0, 2
  {
    hide Restoring, Unread, SeenBefore, Legal, KeyNext, RequiredBefore, TypedMessage, Advanced, NoneRequired;
    var fields := iter.fields;
    r, seen', k', j' := m, seen, 0, 0;
    ghost var given := KeyRead(fields, m, w, k, at, j, wireType, tag, window, value, rest, seen) && Ahead(s.Window(), value, tail);
    if given {
      KeyNextField(fields, m, w, at, j, wireType, window, value, rest);
    }
    var found := iter.Find(tag);
    if !found {
      ok := SkipField(s, wireType, value, tail);
      return;
    }
    if fields == [] {
      return false, m, seen, 0, 0;
    }
    if fields[iter.pos].rule.Required? && iter.requiredFieldIndex < MAX_REQUIRED_FIELDS {
      seen' := seen' + {iter.requiredFieldIndex};
    }
    if given {
      OneField(fields, iter.pos, at);
    }
    ok, r, k', j' := DecodeKnown(s, iter, wireType, m, w, at, j, window, value, rest, tail);
    if given {
      SeenMore(fields, k, at, k', seen, seen');
    }
  }

  /** The fields to come; those of the descriptor among them are what has not been read yet. */
  ghost predicate AmongFields(fields: seq<Field>, m: Value, w: Value, k: nat, j: nat, xs: seq<WireField>, window: Bytes, seen: set<nat>) {
    && AllWireFields(xs)
    && window == WireBytes(xs)
    && |window| < TWO_32
    && OnTheWay(fields, m, w, k, j, WireBytes(Known(fields, xs)), seen)
  }

  lemma FirstField(xs: seq<WireField>)
    requires xs != [] && AllWireFields(xs)
    ensures IsWireField(xs[0]) && IsWireValue(xs[0].wireType, xs[0].value) && AllWireFields(xs[1..]) && xs[0].wireType < 8 && 0 < xs[0].tag < 0x2000_0000
    ensures WireBytes(xs) == FieldBytes(xs[0]) + WireBytes(xs[1..])
    ensures WireBytes(xs) == Tag(xs[0].tag, xs[0].wireType) + (xs[0].value + WireBytes(xs[1..]))
    ensures |xs[0].value + WireBytes(xs[1..])| <= |WireBytes(xs)|
  {
    hide Tag, IsWireValue;
    WireTypes(xs[0]);
    SplitTag(Tag(xs[0].tag, xs[0].wireType), xs[0].value, WireBytes(xs[1..]));
  }

  lemma KnownFirst(fields: seq<Field>, xs: seq<WireField>)
    requires xs != []
    ensures WireBytes(Known(fields, xs)) ==
      if HasTag(fields, xs[0].tag) then FieldBytes(xs[0]) + WireBytes(Known(fields, xs[1..])) else WireBytes(Known(fields, xs[1..]))
  {
    hide HasTag, WireBytes, FieldBytes;
    Singly(xs[0]);
    WireBytesJoin([xs[0]], Known(fields, xs[1..]));
    assert [] + Known(fields, xs[1..]) == Known(fields, xs[1..]);
  }

  lemma NonemptyTag(x: WireField)
    ensures FieldBytes(x) != []
  {
    hide Varint;
  }

  lemma NoBytes(xs: seq<WireField>)
    ensures WireBytes(xs) == [] <==> xs == []
  {
    if xs != [] {
      NonemptyTag(xs[0]);
    }
  }

  lemma StillAdvanced(a: Cursor, b: Cursor)
    requires Advanced(a, b)
    ensures b.left <= a.left
  {
  }

  /** A field that the descriptor has is the one that comes next of what has not been read yet. */
  lemma KnownAhead(fields: seq<Field>, m: Value, w: Value, k: nat, j: nat, xs: seq<WireField>, window: Bytes, seen: set<nat>)
    returns (at: nat)
    requires Legal(fields) && AmongFields(fields, m, w, k, j, xs, window, seen) && xs != [] && HasTag(fields, xs[0].tag)
    ensures k <= at
    ensures KeyRead(fields, m, w, k, at, j, xs[0].wireType, xs[0].tag, WireBytes(Known(fields, xs)), xs[0].value,
                    WireBytes(Known(fields, xs[1..])), seen)
  {
    hide Legal, KeyNext, Restoring, Unread, RestorableTyped, SeenBefore, NoneRequired, HasTag, IsWireField, FieldBytes, WireBytes, Known;
    FirstField(xs);
    KnownFirst(fields, xs);
    NonemptyTag(xs[0]);
    var known := WireBytes(Known(fields, xs));
    var wireType, value, rest;
    at, wireType, value, rest := KeyAhead(fields, m, w, k, j, known);
    KeyNextField(fields, m, w, at, j, wireType, known, value, rest);
    FieldEnds(xs[0], WireBytes(Known(fields, xs[1..])), WireField(fields[at].tag, wireType, value), rest);
  }

  /** One key and what follows it. */
  method DecodeNext(s: IStream, iter: FieldIter, m: Value, seen: set<nat>, ghost w: Value, ghost k: nat, ghost j: nat, ghost xs: seq<WireField>)
    returns (ok: bool, eof: bool, r: Value, seen': set<nat>, ghost k': nat, ghost j': nat)
    requires s.Valid() && s.bytesLeft > 0 && iter.Valid() && Legal(iter.fields) && TypedMessage(iter.fields, m)
    modifies s, iter
    ensures s.Valid() && iter.Valid()
    ensures ok || eof ==> Advanced(old(s.At()), s.At()) && TypedMessage(iter.fields, r) && s.bytesLeft <= old(s.bytesLeft)
    ensures ok ==> s.bytesLeft < old(s.bytesLeft)
    ensures AmongFields(iter.fields, m, w, k, j, xs, old(s.Window()), seen) ==>
      ok && xs != [] && AmongFields(iter.fields, r, w, k', j', xs[1..], s.Window(), seen')
    decreases iter.fields, 0, 3
  {
    hide Restoring, Unread, RestorableTyped, SeenBefore, Legal, KeyNext, RequiredBefore, Tag, TypedMessage,
         HasTag, IsWireField, IsWireValue, AllWireFields, FieldBytes, WireBytes, Known, Advanced;
    r, seen', k', j' := m, seen, k, j;
    ghost var given := AmongFields(iter.fields, m, w, k, j, xs, s.Window(), seen);
    ghost var start := s.At();
    ghost var x, tail := WireField(0, 0, []), [];
    ghost var at: nat := 0;
    if given {
      NoBytes(xs);
      FirstField(xs);
      KnownFirst(iter.fields, xs);
      x, tail := xs[0], WireBytes(xs[1..]);
      if HasTag(iter.fields, x.tag) {
        at := KnownAhead(iter.fields, m, w, k, j, xs, s.Window(), seen);
      }
    }
    var wireType, tag;
    ok, wireType, tag, eof := DecodeTag(s, x.tag, x.wireType, x.value + tail);
    if !ok {
      StillAdvanced(start, s.At());
      return;
    }
    eof := false;
    ghost var middle := s.At();
    ghost var known, rest := WireBytes(Known(iter.fields, xs)), if given then WireBytes(Known(iter.fields, xs[1..])) else [];
    ghost var k2: nat, j2: nat;
    ok, r, seen', k2, j2 := DecodeTagged(s, iter, wireType, tag, m, seen, w, k, at, j, known, x.value, rest, tail);
    if ok {
      AdvancedTwice(start, middle, s.At());
      StillAdvanced(middle, s.At());
    }
    if given && HasTag(iter.fields, x.tag) {
      k', j' := k2, j2;
    }
  }

  /** Values of an array that have not been read take some bytes. */
  lemma ItemsTakeBytes(fields: seq<Field>, m: Value, w: Value, k: nat, j: nat, window: Bytes)
    requires Restoring(fields, m, w, k, j) && Unread(fields, w, k, j, window)
    ensures window == [] ==> j == 0
  {
    hide Typed, SameData, Waiting, Same, Encoding;
  }

  lemma Arrived(fields: seq<Field>, m: Value, w: Value, k: nat, j: nat, seen: set<nat>)
    requires Legal(fields) && OnTheWay(fields, m, w, k, j, [], seen)
    ensures TypedMessage(fields, m) && TypedMessage(fields, w) && SameMessage(fields, m, w) && SeenBefore(fields, |fields|, seen)
  {
    hide Legal, RestorableTyped, Typed, SameData, Waiting, Same, Encoding;
    ItemsTakeBytes(fields, m, w, k, j, []);
    var k' := SkipAbsent(fields, m, w, k, []);
  }

  // ----- the whole struct

  /** The window is a list of fields; those of the descriptor among them are the encoding of w. */
  ghost predicate EncodesAmong(fields: seq<Field>, w: Value, xs: seq<WireField>, window: Bytes) {
    && AllWireFields(xs)
    && window == WireBytes(xs)
    && |window| < TWO_32
    && Encodes(fields, w, WireBytes(Known(fields, xs)))
  }

  lemma EncodesAlone(fields: seq<Field>, w: Value, window: Bytes) returns (xs: seq<WireField>)
    requires Legal(fields) && Encodes(fields, w, window)
    ensures EncodesAmong(fields, w, xs, window)
  {
    hide Legal, MessageEncoding, AllWireFields, WireBytes, Known, TypedMessage, RestorableMessage;
    xs := MessageFields(fields, w, 0);
  }

  lemma UnderwayAmong(fields: seq<Field>, m: Value, w: Value, xs: seq<WireField>, window: Bytes)
    requires Legal(fields) && TypedMessage(fields, m) && EncodesAmong(fields, w, xs, window) && ClearedMessage(fields, m)
    ensures AmongFields(fields, m, w, 0, 0, xs, window, {})
  {
    hide Legal, TypedMessage, Encodes, ClearedMessage, OnTheWay, AllWireFields, WireBytes, Known;
    Underway(fields, m, w, WireBytes(Known(fields, xs)));
  }

  lemma ArrivedAmong(fields: seq<Field>, m: Value, w: Value, k: nat, j: nat, xs: seq<WireField>, seen: set<nat>)
    requires Legal(fields) && AmongFields(fields, m, w, k, j, xs, [], seen)
    ensures TypedMessage(fields, m) && TypedMessage(fields, w) && SameMessage(fields, m, w) && SeenBefore(fields, |fields|, seen)
  {
    hide Legal, TypedMessage, SameMessage, SeenBefore, OnTheWay;
    NoBytes(xs);
    Arrived(fields, m, w, k, j, seen);
  }

  /** Goes on to the last field to count the required ones, of which the first must all have been seen. */
  method AllRequiredSeen(iter: FieldIter, seen: set<nat>) returns (ok: bool)
    requires iter.Valid()
    modifies iter
    ensures ok <==> SeenBefore(iter.fields, |iter.fields|, seen)
  {
    var fields := iter.fields;
    var count := iter.requiredFieldIndex;
    var lastRequired := false;
    var more := true;
    while more
      invariant iter.Valid() && iter.fields == fields
      invariant !more ==> count + (if lastRequired then 1 else 0) == RequiredBefore(fields, |fields|)
      decreases more, |fields| - iter.pos
    {
      count := iter.requiredFieldIndex;
      lastRequired := fields != [] && fields[iter.pos].rule.Required?;
      more := iter.Next();
    }
    if lastRequired {
      count := count + 1;
    }
    if count > MAX_REQUIRED_FIELDS {
      count := MAX_REQUIRED_FIELDS;
    }
    for c := 0 to count
      invariant forall b: nat | b < c :: b in seen
    {
      if c !in seen {
        var i := RequiredAt(fields, |fields|, c);
        assert !SeenBefore(fields, |fields|, seen);
        return false;
      }
    }
    forall i | 0 <= i < |fields| && fields[i].rule.Required? && RequiredBefore(fields, i) < MAX_REQUIRED_FIELDS
      ensures RequiredBefore(fields, i) in seen
    {
      RequiredGrows(fields, i, |fields|);
    }
    return true;
  }

  /** Decodes into a struct as it is. Fields that the descriptor does not have may come in between. */
  method PbDecodeNoinit(s: IStream, fields: seq<Field>, dest: Value, ghost w: Value, ghost among: seq<WireField>) returns (ok: bool, m: Value)
    requires s.Valid() && Legal(fields) && TypedMessage(fields, dest)
    modifies s
    ensures s.Valid() && (ok ==> Advanced(old(s.At()), s.At()) && TypedMessage(fields, m))
    ensures Encodes(fields, w, old(s.Window())) && ClearedMessage(fields, dest) ==>
      ok && SameMessage(fields, m, w) && s.bytesLeft == 0
    ensures EncodesAmong(fields, w, among, old(s.Window())) && ClearedMessage(fields, dest) ==>
      ok && TypedMessage(fields, w) && SameMessage(fields, m, w) && s.bytesLeft == 0
    decreases fields, 0, 4
  {
    hide Legal, TypedMessage, Encodes, ClearedMessage, SameMessage, OnTheWay, SeenBefore, Advanced, EncodesAmong, AmongFields;
    var iter := new FieldIter(fields);
    ghost var start := s.At();
    ghost var xs := among;
    if Encodes(fields, w, s.Window()) {
      xs := EncodesAlone(fields, w, s.Window());
    }
    ghost var given := EncodesAmong(fields, w, xs, s.Window()) && ClearedMessage(fields, dest);
    NothingAdvanced(start);
    var seen: set<nat> := {};
    m := dest;
    ghost var k, j := 0, 0;
    if given {
      UnderwayAmong(fields, m, w, xs, s.Window());
    }
    var eof := false;
    while s.bytesLeft > 0 && !eof
      invariant s.Valid() && Advanced(start, s.At()) && TypedMessage(fields, m)
      invariant iter.Valid() && iter.fields == fields && fresh(iter)
      invariant given ==> !eof && AmongFields(fields, m, w, k, j, xs, s.Window(), seen)
      decreases s.bytesLeft, !eof
    {
      ghost var before := s.At();
      ok, eof, m, seen, k, j := DecodeNext(s, iter, m, seen, w, k, j, xs);
      if !ok && !eof {
        return;
      }
      AdvancedTwice(start, before, s.At());
      eof := !ok;
      xs := if given then xs[1..] else xs;
    }
    if given {
      ArrivedAmong(fields, m, w, k, j, xs, seen);
    }
    ok := AllRequiredSeen(iter, seen);
  }

  /** Clears the struct, then decodes. */
  method PbDecode(s: IStream, fields: seq<Field>, dest: Value, ghost w: Value, ghost among: seq<WireField>) returns (ok: bool, m: Value)
    requires s.Valid() && Legal(fields) && TypedMessage(fields, dest)
    modifies s
    ensures s.Valid() && (ok ==> Advanced(old(s.At()), s.At()) && TypedMessage(fields, m))
    ensures Encodes(fields, w, old(s.Window())) ==> ok && SameMessage(fields, m, w) && s.bytesLeft == 0
    ensures EncodesAmong(fields, w, among, old(s.Window())) ==>
      ok && TypedMessage(fields, w) && SameMessage(fields, m, w) && s.bytesLeft == 0
    decreases fields, 1
  {
    m := SetToDefaults(fields, dest);
    ok, m := PbDecodeNoinit(s, fields, m, w, among);
  }

  lemma SubmessageSame(f: Field, fields: seq<Field>, v: Value, w: Value)
    requires f.kind == SubmessageKind(fields) && Typed(f, v) && Typed(f, w)
    requires TypedMessage(fields, v) && TypedMessage(fields, w) && SameMessage(fields, v, w)
    ensures Same(f, v, w)
  {
    hide TypedMessage, SameMessage;
  }

  method DecodeSubmessage(s: IStream, f: Field, fields: seq<Field>, dest: Value, ghost w: Value, ghost rest: Bytes)
    returns (ok: bool, v: Value)
    requires s.Valid() && LegalKind(f) && f.kind == SubmessageKind(fields) && Typed(f, dest)
    modifies s
    ensures s.Valid() && (ok ==> Advanced(old(s.At()), s.At()) && Typed(f, v))
    ensures Begins(f, w, old(s.Window()), rest) && (f.rule.Repeated? || Cleared(f, dest)) ==>
      ok && Same(f, v, w) && s.Window() == rest
    decreases fields, 2
  {
    hide LengthPrefixed, Begins, Typed, Same, Cleared, Encodes, LegalKind, Advanced, TypedMessage, ClearedMessage, SameMessage, Legal;
    ghost var given := Begins(f, w, s.Window(), rest);
    ghost var body := if given then SubmessageBody(f, fields, w, s.Window(), rest) else [];
    SubmessageKinds(f, fields, dest);
    ghost var start := s.At();
    v := dest;
    var sub;
    ok, sub := MakeStringSubstream(s, body, rest);
    if !ok {
      return;
    }
    ghost var middle := Cursor(s.state, sub.bytesLeft + s.bytesLeft);
    ghost var size := sub.bytesLeft;
    if f.rule.Repeated? {
      ok, v := PbDecode(sub, fields, dest, w, []);
    } else {
      ok, v := PbDecodeNoinit(sub, fields, dest, w, []);
    }
    if !ok {
      return;
    }
    CloseStringSubstream(s, sub, middle, size);
    AdvancedTwice(start, middle, s.At());
    SubmessageKinds(f, fields, v);
    if given && (f.rule.Repeated? || Cleared(f, dest)) {
      assert (body + rest)[|body|..] == rest;
      SubmessageSame(f, fields, v, w);
    }
  }

  method DecodeValue(s: IStream, f: Field, dest: Value, ghost w: Value, ghost rest: Bytes) returns (ok: bool, v: Value)
    requires s.Valid() && LegalKind(f) && Typed(f, dest)
    modifies s
    ensures s.Valid() && (ok ==> Advanced(old(s.At()), s.At()) && Typed(f, v))
    ensures Begins(f, w, old(s.Window()), rest) && (f.rule.Repeated? || Cleared(f, dest)) ==>
      ok && Same(f, v, w) && s.Window() == rest
    decreases f, 0
  {
    match f.kind
    case VarintKind => ok, v := DecodeSigned(s, f, w, rest);
    case UVarintKind => ok, v := DecodeUnsigned(s, f, w, rest);
    case SVarintKind => ok, v := DecodeZigZag(s, f, w, rest);
    case Fixed32Kind => ok, v := DecodeFixed(s, f, w, rest);
    case Fixed64Kind => ok, v := DecodeFixed(s, f, w, rest);
    case BytesKind => ok, v := DecodeBytes(s, f, dest, w, rest);
    case StringKind => ok, v := DecodeString(s, f, dest, w, rest);
    case FixedBytesKind => ok, v := DecodeFixedBytes(s, f, dest, if w.Buffer? then w.chars else [], rest);
    case SubmessageKind(fields) => ok, v := DecodeSubmessage(s, f, fields, dest, w, rest);
  }

  // ----- there and back

  /** The size a struct is encoded in, by a pass that only counts. */
  method GetEncodedSize(fields: seq<Field>, m: Value) returns (ok: bool, size: nat)
    requires TypedMessage(fields, m)
    ensures ok <==> MessageEncoding(fields, m, 0).Some?
    ensures ok ==> size == |MessageEncoding(fields, m, 0).value|
  {
    hide MessageEncoding, TypedMessage;
    var s := new OStream(Limits(true, 0), []);
    ok := PbEncode.PbEncode(s, fields, m);
    size := s.bytesWritten;
  }

  /** A struct encoded into a buffer and decoded into another struct: encoding succeeds exactly when
      the counted size fits, and decoding then restores every field that is present. */
  method RoundTrip(fields: seq<Field>, m: Value, dest: Value, maxSize: nat) returns (fits: bool, size: nat, restored: bool, r: Value)
    requires Legal(fields) && TypedMessage(fields, m) && RestorableMessage(fields, m) && TypedMessage(fields, dest)
    requires maxSize < TWO_32
    ensures fits <==> MessageEncoding(fields, m, 0).Some? && |MessageEncoding(fields, m, 0).value| <= maxSize
    ensures fits ==> size == |MessageEncoding(fields, m, 0).value|
    ensures restored <==> fits
    ensures fits ==> TypedMessage(fields, r) && SameMessage(fields, r, m)
  {
    hide MessageEncoding, TypedMessage, SameMessage, Legal, RestorableMessage, Advanced;
    var s := new OStream(Limits(false, maxSize), []);
    fits := PbEncode.PbEncode(s, fields, m);
    size, restored, r := s.bytesWritten, false, dest;
    if fits {
      var bytes := s.state;
      var input := new IStream(bytes, |bytes|);
      assert input.Window() == bytes == MessageEncoding(fields, m, 0).value;
      restored, r := PbDecode(input, fields, dest, m, []);
    }
  }
}
