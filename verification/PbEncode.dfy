/** The encoder: a submessage is encoded once to learn its size and a second time to write it. */
module PbEncode {
  import opened Keys
  import opened Coding
  import opened PbWire
  import opened PbMessages
  import opened PbFields

  method EncodeTagForField(s: OStream, f: Field) returns (ok: bool)
    requires Within(s.limits, s.At())
    modifies s
    ensures Writes(s.limits, old(s.At()), s.At(), ok, Some(Tag(f.tag, WireType(f.kind))))
  {
    ok := s.EncodeTag(WireType(f.kind), f.tag);
  }

  method EncodeChars(s: OStream, chars: Bytes) returns (ok: bool)
    requires Within(s.limits, s.At())
    modifies s
    ensures Writes(s.limits, old(s.At()), s.At(), ok, Some(LengthPrefixed(chars[..StringLength(chars)])))
  {
    hide Writes, LengthPrefixed;
    var size := 0;
    while size < |chars| && chars[size] != 0
      invariant size <= |chars| && forall i | 0 <= i < size :: chars[i] != 0
    {
      size := size + 1;
    }
    assert size == StringLength(chars);
    ok := s.EncodeString(chars[..size]);
  }

  lemma NothingWritten(l: Limits, a: Progress)
    requires Within(l, a)
    ensures Writes(l, a, a, true, Some([]))
  {
    assert a.bytes + [] == a.bytes;
  }

  lemma ThenNothing(e: Option<Bytes>)
    ensures Then(e, Some([])) == e && Then(Some([]), e) == e
  {
    if e.Some? {
      assert e.value + [] == e.value && [] + e.value == e.value;
    }
  }

  method EncodeTagged(s: OStream, f: Field, v: Value) returns (ok: bool)
    requires Within(s.limits, s.At())
    requires Typed(f, v)
    modifies s
    ensures Writes(s.limits, old(s.At()), s.At(), ok, Then(Some(Tag(f.tag, WireType(f.kind))), Encoding(f, v)))
    decreases f, 1
  {
    hide Writes, Typed, Encoding, Tag;
    ghost var a := s.At();
    ok := EncodeTagForField(s, f);
    ghost var b := s.At();
    var ok' := false;
    if ok {
      ok' := EncodeValue(s, f, v);
    }
    WritesThen(s.limits, a, b, s.At(), ok, Some(Tag(f.tag, WireType(f.kind))), ok', Encoding(f, v));
    ok := ok && ok';
  }

  lemma {:induction false} FixedItems(f: Field, vs: seq<Value>, i: nat, size: nat)
    requires i <= |vs| && forall k | 0 <= k < |vs| :: Typed(f, vs[k])
    requires (f.kind.Fixed32Kind? && size == 4) || (f.kind.Fixed64Kind? && size == 8)
    ensures var e := ItemsEncoding(f, vs, i, false); e.Some? && |e.value| == size * (|vs| - i)
    decreases |vs| - i
  {
    if i < |vs| {
      FixedItems(f, vs, i + 1, size);
      assert |Encoding(f, vs[i]).value| == size;
    }
  }

  lemma WritesFails(l: Limits, a: Progress, b: Progress, e: Option<Bytes>, rest: Option<Bytes>)
    requires Writes(l, a, b, false, e)
    ensures Writes(l, a, b, false, Then(e, rest))
  {
  }

  method EncodeItems(s: OStream, f: Field, vs: seq<Value>, tagged: bool) returns (ok: bool)
    requires Within(s.limits, s.At())
    requires forall k | 0 <= k < |vs| :: Typed(f, vs[k])
    modifies s
    ensures Writes(s.limits, old(s.At()), s.At(), ok, ItemsEncoding(f, vs, 0, tagged))
    decreases f, 2
  {
    hide Writes, Then, Encoding, Typed, Tag;
    ghost var a := s.At();
    ghost var done := Some([]);
    NothingWritten(s.limits, a);
    ThenNothing(ItemsEncoding(f, vs, 0, tagged));
    for i := 0 to |vs|
      invariant Within(s.limits, s.At()) && Writes(s.limits, a, s.At(), true, done)
      invariant Then(done, ItemsEncoding(f, vs, i, tagged)) == ItemsEncoding(f, vs, 0, tagged)
    {
      ghost var b := s.At();
      ghost var e := if tagged then Then(Some(Tag(f.tag, WireType(f.kind))), Encoding(f, vs[i])) else Encoding(f, vs[i]);
      ghost var rest := ItemsEncoding(f, vs, i + 1, tagged);
      if tagged {
        ok := EncodeTagged(s, f, vs[i]);
      } else {
        ok := EncodeValue(s, f, vs[i]);
      }
      WritesThen(s.limits, a, b, s.At(), true, done, ok, e);
      ThenAssociates(done, e, rest);
      if !ok {
        WritesFails(s.limits, a, s.At(), Then(done, e), rest);
        return;
      }
      done := Then(done, e);
    }
    ThenNothing(done);
    ok := true;
  }

  method PackedSize(f: Field, vs: seq<Value>) returns (ok: bool, size: nat)
    requires Packable(f.kind) && forall k | 0 <= k < |vs| :: Typed(f, vs[k])
    ensures var e := ItemsEncoding(f, vs, 0, false);
      (ok <==> e.Some?) && (ok ==> size == |e.value|)
    decreases f, 3
  {
    if f.kind.Fixed32Kind? {
      FixedItems(f, vs, 0, 4);
      return true, 4 * |vs|;
    }
    if f.kind.Fixed64Kind? {
      FixedItems(f, vs, 0, 8);
      return true, 8 * |vs|;
    }
    var sub := new OStream(Limits(true, 0), []);
    ok := EncodeItems(sub, f, vs, false);
    size := sub.bytesWritten;
  }

  method EncodePackedData(s: OStream, f: Field, vs: seq<Value>) returns (ok: bool)
    requires Within(s.limits, s.At())
    requires Packable(f.kind) && forall k | 0 <= k < |vs| :: Typed(f, vs[k])
    modifies s
    ensures var e := ItemsEncoding(f, vs, 0, false);
      Writes(s.limits, old(s.At()), s.At(), ok, if e.Some? then Some(LengthPrefixed(e.value)) else None)
    decreases f, 4
  {
    hide Varint, ItemsEncoding, Typed;
    var size;
    ok, size := PackedSize(f, vs);
    if !ok {
      return;
    }
    ok := s.EncodeVarint(size);
    if !ok {
      return;
    }
    if s.limits.sizing {
      s.Count(size);
      return;
    }
    ok := EncodeItems(s, f, vs, false);
  }

  method EncodePacked(s: OStream, f: Field, vs: seq<Value>) returns (ok: bool)
    requires Within(s.limits, s.At())
    requires Packable(f.kind) && forall k | 0 <= k < |vs| :: Typed(f, vs[k])
    modifies s
    ensures var e := ItemsEncoding(f, vs, 0, false);
      Writes(s.limits, old(s.At()), s.At(), ok, if e.Some? then Some(Tag(f.tag, WT_STRING) + LengthPrefixed(e.value)) else None)
    decreases f, 5
  {
    ghost var a := s.At();
    ok := s.EncodeTag(WT_STRING, f.tag);
    ghost var b := s.At();
    if ok {
      ok := EncodePackedData(s, f, vs);
    }
  }

  /** An array is packed when its type allows; its size is found by a first pass, or by
      multiplication when all values have the same size. */
  method EncodeArray(s: OStream, f: Field, values: seq<Value>, count: nat) returns (ok: bool)
    requires Within(s.limits, s.At())
    requires f.rule.Repeated? && TypedData(f, Counted(count, values))
    modifies s
    ensures Writes(s.limits, old(s.At()), s.At(), ok, FieldEncoding(f, Counted(count, values)))
    decreases f, 6
  {
    if count == 0 {
      NothingWritten(s.limits, s.At());
      return true;
    }
    if count > f.rule.arraySize {
      return false;
    }
    var vs := values[..count];
    if Packable(f.kind) {
      ok := EncodePacked(s, f, vs);
    } else {
      ok := EncodeItems(s, f, vs, true);
    }
  }

  method EncodeField(s: OStream, f: Field, d: Data) returns (ok: bool)
    requires Within(s.limits, s.At())
    requires TypedData(f, d)
    modifies s
    ensures Writes(s.limits, old(s.At()), s.At(), ok, FieldEncoding(f, d))
    decreases f, 7
  {
    match f.rule
    case Required =>
      ok := EncodeTagged(s, f, d.value);
    case Optional =>
      if d.has {
        ok := EncodeTagged(s, f, d.value);
      } else {
        NothingWritten(s.limits, s.At());
        ok := true;
      }
    case Repeated(size) =>
      ok := EncodeArray(s, f, d.values, d.count);
    case OneOf =>
      if d.which == f.tag {
        ok := EncodeTagged(s, f, d.value);
      } else {
        NothingWritten(s.limits, s.At());
        ok := true;
      }
  }

  method PbEncode(s: OStream, fields: seq<Field>, m: Value) returns (ok: bool)
    requires Within(s.limits, s.At())
    requires TypedMessage(fields, m)
    modifies s
    ensures Writes(s.limits, old(s.At()), s.At(), ok, MessageEncoding(fields, m, 0))
    decreases fields, 0
  {
    var iter := new FieldIter(fields);
    if fields == [] {
      NothingWritten(s.limits, s.At());
      return true;
    }
    hide Writes, Then, FieldEncoding, TypedData;
    ghost var a := s.At();
    ghost var done := Some([]);
    NothingWritten(s.limits, a);
    ThenNothing(MessageEncoding(fields, m, 0));
    var more := true;
    while more
      invariant iter.Valid() && fresh(iter) && iter.fields == fields
      invariant Within(s.limits, s.At()) && Writes(s.limits, a, s.At(), true, done)
      invariant if more then Then(done, MessageEncoding(fields, m, iter.pos)) == MessageEncoding(fields, m, 0)
                else done == MessageEncoding(fields, m, 0)
      decreases more, |fields| - iter.pos
    {
      var k := iter.pos;
      ghost var b := s.At();
      assert TypedData(fields[k], m.slots[fields[k].slot]);
      ok := EncodeField(s, fields[k], m.slots[fields[k].slot]);
      ghost var e := FieldEncoding(fields[k], m.slots[fields[k].slot]);
      ghost var rest := MessageEncoding(fields, m, k + 1);
      WritesThen(s.limits, a, b, s.At(), true, done, ok, e);
      ThenAssociates(done, e, rest);
      if !ok {
        WritesFails(s.limits, a, s.At(), Then(done, e), rest);
        return;
      }
      done := Then(done, e);
      more := iter.Next();
      ThenNothing(done);
    }
    ok := true;
  }

  method EncodeSubmessage(s: OStream, fields: seq<Field>, m: Value) returns (ok: bool)
    requires Within(s.limits, s.At())
    requires TypedMessage(fields, m)
    modifies s
    ensures var e := MessageEncoding(fields, m, 0);
      Writes(s.limits, old(s.At()), s.At(), ok, if e.Some? then Some(LengthPrefixed(e.value)) else None)
    decreases fields, 1
  {
    hide Varint, MessageEncoding, TypedMessage;
    var sub := new OStream(Limits(true, 0), []);
    ok := PbEncode(sub, fields, m);
    if !ok {
      return;
    }
    var size := sub.bytesWritten;
    ok := s.EncodeVarint(size);
    if !ok {
      return;
    }
    if s.limits.sizing {
      s.Count(size);
      return;
    }
    if s.bytesWritten + size > s.limits.maxSize {
      return false;
    }
    sub := new OStream(Limits(false, size), s.state);
    ok := PbEncode(sub, fields, m);
    s.bytesWritten := s.bytesWritten + sub.bytesWritten;
    s.state := sub.state;
    if sub.bytesWritten != size {
      assert false;
    }
  }

  method EncodeValue(s: OStream, f: Field, v: Value) returns (ok: bool)
    requires Within(s.limits, s.At())
    requires Typed(f, v)
    modifies s
    ensures Writes(s.limits, old(s.At()), s.At(), ok, Encoding(f, v))
    decreases f, 0
  {
    match f.kind
    case VarintKind =>
      if !IntegerSize(f.dataSize) {
        return false;
      }
      ok := s.EncodeVarint(v.n % TWO_64);
    case UVarintKind =>
      if !IntegerSize(f.dataSize) {
        return false;
      }
      ok := s.EncodeVarint(v.n);
    case SVarintKind =>
      if !IntegerSize(f.dataSize) {
        return false;
      }
      ok := s.EncodeVarint(ZigZag(v.n));
    case Fixed32Kind =>
      ok := s.Write(Fixed32(v.n));
    case Fixed64Kind =>
      ok := s.Write(Fixed64(v.n));
    case BytesKind =>
      if v.size + BYTES_OFFSET > f.dataSize {
        return false;
      }
      ok := s.EncodeString(v.bytes[..v.size]);
    case StringKind =>
      ok := EncodeChars(s, v.chars);
    case FixedBytesKind =>
      ok := s.EncodeString(v.chars);
    case SubmessageKind(fields) =>
      ok := EncodeSubmessage(s, fields, v);
  }
}
