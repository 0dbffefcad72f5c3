/** Message descriptors, the structs they describe, and the bytes a struct stands for. */
module PbMessages {
  import opened Keys
  import opened Coding
  import opened PbWire

  datatype Rule = Required | Optional | Repeated(arraySize: nat) | OneOf

  /** A field of a struct: slot is where its data is, shared by the fields of one union. */
  datatype Field = Field(tag: nat, rule: Rule, kind: Kind, dataSize: nat, slot: nat)

  datatype Kind =
    | VarintKind | UVarintKind | SVarintKind | Fixed32Kind | Fixed64Kind
    | BytesKind | StringKind | SubmessageKind(fields: seq<Field>) | FixedBytesKind

  /** The data of a field: alone, with a flag, as an array with a count, or in a union. */
  datatype Data = Single(value: Value) | Flagged(has: bool, value: Value)
                | Counted(count: nat, values: seq<Value>) | Chosen(which: nat, value: Value)

  /** A value in memory: a number, a byte array with a size, a character buffer, or a struct. */
  datatype Value = Number(n: int) | Blob(size: nat, bytes: Bytes) | Buffer(chars: Bytes) | Message(slots: seq<Data>)

  // ----- what can be in memory

  predicate IntegerSize(dataSize: nat) {
    dataSize == 1 || dataSize == 2 || dataSize == 4 || dataSize == 8
  }

  /** How many values there are of this size. */
  function Span(dataSize: nat): nat {
    if dataSize == 1 then 0x100
    else if dataSize == 2 then 0x1_0000
    else if dataSize == 4 then TWO_32
    else TWO_64
  }

  predicate Signed(dataSize: nat, n: int) {
    IntegerSize(dataSize) ==> -(Span(dataSize) / 2) <= n < Span(dataSize) / 2
  }

  predicate Unsigned(dataSize: nat, n: int) {
    IntegerSize(dataSize) ==> 0 <= n < Span(dataSize)
  }

  /** Bytes in front of the data of a byte array. */
  const BYTES_OFFSET: nat := 4

  ghost predicate TypedData(f: Field, d: Data)
    decreases f, 1
  {
    match f.rule
    case Required => d.Single? && Typed(f, d.value)
    case Optional => d.Flagged? && Typed(f, d.value)
    case Repeated(size) => d.Counted? && |d.values| == size && forall i | 0 <= i < size :: Typed(f, d.values[i])
    case OneOf => d.Chosen? && (d.which == f.tag ==> Typed(f, d.value))
  }

  ghost predicate TypedMessage(fields: seq<Field>, m: Value)
    decreases fields
  {
    m.Message? && forall i | 0 <= i < |fields| ::
      fields[i].slot < |m.slots| && TypedData(fields[i], m.slots[fields[i].slot])
  }

  ghost predicate Typed(f: Field, v: Value)
    decreases f, 0
  {
    f.dataSize < TWO_32 &&
    match f.kind
    case VarintKind => v.Number? && Signed(f.dataSize, v.n)
    case UVarintKind => v.Number? && Unsigned(f.dataSize, v.n)
    case SVarintKind => v.Number? && Signed(f.dataSize, v.n)
    case Fixed32Kind => v.Number? && 0 <= v.n < TWO_32
    case Fixed64Kind => v.Number? && 0 <= v.n < TWO_64
    case BytesKind => v.Blob? && v.size < TWO_32 && f.dataSize == BYTES_OFFSET + |v.bytes|
    case StringKind => v.Buffer? && |v.chars| == f.dataSize
    case FixedBytesKind => v.Buffer? && |v.chars| == f.dataSize
    case SubmessageKind(fields) => TypedMessage(fields, v)
  }

  // ----- what a struct is encoded as

  /** Characters up to the terminator, or all of them. */
  function StringLength(chars: Bytes): (n: nat)
    ensures n <= |chars|
    ensures n < |chars| ==> chars[n] == 0
    ensures forall i | 0 <= i < n :: chars[i] != 0
  {
    if chars == [] || chars[0] == 0 then 0 else 1 + StringLength(chars[1..])
  }

  function WireType(kind: Kind): (w: nat)
    ensures w < 8
  {
    match kind
    case VarintKind | UVarintKind | SVarintKind => WT_VARINT
    case Fixed32Kind => WT_32BIT
    case Fixed64Kind => WT_64BIT
    case BytesKind | StringKind | SubmessageKind(_) | FixedBytesKind => WT_STRING
  }

  predicate Packable(kind: Kind) {
    kind.VarintKind? || kind.UVarintKind? || kind.SVarintKind? || kind.Fixed32Kind? || kind.Fixed64Kind?
  }

  /** The values from i on, one after the other, each with its tag unless they are packed. */
  ghost function ItemsEncoding(f: Field, vs: seq<Value>, i: nat, tagged: bool): Option<Bytes>
    requires i <= |vs| && forall k | 0 <= k < |vs| :: Typed(f, vs[k])
    decreases f, 1, |vs| - i
  {
    if i == |vs| then Some([])
    else
      var e := Encoding(f, vs[i]);
      Then(if tagged then Then(Some(Tag(f.tag, WireType(f.kind))), e) else e, ItemsEncoding(f, vs, i + 1, tagged))
  }

  ghost function FieldEncoding(f: Field, d: Data): Option<Bytes>
    requires TypedData(f, d)
    decreases f, 2, 0
  {
    match f.rule
    case Required => Then(Some(Tag(f.tag, WireType(f.kind))), Encoding(f, d.value))
    case Optional => if d.has then Then(Some(Tag(f.tag, WireType(f.kind))), Encoding(f, d.value)) else Some([])
    case OneOf => if d.which == f.tag then Then(Some(Tag(f.tag, WireType(f.kind))), Encoding(f, d.value)) else Some([])
    case Repeated(size) =>
      if d.count == 0 then Some([])
      else if d.count > size then None
      else if Packable(f.kind) then
        var e := ItemsEncoding(f, d.values[..d.count], 0, false);
        if e.Some? then Some(Tag(f.tag, WT_STRING) + LengthPrefixed(e.value)) else None
      else ItemsEncoding(f, d.values[..d.count], 0, true)
  }

  /** The fields from k on. */
  ghost function MessageEncoding(fields: seq<Field>, m: Value, k: nat): Option<Bytes>
    requires TypedMessage(fields, m) && k <= |fields|
    decreases fields, |fields| - k
  {
    if k == |fields| then Some([])
    else Then(FieldEncoding(fields[k], m.slots[fields[k].slot]), MessageEncoding(fields, m, k + 1))
  }

  /** None when the source reports an error whatever the size of the stream. */
  ghost function Encoding(f: Field, v: Value): Option<Bytes>
    requires Typed(f, v)
    decreases f, 0, 0
  {
    match f.kind
    case VarintKind => if IntegerSize(f.dataSize) then Some(Varint(v.n % TWO_64)) else None
    case UVarintKind => if IntegerSize(f.dataSize) then Some(Varint(v.n)) else None
    case SVarintKind => if IntegerSize(f.dataSize) then Some(Varint(ZigZag(v.n))) else None
    case Fixed32Kind => Some(Fixed32(v.n))
    case Fixed64Kind => Some(Fixed64(v.n))
    case BytesKind => if v.size + BYTES_OFFSET > f.dataSize then None else Some(LengthPrefixed(v.bytes[..v.size]))
    case StringKind => Some(LengthPrefixed(v.chars[..StringLength(v.chars)]))
    case FixedBytesKind => Some(LengthPrefixed(v.chars))
    case SubmessageKind(fields) =>
      var e := MessageEncoding(fields, v, 0);
      if e.Some? then Some(LengthPrefixed(e.value)) else None
  }

  // ----- what decoding can restore

  ghost predicate LegalKind(f: Field)
    decreases f
  {
    && f.dataSize < TWO_32
    && (f.kind.BytesKind? ==> f.dataSize >= BYTES_OFFSET)
    && (f.kind.SubmessageKind? ==> Legal(f.kind.fields))
  }

  /** Tags that fit in a 32-bit key with their wire type, all different; only the fields of a
      union share their data. */
  ghost predicate Legal(fields: seq<Field>)
    decreases fields
  {
    && (forall i | 0 <= i < |fields| :: 0 < fields[i].tag < 0x2000_0000)
    && (forall i, j | 0 <= i < j < |fields| :: fields[i].tag != fields[j].tag)
    && (forall i, j | 0 <= i < j < |fields| ::
          fields[i].slot == fields[j].slot ==> fields[i].rule.OneOf? && fields[j].rule.OneOf?)
    && forall i | 0 <= i < |fields| :: LegalKind(fields[i])
  }

  ghost predicate RestorableData(f: Field, d: Data)
    requires TypedData(f, d)
    decreases f, 1
  {
    match f.rule
    case Required => Restorable(f, d.value)
    case Optional => d.has ==> Restorable(f, d.value)
    case Repeated(size) => forall i | 0 <= i < |d.values| && i < d.count :: Restorable(f, d.values[i])
    case OneOf => d.which == f.tag ==> Restorable(f, d.value)
  }

  ghost predicate RestorableMessage(fields: seq<Field>, m: Value)
    requires TypedMessage(fields, m)
    decreases fields
  {
    forall i | 0 <= i < |fields| :: RestorableData(fields[i], m.slots[fields[i].slot])
  }

  /** Strings are terminated. */
  ghost predicate Restorable(f: Field, v: Value)
    requires Typed(f, v)
    decreases f, 0
  {
    match f.kind
    case StringKind => StringLength(v.chars) < |v.chars|
    case SubmessageKind(fields) => RestorableMessage(fields, v)
    case _ => true
  }

  ghost predicate SameData(f: Field, d: Data, e: Data)
    requires TypedData(f, d) && TypedData(f, e)
    decreases f, 1
  {
    match f.rule
    case Required => Same(f, d.value, e.value)
    case Optional => d.has == e.has && (e.has ==> Same(f, d.value, e.value))
    case Repeated(size) => d.count == e.count && forall i | 0 <= i < size && i < e.count :: Same(f, d.values[i], e.values[i])
    case OneOf => (d.which == f.tag <==> e.which == f.tag) && (e.which == f.tag ==> Same(f, d.value, e.value))
  }

  ghost predicate SameMessage(fields: seq<Field>, m: Value, w: Value)
    requires TypedMessage(fields, m) && TypedMessage(fields, w)
    decreases fields
  {
    forall i | 0 <= i < |fields| :: SameData(fields[i], m.slots[fields[i].slot], w.slots[fields[i].slot])
  }

  /** The same value as far as it is in use. */
  ghost predicate Same(f: Field, v: Value, w: Value)
    requires Typed(f, v) && Typed(f, w)
    decreases f, 0
  {
    match f.kind
    case VarintKind | UVarintKind | SVarintKind | Fixed32Kind | Fixed64Kind => v == w
    case BytesKind => v.size == w.size && (w.size <= |w.bytes| ==> v.bytes[..w.size] == w.bytes[..w.size])
    case StringKind => v.chars[..StringLength(v.chars)] == w.chars[..StringLength(w.chars)]
    case FixedBytesKind => v == w
    case SubmessageKind(fields) => SameMessage(fields, v, w)
  }

  ghost predicate ClearedData(f: Field, d: Data)
    requires TypedData(f, d)
    decreases f, 1
  {
    match f.rule
    case Required => Cleared(f, d.value)
    case Optional => !d.has && Cleared(f, d.value)
    case Repeated(_) => d.count == 0
    case OneOf => d.which == 0
  }

  ghost predicate ClearedMessage(fields: seq<Field>, m: Value)
    requires TypedMessage(fields, m)
    decreases fields
  {
    forall i | 0 <= i < |fields| :: ClearedData(fields[i], m.slots[fields[i].slot])
  }

  /** Nothing is present. */
  ghost predicate Cleared(f: Field, v: Value)
    requires Typed(f, v)
    decreases f, 0
  {
    f.kind.SubmessageKind? ==> ClearedMessage(f.kind.fields, v)
  }

  // ----- a struct of zeros

  function SlotCount(fields: seq<Field>): (n: nat)
    ensures forall i | 0 <= i < |fields| :: fields[i].slot < n
  {
    if fields == [] then 0
    else
      var n := SlotCount(fields[..|fields|-1]);
      var slot := fields[|fields|-1].slot;
      if slot < n then n else slot + 1
  }

  /** The first field from k on whose data is in a slot, or the number of fields. */
  function FieldOfSlot(fields: seq<Field>, slot: nat, k: nat): (i: nat)
    requires k <= |fields|
    ensures k <= i <= |fields|
    ensures i < |fields| ==> fields[i].slot == slot
    ensures forall j | k <= j < i :: fields[j].slot != slot
    decreases |fields| - k
  {
    if k == |fields| || fields[k].slot == slot then k else FieldOfSlot(fields, slot, k + 1)
  }

  function ZeroData(f: Field): Data
    requires LegalKind(f)
    decreases f, 1
  {
    match f.rule
    case Required => Single(ZeroValue(f))
    case Optional => Flagged(false, ZeroValue(f))
    case Repeated(size) => Counted(0, seq(size, _ => ZeroValue(f)))
    case OneOf => Chosen(0, ZeroValue(f))
  }

  function SlotData(fields: seq<Field>, slot: nat): Data
    requires Legal(fields)
    decreases fields, 0
  {
    var i := FieldOfSlot(fields, slot, 0);
    if i < |fields| then ZeroData(fields[i]) else Chosen(0, Number(0))
  }

  function ZeroMessage(fields: seq<Field>): Value
    requires Legal(fields)
    decreases fields, 1
  {
    Message(seq(SlotCount(fields), slot requires 0 <= slot => SlotData(fields, slot)))
  }

  function ZeroValue(f: Field): Value
    requires LegalKind(f)
    decreases f, 0
  {
    match f.kind
    case VarintKind | UVarintKind | SVarintKind | Fixed32Kind | Fixed64Kind => Number(0)
    case BytesKind => Blob(0, Zeros(f.dataSize - BYTES_OFFSET))
    case StringKind | FixedBytesKind => Buffer(Zeros(f.dataSize))
    case SubmessageKind(fields) => ZeroMessage(fields)
  }

  lemma ZeroDataTyped(f: Field)
    requires LegalKind(f) && f.tag > 0
    ensures TypedData(f, ZeroData(f))
    decreases f, 1
  {
    ZeroValueTyped(f);
  }

  lemma ZeroMessageTyped(fields: seq<Field>)
    requires Legal(fields)
    ensures TypedMessage(fields, ZeroMessage(fields))
    decreases fields
  {
    var m := ZeroMessage(fields);
    forall i | 0 <= i < |fields|
      ensures fields[i].slot < |m.slots| && TypedData(fields[i], m.slots[fields[i].slot])
    {
      var slot := fields[i].slot;
      var k := FieldOfSlot(fields, slot, 0);
      assert k <= i;
      ZeroDataTyped(fields[i]);
      assert m.slots[slot] == SlotData(fields, slot) == ZeroData(fields[k]);
    }
  }

  lemma ZeroValueTyped(f: Field)
    requires LegalKind(f)
    ensures Typed(f, ZeroValue(f))
    decreases f, 0
  {
    if f.kind.SubmessageKind? {
      ZeroMessageTyped(f.kind.fields);
    }
  }
}
