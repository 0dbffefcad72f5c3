/** Write batches as they are stored in the log: a sequence number, a count, and the updates. */
module WriteBatches {
  import opened Keys
  import opened Coding

  const HEADER: nat := 12
  const TAG_DELETION: Byte := 0
  const TAG_VALUE: Byte := 1

  datatype Op = Put(key: Bytes, value: Bytes) | Delete(key: Bytes) {
    ghost predicate Fits() {
      |key| < TWO_32 && (Put? ==> |value| < TWO_32)
    }

    function Encoded(): Bytes {
      match this
      case Put(key, value) => [TAG_VALUE] + LengthPrefixed(key) + LengthPrefixed(value)
      case Delete(key) => [TAG_DELETION] + LengthPrefixed(key)
    }
  }

  /** An update as it enters a memtable. */
  datatype Update = Update(seqno: nat, op: Op)

  function EncodedOps(ops: seq<Op>): Bytes {
    if ops == [] then [] else ops[0].Encoded() + EncodedOps(ops[1..])
  }

  lemma {:induction false} EncodedAppend(a: seq<Op>, b: seq<Op>)
    ensures EncodedOps(a + b) == EncodedOps(a) + EncodedOps(b)
  {
    hide Op.Encoded;
    if a == [] {
      assert a + b == b;
    } else {
      EncodedAppend(a[1..], b);
      assert (a + b)[1..] == a[1..] + b;
    }
  }

  /** Consecutive sequence numbers from the batch's own. */
  function Numbered(ops: seq<Op>, seqno: nat): (us: seq<Update>)
    ensures |us| == |ops|
    ensures forall i :: 0 <= i < |ops| ==> us[i] == Update(seqno + i, ops[i])
  {
    seq(|ops|, i requires 0 <= i < |ops| => Update(seqno + i, ops[i]))
  }

  ghost predicate AllFit(ops: seq<Op>) {
    forall op :: op in ops ==> op.Fits()
  }

  // ----- the header

  function Sequence(rep: Bytes): nat
    requires |rep| >= HEADER
  {
    DecodeFixed64(rep)
  }

  /** The count is read into a signed 32-bit integer. */
  function Count(rep: Bytes): int
    requires |rep| >= HEADER
  {
    var n := DecodeFixed32(rep[8..]);
    if n < 0x8000_0000 then n else n - TWO_32
  }

  /** rep is the stored form of the updates ops under sequence number seqno. */
  ghost predicate Stores(rep: Bytes, seqno: nat, ops: seq<Op>) {
    && |rep| >= HEADER && rep[HEADER..] == EncodedOps(ops) && AllFit(ops)
    && Sequence(rep) == seqno && Count(rep) == |ops|
  }

  lemma EncodedOne(op: Op)
    ensures EncodedOps([op]) == op.Encoded()
  {
    hide Op.Encoded;
    assert [op][1..] == [] && EncodedOps([]) == [];
  }

  lemma HeaderFields(a: Bytes, b: Bytes)
    requires |a| >= HEADER && |b| >= HEADER
    ensures a[..8] == b[..8] ==> Sequence(a) == Sequence(b)
    ensures a[8..HEADER] == b[8..HEADER] ==> Count(a) == Count(b)
  {
    if a[..8] == b[..8] {
      forall i | 0 <= i < 8
        ensures a[i] == b[i]
      {
        assert a[..8][i] == b[..8][i];
      }
    }
    if a[8..HEADER] == b[8..HEADER] {
      forall i | 0 <= i < 4
        ensures a[8..][i] == b[8..][i]
      {
        assert a[8..HEADER][i] == b[8..HEADER][i];
      }
    }
  }

  /** Eight bytes of sequence number and four of count, the lowest bytes first. */
  lemma HeaderLayout(rep: Bytes, seqno: nat, ops: seq<Op>)
    requires Stores(rep, seqno, ops) && |ops| < 0x8000_0000
    ensures |rep| >= 12 && rep[12..] == EncodedOps(ops)
    ensures rep[0] as int + 0x100 * rep[1] as int + 0x1_0000 * rep[2] as int + 0x100_0000 * rep[3] as int
      + 0x1_0000_0000 * rep[4] as int + 0x100_0000_0000 * rep[5] as int + 0x1_0000_0000_0000 * rep[6] as int
      + 0x100_0000_0000_0000 * rep[7] as int == seqno
    ensures rep[8] as int + 0x100 * rep[9] as int + 0x1_0000 * rep[10] as int + 0x100_0000 * rep[11] as int == |ops|
  {
  }

  /** A put is 1 and its key and value, a deletion 0 and its key, each string behind its length. */
  lemma OpLayout(key: Bytes, value: Bytes)
    requires |key| < 128 && |value| < 128
    ensures Delete(key).Encoded() == [0] + ([|key|] + key)
    ensures Put(key, value).Encoded() == [1] + ([|key|] + key) + ([|value|] + value)
  {
    hide LengthPrefixed;
    ShortPrefixed(key);
    ShortPrefixed(value);
  }

  class WriteBatch {
    var rep: Bytes
    ghost var ops: seq<Op>

    ghost predicate Valid()
      reads this
    {
      |rep| >= HEADER && Stores(rep, Sequence(rep), ops)
    }

    constructor ()
      ensures Valid() && ops == [] && Sequence(rep) == 0
    {
      rep := [0, 0, 0, 0, 0, 0, 0, 0, 0, 0, 0, 0];
      ops := [];
    }

    method SetCount(n: nat)
      requires |rep| >= HEADER && n < 0x8000_0000
      modifies this`rep
      ensures |rep| == |old(rep)| && rep[HEADER..] == old(rep)[HEADER..]
      ensures Sequence(rep) == Sequence(old(rep)) && Count(rep) == n
    {
      var rep' := rep[..8] + Fixed32(n) + rep[HEADER..];
      HeaderFields(rep', rep);
      Fixed32RoundTrip(n, rep[HEADER..]);
      assert rep'[8..] == Fixed32(n) + rep[HEADER..];
      rep := rep';
    }

    method SetSequence(seqno: nat)
      requires Valid() && seqno < TWO_64
      modifies this`rep
      ensures Valid() && Sequence(rep) == seqno
    {
      var rep' := Fixed64(seqno) + rep[8..];
      Fixed64RoundTrip(seqno, rep[8..]);
      HeaderFields(rep', rep);
      assert rep'[HEADER..] == rep[HEADER..];
      rep := rep';
    }

    /** Appends one update after the ones already there. */
    method AddOp(op: Op)
      requires Valid() && op.Fits() && |ops| + 1 < 0x8000_0000
      modifies this
      ensures Valid() && ops == old(ops) + [op] && Sequence(rep) == Sequence(old(rep))
    {
      hide Op.Encoded, EncodedOps, Sequence, Count;
      SetCount(Count(rep) + 1);
      ghost var counted := rep;
      rep := rep + op.Encoded();
      HeaderFields(rep, counted);
      assert rep[HEADER..] == counted[HEADER..] + op.Encoded();
      EncodedAppend(ops, [op]);
      EncodedOne(op);
      ops := ops + [op];
    }

    /** Appends all updates of another batch. */
    method Append(source: WriteBatch)
      requires Valid() && source.Valid() && source != this && |ops| + |source.ops| < 0x8000_0000
      modifies this
      ensures Valid() && ops == old(ops) + source.ops && Sequence(rep) == Sequence(old(rep))
    {
      hide Op.Encoded, EncodedOps, Sequence, Count;
      SetCount(Count(rep) + Count(source.rep));
      ghost var counted := rep;
      rep := rep + source.rep[HEADER..];
      HeaderFields(rep, counted);
      assert rep[HEADER..] == counted[HEADER..] + source.rep[HEADER..];
      EncodedAppend(ops, source.ops);
      ops := ops + source.ops;
    }
  }

  // ----- replaying a batch

  function ParseOp(input: Bytes): (t: Option<Taken<Op>>)
    ensures t.Some? ==> |t.value.rest| < |input|
  {
    if input == [] then None
    else if input[0] == TAG_VALUE then
      match GetLengthPrefixed(input[1..])
      case None => None
      case Some(k) =>
        match GetLengthPrefixed(k.rest)
        case None => None
        case Some(v) => Some(Taken(Put(k.value, v.value), v.rest))
    else if input[0] == TAG_DELETION then
      match GetLengthPrefixed(input[1..])
      case None => None
      case Some(k) => Some(Taken(Delete(k.value), k.rest))
    else None
  }

  lemma ParseEncoded(op: Op, rest: Bytes)
    requires op.Fits()
    ensures ParseOp(op.Encoded() + rest) == Some(Taken(op, rest))
  {
    hide LengthPrefixed, GetLengthPrefixed, Varint;
    var input := op.Encoded() + rest;
    match op
    case Put(key, value) =>
      assert input[1..] == LengthPrefixed(key) + (LengthPrefixed(value) + rest);
      LengthPrefixedRoundTrip(key, LengthPrefixed(value) + rest);
      LengthPrefixedRoundTrip(value, rest);
    case Delete(key) =>
      assert input[1..] == LengthPrefixed(key) + rest;
      LengthPrefixedRoundTrip(key, rest);
  }

  /** The updates found in input up to the first malformed one, and whether there was none. */
  function ParseOps(input: Bytes): (r: (seq<Op>, bool))
    decreases |input|
  {
    if input == [] then ([], true)
    else
      match ParseOp(input)
      case None => ([], false)
      case Some(t) => var (ops, ok) := ParseOps(t.rest); ([t.value] + ops, ok)
  }

  lemma {:induction false} ParseEncodedOps(ops: seq<Op>)
    requires AllFit(ops)
    ensures ParseOps(EncodedOps(ops)) == (ops, true)
  {
    if ops != [] {
      ParseEncoded(ops[0], EncodedOps(ops[1..]));
      ParseEncodedOps(ops[1..]);
      assert ops == [ops[0]] + ops[1..];
    }
  }

  /** What replaying a stored batch adds to a memtable, also when it is malformed. */
  function Replayed(rep: Bytes): seq<Update>
    requires |rep| >= HEADER
  {
    Numbered(ParseOps(rep[HEADER..]).0, Sequence(rep))
  }

  predicate WellStored(rep: Bytes)
    requires |rep| >= HEADER
  {
    var (ops, ok) := ParseOps(rep[HEADER..]);
    ok && |ops| == Count(rep)
  }

  /** A stored batch replays as its own updates under consecutive sequence numbers. */
  lemma StoredReplays(rep: Bytes, seqno: nat, ops: seq<Op>)
    requires Stores(rep, seqno, ops)
    ensures WellStored(rep) && Replayed(rep) == Numbered(ops, seqno)
  {
    ParseEncodedOps(ops);
  }

  /** Iterates over the batch, inserting each update with the next sequence number. */
  method InsertInto(rep: Bytes, mem: seq<Update>) returns (mem': seq<Update>, ok: bool)
    requires |rep| >= HEADER
    ensures mem' == mem + Replayed(rep) && ok == WellStored(rep)
  {
    hide ParseOp, Sequence, Count;
    var input := rep[HEADER..];
    var found, seqno := 0, Sequence(rep);
    ghost var whole := ParseOps(input);
    mem' := mem;
    while input != []
      invariant found <= |whole.0| && seqno == Sequence(rep) + found
      invariant mem' == mem + Numbered(whole.0[..found], Sequence(rep))
      invariant ParseOps(input) == (whole.0[found..], whole.1)
      decreases |input|
    {
      match ParseOp(input)
      case None =>
        assert whole.0[..found] == whole.0;
        return mem', false;
      case Some(t) =>
        assert whole.0[found..][0] == t.value && whole.0[found..][1..] == whole.0[found+1..];
        assert Numbered(whole.0[..found+1], Sequence(rep)) == Numbered(whole.0[..found], Sequence(rep)) + [Update(seqno, t.value)];
        mem' := mem' + [Update(seqno, t.value)];
        input := t.rest;
        found, seqno := found + 1, seqno + 1;
    }
    assert whole.0[..found] == whole.0;
    ok := found == Count(rep);
  }
}
