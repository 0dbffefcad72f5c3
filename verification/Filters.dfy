/** Bloom filters, and the filter block that keeps one for every two kilobytes of table. */
module Filters {
  import opened Coding
  import opened Blocks
  import opened Separators

  // ----- bits of a byte array

  function Pow2(i: nat): (p: nat)
    ensures p > 0
  {
    if i == 0 then 1 else 2 * Pow2(i - 1)
  }

  predicate Bit(n: nat, i: nat) {
    if i == 0 then n % 2 == 1 else Bit(n / 2, i - 1)
  }

  /** The or of a number with one bit. */
  function WithBit(n: nat, i: nat): (r: nat)
    ensures Bit(r, i)
  {
    if i == 0 then n / 2 * 2 + 1 else WithBit(n / 2, i - 1) * 2 + n % 2
  }

  lemma HalvesDivide(n: nat, p: nat)
    requires p > 0
    ensures n / 2 / p == n / (2 * p)
  {
    var q, a, b := n / 2, n / 2 / p, n / 2 % p;
    assert n == (2 * p) * a + (2 * b + n % 2) && 2 * b + n % 2 < 2 * p;
    QuotientIs(n, 2 * p, a, 2 * b + n % 2);
  }

  /** Bit i has the weight 2^i. */
  lemma {:induction false} BitWeight(n: nat, i: nat)
    ensures Bit(n, i) <==> n / Pow2(i) % 2 == 1
  {
    if i > 0 {
      BitWeight(n / 2, i - 1);
      HalvesDivide(n, Pow2(i - 1));
    } else {
      assert Pow2(0) == 1;
    }
  }

  /** Just that bit is set, and the others stay. */
  lemma {:induction false} WithBitOnly(n: nat, i: nat, j: nat)
    ensures Bit(WithBit(n, i), j) <==> j == i || Bit(n, j)
  {
    if i > 0 && j > 0 {
      WithBitOnly(n / 2, i - 1, j - 1);
    }
  }

  lemma {:induction false} WithBitFits(n: nat, i: nat, width: nat)
    requires n < Pow2(width) && i < width
    ensures WithBit(n, i) < Pow2(width)
  {
    if i > 0 {
      WithBitFits(n / 2, i - 1, width - 1);
    }
  }

  predicate BitSet(bits: Bytes, bitpos: nat) {
    bitpos / 8 < |bits| && Bit(bits[bitpos / 8], bitpos % 8)
  }

  function SetBit(bits: Bytes, bitpos: nat): (r: Bytes)
    requires bitpos / 8 < |bits|
    ensures |r| == |bits| && BitSet(r, bitpos)
  {
    assert Pow2(8) == 256;
    WithBitFits(bits[bitpos / 8], bitpos % 8, 8);
    bits[bitpos / 8 := WithBit(bits[bitpos / 8], bitpos % 8)]
  }

  lemma SetBitOnly(bits: Bytes, bitpos: nat, other: nat)
    requires bitpos / 8 < |bits|
    ensures BitSet(SetBit(bits, bitpos), other) <==> other == bitpos || BitSet(bits, other)
  {
    hide Bit, WithBit;
    if other / 8 == bitpos / 8 {
      WithBitOnly(bits[bitpos / 8], bitpos % 8, other % 8);
    }
  }

  // ----- Bloom filters

  /** The hash function of keys, and the two numbers a filter policy is made with. */
  datatype Policy = Policy(hash: Bytes -> Word, bitsPerKey: nat, probes: nat)
  {
    predicate Valid() {
      1 <= probes <= 30
    }
  }

  /** The hash rotated right by 17 bits. */
  function Delta(h: Word): Word {
    h / 0x2_0000 + h % 0x2_0000 * 0x8000
  }

  /** The hash that probe j uses. */
  function Probe(h: Word, j: nat): Word {
    if j == 0 then h else (Probe(h, j - 1) + Delta(h)) % TWO_32
  }

  /** The low seventeen bits go to the top. */
  lemma DeltaRotates(h: Word)
    ensures Delta(h) / 0x8000 == h % 0x2_0000 && Delta(h) % 0x8000 == h / 0x2_0000
  {
    assert h / 0x2_0000 < 0x8000;
  }

  lemma OneMore(j: nat, d: nat)
    requires j > 0
    ensures j * d == (j - 1) * d + d
  {
  }

  lemma AddMod(a: nat, b: nat)
    ensures (a % TWO_32 + b) % TWO_32 == (a + b) % TWO_32
  {
  }

  /** The sum h + j * Delta(h), in 32 bits. */
  lemma {:induction false} ProbeAt(h: Word, j: nat)
    ensures Probe(h, j) == (h + j * Delta(h)) % 0x1_0000_0000
  {
    hide Delta;
    if j > 0 {
      ProbeAt(h, j - 1);
      OneMore(j, Delta(h));
      AddMod(h + (j - 1) * Delta(h), Delta(h));
    } else {
      assert 0 * Delta(h) == 0;
    }
  }

  /** Some key's probe falls on bit b of a filter of that many bits. */
  ghost predicate ProbedBy(policy: Policy, keys: seq<Bytes>, size: nat, b: nat)
    requires size > 0
  {
    exists i: nat, j: nat :: i < |keys| && j < policy.probes && Probe(policy.hash(keys[i]), j) % size == b
  }

  /** How many bytes of bits a filter of n keys has, at least eight. */
  function FilterBytes(policy: Policy, n: nat): (bytes: nat)
    ensures bytes >= 8
  {
    ((if n * policy.bitsPerKey < 64 then 64 else n * policy.bitsPerKey) + 7) / 8
  }

  ghost predicate BitsOf(policy: Policy, keys: seq<Bytes>, bits: Bytes)
    requires bits != []
  {
    forall b: nat :: BitSet(bits, b) <==> ProbedBy(policy, keys, 8 * |bits|, b)
  }

  /** The bits of a filter are those on which a probe falls, and the last byte is their number. */
  ghost predicate IsFilter(policy: Policy, keys: seq<Bytes>, filter: Bytes) {
    && |filter| == FilterBytes(policy, |keys|) + 1
    && filter[|filter| - 1] == policy.probes
    && BitsOf(policy, keys, filter[..|filter| - 1])
  }

  /** The first j probes of a key find their bits set. */
  ghost predicate Probed(bits: Bytes, h: Word, j: nat)
    requires bits != []
  {
    forall i: nat | i < j :: BitSet(bits, Probe(h, i) % (8 * |bits|))
  }

  lemma {:induction false} NoBit(i: nat)
    ensures !Bit(0, i)
  {
    if i > 0 {
      NoBit(i - 1);
    }
  }

  lemma NoBits(n: nat, b: nat)
    ensures !BitSet(Zeros(n), b)
  {
    NoBit(b % 8);
  }

  /** The first n probes of h fall on bit b. */
  ghost predicate HitBy(h: Word, n: nat, size: nat, b: nat)
    requires size > 0
  {
    exists j: nat :: j < n && Probe(h, j) % size == b
  }

  lemma NextHit(h: Word, n: nat, size: nat, b: nat)
    requires size > 0
    ensures HitBy(h, n + 1, size, b) <==> HitBy(h, n, size, b) || b == Probe(h, n) % size
  {
    hide Probe;
  }

  lemma NoHits(h: Word, size: nat, b: nat)
    requires size > 0
    ensures !HitBy(h, 0, size, b)
  {
  }

  method AddKeyBits(policy: Policy, bits: Bytes, key: Bytes) returns (r: Bytes)
    requires bits != []
    ensures |r| == |bits|
    ensures forall b: nat :: BitSet(r, b) <==> BitSet(bits, b) || HitBy(policy.hash(key), policy.probes, 8 * |bits|, b)
  {
    hide BitSet, SetBit, HitBy;
    r := bits;
    var h := policy.hash(key);
    var delta := Delta(h);
    forall b: nat ensures !HitBy(policy.hash(key), 0, 8 * |bits|, b) { NoHits(policy.hash(key), 8 * |bits|, b); }
    for j := 0 to policy.probes
      invariant |r| == |bits| && h == Probe(policy.hash(key), j)
      invariant forall b: nat :: BitSet(r, b) <==> BitSet(bits, b) || HitBy(policy.hash(key), j, 8 * |bits|, b)
    {
      var bitpos := h % (8 * |bits|);
      forall b: nat
        ensures BitSet(SetBit(r, bitpos), b) <==> b == bitpos || BitSet(r, b)
        ensures HitBy(policy.hash(key), j + 1, 8 * |bits|, b) <==> HitBy(policy.hash(key), j, 8 * |bits|, b) || b == bitpos
      {
        SetBitOnly(r, bitpos, b);
        NextHit(policy.hash(key), j, 8 * |bits|, b);
      }
      r := SetBit(r, bitpos);
      h := (h + delta) % TWO_32;
    }
  }

  lemma NextProbed(policy: Policy, keys: seq<Bytes>, i: nat, size: nat, b: nat)
    requires i < |keys| && size > 0
    ensures ProbedBy(policy, keys[..i+1], size, b) <==>
      ProbedBy(policy, keys[..i], size, b) || HitBy(policy.hash(keys[i]), policy.probes, size, b)
  {
    hide Probe;
    var less, more := keys[..i], keys[..i+1];
    if ProbedBy(policy, less, size, b) {
      var k: nat, j: nat :| k < |less| && j < policy.probes && Probe(policy.hash(less[k]), j) % size == b;
      assert more[k] == less[k];
    }
    if HitBy(policy.hash(keys[i]), policy.probes, size, b) {
      assert more[i] == keys[i];
    }
    if ProbedBy(policy, more, size, b) {
      var k: nat, j: nat :| k < |more| && j < policy.probes && Probe(policy.hash(more[k]), j) % size == b;
      if k < i {
        assert less[k] == more[k];
      }
    }
  }

  lemma NoneProbed(policy: Policy, size: nat, b: nat)
    requires size > 0
    ensures !ProbedBy(policy, [], size, b)
  {
  }

  /** The bits, and then the number of probes. */
  method CreateFilter(policy: Policy, keys: seq<Bytes>, dst: Bytes) returns (r: Bytes)
    requires policy.Valid()
    ensures |r| >= |dst| + 9 && r[..|dst|] == dst
    ensures IsFilter(policy, keys, r[|dst|..])
  {
    hide BitSet, HitBy, ProbedBy;
    var bits := |keys| * policy.bitsPerKey;
    if bits < 64 {
      bits := 64;
    }
    var bytes := (bits + 7) / 8;
    bits := bytes * 8;
    var bitmap := Zeros(bytes);
    forall b: nat
      ensures BitSet(bitmap, b) <==> ProbedBy(policy, keys[..0], 8 * bytes, b)
    {
      NoBits(bytes, b);
      NoneProbed(policy, 8 * bytes, b);
    }
    for i := 0 to |keys|
      invariant |bitmap| == bytes
      invariant forall b: nat :: BitSet(bitmap, b) <==> ProbedBy(policy, keys[..i], 8 * bytes, b)
    {
      bitmap := AddKeyBits(policy, bitmap, keys[i]);
      forall b: nat
        ensures BitSet(bitmap, b) <==> ProbedBy(policy, keys[..i+1], 8 * bytes, b)
      {
        NextProbed(policy, keys, i, 8 * bytes, b);
      }
    }
    assert keys[..|keys|] == keys;
    r := dst + bitmap + [policy.probes];
    assert r[|dst|..] == bitmap + [policy.probes];
    assert r[|dst|..][..bytes] == bitmap;
  }

  /** What a filter says of a key; one with more than 30 probes is taken to match. */
  ghost predicate Matches(policy: Policy, key: Bytes, filter: Bytes) {
    |filter| >= 2 &&
    (filter[|filter| - 1] > 30 || Probed(filter[..|filter| - 1], policy.hash(key), filter[|filter| - 1]))
  }

  lemma NextProbe(h: Word, j: nat)
    ensures Probe(h, 0) == h && Probe(h, j + 1) == (Probe(h, j) + Delta(h)) % TWO_32
  {
  }

  method BloomMayMatch(policy: Policy, key: Bytes, filter: Bytes) returns (may: bool)
    ensures may <==> Matches(policy, key, filter)
  {
    hide BitSet, Probe;
    if |filter| < 2 {
      return false;
    }
    var bitmap := filter[..|filter| - 1];
    var probes := filter[|filter| - 1];
    if probes > 30 {
      return true;
    }
    var h := policy.hash(key);
    var delta := Delta(h);
    NextProbe(policy.hash(key), 0);
    for j := 0 to probes
      invariant h == Probe(policy.hash(key), j)
      invariant Probed(bitmap, policy.hash(key), j)
    {
      var bitpos := h % (8 * |bitmap|);
      if !BitSet(bitmap, bitpos) {
        return false;
      }
      NextProbe(policy.hash(key), j);
      h := (h + delta) % TWO_32;
    }
    return true;
  }

  // ----- the filter block

  const FILTER_BASE_LG: Byte := 11
  const FILTER_BASE: nat := 2048

  function UsersOf(keys: seq<Bytes>): seq<Bytes> {
    seq(|keys|, i requires 0 <= i < |keys| => ExtractUserKey(keys[i]))
  }

  /** The filter of the user keys of all these internal keys, empty when there are none. */
  ghost predicate FilterOf(policy: Policy, keys: seq<Bytes>, filter: Bytes) {
    if keys == [] then filter == [] else policy.Valid() && IsFilter(policy, UsersOf(keys), filter)
  }

  /** Filter i lies between offsets i and i + 1. */
  ghost predicate Filters(policy: Policy, data: Bytes, offsets: seq<nat>, made: seq<seq<Bytes>>) {
    && |offsets| == |made| + 1
    && offsets[|made|] == |data|
    && (forall i, j | 0 <= i <= j < |offsets| :: offsets[i] <= offsets[j])
    && forall i: nat | i < |made| :: FilterOf(policy, made[i], data[offsets[i]..offsets[i+1]])
  }

  function Concatenated(keys: seq<Bytes>): Bytes {
    if keys == [] then [] else Concatenated(keys[..|keys|-1]) + keys[|keys|-1]
  }

  /** Where each key starts. */
  ghost predicate Starts(start: seq<nat>, keys: seq<Bytes>) {
    |start| == |keys| && forall i | 0 <= i < |keys| :: start[i] == |Concatenated(keys[..i])|
  }

  lemma {:induction false} KeyInside(keys: seq<Bytes>, i: nat)
    requires i < |keys|
    ensures |Concatenated(keys[..i])| <= |Concatenated(keys[..i+1])| <= |Concatenated(keys)|
    ensures Concatenated(keys)[|Concatenated(keys[..i])|..|Concatenated(keys[..i+1])|] == keys[i]
  {
    var front := keys[..|keys|-1];
    if i == |keys| - 1 {
      assert keys[..i+1] == keys && keys[..i] == front;
    } else {
      KeyInside(front, i);
      assert front[..i] == keys[..i] && front[..i+1] == keys[..i+1];
    }
  }

  /** Keys that filter i holds, or will hold. */
  ghost predicate Holds(made: seq<seq<Bytes>>, pending: seq<Bytes>, i: nat, key: Bytes) {
    if i < |made| then key in made[i] else i == |made| && key in pending
  }

  lemma PendingAdded(start: seq<nat>, pending: seq<Bytes>, key: Bytes)
    requires Starts(start, pending)
    ensures Starts(start + [|Concatenated(pending)|], pending + [key])
    ensures Concatenated(pending + [key]) == Concatenated(pending) + key
  {
    var pending' := pending + [key];
    assert pending'[..|pending|] == pending;
    forall i | 0 <= i < |pending'|
      ensures (start + [|Concatenated(pending)|])[i] == |Concatenated(pending'[..i])|
    {
      if i < |pending| { assert pending'[..i] == pending[..i]; }
    }
  }

  lemma NoKeysNoFilter(policy: Policy)
    ensures FilterOf(policy, [], [])
  {
  }

  lemma FilterMade(policy: Policy, keys: seq<Bytes>, filter: Bytes)
    requires policy.Valid() && keys != [] && IsFilter(policy, UsersOf(keys), filter)
    ensures FilterOf(policy, keys, filter)
  {
  }

  lemma FilterAdded(policy: Policy, data: Bytes, offsets: seq<nat>, made: seq<seq<Bytes>>, keys: seq<Bytes>, filter: Bytes)
    requires Filters(policy, data, offsets, made) && FilterOf(policy, keys, filter)
    ensures Filters(policy, data + filter, offsets + [|data + filter|], made + [keys])
  {
    hide FilterOf;
    var data', offsets', made' := data + filter, offsets + [|data + filter|], made + [keys];
    forall i: nat | i < |made'|
      ensures FilterOf(policy, made'[i], data'[offsets'[i]..offsets'[i+1]])
    {
      if i < |made| {
        assert data'[offsets'[i]..offsets'[i+1]] == data[offsets[i]..offsets[i+1]];
        assert FilterOf(policy, made[i], data[offsets[i]..offsets[i+1]]);
      } else {
        assert data'[offsets'[i]..offsets'[i+1]] == filter;
      }
    }
  }

  /** The keys, cut out of the string they were appended to. */
  method KeySlices(keys: Bytes, start: seq<nat>, ghost pending: seq<Bytes>) returns (slices: seq<Bytes>)
    requires keys == Concatenated(pending) && Starts(start, pending)
    ensures slices == pending
  {
    var starts := start + [|keys|];
    slices := [];
    for i := 0 to |start|
      invariant slices == pending[..i]
    {
      KeyInside(pending, i);
      assert starts[i+1] == |Concatenated(pending[..i+1])| by { assert pending[..|pending|] == pending; }
      slices := slices + [keys[starts[i]..starts[i+1]]];
    }
  }

  method UserKeys(keys: seq<Bytes>) returns (users: seq<Bytes>)
    ensures users == UsersOf(keys)
  {
    users := [];
    for i := 0 to |keys|
      invariant |users| == i && forall k | 0 <= k < i :: users[k] == ExtractUserKey(keys[k])
    {
      users := users + [ExtractUserKey(keys[i])];
    }
  }

  /** Every probe of the key falls where one of some key in the filter does. */
  ghost predicate AllProbed(policy: Policy, keys: seq<Bytes>, key: Bytes) {
    var size := 8 * FilterBytes(policy, |keys|);
    forall j: nat | j < policy.probes :: ProbedBy(policy, keys, size, Probe(policy.hash(key), j) % size)
  }

  /** A filter matches just the keys whose probes fall where those of its own keys do. */
  lemma FilterMatches(policy: Policy, keys: seq<Bytes>, filter: Bytes, user: Bytes)
    requires FilterOf(policy, keys, filter)
    ensures Matches(policy, user, filter) <==> keys != [] && AllProbed(policy, UsersOf(keys), user)
  {
    hide BitSet, ProbedBy, Probe, FilterBytes;
  }

  /** Its own keys are among them. */
  lemma OwnKeyProbed(policy: Policy, keys: seq<Bytes>, i: nat)
    requires i < |keys|
    ensures AllProbed(policy, keys, keys[i])
  {
    hide Probe, FilterBytes;
  }

  lemma MadeOf(policy: Policy, keys: seq<Bytes>, key: Bytes)
    ensures (exists k :: k in keys && ExtractUserKey(k) == ExtractUserKey(key)) ==> AllProbed(policy, UsersOf(keys), ExtractUserKey(key))
  {
    hide AllProbed;
    forall i: nat | i < |keys|
      ensures AllProbed(policy, UsersOf(keys), ExtractUserKey(keys[i]))
    {
      OwnKeyProbed(policy, UsersOf(keys), i);
    }
  }

  ghost predicate IsFilterBlock(policy: Policy, block: Bytes, offsets: seq<nat>, made: seq<seq<Bytes>>) {
    && |offsets| == |made| + 1
    && |block| == offsets[|made|] + 4 * |made| + 5
    && |block| < TWO_32
    && block[|block| - 1] == FILTER_BASE_LG
    && DecodeFixed32(block[|block| - 5..]) == offsets[|made|]
    && (forall i | 0 <= i <= |made| :: DecodeFixed32(block[offsets[|made|] + 4 * i..]) == offsets[i])
    && Filters(policy, block[..offsets[|made|]], offsets, made)
  }

  lemma StoredOffset(stored: seq<nat>, size: nat, tail: Bytes, i: nat, offset: nat)
    requires (forall k | 0 <= k < |stored| :: stored[k] < TWO_32) && size < TWO_32 && tail == Fixed32(size) + [FILTER_BASE_LG]
    requires i <= |stored| && offset == if i < |stored| then stored[i] else size
    ensures DecodeFixed32((Fixed32Array(stored) + tail)[4 * i..]) == offset
  {
    hide Fixed32, DecodeFixed32, Fixed32Array;
    if i < |stored| {
      Fixed32ArrayAt(stored, i, tail);
    } else {
      Fixed32RoundTrip(size, [FILTER_BASE_LG]);
      assert (Fixed32Array(stored) + tail)[4 * i..] == tail;
    }
  }

  lemma FiltersInOrder(policy: Policy, data: Bytes, offsets: seq<nat>, made: seq<seq<Bytes>>)
    requires Filters(policy, data, offsets, made)
    ensures |offsets| == |made| + 1 && offsets[|made|] == |data| && forall i | 0 <= i < |offsets| :: offsets[i] <= |data|
  {
    hide FilterOf;
  }

  lemma BlockParts(data: Bytes, table: Bytes, last: Bytes)
    requires |last| == 4
    ensures var block := data + table + last + [FILTER_BASE_LG];
      && block[..|data|] == data && block[|data|..] == table + (last + [FILTER_BASE_LG])
      && block[|block| - 5..] == last + [FILTER_BASE_LG] && block[|block| - 1] == 11
      && forall i :: 0 <= i <= |table| ==> block[|data| + i..] == (table + (last + [FILTER_BASE_LG]))[i..]
  {
  }

  lemma FilterBlockFinished(policy: Policy, data: Bytes, offsets: seq<nat>, made: seq<seq<Bytes>>, stored: seq<nat>)
    requires Filters(policy, data, offsets, made)
    requires |stored| == |made| && forall i | 0 <= i < |made| :: stored[i] == offsets[i] % TWO_32
    requires |data| + 4 * |made| + 5 < TWO_32
    ensures IsFilterBlock(policy, data + Fixed32Array(stored) + Fixed32(|data| % TWO_32) + [FILTER_BASE_LG], offsets, made)
  {
    hide Filters, Fixed32, DecodeFixed32, Fixed32Array;
    FiltersInOrder(policy, data, offsets, made);
    var table, last := Fixed32Array(stored), Fixed32(|data|);
    BlockParts(data, table, last);
    Fixed32RoundTrip(|data|, [FILTER_BASE_LG]);
    forall i | 0 <= i <= |made|
      ensures DecodeFixed32((data + table + last + [FILTER_BASE_LG])[offsets[|made|] + 4 * i..]) == offsets[i]
    {
      StoredOffset(stored, |data|, last + [FILTER_BASE_LG], i, offsets[i]);
    }
  }

  class FilterBlockBuilder {
    const policy: Policy
    var keys: Bytes
    var start: seq<nat>
    var data: Bytes
    var filterOffsets: seq<nat>
    ghost var pending: seq<Bytes>
    ghost var made: seq<seq<Bytes>>
    ghost var offsets: seq<nat>

    ghost predicate Valid()
      reads this
    {
      && policy.Valid()
      && keys == Concatenated(pending)
      && Starts(start, pending)
      && Filters(policy, data, offsets, made)
      && |filterOffsets| == |made| == |offsets| - 1
      && offsets[|made|] == |data|
      && forall i | 0 <= i < |made| :: filterOffsets[i] == offsets[i] % TWO_32
    }

    constructor (policy: Policy)
      requires policy.Valid()
      ensures Valid() && this.policy == policy && made == [] && pending == []
    {
      this.policy := policy;
      keys, start, data, filterOffsets := [], [], [], [];
      pending, made, offsets := [], [], [0];
    }

    method AddKey(key: Bytes)
      requires Valid()
      modifies this
      ensures Valid() && made == old(made) && pending == old(pending) + [key]
    {
      hide Filters;
      start := start + [|keys|];
      keys := keys + key;
      pending := pending + [key];
      PendingAdded(old(start), old(pending), key);
    }

    /** Appends the filter of the pending keys. */
    method WithFilter() returns (data': Bytes, ghost filter: Bytes)
      requires Valid() && start != []
      ensures data' == data + filter && FilterOf(policy, pending, filter)
    {
      hide Filters, FilterOf, IsFilter, UsersOf;
      var tmpKeys := KeySlices(keys, start, pending);
      var userKeys := UserKeys(tmpKeys);
      data' := CreateFilter(policy, userKeys, data);
      filter := data'[|data|..];
      assert data' == data + filter;
      FilterMade(policy, pending, filter);
    }

    /** Puts the pending keys in one more filter. */
    method GenerateFilter()
      requires Valid()
      modifies this
      ensures Valid() && made == old(made) + [old(pending)] && pending == []
    {
      hide Filters, FilterOf;
      ghost var filter: Bytes := [];
      var data' := data;
      if start == [] {
        assert data + [] == data && pending == [];
        NoKeysNoFilter(policy);
      } else {
        data', filter := WithFilter();
      }
      FilterAdded(policy, data, offsets, made, pending, filter);
      filterOffsets := filterOffsets + [|data| % TWO_32];
      data := data';
      made, offsets := made + [pending], offsets + [|data|];
      keys, start, pending := [], [], [];
    }

    /** Filters are kept by the offset of the block their keys are in, two kilobytes to a filter. */
    method StartBlock(blockOffset: nat)
      requires Valid() && |made| <= blockOffset / FILTER_BASE
      modifies this
      ensures Valid() && |made| == blockOffset / 2048
      ensures forall i: nat, key :: Holds(old(made), old(pending), i, key) ==> Holds(made, pending, i, key)
      ensures |made| == |old(made)| ==> pending == old(pending)
      ensures |made| > |old(made)| ==> pending == []
    {
      var filterIndex := blockOffset / FILTER_BASE;
      while filterIndex > |filterOffsets|
        invariant Valid() && |made| <= filterIndex
        invariant |made| >= |old(made)|
        invariant forall i: nat, key :: Holds(old(made), old(pending), i, key) ==> Holds(made, pending, i, key)
        invariant if |made| == |old(made)| then pending == old(pending) else pending == []
      {
        GenerateFilter();
      }
    }

    /** The filters, then where each begins, where the offsets begin, and the block size they are kept by. */
    method Finish() returns (block: Bytes)
      requires Valid()
      modifies this
      ensures |block| < TWO_32 ==> IsFilterBlock(policy, block, offsets, made)
      ensures forall i: nat, key :: Holds(old(made), old(pending), i, key) ==> i < |made| && key in made[i]
    {
      if start != [] {
        GenerateFilter();
      }
      ghost var filters := data;
      var arrayOffset := |data| % TWO_32;
      data := AppendFixed32s(data, filterOffsets);
      data := data + Fixed32(arrayOffset);
      data := data + [FILTER_BASE_LG];
      block := data;
      if |block| < TWO_32 {
        FilterBlockFinished(policy, filters, offsets, made, filterOffsets);
      }
    }
  }

  // ----- reading the filter block

  datatype Reader = Reader(data: Bytes, offset: nat, num: nat, baseLg: nat)

  /** A block too short for what it says it holds has no filters. */
  function OpenFilter(contents: Bytes): (r: Reader)
    ensures r.offset + 4 * r.num + 5 <= |r.data| || r.num == 0
  {
    var n := |contents|;
    if n < 5 then Reader(contents, 0, 0, 0)
    else
      var lastWord := DecodeFixed32(contents[n - 5..]);
      if lastWord > n - 5 then Reader(contents, 0, 0, contents[n - 1])
      else Reader(contents, lastWord, (n - 5 - lastWord) / 4, contents[n - 1])
  }

  lemma OpensFilter(policy: Policy, block: Bytes, offsets: seq<nat>, made: seq<seq<Bytes>>)
    requires IsFilterBlock(policy, block, offsets, made)
    ensures OpenFilter(block) == Reader(block, offsets[|made|], |made|, FILTER_BASE_LG)
  {
    hide DecodeFixed32, Filters;
  }

  /** What the reader finds for filter i. */
  lemma FilterFound(policy: Policy, block: Bytes, offsets: seq<nat>, made: seq<seq<Bytes>>, i: nat)
    requires IsFilterBlock(policy, block, offsets, made) && i < |made|
    ensures var end := offsets[|made|];
      && end + 4 * i + 4 + 5 <= |block|
      && DecodeFixed32(block[end + i * 4..]) == offsets[i]
      && DecodeFixed32(block[end + i * 4 + 4..]) == offsets[i+1]
      && offsets[i] <= offsets[i+1] <= end
      && FilterOf(policy, made[i], block[offsets[i]..offsets[i+1]])
  {
    hide DecodeFixed32, FilterOf;
    assert offsets[|made|] + 4 * (i + 1) == offsets[|made|] + i * 4 + 4;
    assert block[..offsets[|made|]][offsets[i]..offsets[i+1]] == block[offsets[i]..offsets[i+1]];
  }

  method KeyMayMatch(policy: Policy, reader: Reader, blockOffset: nat, key: Bytes,
                     ghost offsets: seq<nat>, ghost made: seq<seq<Bytes>>) returns (may: bool)
    requires IsFilterBlock(policy, reader.data, offsets, made) && reader == OpenFilter(reader.data)
    ensures var i := blockOffset / FILTER_BASE;
      && (i >= |made| ==> may)
      && (i < |made| ==> (may <==> made[i] != [] && AllProbed(policy, UsersOf(made[i]), ExtractUserKey(key))))
      && (i < |made| && (exists k :: k in made[i] && ExtractUserKey(k) == ExtractUserKey(key)) ==> may)
  {
    OpensFilter(policy, reader.data, offsets, made);
    assert Pow2(FILTER_BASE_LG) == FILTER_BASE;
    var index := blockOffset / Pow2(reader.baseLg);
    if index < reader.num {
      FilterFound(policy, reader.data, offsets, made, index);
      FilterMatches(policy, made[index], reader.data[offsets[index]..offsets[index+1]], ExtractUserKey(key));
      MadeOf(policy, made[index], key);
      hide IsFilterBlock, Matches, AllProbed, FilterOf, UsersOf, ExtractUserKey;
      var start := DecodeFixed32(reader.data[reader.offset + index * 4..]);
      var limit := DecodeFixed32(reader.data[reader.offset + index * 4 + 4..]);
      if start <= limit && limit <= reader.offset {
        var filter := reader.data[start..limit];
        may := BloomMayMatch(policy, ExtractUserKey(key), filter);
        return;
      } else if start == limit {
        return false;
      }
    }
    return true;
  }
}
