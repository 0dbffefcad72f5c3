/** Blocks of prefix-compressed entries, and the cursor over a block. */
module Blocks {
  import opened Keys
  import opened Coding

  datatype Pair = Pair(key: Bytes, value: Bytes)

  // ----- one entry

  /** The entry of p when its key shares that many bytes with the key before it. */
  function EntryBytes(shared: nat, p: Pair): (b: Bytes)
    requires shared <= |p.key|
    ensures |b| >= 3 + |p.key| - shared + |p.value|
  {
    Varint(shared) + (Varint(|p.key| - shared) + (Varint(|p.value|) + (p.key[shared..] + p.value)))
  }

  /** What of the key is shared, what is not, and the length of the value, a byte each when short. */
  lemma EntryLayout(shared: nat, p: Pair)
    requires shared <= |p.key| < 128 && |p.value| < 128
    ensures EntryBytes(shared, p) == [shared] + ([|p.key| - shared] + ([|p.value|] + (p.key[shared..] + p.value)))
  {
    hide Varint;
    ShortVarint(shared);
    ShortVarint(|p.key| - shared);
    ShortVarint(|p.value|);
  }

  /** The three lengths in front of an entry, and the bytes after them. */
  datatype Header = Header(shared: nat, nonShared: nat, valueLength: nat, rest: Bytes)

  /** The lengths are added in 32 bits. */
  function CheckLength(h: Header): (o: Option<Header>) {
    if |h.rest| < (h.nonShared + h.valueLength) % TWO_32 then None else Some(h)
  }

  function DecodeLongEntry(input: Bytes): (o: Option<Header>) {
    match GetVarint32(input)
    case None => None
    case Some(a) =>
      match GetVarint32(a.rest)
      case None => None
      case Some(b) =>
        match GetVarint32(b.rest)
        case None => None
        case Some(c) => CheckLength(Header(a.value, b.value, c.value, c.rest))
  }

  function DecodeEntry(input: Bytes): (o: Option<Header>) {
    if |input| < 3 then None
    else if input[0] < 128 && input[1] < 128 && input[2] < 128 then
      CheckLength(Header(input[0], input[1], input[2], input[3..]))
    else DecodeLongEntry(input)
  }

  lemma FirstByte(v: nat, rest: Bytes)
    ensures (Varint(v) + rest)[0] < 128 <==> v < 128
    ensures v < 128 ==> Varint(v) + rest == [v] + rest && (Varint(v) + rest)[1..] == rest
  {
  }

  /** The lengths in front of body. */
  function Lengths(a: nat, b: nat, c: nat, body: Bytes): Bytes {
    Varint(a) + (Varint(b) + (Varint(c) + body))
  }

  lemma DecodesLong(a: nat, b: nat, c: nat, body: Bytes)
    requires a < TWO_32 && b < TWO_32 && c < TWO_32
    ensures DecodeLongEntry(Lengths(a, b, c, body)) == CheckLength(Header(a, b, c, body))
  {
    hide Varint, GetVarint32, CheckLength;
    Varint32RoundTrip(a, Varint(b) + (Varint(c) + body));
    Varint32RoundTrip(b, Varint(c) + body);
    Varint32RoundTrip(c, body);
  }

  lemma ShortLengths(a: nat, b: nat, c: nat, body: Bytes)
    ensures var input := Lengths(a, b, c, body);
      |input| >= 3 && (input[0] < 128 && input[1] < 128 && input[2] < 128 ==>
        input[0] == a && input[1] == b && input[2] == c && input[3..] == body)
  {
    hide Varint;
    var third := Varint(c) + body;
    var second := Varint(b) + third;
    FirstByte(a, second);
    FirstByte(b, third);
    FirstByte(c, body);
    var input := Varint(a) + second;
    if input[0] < 128 && input[1] < 128 && input[2] < 128 {
      assert second[0] == input[1] && third[0] == input[2];
    }
  }

  /** Both ways of reading the lengths find the ones that were written. */
  lemma DecodesEntry(shared: nat, p: Pair, rest: Bytes)
    requires shared <= |p.key| < TWO_32 && |EntryBytes(shared, p) + rest| < TWO_32
    ensures DecodeEntry(EntryBytes(shared, p) + rest)
         == Some(Header(shared, |p.key| - shared, |p.value|, p.key[shared..] + p.value + rest))
  {
    hide Varint, DecodeLongEntry;
    var n, v := |p.key| - shared, |p.value|;
    var body := p.key[shared..] + p.value + rest;
    assert EntryBytes(shared, p) + rest == Lengths(shared, n, v, body);
    DecodesLong(shared, n, v, body);
    ShortLengths(shared, n, v, body);
    hide Lengths;
  }

  // ----- a whole block

  /** Where everything is in a block: how much each key shares, where each entry starts
      (and, last, where they end), and which entries are restart points. */
  datatype Layout = Layout(pairs: seq<Pair>, shared: seq<nat>, offsets: seq<nat>, restarts: seq<nat>)
  {
    ghost predicate Prefixed() {
      && |shared| == |pairs|
      && (forall i | 0 <= i < |pairs| :: shared[i] <= |pairs[i].key| < TWO_32)
      && (|pairs| > 0 ==> shared[0] == 0)
      && forall i | 0 < i < |pairs| ::
           shared[i] <= |pairs[i-1].key| && pairs[i].key[..shared[i]] == pairs[i-1].key[..shared[i]]
    }

    ghost predicate Placed() {
      && |offsets| == |pairs| + 1
      && offsets[0] == 0
      && forall i, j | 0 <= i < j < |offsets| :: offsets[i] < offsets[j]
    }

    ghost predicate Restarting() {
      && |shared| == |pairs|
      && |restarts| > 0
      && restarts[0] == 0
      && (forall r, q | 0 <= r < q < |restarts| :: restarts[r] < restarts[q])
      && forall r | 0 < r < |restarts| :: restarts[r] < |pairs| && shared[restarts[r]] == 0
    }

    ghost predicate WellFormed() {
      Prefixed() && Placed() && Restarting()
    }

    function Offset(i: nat): nat {
      if i < |offsets| then offsets[i] else 0
    }

    function EndOfEntries(): nat {
      Offset(|pairs|)
    }

    /** The offset of restart point r. */
    function RestartOffset(r: nat): nat {
      if r < |restarts| then Offset(restarts[r]) else 0
    }

    /** Entry i lies where the layout says. */
    ghost predicate Written(data: Bytes, i: nat) {
      && i < |pairs|
      && i < |shared|
      && shared[i] <= |pairs[i].key|
      && Offset(i) <= Offset(i + 1) <= |data|
      && data[Offset(i)..Offset(i + 1)] == EntryBytes(shared[i], pairs[i])
    }

    ghost predicate AllWritten(data: Bytes) {
      forall i: nat | i < |pairs| :: Written(data, i)
    }
  }

  function Fixed32Array(s: seq<nat>): (b: Bytes)
    requires forall i | 0 <= i < |s| :: s[i] < TWO_32
    ensures |b| == 4 * |s|
  {
    if s == [] then [] else Fixed32Array(s[..|s|-1]) + Fixed32(s[|s|-1])
  }

  lemma {:induction false} Fixed32ArrayAt(s: seq<nat>, i: nat, rest: Bytes)
    requires i < |s| && forall k | 0 <= k < |s| :: s[k] < TWO_32
    ensures DecodeFixed32((Fixed32Array(s) + rest)[4 * i..]) == s[i]
  {
    hide DecodeFixed32, Fixed32;
    var front, last := s[..|s|-1], Fixed32(s[|s|-1]);
    assert Fixed32Array(s) + rest == Fixed32Array(front) + (last + rest);
    if i == |s| - 1 {
      Fixed32RoundTrip(s[i], rest);
      assert (Fixed32Array(front) + (last + rest))[4 * i..] == last + rest;
    } else {
      Fixed32ArrayAt(front, i, last + rest);
    }
  }

  method AppendFixed32s(dst: Bytes, s: seq<nat>) returns (b: Bytes)
    requires forall i | 0 <= i < |s| :: s[i] < TWO_32
    ensures b == dst + Fixed32Array(s)
  {
    hide Fixed32;
    b := dst;
    for i := 0 to |s|
      invariant b == dst + Fixed32Array(s[..i])
    {
      assert s[..i+1][..i] == s[..i];
      b := b + Fixed32(s[i]);
    }
    assert s[..|s|] == s;
  }

  /** The bytes of a block: its entries, the offsets of its restart points, and their number. */
  ghost predicate IsBlock(block: Bytes, l: Layout) {
    && l.WellFormed()
    && |block| == l.EndOfEntries() + 4 * |l.restarts| + 4
    && |block| < TWO_32
    && l.AllWritten(block)
    && (forall r: nat | r < |l.restarts| :: DecodeFixed32(block[l.EndOfEntries() + 4 * r..]) == l.RestartOffset(r))
    && DecodeFixed32(block[|block| - 4..]) == |l.restarts|
  }

  lemma RestartInside(l: Layout, r: nat)
    requires l.WellFormed() && r < |l.restarts|
    ensures l.RestartOffset(r) <= l.EndOfEntries() && l.restarts[r] <= |l.pairs| == |l.shared|
    ensures |l.pairs| > 0 ==> l.restarts[r] < |l.pairs| && l.shared[l.restarts[r]] == 0
    ensures r == 0 ==> l.RestartOffset(r) == 0 && l.restarts[0] == 0
  {
  }

  // ----- building

  function LastKey(pairs: seq<Pair>): Bytes {
    if pairs == [] then [] else pairs[|pairs| - 1].key
  }

  /** The layout with one more entry. */
  function Extended(l: Layout, p: Pair, share: nat, restart: bool): (l': Layout)
    requires |l.offsets| == |l.pairs| + 1 && share <= |p.key|
  {
    Layout(l.pairs + [p], l.shared + [share],
           l.offsets + [l.EndOfEntries() + |EntryBytes(share, p)|],
           if restart then l.restarts + [|l.pairs|] else l.restarts)
  }

  lemma ExtendedWellFormed(l: Layout, p: Pair, share: nat, restart: bool)
    requires l.WellFormed() && share <= |p.key| && share <= |LastKey(l.pairs)|
    requires p.key[..share] == LastKey(l.pairs)[..share]
    requires restart ==> share == 0 && |l.pairs| > 0
    requires |p.key| < TWO_32
    ensures Extended(l, p, share, restart).WellFormed()
  {
    hide EntryBytes;
    var l' := Extended(l, p, share, restart);
    assert l'.Placed();
    assert l'.Restarting() by { hide LastKey; }
    assert l'.Prefixed();
  }

  lemma ExtendedWritten(l: Layout, p: Pair, share: nat, restart: bool, data: Bytes)
    requires l.WellFormed() && share <= |p.key| && |data| == l.EndOfEntries() && l.AllWritten(data)
    requires Extended(l, p, share, restart).WellFormed()
    ensures Extended(l, p, share, restart).AllWritten(data + EntryBytes(share, p))
  {
    hide EntryBytes;
    var l' := Extended(l, p, share, restart);
    var data' := data + EntryBytes(share, p);
    forall i: nat | i < |l'.pairs|
      ensures l'.Written(data', i)
    {
      if i < |l.pairs| {
        assert l.Written(data, i);
        assert l'.offsets[i+1] == l.offsets[i+1] && l'.offsets[i] == l.offsets[i];
        assert l.offsets[i+1] <= |data|;
        assert data'[l.offsets[i]..l.offsets[i+1]] == data[l.offsets[i]..l.offsets[i+1]];
        assert l'.shared[i] == l.shared[i] && l'.pairs[i] == l.pairs[i];
      } else {
        assert data'[l'.offsets[i]..l'.offsets[i+1]] == EntryBytes(share, p);
      }
    }
  }

  /** Restart points come every interval entries, counter entries since the last. */
  ghost predicate Spaced(l: Layout, interval: nat, counter: nat) {
    && |l.restarts| > 0
    && (forall r | 0 < r < |l.restarts| :: l.restarts[r] == l.restarts[r-1] + interval)
    && counter == |l.pairs| - l.restarts[|l.restarts| - 1] <= interval
  }

  /** That many bytes and no more are common to the start of both keys. */
  predicate CommonLength(a: Bytes, b: Bytes, n: nat) {
    n <= |a| && n <= |b| && a[..n] == b[..n] && (n < |a| && n < |b| ==> a[n] != b[n])
  }

  /** Every key but those at restart points shares all it can with the key before it. */
  ghost predicate Compressed(l: Layout) {
    && |l.shared| == |l.pairs|
    && forall i | 0 < i < |l.pairs| :: i in l.restarts || CommonLength(l.pairs[i-1].key, l.pairs[i].key, l.shared[i])
  }

  lemma ExtendedCompressed(l: Layout, p: Pair, share: nat, restart: bool)
    requires Compressed(l) && |l.offsets| == |l.pairs| + 1 && share <= |p.key|
    requires restart || |l.pairs| == 0 || CommonLength(LastKey(l.pairs), p.key, share)
    ensures Compressed(Extended(l, p, share, restart))
  {
    hide EntryBytes, CommonLength;
    var l' := Extended(l, p, share, restart);
    forall i | 0 < i < |l'.pairs|
      ensures i in l'.restarts || CommonLength(l'.pairs[i-1].key, l'.pairs[i].key, l'.shared[i])
    {
      if i < |l.pairs| {
        assert i in l.restarts || CommonLength(l.pairs[i-1].key, l.pairs[i].key, l.shared[i]);
      } else if restart {
        assert l'.restarts[|l.restarts|] == i;
      }
    }
  }

  const EMPTY_LAYOUT: Layout := Layout([], [], [0], [0])

  /** What the builder's fields say while the block is short enough to be read back. */
  ghost predicate Exact(l: Layout, pairs: seq<Pair>, interval: nat, counter: nat, buffer: Bytes, restarts: seq<nat>) {
    && l.WellFormed()
    && l.pairs == pairs
    && Spaced(l, interval, counter) && Compressed(l)
    && |LastKey(pairs)| <= |buffer| == l.EndOfEntries()
    && l.AllWritten(buffer)
    && |restarts| == |l.restarts|
    && forall r: nat | r < |restarts| :: restarts[r] == l.RestartOffset(r)
  }

  /** The entry as appended: its lengths are cut to 32 bits. */
  function StoredEntry(shared: nat, p: Pair): (b: Bytes)
    requires shared <= |p.key|
    ensures b != []
  {
    Varint(shared % TWO_32) + (Varint((|p.key| - shared) % TWO_32) + (Varint(|p.value| % TWO_32) + (p.key[shared..] + p.value)))
  }

  method SharedLength(lastKey: Bytes, key: Bytes) returns (shared: nat)
    ensures CommonLength(lastKey, key, shared)
  {
    shared := 0;
    var minLength := if |lastKey| < |key| then |lastKey| else |key|;
    while shared < minLength && lastKey[shared] == key[shared]
      invariant shared <= minLength && lastKey[..shared] == key[..shared]
    {
      shared := shared + 1;
    }
  }

  /** The three lengths, then the rest of the key and the value. */
  method AppendEntry(buffer: Bytes, shared: nat, key: Bytes, value: Bytes) returns (b: Bytes)
    requires shared <= |key|
    ensures b == buffer + StoredEntry(shared, Pair(key, value))
  {
    hide Varint;
    var nonShared := |key| - shared;
    b := buffer + Varint(shared % TWO_32);
    b := b + Varint(nonShared % TWO_32);
    b := b + Varint(|value| % TWO_32);
    b := b + key[shared..shared + nonShared];
    b := b + value;
  }

  lemma EmptyExact(interval: nat)
    ensures Exact(EMPTY_LAYOUT, [], interval, 0, [], [0])
  {
  }

  lemma LastKeyAdded(pairs: seq<Pair>, p: Pair)
    ensures LastKey(pairs + [p]) == p.key
  {
  }

  lemma ExtendedSpaced(l: Layout, p: Pair, share: nat, restart: bool, interval: nat, counter: nat)
    requires |l.offsets| == |l.pairs| + 1 && share <= |p.key| && l.WellFormed()
    requires interval >= 1 && Spaced(l, interval, counter) && (restart <==> counter >= interval)
    ensures Spaced(Extended(l, p, share, restart), interval, (if restart then 0 else counter) + 1)
    ensures restart ==> |l.pairs| > 0
  {
    hide EntryBytes;
  }

  lemma LayoutAdded(l: Layout, p: Pair, share: nat, restart: bool, data: Bytes, restarts: seq<nat>, interval: nat, counter: nat) returns (l': Layout)
    requires l.WellFormed() && share <= |p.key| < TWO_32 && share <= |LastKey(l.pairs)|
    requires p.key[..share] == LastKey(l.pairs)[..share]
    requires interval >= 1 && Spaced(l, interval, counter) && (restart <==> counter >= interval) && (restart ==> share == 0)
    requires Compressed(l) && (restart || CommonLength(LastKey(l.pairs), p.key, share))
    requires |data| == l.EndOfEntries() && l.AllWritten(data)
    requires |restarts| == |l.restarts| && forall r: nat | r < |restarts| :: restarts[r] == l.RestartOffset(r)
    ensures l'.WellFormed() && l'.pairs == l.pairs + [p]
    ensures Spaced(l', interval, (if restart then 0 else counter) + 1) && Compressed(l')
    ensures l'.EndOfEntries() == |data + EntryBytes(share, p)| && l'.AllWritten(data + EntryBytes(share, p))
    ensures var restarts' := if restart then restarts + [|data|] else restarts;
      |restarts'| == |l'.restarts| && forall r: nat | r < |restarts'| :: restarts'[r] == l'.RestartOffset(r)
  {
    hide EntryBytes, LastKey, Layout.AllWritten, Spaced, Compressed, CommonLength;
    l' := Extended(l, p, share, restart);
    ExtendedCompressed(l, p, share, restart);
    ExtendedSpaced(l, p, share, restart, interval, counter);
    ExtendedWellFormed(l, p, share, restart);
    ExtendedWritten(l, p, share, restart, data);
  }

  lemma AddedExact(l: Layout, pairs: seq<Pair>, interval: nat, counter: nat, buffer: Bytes, restarts: seq<nat>,
                   shared: nat, p: Pair) returns (l': Layout)
    requires interval >= 1 && shared <= |p.key| && shared <= |LastKey(pairs)|
    requires p.key[..shared] == LastKey(pairs)[..shared]
    requires if counter >= interval then shared == 0 else CommonLength(LastKey(pairs), p.key, shared)
    requires Exact(l, pairs, interval, counter, buffer, restarts)
    requires |buffer| + |StoredEntry(shared, p)| < TWO_32
    ensures Exact(l', pairs + [p], interval, (if counter >= interval then 0 else counter) + 1,
                  buffer + StoredEntry(shared, p),
                  if counter >= interval then restarts + [|buffer| % TWO_32] else restarts)
  {
    hide Varint, Layout.WellFormed, Layout.AllWritten, Layout.EndOfEntries, Layout.RestartOffset, Spaced, LastKey, Compressed, CommonLength;
    assert StoredEntry(shared, p) == EntryBytes(shared, p);
    l' := LayoutAdded(l, p, shared, counter >= interval, buffer, restarts, interval, counter);
    LastKeyAdded(pairs, p);
  }

  lemma WrittenBefore(l: Layout, data: Bytes, rest: Bytes)
    requires l.WellFormed() && l.AllWritten(data)
    ensures l.AllWritten(data + rest)
  {
    hide EntryBytes;
    forall i: nat | i < |l.pairs|
      ensures l.Written(data + rest, i)
    {
      assert l.Written(data, i);
      assert l.offsets[i] < l.offsets[i+1];
      assert (data + rest)[l.offsets[i]..l.offsets[i+1]] == data[l.offsets[i]..l.offsets[i+1]];
    }
  }

  lemma BlockFinished(l: Layout, data: Bytes, restarts: seq<nat>)
    requires l.WellFormed() && |data| == l.EndOfEntries() && l.AllWritten(data)
    requires |restarts| == |l.restarts| && forall r: nat | r < |restarts| :: restarts[r] == l.RestartOffset(r)
    requires |data| + 4 * |restarts| + 4 < TWO_32
    requires forall r | 0 <= r < |restarts| :: restarts[r] < TWO_32
    ensures IsBlock(data + Fixed32Array(restarts) + Fixed32(|restarts| % TWO_32), l)
  {
    hide Fixed32Array, Fixed32, DecodeFixed32, EntryBytes;
    var tail := Fixed32(|restarts| % TWO_32);
    var block := data + Fixed32Array(restarts) + tail;
    WrittenBefore(l, data, Fixed32Array(restarts) + tail);
    assert block == data + (Fixed32Array(restarts) + tail);
    forall r: nat | r < |l.restarts|
      ensures DecodeFixed32(block[l.EndOfEntries() + 4 * r..]) == l.RestartOffset(r)
    {
      Fixed32ArrayAt(restarts, r, tail);
      assert block[|data| + 4 * r..] == (Fixed32Array(restarts) + tail)[4 * r..];
    }
    assert block[|block| - 4..] == tail + [];
    Fixed32RoundTrip(|restarts|, []);
  }

  class BlockBuilder {
    const interval: nat
    var buffer: Bytes
    var restarts: seq<nat>
    var counter: nat
    var finished: bool
    var lastKey: Bytes
    ghost var contents: seq<Pair>
    ghost var layout: Layout

    function CurrentSizeEstimate(): nat
      reads this
    {
      |buffer| + |restarts| * 4 + 4
    }

    /** Lengths and offsets are kept in 32 bits, so only shorter blocks can be read back. */
    ghost predicate Valid()
      reads this
    {
      && interval >= 1
      && lastKey == LastKey(contents)
      && (!finished ==> (buffer == [] <==> contents == []))
      && (forall i | 0 <= i < |restarts| :: restarts[i] < TWO_32)
      && (!finished && CurrentSizeEstimate() < TWO_32 ==> Exact(layout, contents, interval, counter, buffer, restarts))
    }

    constructor (interval: nat)
      requires interval >= 1
      ensures Valid() && this.interval == interval && !finished && contents == [] && CurrentSizeEstimate() == 8
    {
      this.interval := interval;
      buffer := [];
      restarts := [0];
      counter := 0;
      finished := false;
      lastKey := [];
      contents := [];
      layout := EMPTY_LAYOUT;
      EmptyExact(interval);
      hide Exact;
    }

    method Reset()
      requires Valid()
      modifies this
      ensures Valid() && !finished && contents == [] && CurrentSizeEstimate() == 8
    {
      buffer := [];
      restarts := [0];
      counter := 0;
      finished := false;
      lastKey := [];
      contents := [];
      layout := EMPTY_LAYOUT;
      EmptyExact(interval);
      hide Exact;
    }

    predicate Empty()
      reads this
    {
      buffer == []
    }

    lemma EmptyContents()
      requires Valid() && !finished
      ensures Empty() <==> contents == []
    {
    }

    /** Appends an entry that shares a prefix with the last key, or a whole key at a restart point. */
    method Add(key: Bytes, value: Bytes)
      requires Valid() && !finished
      modifies this
      ensures Valid() && !finished && contents == old(contents) + [Pair(key, value)]
    {
      hide StoredEntry, Exact, LastKey;
      var shared := 0;
      if counter < interval {
        shared := SharedLength(lastKey, key);
      } else {
        restarts := restarts + [|buffer| % TWO_32];
        counter := 0;
      }
      buffer := AppendEntry(buffer, shared, key, value);
      lastKey := lastKey[..shared] + key[shared..];
      counter := counter + 1;
      ghost var p := Pair(key, value);
      contents := contents + [p];
      LastKeyAdded(old(contents), p);
      if CurrentSizeEstimate() < TWO_32 {
        layout := AddedExact(layout, old(contents), interval, old(counter), old(buffer), old(restarts), shared, p);
      }
    }

    /** Appends the restart points and their number. */
    method Finish() returns (block: Bytes)
      requires Valid() && !finished
      modifies this
      ensures Valid() && finished && contents == old(contents) && layout == old(layout)
      ensures |block| == old(CurrentSizeEstimate())
      ensures |block| < TWO_32 ==> layout.pairs == contents && IsBlock(block, layout)
      ensures |block| < TWO_32 ==> Spaced(layout, interval, counter) && Compressed(layout)
    {
      if CurrentSizeEstimate() < TWO_32 {
        BlockFinished(layout, buffer, restarts);
      }
      hide IsBlock, Fixed32, Fixed32Array;
      buffer := AppendFixed32s(buffer, restarts);
      buffer := buffer + Fixed32(|restarts| % TWO_32);
      finished := true;
      block := buffer;
    }
  }

  // ----- reading

  lemma SlicesMeet(s: Bytes, a: nat, b: nat, c: nat)
    requires a <= b <= c <= |s|
    ensures s[a..c] == s[a..b] + s[b..c]
  {
  }

  lemma DecodesAt(block: Bytes, l: Layout, i: nat)
    requires IsBlock(block, l) && i < |l.pairs|
    ensures i < |l.shared| && l.shared[i] <= |l.pairs[i].key|
    ensures l.Offset(i) < l.Offset(i + 1) <= l.EndOfEntries() <= |block|
    ensures DecodeEntry(block[l.Offset(i)..l.EndOfEntries()]) ==
      Some(Header(l.shared[i], |l.pairs[i].key| - l.shared[i], |l.pairs[i].value|,
                  l.pairs[i].key[l.shared[i]..] + l.pairs[i].value + block[l.Offset(i + 1)..l.EndOfEntries()]))
  {
    hide EntryBytes, DecodeEntry, DecodeFixed32;
    assert l.Written(block, i);
    assert i + 1 < |l.pairs| ==> l.offsets[i+1] < l.offsets[|l.pairs|];
    var rest := block[l.Offset(i + 1)..l.EndOfEntries()];
    SlicesMeet(block, l.Offset(i), l.Offset(i + 1), l.EndOfEntries());
    DecodesEntry(l.shared[i], l.pairs[i], rest);
  }

  ghost predicate Monotone(less: (Bytes, Bytes) -> bool, pairs: seq<Pair>, target: Bytes) {
    forall i, j | 0 <= i < j < |pairs| :: less(pairs[j].key, target) ==> less(pairs[i].key, target)
  }

  /** What the entry read at its offset says of entry i. */
  ghost predicate Reads(block: Bytes, l: Layout, i: nat, h: Header) {
    && i < |l.pairs|
    && i < |l.shared|
    && h.shared == l.shared[i] <= |l.pairs[i].key|
    && h.nonShared <= |h.rest| <= l.EndOfEntries()
    && l.pairs[i].key[..h.shared] + h.rest[..h.nonShared] == l.pairs[i].key
    && l.EndOfEntries() - |h.rest| + h.nonShared + h.valueLength == l.Offset(i + 1) <= |block|
    && block[l.Offset(i + 1) - h.valueLength..l.Offset(i + 1)] == l.pairs[i].value
  }

  lemma EntryEndsWithValue(shared: nat, p: Pair)
    requires shared <= |p.key|
    ensures var b := EntryBytes(shared, p); b[|b| - |p.value|..] == p.value
  {
    hide Varint;
    var front := Varint(shared) + (Varint(|p.key| - shared) + (Varint(|p.value|) + p.key[shared..]));
    assert EntryBytes(shared, p) == front + p.value;
  }

  lemma EntryRead(block: Bytes, l: Layout, i: nat)
    requires IsBlock(block, l) && i < |l.pairs|
    ensures l.Offset(i) < l.EndOfEntries() <= |block|
    ensures var h := DecodeEntry(block[l.Offset(i)..l.EndOfEntries()]); h.Some? && Reads(block, l, i, h.value)
  {
    hide EntryBytes, DecodeFixed32, DecodeEntry;
    DecodesAt(block, l, i);
    assert l.Written(block, i);
    var key, value := l.pairs[i].key, l.pairs[i].value;
    EntryEndsWithValue(l.shared[i], l.pairs[i]);
    var entry := block[l.Offset(i)..l.Offset(i + 1)];
    assert entry[|entry| - |value|..] == block[l.Offset(i + 1) - |value|..l.Offset(i + 1)];
  }

  lemma OffsetsInside(l: Layout, i: nat)
    requires l.WellFormed() && i <= |l.pairs|
    ensures l.Offset(i) >= l.EndOfEntries() <==> i == |l.pairs|
  {
  }

  lemma OffsetsOrdered(l: Layout, i: nat, here: nat)
    requires l.WellFormed() && i <= |l.pairs| && here < |l.pairs|
    ensures l.Offset(i) < l.Offset(here) <==> i < here
  {
  }

  ghost predicate AllBefore(less: (Bytes, Bytes) -> bool, pairs: seq<Pair>, target: Bytes, n: nat) {
    n <= |pairs| && forall i | 0 <= i < n :: less(pairs[i].key, target)
  }

  /** Position n is that of the first pair that is not before the target, or the end. */
  ghost predicate LandsOn(less: (Bytes, Bytes) -> bool, pairs: seq<Pair>, target: Bytes, n: nat) {
    AllBefore(less, pairs, target, n) && (n < |pairs| ==> !less(pairs[n].key, target))
  }

  lemma BeforeRestart(less: (Bytes, Bytes) -> bool, pairs: seq<Pair>, target: Bytes, e: nat)
    requires Monotone(less, pairs, target) && e <= |pairs|
    requires e == 0 || (e < |pairs| && less(pairs[e].key, target))
    ensures AllBefore(less, pairs, target, e)
  {
  }

  lemma BeforeNext(less: (Bytes, Bytes) -> bool, pairs: seq<Pair>, target: Bytes, n: nat)
    requires AllBefore(less, pairs, target, n) && n < |pairs| && less(pairs[n].key, target)
    ensures AllBefore(less, pairs, target, n + 1)
  {
  }

  /** The cursor over a block. */
  class Iter {
    const less: (Bytes, Bytes) -> bool
    const data: Bytes
    const restarts: nat
    const numRestarts: nat
    ghost const layout: Layout
    var current: nat
    var restartIndex: nat
    var key: Bytes
    var valueAt: nat
    var valueSize: nat
    ghost var position: nat

    ghost predicate Fixed() {
      IsBlock(data, layout) && restarts == layout.EndOfEntries() && numRestarts == |layout.restarts|
    }

    ghost predicate Shows(i: nat)
      reads this
    {
      && i < |layout.pairs|
      && current == layout.Offset(i) < restarts
      && key == layout.pairs[i].key
      && valueAt + valueSize == layout.Offset(i + 1) <= |data|
      && data[valueAt..valueAt + valueSize] == layout.pairs[i].value
    }

    ghost predicate On(i: nat)
      reads this
    {
      && Shows(i)
      && restartIndex < numRestarts
      && layout.RestartOffset(restartIndex) <= current
      && (restartIndex + 1 < numRestarts ==> current <= layout.RestartOffset(restartIndex + 1))
    }

    /** On an entry, or past the end when position is the number of entries. */
    ghost predicate Inv()
      reads this
    {
      && Fixed()
      && (On(position) || (position == |layout.pairs| && current == restarts && restartIndex == numRestarts))
    }

    ghost predicate KeyBefore(i: nat)
      reads this
    {
      && i < |layout.pairs|
      && i < |layout.shared|
      && layout.shared[i] <= |key|
      && layout.shared[i] <= |layout.pairs[i].key|
      && key[..layout.shared[i]] == layout.pairs[i].key[..layout.shared[i]]
    }

    /** About to read entry i. */
    ghost predicate Before(i: nat)
      reads this
    {
      && i <= |layout.pairs|
      && valueAt + valueSize == layout.Offset(i)
      && restartIndex < numRestarts
      && layout.RestartOffset(restartIndex) <= layout.Offset(i)
      && (i < |layout.pairs| ==> KeyBefore(i))
    }

    constructor (less: (Bytes, Bytes) -> bool, data: Bytes, restarts: nat, numRestarts: nat, ghost layout: Layout)
      requires IsBlock(data, layout) && restarts == layout.EndOfEntries() && numRestarts == |layout.restarts|
      ensures Inv() && this.layout == layout && this.less == less && this.data == data && position == |layout.pairs|
    {
      this.less := less;
      this.data := data;
      this.restarts := restarts;
      this.numRestarts := numRestarts;
      this.layout := layout;
      current := restarts;
      restartIndex := numRestarts;
      key := [];
      valueAt := 0;
      valueSize := 0;
      position := |layout.pairs|;
    }

    predicate Valid()
      reads this
    {
      current < restarts
    }

    function Value(): Bytes
      requires Inv() && Valid()
      reads this
    {
      data[valueAt..valueAt + valueSize]
    }

    lemma FixedLayout()
      requires Fixed()
      ensures layout.WellFormed() && 0 < numRestarts == |layout.restarts|
    {
      hide Layout.AllWritten, DecodeFixed32;
    }

    /** What the cursor shows. */
    lemma Shown()
      requires Inv()
      ensures position <= |layout.pairs| && (Valid() <==> position < |layout.pairs|)
      ensures Valid() ==> key == layout.pairs[position].key && Value() == layout.pairs[position].value
    {
      hide IsBlock;
    }

    function GetRestartPoint(index: nat): (offset: nat)
      requires Fixed() && index < numRestarts
      ensures offset == layout.RestartOffset(index)
    {
      DecodeFixed32(data[restarts + index * 4..])
    }

    /** Moves restartIndex to the restart point the current entry falls after. */
    method CatchUp()
      requires Fixed() && restartIndex < numRestarts && layout.RestartOffset(restartIndex) <= current
      modifies this`restartIndex
      ensures restartIndex < numRestarts && layout.RestartOffset(restartIndex) <= current
      ensures restartIndex + 1 < numRestarts ==> current <= layout.RestartOffset(restartIndex + 1)
    {
      hide IsBlock, Layout.RestartOffset;
      while restartIndex + 1 < numRestarts && GetRestartPoint(restartIndex + 1) < current
        invariant restartIndex < numRestarts && layout.RestartOffset(restartIndex) <= current
      {
        restartIndex := restartIndex + 1;
      }
    }

    /** Rebuilds the key from the part it shares with the last one and the part stored. */
    method TakeEntry(ghost i: nat)
      requires Fixed() && KeyBefore(i)
      requires current == layout.Offset(i)
      modifies this
      ensures Shows(i) && restartIndex == old(restartIndex) && position == old(position)
    {
      EntryRead(data, layout, i);
      hide IsBlock, DecodeEntry, Layout.EndOfEntries, Layout.Offset;
      var h := DecodeEntry(data[current..restarts]);
      if h.None? || |key| < h.value.shared {
        assert false;
      }
      var header := h.value;
      key := key[..header.shared] + header.rest[..header.nonShared];
      valueAt := restarts - |header.rest| + header.nonShared;
      valueSize := header.valueLength;
    }

    /** The next entry begins where the value of this one ends. */
    method ParseNextKey(ghost i: nat) returns (ok: bool)
      requires Fixed() && i <= |layout.pairs| && Before(i)
      modifies this
      ensures Inv() && position == i && (ok <==> i < |layout.pairs|)
    {
      OffsetsInside(layout, i);
      hide IsBlock, Layout.WellFormed, DecodeEntry, EntryBytes, Layout.EndOfEntries, Layout.Offset, Layout.RestartOffset;
      current := valueAt + valueSize;
      position := i;
      if current >= restarts {
        current := restarts;
        restartIndex := numRestarts;
        return false;
      }
      TakeEntry(i);
      CatchUp();
      return true;
    }

    function NextEntryOffset(): nat
      reads this
    {
      valueAt + valueSize
    }

    lemma ReadyForNext()
      requires Inv() && Valid()
      ensures On(position) && Before(position + 1)
    {
      hide Layout.AllWritten, EntryBytes, DecodeFixed32;
    }

    method SeekToRestartPoint(index: nat)
      requires Fixed() && index < numRestarts
      modifies this
      ensures Before(layout.restarts[index]) && restartIndex == index
    {
      RestartInside(layout, index);
      hide IsBlock;
      key := [];
      restartIndex := index;
      valueAt := GetRestartPoint(index);
      valueSize := 0;
    }

    method SeekToFirst()
      requires Inv()
      modifies this
      ensures Inv() && position == 0
    {
      RestartInside(layout, 0);
      SeekToRestartPoint(0);
      var ok := ParseNextKey(0);
    }

    method SeekToLast()
      requires Inv()
      modifies this
      ensures Inv() && position == if layout.pairs == [] then 0 else |layout.pairs| - 1
    {
      hide IsBlock, Layout.WellFormed, Layout.Offset, Layout.RestartOffset, Before;
      FixedLayout();
      RestartInside(layout, numRestarts - 1);
      SeekToRestartPoint(numRestarts - 1);
      var ok := ParseNextKey(layout.restarts[numRestarts - 1]);
      while ok && NextEntryOffset() < restarts
        invariant Inv() && position <= |layout.pairs| && (ok <==> position < |layout.pairs|) && (layout.pairs != [] ==> ok)
        decreases |layout.pairs| - position
      {
        ReadyForNext();
        ok := ParseNextKey(position + 1);
      }
      OffsetsInside(layout, if ok then position + 1 else position);
    }

    method Next()
      requires Inv() && Valid()
      modifies this
      ensures Inv() && position == old(position) + 1
    {
      ReadyForNext();
      var ok := ParseNextKey(position + 1);
    }

    /** The last restart point before the entry at here, at or before restartIndex. */
    method RestartBefore(ghost here: nat) returns (found: bool)
      requires Fixed() && restartIndex < numRestarts && current == layout.Offset(here) && here < |layout.pairs|
      modifies this`restartIndex
      ensures restartIndex < numRestarts
      ensures found <==> here > 0
      ensures found ==> layout.restarts[restartIndex] < here
    {
      hide IsBlock, Layout.WellFormed, Layout.Offset;
      FixedLayout();
      RestartInside(layout, 0);
      OffsetsOrdered(layout, 0, here);
      while GetRestartPoint(restartIndex) >= current
        invariant restartIndex < numRestarts
        decreases restartIndex
      {
        if restartIndex == 0 {
          return false;
        }
        restartIndex := restartIndex - 1;
      }
      RestartInside(layout, restartIndex);
      OffsetsOrdered(layout, layout.restarts[restartIndex], here);
      return true;
    }

    /** Back to a restart point before this entry, then forward to the entry just before it. */
    method Prev()
      requires Inv() && Valid()
      modifies this
      ensures Inv() && position == if old(position) == 0 then |layout.pairs| else old(position) - 1
    {
      ghost var here := position;
      var original := current;
      hide IsBlock, Layout.WellFormed, Layout.Offset, Layout.RestartOffset, Before;
      FixedLayout();
      var found := RestartBefore(here);
      if !found {
        current := restarts;
        restartIndex := numRestarts;
        position := |layout.pairs|;
        return;
      }
      ghost var i := layout.restarts[restartIndex];
      SeekToRestartPoint(restartIndex);
      var ok := ParseNextKey(i);
      while ok && NextEntryOffset() < original
        invariant Inv() && i <= position < here && ok
        decreases here - position
      {
        OffsetsOrdered(layout, position + 1, here);
        ReadyForNext();
        ok := ParseNextKey(position + 1);
      }
      OffsetsOrdered(layout, position + 1, here);
    }

    /** The key of a restart point, which is stored whole. */
    method RestartKey(index: nat) returns (key: Bytes)
      requires Fixed() && index < numRestarts && layout.pairs != []
      ensures layout.restarts[index] < |layout.pairs| && key == layout.pairs[layout.restarts[index]].key
    {
      var regionOffset := GetRestartPoint(index);
      RestartInside(layout, index);
      EntryRead(data, layout, layout.restarts[index]);
      hide IsBlock, DecodeEntry;
      var h := DecodeEntry(data[regionOffset..restarts]);
      if h.None? || h.value.shared != 0 {
        assert false;
      }
      key := h.value.rest[..h.value.nonShared];
      assert layout.pairs[layout.restarts[index]].key[..0] + key == key;
    }

    /** Binary search for the last restart point whose key is before the target, or the first. */
    method RestartFor(target: Bytes) returns (left: nat)
      requires Fixed()
      ensures left < numRestarts
      ensures left > 0 ==> layout.restarts[left] < |layout.pairs| && less(layout.pairs[layout.restarts[left]].key, target)
    {
      hide IsBlock;
      FixedLayout();
      assert numRestarts > 1 ==> layout.restarts[1] < |layout.pairs|;
      hide Layout.WellFormed;
      left := 0;
      var right := numRestarts - 1;
      while left < right
        invariant left <= right < numRestarts
        invariant left > 0 ==> layout.restarts[left] < |layout.pairs| && less(layout.pairs[layout.restarts[left]].key, target)
      {
        var mid := (left + right + 1) / 2;
        var midKey := RestartKey(mid);
        if less(midKey, target) {
          left := mid;
        } else {
          right := mid - 1;
        }
      }
    }

    /** The first entry that is not before the target. */
    method Seek(target: Bytes)
      requires Inv() && Monotone(less, layout.pairs, target)
      modifies this
      ensures Inv() && LandsOn(less, layout.pairs, target, position)
    {
      hide IsBlock, Layout.WellFormed, Layout.Offset, Layout.RestartOffset, Monotone, AllBefore, Before;
      FixedLayout();
      RestartInside(layout, 0);
      var left := RestartFor(target);
      SeekToRestartPoint(left);
      BeforeRestart(less, layout.pairs, target, layout.restarts[left]);
      var ok := ParseNextKey(layout.restarts[left]);
      while ok && less(key, target)
        invariant Inv() && (ok <==> position < |layout.pairs|)
        invariant AllBefore(less, layout.pairs, target, position)
        decreases |layout.pairs| - position
      {
        BeforeNext(less, layout.pairs, target, position);
        ReadyForNext();
        ok := ParseNextKey(position + 1);
      }
    }
  }

  // ----- opening

  datatype Opened = Opened(restarts: nat, numRestarts: nat)

  /** Where the restart points begin and how many there are, unless the block is too small. */
  function OpenBlock(contents: Bytes): (o: Option<Opened>) {
    if |contents| < 4 then None
    else
      var numRestarts := DecodeFixed32(contents[|contents| - 4..]);
      if numRestarts > (|contents| - 4) / 4 then None
      else Some(Opened(|contents| - (1 + numRestarts) * 4, numRestarts))
  }

  lemma OpensBlock(block: Bytes, l: Layout)
    requires IsBlock(block, l)
    ensures OpenBlock(block) == Some(Opened(l.EndOfEntries(), |l.restarts|))
  {
    hide DecodeFixed32, Layout.WellFormed, Layout.AllWritten;
  }

  lemma SameKey(l: Layout, m: Layout, j: nat)
    requires l.WellFormed() && m.WellFormed() && j < |l.pairs| && j < |m.pairs|
    requires l.pairs[..j] == m.pairs[..j] && l.shared[j] == m.shared[j]
    ensures l.pairs[j].key[..l.shared[j]] == m.pairs[j].key[..m.shared[j]]
  {
    if j > 0 {
      assert l.pairs[..j][j-1] == l.pairs[j-1] && m.pairs[..j][j-1] == m.pairs[j-1];
    }
  }

  lemma {:induction false} PrefixAgrees(block: Bytes, l: Layout, m: Layout, i: nat)
    requires IsBlock(block, l) && IsBlock(block, m) && l.EndOfEntries() == m.EndOfEntries() && i <= |l.pairs|
    ensures i <= |m.pairs| && l.Offset(i) == m.Offset(i) && l.pairs[..i] == m.pairs[..i]
  {
    if i > 0 {
      var j := i - 1;
      PrefixAgrees(block, l, m, j);
      OffsetsInside(l, j);
      OffsetsInside(m, j);
      EntryRead(block, l, j);
      EntryRead(block, m, j);
      SameKey(l, m, j);
      hide IsBlock, DecodeEntry;
      assert l.pairs[..i] == l.pairs[..j] + [l.pairs[j]] && m.pairs[..i] == m.pairs[..j] + [m.pairs[j]];
    }
  }

  /** The bytes of a block determine its pairs. */
  lemma BlockDetermines(block: Bytes, l: Layout, m: Layout)
    requires IsBlock(block, l) && IsBlock(block, m)
    ensures l.pairs == m.pairs
  {
    OpensBlock(block, l);
    OpensBlock(block, m);
    PrefixAgrees(block, l, m, |l.pairs|);
    PrefixAgrees(block, m, l, |m.pairs|);
  }
}
