/** Table files: how TableBuilder lays out a sorted run of entries. */
module Tables {
  import opened Keys
  import opened Coding
  import opened Blocks
  import opened Separators
  import opened Filters

  // ----- where a block is

  datatype Handle = Handle(offset: nat, size: nat)

  /** Offsets and sizes are kept in 64 bits. */
  function EncodeHandle(h: Handle): Bytes {
    Varint(h.offset % TWO_64) + Varint(h.size % TWO_64)
  }

  function DecodeHandle(input: Bytes): (t: Option<Taken<Handle>>) {
    match GetVarint64(input)
    case None => None
    case Some(a) =>
      match GetVarint64(a.rest)
      case None => None
      case Some(b) => Some(Taken(Handle(a.value, b.value), b.rest))
  }

  lemma HandleRoundTrip(h: Handle, rest: Bytes)
    requires h.offset < TWO_64 && h.size < TWO_64
    ensures DecodeHandle(EncodeHandle(h) + rest) == Some(Taken(h, rest))
  {
    hide Varint, GetVarint64;
    assert EncodeHandle(h) + rest == Varint(h.offset) + (Varint(h.size) + rest);
    Varint64RoundTrip(h.offset, Varint(h.size) + rest);
    Varint64RoundTrip(h.size, rest);
  }

  // ----- blocks in a file

  const NO_COMPRESSION: Byte := 0
  const TRAILER_SIZE: nat := 5

  function Trailer(block: Bytes, checksum: Checksum): (t: Bytes)
    ensures |t| == TRAILER_SIZE
  {
    [NO_COMPRESSION] + Fixed32(Mask(checksum(block + [NO_COMPRESSION])))
  }

  ghost predicate StoredAt(file: Bytes, h: Handle, block: Bytes, checksum: Checksum) {
    && h.size == |block|
    && h.offset + |block| + TRAILER_SIZE <= |file|
    && file[h.offset..h.offset + |block| + TRAILER_SIZE] == block + Trailer(block, checksum)
  }

  lemma StaysStored(file: Bytes, h: Handle, block: Bytes, checksum: Checksum, more: Bytes)
    requires StoredAt(file, h, block, checksum)
    ensures StoredAt(file + more, h, block, checksum)
  {
    hide Trailer;
    var end := h.offset + |block| + TRAILER_SIZE;
    assert (file + more)[h.offset..end] == file[h.offset..end];
  }

  /** A short read, a wrong checksum or another type of block is an error. */
  function ReadBlock(file: Bytes, h: Handle, verify: bool, checksum: Checksum): (o: Option<Bytes>) {
    if |file| < h.offset + h.size + TRAILER_SIZE then None
    else
      var contents := file[h.offset..h.offset + h.size + TRAILER_SIZE];
      if verify && Unmask(DecodeFixed32(contents[h.size + 1..])) != checksum(contents[..h.size + 1]) then None
      else if contents[h.size] == NO_COMPRESSION then Some(contents[..h.size])
      else None
  }

  lemma ReadsBack(file: Bytes, h: Handle, block: Bytes, verify: bool, checksum: Checksum)
    requires StoredAt(file, h, block, checksum)
    ensures ReadBlock(file, h, verify, checksum) == Some(block)
  {
    hide Mask, Unmask, Fixed32, DecodeFixed32;
    var crc := checksum(block + [NO_COMPRESSION]);
    var contents := file[h.offset..h.offset + h.size + TRAILER_SIZE];
    assert contents[..h.size + 1] == block + [NO_COMPRESSION];
    assert contents[h.size + 1..] == Fixed32(Mask(crc)) + [];
    Fixed32RoundTrip(Mask(crc), []);
    UnmaskInvertsMask(crc);
  }

  // ----- how a run of entries is cut into blocks

  ghost predicate SortedRun(run: seq<Pair>) {
    && (forall i | 0 <= i < |run| :: IsInternal(run[i].key))
    && forall i, j | 0 <= i < j < |run| :: InternalLess(run[i].key, run[j].key)
  }

  ghost predicate Follows(last: Bytes, sep: Bytes) {
    sep == last || BytesLess(ExtractUserKey(last), ExtractUserKey(sep))
  }

  /** A run, the entry each data block starts with (and, last, the first entry not yet in a
      block), the blocks and where they are, and the separators after them. */
  datatype Cut = Cut(run: seq<Pair>, starts: seq<nat>, handles: seq<Handle>, blocks: seq<Bytes>, layouts: seq<Layout>, seps: seq<Bytes>)
  {
    ghost predicate Shape() {
      && |starts| == |handles| + 1 == |blocks| + 1 == |layouts| + 1
      && starts[0] == 0
      && (forall i, j | 0 <= i < j < |starts| :: starts[i] < starts[j])
      && starts[|handles|] <= |run|
      && |seps| <= |handles|
    }

    /** Block i holds these entries. */
    function Part(i: nat): seq<Pair>
      requires Shape() && i < |handles|
    {
      run[starts[i]..starts[i+1]]
    }

    function Rest(): seq<Pair>
      requires Shape()
    {
      run[starts[|handles|]..]
    }

    ghost predicate BlockAt(file: Bytes, checksum: Checksum, i: nat)
      requires Shape() && i < |handles|
    {
      && StoredAt(file, handles[i], blocks[i], checksum)
      && (|blocks[i]| < TWO_32 ==> IsBlock(blocks[i], layouts[i]) && layouts[i].pairs == Part(i))
    }

    ghost predicate InFile(file: Bytes, checksum: Checksum)
      requires Shape()
    {
      forall i: nat | i < |handles| :: BlockAt(file, checksum, i)
    }

    /** The separator after block i lies between its last entry and the entry after it. */
    ghost predicate Separated(i: nat)
      requires Shape() && i < |seps|
    {
      && starts[i] < starts[i+1] <= |run|
      && IsInternal(seps[i])
      && if starts[i+1] < |run| then Parts(run[starts[i+1] - 1].key, seps[i], run[starts[i+1]].key)
         else Follows(run[starts[i+1] - 1].key, seps[i])
    }

    ghost predicate AllSeparated()
      requires Shape()
    {
      forall i: nat | i < |seps| :: Separated(i)
    }

    function Index(): seq<Pair>
      requires Shape()
    {
      seq(|seps|, i requires 0 <= i < |seps| => Pair(seps[i], EncodeHandle(handles[i])))
    }
  }

  /** The filters hold the key of every entry, by where the entry's block is. */
  ghost predicate Covered(c: Cut, size: nat, made: seq<seq<Bytes>>, pending: seq<Bytes>) {
    && c.Shape()
    && |made| == size / FILTER_BASE
    && (forall i, j: nat | 0 <= i < |c.handles| && c.starts[i] <= j < c.starts[i+1] ::
          Holds(made, pending, c.handles[i].offset / FILTER_BASE, c.run[j].key))
    && forall j: nat | c.starts[|c.handles|] <= j < |c.run| :: Holds(made, pending, size / FILTER_BASE, c.run[j].key)
  }

  const EMPTY_CUT: Cut := Cut([], [0], [], [], [], [])

  // ----- one entry more

  /** With one more entry, and the separators that are then known. */
  function WithEntry(c: Cut, p: Pair, seps: seq<Bytes>): Cut {
    c.(run := c.run + [p], seps := seps)
  }

  lemma EntryKeepsBlocks(c: Cut, p: Pair, seps: seq<Bytes>, file: Bytes, checksum: Checksum)
    requires c.Shape() && c.InFile(file, checksum) && |seps| <= |c.handles|
    ensures var c' := WithEntry(c, p, seps); c'.Shape() && c'.InFile(file, checksum) && c'.Rest() == c.Rest() + [p]
  {
    hide StoredAt, IsBlock;
    var c' := WithEntry(c, p, seps);
    forall i: nat | i < |c.handles|
      ensures c'.BlockAt(file, checksum, i)
    {
      assert c.BlockAt(file, checksum, i);
      assert c.starts[i] < c.starts[i+1] <= c.starts[|c.handles|];
      assert c'.Part(i) == c.Part(i);
    }
  }

  lemma EntryKeepsSorted(run: seq<Pair>, p: Pair)
    requires SortedRun(run) && IsInternal(p.key) && (run != [] ==> InternalLess(LastKey(run), p.key))
    ensures SortedRun(run + [p])
  {
    hide InternalLess;
    forall i | 0 <= i < |run|
      ensures InternalLess(run[i].key, p.key)
    {
      if i < |run| - 1 {
        InternalLessTransitive(run[i].key, LastKey(run), p.key);
      }
    }
  }

  lemma EntryKeepsSeparators(c: Cut, p: Pair)
    requires c.Shape() && c.AllSeparated() && |c.seps| == |c.handles|
    requires |c.handles| > 0 ==> c.Rest() != []
    ensures var c' := WithEntry(c, p, c.seps); c'.Shape() && c'.AllSeparated()
  {
    hide Parts, Follows;
    var c' := WithEntry(c, p, c.seps);
    forall i: nat | i < |c.seps|
      ensures c'.Separated(i)
    {
      assert c.Separated(i);
      assert c.starts[i+1] <= c.starts[|c.handles|];
    }
  }

  lemma EntryAddsSeparator(c: Cut, p: Pair, sep: Bytes)
    requires c.Shape() && c.AllSeparated() && |c.handles| == |c.seps| + 1 && c.Rest() == []
    requires IsInternal(sep) && Parts(LastKey(c.run), sep, p.key)
    ensures var c' := WithEntry(c, p, c.seps + [sep]); c'.Shape() && c'.AllSeparated()
  {
    hide Parts, Follows;
    var c' := WithEntry(c, p, c.seps + [sep]);
    forall i: nat | i < |c'.seps|
      ensures c'.Separated(i)
    {
      if i < |c.seps| {
        assert c.Separated(i);
        assert c.starts[i+1] < c.starts[|c.handles|];
      }
    }
  }

  lemma IndexAdded(c: Cut, sep: Bytes)
    requires c.Shape() && |c.seps| < |c.handles|
    ensures c.(seps := c.seps + [sep]).Index() == c.Index() + [Pair(sep, EncodeHandle(c.handles[|c.seps|]))]
  {
    hide EncodeHandle;
  }

  lemma EntryKeepsCovered(c: Cut, p: Pair, seps: seq<Bytes>, size: nat, made: seq<seq<Bytes>>, pending: seq<Bytes>)
    requires Covered(c, size, made, pending) && |seps| <= |c.handles|
    ensures var c' := WithEntry(c, p, seps); Covered(c', size, made, pending + [p.key])
  {
    var c' := WithEntry(c, p, seps);
    forall i, j: nat | 0 <= i < |c.handles| && c.starts[i] <= j < c.starts[i+1]
      ensures Holds(made, pending + [p.key], c.handles[i].offset / FILTER_BASE, c'.run[j].key)
    {
      assert c.starts[i+1] <= c.starts[|c.handles|];
      assert Holds(made, pending, c.handles[i].offset / FILTER_BASE, c.run[j].key);
    }
  }

  // ----- one block more

  function WithBlock(c: Cut, h: Handle, block: Bytes, l: Layout): Cut {
    c.(starts := c.starts + [|c.run|], handles := c.handles + [h], blocks := c.blocks + [block], layouts := c.layouts + [l])
  }

  lemma BlockKeepsBlocks(c: Cut, h: Handle, block: Bytes, l: Layout, file: Bytes, checksum: Checksum)
    requires c.Shape() && c.InFile(file, checksum) && c.Rest() != []
    requires h == Handle(|file|, |block|)
    requires |block| < TWO_32 ==> IsBlock(block, l) && l.pairs == c.Rest()
    ensures var c' := WithBlock(c, h, block, l);
      c'.Shape() && c'.InFile(file + (block + Trailer(block, checksum)), checksum) && c'.Rest() == []
      && c'.Index() == c.Index()
  {
    hide IsBlock, Trailer, EncodeHandle;
    var more := block + Trailer(block, checksum);
    var c' := WithBlock(c, h, block, l);
    forall i: nat | i < |c'.handles|
      ensures c'.BlockAt(file + more, checksum, i)
    {
      if i < |c.handles| {
        assert c.BlockAt(file, checksum, i);
        StaysStored(file, c.handles[i], c.blocks[i], checksum, more);
        assert c'.Part(i) == c.Part(i);
      } else {
        assert (file + more)[|file|..|file| + |more|] == more;
        assert c'.Part(i) == c.Rest();
      }
    }
  }

  lemma BlockKeepsSeparators(c: Cut, h: Handle, block: Bytes, l: Layout)
    requires c.Shape() && c.AllSeparated() && c.Rest() != []
    ensures var c' := WithBlock(c, h, block, l); c'.Shape() && c'.AllSeparated()
  {
    hide Parts, Follows;
    var c' := WithBlock(c, h, block, l);
    forall i: nat | i < |c.seps|
      ensures c'.Separated(i)
    {
      assert c.Separated(i);
    }
  }

  /** The keys of the new block are in the filter of the offset it starts at. */
  lemma BlockKeepsCovered(c: Cut, h: Handle, block: Bytes, l: Layout, size': nat,
                          made: seq<seq<Bytes>>, pending: seq<Bytes>, made': seq<seq<Bytes>>, pending': seq<Bytes>)
    requires Covered(c, h.offset, made, pending) && c.Rest() != []
    requires |made'| == size' / FILTER_BASE
    requires forall i: nat, key :: Holds(made, pending, i, key) ==> Holds(made', pending', i, key)
    ensures var c' := WithBlock(c, h, block, l); Covered(c', size', made', pending')
  {
    hide Holds;
    var c' := WithBlock(c, h, block, l);
    forall i, j: nat | 0 <= i < |c'.handles| && c'.starts[i] <= j < c'.starts[i+1]
      ensures Holds(made', pending', c'.handles[i].offset / FILTER_BASE, c'.run[j].key)
    {
      if i < |c.handles| {
        assert Holds(made, pending, c.handles[i].offset / FILTER_BASE, c.run[j].key);
      } else {
        assert Holds(made, pending, h.offset / FILTER_BASE, c.run[j].key);
      }
    }
  }

  lemma LastSeparator(c: Cut, sep: Bytes)
    requires c.Shape() && c.AllSeparated() && |c.handles| == |c.seps| + 1 && c.Rest() == []
    requires IsInternal(sep) && Follows(LastKey(c.run), sep)
    ensures var c' := c.(seps := c.seps + [sep]); c'.Shape() && c'.AllSeparated()
  {
    hide Parts, Follows;
    var c' := c.(seps := c.seps + [sep]);
    forall i: nat | i < |c'.seps|
      ensures c'.Separated(i)
    {
      if i < |c.seps| {
        assert c.Separated(i);
      }
    }
  }

  // ----- the footer

  const MAX_ENCODED_HANDLE: nat := 20
  const FOOTER_SIZE: nat := 48
  const TABLE_MAGIC: nat := 0xdb4775248b80fb57

  lemma HandleShort(h: Handle)
    ensures |EncodeHandle(h)| <= MAX_ENCODED_HANDLE
  {
    Varint64Short(h.offset % TWO_64);
    Varint64Short(h.size % TWO_64);
  }

  function Footer(meta: Handle, index: Handle): (f: Bytes)
    ensures |f| == FOOTER_SIZE
  {
    var handles := EncodeHandle(meta) + EncodeHandle(index);
    HandleShort(meta);
    HandleShort(index);
    handles + Zeros(2 * MAX_ENCODED_HANDLE - |handles|) + Fixed64(TABLE_MAGIC)
  }

  datatype Handles = Handles(meta: Handle, index: Handle)

  function DecodeFooter(input: Bytes): (o: Option<Handles>)
    requires |input| >= FOOTER_SIZE
  {
    if DecodeFixed64(input[FOOTER_SIZE - 8..]) != TABLE_MAGIC then None
    else
      match DecodeHandle(input)
      case None => None
      case Some(a) =>
        match DecodeHandle(a.rest)
        case None => None
        case Some(b) => Some(Handles(a.value, b.value))
  }

  lemma FooterRoundTrip(meta: Handle, index: Handle)
    requires meta.offset < TWO_64 && meta.size < TWO_64 && index.offset < TWO_64 && index.size < TWO_64
    ensures DecodeFooter(Footer(meta, index)) == Some(Handles(meta, index))
  {
    hide EncodeHandle, DecodeHandle, Fixed64, DecodeFixed64, Zeros;
    var f := Footer(meta, index);
    HandleShort(meta);
    HandleShort(index);
    var rest := Zeros(2 * MAX_ENCODED_HANDLE - |EncodeHandle(meta) + EncodeHandle(index)|) + Fixed64(TABLE_MAGIC);
    assert f == EncodeHandle(meta) + (EncodeHandle(index) + rest);
    HandleRoundTrip(meta, EncodeHandle(index) + rest);
    HandleRoundTrip(index, rest);
    assert f[FOOTER_SIZE - 8..] == Fixed64(TABLE_MAGIC) + [];
    Fixed64RoundTrip(TABLE_MAGIC, []);
  }

  /** The handles, the meta block's first, and the eight magic bytes at the end; in between zeros. */
  lemma FooterLayout(meta: Handle, index: Handle)
    ensures var f, n := Footer(meta, index), |EncodeHandle(meta)| + |EncodeHandle(index)|;
      && |f| == 48 && n <= 40
      && f[..|EncodeHandle(meta)|] == EncodeHandle(meta) && f[|EncodeHandle(meta)|..n] == EncodeHandle(index)
      && (forall i :: n <= i < 40 ==> f[i] == 0)
      && f[40..] == [0x57, 0xfb, 0x80, 0x8b, 0x24, 0x75, 0x47, 0xdb]
  {
    hide EncodeHandle;
    HandleShort(meta);
    HandleShort(index);
    var a, b := EncodeHandle(meta), EncodeHandle(index);
    var zeros, magic := Zeros(40 - |a + b|), Fixed64(TABLE_MAGIC);
    assert Footer(meta, index) == a + (b + (zeros + magic));
    assert magic == [0x57, 0xfb, 0x80, 0x8b, 0x24, 0x75, 0x47, 0xdb];
  }

  /** Behind a block its type, zero, and the masked checksum of both. */
  lemma StoredLayout(file: Bytes, h: Handle, block: Bytes, checksum: Checksum)
    requires StoredAt(file, h, block, checksum)
    ensures var e := h.offset + |block|;
      && h.size == |block| && e + 5 <= |file| && file[h.offset..e] == block && file[e] == 0
      && file[e+1..e+5] == Fixed32(Mask(checksum(block + [0])))
  {
    hide Fixed32, Mask;
    var e, all := h.offset + |block|, file[h.offset..h.offset + |block| + TRAILER_SIZE];
    assert file[h.offset..e] == all[..|block|] && file[e] == all[|block|] && file[e+1..e+5] == all[|block|+1..];
  }

  /** The offset comes first; short ones take a byte each. */
  lemma HandleLayout(h: Handle)
    requires h.offset < 128 && h.size < 128
    ensures EncodeHandle(h) == [h.offset] + [h.size]
  {
  }

  // ----- a finished file

  datatype Options = Options(blockSize: nat, interval: nat, checksum: Checksum, policy: Option<Policy>, policyName: Bytes)
  {
    predicate Valid() {
      interval >= 1 && (policy.Some? ==> policy.value.Valid())
    }
  }

  /** Everything in a finished file. */
  datatype Image = Image(cut: Cut, filterHandle: Handle, filterBlock: Bytes, offsets: seq<nat>, made: seq<seq<Bytes>>,
                         metaHandle: Handle, metaBlock: Bytes, meta: Layout,
                         indexHandle: Handle, indexBlock: Bytes, index: Layout)

  /** "filter." and the name of the policy. */
  function FilterKey(o: Options): Bytes {
    [102, 105, 108, 116, 101, 114, 46] + o.policyName
  }

  function MetaPairs(o: Options, filterHandle: Handle): seq<Pair> {
    if o.policy.None? then [] else [Pair(FilterKey(o), EncodeHandle(filterHandle))]
  }

  /** No block, and not the file, is too long for its lengths. */
  predicate Short(m: Image, file: Bytes) {
    && |file| < TWO_64
    && (forall i | 0 <= i < |m.cut.blocks| :: |m.cut.blocks[i]| < TWO_32)
    && |m.indexBlock| < TWO_32
    && |m.metaBlock| < TWO_32
    && |m.filterBlock| < TWO_32
  }

  ghost predicate IndexStored(o: Options, m: Image, file: Bytes)
    requires m.cut.Shape()
  {
    && StoredAt(file, m.indexHandle, m.indexBlock, o.checksum)
    && (|m.indexBlock| < TWO_32 ==> IsBlock(m.indexBlock, m.index) && m.index.pairs == m.cut.Index())
  }

  ghost predicate MetaStored(o: Options, m: Image, file: Bytes) {
    && StoredAt(file, m.metaHandle, m.metaBlock, o.checksum)
    && (|m.metaBlock| < TWO_32 ==> IsBlock(m.metaBlock, m.meta) && m.meta.pairs == MetaPairs(o, m.filterHandle))
  }

  ghost predicate FilterStored(o: Options, m: Image, file: Bytes) {
    o.policy.Some? ==>
      && StoredAt(file, m.filterHandle, m.filterBlock, o.checksum)
      && (|m.filterBlock| < TWO_32 ==> IsFilterBlock(o.policy.value, m.filterBlock, m.offsets, m.made))
  }

  ghost predicate Filtered(made: seq<seq<Bytes>>, i: nat, key: Bytes) {
    i < |made| && key in made[i]
  }

  /** Every key is in the filter of the offset of its block. */
  ghost predicate InFilters(c: Cut, made: seq<seq<Bytes>>)
    requires c.Shape()
  {
    forall i, j: nat | 0 <= i < |c.handles| && c.starts[i] <= j < c.starts[i+1] ::
      Filtered(made, c.handles[i].offset / FILTER_BASE, c.run[j].key)
  }

  ghost predicate IsTable(o: Options, file: Bytes, m: Image) {
    && m.cut.Shape()
    && m.cut.InFile(file, o.checksum)
    && SortedRun(m.cut.run)
    && m.cut.AllSeparated()
    && |m.cut.seps| == |m.cut.handles|
    && m.cut.starts[|m.cut.handles|] == |m.cut.run|
    && IndexStored(o, m, file)
    && MetaStored(o, m, file)
    && FilterStored(o, m, file)
    && (o.policy.Some? ==> InFilters(m.cut, m.made))
    && |file| >= FOOTER_SIZE
    && file[|file| - FOOTER_SIZE..] == Footer(m.metaHandle, m.indexHandle)
  }

  // ----- building

  /** The entries so far, in the file or on their way there. */
  ghost predicate Progress(c: Cut, file: Bytes, checksum: Checksum, pendingIndexEntry: bool) {
    && c.Shape()
    && c.InFile(file, checksum)
    && SortedRun(c.run)
    && c.AllSeparated()
    && |c.handles| == |c.seps| + (if pendingIndexEntry then 1 else 0)
    && (pendingIndexEntry ==> c.Rest() == [])
    && (!pendingIndexEntry && |c.handles| > 0 ==> c.Rest() != [])
  }

  lemma EntryProgress(c: Cut, p: Pair, file: Bytes, checksum: Checksum, pendingIndexEntry: bool, sep: Bytes)
    requires Progress(c, file, checksum, pendingIndexEntry)
    requires IsInternal(p.key) && (c.run != [] ==> InternalLess(LastKey(c.run), p.key))
    requires pendingIndexEntry ==> IsInternal(sep) && Parts(LastKey(c.run), sep, p.key)
    ensures var c' := WithEntry(c, p, if pendingIndexEntry then c.seps + [sep] else c.seps);
      && Progress(c', file, checksum, false)
      && c.Shape() && c'.Shape()
      && c'.Rest() == c.Rest() + [p]
      && (pendingIndexEntry ==> |c.handles| > 0)
      && c'.Index() == if pendingIndexEntry then c.Index() + [Pair(sep, EncodeHandle(c.handles[|c.handles| - 1]))] else c.Index()
  {
    hide IsBlock, StoredAt, Parts, Follows, EncodeHandle, InternalLess;
    hide Cut.InFile, Cut.AllSeparated;
    var seps := if pendingIndexEntry then c.seps + [sep] else c.seps;
    EntryKeepsBlocks(c, p, seps, file, checksum);
    EntryKeepsSorted(c.run, p);
    if pendingIndexEntry {
      EntryAddsSeparator(c, p, sep);
      IndexAdded(c, sep);
    } else {
      EntryKeepsSeparators(c, p);
    }
  }

  lemma BlockProgress(c: Cut, h: Handle, block: Bytes, l: Layout, file: Bytes, checksum: Checksum)
    requires Progress(c, file, checksum, false) && c.Rest() != []
    requires h == Handle(|file|, |block|)
    requires |block| < TWO_32 ==> IsBlock(block, l) && l.pairs == c.Rest()
    ensures var c' := WithBlock(c, h, block, l);
      && Progress(c', file + (block + Trailer(block, checksum)), checksum, true)
      && c'.Shape()
      && c'.Index() == c.Index()
      && c'.Rest() == []
  {
    hide IsBlock, StoredAt, Parts, Follows, EncodeHandle, InternalLess, Trailer;
    hide Cut.InFile, Cut.AllSeparated;
    BlockKeepsBlocks(c, h, block, l, file, checksum);
    BlockKeepsSeparators(c, h, block, l);
  }

  /** What the builder keeps of the entries so far. */
  ghost predicate Mirrors(c: Cut, data: seq<Pair>, index: seq<Pair>, lastKey: Bytes, pendingIndexEntry: bool, pendingHandle: Handle) {
    && c.Shape()
    && data == c.Rest()
    && index == c.Index()
    && lastKey == LastKey(c.run)
    && (pendingIndexEntry ==> |c.handles| > 0 && pendingHandle == c.handles[|c.handles| - 1])
  }

  lemma NothingYet(checksum: Checksum)
    ensures Progress(EMPTY_CUT, [], checksum, false)
    ensures Mirrors(EMPTY_CUT, [], [], [], false, Handle(0, 0))
    ensures forall pending :: Covered(EMPTY_CUT, 0, [], pending)
  {
  }

  lemma LastIsInternal(c: Cut, file: Bytes, checksum: Checksum)
    requires Progress(c, file, checksum, true)
    ensures IsInternal(LastKey(c.run)) && |c.handles| > 0
  {
  }

  lemma MirrorsLast(c: Cut, data: seq<Pair>, index: seq<Pair>, lastKey: Bytes, pendingIndexEntry: bool, pendingHandle: Handle)
    requires Mirrors(c, data, index, lastKey, pendingIndexEntry, pendingHandle)
    ensures lastKey == LastKey(c.run)
  {
  }

  lemma ProgressShape(c: Cut, file: Bytes, checksum: Checksum, pendingIndexEntry: bool, sep: Bytes)
    requires Progress(c, file, checksum, pendingIndexEntry)
    ensures c.Shape()
    ensures |if pendingIndexEntry then c.seps + [sep] else c.seps| <= |c.handles|
    ensures pendingIndexEntry ==> |c.handles| > 0
  {
  }

  lemma EntryMirrors(c: Cut, data: seq<Pair>, index: seq<Pair>, lastKey: Bytes, pendingIndexEntry: bool, pendingHandle: Handle,
                     p: Pair, seps: seq<Bytes>, sep: Bytes)
    requires Mirrors(c, data, index, lastKey, pendingIndexEntry, pendingHandle)
    requires var c' := WithEntry(c, p, seps);
      && c'.Shape()
      && c'.Rest() == c.Rest() + [p]
      && (pendingIndexEntry ==> |c.handles| > 0)
      && c'.Index() == if pendingIndexEntry then c.Index() + [Pair(sep, EncodeHandle(c.handles[|c.handles| - 1]))] else c.Index()
    ensures var c' := WithEntry(c, p, seps);
      && c'.run == c.run + [p]
      && Mirrors(c', data + [p], if pendingIndexEntry then index + [Pair(sep, EncodeHandle(pendingHandle))] else index,
                 p.key, false, pendingHandle)
  {
    hide EncodeHandle;
    LastKeyAdded(c.run, p);
  }

  lemma CoveredFilters(c: Cut, size: nat, made: seq<seq<Bytes>>, pending: seq<Bytes>, size': nat)
    requires Covered(c, size, made, pending) && size' >= size
    ensures |made| <= size' / FILTER_BASE
  {
  }

  lemma EntriesWait(c: Cut, file: Bytes, checksum: Checksum, pendingIndexEntry: bool, data: seq<Pair>,
                    index: seq<Pair>, lastKey: Bytes, pendingHandle: Handle)
    requires Progress(c, file, checksum, pendingIndexEntry) && data != []
    requires Mirrors(c, data, index, lastKey, pendingIndexEntry, pendingHandle)
    ensures c.Shape() && !pendingIndexEntry && c.Rest() == data
  {
  }

  lemma BlockMirrors(c: Cut, data: seq<Pair>, index: seq<Pair>, lastKey: Bytes, pendingHandle: Handle,
                     h: Handle, raw: Bytes, layout: Layout)
    requires Mirrors(c, data, index, lastKey, false, pendingHandle)
    requires var c' := WithBlock(c, h, raw, layout); c'.Shape() && c'.Rest() == [] && c'.Index() == c.Index()
    ensures var c' := WithBlock(c, h, raw, layout);
      && c'.run == c.run
      && Mirrors(c', [], index, lastKey, true, h)
  {
  }

  /** Every key of a block is in the filters at the end. */
  lemma CoveredEnds(c: Cut, size: nat, made: seq<seq<Bytes>>, pending: seq<Bytes>, made': seq<seq<Bytes>>)
    requires Covered(c, size, made, pending) && c.Shape() && c.Rest() == []
    requires forall i: nat, key :: Holds(made, pending, i, key) ==> i < |made'| && key in made'[i]
    ensures InFilters(c, made')
  {
    hide Holds;
  }

  lemma AllInFile(c: Cut, file: Bytes, checksum: Checksum, pendingIndexEntry: bool, data: seq<Pair>, index: seq<Pair>,
                  lastKey: Bytes, pendingHandle: Handle)
    requires Progress(c, file, checksum, pendingIndexEntry) && data == []
    requires Mirrors(c, data, index, lastKey, pendingIndexEntry, pendingHandle)
    ensures c.Shape() && c.Rest() == [] && c.InFile(file, checksum) && SortedRun(c.run) && c.AllSeparated()
    ensures |c.handles| == |c.seps| + (if pendingIndexEntry then 1 else 0)
    ensures pendingIndexEntry ==> IsInternal(lastKey)
  {
  }

  lemma OtherSeparators(c: Cut, d: Cut, file: Bytes, checksum: Checksum, made: seq<seq<Bytes>>)
    requires c.Shape() && d.Shape() && d == c.(seps := d.seps)
    ensures c.InFile(file, checksum) ==> d.InFile(file, checksum)
    ensures InFilters(c, made) ==> InFilters(d, made)
    ensures c.Rest() == [] ==> d.starts[|d.handles|] == |d.run|
  {
    hide IsBlock, StoredAt;
    if c.InFile(file, checksum) {
      forall i: nat | i < |c.handles|
        ensures d.BlockAt(file, checksum, i)
      {
        assert c.BlockAt(file, checksum, i) && c.Part(i) == d.Part(i);
      }
    }
  }

  lemma StaysInFile(c: Cut, file: Bytes, checksum: Checksum, more: Bytes)
    requires c.Shape() && c.InFile(file, checksum)
    ensures c.InFile(file + more, checksum)
  {
    hide IsBlock, StoredAt;
    forall i: nat | i < |c.handles|
      ensures c.BlockAt(file + more, checksum, i)
    {
      assert c.BlockAt(file, checksum, i);
      StaysStored(file, c.handles[i], c.blocks[i], checksum, more);
    }
  }

  lemma StoredByAppending(file: Bytes, block: Bytes, checksum: Checksum)
    ensures StoredAt(file + (block + Trailer(block, checksum)), Handle(|file|, |block|), block, checksum)
  {
    hide Trailer;
    var more := block + Trailer(block, checksum);
    assert (file + more)[|file|..|file| + |more|] == more;
  }

  /** The pieces written after the blocks make a table. */
  lemma Assembled(o: Options, m: Image, before: Cut, f0: Bytes, file: Bytes)
    requires before.Shape() && before.Rest() == [] && before.InFile(f0, o.checksum) && SortedRun(before.run)
    requires m.cut.Shape() && m.cut == before.(seps := m.cut.seps) && m.cut.AllSeparated() && |m.cut.seps| == |m.cut.handles|
    requires var f1 := if o.policy.None? then f0 else f0 + (m.filterBlock + Trailer(m.filterBlock, o.checksum));
      var f2 := f1 + (m.metaBlock + Trailer(m.metaBlock, o.checksum));
      var f3 := f2 + (m.indexBlock + Trailer(m.indexBlock, o.checksum));
      && file == f3 + Footer(m.metaHandle, m.indexHandle)
      && (o.policy.Some? ==> m.filterHandle == Handle(|f0|, |m.filterBlock|))
      && m.metaHandle == Handle(|f1|, |m.metaBlock|)
      && m.indexHandle == Handle(|f2|, |m.indexBlock|)
    requires o.policy.Some? ==>
      (|m.filterBlock| < TWO_32 ==> IsFilterBlock(o.policy.value, m.filterBlock, m.offsets, m.made)) && InFilters(before, m.made)
    requires |m.metaBlock| < TWO_32 ==> IsBlock(m.metaBlock, m.meta) && m.meta.pairs == MetaPairs(o, m.filterHandle)
    requires |m.indexBlock| < TWO_32 ==> IsBlock(m.indexBlock, m.index) && m.index.pairs == m.cut.Index()
    ensures IsTable(o, file, m)
  {
    hide Trailer, Footer, IsFilterBlock, IsBlock, MetaPairs, InFilters, StoredAt, SortedRun;
    hide Cut.Shape, Cut.Rest, Cut.InFile, Cut.AllSeparated, Cut.Index;
    var k := o.checksum;
    var filters := if o.policy.None? then [] else m.filterBlock + Trailer(m.filterBlock, k);
    var metas, indexes := m.metaBlock + Trailer(m.metaBlock, k), m.indexBlock + Trailer(m.indexBlock, k);
    var footer := Footer(m.metaHandle, m.indexHandle);
    var f1 := f0 + filters;
    var f2 := f1 + metas;
    var f3 := f2 + indexes;
    assert f0 + [] == f0;
    OtherSeparators(before, m.cut, f0, k, m.made);
    StaysInFile(m.cut, f0, k, filters);
    StaysInFile(m.cut, f1, k, metas);
    StaysInFile(m.cut, f2, k, indexes);
    StaysInFile(m.cut, f3, k, footer);
    if o.policy.Some? {
      StoredByAppending(f0, m.filterBlock, k);
      StaysStored(f1, m.filterHandle, m.filterBlock, k, metas);
      StaysStored(f2, m.filterHandle, m.filterBlock, k, indexes);
      StaysStored(f3, m.filterHandle, m.filterBlock, k, footer);
    }
    StoredByAppending(f1, m.metaBlock, k);
    StaysStored(f2, m.metaHandle, m.metaBlock, k, indexes);
    StaysStored(f3, m.metaHandle, m.metaBlock, k, footer);
    StoredByAppending(f2, m.indexBlock, k);
    StaysStored(f3, m.indexHandle, m.indexBlock, k, footer);
    assert (f3 + footer)[|f3|..] == footer;
  }

  class TableBuilder {
    const options: Options
    var file: Bytes
    const dataBlock: BlockBuilder
    const indexBlock: BlockBuilder
    const filterBlock: FilterBlockBuilder?
    var lastKey: Bytes
    var numEntries: nat
    var closed: bool
    var pendingIndexEntry: bool
    var pendingHandle: Handle
    ghost var cut: Cut

    ghost predicate FilterReady(c: Cut, size: nat)
      reads filterBlock
    {
      && (options.policy.Some? <==> filterBlock != null)
      && (filterBlock != null ==>
            && filterBlock.Valid()
            && filterBlock.policy == options.policy.value
            && Covered(c, size, filterBlock.made, filterBlock.pending))
    }

    ghost predicate Valid()
      reads this, dataBlock, indexBlock, filterBlock
    {
      && options.Valid()
      && dataBlock != indexBlock
      && dataBlock.Valid() && !dataBlock.finished
      && indexBlock.Valid() && !indexBlock.finished
      && Progress(cut, file, options.checksum, pendingIndexEntry)
      && Mirrors(cut, dataBlock.contents, indexBlock.contents, lastKey, pendingIndexEntry, pendingHandle)
      && numEntries == |cut.run|
      && FilterReady(cut, |file|)
    }

    constructor (options: Options)
      requires options.Valid()
      ensures Valid() && this.options == options && !closed && cut.run == []
      ensures fresh(dataBlock) && fresh(indexBlock) && (filterBlock != null ==> fresh(filterBlock))
    {
      hide Progress, Mirrors, Covered, BlockBuilder.Valid, FilterBlockBuilder.Valid;
      NothingYet(options.checksum);
      this.options := options;
      file := [];
      dataBlock := new BlockBuilder(options.interval);
      indexBlock := new BlockBuilder(1);
      if options.policy.Some? {
        var filters := new FilterBlockBuilder(options.policy.value);
        filters.StartBlock(0);
        filterBlock := filters;
      } else {
        filterBlock := null;
      }
      lastKey := [];
      numEntries := 0;
      closed := false;
      pendingIndexEntry := false;
      pendingHandle := Handle(0, 0);
      cut := EMPTY_CUT;
    }

    /** The separator of the last block, now that the entry after it is known. */
    method AddIndexEntry(key: Bytes) returns (ghost sep: Bytes)
      requires Valid() && !closed && IsInternal(key)
      modifies this`pendingIndexEntry, indexBlock
      ensures indexBlock.Valid() && !indexBlock.finished && !pendingIndexEntry
      ensures old(pendingIndexEntry) ==> IsInternal(sep) && Parts(LastKey(cut.run), sep, key)
      ensures indexBlock.contents ==
        if old(pendingIndexEntry) then old(indexBlock.contents) + [Pair(sep, EncodeHandle(pendingHandle))]
        else old(indexBlock.contents)
    {
      hide InternalLess, Covered, EncodeHandle, Parts, BlockBuilder.Valid;
      sep := [];
      if pendingIndexEntry {
        LastIsInternal(cut, file, options.checksum);
        hide Progress;
        var separator := FindShortestInternalSeparator(lastKey, key);
        indexBlock.Add(separator, EncodeHandle(pendingHandle));
        sep := separator;
        pendingIndexEntry := false;
      }
    }

    method AddFilterKey(key: Bytes, ghost c: Cut, ghost p: Pair, ghost seps: seq<Bytes>)
      requires FilterReady(c, |file|) && c.Shape() && |seps| <= |c.handles| && p.key == key
      modifies filterBlock
      ensures FilterReady(WithEntry(c, p, seps), |file|)
    {
      hide Covered;
      if filterBlock != null {
        EntryKeepsCovered(c, p, seps, |file|, filterBlock.made, filterBlock.pending);
        filterBlock.AddKey(key);
      }
    }

    method AddEntry(key: Bytes, value: Bytes)
      requires Valid() && !closed
      requires IsInternal(key) && (cut.run != [] ==> InternalLess(LastKey(cut.run), key))
      modifies this, dataBlock, indexBlock, filterBlock
      ensures Valid() && !closed && cut.run == old(cut.run) + [Pair(key, value)]
    {
      hide Progress, InternalLess, EncodeHandle, Parts, LastKey, BlockBuilder.Valid, FilterReady, Mirrors, WithEntry;
      hide Cut.Shape, Cut.Index, Cut.Rest;
      MirrorsLast(cut, dataBlock.contents, indexBlock.contents, lastKey, pendingIndexEntry, pendingHandle);
      ghost var p := Pair(key, value);
      ghost var sep := AddIndexEntry(key);
      ghost var seps := if old(pendingIndexEntry) then cut.seps + [sep] else cut.seps;
      EntryProgress(cut, p, file, options.checksum, old(pendingIndexEntry), sep);
      ProgressShape(cut, file, options.checksum, old(pendingIndexEntry), sep);
      EntryMirrors(cut, dataBlock.contents, old(indexBlock.contents), lastKey, old(pendingIndexEntry), pendingHandle, p, seps, sep);
      AddFilterKey(key, cut, p, seps);
      lastKey := key;
      numEntries := numEntries + 1;
      dataBlock.Add(key, value);
      cut := WithEntry(cut, p, seps);
    }

    /** The contents, the type and the masked checksum of both. */
    method WriteRawBlock(contents: Bytes) returns (h: Handle)
      modifies this`file
      ensures h == Handle(|old(file)|, |contents|)
      ensures file == old(file) + (contents + Trailer(contents, options.checksum))
    {
      hide Mask, Fixed32;
      h := Handle(|file|, |contents|);
      file := file + contents;
      var crc := options.checksum(contents + [NO_COMPRESSION]);
      file := file + ([NO_COMPRESSION] + Fixed32(Mask(crc)));
    }

    method WriteBlock(block: BlockBuilder) returns (h: Handle, ghost raw: Bytes, ghost layout: Layout)
      requires block.Valid() && !block.finished
      modifies this`file, block
      ensures block.Valid() && !block.finished && block.contents == []
      ensures h == Handle(|old(file)|, |raw|)
      ensures file == old(file) + (raw + Trailer(raw, options.checksum))
      ensures |raw| < TWO_32 ==> IsBlock(raw, layout) && layout.pairs == old(block.contents)
    {
      hide Trailer, IsBlock, BlockBuilder.Valid;
      layout := block.layout;
      var contents := block.Finish();
      raw := contents;
      h := WriteRawBlock(contents);
      block.Reset();
    }

    /** Filters for the blocks that end where the file now ends. */
    method StartFilter(ghost c: Cut, ghost h: Handle, ghost raw: Bytes, ghost layout: Layout)
      requires FilterReady(c, h.offset) && c.Shape() && c.Rest() != [] && h.offset <= |file|
      modifies filterBlock
      ensures FilterReady(WithBlock(c, h, raw, layout), |file|)
    {
      hide Holds, Cut.Rest, Cut.Shape, FilterBlockBuilder.Valid;
      if filterBlock != null {
        CoveredFilters(c, h.offset, filterBlock.made, filterBlock.pending, |file|);
        hide Covered;
        filterBlock.StartBlock(|file|);
        BlockKeepsCovered(c, h, raw, layout, |file|,
                          old(filterBlock.made), old(filterBlock.pending), filterBlock.made, filterBlock.pending);
      }
    }

    method FlushBlock()
      requires Valid() && !closed && dataBlock.contents != []
      modifies this, dataBlock, filterBlock
      ensures Valid() && !closed && cut.run == old(cut.run) && dataBlock.contents == []
    {
      hide Progress, Trailer, IsBlock, FilterReady, Mirrors, WithBlock, Cut.Rest, Cut.Shape, BlockBuilder.Valid, Cut.Index;
      EntriesWait(cut, file, options.checksum, pendingIndexEntry, dataBlock.contents, indexBlock.contents, lastKey, pendingHandle);
      ghost var raw, layout;
      pendingHandle, raw, layout := WriteBlock(dataBlock);
      pendingIndexEntry := true;
      BlockProgress(cut, pendingHandle, raw, layout, old(file), options.checksum);
      BlockMirrors(cut, old(dataBlock.contents), indexBlock.contents, lastKey, old(pendingHandle), pendingHandle, raw, layout);
      StartFilter(cut, pendingHandle, raw, layout);
      cut := WithBlock(cut, pendingHandle, raw, layout);
    }

    /** Ends the current block, if it has any entry. */
    method Flush()
      requires Valid() && !closed
      modifies this, dataBlock, filterBlock
      ensures Valid() && !closed && cut.run == old(cut.run) && dataBlock.contents == []
    {
      hide Progress, FilterReady, Mirrors, BlockBuilder.Valid, BlockBuilder.Empty;
      dataBlock.EmptyContents();
      if !dataBlock.Empty() {
        FlushBlock();
      }
    }

    /** Adds the separator that only now is known, then the entry. */
    method Add(key: Bytes, value: Bytes)
      requires Valid() && !closed
      requires IsInternal(key) && (cut.run != [] ==> InternalLess(LastKey(cut.run), key))
      modifies this, dataBlock, indexBlock, filterBlock
      ensures Valid() && !closed && cut.run == old(cut.run) + [Pair(key, value)]
      ensures dataBlock.contents == [] || dataBlock.CurrentSizeEstimate() < options.blockSize
    {
      AddEntry(key, value);
      if dataBlock.CurrentSizeEstimate() >= options.blockSize {
        Flush();
      }
    }

    method WriteFilter(ghost c: Cut) returns (h: Handle, ghost raw: Bytes, ghost offsets: seq<nat>, ghost made: seq<seq<Bytes>>)
      requires FilterReady(c, |file|) && c.Shape() && c.Rest() == []
      modifies this`file, filterBlock
      ensures options.policy.None? ==> file == old(file)
      ensures options.policy.Some? ==>
        && h == Handle(|old(file)|, |raw|)
        && file == old(file) + (raw + Trailer(raw, options.checksum))
        && (|raw| < TWO_32 ==> IsFilterBlock(options.policy.value, raw, offsets, made))
        && InFilters(c, made)
    {
      hide Trailer, IsFilterBlock, FilterBlockBuilder.Valid, Holds, Covered, InFilters;
      h, raw, offsets, made := Handle(0, 0), [], [], [];
      if filterBlock != null {
        ghost var madeBefore, pendingBefore := filterBlock.made, filterBlock.pending;
        var block := filterBlock.Finish();
        raw, offsets, made := block, filterBlock.offsets, filterBlock.made;
        CoveredEnds(c, |file|, madeBefore, pendingBefore, made);
        h := WriteRawBlock(block);
      }
    }

    method WriteMeta(filterHandle: Handle) returns (h: Handle, ghost raw: Bytes, ghost layout: Layout)
      requires options.Valid()
      modifies this`file
      ensures h == Handle(|old(file)|, |raw|)
      ensures file == old(file) + (raw + Trailer(raw, options.checksum))
      ensures |raw| < TWO_32 ==> IsBlock(raw, layout) && layout.pairs == MetaPairs(options, filterHandle)
    {
      hide Trailer, IsBlock, BlockBuilder.Valid, EncodeHandle, FilterKey;
      var metaBlock := new BlockBuilder(options.interval);
      if options.policy.Some? {
        metaBlock.Add(FilterKey(options), EncodeHandle(filterHandle));
      }
      assert metaBlock.contents == MetaPairs(options, filterHandle);
      h, raw, layout := WriteBlock(metaBlock);
    }

    /** The separator of the last block, which nothing follows. */
    method WriteIndex() returns (h: Handle, ghost raw: Bytes, ghost layout: Layout, ghost c: Cut)
      requires indexBlock.Valid() && !indexBlock.finished
      requires Mirrors(cut, [], indexBlock.contents, lastKey, pendingIndexEntry, pendingHandle)
      requires cut.AllSeparated() && |cut.handles| == |cut.seps| + (if pendingIndexEntry then 1 else 0)
      requires pendingIndexEntry ==> IsInternal(lastKey)
      modifies this`file, this`pendingIndexEntry, indexBlock
      ensures c.Shape() && c == cut.(seps := c.seps) && c.AllSeparated() && |c.seps| == |c.handles|
      ensures h == Handle(|old(file)|, |raw|)
      ensures file == old(file) + (raw + Trailer(raw, options.checksum))
      ensures |raw| < TWO_32 ==> IsBlock(raw, layout) && layout.pairs == c.Index()
    {
      hide Trailer, IsBlock, BlockBuilder.Valid, EncodeHandle, Cut.AllSeparated, LastKey, Cut.Rest, Cut.Index;
      c := cut;
      if pendingIndexEntry {
        var sep := FindShortInternalSuccessor(lastKey);
        indexBlock.Add(sep, EncodeHandle(pendingHandle));
        LastSeparator(c, sep);
        IndexAdded(c, sep);
        c := c.(seps := c.seps + [sep]);
        pendingIndexEntry := false;
      }
      h, raw, layout := WriteBlock(indexBlock);
    }

    /** The last block, the filters, the block that says where they are, the index and the footer. */
    method Finish() returns (ghost m: Image)
      requires Valid() && !closed
      modifies this, dataBlock, indexBlock, filterBlock
      ensures closed && IsTable(options, file, m) && m.cut.run == old(cut.run)
    {
      hide Progress, Mirrors, FilterReady, BlockBuilder.Valid, IsBlock, IsFilterBlock, Trailer, Footer, InFilters, MetaPairs, IsTable;
      hide Cut.InFile, Cut.AllSeparated, Cut.Shape, Cut.Rest, Cut.Index;
      Flush();
      closed := true;
      AllInFile(cut, file, options.checksum, pendingIndexEntry, dataBlock.contents, indexBlock.contents, lastKey, pendingHandle);
      ghost var f0 := file;
      ghost var filters, offsets, made, metaRaw, meta, indexRaw, index, c;
      var filterHandle, metaHandle, indexHandle;
      filterHandle, filters, offsets, made := WriteFilter(cut);
      metaHandle, metaRaw, meta := WriteMeta(filterHandle);
      indexHandle, indexRaw, index, c := WriteIndex();
      file := file + Footer(metaHandle, indexHandle);
      m := Image(c, filterHandle, filters, offsets, made, metaHandle, metaRaw, meta, indexHandle, indexRaw, index);
      Assembled(options, m, cut, f0, file);
    }
  }
}
