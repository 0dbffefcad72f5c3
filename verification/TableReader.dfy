/** Point lookup and iteration over a table file, through its index, its filters and its blocks. */
module TableReader {
  import opened Keys
  import opened Coding
  import opened Blocks
  import opened Separators
  import opened Filters
  import opened Tables

  // ----- the order of separators and entries

  lemma RunOrdered(run: seq<Pair>, i: nat, j: nat)
    requires SortedRun(run) && i <= j < |run|
    ensures !InternalLess(run[j].key, run[i].key)
  {
    hide InternalLess;
    if InternalLess(run[j].key, run[i].key) {
      InternalLessIrreflexive(run[i].key);
      if i < j {
        InternalLessTransitive(run[i].key, run[j].key, run[i].key);
      }
    }
  }

  lemma RunMonotone(run: seq<Pair>, target: Bytes)
    requires SortedRun(run)
    ensures Monotone(InternalLess, run, target)
  {
    hide InternalLess;
    forall i, j | 0 <= i < j < |run| && InternalLess(run[j].key, target)
      ensures InternalLess(run[i].key, target)
    {
      InternalLessTransitive(run[i].key, run[j].key, target);
    }
  }

  /** A cut of the whole run, with a separator after every block. */
  ghost predicate Complete(c: Cut) {
    && c.Shape()
    && SortedRun(c.run)
    && c.AllSeparated()
    && |c.seps| == |c.handles|
    && c.starts[|c.handles|] == |c.run|
  }

  /** The separator after block i is not before the block's last entry, and is before the next block. */
  lemma SeparatorBounds(c: Cut, i: nat)
    requires Complete(c) && i < |c.handles|
    ensures c.starts[i] < c.starts[i+1] <= |c.run|
    ensures !InternalLess(c.seps[i], c.run[c.starts[i+1] - 1].key)
    ensures c.starts[i+1] < |c.run| ==> InternalLess(c.seps[i], c.run[c.starts[i+1]].key)
  {
    assert c.Separated(i);
    var last := c.run[c.starts[i+1] - 1].key;
    if c.starts[i+1] < |c.run| {
      PartsBetween(last, c.seps[i], c.run[c.starts[i+1]].key);
    } else {
      BytesLessTotal(ExtractUserKey(last), ExtractUserKey(c.seps[i]));
      InternalLessIrreflexive(last);
    }
  }

  /** Entries of blocks up to i are not after the separator of block i. */
  lemma EntryBeforeSeparator(c: Cut, i: nat, g: nat)
    requires Complete(c) && i < |c.handles| && g < c.starts[i+1]
    ensures g < |c.run| && !InternalLess(c.seps[i], c.run[g].key)
  {
    hide InternalLess;
    SeparatorBounds(c, i);
    var last := c.starts[i+1] - 1;
    RunOrdered(c.run, g, last);
    InternalLessWeak(c.run[g].key, c.run[last].key, c.seps[i]);
  }

  lemma SeparatorsOrdered(c: Cut, i: nat, j: nat)
    requires Complete(c) && i < j < |c.handles|
    ensures InternalLess(c.seps[i], c.seps[j])
  {
    hide InternalLess, Cut.AllSeparated, SortedRun;
    assert c.starts[i+1] < c.starts[j+1] <= |c.run|;
    SeparatorBounds(c, i);
    EntryBeforeSeparator(c, j, c.starts[i+1]);
    InternalLessWeak(c.run[c.starts[i+1]].key, c.seps[j], c.seps[i]);
  }

  lemma ShapeOf(c: Cut)
    requires Complete(c)
    ensures c.Shape() && SortedRun(c.run) && |c.Index()| == |c.handles| == |c.seps| && c.starts[|c.handles|] == |c.run|
  {
  }

  lemma IndexMonotone(c: Cut, target: Bytes)
    requires Complete(c)
    ensures Monotone(InternalLess, c.Index(), target)
  {
    hide InternalLess, EncodeHandle, Complete;
    assert c.Shape() && |c.Index()| == |c.handles| by { ShapeOf(c); }
    var index := c.Index();
    forall i, j | 0 <= i < j < |index| && InternalLess(index[j].key, target)
      ensures InternalLess(index[i].key, target)
    {
      ShapeOf(c);
      SeparatorsOrdered(c, i, j);
      InternalLessTransitive(c.seps[i], c.seps[j], target);
    }
  }

  lemma PartSorted(c: Cut, i: nat)
    requires Complete(c) && i < |c.handles|
    ensures c.starts[i+1] <= |c.run| && SortedRun(c.Part(i)) && |c.Part(i)| == c.starts[i+1] - c.starts[i] > 0
    ensures forall j: nat | j < |c.Part(i)| :: c.Part(i)[j] == c.run[c.starts[i] + j]
  {
    hide InternalLess;
    assert i + 1 < |c.handles| ==> c.starts[i+1] < c.starts[|c.handles|];
  }

  // ----- finding a key

  lemma BeforeLanding(c: Cut, k: Bytes, i: nat, j: nat, g: nat)
    requires Complete(c)
    requires LandsOn(InternalLess, c.Index(), k, i)
    requires if i < |c.handles| then LandsOn(InternalLess, c.Part(i), k, j) else j == 0
    requires i <= |c.handles| && g < c.starts[i] + j
    ensures g < |c.run| && InternalLess(c.run[g].key, k)
  {
    hide InternalLess, EncodeHandle;
    if g < c.starts[i] {
      EntryBeforeSeparator(c, i - 1, g);
      assert c.Index()[i-1].key == c.seps[i-1];
      InternalLessWeak(c.run[g].key, c.seps[i-1], k);
    } else {
      PartSorted(c, i);
      assert c.Part(i)[g - c.starts[i]] == c.run[g];
    }
  }

  lemma PastTheBlock(c: Cut, k: Bytes, i: nat)
    requires Complete(c) && i < |c.handles| && c.starts[i+1] < |c.run|
    requires LandsOn(InternalLess, c.Index(), k, i)
    requires LandsOn(InternalLess, c.Part(i), k, |c.Part(i)|)
    ensures !InternalLess(c.run[c.starts[i+1]].key, k)
    ensures ExtractUserKey(c.run[c.starts[i+1]].key) != ExtractUserKey(k)
  {
    hide InternalLess, ExtractUserKey, EncodeHandle, Parts;
    SeparatorBounds(c, i);
    PartSorted(c, i);
    var last, next := c.run[c.starts[i+1] - 1].key, c.run[c.starts[i+1]].key;
    assert c.Part(i)[|c.Part(i)| - 1].key == last;
    assert c.Index()[i].key == c.seps[i];
    assert c.Separated(i);
    PartsUserKeys(last, c.seps[i], next, k, next);
    InternalLessWeak(k, c.seps[i], next);
    InternalLessIrreflexive(k);
    if InternalLess(next, k) {
      InternalLessTransitive(k, next, k);
    }
  }

  /** Looking in the index and then in the block it names finds the place of a key in the run. */
  lemma TwoLevelsLand(c: Cut, k: Bytes, i: nat, j: nat)
    requires Complete(c)
    requires LandsOn(InternalLess, c.Index(), k, i)
    requires if i < |c.handles| then LandsOn(InternalLess, c.Part(i), k, j) else j == 0
    ensures i <= |c.handles| && c.starts[i] + j <= |c.run|
    ensures LandsOn(InternalLess, c.run, k, c.starts[i] + j)
    ensures i < |c.handles| && j == |c.Part(i)| && c.starts[i] + j < |c.run| ==>
      ExtractUserKey(c.run[c.starts[i] + j].key) != ExtractUserKey(k)
  {
    hide InternalLess, ExtractUserKey, EncodeHandle;
    assert |c.Index()| == |c.handles|;
    if i < |c.handles| {
      PartSorted(c, i);
    }
    var at := c.starts[i] + j;
    forall g | 0 <= g < at
      ensures g < |c.run| && InternalLess(c.run[g].key, k)
    {
      BeforeLanding(c, k, i, j, g);
    }
    if i < |c.handles| {
      if j < |c.Part(i)| {
        assert c.run[at] == c.Part(i)[j];
      } else if at < |c.run| {
        PastTheBlock(c, k, i);
      }
    }
  }

  // ----- an open table

  datatype Table = Table(options: Options, file: Bytes, verify: bool, indexBlock: Bytes, filter: Option<Reader>)

  /** The file was written by a builder, and no block is too long to be read back. */
  ghost predicate Written(o: Options, file: Bytes, m: Image) {
    IsTable(o, file, m) && Short(m, file)
  }

  ghost predicate Opens(t: Table, m: Image) {
    && Written(t.options, t.file, m)
    && t.indexBlock == m.indexBlock
    && (t.filter.Some? ==>
          && t.options.policy.Some?
          && t.filter.value == OpenFilter(m.filterBlock)
          && t.filter.value.data == m.filterBlock)
  }

  lemma WrittenComplete(o: Options, file: Bytes, m: Image)
    requires Written(o, file, m)
    ensures Complete(m.cut)
    ensures IsBlock(m.indexBlock, m.index) && m.index.pairs == m.cut.Index()
    ensures IsBlock(m.metaBlock, m.meta) && m.meta.pairs == MetaPairs(o, m.filterHandle)
  {
    hide IsBlock, IsFilterBlock, InFilters, Footer, SortedRun, MetaPairs;
  }

  /** What reading block i through its index entry gives. */
  lemma BlockRead(o: Options, file: Bytes, m: Image, i: nat, verify: bool)
    requires Written(o, file, m) && i < |m.cut.handles|
    ensures m.cut.Shape() && DecodeHandle(EncodeHandle(m.cut.handles[i])) == Some(Taken(m.cut.handles[i], []))
    ensures ReadBlock(file, m.cut.handles[i], verify, o.checksum) == Some(m.cut.blocks[i])
    ensures IsBlock(m.cut.blocks[i], m.cut.layouts[i]) && m.cut.layouts[i].pairs == m.cut.Part(i)
  {
    hide IsBlock, IsFilterBlock, InFilters, Footer, SortedRun, MetaPairs, EncodeHandle, DecodeHandle, ReadBlock, IndexStored, MetaStored, FilterStored;
    assert m.cut.BlockAt(file, o.checksum, i);
    ReadsBack(file, m.cut.handles[i], m.cut.blocks[i], verify, o.checksum);
    HandleRoundTrip(m.cut.handles[i], []);
    assert EncodeHandle(m.cut.handles[i]) + [] == EncodeHandle(m.cut.handles[i]);
  }

  lemma OthersRead(o: Options, file: Bytes, m: Image, verify: bool)
    requires Written(o, file, m)
    ensures |file| >= FOOTER_SIZE && DecodeFooter(file[|file| - FOOTER_SIZE..]) == Some(Handles(m.metaHandle, m.indexHandle))
    ensures ReadBlock(file, m.indexHandle, verify, o.checksum) == Some(m.indexBlock)
    ensures ReadBlock(file, m.metaHandle, verify, o.checksum) == Some(m.metaBlock)
    ensures o.policy.Some? ==>
      && DecodeHandle(EncodeHandle(m.filterHandle)) == Some(Taken(m.filterHandle, []))
      && ReadBlock(file, m.filterHandle, verify, o.checksum) == Some(m.filterBlock)
      && IsFilterBlock(o.policy.value, m.filterBlock, m.offsets, m.made)
  {
    hide IsBlock, IsFilterBlock, InFilters, Footer, SortedRun, MetaPairs, EncodeHandle, DecodeHandle, ReadBlock, DecodeFooter;
    hide Cut.InFile, Cut.AllSeparated;
    ReadsBack(file, m.indexHandle, m.indexBlock, verify, o.checksum);
    ReadsBack(file, m.metaHandle, m.metaBlock, verify, o.checksum);
    FooterRoundTrip(m.metaHandle, m.indexHandle);
    if o.policy.Some? {
      ReadsBack(file, m.filterHandle, m.filterBlock, verify, o.checksum);
      HandleRoundTrip(m.filterHandle, []);
      assert EncodeHandle(m.filterHandle) + [] == EncodeHandle(m.filterHandle);
    }
  }

  method NewBlockIterator(less: (Bytes, Bytes) -> bool, contents: Bytes, ghost layout: Layout) returns (iter: Iter)
    requires IsBlock(contents, layout)
    ensures fresh(iter) && iter.Inv() && iter.less == less && iter.layout == layout && iter.data == contents
    ensures !iter.Valid()
  {
    OpensBlock(contents, layout);
    var o := OpenBlock(contents);
    if o.None? || o.value.numRestarts == 0 {
      assert false;
    }
    iter := new Iter(less, contents, o.value.restarts, o.value.numRestarts, layout);
  }

  /** The block that an index entry names. */
  method BlockReader(t: Table, indexValue: Bytes, ghost m: Image, ghost i: nat) returns (iter: Iter)
    requires Opens(t, m) && m.cut.Shape() && i < |m.cut.handles| && indexValue == EncodeHandle(m.cut.handles[i])
    ensures fresh(iter) && iter.Inv() && !iter.Valid() && iter.less == InternalLess
    ensures iter.layout == m.cut.layouts[i] && iter.layout.pairs == m.cut.Part(i) && iter.data == m.cut.blocks[i]
  {
    BlockRead(t.options, t.file, m, i, t.verify);
    hide IsBlock, Written, EncodeHandle, DecodeHandle, ReadBlock, Cut.Part;
    var handle := DecodeHandle(indexValue);
    if handle.None? {
      assert false;
    }
    var contents := ReadBlock(t.file, handle.value.value, t.verify, t.options.checksum);
    if contents.None? {
      assert false;
    }
    iter := NewBlockIterator(InternalLess, contents.value, m.cut.layouts[i]);
  }

  /** The meta block's only key is found in it. */
  lemma MetaFound(o: Options, filterHandle: Handle)
    requires o.policy.Some?
    ensures var pairs := MetaPairs(o, filterHandle);
      && |pairs| == 1 && pairs[0] == Pair(FilterKey(o), EncodeHandle(filterHandle))
      && Monotone(BytesLess, pairs, FilterKey(o))
      && forall place: nat :: LandsOn(BytesLess, pairs, FilterKey(o), place) ==> place == 0
  {
    BytesLessTotal(FilterKey(o), FilterKey(o));
    hide BytesLess;
  }

  method ReadMeta(options: Options, file: Bytes, verify: bool, metaHandle: Handle, ghost m: Image) returns (filter: Reader)
    requires Written(options, file, m) && metaHandle == m.metaHandle && options.policy.Some?
    ensures filter == OpenFilter(m.filterBlock) && filter.data == m.filterBlock
  {
    hide IsBlock, Written, ReadBlock, IsFilterBlock, EncodeHandle, DecodeHandle, Complete, Iter.Inv, Iter.Valid, Iter.Value, MetaPairs,
         LandsOn, Monotone, BytesLess;
    OthersRead(options, file, m, verify);
    WrittenComplete(options, file, m);
    MetaFound(options, m.filterHandle);
    var contents := ReadBlock(file, metaHandle, verify, options.checksum);
    if contents.None? {
      assert false;
    }
    var iter := NewBlockIterator(BytesLess, contents.value, m.meta);
    iter.Seek(FilterKey(options));
    iter.Shown();
    if !iter.Valid() || iter.key != FilterKey(options) {
      assert false;
    }
    var handle := DecodeHandle(iter.Value());
    if handle.None? {
      assert false;
    }
    var block := ReadBlock(file, handle.value.value, verify, options.checksum);
    if block.None? {
      assert false;
    }
    filter := OpenFilter(block.value);
  }

  /** Finds the index, and the filters when there is a policy. */
  method Open(options: Options, file: Bytes, verify: bool, ghost m: Image) returns (t: Table)
    requires Written(options, file, m)
    ensures Opens(t, m) && t.options == options && t.file == file
    ensures options.policy.Some? ==> t.filter.Some?
  {
    OthersRead(options, file, m, verify);
    hide IsBlock, Written, ReadBlock, DecodeFooter, IsFilterBlock, EncodeHandle;
    if |file| < FOOTER_SIZE {
      assert false;
    }
    var footer := DecodeFooter(file[|file| - FOOTER_SIZE..]);
    if footer.None? {
      assert false;
    }
    var indexBlock := ReadBlock(file, footer.value.index, verify, options.checksum);
    if indexBlock.None? {
      assert false;
    }
    t := Table(options, file, verify, indexBlock.value, None);
    if options.policy.Some? {
      var filter := ReadMeta(options, file, verify, footer.value.meta, m);
      t := t.(filter := Some(filter));
    }
  }

  // ----- point lookup

  /** When the filter of block i does not match a key, no version of the key is in the block. */
  lemma FilterRefutes(o: Options, m: Image, k: Bytes, i: nat)
    requires Complete(m.cut) && i < |m.cut.handles| && InFilters(m.cut, m.made)
    requires var f := m.cut.handles[i].offset / FILTER_BASE;
      f < |m.made| && !exists key :: key in m.made[f] && ExtractUserKey(key) == ExtractUserKey(k)
    ensures forall j: nat | m.cut.starts[i] <= j < m.cut.starts[i+1] ::
      j < |m.cut.run| && ExtractUserKey(m.cut.run[j].key) != ExtractUserKey(k)
  {
    hide ExtractUserKey, InternalLess;
    PartSorted(m.cut, i);
    forall j: nat | m.cut.starts[i] <= j < m.cut.starts[i+1]
      ensures j < |m.cut.run| && ExtractUserKey(m.cut.run[j].key) != ExtractUserKey(k)
    {
      assert Filtered(m.made, m.cut.handles[i].offset / FILTER_BASE, m.cut.run[j].key);
    }
  }

  /** Where a lookup ends up: at the first entry not before the key, and at nothing only when
      that entry is not a version of the key. */
  ghost predicate Found(run: seq<Pair>, k: Bytes, g: nat, r: Option<Pair>) {
    && LandsOn(InternalLess, run, k, g)
    && (r.Some? ==> g < |run| && r.value == run[g])
    && (r.None? ==> g == |run| || ExtractUserKey(run[g].key) != ExtractUserKey(k))
  }

  /** The place of a key within a block. */
  lemma {:induction false} Landing(less: (Bytes, Bytes) -> bool, pairs: seq<Pair>, k: Bytes) returns (j: nat)
    ensures LandsOn(less, pairs, k, j)
  {
    j := 0;
    while j < |pairs| && less(pairs[j].key, k)
      invariant AllBefore(less, pairs, k, j)
    {
      j := j + 1;
    }
  }

  method FilterMayMatch(t: Table, k: Bytes, indexValue: Bytes, ghost m: Image, ghost i: nat) returns (may: bool)
    requires Opens(t, m) && Complete(m.cut) && i < |m.cut.handles| && indexValue == EncodeHandle(m.cut.handles[i])
    requires t.filter.Some?
    ensures !may ==> forall j: nat | m.cut.starts[i] <= j < m.cut.starts[i+1] ::
      j < |m.cut.run| && ExtractUserKey(m.cut.run[j].key) != ExtractUserKey(k)
  {
    OthersRead(t.options, t.file, m, t.verify);
    BlockRead(t.options, t.file, m, i, t.verify);
    assert InFilters(m.cut, m.made);
    hide InternalLess, ExtractUserKey, EncodeHandle, IsBlock, Complete, InFilters, IsFilterBlock, Written, DecodeHandle;
    var handle := DecodeHandle(indexValue);
    if handle.None? {
      assert false;
    }
    may := KeyMayMatch(t.options.policy.value, t.filter.value, handle.value.value.offset, k, m.offsets, m.made);
    if !may {
      FilterRefutes(t.options, m, k, i);
    }
  }

  method SearchBlock(t: Table, k: Bytes, indexValue: Bytes, ghost m: Image, ghost i: nat) returns (r: Option<Pair>, ghost j: nat)
    requires Opens(t, m) && Complete(m.cut) && i < |m.cut.handles| && indexValue == EncodeHandle(m.cut.handles[i])
    ensures LandsOn(InternalLess, m.cut.Part(i), k, j)
    ensures r == if j < |m.cut.Part(i)| then Some(m.cut.Part(i)[j]) else None
  {
    hide InternalLess, EncodeHandle, IsBlock, Complete, Opens, Cut.Part;
    ShapeOf(m.cut);
    PartSorted(m.cut, i);
    var blockIter := BlockReader(t, indexValue, m, i);
    RunMonotone(m.cut.Part(i), k);
    blockIter.Seek(k);
    j := blockIter.position;
    r := None;
    if blockIter.Valid() {
      r := Some(Pair(blockIter.key, blockIter.Value()));
    }
  }

  lemma LandingInside(pairs: seq<Pair>, k: Bytes, j: nat)
    requires LandsOn(InternalLess, pairs, k, j)
    ensures j <= |pairs|
  {
  }

  /** Looks in the block, unless its filter says that the key is not there. */
  method BlockGet(t: Table, k: Bytes, indexValue: Bytes, ghost m: Image, ghost i: nat) returns (r: Option<Pair>)
    requires Opens(t, m) && Complete(m.cut) && i < |m.cut.handles| && indexValue == EncodeHandle(m.cut.handles[i])
    requires LandsOn(InternalLess, m.cut.Index(), k, i)
    ensures exists g: nat :: Found(m.cut.run, k, g, r)
  {
    hide InternalLess, ExtractUserKey, EncodeHandle, Complete, LandsOn, Opens, Cut.Index, Cut.Part;
    ShapeOf(m.cut);
    PartSorted(m.cut, i);
    var may := true;
    if t.filter.Some? {
      may := FilterMayMatch(t, k, indexValue, m, i);
    }
    ghost var j;
    r, j := None, 0;
    if !may {
      j := Landing(InternalLess, m.cut.Part(i), k);
    } else {
      r, j := SearchBlock(t, k, indexValue, m, i);
    }
    TwoLevelsLand(m.cut, k, i, j);
    LandingInside(m.cut.Part(i), k, j);
    assert Found(m.cut.run, k, m.cut.starts[i] + j, r);
  }

  /** The entry that a point lookup passes on. */
  method InternalGet(t: Table, k: Bytes, ghost m: Image) returns (r: Option<Pair>)
    requires Opens(t, m)
    ensures exists g: nat :: Found(m.cut.run, k, g, r)
  {
    hide InternalLess, ExtractUserKey, Written, EncodeHandle, IsBlock, Complete;
    WrittenComplete(t.options, t.file, m);
    IndexMonotone(m.cut, k);
    ShapeOf(m.cut);
    var indexIter := NewBlockIterator(InternalLess, t.indexBlock, m.index);
    indexIter.Seek(k);
    if !indexIter.Valid() {
      TwoLevelsLand(m.cut, k, |m.cut.handles|, 0);
      assert Found(m.cut.run, k, m.cut.starts[|m.cut.handles|], None);
      return None;
    }
    r := BlockGet(t, k, indexIter.Value(), m, indexIter.position);
  }
}
