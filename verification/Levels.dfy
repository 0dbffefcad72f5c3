/** The order between files that makes level-by-level reads correct, and why every
    edit the background thread installs keeps it. */
module Levels {
  import opened Keys
  import opened Files

  ghost predicate At(v: Version, l: int, f: FileMeta) {
    0 <= l < |v| && f in v[l]
  }

  ghost predicate Before(f: FileMeta, g: FileMeta) {
    Less(f.largest, g.smallest)
  }

  /** Every entry of f is newer than every entry of g with the same user key. */
  ghost predicate Newer(f: FileMeta, g: FileMeta) {
    forall e, x :: e in f.entries && x in g.entries && e.key.user == x.key.user ==> e.key.seqno > x.key.seqno
  }

  ghost predicate Shape(v: Version) {
    |v| == NUM_LEVELS && forall l, f :: At(v, l, f) ==> f.Valid()
  }

  ghost predicate DisjointLevels(v: Version) {
    forall l, f, g :: l >= 1 && At(v, l, f) && At(v, l, g) && f != g ==> Before(f, g) || Before(g, f)
  }

  /** At level zero a larger file number means newer data. */
  ghost predicate AgedLevelZero(v: Version) {
    forall f, g :: At(v, 0, f) && At(v, 0, g) && f.number < g.number ==> Newer(g, f)
  }

  ghost predicate DistinctNumbers(v: Version) {
    forall l, m, f, g :: At(v, l, f) && At(v, m, g) && f.number == g.number ==> l == m && f == g
  }

  ghost predicate DeeperIsOlder(v: Version) {
    forall l, m, f, g :: l < m && At(v, l, f) && At(v, m, g) ==> Newer(f, g)
  }

  ghost predicate LevelOrder(v: Version) {
    Shape(v) && DisjointLevels(v) && AgedLevelZero(v) && DistinctNumbers(v) && DeeperIsOlder(v)
  }

  ghost function StoredEntries(v: Version): set<Entry> {
    set l, f, e | 0 <= l < |v| && f in v[l] && e in f.entries :: e
  }

  lemma Stored(v: Version, l: int, f: FileMeta, e: Entry)
    requires At(v, l, f) && e in f.entries
    ensures e in StoredEntries(v)
  {
  }

  // ----- edits

  ghost predicate Added(v: Version, v': Version, m: nat, h: FileMeta) {
    |v'| == |v| && forall l, g :: At(v', l, g) <==> At(v, l, g) || (l == m && g == h)
  }

  ghost predicate Replaced(v: Version, v': Version, level: nat, in0: set<FileMeta>, in1: set<FileMeta>, outs: set<FileMeta>) {
    && |v'| == |v|
    && forall l, g :: At(v', l, g) <==>
         || (At(v, l, g) && !(l == level && g in in0) && !(l == level + 1 && g in in1))
         || (l == level + 1 && g in outs)
  }

  // ----- adding a memtable's file

  /** No file of levels 0 to m shares a user key range with h, unless h goes to level zero. */
  ghost predicate MayFlushTo(v: Version, h: FileMeta, m: nat) {
    && m <= MAX_MEM_COMPACT_LEVEL
    && (m > 0 ==> forall l, f :: l <= m && At(v, l, f) ==> !UserOverlap(f, h))
  }

  ghost predicate NewestFile(v: Version, h: FileMeta) {
    forall l, f :: At(v, l, f) ==> f.number < h.number && Newer(h, f)
  }

  lemma NoSharedKeys(f: FileMeta, g: FileMeta)
    requires f.Valid() && g.Valid() && !UserOverlap(f, g)
    ensures Newer(f, g) && Newer(g, f)
    ensures Before(f, g) || Before(g, f)
    ensures forall e, x :: e in f.entries && x in g.entries ==> e.key.user != x.key.user
  {
    forall e, x | e in f.entries && x in g.entries
      ensures e.key.user != x.key.user
    {
      EntryInRange(f, e);
      EntryInRange(g, x);
    }
  }

  /** Flushing a memtable to the level picked for it keeps the order of the levels. */
  lemma FlushKeepsOrder(v: Version, v': Version, m: nat, h: FileMeta)
    requires LevelOrder(v) && h.Valid() && NewestFile(v, h) && MayFlushTo(v, h, m)
    requires Added(v, v', m, h)
    ensures LevelOrder(v')
  {
    forall l, f | l <= m && m > 0 && At(v, l, f)
      ensures (Before(f, h) || Before(h, f)) && Newer(f, h) && Newer(h, f)
    {
      NoSharedKeys(f, h);
    }
    assert Shape(v') && DisjointLevels(v') && AgedLevelZero(v') && DistinctNumbers(v');
    assert DeeperIsOlder(v');
  }

  // ----- replacing a compaction's inputs by its outputs

  ghost predicate AllBefore(g: FileMeta, fs: set<FileMeta>) {
    forall f :: f in fs ==> Before(g, f)
  }

  ghost predicate AllAfter(g: FileMeta, fs: set<FileMeta>) {
    forall f :: f in fs ==> Before(f, g)
  }

  /** The inputs can be replaced at level + 1: what stays behind at their level is newer, and
      what stays behind at the next level lies entirely to one side of them. */
  ghost predicate Separated(v: Version, level: nat, in0: set<FileMeta>, in1: set<FileMeta>) {
    && level + 1 < NUM_LEVELS
    && (forall f :: f in in0 ==> At(v, level, f))
    && (forall f :: f in in1 ==> At(v, level + 1, f))
    && (forall f, g :: f in in0 && At(v, level, g) && g !in in0 ==> Newer(g, f))
    && (forall g :: At(v, level + 1, g) && g !in in1 ==> AllBefore(g, in0 + in1) || AllAfter(g, in0 + in1))
  }

  /** Outputs of a compaction: valid disjoint files holding only entries of the inputs, under
      numbers no remaining file uses. */
  ghost predicate Outputs(v: Version, in0: set<FileMeta>, in1: set<FileMeta>, outs: set<FileMeta>) {
    && (forall o :: o in outs ==> o.Valid())
    && (forall o, p :: o in outs && p in outs && o != p ==> (Before(o, p) || Before(p, o)) && o.number != p.number)
    && (forall o, e :: o in outs && e in o.entries ==> e in EntriesOf(in0 + in1))
    && (forall l, g, o :: At(v, l, g) && g !in in0 && g !in in1 && o in outs ==> g.number != o.number)
  }

  lemma OutputOf(in0: set<FileMeta>, in1: set<FileMeta>, o: FileMeta, e: Entry) returns (f: FileMeta)
    requires e in o.entries && forall x :: x in o.entries ==> x in EntriesOf(in0 + in1)
    ensures f in in0 + in1 && e in f.entries
  {
    assert e in EntriesOf(in0 + in1);
    f :| f in in0 + in1 && e in f.entries;
  }

  lemma OutputToOneSide(v: Version, level: nat, in0: set<FileMeta>, in1: set<FileMeta>, outs: set<FileMeta>, g: FileMeta, o: FileMeta)
    requires Shape(v) && Separated(v, level, in0, in1) && Outputs(v, in0, in1, outs)
    requires At(v, level + 1, g) && g !in in1 && o in outs
    ensures Before(g, o) || Before(o, g)
  {
    if AllBefore(g, in0 + in1) {
      var f := OutputOf(in0, in1, o, o.entries[0]);
      EntryInRange(f, o.entries[0]);
      assert Before(g, f);
    } else {
      var f := OutputOf(in0, in1, o, o.entries[|o.entries|-1]);
      EntryInRange(f, o.entries[|o.entries|-1]);
      assert Before(f, g);
    }
  }

  lemma OutputAges(v: Version, v': Version, level: nat, in0: set<FileMeta>, in1: set<FileMeta>, outs: set<FileMeta>,
                   l: int, g: FileMeta, o: FileMeta)
    requires Shape(v) && DeeperIsOlder(v) && Separated(v, level, in0, in1) && Outputs(v, in0, in1, outs)
    requires Replaced(v, v', level, in0, in1, outs)
    requires o in outs && At(v', l, g) && l != level + 1
    ensures l <= level ==> Newer(g, o)
    ensures l > level ==> Newer(o, g)
  {
    forall e, x | e in g.entries && x in o.entries && e.key.user == x.key.user
      ensures l <= level ==> e.key.seqno > x.key.seqno
      ensures l > level ==> e.key.seqno < x.key.seqno
    {
      var f := OutputOf(in0, in1, o, x);
      if f in in0 {
        assert At(v, level, f) && At(v, l, g);
        if l < level { assert Newer(g, f); }
        if l == level { assert Newer(g, f); }
        if l > level { assert Newer(f, g); }
      } else {
        assert At(v, level + 1, f) && At(v, l, g);
        if l <= level { assert Newer(g, f); } else { assert Newer(f, g); }
      }
    }
  }

  lemma ReplaceShape(v: Version, v': Version, level: nat, in0: set<FileMeta>, in1: set<FileMeta>, outs: set<FileMeta>)
    requires Shape(v) && DisjointLevels(v) && AgedLevelZero(v) && Outputs(v, in0, in1, outs)
    requires Replaced(v, v', level, in0, in1, outs)
    requires forall g, o :: At(v, level + 1, g) && g !in in1 && o in outs ==> Before(g, o) || Before(o, g)
    ensures Shape(v') && DisjointLevels(v') && AgedLevelZero(v')
  {
  }

  lemma ReplaceNumbers(v: Version, v': Version, level: nat, in0: set<FileMeta>, in1: set<FileMeta>, outs: set<FileMeta>)
    requires DistinctNumbers(v) && Separated(v, level, in0, in1) && Outputs(v, in0, in1, outs)
    requires Replaced(v, v', level, in0, in1, outs)
    ensures DistinctNumbers(v')
  {
    forall l, m, f, g | At(v', l, f) && At(v', m, g) && f.number == g.number
      ensures l == m && f == g
    {
      if !(l == level + 1 && f in outs) {
        assert At(v, l, f) && f !in in0 && f !in in1;
      }
    }
  }

  /** Installing a compaction keeps the order of the levels. */
  lemma ReplaceKeepsOrder(v: Version, v': Version, level: nat, in0: set<FileMeta>, in1: set<FileMeta>, outs: set<FileMeta>)
    requires LevelOrder(v) && Separated(v, level, in0, in1) && Outputs(v, in0, in1, outs)
    requires Replaced(v, v', level, in0, in1, outs)
    ensures LevelOrder(v')
  {
    forall g, o | At(v, level + 1, g) && g !in in1 && o in outs
      ensures Before(g, o) || Before(o, g)
    {
      OutputToOneSide(v, level, in0, in1, outs, g, o);
    }
    forall l, g, o | o in outs && At(v', l, g) && l != level + 1
      ensures (l <= level ==> Newer(g, o)) && (l > level ==> Newer(o, g))
    {
      OutputAges(v, v', level, in0, in1, outs, l, g, o);
    }
    ReplaceShape(v, v', level, in0, in1, outs);
    ReplaceNumbers(v, v', level, in0, in1, outs);
    assert DeeperIsOlder(v');
  }
}
