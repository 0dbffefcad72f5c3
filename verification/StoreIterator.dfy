/** The iterator a client gets: over the memtables, every level-zero file and every deeper level,
    merged, and reduced to the map a snapshot shows. */
module StoreIterator {
  import opened Keys
  import opened Files
  import opened Levels
  import opened Compactions
  import opened Runs
  import opened RunReads
  import opened Cursors
  import opened InternalIterators
  import Merger
  import DbIterator

  // ----- the children

  /** Child iterators of which no two hold the same key, holding the given entries together. */
  ghost predicate Collected(children: seq<Cursor>, es: set<Entry>)
    reads children
  {
    && (forall i, j :: 0 <= i < j < |children| ==> children[i] != children[j])
    && (forall i :: 0 <= i < |children| ==> StrictlySorted(children[i].entries) && children[i].InBounds())
    && (forall i, j, a, b :: 0 <= i < j < |children| && a in children[i].entries && b in children[j].entries ==> a.key != b.key)
    && (forall e :: e in es <==> exists i :: 0 <= i < |children| && e in children[i].entries)
  }

  lemma OneMoreHolds(children: seq<Cursor>, es: set<Entry>, c: Cursor, e: Entry)
    requires forall x :: x in es <==> exists i :: 0 <= i < |children| && x in children[i].entries
    ensures var all := children + [c];
      e in es + Elements(c.entries) <==> exists i :: 0 <= i < |all| && e in all[i].entries
  {
    var all := children + [c];
    if e in es {
      var i :| 0 <= i < |children| && e in children[i].entries;
      assert e in all[i].entries;
    }
    if e in c.entries {
      assert e in all[|children|].entries;
    }
  }

  lemma OneMoreChild(children: seq<Cursor>, es: set<Entry>, c: Cursor)
    requires Collected(children, es) && c !in children && StrictlySorted(c.entries) && c.InBounds()
    requires forall a, b :: a in es && b in c.entries ==> a.key != b.key
    ensures Collected(children + [c], es + Elements(c.entries))
  {
    hide StrictlySorted;
    var all := children + [c];
    forall i, j, a, b | 0 <= i < j < |all| && a in all[i].entries && b in all[j].entries
      ensures a.key != b.key
    {
      if j == |children| { assert a in es; }
    }
    forall e
      ensures e in es + Elements(c.entries) <==> exists i :: 0 <= i < |all| && e in all[i].entries
    {
      OneMoreHolds(children, es, c, e);
    }
  }

  method AddChild(children: seq<Cursor>, ghost held: set<Entry>, es: seq<Entry>) returns (children': seq<Cursor>)
    requires Collected(children, held) && StrictlySorted(es)
    requires forall a, b :: a in held && b in es ==> a.key != b.key
    ensures Collected(children', held + Elements(es))
    ensures forall c :: c in children' ==> c in children || fresh(c)
  {
    var c := new Cursor(es);
    OneMoreChild(children, held, c);
    children' := children + [c];
  }

  // ----- no key is in two of them

  /** The entries of the first n levels. */
  ghost function Shallower(v: Version, n: nat): set<Entry>
    requires n <= |v|
  {
    StoredEntries(v[..n])
  }

  lemma MemtablesApart(st: State)
    requires Inv(st)
    ensures forall a, b :: a in st.mem && b in st.imm ==> a.key != b.key
    ensures forall a, b :: a in st.mem + st.imm && b in StoredEntries(st.current) ==> a.key != b.key
  {
    hide LevelOrder, JobSafe, StoredEntries;
  }

  /** Of the files of level zero, a later one in the list has no key of an earlier one. */
  lemma FileApart(v: Version, files: seq<FileMeta>, n: nat)
    requires LevelOrder(v) && NoRepeats(files) && n < |files| && forall f :: f in files ==> At(v, 0, f)
    ensures forall a, b :: a in EntriesOf(FileSet(files[..n])) && b in files[n].entries ==> a.key != b.key
    ensures EntriesOf(FileSet(files[..n+1])) == EntriesOf(FileSet(files[..n])) + Elements(files[n].entries)
    ensures files[n].Valid() && Elements(files[n].entries) <= EntriesOf(FileSet(files))
  {
    var f := files[n];
    assert At(v, 0, f) && f in FileSet(files);
    forall a, b | a in EntriesOf(FileSet(files[..n])) && b in f.entries
      ensures a.key != b.key
    {
      var g :| g in FileSet(files[..n]) && a in g.entries;
      var i :| 0 <= i < n && files[i] == g;
      assert At(v, 0, g) && g != f;
      assert Newer(f, g) || Newer(g, f);
    }
    assert files[..n+1] == files[..n] + [f];
    assert FileSet(files[..n+1]) == FileSet(files[..n]) + {f};
  }

  lemma LevelApart(v: Version, l: nat)
    requires LevelOrder(v) && l < |v|
    ensures forall a, b :: a in Shallower(v, l) && b in EntriesOf(FileSet(v[l])) ==> a.key != b.key
    ensures Shallower(v, l + 1) == Shallower(v, l) + EntriesOf(FileSet(v[l]))
    ensures EntriesOf(FileSet(v[l])) <= StoredEntries(v)
  {
    forall a, b | a in Shallower(v, l) && b in EntriesOf(FileSet(v[l]))
      ensures a.key != b.key
    {
      var m, f :| 0 <= m < l && f in v[..l][m] && a in f.entries;
      var g :| g in FileSet(v[l]) && b in g.entries;
      assert At(v, m, f) && At(v, l, g);
      assert Newer(f, g);
    }
    forall e | e in Shallower(v, l + 1)
      ensures e in Shallower(v, l) + EntriesOf(FileSet(v[l]))
    {
      var m, f :| 0 <= m < l + 1 && f in v[..l+1][m] && e in f.entries;
      if m < l {
        assert f in v[..l][m];
      } else {
        assert f in FileSet(v[l]);
      }
    }
    forall e | e in Shallower(v, l)
      ensures e in Shallower(v, l + 1)
    {
      var m, f :| 0 <= m < l && f in v[..l][m] && e in f.entries;
      assert f in v[..l+1][m];
    }
    forall e | e in EntriesOf(FileSet(v[l]))
      ensures e in Shallower(v, l + 1)
    {
      var f :| f in FileSet(v[l]) && e in f.entries;
      assert f in v[..l+1][l];
    }
  }

  lemma AllLevels(v: Version)
    ensures Shallower(v, 0) == {} && Shallower(v, |v|) == StoredEntries(v)
  {
    assert v[..|v|] == v;
  }

  lemma JoinSorted(a: seq<Entry>, b: seq<Entry>)
    requires StrictlySorted(a) && StrictlySorted(b) && forall x, y :: x in a && y in b ==> Less(x.key, y.key)
    ensures StrictlySorted(a + b)
  {
  }

  /** The concatenated files of a deeper level are one sorted run. */
  lemma {:induction false} FlattenSorted(files: seq<FileMeta>)
    requires ValidFiles(files) && SortedLevel(files)
    ensures StrictlySorted(Flatten(files)) && Elements(Flatten(files)) == EntriesOf(FileSet(files))
  {
    if files != [] {
      var rest, last := files[..|files|-1], files[|files|-1];
      FlattenSorted(rest);
      assert files == rest + [last];
      assert FileSet(files) == FileSet(rest) + {last};
      assert EntriesOf(FileSet(files)) == EntriesOf(FileSet(rest)) + Elements(last.entries);
      forall x, y | x in Flatten(rest) && y in last.entries
        ensures Less(x.key, y.key)
      {
        assert x in EntriesOf(FileSet(rest));
        var f :| f in FileSet(rest) && x in f.entries;
        var i :| 0 <= i < |rest| && rest[i] == f;
        assert Less(files[i].largest, files[|files|-1].smallest);
        EntryInRange(f, x);
        EntryInRange(last, y);
      }
      JoinSorted(Flatten(rest), last.entries);
    }
  }

  // ----- the merged run

  lemma {:induction false} InsertEntry(run: seq<Entry>, e: Entry) returns (run': seq<Entry>)
    requires StrictlySorted(run) && forall x :: x in run ==> x.key != e.key
    ensures StrictlySorted(run') && Elements(run') == Elements(run) + {e}
  {
    if run == [] {
      run' := [e];
    } else if Less(e.key, run[0].key) {
      run' := [e] + run;
      forall y | y in run
        ensures Less(e.key, y.key)
      {
        var i :| 0 <= i < |run| && run[i] == y;
        assert i > 0 ==> Less(run[0].key, run[i].key);
      }
      JoinSorted([e], run);
    } else {
      Merger.DistinctTags(e.key, run[0].key);
      assert run == [run[0]] + run[1..];
      var rest := InsertEntry(run[1..], e);
      forall y | y in rest
        ensures Less(run[0].key, y.key)
      {
        assert y in Elements(rest);
        assert y != e ==> y in run[1..];
      }
      run' := [run[0]] + rest;
      JoinSorted([run[0]], rest);
    }
  }

  lemma {:induction false} SortedRun(es: set<Entry>) returns (run: seq<Entry>)
    requires UniqueVersions(es)
    ensures StrictlySorted(run) && Elements(run) == es
    decreases es
  {
    if es == {} {
      run := [];
    } else {
      var e :| e in es;
      var rest := SortedRun(es - {e});
      forall x | x in rest
        ensures x.key != e.key
      {
        assert x in Elements(rest);
      }
      run := InsertEntry(rest, e);
    }
  }

  // ----- the iterator

  lemma LevelCount(v: Version)
    requires LevelOrder(v)
    ensures |v| == NUM_LEVELS
  {
  }

  lemma NoFiles(held: set<Entry>)
    ensures held + EntriesOf(FileSet([])) == held
  {
  }

  /** Files of a level: those of level zero one by one, those of another concatenated. */
  method AddFiles(ghost v: Version, level: nat, files: seq<FileMeta>, children: seq<Cursor>, ghost held: set<Entry>)
    returns (children': seq<Cursor>)
    requires LevelOrder(v) && ValidFiles(files) && Listed(level, files) && Collected(children, held)
    requires level == 0 ==> forall f :: f in files ==> At(v, 0, f)
    requires forall a, b :: a in held && b in EntriesOf(FileSet(files)) ==> a.key != b.key
    ensures Collected(children', held + EntriesOf(FileSet(files)))
    ensures forall c :: c in children' ==> c in children || fresh(c)
  {
    hide Collected, LevelOrder, StrictlySorted, EntriesOf, FileSet, Less, SortedLevel, NoRepeats;
    children' := children;
    NoFiles(held);
    if level == 0 {
      for i := 0 to |files|
        invariant Collected(children', held + EntriesOf(FileSet(files[..i])))
        invariant forall c :: c in children' ==> c in children || fresh(c)
      {
        FileApart(v, files, i);
        children' := AddChild(children', held + EntriesOf(FileSet(files[..i])), files[i].entries);
        assert held + EntriesOf(FileSet(files[..i])) + Elements(files[i].entries) == held + EntriesOf(FileSet(files[..i+1]));
      }
      assert files[..|files|] == files;
    } else if files != [] {
      FlattenSorted(files);
      assert forall b :: b in Flatten(files) ==> b in Elements(Flatten(files));
      children' := AddChild(children', held, Flatten(files));
    }
  }

  /** The files of a version. */
  method AddIterators(current: Version, children: seq<Cursor>, ghost held: set<Entry>) returns (children': seq<Cursor>)
    requires LevelOrder(current) && Ordered(current) && Collected(children, held)
    requires forall a, b :: a in held && b in StoredEntries(current) ==> a.key != b.key
    ensures Collected(children', held + StoredEntries(current))
    ensures forall c :: c in children' ==> c in children || fresh(c)
  {
    hide Collected, LevelOrder, Ordered, StoredEntries, StrictlySorted, EntriesOf, Less, Listed;
    children' := children;
    LevelCount(current);
    WellFormedFromOrder(current);
    AllLevels(current);
    assert held + {} == held;
    for l := 0 to NUM_LEVELS
      invariant Collected(children', held + Shallower(current, l))
      invariant forall c :: c in children' ==> c in children || fresh(c)
    {
      LevelApart(current, l);
      LevelListed(current, l);
      children' := AddFiles(current, l, current[l], children', held + Shallower(current, l));
      assert held + Shallower(current, l + 1) == held + Shallower(current, l) + EntriesOf(FileSet(current[l]));
    }
  }

  lemma NoChildren()
    ensures Collected([], {})
  {
  }

  lemma AllUnique(st: State)
    requires Inv(st)
    ensures UniqueVersions(st.All())
  {
  }

  lemma MergedHolds(merger: Merger.MergingIterator, children: seq<Cursor>, es: set<Entry>)
    requires Collected(children, es) && merger.children == children
    ensures merger.DistinctKeys() && forall e :: e in es <==> merger.Holds(e)
  {
  }

  lemma Mergeable(children: seq<Cursor>, es: set<Entry>)
    requires Collected(children, es)
    ensures forall i, j :: 0 <= i < j < |children| ==> children[i] != children[j]
    ensures forall i :: 0 <= i < |children| ==> StrictlySorted(children[i].entries) && children[i].InBounds()
  {
  }

  /** Child iterators of which no two hold the same key, merged into one run. */
  method NewMergingIterator(children: seq<Cursor>, ghost es: set<Entry>) returns (it: InternalIterator)
    requires Collected(children, es) && UniqueVersions(es)
    ensures it.InBounds() && Elements(it.entries) == es
    ensures fresh(it) && fresh(it.merger) && it.merger.children == children
  {
    hide Collected, StrictlySorted, UniqueVersions,
         Merger.MergingIterator.Inv, Merger.MergingIterator.DistinctKeys, Merger.MergingIterator.Holds;
    ghost var entries := SortedRun(es);
    Mergeable(children, es);
    var merger := new Merger.MergingIterator(children);
    MergedHolds(merger, children, es);
    assert forall e :: e in entries <==> e in Elements(entries);
    it := new InternalIterator(merger, entries);
  }

  /** Everything the store holds, as one run. */
  method NewInternalIterator(ghost st: State, mem: seq<Entry>, imm: Option<seq<Entry>>, current: Version)
    returns (it: InternalIterator)
    requires Inv(st) && st.current == current
    requires StrictlySorted(mem) && Elements(mem) == st.mem
    requires match imm case Some(es) => StrictlySorted(es) && Elements(es) == st.imm case None => st.imm == {}
    ensures it.InBounds() && Elements(it.entries) == st.All()
  {
    hide Collected, LevelOrder, StoredEntries, StrictlySorted, UniqueVersions, JobSafe, InternalIterator.InBounds;
    MemtablesApart(st);
    AllUnique(st);
    NoChildren();
    assert {} + st.mem == st.mem;
    var children := AddChild([], {}, mem);
    if imm.Some? {
      children := AddChild(children, st.mem, imm.value);
    } else {
      assert st.mem + st.imm == st.mem;
    }
    children := AddIterators(current, children, st.mem + st.imm);
    it := NewMergingIterator(children, st.All());
  }

  /** A client's iterator at a snapshot. What its operations say of the entries of its run they
      say of everything the store holds. */
  method NewIterator(ghost st: State, mem: seq<Entry>, imm: Option<seq<Entry>>, current: Version, s: SequenceNumber)
    returns (it: DbIterator.DBIter)
    requires Inv(st) && st.current == current
    requires StrictlySorted(mem) && Elements(mem) == st.mem
    requires match imm case Some(es) => StrictlySorted(es) && Elements(es) == st.imm case None => st.imm == {}
    ensures it.Inv() && !it.valid && it.sequence == s && Elements(it.iter.entries) == st.All()
  {
    hide LevelOrder, StoredEntries, JobSafe;
    var iter := NewInternalIterator(st, mem, imm, current);
    AllUnique(st);
    it := new DbIterator.DBIter(iter, s);
  }

  /** In every run whose compactions split no user key, the map an iterator walks at a live
      snapshot is the one the writes up to that snapshot left. */
  method NewIteratorInRun(ghost run: seq<State>, ghost n: nat, mem: seq<Entry>, imm: Option<seq<Entry>>, current: Version,
                          s: SequenceNumber)
    returns (it: DbIterator.DBIter)
    requires GuardedRun(run) && n < |run| && run[n].current == current
    requires s in run[n].snapshots || s >= run[n].OldestSnapshot()
    requires StrictlySorted(mem) && Elements(mem) == run[n].mem
    requires match imm case Some(es) => StrictlySorted(es) && Elements(es) == run[n].imm case None => run[n].imm == {}
    ensures it.Inv() && !it.valid && it.sequence == s
    ensures forall k :: Visible(Elements(it.iter.entries), k, s) == Visible(run[n].history, k, s)
  {
    GuardedRunReadsRight(run, n);
    if s in run[n].snapshots { LiveNotOlder(run[n], s); }
    it := NewIterator(run[n], mem, imm, current, s);
  }
}
