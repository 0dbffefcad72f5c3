/** The merged input of a compaction, and the compaction loop run over it. */
module InputIterator {
  import opened Keys
  import opened Files
  import opened Levels
  import opened Compactions
  import opened Runs
  import opened Cursors
  import opened InternalIterators
  import opened StoreIterator

  /** The inputs of a compaction lie at two levels, as the selection lists them. */
  ghost predicate InputLists(v: Version, level: nat, in0: seq<FileMeta>, in1: seq<FileMeta>) {
    && (forall f :: f in in0 ==> At(v, level, f)) && (forall f :: f in in1 ==> At(v, level + 1, f))
    && Listed(level, in0) && Listed(level + 1, in1)
  }

  lemma InputsApart(v: Version, level: nat, in0: seq<FileMeta>, in1: seq<FileMeta>)
    requires LevelOrder(v) && InputLists(v, level, in0, in1)
    ensures ValidFiles(in0) && ValidFiles(in1)
    ensures forall a, b :: a in EntriesOf(FileSet(in0)) && b in EntriesOf(FileSet(in1)) ==> a.key != b.key
    ensures EntriesOf(FileSet(in0) + FileSet(in1)) == EntriesOf(FileSet(in0)) + EntriesOf(FileSet(in1))
    ensures EntriesOf(FileSet(in0) + FileSet(in1)) <= StoredEntries(v)
  {
    forall a, b | a in EntriesOf(FileSet(in0)) && b in EntriesOf(FileSet(in1))
      ensures a.key != b.key
    {
      var f :| f in FileSet(in0) && a in f.entries;
      var g :| g in FileSet(in1) && b in g.entries;
      assert At(v, level, f) && At(v, level + 1, g);
      assert Newer(f, g);
    }
    forall e | e in EntriesOf(FileSet(in0) + FileSet(in1))
      ensures e in StoredEntries(v)
    {
      var f :| f in FileSet(in0) + FileSet(in1) && e in f.entries;
      Stored(v, if f in in0 then level else level + 1, f, e);
    }
  }

  /** The entries of all inputs, as one run. */
  method MakeInputIterator(ghost v: Version, level: nat, in0: seq<FileMeta>, in1: seq<FileMeta>) returns (it: InternalIterator)
    requires LevelOrder(v) && UniqueVersions(StoredEntries(v)) && InputLists(v, level, in0, in1)
    ensures it.InBounds() && Elements(it.entries) == EntriesOf(FileSet(in0) + FileSet(in1))
    ensures fresh(it) && fresh(it.merger) && forall i :: 0 <= i < |it.merger.children| ==> fresh(it.merger.children[i])
  {
    hide Collected, LevelOrder, StoredEntries, EntriesOf, FileSet, Listed, InternalIterator.InBounds;
    InputsApart(v, level, in0, in1);
    NoChildren();
    ghost var first := EntriesOf(FileSet(in0));
    assert {} + first == first;
    var children := AddFiles(v, level, in0, [], {});
    children := AddFiles(v, level + 1, in1, children, first);
    it := NewMergingIterator(children, first + EntriesOf(FileSet(in1)));
    assert forall i :: 0 <= i < |children| ==> children[i] in children;
  }

  /** Picks out of the inputs' entries what is to be kept, and writes it to files. input is the
      run that was read. */
  method CompactInputs(v: Version, level: nat, in0: seq<FileMeta>, in1: seq<FileMeta>, grandparents: seq<FileMeta>,
                       maxGrandparentOverlap: nat, oldest: nat, newNumber: nat -> nat,
                       fileSize: seq<Entry> -> nat, maxOutputFileSize: nat)
    returns (outputs: seq<FileMeta>, numbers: seq<nat>, ghost input: seq<Entry>)
    requires LevelOrder(v) && Ordered(v) && UniqueVersions(StoredEntries(v)) && level + 1 < NUM_LEVELS
    requires InputLists(v, level, in0, in1) && oldest < MAX_SEQUENCE
    ensures StrictlySorted(input) && Elements(input) == EntriesOf(FileSet(in0) + FileSet(in1))
    ensures Compacted(outputs, numbers, input, oldest, BaseOf(v, level)) && HandedOut(numbers, newNumber)
    ensures CutFiles(outputs, fileSize, maxOutputFileSize, TotalFileSize(grandparents) <= maxGrandparentOverlap)
  {
    hide LevelOrder, StoredEntries, EntriesOf, InternalIterator.InBounds, InputLists, Compacted, CutFiles;
    WellFormedFromOrder(v);
    var it := MakeInputIterator(v, level, in0, in1);
    var c := new Compaction(v, level, grandparents, maxGrandparentOverlap);
    input := it.entries;
    SortedEntries(it);
    outputs, numbers := DoCompactionWork(c, it, oldest, newNumber, fileSize, maxOutputFileSize);
  }
}
