/** Installing what the background thread made: each edit goes through the version builder, and
    the version saved is the one the step of the run allows. */
module Installing {
  import opened Keys
  import opened Files
  import opened Levels
  import opened Compactions
  import opened Runs
  import opened InputSelection
  import opened VersionBuilder
  import opened Picking
  import opened InputIterator

  /** A level picked for a memtable's file may take it. */
  lemma PickedMayTake(v: Version, h: FileMeta, level: nat)
    requires level <= MAX_MEM_COMPACT_LEVEL
    requires level > 0 ==> forall l, f :: l <= level && At(v, l, f) ==> !Touches(f, Some(h.smallest.user), Some(h.largest.user))
    ensures MayFlushTo(v, h, level)
  {
  }

  /** Puts the immutable memtable's file h where the picked level says. */
  method CompactMemTable(ghost st: State, current: Version, h: FileMeta, maxGrandparentOverlap: nat)
    returns (level: nat, v: Version)
    requires Inv(st) && current == st.current
    requires h.Valid() && Elements(h.entries) == st.imm && st.nextFileNumber <= h.number
    ensures Flush(st, st.(imm := {}, current := v, nextFileNumber := h.number + 1), level, h)
  {
    hide JobSafe, LayersAged, LevelOrder, Edited, FreshEdit;
    WellFormedFromOrder(current);
    level := PickLevelForMemTableOutput(current, h.smallest.user, h.largest.user, maxGrandparentOverlap);
    PickedMayTake(current, h, level);
    v := LogAndApply(current, FlushEdit(level, h));
    FlushEditAdds(current, v, level, h);
  }

  lemma JobLevels(st: State)
    requires Inv(st) && st.job.Some?
    ensures DistinctNumbers(st.current) && st.job.value.level + 1 < NUM_LEVELS
    ensures forall f :: f in st.job.value.in0 ==> At(st.current, st.job.value.level, f)
    ensures forall f :: f in st.job.value.in1 ==> At(st.current, st.job.value.level + 1, f)
  {
  }

  lemma EditReplaces(st: State, v: Version, input: seq<Entry>, outputs: seq<FileMeta>)
    requires Inv(st) && st.job.Some? && Elements(input) == EntriesOf(st.job.value.Inputs())
    requires var j := st.job.value;
      && Compacted(outputs, j.numbers, input, j.oldest, BaseOf(j.inputVersion, j.level))
      && SavedAs(st.current, v, CompactionEdit(j.level, j.in0, j.in1, outputs))
    ensures var j := st.job.value;
      && Replaced(st.current, v, j.level, j.in0, j.in1, FileSet(outputs))
      && forall l :: 0 <= l < NUM_LEVELS ==> FreshEdit(st.current, CompactionEdit(j.level, j.in0, j.in1, outputs), l)
  {
    hide JobSafe, LayersAged, Compacted, SavedAs, FreshEdit, Outputs;
    var j := st.job.value;
    JobLevels(st);
    LoopGivesOutputs(st.current, j.in0, j.in1, input, j.oldest, BaseOf(j.inputVersion, j.level), outputs, j.numbers, st.nextFileNumber);
    CompactionEditReplaces(st.current, v, j.level, j.in0, j.in1, outputs);
  }

  lemma OldestBelow(st: State)
    requires Inv(st)
    ensures st.OldestSnapshot() < MAX_SEQUENCE && UniqueVersions(StoredEntries(st.current))
  {
  }

  /** Picks the inputs of a compaction, which begins the job, and runs its loop over them. What
      it yields is what the finishing step asks for. */
  method CompactPicked(ghost st: State, current: Version, oldest: nat, level: nat, fileToCompact: Option<FileMeta>,
                       compactPointer: Option<InternalKey>, expandedSizeLimit: nat, maxGrandparentOverlap: nat,
                       newNumber: nat -> nat, fileSize: seq<Entry> -> nat, maxOutputFileSize: nat)
    returns (in0: seq<FileMeta>, in1: seq<FileMeta>, outputs: seq<FileMeta>, numbers: seq<nat>, ghost input: seq<Entry>)
    requires Inv(st) && st.job == None && current == st.current && oldest == st.OldestSnapshot()
    requires level + 1 < NUM_LEVELS && current[level] != []
    requires fileToCompact.Some? ==> At(current, level, fileToCompact.value)
    ensures var job := Job(level, FileSet(in0), FileSet(in1), oldest, current, []);
      BeginCompaction(st, st.(job := Some(job)), level, FileSet(in0), FileSet(in1))
    ensures StrictlySorted(input) && Elements(input) == EntriesOf(FileSet(in0) + FileSet(in1))
    ensures Compacted(outputs, numbers, input, oldest, BaseOf(current, level)) && HandedOut(numbers, newNumber)
  {
    hide LayersAged, Compacted, Newer, DisjointLevels, AgedLevelZero, DeeperIsOlder, Listed, GapFree, EntriesOf, StoredEntries;
    OldestBelow(st);
    var grandparents, pointer;
    in0, in1, grandparents, pointer := PickCompaction(current, level, fileToCompact, compactPointer, expandedSizeLimit);
    assert forall f :: f in in0 ==> f in FileSet(in0);
    assert forall f :: f in in1 ==> f in FileSet(in1);
    outputs, numbers, input := CompactInputs(current, level, in0, in1, grandparents, maxGrandparentOverlap, oldest, newNumber,
                                             fileSize, maxOutputFileSize);
  }

  /** Replaces the job's inputs by the outputs of its loop in the version that is current by now. */
  method InstallCompactionResults(ghost st: State, current: Version, level: nat, in0: set<FileMeta>, in1: set<FileMeta>,
                                  outputs: seq<FileMeta>, ghost input: seq<Entry>)
    returns (v: Version)
    requires Inv(st) && current == st.current && st.job.Some?
    requires st.job.value.level == level && st.job.value.in0 == in0 && st.job.value.in1 == in1
    requires StrictlySorted(input) && Elements(input) == EntriesOf(in0 + in1)
    requires Compacted(outputs, st.job.value.numbers, input, st.job.value.oldest, BaseOf(st.job.value.inputVersion, level))
    ensures FinishCompaction(st, st.(job := None, current := v), input, outputs)
  {
    hide JobSafe, LayersAged, Compacted, FreshEdit, Edited;
    JobLevels(st);
    v := LogAndApply(current, CompactionEdit(level, in0, in1, outputs));
    EditReplaces(st, v, input, outputs);
  }

  lemma MoveReplaces(v: Version, v': Version, level: nat, f: FileMeta)
    requires LevelOrder(v) && Picked(v, level, {f}, {}) && SavedAs(v, v', CompactionEdit(level, {f}, {}, [f]))
    ensures Replaced(v, v', level, {f}, {}, {f})
    ensures forall l :: 0 <= l < NUM_LEVELS ==> FreshEdit(v, CompactionEdit(level, {f}, {}, [f]), l)
  {
    hide SavedAs, FreshEdit, Newer, DisjointLevels, AgedLevelZero, DeeperIsOlder, GapFree;
    assert At(v, level, f);
    assert FileSet([f]) == {f};
    CompactionEditReplaces(v, v', level, {f}, {}, [f]);
  }

  /** Moves a single input without overlap at the next level down by an edit alone. */
  method MoveFile(ghost st: State, current: Version, level: nat, f: FileMeta) returns (v: Version)
    requires Inv(st) && current == st.current && st.job == None && Picked(st.current, level, {f}, {})
    ensures TrivialMove(st, st.(current := v), level, f)
  {
    hide LayersAged, FreshEdit, Edited;
    v := LogAndApply(current, CompactionEdit(level, {f}, {}, [f]));
    MoveReplaces(current, v, level, f);
  }
}
