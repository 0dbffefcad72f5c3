/** The store as a state machine: writes, memtable switches, flushes, trivial moves and
    compactions, the last in two phases because flushes go on while one is running. */
module Runs {
  import opened Keys
  import opened Files
  import opened Levels
  import opened Compactions

  /** A compaction in progress: its inputs, the version they were picked from, the oldest
      snapshot at the time, and the file numbers taken for its outputs. */
  datatype Job = Job(level: nat, in0: set<FileMeta>, in1: set<FileMeta>, oldest: nat, inputVersion: Version, numbers: seq<nat>) {
    ghost function Inputs(): set<FileMeta> {
      in0 + in1
    }
  }

  /** history is every entry ever written; the other fields are the store's. */
  datatype State = State(
    mem: set<Entry>,
    imm: set<Entry>,
    current: Version,
    nextFileNumber: nat,
    lastSequence: nat,
    snapshots: seq<nat>,
    job: Option<Job>,
    history: set<Entry>)
  {
    function OldestSnapshot(): nat {
      if snapshots == [] then lastSequence else snapshots[0]
    }

    ghost function All(): set<Entry> {
      mem + imm + StoredEntries(current)
    }
  }

  // ----- picking the inputs of a compaction

  /** A file of the next level is an input exactly when its user keys meet the range spanned
      by the inputs of the level. */
  ghost predicate MeetsRange(g: FileMeta, in0: set<FileMeta>) {
    exists a, b :: a in in0 && b in in0 && a.smallest.user <= g.largest.user && g.smallest.user <= b.largest.user
  }

  ghost predicate Covered(fs: set<FileMeta>, k: UserKey) {
    exists h :: h in fs && h.CoversUser(k)
  }

  /** Every user key between two of the files is covered by one of them. */
  ghost predicate GapFree(fs: set<FileMeta>) {
    forall f, g, k {:trigger f in fs, g in fs, Covered(fs, k)} ::
      f in fs && g in fs && f.smallest.user <= k <= g.largest.user ==> Covered(fs, k)
  }

  /** What PickCompaction guarantees of the inputs it selects. */
  ghost predicate Picked(v: Version, level: nat, in0: set<FileMeta>, in1: set<FileMeta>) {
    && level + 1 < NUM_LEVELS
    && in0 != {}
    && (forall f :: f in in0 ==> At(v, level, f))
    && (forall g :: g in in1 <==> At(v, level + 1, g) && MeetsRange(g, in0))
    && (level == 0 ==> forall f, g :: f in in0 && At(v, 0, g) && UserOverlap(f, g) ==> g in in0)
    && (level > 0 ==> forall f, g :: f in in0 && At(v, level, g) && Follows(f, g) ==> g in in0)
    && GapFree(in0 + in1)
  }

  /** No file left at the next level starts with the user key an input of that level ends with.
      The selection does not look for such files, so this is a condition and not a guarantee. */
  ghost predicate NoBoundarySplit(v: Version, level: nat, in1: set<FileMeta>) {
    forall f, g :: f in in1 && At(v, level + 1, g) && Follows(f, g) ==> g in in1
  }

  // ----- steps

  ghost predicate BySmallest(files: seq<FileMeta>) {
    forall i, j {:trigger files[i], files[j]} :: 0 <= i < j < |files| ==>
      Less(files[i].smallest, files[j].smallest) || (files[i].smallest == files[j].smallest && files[i].number < files[j].number)
  }

  /** The builder writes every level's files in the order of their smallest keys. */
  ghost predicate Ordered(v: Version) {
    forall l :: 0 <= l < |v| ==> BySmallest(v[l])
  }

  /** A group of writes gets the next sequence numbers. */
  ghost predicate Write(st: State, st': State, es: set<Entry>) {
    && UniqueVersions(es)
    && (forall e :: e in es ==> st.lastSequence < e.key.seqno <= st'.lastSequence)
    && st.lastSequence <= st'.lastSequence < MAX_SEQUENCE
    && st' == st.(mem := st.mem + es, history := st.history + es, lastSequence := st'.lastSequence)
  }

  ghost predicate SwitchMemtable(st: State, st': State) {
    && st.imm == {}
    && st' == st.(mem := {}, imm := st.mem)
  }

  ghost predicate Flush(st: State, st': State, m: nat, h: FileMeta) {
    && h.Valid() && Elements(h.entries) == st.imm && st.nextFileNumber <= h.number < st'.nextFileNumber
    && MayFlushTo(st.current, h, m)
    && Added(st.current, st'.current, m, h) && Ordered(st'.current)
    && st' == st.(imm := {}, current := st'.current, nextFileNumber := st'.nextFileNumber)
  }

  ghost predicate TakeSnapshot(st: State, st': State) {
    st' == st.(snapshots := st.snapshots + [st.lastSequence])
  }

  ghost predicate ReleaseSnapshot(st: State, st': State, i: nat) {
    i < |st.snapshots| && st' == st.(snapshots := st.snapshots[..i] + st.snapshots[i+1..])
  }

  ghost predicate TrivialMove(st: State, st': State, level: nat, f: FileMeta) {
    && st.job == None && Picked(st.current, level, {f}, {})
    && Replaced(st.current, st'.current, level, {f}, {}, {f}) && Ordered(st'.current)
    && st' == st.(current := st'.current)
  }

  ghost predicate BeginCompaction(st: State, st': State, level: nat, in0: set<FileMeta>, in1: set<FileMeta>) {
    && st.job == None && Picked(st.current, level, in0, in1)
    && st' == st.(job := Some(Job(level, in0, in1, st.OldestSnapshot(), st.current, [])))
  }

  /** The running compaction takes a file number for its next output. */
  ghost predicate TakeNumber(st: State, st': State, n: nat) {
    && st.job.Some? && st.nextFileNumber <= n < st'.nextFileNumber
    && st' == st.(job := Some(st.job.value.(numbers := st.job.value.numbers + [n])), nextFileNumber := st'.nextFileNumber)
  }

  /** The inputs are replaced by what the compaction loop made of their merged entries. */
  ghost predicate FinishCompaction(st: State, st': State, input: seq<Entry>, outputs: seq<FileMeta>) {
    && st.job.Some?
    && var j := st.job.value;
    && StrictlySorted(input) && Elements(input) == EntriesOf(j.Inputs())
    && Compacted(outputs, j.numbers, input, j.oldest, BaseOf(j.inputVersion, j.level))
    && Replaced(st.current, st'.current, j.level, j.in0, j.in1, FileSet(outputs)) && Ordered(st'.current)
    && st' == st.(job := None, current := st'.current)
  }

  ghost predicate AbandonCompaction(st: State, st': State) {
    st' == st.(job := None)
  }

  ghost predicate ClientStep(st: State, st': State) {
    || (exists es :: Write(st, st', es))
    || SwitchMemtable(st, st')
    || TakeSnapshot(st, st')
    || (exists i :: ReleaseSnapshot(st, st', i))
  }

  ghost predicate BackgroundStep(st: State, st': State) {
    || (exists m, h :: Flush(st, st', m, h))
    || (exists level, f :: TrivialMove(st, st', level, f))
    || (exists level, in0, in1 :: BeginCompaction(st, st', level, in0, in1))
    || (exists n :: TakeNumber(st, st', n))
    || (exists input, outputs :: FinishCompaction(st, st', input, outputs))
    || AbandonCompaction(st, st')
  }

  ghost predicate Next(st: State, st': State) {
    ClientStep(st, st') || BackgroundStep(st, st')
  }

  ghost predicate Init(st: State) {
    && st.mem == {} && st.imm == {} && st.history == {} && st.snapshots == [] && st.job == None
    && st.lastSequence == 0
    && |st.current| == NUM_LEVELS && forall l :: 0 <= l < NUM_LEVELS ==> st.current[l] == []
  }

  // ----- the invariant of every run

  /** Layers are ordered by age: memtable, then immutable memtable, then files. */
  ghost predicate LayersAged(st: State) {
    && (forall e, x :: e in st.mem && x in st.imm ==> e.key.seqno > x.key.seqno)
    && (forall e, x :: e in st.mem + st.imm && x in StoredEntries(st.current) ==> e.key.seqno > x.key.seqno)
  }

  ghost predicate SnapshotsOrdered(st: State) {
    && (forall i, j :: 0 <= i < j < |st.snapshots| ==> st.snapshots[i] <= st.snapshots[j])
    && (forall i :: 0 <= i < |st.snapshots| ==> st.snapshots[i] <= st.lastSequence)
  }

  /** g holds no user key of f that the compaction takes to be absent from deeper levels. */
  ghost predicate OnlyDeeperKeys(j: Job, f: FileMeta, g: FileMeta) {
    forall e, x :: e in f.entries && x in g.entries && e.key.user == x.key.user
      ==> !BaseLevelFor(j.inputVersion, j.level, e.key.user)
  }

  /** What a running compaction relies on, although flushes change the current version. */
  ghost predicate JobSafe(v: Version, j: Job) {
    && Separated(v, j.level, j.in0, j.in1)
    && GapFree(j.Inputs())
    && WellFormed(j.inputVersion)
    && (forall f, g :: f in j.in0 && At(v, j.level + 1, g) && g !in j.in1 ==> !UserOverlap(f, g))
    && (forall f, l, g :: f in j.Inputs() && l >= j.level + 2 && At(v, l, g) ==> OnlyDeeperKeys(j, f, g))
  }

  /** The numbers a job has taken are distinct and no file of the version has one of them. */
  ghost predicate NumbersReserved(v: Version, numbers: seq<nat>, next: nat) {
    && (forall i, j :: 0 <= i < j < |numbers| ==> numbers[i] != numbers[j])
    && (forall i :: 0 <= i < |numbers| ==> numbers[i] < next)
    && (forall l, f, i :: At(v, l, f) && 0 <= i < |numbers| ==> f.number != numbers[i])
  }

  ghost predicate Inv(st: State) {
    && LevelOrder(st.current) && Ordered(st.current)
    && (forall l, f :: At(st.current, l, f) ==> f.number < st.nextFileNumber)
    && LayersAged(st) && SnapshotsOrdered(st)
    && st.All() <= st.history && UniqueVersions(st.history)
    && st.lastSequence < MAX_SEQUENCE
    && (forall e :: e in st.history ==> e.key.seqno <= st.lastSequence)
    && (st.job.Some? ==> JobSafe(st.current, st.job.value) && st.job.value.oldest <= st.OldestSnapshot())
    && (st.job.Some? ==> NumbersReserved(st.current, st.job.value.numbers, st.nextFileNumber))
  }

  // ----- each step keeps the invariant

  lemma WellFormedFromOrder(v: Version)
    requires LevelOrder(v) && Ordered(v)
    ensures WellFormed(v)
  {
    forall l, f | 0 <= l < NUM_LEVELS && f in v[l]
      ensures f.Valid()
    {
      assert At(v, l, f);
    }
    forall l, i, j | 1 <= l < NUM_LEVELS && 0 <= i < j < |v[l]|
      ensures Less(v[l][i].largest, v[l][j].smallest)
    {
      var f, g := v[l][i], v[l][j];
      assert At(v, l, f) && At(v, l, g);
      NonEmptyRange(f);
      NonEmptyRange(g);
      assert BySmallest(v[l]);
    }
  }

  lemma LevelListed(v: Version, level: nat)
    requires LevelOrder(v) && Ordered(v) && level < NUM_LEVELS
    ensures Listed(level, v[level])
  {
    WellFormedFromOrder(v);
    assert BySmallest(v[level]);
  }

  lemma WriteKeepsInv(st: State, st': State, es: set<Entry>)
    requires Inv(st) && Write(st, st', es)
    ensures Inv(st')
  {
  }

  lemma SwitchKeepsInv(st: State, st': State)
    requires Inv(st) && SwitchMemtable(st, st')
    ensures Inv(st')
  {
  }

  lemma ReleaseKeepsInv(st: State, st': State, i: nat)
    requires Inv(st) && ReleaseSnapshot(st, st', i)
    ensures Inv(st') && st.OldestSnapshot() <= st'.OldestSnapshot()
  {
    forall a, b | 0 <= a < b < |st'.snapshots|
      ensures st'.snapshots[a] <= st'.snapshots[b]
    {
      assert st'.snapshots[a] == st.snapshots[if a < i then a else a + 1];
      assert st'.snapshots[b] == st.snapshots[if b < i then b else b + 1];
    }
    assert st'.snapshots != [] ==> st'.snapshots[0] == st.snapshots[if i == 0 then 1 else 0];
  }

  lemma CoveringFile(fs: set<FileMeta>, f: FileMeta, g: FileMeta, k: UserKey) returns (h: FileMeta)
    requires GapFree(fs) && f in fs && g in fs && f.smallest.user <= k <= g.largest.user
    ensures h in fs && h.CoversUser(k)
  {
    assert Covered(fs, k);
    h :| h in fs && h.CoversUser(k);
  }

  lemma FlushToOneSide(v: Version, j: Job, m: nat, h: FileMeta)
    requires Shape(v) && h.Valid() && MayFlushTo(v, h, m) && JobSafe(v, j) && m == j.level + 1
    ensures AllBefore(h, j.Inputs()) || AllAfter(h, j.Inputs())
  {
    NonEmptyRange(h);
    forall f | f in j.Inputs()
      ensures f.Valid() && !UserOverlap(f, h)
    {
      if f in j.in0 { assert At(v, j.level, f); } else { assert At(v, j.level + 1, f); }
    }
    if f, g :| f in j.Inputs() && g in j.Inputs() && !Before(h, f) && !Before(g, h) {
      NonEmptyRange(f);
      NonEmptyRange(g);
      var c := CoveringFile(j.Inputs(), f, g, h.smallest.user);
      assert false;
    }
  }

  /** A flush never lands inside the range of a running compaction. */
  lemma FlushKeepsJob(v: Version, v': Version, j: Job, m: nat, h: FileMeta)
    requires LevelOrder(v) && h.Valid() && NewestFile(v, h) && MayFlushTo(v, h, m)
    requires Added(v, v', m, h) && JobSafe(v, j)
    ensures JobSafe(v', j)
  {
    if m == j.level + 1 {
      FlushToOneSide(v, j, m, h);
    }
    if m >= j.level + 1 {
      forall f | f in j.Inputs()
        ensures !UserOverlap(f, h) && forall e, x :: e in f.entries && x in h.entries ==> e.key.user != x.key.user
      {
        if f in j.in0 { assert At(v, j.level, f); } else { assert At(v, j.level + 1, f); }
        NoSharedKeys(f, h);
      }
    }
    assert Separated(v', j.level, j.in0, j.in1);
  }

  lemma StoredAfterAdd(v: Version, v': Version, m: nat, h: FileMeta)
    requires Added(v, v', m, h)
    ensures StoredEntries(v') == StoredEntries(v) + Elements(h.entries)
  {
    forall e | e in StoredEntries(v')
      ensures e in StoredEntries(v) + Elements(h.entries)
    {
      var l, f :| 0 <= l < |v'| && f in v'[l] && e in f.entries;
      assert At(v', l, f);
      if At(v, l, f) { Stored(v, l, f, e); }
    }
    forall e | e in StoredEntries(v)
      ensures e in StoredEntries(v')
    {
      var l, f :| 0 <= l < |v| && f in v[l] && e in f.entries;
      assert At(v, l, f);
      Stored(v', l, f, e);
    }
    assert At(v', m, h);
    forall e | e in h.entries
      ensures e in StoredEntries(v')
    {
      Stored(v', m, h, e);
    }
  }

  lemma ImmutableIsNewest(st: State, h: FileMeta)
    requires Inv(st) && Elements(h.entries) == st.imm && st.nextFileNumber <= h.number
    ensures NewestFile(st.current, h)
  {
    forall l, f, e, x | At(st.current, l, f) && e in h.entries && x in f.entries
      ensures e.key.seqno > x.key.seqno
    {
      Stored(st.current, l, f, x);
      assert e in st.imm;
    }
  }

  lemma FlushKeepsInv(st: State, st': State, m: nat, h: FileMeta)
    requires Inv(st) && Flush(st, st', m, h)
    ensures Inv(st') && st'.All() == st.All()
  {
    ImmutableIsNewest(st, h);
    FlushKeepsOrder(st.current, st'.current, m, h);
    StoredAfterAdd(st.current, st'.current, m, h);
    if st.job.Some? {
      FlushKeepsJob(st.current, st'.current, st.job.value, m, h);
    }
  }

  lemma StoredAfterReplace(v: Version, v': Version, level: nat, in0: set<FileMeta>, in1: set<FileMeta>, outs: set<FileMeta>)
    requires Replaced(v, v', level, in0, in1, outs) && Outputs(v, in0, in1, outs) && level + 1 < |v|
    requires forall f :: f in in0 ==> At(v, level, f)
    requires forall f :: f in in1 ==> At(v, level + 1, f)
    ensures StoredEntries(v') <= StoredEntries(v)
  {
    forall e | e in StoredEntries(v')
      ensures e in StoredEntries(v)
    {
      var l, f :| 0 <= l < |v'| && f in v'[l] && e in f.entries;
      assert At(v', l, f);
      if At(v, l, f) {
        Stored(v, l, f, e);
      } else {
        var g := OutputOf(in0, in1, f, e);
        Stored(v, if g in in0 then level else level + 1, g, e);
      }
    }
  }

  /** What the compaction loop makes of the inputs' entries can replace them: valid disjoint
      files with entries of the inputs only, under numbers no file of the version has. */
  lemma LoopGivesOutputs(v: Version, in0: set<FileMeta>, in1: set<FileMeta>, input: seq<Entry>, oldest: nat,
                         base: UserKey -> bool, outputs: seq<FileMeta>, numbers: seq<nat>, next: nat)
    requires Elements(input) == EntriesOf(in0 + in1) && Compacted(outputs, numbers, input, oldest, base)
    requires NumbersReserved(v, numbers, next)
    ensures Outputs(v, in0, in1, FileSet(outputs))
    ensures forall i, j :: 0 <= i < j < |outputs| ==> outputs[i].number != outputs[j].number
    ensures forall l, f, o :: At(v, l, f) && o in outputs ==> f.number != o.number
  {
    KeptSubset(input, oldest, base);
    forall o, e | o in outputs && e in o.entries
      ensures e in EntriesOf(in0 + in1)
    {
      assert e in EntriesOf(FileSet(outputs));
    }
    forall o, p | o in outputs && p in outputs && o != p
      ensures (Before(o, p) || Before(p, o)) && o.number != p.number
    {
      var i :| 0 <= i < |outputs| && outputs[i] == o;
      var k :| 0 <= k < |outputs| && outputs[k] == p;
      assert numbers[i] != numbers[k];
    }
  }

  lemma FinishKeepsInv(st: State, st': State, input: seq<Entry>, outputs: seq<FileMeta>)
    requires Inv(st) && FinishCompaction(st, st', input, outputs)
    ensures Inv(st')
  {
    var j, outs := st.job.value, FileSet(outputs);
    LoopGivesOutputs(st.current, j.in0, j.in1, input, j.oldest, BaseOf(j.inputVersion, j.level), outputs, j.numbers, st.nextFileNumber);
    ReplaceKeepsOrder(st.current, st'.current, j.level, j.in0, j.in1, outs);
    StoredAfterReplace(st.current, st'.current, j.level, j.in0, j.in1, outs);
    assert st'.All() <= st.All();
  }

  lemma LeftBehindIsNewer(v: Version, level: nat, in0: set<FileMeta>, in1: set<FileMeta>, f: FileMeta, g: FileMeta)
    requires LevelOrder(v) && UniqueVersions(StoredEntries(v)) && Picked(v, level, in0, in1)
    requires f in in0 && At(v, level, g) && g !in in0
    ensures Newer(g, f)
  {
    assert At(v, level, f);
    if level == 0 {
      NoSharedKeys(f, g);
    } else {
      forall e, x | e in g.entries && x in f.entries && e.key.user == x.key.user
        ensures e.key.seqno > x.key.seqno
      {
        EntryInRange(g, e);
        EntryInRange(f, x);
        assert Before(g, f) || Before(f, g);
        Stored(v, level, g, e);
        Stored(v, level, f, x);
        assert Less(e.key, x.key);
      }
    }
  }

  /** What matters about an input f seen from a file g that does not meet the range of in0. */
  ghost predicate BesideInputs(f: FileMeta, g: FileMeta, in0: set<FileMeta>) {
    && f.Valid() && g.Valid() && (forall a :: a in in0 ==> a.Valid())
    && !MeetsRange(g, in0)
    && (f in in0 || (MeetsRange(f, in0) && (Before(f, g) || Before(g, f))))
  }

  lemma InputBeside(v: Version, level: nat, in0: set<FileMeta>, in1: set<FileMeta>, g: FileMeta, f: FileMeta)
    requires LevelOrder(v) && Picked(v, level, in0, in1)
    requires At(v, level + 1, g) && g !in in1 && f in in0 + in1
    ensures BesideInputs(f, g, in0)
  {
    forall a | a in in0
      ensures a.Valid()
    {
      assert At(v, level, a);
    }
    if f in in1 {
      assert At(v, level + 1, f);
    }
  }

  lemma BeforeInput(in0: set<FileMeta>, g: FileMeta, a: FileMeta, f: FileMeta)
    requires BesideInputs(f, g, in0) && a in in0 && g.largest.user < a.smallest.user
    ensures Before(g, f) && (f in in0 ==> !UserOverlap(f, g))
  {
    NonEmptyRange(a);
    NonEmptyRange(g);
    NonEmptyRange(f);
  }

  lemma AfterInput(in0: set<FileMeta>, g: FileMeta, a: FileMeta, f: FileMeta)
    requires BesideInputs(f, g, in0) && a in in0 && a.largest.user < g.smallest.user
    ensures Before(f, g) && (f in in0 ==> !UserOverlap(f, g))
  {
    NonEmptyRange(a);
    NonEmptyRange(g);
    NonEmptyRange(f);
  }

  lemma LeftBehindToOneSide(v: Version, level: nat, in0: set<FileMeta>, in1: set<FileMeta>, g: FileMeta)
    requires LevelOrder(v) && Picked(v, level, in0, in1)
    requires At(v, level + 1, g) && g !in in1
    ensures AllBefore(g, in0 + in1) || AllAfter(g, in0 + in1)
    ensures forall f :: f in in0 ==> !UserOverlap(f, g)
  {
    var a :| a in in0;
    assert At(v, level, a) && !MeetsRange(g, in0);
    NonEmptyRange(a);
    if g.largest.user < a.smallest.user {
      forall f | f in in0 + in1
        ensures Before(g, f) && (f in in0 ==> !UserOverlap(f, g))
      {
        InputBeside(v, level, in0, in1, g, f);
        BeforeInput(in0, g, a, f);
      }
    } else {
      assert a.largest.user < g.smallest.user;
      forall f | f in in0 + in1
        ensures Before(f, g) && (f in in0 ==> !UserOverlap(f, g))
      {
        InputBeside(v, level, in0, in1, g, f);
        AfterInput(in0, g, a, f);
      }
    }
  }

  lemma PickedIsSeparated(v: Version, level: nat, in0: set<FileMeta>, in1: set<FileMeta>)
    requires LevelOrder(v) && UniqueVersions(StoredEntries(v)) && Picked(v, level, in0, in1)
    ensures Separated(v, level, in0, in1)
    ensures forall f, g :: f in in0 && At(v, level + 1, g) && g !in in1 ==> !UserOverlap(f, g)
  {
    forall f, g | f in in0 && At(v, level, g) && g !in in0
      ensures Newer(g, f)
    {
      LeftBehindIsNewer(v, level, in0, in1, f, g);
    }
    forall g | At(v, level + 1, g) && g !in in1
      ensures AllBefore(g, in0 + in1) || AllAfter(g, in0 + in1)
      ensures forall f :: f in in0 ==> !UserOverlap(f, g)
    {
      LeftBehindToOneSide(v, level, in0, in1, g);
    }
  }

  lemma DeeperKeysKnown(v: Version, j: Job)
    requires Shape(v) && j.inputVersion == v
    ensures forall f, l, g :: f in j.Inputs() && l >= j.level + 2 && At(v, l, g) ==> OnlyDeeperKeys(j, f, g)
  {
    forall f, l, g, e, x | f in j.Inputs() && l >= j.level + 2 && At(v, l, g)
        && e in f.entries && x in g.entries && e.key.user == x.key.user
      ensures !BaseLevelFor(v, j.level, e.key.user)
    {
      EntryInRange(g, x);
      var i :| 0 <= i < |v[l]| && v[l][i] == g;
    }
  }

  /** Files picked for a compaction can be replaced, whatever is flushed in the meantime. */
  lemma PickedIsSafe(v: Version, level: nat, in0: set<FileMeta>, in1: set<FileMeta>, oldest: nat)
    requires LevelOrder(v) && Ordered(v) && UniqueVersions(StoredEntries(v)) && Picked(v, level, in0, in1)
    ensures JobSafe(v, Job(level, in0, in1, oldest, v, []))
  {
    hide WellFormed, Ordered, Separated, StoredEntries, OnlyDeeperKeys, Newer, DisjointLevels, AgedLevelZero, DistinctNumbers;
    WellFormedFromOrder(v);
    PickedIsSeparated(v, level, in0, in1);
    DeeperKeysKnown(v, Job(level, in0, in1, oldest, v, []));
  }

  lemma StoredUnique(st: State)
    requires st.All() <= st.history && UniqueVersions(st.history)
    ensures UniqueVersions(StoredEntries(st.current))
  {
  }

  lemma BeginKeepsInv(st: State, st': State, level: nat, in0: set<FileMeta>, in1: set<FileMeta>)
    requires Inv(st) && BeginCompaction(st, st', level, in0, in1)
    ensures Inv(st')
  {
    hide LevelOrder, Picked, JobSafe, StoredEntries;
    StoredUnique(st);
    PickedIsSafe(st.current, level, in0, in1, st.OldestSnapshot());
  }

  lemma TakeNumberKeepsInv(st: State, st': State, n: nat)
    requires Inv(st) && TakeNumber(st, st', n)
    ensures Inv(st')
  {
    hide LevelOrder, StoredEntries, GapFree, Separated;
    assert JobSafe(st'.current, st'.job.value);
  }

  /** A file moved down is its own output. */
  lemma MovedFile(v: Version, v': Version, level: nat, f: FileMeta)
    requires LevelOrder(v) && Picked(v, level, {f}, {}) && Replaced(v, v', level, {f}, {}, {f})
    ensures Outputs(v, {f}, {}, {f}) && StoredEntries(v') == StoredEntries(v)
  {
    hide Newer, GapFree, DisjointLevels, AgedLevelZero, DeeperIsOlder;
    assert At(v, level, f);
    StoredAfterReplace(v, v', level, {f}, {}, {f});
    forall e | e in StoredEntries(v)
      ensures e in StoredEntries(v')
    {
      var l, g :| 0 <= l < |v| && g in v[l] && e in g.entries;
      assert At(v, l, g);
      Stored(v', if g == f && l == level then level + 1 else l, g, e);
    }
  }

  lemma PickedLevels(v: Version, level: nat, in0: set<FileMeta>, in1: set<FileMeta>, oldest: nat)
    requires JobSafe(v, Job(level, in0, in1, oldest, v, []))
    ensures Separated(v, level, in0, in1)
  {
  }

  lemma MovedNumbers(v: Version, v': Version, level: nat, f: FileMeta)
    requires Picked(v, level, {f}, {}) && Replaced(v, v', level, {f}, {}, {f})
    ensures forall l, g :: At(v', l, g) ==> exists m :: At(v, m, g)
  {
    assert At(v, level, f);
  }

  lemma MoveKeepsInv(st: State, st': State, level: nat, f: FileMeta)
    requires Inv(st) && TrivialMove(st, st', level, f)
    ensures Inv(st') && st'.All() == st.All()
  {
    hide LevelOrder, Picked, Replaced, Outputs, JobSafe, Separated, StoredEntries;
    PickedIsSafe(st.current, level, {f}, {}, 0);
    MovedFile(st.current, st'.current, level, f);
    PickedLevels(st.current, level, {f}, {}, 0);
    ReplaceKeepsOrder(st.current, st'.current, level, {f}, {}, {f});
    MovedNumbers(st.current, st'.current, level, f);
  }

  lemma ClientKeepsInv(st: State, st': State)
    requires Inv(st) && ClientStep(st, st')
    ensures Inv(st')
  {
    if es :| Write(st, st', es) {
      WriteKeepsInv(st, st', es);
    } else if SwitchMemtable(st, st') {
      SwitchKeepsInv(st, st');
    } else if i :| ReleaseSnapshot(st, st', i) {
      ReleaseKeepsInv(st, st', i);
    }
  }

  lemma BackgroundKeepsInv(st: State, st': State)
    requires Inv(st) && BackgroundStep(st, st')
    ensures Inv(st')
  {
    if m, h :| Flush(st, st', m, h) {
      FlushKeepsInv(st, st', m, h);
    } else if level, f :| TrivialMove(st, st', level, f) {
      MoveKeepsInv(st, st', level, f);
    } else if level, in0, in1 :| BeginCompaction(st, st', level, in0, in1) {
      BeginKeepsInv(st, st', level, in0, in1);
    } else if n :| TakeNumber(st, st', n) {
      TakeNumberKeepsInv(st, st', n);
    } else if input, outputs :| FinishCompaction(st, st', input, outputs) {
      FinishKeepsInv(st, st', input, outputs);
    }
  }
}
