/** What readers see along a run: which runs never lose or resurrect a value. */
module RunReads {
  import opened Keys
  import opened Files
  import opened Levels
  import opened Compactions
  import opened Runs

  /** Every snapshot still in use reads what was written. */
  ghost predicate ReadsRight(st: State) {
    SameReads(st.All(), st.history, st.OldestSnapshot())
  }

  /** A running compaction leaves no file behind that continues a user key of its inputs. */
  ghost predicate JobUnsplit(st: State) {
    st.job.Some? ==> NoBoundarySplit(st.current, st.job.value.level, st.job.value.in1)
  }

  // ----- clients

  lemma VisibleSame(a: set<Entry>, b: set<Entry>, k: UserKey, s: nat)
    requires UniqueVersions(a) && UniqueVersions(b)
    requires forall e: Entry :: e.key.user == k && e.key.seqno <= s ==> (e in a <==> e in b)
    ensures Visible(a, k, s) == Visible(b, k, s)
  {
    if e :| Newest(a, k, s, e) {
      assert Newest(b, k, s, e);
      VisibleIsNewest(a, k, s, e);
      VisibleIsNewest(b, k, s, e);
    } else {
      forall x | x in b && x.key.user == k
        ensures x.key.seqno > s
      {
        if x.key.seqno <= s { var e := NewestExists(a, k, s, x); }
      }
      VisibleNone(b, k, s);
    }
  }

  lemma NewWriteVisible(a: set<Entry>, h: set<Entry>, es: set<Entry>, last: nat, k: UserKey, s: nat)
    requires a <= h && UniqueVersions(h + es)
    requires forall e :: e in h ==> e.key.seqno <= last
    requires forall e :: e in es ==> e.key.seqno > last
    requires Visible(a, k, s) == Visible(h, k, s)
    ensures Visible(a + es, k, s) == Visible(h + es, k, s)
  {
    if x :| x in es && x.key.user == k && x.key.seqno <= s {
      var e := NewestExists(es, k, s, x);
      assert Newest(a + es, k, s, e) && Newest(h + es, k, s, e);
      VisibleIsNewest(a + es, k, s, e);
      VisibleIsNewest(h + es, k, s, e);
    } else {
      VisibleSame(a, a + es, k, s);
      VisibleSame(h, h + es, k, s);
    }
  }

  lemma ClientKeepsReads(st: State, st': State)
    requires Inv(st) && ReadsRight(st) && ClientStep(st, st')
    ensures ReadsRight(st')
  {
    if es :| Write(st, st', es) {
      assert st'.All() == st.All() + es;
      WriteKeepsInv(st, st', es);
      forall k, s | s >= st'.OldestSnapshot()
        ensures Visible(st'.All(), k, s) == Visible(st'.history, k, s)
      {
        assert Visible(st.All(), k, s) == Visible(st.history, k, s);
        NewWriteVisible(st.All(), st.history, es, st.lastSequence, k, s);
      }
    } else if i :| ReleaseSnapshot(st, st', i) {
      ReleaseKeepsInv(st, st', i);
    } else {
      assert st'.All() == st.All();
    }
  }

  // ----- compactions

  /** The entries of files and memtables that a compaction does not touch. */
  ghost function Outside(st: State, j: Job): set<Entry> {
    st.mem + st.imm + set l, f, e | 0 <= l < |st.current| && f in st.current[l]
      && !(l == j.level && f in j.in0) && !(l == j.level + 1 && f in j.in1) && e in f.entries :: e
  }

  lemma SplitBefore(st: State, j: Job)
    requires forall e :: e in EntriesOf(j.Inputs()) ==> e in StoredEntries(st.current)
    ensures st.All() == EntriesOf(j.Inputs()) + Outside(st, j)
  {
    forall e | e in StoredEntries(st.current)
      ensures e in EntriesOf(j.Inputs()) + Outside(st, j)
    {
      var l, f :| 0 <= l < |st.current| && f in st.current[l] && e in f.entries;
    }
  }

  lemma SplitAfter(st: State, st': State, input: seq<Entry>, outputs: seq<FileMeta>)
    requires FinishCompaction(st, st', input, outputs) && st.job.value.level + 1 < |st.current|
    ensures st'.All() == EntriesOf(FileSet(outputs)) + Outside(st, st.job.value)
  {
    var j := st.job.value;
    forall e | e in StoredEntries(st'.current)
      ensures e in EntriesOf(FileSet(outputs)) + Outside(st, j)
    {
      var l, f :| 0 <= l < |st'.current| && f in st'.current[l] && e in f.entries;
      assert At(st'.current, l, f);
      if f !in FileSet(outputs) { assert At(st.current, l, f); }
    }
    forall l, f, e | 0 <= l < |st.current| && f in st.current[l]
        && !(l == j.level && f in j.in0) && !(l == j.level + 1 && f in j.in1) && e in f.entries
      ensures e in StoredEntries(st'.current)
    {
      assert At(st.current, l, f);
      Stored(st'.current, l, f, e);
    }
    forall f, e | f in FileSet(outputs) && e in f.entries
      ensures e in StoredEntries(st'.current)
    {
      assert At(st'.current, j.level + 1, f);
      Stored(st'.current, j.level + 1, f, e);
    }
  }

  lemma SplitStored(st: State, st': State, input: seq<Entry>, outputs: seq<FileMeta>)
    requires Inv(st) && FinishCompaction(st, st', input, outputs)
    ensures st.All() == Elements(input) + Outside(st, st.job.value)
    ensures st'.All() == EntriesOf(FileSet(outputs)) + Outside(st, st.job.value)
  {
    var j := st.job.value;
    forall e | e in EntriesOf(j.Inputs())
      ensures e in StoredEntries(st.current)
    {
      var f :| f in j.Inputs() && e in f.entries;
      Stored(st.current, if f in j.in0 then j.level else j.level + 1, f, e);
    }
    SplitBefore(st, j);
    SplitAfter(st, st', input, outputs);
  }

  /** Installing a compaction keeps every read at or above its oldest snapshot if and only if
      no tombstone it drops was shielding an older value that stays in the store. */
  lemma FinishReadsIff(st: State, st': State, input: seq<Entry>, outputs: seq<FileMeta>)
    requires Inv(st) && FinishCompaction(st, st', input, outputs)
    ensures var j := st.job.value;
      SameReads(st'.All(), st.All(), j.oldest)
      <==> NothingShielded(input, Outside(st, j), j.oldest, BaseOf(j.inputVersion, j.level))
  {
    var j := st.job.value;
    SplitStored(st, st', input, outputs);
    assert UniqueVersions(st.All());
    CompactionPreservesReads(input, Outside(st, j), j.oldest, BaseOf(j.inputVersion, j.level));
  }

  /** An entry outside the compaction that is older than an input entry of its key lies at a
      deeper level, or in a file that continues the key at the next level. */
  lemma OlderOutside(st: State, j: Job, f: FileMeta, e: Entry, l: int, g: FileMeta, x: Entry)
    requires Inv(st) && st.job == Some(j)
    requires f in j.Inputs() && e in f.entries
    requires At(st.current, l, g) && !(l == j.level && g in j.in0) && !(l == j.level + 1 && g in j.in1) && x in g.entries
    requires x.key.user == e.key.user && x.key.seqno < e.key.seqno
    ensures l >= j.level + 2 || (l == j.level + 1 && f in j.in1 && Follows(f, g))
  {
    hide LayersAged, SnapshotsOrdered, NumbersReserved, WellFormed, Ordered;
    hide StoredEntries, BaseLevelFor, GapFree, OnlyDeeperKeys, AgedLevelZero, DistinctNumbers, StrictlySorted;
    var v := st.current;
    if f in j.in0 { assert At(v, j.level, f); } else { assert At(v, j.level + 1, f); }
    assert l <= j.level ==> Newer(g, f);
    EntryInRange(f, e);
    EntryInRange(g, x);
    assert l == j.level + 1 ==> Before(g, f) || Before(f, g);
  }

  lemma OutsideFile(st: State, j: Job, x: Entry) returns (l: int, g: FileMeta)
    requires x in Outside(st, j) && x !in st.mem + st.imm
    ensures At(st.current, l, g) && !(l == j.level && g in j.in0) && !(l == j.level + 1 && g in j.in1) && x in g.entries
  {
    l, g :| 0 <= l < |st.current| && g in st.current[l] && !(l == j.level && g in j.in0)
      && !(l == j.level + 1 && g in j.in1) && x in g.entries;
  }

  /** With no boundary split, an older outside entry of an input's key is never at the next
      level, and below it only for keys the compaction knows to be there. */
  lemma OlderIsKnown(st: State, j: Job, e: Entry, x: Entry)
    requires Inv(st) && JobUnsplit(st) && st.job == Some(j)
    requires e in EntriesOf(j.Inputs()) && x in Outside(st, j)
    requires x.key.user == e.key.user && x.key.seqno < e.key.seqno
    ensures !BaseLevelFor(j.inputVersion, j.level, e.key.user)
  {
    hide LevelOrder, GapFree, WellFormed, SnapshotsOrdered, NumbersReserved, BaseLevelFor;
    var f :| f in j.Inputs() && e in f.entries;
    Stored(st.current, if f in j.in0 then j.level else j.level + 1, f, e);
    var l, g := OutsideFile(st, j, x);
    OlderOutside(st, j, f, e, l, g, x);
    assert l >= j.level + 2 ==> OnlyDeeperKeys(j, f, g);
  }

  lemma UnsplitShieldsNothing(st: State, input: seq<Entry>)
    requires Inv(st) && JobUnsplit(st) && st.job.Some?
    requires Elements(input) == EntriesOf(st.job.value.Inputs())
    ensures var j := st.job.value; NothingShielded(input, Outside(st, j), j.oldest, BaseOf(j.inputVersion, j.level))
  {
    var j := st.job.value;
    var base := BaseOf(j.inputVersion, j.level);
    forall i: nat | DropsTombstone(input, i, j.oldest, base)
      ensures !Shields(input[i], Outside(st, j), j.oldest)
    {
      var e := input[i];
      assert e in Elements(input);
      forall x | x in Outside(st, j) && x.key.user == e.key.user
        ensures x.key.seqno >= e.key.seqno
      {
        if x.key.seqno < e.key.seqno { OlderIsKnown(st, j, e, x); }
      }
    }
  }

  lemma BackgroundKeepsReads(st: State, st': State)
    requires Inv(st) && ReadsRight(st) && JobUnsplit(st) && BackgroundStep(st, st')
    ensures ReadsRight(st')
  {
    if m, h :| Flush(st, st', m, h) {
      FlushKeepsInv(st, st', m, h);
    } else if level, f :| TrivialMove(st, st', level, f) {
      MoveKeepsInv(st, st', level, f);
    } else if input, outputs :| FinishCompaction(st, st', input, outputs) {
      FinishReadsIff(st, st', input, outputs);
      UnsplitShieldsNothing(st, input);
    }
  }

  // ----- whole runs

  ghost predicate GuardedNext(st: State, st': State) {
    Next(st, st') && (st.job == None ==> JobUnsplit(st'))
  }

  ghost predicate Run(run: seq<State>) {
    |run| > 0 && Init(run[0]) && forall i :: 0 <= i < |run| - 1 ==> Next(run[i], run[i+1])
  }

  ghost predicate GuardedRun(run: seq<State>) {
    |run| > 0 && Init(run[0]) && forall i :: 0 <= i < |run| - 1 ==> GuardedNext(run[i], run[i+1])
  }

  lemma FlushKeepsUnsplit(st: State, st': State, m: nat, h: FileMeta)
    requires Inv(st) && JobUnsplit(st) && st.job.Some? && Flush(st, st', m, h)
    ensures JobUnsplit(st')
  {
    var j := st.job.value;
    forall f, g | f in j.in1 && At(st'.current, j.level + 1, g) && Follows(f, g)
      ensures g in j.in1
    {
      if !At(st.current, j.level + 1, g) {
        assert At(st.current, j.level + 1, f);
        NonEmptyRange(f);
        NonEmptyRange(h);
      }
    }
  }

  lemma NextKeepsUnsplit(st: State, st': State)
    requires Inv(st) && JobUnsplit(st) && GuardedNext(st, st')
    ensures JobUnsplit(st')
  {
    hide LevelOrder, JobSafe, LayersAged, SnapshotsOrdered, NumbersReserved, StoredEntries, NoBoundarySplit, Replaced, Picked, Compacted;
    if st.job.Some? && st'.job.Some? && BackgroundStep(st, st') {
      if m, h :| Flush(st, st', m, h) {
        FlushKeepsUnsplit(st, st', m, h);
      }
    }
  }

  /** In every run, whatever is picked and however flushes interleave, the levels stay in order. */
  lemma {:induction false} EveryRunKeepsOrder(run: seq<State>, n: nat)
    requires Run(run) && n < |run|
    ensures Inv(run[n])
  {
    if n > 0 {
      EveryRunKeepsOrder(run, n - 1);
      var st, st' := run[n-1], run[n-1+1];
      if ClientStep(st, st') { ClientKeepsInv(st, st'); } else { BackgroundKeepsInv(st, st'); }
    }
  }

  /** No snapshot in use is older than the oldest. */
  lemma LiveNotOlder(st: State, s: nat)
    requires Inv(st) && (s in st.snapshots || s >= st.lastSequence)
    ensures s >= st.OldestSnapshot()
    ensures st.OldestSnapshot() in st.snapshots || (st.snapshots == [] && st.OldestSnapshot() == st.lastSequence)
  {
  }

  lemma {:induction false} GuardedRunKeepsReads(run: seq<State>, n: nat)
    requires GuardedRun(run) && n < |run|
    ensures Inv(run[n]) && JobUnsplit(run[n]) && ReadsRight(run[n])
  {
    if n > 0 {
      GuardedRunKeepsReads(run, n - 1);
      var st, st' := run[n-1], run[n-1+1];
      NextKeepsUnsplit(st, st');
      if ClientStep(st, st') {
        ClientKeepsInv(st, st');
        ClientKeepsReads(st, st');
      } else {
        BackgroundKeepsInv(st, st');
        BackgroundKeepsReads(st, st');
      }
    }
  }

  /** In every run whose compactions split no user key at the next level, every live snapshot
      reads exactly what was written. */
  lemma {:induction false} GuardedRunReadsRight(run: seq<State>, n: nat)
    requires GuardedRun(run) && n < |run|
    ensures Inv(run[n]) && JobUnsplit(run[n]) && ReadsRight(run[n])
    ensures forall k: UserKey, s: nat :: s in run[n].snapshots || s == run[n].lastSequence ==>
      Visible(run[n].All(), k, s) == Visible(run[n].history, k, s)
  {
    hide Inv, Visible, GuardedRun, JobUnsplit;
    GuardedRunKeepsReads(run, n);
    var st := run[n];
    forall k: UserKey, s: nat | s in st.snapshots || s == st.lastSequence
      ensures Visible(st.All(), k, s) == Visible(st.history, k, s)
    {
      LiveNotOlder(st, s);
    }
  }
}
