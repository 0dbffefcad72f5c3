/** One compaction: the merged input is filtered and cut into output files. */
module Compactions {
  import opened Keys
  import opened Files
  import opened InternalIterators

  /** True when no file below the compaction's output level can hold k. */
  predicate BaseLevelFor(v: Version, level: nat, k: UserKey) {
    forall l, i :: level + 2 <= l < |v| && 0 <= i < |v[l]| ==> !v[l][i].CoversUser(k)
  }

  function BaseOf(v: Version, level: nat): UserKey -> bool {
    k => BaseLevelFor(v, level, k)
  }

  /** Rule (A): a newer entry of the same user key is already at or below the
      oldest snapshot, so no reader can reach this one. */
  predicate Hidden(input: seq<Entry>, i: nat, oldest: nat)
    requires i < |input|
  {
    i > 0 && input[i-1].key.user == input[i].key.user && input[i-1].key.seqno <= oldest
  }

  predicate ObsoleteTombstone(e: Entry, oldest: nat, base: UserKey -> bool) {
    e.key.kind.Deletion? && e.key.seqno <= oldest && base(e.key.user)
  }

  predicate Dropped(input: seq<Entry>, i: nat, oldest: nat, base: UserKey -> bool)
    requires i < |input|
  {
    Hidden(input, i, oldest) || ObsoleteTombstone(input[i], oldest, base)
  }

  /** The entries among the first n of the input that a compaction writes out. */
  function Kept(input: seq<Entry>, n: nat, oldest: nat, base: UserKey -> bool): seq<Entry>
    requires n <= |input|
  {
    if n == 0 then []
    else Kept(input, n - 1, oldest, base) + if Dropped(input, n - 1, oldest, base) then [] else [input[n-1]]
  }

  function Flatten(files: seq<FileMeta>): seq<Entry> {
    if files == [] then [] else Flatten(files[..|files|-1]) + files[|files|-1].entries
  }

  // ----- what the filter keeps

  lemma {:induction false} KeptMembers(input: seq<Entry>, n: nat, oldest: nat, base: UserKey -> bool, e: Entry)
    requires n <= |input|
    ensures e in Kept(input, n, oldest, base) <==> exists i :: 0 <= i < n && input[i] == e && !Dropped(input, i, oldest, base)
  {
    if n > 0 {
      KeptMembers(input, n - 1, oldest, base, e);
    }
  }

  lemma {:induction false} KeptSorted(input: seq<Entry>, n: nat, oldest: nat, base: UserKey -> bool)
    requires n <= |input| && StrictlySorted(input)
    ensures StrictlySorted(Kept(input, n, oldest, base))
  {
    if n > 0 {
      KeptSorted(input, n - 1, oldest, base);
      var prev := Kept(input, n - 1, oldest, base);
      forall i | 0 <= i < |prev|
        ensures Less(prev[i].key, input[n-1].key)
      {
        KeptMembers(input, n - 1, oldest, base, prev[i]);
      }
    }
  }

  // ----- compaction preserves reads, exactly when no tombstone was shielding an outside value

  /** The compaction discards tombstone i as obsolete, and i is the newest input entry of
      its key that the oldest snapshot can see. */
  ghost predicate DropsTombstone(input: seq<Entry>, i: nat, oldest: nat, base: UserKey -> bool) {
    i < |input| && !Hidden(input, i, oldest) && ObsoleteTombstone(input[i], oldest, base)
  }

  /** Outside the compaction, the newest entry of the tombstone's key at the oldest snapshot
      is a value older than the tombstone. */
  ghost predicate Shields(tombstone: Entry, outside: set<Entry>, oldest: nat) {
    exists x :: Newest(outside, tombstone.key.user, oldest, x) && x.key.kind.Value? && x.key.seqno < tombstone.key.seqno
  }

  ghost predicate NothingShielded(input: seq<Entry>, outside: set<Entry>, oldest: nat, base: UserKey -> bool) {
    forall i: nat :: DropsTombstone(input, i, oldest, base) ==> !Shields(input[i], outside, oldest)
  }

  ghost predicate SameReads(a: set<Entry>, b: set<Entry>, oldest: nat) {
    forall k, s :: s >= oldest ==> Visible(a, k, s) == Visible(b, k, s)
  }

  lemma KeptSubset(input: seq<Entry>, oldest: nat, base: UserKey -> bool)
    ensures Elements(Kept(input, |input|, oldest, base)) <= Elements(input)
  {
    forall e | e in Kept(input, |input|, oldest, base)
      ensures e in input
    {
      KeptMembers(input, |input|, oldest, base, e);
    }
  }

  lemma NewestUnlessEqual(es: set<Entry>, k: UserKey, s: nat, e: Entry, x: Entry)
    requires UniqueVersions(es) && Newest(es, k, s, e)
    requires x in es && x.key.user == k && x.key.seqno <= s && x != e
    ensures x.key.seqno < e.key.seqno
  {
  }

  lemma NotHidden(input: seq<Entry>, outside: set<Entry>, oldest: nat, s: nat, i: nat)
    requires StrictlySorted(input) && UniqueVersions(Elements(input) + outside) && s >= oldest
    requires i < |input| && Newest(Elements(input) + outside, input[i].key.user, s, input[i])
    ensures !Hidden(input, i, oldest)
  {
    if Hidden(input, i, oldest) {
      assert input[i-1] in Elements(input) + outside;
      assert Less(input[i-1].key, input[i].key);
      NewestUnlessEqual(Elements(input) + outside, input[i].key.user, s, input[i], input[i-1]);
    }
  }

  /** Once an entry at or below the oldest snapshot has been met, every older entry of the
      same key is hidden. */
  lemma OlderHidden(input: seq<Entry>, i: nat, j: nat, oldest: nat)
    requires StrictlySorted(input) && i < j < |input|
    requires input[i].key.user == input[j].key.user && input[i].key.seqno <= oldest
    ensures Hidden(input, j, oldest)
  {
    SortedAges(input, i, j);
    if i < j - 1 { SortedAges(input, i, j - 1); }
  }

  /** No entry older than one at or below the oldest snapshot survives the filter. */
  lemma KeptBelow(input: seq<Entry>, oldest: nat, base: UserKey -> bool, i: nat, x: Entry)
    requires StrictlySorted(input) && i < |input| && input[i].key.seqno <= oldest
    requires x.key.user == input[i].key.user && x.key.seqno < input[i].key.seqno
    ensures x !in Kept(input, |input|, oldest, base)
  {
    KeptMembers(input, |input|, oldest, base, x);
    if x in Kept(input, |input|, oldest, base) {
      var j :| 0 <= j < |input| && input[j] == x && !Dropped(input, j, oldest, base);
      if j < i { SortedAges(input, j, i); }
      OlderHidden(input, i, j, oldest);
    }
  }

  /** If the newest entry itself was dropped, it is an obsolete tombstone, and nothing
      older becomes visible in its place. */
  lemma NewestWasDropped(input: seq<Entry>, outside: set<Entry>, oldest: nat, base: UserKey -> bool,
                         k: UserKey, s: nat, e: Entry)
    requires StrictlySorted(input) && UniqueVersions(Elements(input) + outside)
    requires NothingShielded(input, outside, oldest, base) && s >= oldest
    requires Newest(Elements(input) + outside, k, s, e)
    requires e !in Elements(Kept(input, |input|, oldest, base)) + outside
    ensures e.key.kind.Deletion?
    ensures Visible(Elements(Kept(input, |input|, oldest, base)) + outside, k, s) == None
  {
    var kept := Kept(input, |input|, oldest, base);
    var after, before := Elements(kept) + outside, Elements(input) + outside;
    var i: nat :| i < |input| && input[i] == e;
    KeptMembers(input, |input|, oldest, base, e);
    NotHidden(input, outside, oldest, s, i);
    assert DropsTombstone(input, i, oldest, base);
    KeptSubset(input, oldest, base);
    if x :| Newest(after, k, s, x) {
      VisibleIsNewest(after, k, s, x);
      NewestUnlessEqual(before, k, s, e, x);
      if x in kept {
        KeptBelow(input, oldest, base, i, x);
      }
      assert Newest(outside, k, oldest, x);
      assert !Shields(e, outside, oldest);
    }
  }

  lemma ReadKept(input: seq<Entry>, outside: set<Entry>, oldest: nat, base: UserKey -> bool, k: UserKey, s: nat)
    requires StrictlySorted(input) && UniqueVersions(Elements(input) + outside)
    requires NothingShielded(input, outside, oldest, base) && s >= oldest
    ensures Visible(Elements(Kept(input, |input|, oldest, base)) + outside, k, s)
         == Visible(Elements(input) + outside, k, s)
  {
    var kept := Kept(input, |input|, oldest, base);
    var after, before := Elements(kept) + outside, Elements(input) + outside;
    KeptSubset(input, oldest, base);
    if e :| Newest(before, k, s, e) {
      VisibleIsNewest(before, k, s, e);
      if e in after {
        assert Newest(after, k, s, e);
        VisibleIsNewest(after, k, s, e);
      } else {
        NewestWasDropped(input, outside, oldest, base, k, s, e);
      }
    } else {
      forall x | x in before && x.key.user == k
        ensures x.key.seqno > s
      {
        if x.key.seqno <= s { var e := NewestExists(before, k, s, x); }
      }
      VisibleNone(after, k, s);
    }
  }

  lemma ReadResurrected(input: seq<Entry>, outside: set<Entry>, oldest: nat, base: UserKey -> bool, i: nat)
    requires StrictlySorted(input) && UniqueVersions(Elements(input) + outside)
    requires DropsTombstone(input, i, oldest, base) && Shields(input[i], outside, oldest)
    ensures Visible(Elements(input) + outside, input[i].key.user, oldest) == None
    ensures Visible(Elements(Kept(input, |input|, oldest, base)) + outside, input[i].key.user, oldest).Some?
  {
    var kept := Kept(input, |input|, oldest, base);
    var after, before := Elements(kept) + outside, Elements(input) + outside;
    var e, k := input[i], input[i].key.user;
    var x :| Newest(outside, k, oldest, x) && x.key.kind.Value? && x.key.seqno < e.key.seqno;
    KeptSubset(input, oldest, base);
    forall y | y in input && y.key.user == k && y.key.seqno <= oldest
      ensures y.key.seqno <= e.key.seqno && y !in kept
    {
      forall j | 0 <= j < |input| && input[j] == y
        ensures i <= j && y.key.seqno <= e.key.seqno && Dropped(input, j, oldest, base)
      {
        if j < i { OlderHidden(input, j, i, oldest); assert false; }
        if i < j { OlderHidden(input, i, j, oldest); SortedAges(input, i, j); }
      }
      KeptMembers(input, |input|, oldest, base, y);
    }
    assert Newest(before, k, oldest, e);
    VisibleIsNewest(before, k, oldest, e);
    assert Newest(after, k, oldest, x);
    VisibleIsNewest(after, k, oldest, x);
  }

  /** A compaction keeps every read at or above the oldest snapshot if and only if it drops
      no tombstone that was shielding an older value outside its inputs. */
  lemma CompactionPreservesReads(input: seq<Entry>, outside: set<Entry>, oldest: nat, base: UserKey -> bool)
    requires StrictlySorted(input) && UniqueVersions(Elements(input) + outside)
    ensures SameReads(Elements(Kept(input, |input|, oldest, base)) + outside, Elements(input) + outside, oldest)
       <==> NothingShielded(input, outside, oldest, base)
  {
    var kept := Kept(input, |input|, oldest, base);
    if NothingShielded(input, outside, oldest, base) {
      forall k, s | s >= oldest
        ensures Visible(Elements(kept) + outside, k, s) == Visible(Elements(input) + outside, k, s)
      {
        ReadKept(input, outside, oldest, base, k, s);
      }
    } else {
      var i: nat :| DropsTombstone(input, i, oldest, base) && Shields(input[i], outside, oldest);
      ReadResurrected(input, outside, oldest, base, i);
    }
  }

  // ----- cutting the kept entries into output files

  lemma SortedParts(a: seq<Entry>, b: seq<Entry>)
    requires StrictlySorted(a + b)
    ensures StrictlySorted(a) && StrictlySorted(b)
    ensures forall x, y :: x in a && y in b ==> Less(x.key, y.key)
  {
    var c := a + b;
    forall i, j | 0 <= i < j < |b|
      ensures Less(b[i].key, b[j].key)
    {
      assert Less(c[|a| + i].key, c[|a| + j].key);
    }
    forall i, j | 0 <= i < j < |a|
      ensures Less(a[i].key, a[j].key)
    {
      assert Less(c[i].key, c[j].key);
    }
    forall x, y | x in a && y in b
      ensures Less(x.key, y.key)
    {
      var i :| 0 <= i < |a| && a[i] == x;
      var j :| 0 <= j < |b| && b[j] == y;
      assert Less(c[i].key, c[|a| + j].key);
    }
  }

  /** The record kept for an output file matches what was added to it. */
  ghost predicate Labelled(f: FileMeta) {
    |f.entries| > 0 && f.smallest == f.entries[0].key && f.largest == f.entries[|f.entries|-1].key
  }

  lemma {:induction false} FlattenMembers(files: seq<FileMeta>, f: FileMeta, e: Entry)
    requires f in files && e in f.entries
    ensures e in Flatten(files)
  {
    if f != files[|files|-1] {
      FlattenMembers(files[..|files|-1], f, e);
    }
  }

  lemma {:induction false} OutputsSorted(files: seq<FileMeta>)
    requires forall f :: f in files ==> Labelled(f)
    requires StrictlySorted(Flatten(files))
    ensures ValidFiles(files) && SortedLevel(files)
    ensures EntriesOf(FileSet(files)) == Elements(Flatten(files))
  {
    if files != [] {
      var rest, last := files[..|files|-1], files[|files|-1];
      SortedParts(Flatten(rest), last.entries);
      OutputsSorted(rest);
      forall i | 0 <= i < |rest|
        ensures Less(rest[i].largest, last.smallest)
      {
        assert rest[i] == files[i] && files[i] in files && Labelled(files[i]);
        FlattenMembers(rest, rest[i], rest[i].entries[|rest[i].entries|-1]);
        assert last in files && last.entries[0] in last.entries;
      }
      assert files == rest + [last];
      assert FileSet(files) == FileSet(rest) + {last};
      assert EntriesOf(FileSet(files)) == EntriesOf(FileSet(rest)) + Elements(last.entries);
    }
  }

  lemma StartsNoEarlier(files: seq<FileMeta>, p: nat, i: nat)
    requires ValidFiles(files) && SortedLevel(files) && p <= i < |files|
    ensures files[p].smallest.user <= files[i].smallest.user
  {
    NonEmptyRange(files[p]);
    if p < i {
      assert Less(files[p].largest, files[i].smallest);
    }
  }

  lemma {:induction false} PassedSizes(files: seq<FileMeta>, n: nat)
    requires n <= |files|
    ensures TotalFileSize(files[..n]) <= TotalFileSize(files)
    decreases |files| - n
  {
    if n < |files| {
      PassedSizes(files, n + 1);
      assert files[..n+1][..n] == files[..n];
    } else {
      assert files[..n] == files;
    }
  }

  class Compaction {
    const version: Version
    const level: nat
    const grandparents: seq<FileMeta>
    const maxGrandparentOverlap: nat
    const levelPtrs: array<nat>
    var grandparentIndex: nat
    var seenKey: bool
    var overlappedBytes: nat

    ghost predicate CursorsInRange()
      reads levelPtrs
    {
      && WellFormed(version)
      && level + 1 < NUM_LEVELS
      && levelPtrs.Length == NUM_LEVELS
      && (forall l :: 0 <= l < NUM_LEVELS ==> levelPtrs[l] <= |version[l]|)
    }

    ghost predicate Valid()
      reads this, levelPtrs
    {
      && CursorsInRange() && grandparentIndex <= |grandparents|
      && overlappedBytes <= TotalFileSize(grandparents[..grandparentIndex])
    }

    /** The grandparent files are too small to make the loop cut a file. */
    ghost predicate CutsBySizeOnly()
    {
      TotalFileSize(grandparents) <= maxGrandparentOverlap
    }

    /** Every file a cursor has passed ends before user key k. */
    ghost predicate Behind(k: UserKey)
      reads levelPtrs
      requires CursorsInRange()
    {
      forall l, i :: level + 2 <= l < NUM_LEVELS && 0 <= i < levelPtrs[l] ==> version[l][i].largest.user < k
    }

    constructor (version: Version, level: nat, grandparents: seq<FileMeta>, maxGrandparentOverlap: nat)
      requires WellFormed(version) && level + 1 < NUM_LEVELS
      ensures Valid() && fresh(levelPtrs)
      ensures this.version == version && this.level == level
      ensures this.grandparents == grandparents && this.maxGrandparentOverlap == maxGrandparentOverlap
      ensures forall k :: Behind(k)
    {
      this.version, this.level, this.grandparents := version, level, grandparents;
      this.maxGrandparentOverlap := maxGrandparentOverlap;
      levelPtrs := new nat[NUM_LEVELS](i => 0);
      grandparentIndex, seenKey, overlappedBytes := 0, false, 0;
    }

    /** With nondecreasing keys the cursors answer like a scan of all deeper files. */
    method IsBaseLevelForKey(k: UserKey) returns (base: bool)
      requires Valid() && Behind(k)
      modifies levelPtrs
      ensures Valid() && Behind(k)
      ensures base == BaseLevelFor(version, level, k)
    {
      for l := level + 2 to NUM_LEVELS
        invariant Valid() && Behind(k)
        invariant forall m, i :: level + 2 <= m < l && 0 <= i < |version[m]| ==> !version[m][i].CoversUser(k)
      {
        while levelPtrs[l] < |version[l]|
          invariant Valid() && Behind(k)
          decreases |version[l]| - levelPtrs[l]
        {
          var f := version[l][levelPtrs[l]];
          if k <= f.largest.user {
            if k >= f.smallest.user {
              return false;
            }
            break;
          }
          levelPtrs[l] := levelPtrs[l] + 1;
        }
        forall i | 0 <= i < |version[l]|
          ensures !version[l][i].CoversUser(k)
        {
          var p := levelPtrs[l];
          if p <= i {
            StartsNoEarlier(version[l], p, i);
          }
        }
      }
      return true;
    }

    method IsObsolete(e: Entry, oldest: nat) returns (drop: bool)
      requires Valid() && Behind(e.key.user)
      modifies levelPtrs
      ensures Valid() && Behind(e.key.user)
      ensures drop == ObsoleteTombstone(e, oldest, BaseOf(version, level))
    {
      drop := false;
      if e.key.kind.Deletion? && e.key.seqno <= oldest {
        drop := IsBaseLevelForKey(e.key.user);
      }
    }

    lemma StaysBehind(k: UserKey, k': UserKey)
      requires CursorsInRange() && Behind(k) && k <= k'
      ensures Behind(k')
    {
    }

    /** Cuts the output before key once the grandparent files passed since the last cut,
        not counting those before the first key, exceed the overlap limit. */
    method ShouldStopBefore(key: InternalKey) returns (stop: bool)
      requires Valid()
      modifies this
      ensures Valid() && seenKey
      ensures old(grandparentIndex) <= grandparentIndex
      ensures forall i :: old(grandparentIndex) <= i < grandparentIndex ==> Less(grandparents[i].largest, key)
      ensures grandparentIndex < |grandparents| ==> !Less(grandparents[grandparentIndex].largest, key)
      ensures var passed := TotalFileSize(grandparents[..grandparentIndex]) - TotalFileSize(grandparents[..old(grandparentIndex)]);
              var bytes := old(overlappedBytes) + if old(seenKey) then passed else 0;
              && stop == (bytes > maxGrandparentOverlap)
              && overlappedBytes == if stop then 0 else bytes
      ensures CutsBySizeOnly() ==> !stop
    {
      while grandparentIndex < |grandparents| && Less(grandparents[grandparentIndex].largest, key)
        invariant Valid() && seenKey == old(seenKey)
        invariant old(grandparentIndex) <= grandparentIndex
        invariant forall i :: old(grandparentIndex) <= i < grandparentIndex ==> Less(grandparents[i].largest, key)
        invariant overlappedBytes == old(overlappedBytes) +
          if seenKey then TotalFileSize(grandparents[..grandparentIndex]) - TotalFileSize(grandparents[..old(grandparentIndex)]) else 0
        decreases |grandparents| - grandparentIndex
      {
        if seenKey {
          overlappedBytes := overlappedBytes + grandparents[grandparentIndex].size;
        }
        assert grandparents[..grandparentIndex+1][..grandparentIndex] == grandparents[..grandparentIndex];
        grandparentIndex := grandparentIndex + 1;
      }
      PassedSizes(grandparents, grandparentIndex);
      seenKey := true;
      if overlappedBytes > maxGrandparentOverlap {
        overlappedBytes := 0;
        return true;
      }
      return false;
    }
  }

  /** The table builder of the output file being written. */
  datatype Builder = Closed | Open(number: nat, smallest: InternalKey, largest: InternalKey, entries: seq<Entry>) {
    function Pending(): seq<Entry> {
      if Open? then entries else []
    }
  }

  /** What the compaction has produced so far: finished files and the open builder, under the
      file numbers taken for them, whose contents in order are es. */
  ghost predicate Produced(outputs: seq<FileMeta>, builder: Builder, numbers: seq<nat>, es: seq<Entry>) {
    && Flatten(outputs) + builder.Pending() == es
    && (forall f :: f in outputs ==> Labelled(f))
    && |numbers| == |outputs| + (if builder.Open? then 1 else 0)
    && (forall j :: 0 <= j < |outputs| ==> outputs[j].number == numbers[j])
    && (builder.Open? ==>
          && builder.number == numbers[|outputs|]
          && Labelled(FileMeta(builder.number, 0, builder.smallest, builder.largest, builder.entries)))
  }

  /** outputs hold what the filter keeps of the input, in order, as files of a sorted level
      under the given numbers. */
  ghost predicate Compacted(outputs: seq<FileMeta>, numbers: seq<nat>, input: seq<Entry>, oldest: nat, base: UserKey -> bool) {
    && Flatten(outputs) == Kept(input, |input|, oldest, base)
    && ValidFiles(outputs) && SortedLevel(outputs)
    && EntriesOf(FileSet(outputs)) == Elements(Kept(input, |input|, oldest, base))
    && |numbers| == |outputs| && forall j :: 0 <= j < |outputs| ==> outputs[j].number == numbers[j]
  }

  /** No proper part of es from the front fills a file. */
  ghost predicate NotFullBefore(es: seq<Entry>, fileSize: seq<Entry> -> nat, maxSize: nat) {
    forall n :: 0 < n < |es| ==> fileSize(es[..n]) < maxSize
  }

  /** Files are ended as soon as they are full, the open one is not full, and if only their
      size ends files, all of them are full. */
  ghost predicate CutToSize(outputs: seq<FileMeta>, builder: Builder, fileSize: seq<Entry> -> nat, maxSize: nat, sizeOnly: bool) {
    && (forall f :: f in outputs ==> f.size == fileSize(f.entries) && NotFullBefore(f.entries, fileSize, maxSize))
    && (sizeOnly ==> forall f :: f in outputs ==> f.size >= maxSize)
    && (builder.Open? ==> NotFullBefore(builder.entries, fileSize, maxSize) && fileSize(builder.entries) < maxSize)
  }

  /** The same once the last file is ended too, which need not be full. */
  ghost predicate CutFiles(outputs: seq<FileMeta>, fileSize: seq<Entry> -> nat, maxSize: nat, sizeOnly: bool) {
    && (forall f :: f in outputs ==> f.size == fileSize(f.entries) && NotFullBefore(f.entries, fileSize, maxSize))
    && (sizeOnly ==> forall j :: 0 <= j < |outputs| - 1 ==> outputs[j].size >= maxSize)
  }

  /** The record of the file that a builder has written. */
  function Finished(builder: Builder, fileSize: seq<Entry> -> nat): FileMeta
    requires builder.Open?
  {
    FileMeta(builder.number, fileSize(builder.entries), builder.smallest, builder.largest, builder.entries)
  }

  lemma FileEnded(outputs: seq<FileMeta>, builder: Builder, fileSize: seq<Entry> -> nat, maxSize: nat, sizeOnly: bool)
    requires CutToSize(outputs, Closed, fileSize, maxSize, sizeOnly) && builder.Open?
    requires NotFullBefore(builder.entries, fileSize, maxSize) && (sizeOnly ==> fileSize(builder.entries) >= maxSize)
    ensures CutToSize(outputs + [Finished(builder, fileSize)], Closed, fileSize, maxSize, sizeOnly)
  {
  }

  lemma LastEnded(outputs: seq<FileMeta>, builder: Builder, fileSize: seq<Entry> -> nat, maxSize: nat, sizeOnly: bool)
    requires CutToSize(outputs, builder, fileSize, maxSize, sizeOnly)
    ensures CutFiles(if builder.Open? then outputs + [Finished(builder, fileSize)] else outputs, fileSize, maxSize, sizeOnly)
  {
  }

  lemma BuilderFits(outputs: seq<FileMeta>, builder: Builder, fileSize: seq<Entry> -> nat, maxSize: nat, sizeOnly: bool)
    requires CutToSize(outputs, builder, fileSize, maxSize, sizeOnly)
    ensures CutToSize(outputs, Closed, fileSize, maxSize, sizeOnly)
    ensures builder.Open? ==> NotFullBefore(builder.entries, fileSize, maxSize) && fileSize(builder.entries) < maxSize
    ensures NotFullBefore(builder.Pending(), fileSize, maxSize)
  {
  }

  lemma OpenFits(outputs: seq<FileMeta>, builder: Builder, fileSize: seq<Entry> -> nat, maxSize: nat, sizeOnly: bool)
    requires CutToSize(outputs, Closed, fileSize, maxSize, sizeOnly)
    requires builder.Open? ==> NotFullBefore(builder.entries, fileSize, maxSize) && fileSize(builder.entries) < maxSize
    ensures CutToSize(outputs, builder, fileSize, maxSize, sizeOnly)
  {
  }

  method FinishCompactionOutputFile(builder: Builder, outputs: seq<FileMeta>, fileSize: seq<Entry> -> nat,
                                    ghost numbers: seq<nat>, ghost es: seq<Entry>)
    returns (outputs': seq<FileMeta>)
    requires builder.Open? && Produced(outputs, builder, numbers, es)
    ensures Produced(outputs', Closed, numbers, es)
    ensures outputs' == outputs + [Finished(builder, fileSize)]
  {
    var f := Finished(builder, fileSize);
    outputs' := outputs + [f];
    assert outputs'[..|outputs'|-1] == outputs;
    assert Labelled(f);
  }

  lemma OneMoreFits(es: seq<Entry>, e: Entry, fileSize: seq<Entry> -> nat, maxSize: nat)
    requires NotFullBefore(es, fileSize, maxSize) && (es != [] ==> fileSize(es) < maxSize)
    ensures NotFullBefore(es + [e], fileSize, maxSize)
  {
    forall n | 0 < n < |es + [e]|
      ensures fileSize((es + [e])[..n]) < maxSize
    {
      assert (es + [e])[..n] == es[..n];
      assert n == |es| ==> es[..n] == es;
    }
  }

  /** Appends e to the output, opening a file under the next new number first and closing a
      full one after. */
  method AddToOutput(e: Entry, builder: Builder, outputs: seq<FileMeta>, numbers: seq<nat>, newNumber: nat -> nat,
                     fileSize: seq<Entry> -> nat, maxOutputFileSize: nat, ghost es: seq<Entry>, ghost sizeOnly: bool)
    returns (builder': Builder, outputs': seq<FileMeta>, numbers': seq<nat>)
    requires Produced(outputs, builder, numbers, es) && CutToSize(outputs, builder, fileSize, maxOutputFileSize, sizeOnly)
    ensures Produced(outputs', builder', numbers', es + [e])
    ensures CutToSize(outputs', builder', fileSize, maxOutputFileSize, sizeOnly)
    ensures numbers' == if builder.Closed? then numbers + [newNumber(|numbers|)] else numbers
  {
    hide CutToSize, NotFullBefore;
    BuilderFits(outputs, builder, fileSize, maxOutputFileSize, sizeOnly);
    builder', outputs', numbers' := builder, outputs, numbers;
    if builder'.Closed? {
      builder' := Open(newNumber(|numbers|), e.key, e.key, []);
      numbers' := numbers + [newNumber(|numbers|)];
    }
    var smallest := if |builder'.entries| == 0 then e.key else builder'.smallest;
    builder' := Open(builder'.number, smallest, e.key, builder'.entries + [e]);
    assert Flatten(outputs) + builder'.Pending() == es + [e];
    OneMoreFits(builder.Pending(), e, fileSize, maxOutputFileSize);
    if fileSize(builder'.entries) >= maxOutputFileSize {
      FileEnded(outputs, builder', fileSize, maxOutputFileSize, sizeOnly);
      outputs' := FinishCompactionOutputFile(builder', outputs', fileSize, numbers', es + [e]);
      builder' := Closed;
    }
    OpenFits(outputs', builder', fileSize, maxOutputFileSize, sizeOnly);
  }

  /** The loop's memory of the previous entry: its user key and its sequence number. */
  ghost predicate Tracks(currentUserKey: Option<UserKey>, lastSequenceForKey: nat, input: seq<Entry>, i: nat)
    requires i <= |input|
  {
    if i == 0 then currentUserKey == None
    else currentUserKey == Some(input[i-1].key.user) && lastSequenceForKey == input[i-1].key.seqno
  }

  method DecideDrop(c: Compaction, currentUserKey: Option<UserKey>, lastSequenceForKey: nat, oldest: nat,
                    ghost input: seq<Entry>, ghost i: nat, e: Entry)
    returns (drop: bool, currentUserKey': Option<UserKey>, lastSequenceForKey': nat)
    requires i < |input| && e == input[i] && oldest < MAX_SEQUENCE
    requires c.Valid() && c.Behind(e.key.user)
    requires Tracks(currentUserKey, lastSequenceForKey, input, i)
    modifies c.levelPtrs
    ensures c.Valid() && c.Behind(e.key.user)
    ensures Tracks(currentUserKey', lastSequenceForKey', input, i + 1)
    ensures drop == Dropped(input, i, oldest, BaseOf(c.version, c.level))
  {
    currentUserKey', lastSequenceForKey' := currentUserKey, lastSequenceForKey;
    if currentUserKey' != Some(e.key.user) {
      currentUserKey' := Some(e.key.user);
      lastSequenceForKey' := MAX_SEQUENCE;
    }
    if lastSequenceForKey' <= oldest {
      drop := true;
    } else {
      drop := c.IsObsolete(e, oldest);
    }
    lastSequenceForKey' := e.key.seqno;
  }

  /** When all of the input has been read and no file is open. */
  lemma OutputsFormLevel(outputs: seq<FileMeta>, numbers: seq<nat>, input: seq<Entry>, oldest: nat, base: UserKey -> bool)
    requires StrictlySorted(input) && Produced(outputs, Closed, numbers, Kept(input, |input|, oldest, base))
    ensures Compacted(outputs, numbers, input, oldest, base)
  {
    KeptSorted(input, |input|, oldest, base);
    assert Flatten(outputs) + [] == Flatten(outputs);
    OutputsSorted(outputs);
  }

  /** The j-th number taken is the j-th new one handed out. */
  ghost predicate HandedOut(numbers: seq<nat>, newNumber: nat -> nat) {
    forall j :: 0 <= j < |numbers| ==> numbers[j] == newNumber(j)
  }

  /** One iteration of the compaction loop, on input entry i. */
  method CompactEntry(c: Compaction, e: Entry, oldest: nat, newNumber: nat -> nat,
                      fileSize: seq<Entry> -> nat, maxOutputFileSize: nat,
                      builder: Builder, outputs: seq<FileMeta>, numbers: seq<nat>,
                      currentUserKey: Option<UserKey>, lastSequenceForKey: nat,
                      ghost input: seq<Entry>, ghost i: nat)
    returns (builder': Builder, outputs': seq<FileMeta>, numbers': seq<nat>,
             currentUserKey': Option<UserKey>, lastSequenceForKey': nat)
    requires i < |input| && e == input[i] && oldest < MAX_SEQUENCE
    requires c.Valid() && c.Behind(e.key.user)
    requires Tracks(currentUserKey, lastSequenceForKey, input, i) && HandedOut(numbers, newNumber)
    requires Produced(outputs, builder, numbers, Kept(input, i, oldest, BaseOf(c.version, c.level)))
    requires CutToSize(outputs, builder, fileSize, maxOutputFileSize, c.CutsBySizeOnly())
    modifies c, c.levelPtrs
    ensures c.Valid() && c.Behind(e.key.user)
    ensures Tracks(currentUserKey', lastSequenceForKey', input, i + 1) && HandedOut(numbers', newNumber)
    ensures Produced(outputs', builder', numbers', Kept(input, i + 1, oldest, BaseOf(c.version, c.level)))
    ensures CutToSize(outputs', builder', fileSize, maxOutputFileSize, c.CutsBySizeOnly())
  {
    hide Produced, CutToSize, NotFullBefore, Flatten, Compaction.CutsBySizeOnly, Tracks, StrictlySorted,
         WellFormed, TotalFileSize, BaseLevelFor;
    BuilderFits(outputs, builder, fileSize, maxOutputFileSize, c.CutsBySizeOnly());
    ghost var soFar := Kept(input, i, oldest, BaseOf(c.version, c.level));
    builder', outputs', numbers' := builder, outputs, numbers;
    var stop := c.ShouldStopBefore(e.key);
    if stop && builder'.Open? {
      FileEnded(outputs, builder, fileSize, maxOutputFileSize, c.CutsBySizeOnly());
      outputs' := FinishCompactionOutputFile(builder', outputs', fileSize, numbers', soFar);
      builder' := Closed;
    }
    var drop;
    drop, currentUserKey', lastSequenceForKey' := DecideDrop(c, currentUserKey, lastSequenceForKey, oldest, input, i, e);
    if drop {
      assert soFar + [] == soFar;
    } else {
      builder', outputs', numbers' := AddToOutput(e, builder', outputs', numbers', newNumber, fileSize,
                                                  maxOutputFileSize, soFar, c.CutsBySizeOnly());
    }
  }

  lemma NothingProduced(es: seq<Entry>, oldest: nat, base: UserKey -> bool)
    ensures Produced([], Closed, [], Kept(es, 0, oldest, base))
  {
  }

  lemma NothingSeen(es: seq<Entry>, newNumber: nat -> nat)
    ensures Tracks(None, MAX_SEQUENCE, es, 0) && HandedOut([], newNumber)
  {
  }

  lemma NothingCut(fileSize: seq<Entry> -> nat, maxSize: nat, sizeOnly: bool)
    ensures CutToSize([], Closed, fileSize, maxSize, sizeOnly)
  {
  }

  lemma SortedEntries(input: InternalIterator)
    requires input.InBounds()
    ensures StrictlySorted(input.entries)
  {
  }

  lemma KeysNext(input: InternalIterator, i: nat)
    requires input.InBounds()
    ensures i + 1 < |input.entries| ==> input.entries[i].key.user <= input.entries[i+1].key.user
  {
    assert i + 1 < |input.entries| ==> Less(input.entries[i].key, input.entries[i+1].key);
  }

  /** The compaction loop over the merged inputs. Wherever it cuts its output files, together
      they hold exactly the entries the filter keeps, in order, as files of a sorted level; a
      file is ended when it is full, or for the overlap with the grandparents. New numbers come
      from the version set, where flushes and logs may have taken some in between. */
  method DoCompactionWork(c: Compaction, input: InternalIterator, oldest: nat, newNumber: nat -> nat,
                          fileSize: seq<Entry> -> nat, maxOutputFileSize: nat)
    returns (outputs: seq<FileMeta>, numbers: seq<nat>)
    requires c.Valid() && (|input.entries| > 0 ==> c.Behind(input.entries[0].key.user))
    requires input.InBounds() && oldest < MAX_SEQUENCE
    modifies c, c.levelPtrs, input, input.merger, input.merger.children
    ensures Compacted(outputs, numbers, input.entries, oldest, BaseOf(c.version, c.level))
    ensures CutFiles(outputs, fileSize, maxOutputFileSize, c.CutsBySizeOnly())
    ensures HandedOut(numbers, newNumber)
  {
    hide InternalIterator.InBounds, StrictlySorted, CutToSize, CutFiles, Compaction.CutsBySizeOnly, NotFullBefore,
         Produced, Compacted, Kept, Tracks, Compaction.Behind, HandedOut;
    ghost var es, base := input.entries, BaseOf(c.version, c.level);
    var builder := Closed;
    var currentUserKey: Option<UserKey> := None;
    var lastSequenceForKey := MAX_SEQUENCE;
    outputs, numbers := [], [];
    NothingCut(fileSize, maxOutputFileSize, c.CutsBySizeOnly());
    NothingProduced(es, oldest, base);
    NothingSeen(es, newNumber);
    input.SeekToFirst();
    input.Stands();
    while input.Valid()
      invariant input.InBounds() && 0 <= input.pos <= |es| && (input.Valid() <==> input.pos < |es|)
      invariant c.Valid() && (input.pos < |es| ==> c.Behind(es[input.pos].key.user))
      invariant Tracks(currentUserKey, lastSequenceForKey, es, input.pos) && HandedOut(numbers, newNumber)
      invariant Produced(outputs, builder, numbers, Kept(es, input.pos, oldest, base))
      invariant CutToSize(outputs, builder, fileSize, maxOutputFileSize, c.CutsBySizeOnly())
      decreases |es| - input.pos
    {
      builder, outputs, numbers, currentUserKey, lastSequenceForKey :=
        CompactEntry(c, input.Current(), oldest, newNumber, fileSize, maxOutputFileSize, builder, outputs, numbers,
                     currentUserKey, lastSequenceForKey, es, input.pos);
      KeysNext(input, input.pos);
      if input.pos + 1 < |es| {
        c.StaysBehind(es[input.pos].key.user, es[input.pos+1].key.user);
      }
      input.Next();
      input.Stands();
    }
    LastEnded(outputs, builder, fileSize, maxOutputFileSize, c.CutsBySizeOnly());
    if builder.Open? {
      outputs := FinishCompactionOutputFile(builder, outputs, fileSize, numbers, Kept(es, input.pos, oldest, base));
    }
    SortedEntries(input);
    OutputsFormLevel(outputs, numbers, es, oldest, base);
  }

  // ----- what is written out, said of the input and the version alone

  /** Distinct places of a sorted run hold distinct entries. */
  lemma PlacesDiffer(input: seq<Entry>, i: nat, j: nat)
    requires StrictlySorted(input) && i < |input| && j < |input| && input[i] == input[j]
    ensures i == j
  {
    assert i < j ==> Less(input[i].key, input[j].key);
    assert j < i ==> Less(input[j].key, input[i].key);
  }

  /** A newer version of the same key at or below the oldest snapshot comes just before, or is
      itself preceded by one that does. */
  lemma NewerBefore(input: seq<Entry>, i: nat, oldest: nat)
    requires StrictlySorted(input) && i < |input|
    ensures Hidden(input, i, oldest) <==>
      exists j :: 0 <= j < i && input[j].key.user == input[i].key.user && input[j].key.seqno <= oldest
  {
    if j: nat :| j < i && input[j].key.user == input[i].key.user && input[j].key.seqno <= oldest {
      OlderHidden(input, j, i, oldest);
    }
  }

  lemma NoFileCovers(v: Version, level: nat, k: UserKey)
    ensures BaseOf(v, level)(k) <==>
      forall l, f :: level + 2 <= l < |v| && f in v[l] ==> k < f.smallest.user || f.largest.user < k
  {
    if BaseOf(v, level)(k) {
      forall l, f | level + 2 <= l < |v| && f in v[l]
        ensures k < f.smallest.user || f.largest.user < k
      {
        var i :| 0 <= i < |v[l]| && v[l][i] == f;
        assert !v[l][i].CoversUser(k);
      }
    }
  }

  /** Exactly two kinds of entries are left out: those with a newer version of their key in the
      input that every snapshot sees, and deletions that every snapshot sees of keys that no
      file two or more levels below the compaction's level can hold. */
  lemma WrittenOutIff(outputs: seq<FileMeta>, numbers: seq<nat>, input: seq<Entry>, oldest: nat, v: Version, level: nat, i: nat)
    requires StrictlySorted(input) && i < |input| && Compacted(outputs, numbers, input, oldest, BaseOf(v, level))
    ensures var e := input[i];
      e !in Flatten(outputs) <==>
        || (exists j :: 0 <= j < i && input[j].key.user == e.key.user && input[j].key.seqno <= oldest)
        || (e.key.kind == Deletion && e.key.seqno <= oldest
            && forall l, f :: level + 2 <= l < |v| && f in v[l] ==> e.key.user < f.smallest.user || f.largest.user < e.key.user)
  {
    var e, base := input[i], BaseOf(v, level);
    KeptMembers(input, |input|, oldest, base, e);
    NewerBefore(input, i, oldest);
    forall j: nat | j < |input| && input[j] == e
      ensures j == i
    {
      PlacesDiffer(input, i, j);
    }
    NoFileCovers(v, level, e.key.user);
  }
}
