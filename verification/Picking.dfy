/** Picking a compaction: boundary files, the files of the next level, and the attempt to
    grow the inputs for free. What comes out always satisfies Picked. */
module Picking {
  import opened Keys
  import opened Files
  import opened Levels
  import opened Runs
  import opened InputSelection

  ghost predicate IsLargest(fs: set<FileMeta>, key: InternalKey) {
    (exists f :: f in fs && f.largest == key) && forall f :: f in fs ==> !Less(key, f.largest)
  }

  ghost predicate IsSmallest(fs: set<FileMeta>, key: InternalKey) {
    (exists f :: f in fs && f.smallest == key) && forall f :: f in fs ==> !Less(f.smallest, key)
  }

  /** g starts after key, with key's user key. */
  predicate StartsAfter(key: InternalKey, g: FileMeta) {
    key.user == g.smallest.user && Less(key, g.smallest)
  }

  method FindLargestKey(files: seq<FileMeta>) returns (largest: Option<InternalKey>)
    ensures largest.None? <==> files == []
    ensures largest.Some? ==> IsLargest(FileSet(files), largest.value)
  {
    if files == [] {
      return None;
    }
    var key := files[0].largest;
    for i := 1 to |files|
      invariant exists j :: 0 <= j < i && files[j].largest == key
      invariant forall j :: 0 <= j < i ==> !Less(key, files[j].largest)
    {
      if Less(key, files[i].largest) {
        key := files[i].largest;
      }
    }
    return Some(key);
  }

  /** Among the files that start after key with its user key, the first in key order. */
  method FindSmallestBoundaryFile(files: seq<FileMeta>, key: InternalKey) returns (found: Option<FileMeta>)
    ensures found.None? ==> forall g :: g in files ==> !StartsAfter(key, g)
    ensures found.Some? ==> found.value in files && StartsAfter(key, found.value)
    ensures found.Some? ==> forall g :: g in files && StartsAfter(key, g) ==> !Less(g.smallest, found.value.smallest)
  {
    found := None;
    for i := 0 to |files|
      invariant found.None? ==> forall j :: 0 <= j < i ==> !StartsAfter(key, files[j])
      invariant found.Some? ==> found.value in files && StartsAfter(key, found.value)
      invariant found.Some? ==> forall j :: 0 <= j < i && StartsAfter(key, files[j]) ==> !Less(files[j].smallest, found.value.smallest)
    {
      var f := files[i];
      if StartsAfter(key, f) {
        if found.None? || Less(f.smallest, found.value.smallest) {
          found := Some(f);
        }
      }
    }
  }

  // ----- gap-freeness under additions

  lemma LowerFile(fs: set<FileMeta>, more: set<FileMeta>, f: FileMeta, k: UserKey) returns (a: FileMeta)
    requires f in fs + more && f.smallest.user <= k && !f.CoversUser(k)
    requires forall g :: g in more ==> MeetsRange(g, fs)
    ensures a in fs && a.smallest.user <= k
  {
    if f in fs {
      a := f;
    } else {
      assert MeetsRange(f, fs);
      var b;
      a, b :| a in fs && b in fs && a.smallest.user <= f.largest.user && f.smallest.user <= b.largest.user;
    }
  }

  lemma UpperFile(fs: set<FileMeta>, more: set<FileMeta>, g: FileMeta, k: UserKey) returns (b: FileMeta)
    requires g in fs + more && k <= g.largest.user && !g.CoversUser(k)
    requires forall g :: g in more ==> MeetsRange(g, fs)
    ensures b in fs && k <= b.largest.user
  {
    if g in fs {
      b := g;
    } else {
      assert MeetsRange(g, fs);
      var a;
      a, b :| a in fs && b in fs && a.smallest.user <= g.largest.user && g.smallest.user <= b.largest.user;
    }
  }

  lemma GapFreeWith(fs: set<FileMeta>, more: set<FileMeta>)
    requires GapFree(fs) && (forall f :: f in fs + more ==> f.Valid())
    requires forall g :: g in more ==> MeetsRange(g, fs)
    ensures GapFree(fs + more)
  {
    var all := fs + more;
    forall f, g, k | f in all && g in all && f.smallest.user <= k <= g.largest.user
      ensures Covered(all, k)
    {
      if !f.CoversUser(k) && !g.CoversUser(k) {
        var a := LowerFile(fs, more, f, k);
        var b := UpperFile(fs, more, g, k);
        assert Covered(fs, k);
        var h :| h in fs && h.CoversUser(k);
        assert h in all;
      }
    }
  }

  // ----- boundary files

  ghost predicate PairwiseDisjoint(files: seq<FileMeta>) {
    forall f, g :: f in files && g in files && f != g ==> Before(f, g) || Before(g, f)
  }

  /** Any file of the result that a file outside it continues was there from the start, and
      was not the one with the largest key. */
  ghost predicate OpenOnlyBelowTop(files: seq<FileMeta>, start: set<FileMeta>, result: set<FileMeta>) {
    forall f, g :: f in result && g in files && Follows(f, g) && g !in result ==> f in start && !IsLargest(start, f.largest)
  }

  /** While searching, only the file with the largest key so far may also be continued outside. */
  ghost predicate OpenAt(files: seq<FileMeta>, start: set<FileMeta>, result: set<FileMeta>, largestKey: InternalKey) {
    forall f, g :: f in result && g in files && Follows(f, g) && g !in result
      ==> StartsAfter(largestKey, g) || (f in start && !IsLargest(start, f.largest))
  }

  /** The search has extended start to result, whose largest key is largestKey. */
  ghost predicate Extended(files: seq<FileMeta>, start: set<FileMeta>, result: set<FileMeta>, around: set<FileMeta>,
                           largestKey: InternalKey) {
    && IsLargest(result, largestKey)
    && (PairwiseDisjoint(files) ==> OpenAt(files, start, result, largestKey))
    && (OverlapClosed(start, files) ==> result == start)
    && (GapFree(around + start) ==> GapFree(around + result))
  }

  ghost function StartingAfter(files: seq<FileMeta>, key: InternalKey): set<FileMeta> {
    set f | f in files && Less(key, f.smallest)
  }

  lemma BoundaryStep(files: seq<FileMeta>, start: set<FileMeta>, had: set<FileMeta>, around: set<FileMeta>,
                     largestKey: InternalKey, next: FileMeta)
    requires ValidFiles(files) && (forall f :: f in had + around ==> f.Valid())
    requires Extended(files, start, had, around, largestKey) && next in files && StartsAfter(largestKey, next)
    requires forall g :: g in files && StartsAfter(largestKey, g) ==> !Less(g.smallest, next.smallest)
    ensures Extended(files, start, had + {next}, around, next.largest)
    ensures StartingAfter(files, next.largest) < StartingAfter(files, largestKey)
  {
    NonEmptyRange(next);
    var top :| top in had && top.largest == largestKey;
    NonEmptyRange(top);
    assert UserOverlap(top, next);
    if PairwiseDisjoint(files) {
      forall f, g | f in had + {next} && g in files && Follows(f, g) && g !in had + {next}
        ensures StartsAfter(next.largest, g) || (f in start && !IsLargest(start, f.largest))
      {
        if StartsAfter(largestKey, g) {
          NonEmptyRange(g);
          assert Before(next, g) || Before(g, next);
        }
      }
    }
    if GapFree(around + start) {
      assert MeetsRange(next, around + had);
      GapFreeWith(around + had, {next});
      assert around + had + {next} == around + (had + {next});
    }
    assert next in StartingAfter(files, largestKey) && next !in StartingAfter(files, next.largest);
  }

  /** next is the first of the files that start after the largest key of had with its user key. */
  ghost predicate NextBoundary(files: seq<FileMeta>, had: seq<FileMeta>, next: FileMeta) {
    forall top :: IsLargest(FileSet(had), top) ==>
      && StartsAfter(top, next) && next in files
      && forall g :: g in files && StartsAfter(top, g) ==> !Less(g.smallest, next.smallest)
  }

  /** The files of start, then one boundary file after the other until there is none. */
  ghost predicate WithBoundary(files: seq<FileMeta>, start: seq<FileMeta>, result: seq<FileMeta>) {
    && start <= result && (start == [] ==> result == [])
    && (forall i :: |start| <= i < |result| ==> NextBoundary(files, result[..i], result[i]))
    && forall top, g :: IsLargest(FileSet(result), top) && g in files ==> !StartsAfter(top, g)
  }

  lemma OneLargest(fs: set<FileMeta>, a: InternalKey, b: InternalKey)
    requires IsLargest(fs, a) && IsLargest(fs, b)
    ensures a == b
  {
    assert a.Tag() == b.Tag();
  }

  lemma BoundaryFound(files: seq<FileMeta>, had: seq<FileMeta>, next: FileMeta, top: InternalKey)
    requires IsLargest(FileSet(had), top) && StartsAfter(top, next) && next in files
    requires forall g :: g in files && StartsAfter(top, g) ==> !Less(g.smallest, next.smallest)
    ensures NextBoundary(files, had, next)
  {
    forall t | IsLargest(FileSet(had), t)
      ensures t == top
    {
      OneLargest(FileSet(had), t, top);
    }
  }

  /** A file that starts after the largest key continues the list. */
  lemma ListedBoundary(files: seq<FileMeta>, largestKey: InternalKey, next: FileMeta)
    requires ValidFiles(files) && IsLargest(FileSet(files), largestKey) && StartsAfter(largestKey, next) && next.Valid()
    ensures forall level :: Listed(level, files) ==> Listed(level, files + [next])
  {
    NonEmptyRange(next);
    forall i | 0 <= i < |files|
      ensures files[i] != next && Less(files[i].largest, next.smallest)
    {
      assert files[i] in FileSet(files);
    }
  }

  method AddBoundaryInputs(files: seq<FileMeta>, compactionFiles: seq<FileMeta>, ghost around: set<FileMeta>)
    returns (result: seq<FileMeta>)
    requires ValidFiles(files) && ValidFiles(compactionFiles) && forall f :: f in around ==> f.Valid()
    ensures WithBoundary(files, compactionFiles, result)
    ensures forall f :: f in result ==> f in compactionFiles || f in files
    ensures PairwiseDisjoint(files) ==> OpenOnlyBelowTop(files, FileSet(compactionFiles), FileSet(result))
    ensures OverlapClosed(FileSet(compactionFiles), files) ==> FileSet(result) == FileSet(compactionFiles)
    ensures GapFree(around + FileSet(compactionFiles)) ==> GapFree(around + FileSet(result))
    ensures forall level :: Listed(level, compactionFiles) ==> Listed(level, result)
  {
    hide NextBoundary, GapFree, Listed, OverlapClosed;
    result := compactionFiles;
    var largest := FindLargestKey(compactionFiles);
    if largest.None? {
      return;
    }
    var largestKey := largest.value;
    var continueSearching := true;
    while continueSearching
      invariant ValidFiles(result) && compactionFiles <= result
      invariant forall i :: |compactionFiles| <= i < |result| ==> NextBoundary(files, result[..i], result[i])
      invariant forall f :: f in result ==> f in compactionFiles || f in files
      invariant Extended(files, FileSet(compactionFiles), FileSet(result), around, largestKey)
      invariant forall level :: Listed(level, compactionFiles) ==> Listed(level, result)
      invariant !continueSearching ==> forall g :: g in files ==> !StartsAfter(largestKey, g)
      decreases continueSearching, StartingAfter(files, largestKey)
    {
      var found := FindSmallestBoundaryFile(files, largestKey);
      if found.Some? {
        ghost var had := FileSet(result);
        BoundaryStep(files, FileSet(compactionFiles), had, around, largestKey, found.value);
        assert FileSet(result + [found.value]) == had + {found.value};
        ListedBoundary(result, largestKey, found.value);
        BoundaryFound(files, result, found.value, largestKey);
        assert forall i :: 0 <= i <= |result| ==> (result + [found.value])[..i] == result[..i];
        result := result + [found.value];
        largestKey := found.value.largest;
      } else {
        continueSearching := false;
      }
    }
    forall top | IsLargest(FileSet(result), top)
      ensures top == largestKey
    {
      OneLargest(FileSet(result), top, largestKey);
    }
  }

  // ----- the range of a set of files

  method GetRange(inputs: seq<FileMeta>) returns (smallest: InternalKey, largest: InternalKey)
    requires inputs != []
    ensures IsSmallest(FileSet(inputs), smallest) && IsLargest(FileSet(inputs), largest)
  {
    smallest, largest := inputs[0].smallest, inputs[0].largest;
    for i := 1 to |inputs|
      invariant exists j :: 0 <= j < i && inputs[j].smallest == smallest
      invariant exists j :: 0 <= j < i && inputs[j].largest == largest
      invariant forall j :: 0 <= j < i ==> !Less(inputs[j].smallest, smallest) && !Less(largest, inputs[j].largest)
    {
      if Less(inputs[i].smallest, smallest) {
        smallest := inputs[i].smallest;
      }
      if Less(largest, inputs[i].largest) {
        largest := inputs[i].largest;
      }
    }
  }

  lemma RangeProper(fs: set<FileMeta>, smallest: InternalKey, largest: InternalKey)
    requires (forall f :: f in fs ==> f.Valid()) && IsSmallest(fs, smallest) && IsLargest(fs, largest)
    ensures smallest.user <= largest.user
    ensures forall g :: Touches(g, Some(smallest.user), Some(largest.user)) <==> MeetsRange(g, fs)
    ensures forall f :: f in fs ==> smallest.user <= f.smallest.user <= f.largest.user <= largest.user
  {
    var a :| a in fs && a.smallest == smallest;
    var b :| b in fs && b.largest == largest;
    NonEmptyRange(a);
    forall f | f in fs
      ensures smallest.user <= f.smallest.user <= f.largest.user <= largest.user
    {
      NonEmptyRange(f);
    }
    forall g
      ensures Touches(g, Some(smallest.user), Some(largest.user)) <==> MeetsRange(g, fs)
    {
      if Touches(g, Some(smallest.user), Some(largest.user)) {
        assert a.smallest.user <= g.largest.user && g.smallest.user <= b.largest.user;
      }
    }
  }

  // ----- from the first file to the full inputs

  ghost predicate OpenOnlyAtTop(v: Version, level: nat, fs: set<FileMeta>) {
    forall f, g :: f in fs && At(v, level, g) && Follows(f, g) && g !in fs ==> IsLargest(fs, f.largest)
  }

  /** Inputs of the level before boundary files are added. */
  ghost predicate Seed(v: Version, level: nat, fs: set<FileMeta>) {
    && |v| == NUM_LEVELS && level + 1 < NUM_LEVELS && fs != {}
    && (forall f :: f in fs ==> At(v, level, f))
    && (level == 0 ==> OverlapClosed(fs, v[0]))
    && (level > 0 ==> OpenOnlyAtTop(v, level, fs))
  }

  /** Inputs of the level after boundary files are added. */
  ghost predicate Complete(v: Version, level: nat, fs: set<FileMeta>) {
    && |v| == NUM_LEVELS && level + 1 < NUM_LEVELS && fs != {}
    && (forall f :: f in fs ==> At(v, level, f))
    && (level == 0 ==> OverlapClosed(fs, v[0]))
    && (level > 0 ==> forall f, g :: f in fs && At(v, level, g) && Follows(f, g) ==> g in fs)
  }

  lemma LevelFiles(v: Version, level: nat)
    requires LevelOrder(v) && level < NUM_LEVELS
    ensures ValidFiles(v[level]) && (level > 0 ==> PairwiseDisjoint(v[level]))
  {
    forall f | f in v[level]
      ensures At(v, level, f)
    {
    }
  }

  method CompleteInputs(v: Version, level: nat, inputs: seq<FileMeta>, ghost around: set<FileMeta>) returns (result: seq<FileMeta>)
    requires LevelOrder(v) && Seed(v, level, FileSet(inputs)) && forall f :: f in around ==> f.Valid()
    ensures Complete(v, level, FileSet(result)) && FileSet(inputs) <= FileSet(result)
    ensures WithBoundary(v[level], inputs, result)
    ensures GapFree(around + FileSet(inputs)) ==> GapFree(around + FileSet(result))
    ensures Listed(level, inputs) ==> Listed(level, result)
  {
    LevelFiles(v, level);
    forall f | f in inputs
      ensures At(v, level, f)
    {
      assert f in FileSet(inputs);
    }
    result := AddBoundaryInputs(v[level], inputs, around);
    assert FileSet(inputs) != {};
  }

  lemma PickedFrom(v: Version, level: nat, in0: set<FileMeta>, in1: set<FileMeta>, smallest: InternalKey, largest: InternalKey)
    requires LevelOrder(v) && Complete(v, level, in0) && GapFree(in0)
    requires IsSmallest(in0, smallest) && IsLargest(in0, largest)
    requires forall g :: g in in1 <==> At(v, level + 1, g) && Touches(g, Some(smallest.user), Some(largest.user))
    ensures Picked(v, level, in0, in1)
  {
    forall f | f in in0
      ensures f.Valid()
    {
      assert At(v, level, f);
    }
    RangeProper(in0, smallest, largest);
    GapFreeWith(in0, in1);
  }

  /** Files bridged over the range of a gap-free set extend it without gaps. */
  lemma GapFreeBridged(fs: set<FileMeta>, more: set<FileMeta>, some: FileMeta, smallest: InternalKey, largest: InternalKey)
    requires GapFree(fs) && (forall f :: f in fs ==> f.Valid())
    requires IsSmallest(fs, smallest) && IsLargest(fs, largest)
    requires Bridged(more, Some(smallest.user), Some(largest.user)) && some in fs && some in more
    ensures GapFree(fs + more)
  {
    var all := fs + more;
    RangeProper(fs, smallest, largest);
    forall f, g, k | f in all && g in all && f.smallest.user <= k <= g.largest.user
      ensures Covered(all, k)
    {
      if smallest.user <= k <= largest.user {
        var a :| a in fs && a.smallest == smallest;
        var b :| b in fs && b.largest == largest;
        assert Covered(fs, k);
        var h :| h in fs && h.CoversUser(k);
        assert h in all;
      } else {
        assert Covered(more, k) by {
          if k < smallest.user { assert f in more && k <= some.largest.user; } else { assert g in more && some.smallest.user <= k; }
        }
        var h :| h in more && h.CoversUser(k);
        assert h in all;
      }
    }
  }

  /** Files of a level that touch a range: only the last of them can be continued outside. */
  lemma TouchedSeed(v: Version, level: nat, fs: set<FileMeta>, begin: UserKey, end: UserKey)
    requires LevelOrder(v) && 0 < level && level + 1 < NUM_LEVELS
    requires forall f :: f in fs <==> At(v, level, f) && Touches(f, Some(begin), Some(end))
    ensures OpenOnlyAtTop(v, level, fs)
  {
    forall f, g | f in fs && At(v, level, g) && Follows(f, g) && g !in fs
      ensures IsLargest(fs, f.largest)
    {
      NonEmptyRange(f);
      NonEmptyRange(g);
      forall h | h in fs
        ensures !Less(f.largest, h.largest)
      {
        NonEmptyRange(h);
        assert h == f || Before(f, h) || Before(h, f);
      }
    }
  }

  // ----- the two levels together

  /** The inputs of the next level: the files that overlap the range of in0. */
  method NextLevelInputs(v: Version, level: nat, in0: seq<FileMeta>)
    returns (in1: seq<FileMeta>, ghost smallest: InternalKey, largest: InternalKey)
    requires LevelOrder(v) && Complete(v, level, FileSet(in0))
    ensures IsSmallest(FileSet(in0), smallest) && IsLargest(FileSet(in0), largest)
    ensures forall g :: g in FileSet(in1) <==> At(v, level + 1, g) && Touches(g, Some(smallest.user), Some(largest.user))
    ensures forall g :: g in FileSet(in1) <==> At(v, level + 1, g) && MeetsRange(g, FileSet(in0))
    ensures in1 == Touching(v[level+1], |v[level+1]|, Some(smallest.user), Some(largest.user))
    ensures Ordered(v) ==> Listed(level + 1, in1)
  {
    hide Listed, Ordered, GapFree;
    LevelFiles(v, level + 1);
    if Ordered(v) { LevelListed(v, level + 1); }
    var first, last := GetRange(in0);
    smallest, largest := first, last;
    in1 := GetOverlappingInputs(v[level+1], level + 1, Some(first.user), Some(last.user));
    forall f | f in FileSet(in0)
      ensures f.Valid()
    {
      assert At(v, level, f);
    }
    RangeProper(FileSet(in0), first, last);
    TouchingMembers(v[level+1], |v[level+1]|, Some(first.user), Some(last.user));
    assert v[level+1][..|v[level+1]|] == v[level+1];
  }

  lemma PickedValid(v: Version, level: nat, in0: set<FileMeta>, in1: set<FileMeta>) returns (some: FileMeta)
    requires LevelOrder(v) && Picked(v, level, in0, in1)
    ensures some in in0 && forall f :: f in in0 + in1 ==> f.Valid()
  {
    some :| some in in0;
    forall f | f in in0 + in1
      ensures f.Valid()
    {
      assert At(v, level, f) || At(v, level + 1, f);
    }
  }

  ghost predicate ClosureOfRange(all: set<FileMeta>, s: set<FileMeta>, files: seq<FileMeta>) {
    exists start: InternalKey, limit: InternalKey ::
      IsSmallest(all, start) && IsLargest(all, limit) && LeastClosure(s, files, Some(start.user), Some(limit.user))
  }

  /** The files of the level that touch the range of all; at level zero also what they overlap. */
  ghost predicate Touched(v: Version, level: nat, all: set<FileMeta>, touching: seq<FileMeta>) {
    && |v| > 0
    && (level > 0 ==> forall f :: f in touching <==> At(v, level, f) && MeetsRange(f, all))
    && (level == 0 ==> ClosureOfRange(all, FileSet(touching), v[0]))
  }

  ghost predicate WideInputs(v: Version, level: nat, all: set<FileMeta>, wide: seq<FileMeta>)
    requires level < |v|
  {
    exists touching :: Touched(v, level, all, touching) && WithBoundary(v[level], touching, wide)
  }

  /** The files of the level that touch the range of all. */
  method TouchingRange(v: Version, level: nat, all: seq<FileMeta>)
    returns (touching: seq<FileMeta>, ghost start: InternalKey, ghost limit: InternalKey)
    requires LevelOrder(v) && level < NUM_LEVELS && ValidFiles(all) && all != []
    ensures IsSmallest(FileSet(all), start) && IsLargest(FileSet(all), limit)
    ensures forall f :: f in touching ==> At(v, level, f)
    ensures forall f :: At(v, level, f) && Touches(f, Some(start.user), Some(limit.user)) ==> f in touching
    ensures level > 0 ==> forall f :: f in touching ==> Touches(f, Some(start.user), Some(limit.user))
    ensures level == 0 ==> OverlapClosed(FileSet(touching), v[0])
    ensures Touched(v, level, FileSet(all), touching)
    ensures Bridged(FileSet(touching), Some(start.user), Some(limit.user))
    ensures Ordered(v) ==> Listed(level, touching)
  {
    LevelFiles(v, level);
    if Ordered(v) { LevelListed(v, level); }
    var smallest, largest := GetRange(all);
    start, limit := smallest, largest;
    RangeProper(FileSet(all), smallest, largest);
    touching := GetOverlappingInputs(v[level], level, Some(smallest.user), Some(largest.user));
    if level > 0 {
      TouchingMembers(v[level], |v[level]|, Some(smallest.user), Some(largest.user));
    }
  }

  lemma ExpandedSeed(v: Version, level: nat, in0: set<FileMeta>, all: set<FileMeta>, expanded0: set<FileMeta>, some: FileMeta,
                     allStart: InternalKey, allLimit: InternalKey)
    requires LevelOrder(v) && Complete(v, level, in0) && GapFree(all) && in0 <= all && some in in0
    requires (forall f :: f in all ==> f.Valid()) && IsSmallest(all, allStart) && IsLargest(all, allLimit)
    requires forall f :: f in expanded0 ==> At(v, level, f)
    requires forall f :: At(v, level, f) && Touches(f, Some(allStart.user), Some(allLimit.user)) ==> f in expanded0
    requires level > 0 ==> forall f :: f in expanded0 ==> Touches(f, Some(allStart.user), Some(allLimit.user))
    requires level == 0 ==> OverlapClosed(expanded0, v[0])
    requires Bridged(expanded0, Some(allStart.user), Some(allLimit.user))
    ensures Seed(v, level, expanded0) && in0 <= expanded0 && GapFree(all + expanded0)
  {
    RangeProper(all, allStart, allLimit);
    forall f | f in in0
      ensures f in expanded0
    {
      assert At(v, level, f);
    }
    GapFreeBridged(all, expanded0, some, allStart, allLimit);
    if level > 0 {
      TouchedSeed(v, level, expanded0, allStart.user, allLimit.user);
    }
  }

  /** The files of the level within the whole range covered so far, with their boundary files. */
  method ExpandInputs(v: Version, level: nat, in0: seq<FileMeta>, in1: seq<FileMeta>) returns (expanded0: seq<FileMeta>)
    requires LevelOrder(v) && Complete(v, level, FileSet(in0)) && Picked(v, level, FileSet(in0), FileSet(in1))
    ensures Complete(v, level, FileSet(expanded0)) && FileSet(in0) <= FileSet(expanded0)
    ensures GapFree(FileSet(in0) + FileSet(in1) + FileSet(expanded0))
    ensures WideInputs(v, level, FileSet(in0) + FileSet(in1), expanded0)
    ensures Ordered(v) ==> Listed(level, expanded0)
  {
    ghost var some := PickedValid(v, level, FileSet(in0), FileSet(in1));
    hide IsSmallest, IsLargest, Touched, WithBoundary, OverlapClosed, Bridged, Touches;
    assert FileSet(in0 + in1) == FileSet(in0) + FileSet(in1);
    ghost var start, limit;
    expanded0, start, limit := TouchingRange(v, level, in0 + in1);
    ExpandedSeed(v, level, FileSet(in0), FileSet(in0 + in1), FileSet(expanded0), some, start, limit);
    ghost var touching := expanded0;
    expanded0 := CompleteInputs(v, level, expanded0, FileSet(in0 + in1));
    assert WithBoundary(v[level], touching, expanded0);
  }

  /** A wider range is touched by as many files just when it is touched by the same. */
  lemma {:induction false} TouchingWider(files: seq<FileMeta>, n: nat, b: UserKey, e: UserKey, b': UserKey, e': UserKey)
    requires n <= |files| && b' <= b && e <= e'
    ensures var narrow, wide := Touching(files, n, Some(b), Some(e)), Touching(files, n, Some(b'), Some(e'));
      && |narrow| <= |wide|
      && (|narrow| == |wide| <==> forall i :: 0 <= i < n && Touches(files[i], Some(b'), Some(e')) ==> Touches(files[i], Some(b), Some(e)))
      && (|narrow| == |wide| ==> narrow == wide)
  {
    if n > 0 {
      TouchingWider(files, n - 1, b, e, b', e');
      assert Touches(files[n-1], Some(b), Some(e)) ==> Touches(files[n-1], Some(b'), Some(e'));
    }
  }

  /** The next level has files that meet the range of fs, but none more that meet that of wide. */
  ghost predicate SameNextLevel(v: Version, level: nat, fs: set<FileMeta>, wide: set<FileMeta>) {
    && (exists g :: At(v, level + 1, g) && MeetsRange(g, fs))
    && forall g :: At(v, level + 1, g) && MeetsRange(g, wide) ==> MeetsRange(g, fs)
  }

  lemma UsersInside(fs: set<FileMeta>, wide: set<FileMeta>, b: InternalKey, e: InternalKey, b': InternalKey, e': InternalKey)
    requires fs <= wide && IsSmallest(fs, b) && IsLargest(fs, e) && IsSmallest(wide, b') && IsLargest(wide, e')
    ensures b'.user <= b.user && e.user <= e'.user
  {
    var f :| f in fs && f.smallest == b;
    var g :| g in fs && g.largest == e;
    assert !Less(f.smallest, b') && !Less(e', g.largest);
  }

  lemma SameCount(v: Version, level: nat, fs: set<FileMeta>, wide: set<FileMeta>, b: InternalKey, e: InternalKey,
                  b': InternalKey, e': InternalKey, in1: seq<FileMeta>, wide1: seq<FileMeta>)
    requires level + 1 < |v| && fs <= wide && forall f :: f in wide ==> f.Valid()
    requires IsSmallest(fs, b) && IsLargest(fs, e) && IsSmallest(wide, b') && IsLargest(wide, e')
    requires in1 == Touching(v[level+1], |v[level+1]|, Some(b.user), Some(e.user)) && in1 != []
    requires wide1 == Touching(v[level+1], |v[level+1]|, Some(b'.user), Some(e'.user))
    ensures |wide1| == |in1| <==> SameNextLevel(v, level, fs, wide)
    ensures |wide1| == |in1| ==> wide1 == in1
  {
    hide Touches, IsSmallest, IsLargest, MeetsRange;
    var files := v[level+1];
    RangeProper(fs, b, e);
    RangeProper(wide, b', e');
    UsersInside(fs, wide, b, e, b', e');
    TouchingWider(files, |files|, b.user, e.user, b'.user, e'.user);
    TouchingMembers(files, |files|, Some(b.user), Some(e.user));
    assert in1[0] in in1 && files[..|files|] == files;
    assert At(v, level + 1, in1[0]) && MeetsRange(in1[0], fs);
    assert forall i :: 0 <= i < |files| ==> At(v, level + 1, files[i]);
  }

  /** Inputs are grown just when this takes in more files of the level, no other files of the next,
      and all are smaller than the limit. */
  ghost predicate MayGrow(v: Version, level: nat, base0: seq<FileMeta>, wide0: seq<FileMeta>, in1: seq<FileMeta>, limit: nat) {
    && |wide0| > |base0| && SameNextLevel(v, level, FileSet(base0), FileSet(wide0))
    && TotalFileSize(in1) + TotalFileSize(wide0) < limit
  }

  /** Growing the inputs of the level never loses a file of the next level. */
  lemma ExpandedPick(v: Version, level: nat, in0: set<FileMeta>, in1: set<FileMeta>, e0: set<FileMeta>, e1: set<FileMeta>)
    requires LevelOrder(v) && Picked(v, level, in0, in1)
    requires Complete(v, level, e0) && in0 <= e0 && GapFree(in0 + in1 + e0)
    requires forall g :: g in e1 <==> At(v, level + 1, g) && MeetsRange(g, e0)
    ensures Picked(v, level, e0, e1)
  {
    forall g | g in in1
      ensures g in e1
    {
      assert MeetsRange(g, in0);
    }
    forall f | f in in0 + in1 + e0 + e1
      ensures f.Valid()
    {
      assert At(v, level, f) || At(v, level + 1, f);
    }
    forall g | g in e1
      ensures MeetsRange(g, in0 + in1 + e0)
    {
      assert MeetsRange(g, e0);
    }
    GapFreeWith(in0 + in1 + e0, e1);
    assert in0 + in1 + e0 + e1 == e0 + e1;
  }

  lemma CompleteValid(v: Version, level: nat, fs: set<FileMeta>)
    requires LevelOrder(v) && Complete(v, level, fs)
    ensures forall f :: f in fs ==> f.Valid()
  {
    forall f | f in fs
      ensures f.Valid()
    {
      assert At(v, level, f);
    }
  }

  /** The files two levels down that meet the range of the inputs. */
  method Grandparents(v: Version, level: nat, in0: seq<FileMeta>, in1: seq<FileMeta>) returns (grandparents: seq<FileMeta>)
    requires LevelOrder(v) && Picked(v, level, FileSet(in0), FileSet(in1))
    ensures forall g :: g in grandparents <==> At(v, level + 2, g) && MeetsRange(g, FileSet(in0) + FileSet(in1))
  {
    hide MeetsRange, IsSmallest, IsLargest, GapFree;
    grandparents := [];
    if level + 2 < NUM_LEVELS {
      LevelFiles(v, level + 2);
      ghost var some := PickedValid(v, level, FileSet(in0), FileSet(in1));
      var allStart, allLimit := GetRange(in0 + in1);
      assert FileSet(in0 + in1) == FileSet(in0) + FileSet(in1);
      RangeProper(FileSet(in0 + in1), allStart, allLimit);
      grandparents := GetOverlappingInputs(v[level+2], level + 2, Some(allStart.user), Some(allLimit.user));
      TouchingMembers(v[level+2], |v[level+2]|, Some(allStart.user), Some(allLimit.user));
      assert v[level+2][..|v[level+2]|] == v[level+2];
    }
  }

  /** Completes the inputs of a compaction, and grows them when that takes in more files of
      the level without adding to the next. */
  method SetupOtherInputs(v: Version, level: nat, inputs0: seq<FileMeta>, expandedSizeLimit: nat)
    returns (in0: seq<FileMeta>, in1: seq<FileMeta>, grandparents: seq<FileMeta>, compactPointer: InternalKey,
             ghost base0: seq<FileMeta>, ghost wide0: seq<FileMeta>)
    requires LevelOrder(v) && Seed(v, level, FileSet(inputs0)) && GapFree(FileSet(inputs0))
    ensures Picked(v, level, FileSet(in0), FileSet(in1)) && FileSet(inputs0) <= FileSet(in0)
    ensures WithBoundary(v[level], inputs0, base0)
    ensures in1 != [] ==> WideInputs(v, level, FileSet(base0) + FileSet(in1), wide0)
    ensures in0 == if MayGrow(v, level, base0, wide0, in1, expandedSizeLimit) then wide0 else base0
    ensures IsLargest(FileSet(in0), compactPointer)
    ensures forall g :: g in grandparents <==> At(v, level + 2, g) && MeetsRange(g, FileSet(in0) + FileSet(in1))
    ensures Ordered(v) && Listed(level, inputs0) ==> Listed(level, in0) && Listed(level + 1, in1)
  {
    hide Listed, Ordered, LevelOrder, Picked, Complete, Seed, GapFree, MeetsRange, Touches, IsSmallest, IsLargest, WithBoundary, WideInputs,
         SameNextLevel;
    assert {} + FileSet(inputs0) == FileSet(inputs0);
    in0 := CompleteInputs(v, level, inputs0, {});
    base0, wide0 := in0, in0;
    assert {} + FileSet(in0) == FileSet(in0);
    ghost var smallest;
    in1, smallest, compactPointer := NextLevelInputs(v, level, in0);
    PickedFrom(v, level, FileSet(in0), FileSet(in1), smallest, compactPointer);
    if in1 != [] {
      var expanded0 := ExpandInputs(v, level, in0, in1);
      wide0 := expanded0;
      if |expanded0| > |in0| && TotalFileSize(in1) + TotalFileSize(expanded0) < expandedSizeLimit {
        var expanded1, newStart, newLimit := NextLevelInputs(v, level, expanded0);
        CompleteValid(v, level, FileSet(expanded0));
        SameCount(v, level, FileSet(in0), FileSet(expanded0), smallest, compactPointer, newStart, newLimit, in1, expanded1);
        if |expanded1| == |in1| {
          ExpandedPick(v, level, FileSet(in0), FileSet(in1), FileSet(expanded0), FileSet(expanded1));
          in0, in1, compactPointer := expanded0, expanded1, newLimit;
        }
      }
    }
    grandparents := Grandparents(v, level, in0, in1);
  }

  lemma LevelZeroSeed(v: Version, fs: set<FileMeta>, f: FileMeta, begin: UserKey, end: UserKey)
    requires LevelOrder(v) && At(v, 0, f) && f.smallest.user == begin && f.largest.user == end
    requires LeastClosure(fs, v[0], Some(begin), Some(end)) && Bridged(fs, Some(begin), Some(end))
    ensures Seed(v, 0, fs) && GapFree(fs) && f in fs
  {
    NonEmptyRange(f);
    assert f in v[0] && Touches(f, Some(begin), Some(end));
    forall k | InRange(k, Some(begin), Some(end))
      ensures Covered(fs, k)
    {
      assert f.CoversUser(k);
    }
  }

  lemma SingleSeed(v: Version, level: nat, f: FileMeta)
    requires LevelOrder(v) && 0 < level && level + 1 < NUM_LEVELS && At(v, level, f)
    ensures Seed(v, level, {f}) && GapFree({f})
  {
    forall k | f.smallest.user <= k <= f.largest.user
      ensures Covered({f}, k)
    {
      assert f.CoversUser(k);
    }
  }

  /** The file ends after the pointer, or there is none yet. */
  predicate Past(f: FileMeta, pointer: Option<InternalKey>) {
    pointer.Some? ==> Less(pointer.value, f.largest)
  }

  ghost predicate FirstPast(files: seq<FileMeta>, pointer: Option<InternalKey>, i: nat)
    requires i < |files|
  {
    Past(files[i], pointer) && forall j :: 0 <= j < i ==> !Past(files[j], pointer)
  }

  /** The file charged with too many seeks, or else the first file past the level's compaction
      pointer, wrapping around. */
  method StartingFile(files: seq<FileMeta>, fileToCompact: Option<FileMeta>, compactPointer: Option<InternalKey>)
    returns (f: FileMeta)
    requires files != [] && (fileToCompact.Some? ==> fileToCompact.value in files)
    ensures f in files && (fileToCompact.Some? ==> f == fileToCompact.value)
    ensures fileToCompact.None? ==> forall i :: 0 <= i < |files| && FirstPast(files, compactPointer, i) ==> f == files[i]
    ensures fileToCompact.None? && (forall i :: 0 <= i < |files| ==> !Past(files[i], compactPointer)) ==> f == files[0]
  {
    if fileToCompact.None? {
      for i := 0 to |files|
        invariant forall j :: 0 <= j < i ==> !Past(files[j], compactPointer)
      {
        if compactPointer.None? || Less(compactPointer.value, files[i].largest) {
          assert FirstPast(files, compactPointer, i);
          return files[i];
        }
      }
      return files[0];
    } else {
      return fileToCompact.value;
    }
  }

  /** Whatever file is chosen to start from, and whatever the sizes, the result is Picked. */
  method PickCompaction(v: Version, level: nat, fileToCompact: Option<FileMeta>, compactPointer: Option<InternalKey>,
                        expandedSizeLimit: nat)
    returns (in0: seq<FileMeta>, in1: seq<FileMeta>, grandparents: seq<FileMeta>, compactPointer': InternalKey)
    requires LevelOrder(v) && level + 1 < NUM_LEVELS && v[level] != []
    requires fileToCompact.Some? ==> At(v, level, fileToCompact.value)
    ensures Picked(v, level, FileSet(in0), FileSet(in1))
    ensures fileToCompact.Some? ==> fileToCompact.value in in0
    ensures fileToCompact.None? ==> forall i :: 0 <= i < |v[level]| && FirstPast(v[level], compactPointer, i) ==> v[level][i] in in0
    ensures fileToCompact.None? && (forall i :: 0 <= i < |v[level]| ==> !Past(v[level][i], compactPointer)) ==> v[level][0] in in0
    ensures IsLargest(FileSet(in0), compactPointer')
    ensures forall g :: g in grandparents <==> At(v, level + 2, g) && MeetsRange(g, FileSet(in0) + FileSet(in1))
    ensures Ordered(v) ==> Listed(level, in0) && Listed(level + 1, in1)
  {
    hide MeetsRange, Picked, FirstPast, Past, WithBoundary, WideInputs, MayGrow;
    var f := StartingFile(v[level], fileToCompact, compactPointer);
    var picked := [f];
    assert At(v, level, f) && FileSet(picked) == {f};
    NonEmptyRange(f);
    if level == 0 {
      LevelFiles(v, 0);
      if Ordered(v) { LevelListed(v, 0); }
      var smallest, largest := GetRange(picked);
      picked := GetOverlappingInputs(v[0], 0, Some(smallest.user), Some(largest.user));
      LevelZeroSeed(v, FileSet(picked), f, smallest.user, largest.user);
    } else {
      SingleSeed(v, level, f);
    }
    assert f in FileSet(picked);
    ghost var base0, wide0;
    in0, in1, grandparents, compactPointer', base0, wide0 := SetupOtherInputs(v, level, picked, expandedSizeLimit);
    assert f in FileSet(in0);
  }
}
