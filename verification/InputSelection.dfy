/** Choosing files: binary search in a level, overlap tests, and the fixpoint searches that
    select the inputs of a compaction. */
module InputSelection {
  import opened Keys
  import opened Files
  import opened Levels
  import opened Runs

  lemma LargestIncreases(files: seq<FileMeta>, m: nat)
    requires ValidFiles(files) && SortedLevel(files) && m < |files|
    ensures forall i :: 0 <= i < m ==> Less(files[i].largest, files[m].largest)
    ensures forall i :: m < i < |files| ==> Less(files[m].largest, files[i].largest)
  {
    forall i | 0 <= i < m
      ensures Less(files[i].largest, files[m].largest)
    {
      assert Less(files[i].largest, files[m].smallest);
      NonEmptyRange(files[m]);
    }
    forall i | m < i < |files|
      ensures Less(files[m].largest, files[i].largest)
    {
      assert Less(files[m].largest, files[i].smallest);
      NonEmptyRange(files[i]);
    }
  }

  /** The first file whose largest key is at or after key. */
  method FindFile(files: seq<FileMeta>, key: InternalKey) returns (index: nat)
    requires ValidFiles(files) && SortedLevel(files)
    ensures index <= |files|
    ensures forall i :: 0 <= i < index ==> Less(files[i].largest, key)
    ensures forall i :: index <= i < |files| ==> !Less(files[i].largest, key)
  {
    var left, right := 0, |files|;
    while left < right
      invariant 0 <= left <= right <= |files|
      invariant forall i :: 0 <= i < left ==> Less(files[i].largest, key)
      invariant forall i :: right <= i < |files| ==> !Less(files[i].largest, key)
    {
      var mid := (left + right) / 2;
      LargestIncreases(files, mid);
      if Less(files[mid].largest, key) {
        left := mid + 1;
      } else {
        right := mid;
      }
    }
    return right;
  }

  // ----- overlap with a range of user keys; an absent bound is unbounded

  predicate AfterFile(k: Option<UserKey>, f: FileMeta) {
    k.Some? && k.value > f.largest.user
  }

  predicate BeforeFile(k: Option<UserKey>, f: FileMeta) {
    k.Some? && k.value < f.smallest.user
  }

  predicate Touches(f: FileMeta, begin: Option<UserKey>, end: Option<UserKey>) {
    !AfterFile(begin, f) && !BeforeFile(end, f)
  }

  predicate InRange(k: UserKey, begin: Option<UserKey>, end: Option<UserKey>) {
    (begin.Some? ==> begin.value <= k) && (end.Some? ==> k <= end.value)
  }

  method SomeFileOverlapsRange(disjointSorted: bool, files: seq<FileMeta>, begin: Option<UserKey>, end: Option<UserKey>)
    returns (overlaps: bool)
    requires ValidFiles(files) && (disjointSorted ==> SortedLevel(files))
    ensures overlaps <==> exists i :: 0 <= i < |files| && Touches(files[i], begin, end)
  {
    if !disjointSorted {
      for i := 0 to |files|
        invariant forall j :: 0 <= j < i ==> !Touches(files[j], begin, end)
      {
        if !AfterFile(begin, files[i]) && !BeforeFile(end, files[i]) {
          return true;
        }
      }
      return false;
    }
    var index := 0;
    if begin.Some? {
      index := FindFile(files, InternalKey(begin.value, MAX_SEQUENCE, Value));
    }
    assert forall i :: 0 <= i < index ==> AfterFile(begin, files[i]) by {
      forall i | 0 <= i < index
        ensures AfterFile(begin, files[i])
      {
        assert files[i] in files;
      }
    }
    if index >= |files| {
      return false;
    }
    forall i | index <= i < |files|
      ensures files[index].smallest.user <= files[i].smallest.user
    {
      NonEmptyRange(files[index]);
      if index < i { assert Less(files[index].largest, files[i].smallest); }
    }
    return !BeforeFile(end, files[index]);
  }

  /** Some file of the level touches the range. */
  ghost predicate OverlapInLevel(v: Version, l: nat, smallest: UserKey, largest: UserKey) {
    exists f :: At(v, l, f) && Touches(f, Some(smallest), Some(largest))
  }

  // ----- overlapping inputs

  function Touching(files: seq<FileMeta>, n: nat, begin: Option<UserKey>, end: Option<UserKey>): seq<FileMeta>
    requires n <= |files|
  {
    if n == 0 then []
    else Touching(files, n - 1, begin, end) + if Touches(files[n-1], begin, end) then [files[n-1]] else []
  }

  /** The bytes of the files two levels further down that touch the range. */
  function GrandparentBytes(v: Version, l: nat, smallest: UserKey, largest: UserKey): nat
    requires |v| == NUM_LEVELS
  {
    if l + 2 < NUM_LEVELS then TotalFileSize(Touching(v[l+2], |v[l+2]|, Some(smallest), Some(largest))) else 0
  }

  ghost predicate Proper(begin: Option<UserKey>, end: Option<UserKey>) {
    begin.Some? && end.Some? ==> begin.value <= end.value
  }

  ghost predicate OverlapClosed(s: set<FileMeta>, files: seq<FileMeta>) {
    forall f, g :: f in s && g in files && UserOverlap(f, g) ==> g in s
  }

  /** A set of files that contains all that touch the range and is closed under overlap. */
  ghost predicate Closed(s: set<FileMeta>, files: seq<FileMeta>, begin: Option<UserKey>, end: Option<UserKey>) {
    && (forall f :: f in s ==> f in files)
    && (forall f :: f in files && Touches(f, begin, end) ==> f in s)
    && OverlapClosed(s, files)
  }

  ghost predicate LeastClosure(s: set<FileMeta>, files: seq<FileMeta>, begin: Option<UserKey>, end: Option<UserKey>) {
    Closed(s, files, begin, end) && forall t :: Closed(t, files, begin, end) ==> s <= t
  }

  /** Every user key between two of the files is in the range or covered by one of them. */
  ghost predicate Bridged(s: set<FileMeta>, begin: Option<UserKey>, end: Option<UserKey>) {
    forall f, g, k {:trigger f in s, g in s, Covered(s, k)} ::
      f in s && g in s && f.smallest.user <= k <= g.largest.user ==> InRange(k, begin, end) || Covered(s, k)
  }

  ghost predicate Inside(f: FileMeta, b: Option<UserKey>, e: Option<UserKey>) {
    (b.Some? ==> b.value <= f.smallest.user) && (e.Some? ==> f.largest.user <= e.value)
  }

  /** The range has grown to [b, e] only over user keys covered by every closed set. */
  ghost predicate GrownOver(s: set<FileMeta>, begin: Option<UserKey>, end: Option<UserKey>, b: Option<UserKey>, e: Option<UserKey>) {
    && (b.Some? <==> begin.Some?) && (e.Some? <==> end.Some?)
    && (b.Some? ==> b.value <= begin.value) && (e.Some? ==> end.value <= e.value)
    && forall k {:trigger Covered(s, k)} :: InRange(k, b, e) ==> InRange(k, begin, end) || Covered(s, k)
  }

  /** The range has grown only over user keys that every closed set covers. */
  ghost predicate Grown(files: seq<FileMeta>, begin: Option<UserKey>, end: Option<UserKey>, b: Option<UserKey>, e: Option<UserKey>) {
    Proper(begin, end) ==> forall s :: Closed(s, files, begin, end) ==> GrownOver(s, begin, end, b, e)
  }

  /** The files the range may still grow over, at either end. */
  ghost function StartingBefore(files: seq<FileMeta>, b: Option<UserKey>): set<FileMeta> {
    set f | f in files && b.Some? && f.smallest.user < b.value
  }

  ghost function EndingAfter(files: seq<FileMeta>, e: Option<UserKey>): set<FileMeta> {
    set f | f in files && e.Some? && f.largest.user > e.value
  }

  lemma {:induction false} TouchingMembers(files: seq<FileMeta>, n: nat, begin: Option<UserKey>, end: Option<UserKey>)
    requires n <= |files|
    ensures forall f :: f in Touching(files, n, begin, end) <==> f in files[..n] && Touches(f, begin, end)
  {
    if n > 0 {
      TouchingMembers(files, n - 1, begin, end);
      assert files[..n] == files[..n-1] + [files[n-1]];
    }
  }

  lemma {:induction false} TouchingListed(files: seq<FileMeta>, n: nat, begin: Option<UserKey>, end: Option<UserKey>, level: nat)
    requires n <= |files| && Listed(level, files)
    ensures Listed(level, Touching(files, n, begin, end))
  {
    if n > 0 {
      TouchingListed(files, n - 1, begin, end, level);
      TouchingMembers(files, n - 1, begin, end);
      var before := Touching(files, n - 1, begin, end);
      forall i | 0 <= i < |before|
        ensures if level == 0 then before[i] != files[n-1] else Less(before[i].largest, files[n-1].smallest)
      {
        assert before[i] in files[..n-1];
        var j :| 0 <= j < n - 1 && files[j] == before[i];
      }
    }
  }

  /** A file that touches a range grown over closed sets belongs to each of them. */
  lemma TouchedBelongs(s: set<FileMeta>, files: seq<FileMeta>, begin: Option<UserKey>, end: Option<UserKey>,
                       b: Option<UserKey>, e: Option<UserKey>, f: FileMeta)
    requires Closed(s, files, begin, end) && GrownOver(s, begin, end, b, e) && Proper(begin, end)
    requires f in files && f.Valid() && Touches(f, b, e)
    ensures f in s
  {
    NonEmptyRange(f);
    var k := if b.Some? && b.value > f.smallest.user then b.value else f.smallest.user;
    assert InRange(k, b, e) && f.CoversUser(k);
    if !InRange(k, begin, end) {
      assert Covered(s, k);
      var h :| h in s && h.CoversUser(k);
      assert UserOverlap(h, f);
    }
  }

  lemma GrowBegin(files: seq<FileMeta>, begin: Option<UserKey>, end: Option<UserKey>,
                  b: Option<UserKey>, e: Option<UserKey>, f: FileMeta)
    requires Grown(files, begin, end, b, e)
    requires f in files && f.Valid() && Touches(f, b, e) && b.Some? && f.smallest.user < b.value
    ensures Grown(files, begin, end, Some(f.smallest.user), e)
  {
    forall s, k | Proper(begin, end) && Closed(s, files, begin, end)
        && InRange(k, Some(f.smallest.user), e) && !InRange(k, begin, end)
      ensures Covered(s, k)
    {
      TouchedBelongs(s, files, begin, end, b, e, f);
      if !f.CoversUser(k) { assert InRange(k, b, e); }
    }
  }

  lemma GrowEnd(files: seq<FileMeta>, begin: Option<UserKey>, end: Option<UserKey>,
                b: Option<UserKey>, e: Option<UserKey>, f: FileMeta)
    requires Grown(files, begin, end, b, e)
    requires f in files && f.Valid() && Touches(f, b, e) && e.Some? && f.largest.user > e.value
    ensures Grown(files, begin, end, b, Some(f.largest.user))
  {
    forall s, k | Proper(begin, end) && Closed(s, files, begin, end)
        && InRange(k, b, Some(f.largest.user)) && !InRange(k, begin, end)
      ensures Covered(s, k)
    {
      TouchedBelongs(s, files, begin, end, b, e, f);
      if !f.CoversUser(k) { assert InRange(k, b, e); }
    }
  }

  lemma ClosureReached(files: seq<FileMeta>, begin: Option<UserKey>, end: Option<UserKey>,
                       b: Option<UserKey>, e: Option<UserKey>, s: set<FileMeta>)
    requires ValidFiles(files) && Proper(begin, end)
    requires (b.Some? <==> begin.Some?) && (e.Some? <==> end.Some?)
    requires (b.Some? ==> b.value <= begin.value) && (e.Some? ==> end.value <= e.value)
    requires forall f :: f in s <==> f in files && Touches(f, b, e)
    requires forall f :: f in s ==> Inside(f, b, e)
    requires Grown(files, begin, end, b, e)
    ensures LeastClosure(s, files, begin, end) && Bridged(s, begin, end)
  {
    assert Closed(s, files, begin, end);
    forall t | Closed(t, files, begin, end)
      ensures s <= t
    {
      forall f | f in s
        ensures f in t
      {
        TouchedBelongs(t, files, begin, end, b, e, f);
      }
    }
    assert GrownOver(s, begin, end, b, e);
    forall f, g, k | f in s && g in s && f.smallest.user <= k <= g.largest.user
      ensures InRange(k, begin, end) || Covered(s, k)
    {
      assert Inside(f, b, e) && Inside(g, b, e);
      assert InRange(k, b, e);
    }
  }

  lemma TouchingBridged(s: set<FileMeta>, begin: Option<UserKey>, end: Option<UserKey>)
    requires Proper(begin, end)
    requires forall f :: f in s ==> Touches(f, begin, end)
    ensures Bridged(s, begin, end)
  {
    forall f, g, k | f in s && g in s && f.smallest.user <= k <= g.largest.user
      ensures InRange(k, begin, end) || Covered(s, k)
    {
      if begin.Some? && k < begin.value { assert f.CoversUser(k); }
      if end.Some? && k > end.value { assert g.CoversUser(k); }
    }
  }

  /** At level zero, the least set of files that contains all files touching the range and
      everything they overlap; at other levels, in order, the files touching the range. */
  method GetOverlappingInputs(files: seq<FileMeta>, level: nat, begin: Option<UserKey>, end: Option<UserKey>)
    returns (inputs: seq<FileMeta>)
    requires ValidFiles(files)
    ensures level > 0 ==> inputs == Touching(files, |files|, begin, end)
    ensures level == 0 && Proper(begin, end) ==> LeastClosure(FileSet(inputs), files, begin, end)
    ensures Proper(begin, end) ==> Bridged(FileSet(inputs), begin, end)
    ensures forall f :: f in inputs ==> f in files
    ensures forall f :: f in files && Touches(f, begin, end) ==> f in inputs
    ensures Listed(level, files) ==> Listed(level, inputs)
  {
    hide Listed, LeastClosure, Bridged;
    inputs := [];
    var b, e := begin, end;
    var i := 0;
    while i < |files|
      invariant 0 <= i <= |files|
      invariant inputs == Touching(files, i, b, e)
      invariant level > 0 ==> b == begin && e == end
      invariant (b.Some? <==> begin.Some?) && (e.Some? <==> end.Some?)
      invariant (b.Some? ==> b.value <= begin.value) && (e.Some? ==> end.value <= e.value)
      invariant level == 0 ==> forall f :: f in inputs ==> Inside(f, b, e)
      invariant Grown(files, begin, end, b, e)
      decreases StartingBefore(files, b), EndingAfter(files, e), |files| - i
    {
      var f := files[i];
      assert f in files;
      i := i + 1;
      if AfterFile(b, f) {
      } else if BeforeFile(e, f) {
      } else {
        inputs := inputs + [f];
        if level == 0 {
          if b.Some? && f.smallest.user < b.value {
            GrowBegin(files, begin, end, b, e, f);
            assert f in StartingBefore(files, b) && f !in StartingBefore(files, Some(f.smallest.user));
            b := Some(f.smallest.user);
            inputs := [];
            i := 0;
          } else if e.Some? && f.largest.user > e.value {
            GrowEnd(files, begin, end, b, e, f);
            assert f in EndingAfter(files, e) && f !in EndingAfter(files, Some(f.largest.user));
            e := Some(f.largest.user);
            inputs := [];
            i := 0;
          }
        }
      }
    }
    TouchingMembers(files, |files|, b, e);
    if Listed(level, files) {
      TouchingListed(files, |files|, b, e, level);
    }
    assert files[..|files|] == files;
    if level == 0 && Proper(begin, end) {
      ClosureReached(files, begin, end, b, e, FileSet(inputs));
    } else if Proper(begin, end) {
      TouchingBridged(FileSet(inputs), begin, end);
    }
  }

  /** The deepest level, up to two, that a memtable's file may go to: one step down at a time, as long
      as no file of the next level touches the range and not too much does of the level after it. */
  method PickLevelForMemTableOutput(v: Version, smallest: UserKey, largest: UserKey, maxGrandparentOverlap: nat)
    returns (level: nat)
    requires WellFormed(v)
    ensures level <= MAX_MEM_COMPACT_LEVEL
    ensures level > 0 ==> forall l, f :: l <= level && At(v, l, f) ==> !Touches(f, Some(smallest), Some(largest))
    ensures forall l: nat :: l < level ==> GrandparentBytes(v, l, smallest, largest) <= maxGrandparentOverlap
    ensures level < MAX_MEM_COMPACT_LEVEL ==>
      || (level == 0 && OverlapInLevel(v, 0, smallest, largest))
      || OverlapInLevel(v, level + 1, smallest, largest)
      || GrandparentBytes(v, level, smallest, largest) > maxGrandparentOverlap
  {
    level := 0;
    var overlaps := SomeFileOverlapsRange(false, v[0], Some(smallest), Some(largest));
    if !overlaps {
      while level < MAX_MEM_COMPACT_LEVEL
        invariant level <= MAX_MEM_COMPACT_LEVEL
        invariant forall l, f :: l <= level && At(v, l, f) ==> !Touches(f, Some(smallest), Some(largest))
        invariant forall l: nat :: l < level ==> GrandparentBytes(v, l, smallest, largest) <= maxGrandparentOverlap
      {
        overlaps := SomeFileOverlapsRange(true, v[level+1], Some(smallest), Some(largest));
        if overlaps {
          ghost var i :| 0 <= i < |v[level+1]| && Touches(v[level+1][i], Some(smallest), Some(largest));
          assert At(v, level + 1, v[level+1][i]);
          break;
        }
        if level + 2 < NUM_LEVELS {
          var grandparents := GetOverlappingInputs(v[level+2], level + 2, Some(smallest), Some(largest));
          if TotalFileSize(grandparents) > maxGrandparentOverlap {
            break;
          }
        }
        level := level + 1;
      }
    } else {
      ghost var i :| 0 <= i < |v[0]| && Touches(v[0][i], Some(smallest), Some(largest));
      assert At(v, 0, v[0][i]);
    }
  }
}
