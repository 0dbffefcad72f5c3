/** Manifest replay: all edits through one builder, against each edit through a builder of its
    own as it was installed. */
module ManifestReplay {
  import opened Keys
  import opened Files
  import opened Runs
  import opened VersionBuilder

  // ----- the edits of one level

  /** What one edit does to one level. */
  datatype LevelEdit = LevelEdit(deleted: set<nat>, added: set<FileMeta>)

  ghost function AtLevel(edit: FileEdit, l: nat): LevelEdit {
    LevelEdit(DeletedAt(edit, l), NewAt(edit.newFiles, |edit.newFiles|, l))
  }

  ghost function EditsAt(edits: seq<FileEdit>, l: nat): seq<LevelEdit> {
    seq(|edits|, i requires 0 <= i < |edits| => AtLevel(edits[i], l))
  }

  /** The files of a level after the first n edits, each through a builder of its own. */
  ghost function OneAtATime(base: set<FileMeta>, edits: seq<LevelEdit>, n: nat): set<FileMeta>
    requires n <= |edits|
  {
    if n == 0 then base
    else
      var e := edits[n-1];
      Merged(OneAtATime(base, edits, n - 1), e.deleted - NumbersOf(e.added), e.added)
  }

  /** The numbers deleted and not given again since, and all files added, by the first n edits. */
  ghost function Accumulated(edits: seq<LevelEdit>, n: nat): LevelEdit
    requires n <= |edits|
  {
    if n == 0 then LevelEdit({}, {})
    else
      var e, before := edits[n-1], Accumulated(edits, n - 1);
      LevelEdit((before.deleted + e.deleted) - NumbersOf(e.added), before.added + e.added)
  }

  /** No edit adds a number that the level has already been given. */
  ghost predicate NoNumberAddedTwice(base: set<FileMeta>, edits: seq<LevelEdit>) {
    && (forall i, f, g :: 0 <= i < |edits| && f in edits[i].added && g in base ==> f.number != g.number)
    && (forall i, j, f, g :: 0 <= i < j < |edits| && f in edits[j].added && g in edits[i].added ==> f.number != g.number)
    && (forall i, f, g :: 0 <= i < |edits| && f in edits[i].added && g in edits[i].added && f != g ==> f.number != g.number)
  }

  ghost predicate FreshStep(files: set<FileMeta>, added: set<FileMeta>) {
    && (forall f, g :: f in files && g in added ==> f.number != g.number)
    && (forall f, g :: f in added && g in added && f != g ==> f.number != g.number)
  }

  /** The weaker condition under which every edit can be installed: none adds a number that is
      live at the level, or two files under one number. */
  ghost predicate FreshWhenApplied(base: set<FileMeta>, edits: seq<LevelEdit>) {
    forall i :: 0 <= i < |edits| ==> FreshStep(OneAtATime(base, edits, i), edits[i].added)
  }

  ghost function GivenBy(e: LevelEdit, number: nat): (f: Option<FileMeta>)
    ensures f.Some? <==> number in NumbersOf(e.added)
    ensures f.Some? ==> f.value in e.added && f.value.number == number
  {
    if number in NumbersOf(e.added) then
      var f :| f in e.added && f.number == number;
      Some(f)
    else None
  }

  /** The file with a number that the first edit to give the number added. */
  ghost function FirstGiven(edits: seq<LevelEdit>, n: nat, number: nat): (f: Option<FileMeta>)
    requires n <= |edits|
    ensures f.Some? <==> number in NumbersOf(Accumulated(edits, n).added)
    ensures f.Some? ==> f.value in Accumulated(edits, n).added && f.value.number == number
  {
    if n == 0 then None
    else if FirstGiven(edits, n - 1, number).Some? then FirstGiven(edits, n - 1, number)
    else GivenBy(edits[n-1], number)
  }

  /** The same of the last one. */
  ghost function LastGiven(edits: seq<LevelEdit>, n: nat, number: nat): (f: Option<FileMeta>)
    requires n <= |edits|
    ensures f.Some? <==> number in NumbersOf(Accumulated(edits, n).added)
    ensures f.Some? ==> f.value in Accumulated(edits, n).added && f.value.number == number
  {
    if n == 0 then None
    else if GivenBy(edits[n-1], number).Some? then GivenBy(edits[n-1], number)
    else LastGiven(edits, n - 1, number)
  }

  /** Some number, deleted by no edit since it was last given, was given twice: base already had
      it, or edits gave it to files with different smallest keys, or last to another file than
      first. */
  ghost predicate LiveNumberReused(base: set<FileMeta>, edits: seq<LevelEdit>) {
    var all := Accumulated(edits, |edits|);
    exists f, g :: f in base + all.added && g in all.added && f.number == g.number && g.number !in all.deleted
      && (f in base || f.smallest != g.smallest || FirstGiven(edits, |edits|, g.number) != LastGiven(edits, |edits|, g.number))
  }

  // ----- the two replays on sets of files

  lemma {:induction false} AccumulatedFrom(edits: seq<LevelEdit>, n: nat, g: FileMeta) returns (i: nat)
    requires n <= |edits| && g in Accumulated(edits, n).added
    ensures i < n && g in edits[i].added
  {
    if g in edits[n-1].added {
      i := n - 1;
    } else {
      i := AccumulatedFrom(edits, n - 1, g);
    }
  }

  lemma {:induction false} OneBuilderKeepsAll(base: set<FileMeta>, edits: seq<LevelEdit>, n: nat)
    requires n <= |edits|
    ensures OneAtATime(base, edits, n) <= Merged(base, Accumulated(edits, n).deleted, Accumulated(edits, n).added)
  {
    if n > 0 {
      OneBuilderKeepsAll(base, edits, n - 1);
    }
  }

  /** A number given and not deleted since names a file of the level. */
  lemma {:induction false} GivenIsLive(base: set<FileMeta>, edits: seq<LevelEdit>, n: nat, f: FileMeta) returns (g: FileMeta)
    requires n <= |edits| && f in base + Accumulated(edits, n).added && f.number !in Accumulated(edits, n).deleted
    ensures g in OneAtATime(base, edits, n) && g.number == f.number
    ensures f in base && f.number !in NumbersOf(Accumulated(edits, n).added) ==> g == f
  {
    if n == 0 {
      g := f;
    } else if f.number in NumbersOf(edits[n-1].added) {
      g :| g in edits[n-1].added && g.number == f.number;
    } else {
      assert f !in edits[n-1].added;
      g := GivenIsLive(base, edits, n - 1, f);
    }
  }

  lemma OnlyTheNewOne(before: set<FileMeta>, e: LevelEdit, f: FileMeta, g: FileMeta)
    requires FreshStep(before, e.added) && f.number == g.number && f.number in NumbersOf(e.added)
    requires f in before + e.added && g in before + e.added
    ensures f == g
  {
    var h :| h in e.added && h.number == f.number;
    assert f !in before && g !in before;
  }

  lemma FreshAt(base: set<FileMeta>, edits: seq<LevelEdit>, i: nat)
    requires FreshWhenApplied(base, edits) && i < |edits|
    ensures FreshStep(OneAtATime(base, edits, i), edits[i].added)
  {
  }

  lemma {:induction false} OnePerAddedNumber(base: set<FileMeta>, edits: seq<LevelEdit>, n: nat, f: FileMeta, g: FileMeta)
    requires n <= |edits| && FreshWhenApplied(base, edits)
    requires f in OneAtATime(base, edits, n) && g in OneAtATime(base, edits, n) && f.number == g.number
    requires f.number in NumbersOf(Accumulated(edits, n).added)
    ensures f == g
  {
    hide FreshWhenApplied, FreshStep;
    if n > 0 {
      var before, e := OneAtATime(base, edits, n - 1), edits[n-1];
      FreshAt(base, edits, n - 1);
      if f.number in NumbersOf(e.added) {
        OnlyTheNewOne(before, e, f, g);
      } else {
        OnePerAddedNumber(base, edits, n - 1, f, g);
      }
    }
  }

  lemma NotReusedIsFresh(base: set<FileMeta>, edits: seq<LevelEdit>)
    requires NoNumberAddedTwice(base, edits)
    ensures FreshWhenApplied(base, edits)
  {
    forall i | 0 <= i < |edits|
      ensures FreshStep(OneAtATime(base, edits, i), edits[i].added)
    {
      OneBuilderKeepsAll(base, edits, i);
      forall f, g | f in OneAtATime(base, edits, i) && g in edits[i].added
        ensures f.number != g.number
      {
        if f !in base {
          var j := AccumulatedFrom(edits, i, f);
        }
      }
    }
  }

  lemma NotReusedAtAll(base: set<FileMeta>, edits: seq<LevelEdit>)
    requires NoNumberAddedTwice(base, edits)
    ensures !LiveNumberReused(base, edits)
  {
    var all := Accumulated(edits, |edits|);
    forall f, g | f in base + all.added && g in all.added && f.number == g.number
      ensures f !in base && f == g
    {
      var j := AccumulatedFrom(edits, |edits|, g);
      if f !in base {
        var i := AccumulatedFrom(edits, |edits|, f);
      }
    }
  }

  /** The file last given under a live number is in the level. */
  lemma {:induction false} LastIsLive(base: set<FileMeta>, edits: seq<LevelEdit>, n: nat, number: nat)
    requires n <= |edits| && number in NumbersOf(Accumulated(edits, n).added) && number !in Accumulated(edits, n).deleted
    ensures LastGiven(edits, n, number).value in OneAtATime(base, edits, n)
  {
    if GivenBy(edits[n-1], number).None? {
      LastIsLive(base, edits, n - 1, number);
    }
  }

  // ----- the builder takes in a script of edits

  ghost function DeletedAfter(edits: seq<FileEdit>, n: nat, l: nat): set<nat>
    requires n <= |edits|
  {
    if n == 0 then {}
    else Revive(DeletedAfter(edits, n - 1, l) + DeletedAt(edits[n-1], l), edits[n-1].newFiles, |edits[n-1].newFiles|, l)
  }

  ghost function AddedAfter(edits: seq<FileEdit>, n: nat, l: nat): seq<FileMeta>
    requires n <= |edits|
  {
    if n == 0 then []
    else InsertAll(AddedAfter(edits, n - 1, l), edits[n-1].newFiles, |edits[n-1].newFiles|, l)
  }

  lemma NoneInOrder()
    ensures InOrder([])
  {
  }

  /** The builder has just the numbers deleted and not given again since; of the files added it
      has one of every name. */
  lemma {:induction false} BuilderAccumulates(edits: seq<FileEdit>, n: nat, l: nat)
    requires n <= |edits|
    ensures var all, added := Accumulated(EditsAt(edits, l), n), AddedAfter(edits, n, l);
      && DeletedAfter(edits, n, l) == all.deleted
      && InOrder(added) && FileSet(added) <= all.added
      && forall g :: g in all.added ==> exists h :: h in added && SameName(h, g)
  {
    hide InOrder, InsertAll, Revive, FileLess, SameName;
    if n > 0 {
      var e, before := edits[n-1], AddedAfter(edits, n - 1, l);
      BuilderAccumulates(edits, n - 1, l);
      NumbersRevived(DeletedAfter(edits, n - 1, l) + DeletedAt(e, l), e.newFiles, |e.newFiles|, l);
      FilesInserted(before, e.newFiles, |e.newFiles|, l);
      var given := Accumulated(EditsAt(edits, l), n - 1).added;
      forall g | g in given
        ensures exists h :: h in AddedAfter(edits, n, l) && SameName(h, g)
      {
        var h :| h in before && SameName(h, g);
        assert h in FileSet(before);
      }
    } else {
      NoneInOrder();
    }
  }

  /** The first file given under a number stays in the builder's set. */
  lemma {:induction false} FirstIsKept(base: set<FileMeta>, edits: seq<FileEdit>, n: nat, l: nat, number: nat)
    requires n <= |edits| && FreshWhenApplied(base, EditsAt(edits, l))
    requires number in NumbersOf(Accumulated(EditsAt(edits, l), n).added)
    ensures FirstGiven(EditsAt(edits, l), n, number).value in AddedAfter(edits, n, l)
  {
    hide InOrder, InsertAll, Revive, FileLess, FreshWhenApplied;
    var es, e, before := EditsAt(edits, l), edits[n-1], AddedAfter(edits, n - 1, l);
    BuilderAccumulates(edits, n - 1, l);
    FilesInserted(before, e.newFiles, |e.newFiles|, l);
    if FirstGiven(es, n - 1, number).Some? {
      FirstIsKept(base, edits, n - 1, l, number);
      assert FirstGiven(es, n - 1, number).value in FileSet(before);
    } else {
      FreshAt(base, es, n - 1);
      var g := GivenBy(es[n-1], number).value;
      assert OnlyName(FileSet(before) + es[n-1].added, g);
    }
  }

  ghost predicate ValidEdits(edits: seq<FileEdit>) {
    forall i :: 0 <= i < |edits| ==> edits[i].Valid()
  }

  /** Each live file as often as in the two lists, in builder order if no live number is in both. */
  ghost predicate SavedLevel(base: seq<FileMeta>, deleted: set<nat>, added: seq<FileMeta>, files: seq<FileMeta>) {
    && FileSet(files) == Merged(FileSet(base), deleted, FileSet(added))
    && multiset(files) == LiveIn(base, deleted) + LiveIn(added, deleted)
    && (FreshAdditions(base, deleted, added) ==> BySmallest(files))
  }

  /** v is what one builder saves after taking in all the edits. */
  ghost predicate SavedOnce(base: Version, edits: seq<FileEdit>, v: Version) {
    && |base| == |v| == NUM_LEVELS
    && forall l :: 0 <= l < NUM_LEVELS ==>
         SavedLevel(base[l], DeletedAfter(edits, |edits|, l), AddedAfter(edits, |edits|, l), v[l])
  }

  /** Recovery: every edit of the manifest through one builder. */
  method ReplayManifest(base: Version, edits: seq<FileEdit>) returns (v: Version)
    requires |base| == NUM_LEVELS && Ordered(base) && ValidEdits(edits)
    ensures SavedOnce(base, edits, v)
  {
    var builder := new Builder(base);
    for i := 0 to |edits|
      invariant builder.Valid() && builder.base == base && fresh(builder)
      invariant forall l :: 0 <= l < NUM_LEVELS ==>
        builder.deletedFiles[l] == DeletedAfter(edits, i, l) && builder.addedFiles[l] == AddedAfter(edits, i, l)
    {
      builder.Apply(edits[i]);
    }
    v := builder.SaveTo();
  }

  ghost predicate Installable(base: Version, edits: seq<FileEdit>)
    requires |base| == NUM_LEVELS
  {
    forall l :: 0 <= l < NUM_LEVELS ==> FreshWhenApplied(FileSet(base[l]), EditsAt(edits, l))
  }

  /** v is the version once each of the first n edits has been installed. */
  ghost predicate InstalledInTurn(base: Version, edits: seq<FileEdit>, n: nat, v: Version) {
    && |base| == |v| == NUM_LEVELS && n <= |edits| && Ordered(v)
    && forall l :: 0 <= l < NUM_LEVELS ==> FileSet(v[l]) == OneAtATime(FileSet(base[l]), EditsAt(edits, l), n)
  }

  lemma InstalledNext(base: Version, edits: seq<FileEdit>, n: nat, v: Version, l: nat)
    requires InstalledInTurn(base, edits, n, v) && Installable(base, edits) && n < |edits| && l < NUM_LEVELS
    ensures FreshEdit(v, edits[n], l)
    ensures Edited(v, edits[n], l) == OneAtATime(FileSet(base[l]), EditsAt(edits, l), n + 1)
  {
    hide InOrder, InsertAll, Revive, FileLess, Ordered;
    var e, level := edits[n], EditsAt(edits, l);
    assert FreshStep(OneAtATime(FileSet(base[l]), level, n), level[n].added);
    NoneInOrder();
    NewFilesInserted([], e.newFiles, |e.newFiles|, l);
    NumbersRevived({} + DeletedAt(e, l), e.newFiles, |e.newFiles|, l);
    forall f, g | f in v[l] && g in AddedBy(e, l)
      ensures f.number != g.number
    {
      assert f in FileSet(v[l]) && g in FileSet(AddedBy(e, l));
    }
  }

  /** The versions the edits gave as they were installed, the last of them. */
  method InstallInTurn(base: Version, edits: seq<FileEdit>) returns (v: Version)
    requires |base| == NUM_LEVELS && Ordered(base) && ValidEdits(edits) && Installable(base, edits)
    ensures InstalledInTurn(base, edits, |edits|, v)
  {
    v := base;
    for i := 0 to |edits|
      invariant InstalledInTurn(base, edits, i, v)
    {
      forall l | 0 <= l < NUM_LEVELS
        ensures FreshEdit(v, edits[i], l)
        ensures Edited(v, edits[i], l) == OneAtATime(FileSet(base[l]), EditsAt(edits, l), i + 1)
      {
        InstalledNext(base, edits, i, v, l);
      }
      v := LogAndApply(v, edits[i]);
    }
  }

  // ----- the two versions

  lemma {:induction false} LiveCount(files: seq<FileMeta>, deleted: set<nat>, f: FileMeta)
    requires f in files && f.number !in deleted
    ensures LiveIn(files, deleted)[f] >= 1
  {
    if f != files[|files|-1] {
      LiveCount(files[..|files|-1], deleted, f);
    }
  }

  lemma InOrderOnce(files: seq<FileMeta>, f: FileMeta)
    requires InOrder(files)
    ensures multiset(files)[f] <= 1
  {
    if f in files {
      var i :| 0 <= i < |files| && files[i] == f;
      assert files == files[..i] + [f] + files[i+1..];
      forall j | 0 <= j < |files| && j != i
        ensures files[j] != f
      {
        if j < i { assert FileLess(files[j], files[i]); } else { assert FileLess(files[i], files[j]); }
      }
      assert f !in files[..i] && f !in files[i+1..];
    }
  }

  /** What of the level's files concerns a live number that edits gave. */
  lemma GivenFiles(base: Version, edits: seq<FileEdit>, once: Version, inTurn: Version, l: nat, number: nat)
    requires SavedOnce(base, edits, once) && InstalledInTurn(base, edits, |edits|, inTurn) && l < NUM_LEVELS
    requires FreshWhenApplied(FileSet(base[l]), EditsAt(edits, l))
    requires var all := Accumulated(EditsAt(edits, l), |edits|); number in NumbersOf(all.added) && number !in all.deleted
    ensures FirstGiven(EditsAt(edits, l), |edits|, number).value in AddedAfter(edits, |edits|, l)
    ensures LastGiven(EditsAt(edits, l), |edits|, number).value in inTurn[l]
    ensures forall f :: f in inTurn[l] && f.number == number ==> f == LastGiven(EditsAt(edits, l), |edits|, number).value
  {
    hide InOrder, FileLess, BySmallest, FreshWhenApplied, Merged, SavedLevel;
    var B, es := FileSet(base[l]), EditsAt(edits, l);
    FirstIsKept(B, edits, |edits|, l, number);
    LastIsLive(B, es, |edits|, number);
    assert LastGiven(es, |edits|, number).value in FileSet(inTurn[l]);
    forall f | f in inTurn[l] && f.number == number
      ensures f == LastGiven(es, |edits|, number).value
    {
      assert f in FileSet(inTurn[l]);
      OnePerAddedNumber(B, es, |edits|, f, LastGiven(es, |edits|, number).value);
    }
  }

  lemma ReusedDiffers(base: Version, edits: seq<FileEdit>, once: Version, inTurn: Version, l: nat)
    requires SavedOnce(base, edits, once) && InstalledInTurn(base, edits, |edits|, inTurn) && l < NUM_LEVELS
    requires FreshWhenApplied(FileSet(base[l]), EditsAt(edits, l))
    requires LiveNumberReused(FileSet(base[l]), EditsAt(edits, l))
    ensures once[l] != inTurn[l]
  {
    hide InOrder, FileLess, BySmallest, FreshWhenApplied;
    var B, es := FileSet(base[l]), EditsAt(edits, l);
    BuilderAccumulates(edits, |edits|, l);
    var all := Accumulated(es, |edits|);
    var deleted, added := DeletedAfter(edits, |edits|, l), AddedAfter(edits, |edits|, l);
    var f, g :| f in B + all.added && g in all.added && f.number == g.number && g.number !in all.deleted
      && (f in B || f.smallest != g.smallest || FirstGiven(es, |edits|, g.number) != LastGiven(es, |edits|, g.number));
    GivenFiles(base, edits, once, inTurn, l, g.number);
    assert SavedLevel(base[l], deleted, added, once[l]);
    var first := FirstGiven(es, |edits|, g.number).value;
    assert first in FileSet(added) && first in FileSet(once[l]);
    if f !in B {
      var h :| h in added && SameName(h, f);
      var i :| i in added && SameName(i, g);
      assert h in FileSet(added) && i in FileSet(added);
      assert h in FileSet(once[l]) && i in FileSet(once[l]);
    }
    if once[l] == inTurn[l] {
      if f in B {
        assert f in FileSet(once[l]);
        LiveCount(base[l], deleted, f);
        LiveCount(added, deleted, f);
        InOrderIsBySmallest(inTurn[l]);
        InOrderOnce(inTurn[l], f);
      }
    }
  }

  lemma InOrderApart(files: seq<FileMeta>, f: FileMeta, g: FileMeta)
    requires InOrder(files) && SameName(f, g)
    ensures f in files && g in files ==> f == g
  {
    if f in files && g in files {
      var i :| 0 <= i < |files| && files[i] == f;
      var j :| 0 <= j < |files| && files[j] == g;
      assert i < j ==> FileLess(files[i], files[j]);
      assert j < i ==> FileLess(files[j], files[i]);
    }
  }

  lemma SameFiles(base: Version, edits: seq<FileEdit>, once: Version, inTurn: Version, l: nat, f: FileMeta)
    requires SavedOnce(base, edits, once) && InstalledInTurn(base, edits, |edits|, inTurn) && l < NUM_LEVELS
    requires FreshWhenApplied(FileSet(base[l]), EditsAt(edits, l))
    requires !LiveNumberReused(FileSet(base[l]), EditsAt(edits, l))
    ensures f in once[l] <==> f in inTurn[l]
  {
    hide InOrder, FileLess, BySmallest, FreshWhenApplied;
    var B, es := FileSet(base[l]), EditsAt(edits, l);
    var all := Accumulated(es, |edits|);
    var deleted, added := DeletedAfter(edits, |edits|, l), AddedAfter(edits, |edits|, l);
    BuilderAccumulates(edits, |edits|, l);
    OneBuilderKeepsAll(B, es, |edits|);
    assert SavedLevel(base[l], deleted, added, once[l]);
    assert f in once[l] <==> f in FileSet(once[l]);
    assert f in inTurn[l] <==> f in FileSet(inTurn[l]);
    assert f in added <==> f in FileSet(added);
    if f in once[l] || f in inTurn[l] {
      if f.number in NumbersOf(all.added) {
        GivenFiles(base, edits, once, inTurn, l, f.number);
        var first := FirstGiven(es, |edits|, f.number).value;
        assert first in FileSet(added);
        assert f !in B;
        assert FirstGiven(es, |edits|, f.number) == LastGiven(es, |edits|, f.number);
        InOrderApart(added, f, first);
      } else if f in B {
        var g := GivenIsLive(B, es, |edits|, f);
      }
    }
  }

  lemma NotReusedAgrees(base: Version, edits: seq<FileEdit>, once: Version, inTurn: Version, l: nat)
    requires SavedOnce(base, edits, once) && InstalledInTurn(base, edits, |edits|, inTurn) && l < NUM_LEVELS
    requires FreshWhenApplied(FileSet(base[l]), EditsAt(edits, l))
    requires !LiveNumberReused(FileSet(base[l]), EditsAt(edits, l))
    ensures once[l] == inTurn[l]
  {
    hide InOrder, FileLess, BySmallest, FreshWhenApplied;
    var B, es := FileSet(base[l]), EditsAt(edits, l);
    BuilderAccumulates(edits, |edits|, l);
    forall f
      ensures f in once[l] <==> f in inTurn[l]
    {
      SameFiles(base, edits, once, inTurn, l, f);
    }
    var deleted, added := DeletedAfter(edits, |edits|, l), AddedAfter(edits, |edits|, l);
    assert SavedLevel(base[l], deleted, added, once[l]);
    forall f, g | f in base[l] && g in added && f.number == g.number
      ensures f.number in deleted
    {
      assert f in B && g in FileSet(added);
    }
    InOrderIsBySmallest(once[l]);
    InOrderIsBySmallest(inTurn[l]);
    OrderedListsAgree(once[l], inTurn[l]);
  }

  /** A level gets the same list of files from both replays exactly when no live number of it
      was reused. */
  lemma ReplayAgreesIff(base: Version, edits: seq<FileEdit>, once: Version, inTurn: Version, l: nat)
    requires SavedOnce(base, edits, once) && InstalledInTurn(base, edits, |edits|, inTurn) && l < NUM_LEVELS
    requires FreshWhenApplied(FileSet(base[l]), EditsAt(edits, l))
    ensures once[l] == inTurn[l] <==> !LiveNumberReused(FileSet(base[l]), EditsAt(edits, l))
  {
    if LiveNumberReused(FileSet(base[l]), EditsAt(edits, l)) {
      ReusedDiffers(base, edits, once, inTurn, l);
    } else {
      NotReusedAgrees(base, edits, once, inTurn, l);
    }
  }

  /** Recovery rebuilds, list by list, the version that installing the edits one after the
      other gave, when no edit adds a number its level was given before. */
  lemma ReplayAgrees(base: Version, edits: seq<FileEdit>, once: Version, inTurn: Version)
    requires SavedOnce(base, edits, once) && InstalledInTurn(base, edits, |edits|, inTurn)
    requires forall l :: 0 <= l < NUM_LEVELS ==> NoNumberAddedTwice(FileSet(base[l]), EditsAt(edits, l))
    ensures once == inTurn
  {
    forall l | 0 <= l < NUM_LEVELS
      ensures once[l] == inTurn[l]
    {
      NotReusedAtAll(FileSet(base[l]), EditsAt(edits, l));
      NotReusedIsFresh(FileSet(base[l]), EditsAt(edits, l));
      NotReusedAgrees(base, edits, once, inTurn, l);
    }
  }

  /** The shortest script that reuses a live number: the file first under the number comes back
      with the second. */
  lemma ReplayDiffers(f: FileMeta, g: FileMeta)
    requires f.number == g.number && f != g
    ensures var edits := [LevelEdit({f.number}, {}), LevelEdit({}, {g})];
      && OneAtATime({f}, edits, 2) == {g}
      && Merged({f}, Accumulated(edits, 2).deleted, Accumulated(edits, 2).added) == {f, g}
  {
    var edits := [LevelEdit({f.number}, {}), LevelEdit({}, {g})];
    assert Accumulated(edits, 1) == LevelEdit({f.number}, {});
    assert OneAtATime({f}, edits, 1) == {};
    assert NumbersOf({g}) == {g.number};
    assert Accumulated(edits, 2) == LevelEdit({}, {g});
  }
}
