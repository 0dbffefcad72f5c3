/** Applying version edits: the builder that accumulates edits and merges them into a new
    version, and manifest replay. */
module VersionBuilder {
  import opened Keys
  import opened Files
  import opened Levels
  import opened Runs

  /** What an edit deletes and adds. */
  datatype FileEdit = FileEdit(
    deletedFiles: set<(nat, nat)>,
    newFiles: seq<(nat, FileMeta)>)
  {
    ghost predicate Valid() {
      forall i :: 0 <= i < |newFiles| ==> newFiles[i].0 < NUM_LEVELS
    }
  }

  /** Smallest key first, ties by file number. */
  predicate FileLess(f: FileMeta, g: FileMeta) {
    Less(f.smallest, g.smallest) || (f.smallest == g.smallest && f.number < g.number)
  }

  ghost predicate InOrder(files: seq<FileMeta>) {
    forall i, j {:trigger FileLess(files[i], files[j])} :: 0 <= i < j < |files| ==> FileLess(files[i], files[j])
  }

  lemma InOrderIsBySmallest(files: seq<FileMeta>)
    ensures InOrder(files) <==> BySmallest(files)
  {
    if BySmallest(files) {
      forall i, j | 0 <= i < j < |files|
        ensures FileLess(files[i], files[j])
      {
        assert Less(files[i].smallest, files[j].smallest)
            || (files[i].smallest == files[j].smallest && files[i].number < files[j].number);
      }
    }
    if InOrder(files) {
      forall i, j | 0 <= i < j < |files|
        ensures Less(files[i].smallest, files[j].smallest)
             || (files[i].smallest == files[j].smallest && files[i].number < files[j].number)
      {
        assert FileLess(files[i], files[j]);
      }
    }
  }

  lemma FileLessTotal(f: FileMeta, g: FileMeta)
    ensures FileLess(f, g) || FileLess(g, f) || (f.smallest == g.smallest && f.number == g.number)
  {
    assert f.smallest.Tag() == g.smallest.Tag() ==>
      f.smallest.seqno == g.smallest.seqno && f.smallest.kind == g.smallest.kind;
  }

  lemma FileLessTransitive(f: FileMeta, g: FileMeta, h: FileMeta)
    requires FileLess(f, g) && FileLess(g, h)
    ensures FileLess(f, h)
  {
  }

  // ----- the ordered set of added files

  /** Insertion into an ordered set: nothing happens if an equivalent file is there. */
  function SetInsert(s: seq<FileMeta>, f: FileMeta): seq<FileMeta> {
    if s == [] then [f]
    else if FileLess(f, s[0]) then [f] + s
    else if FileLess(s[0], f) then [s[0]] + SetInsert(s[1..], f)
    else s
  }

  ghost predicate AllLess(f: FileMeta, s: seq<FileMeta>) {
    forall g :: g in s ==> FileLess(f, g)
  }

  lemma InOrderCons(f: FileMeta, s: seq<FileMeta>)
    requires InOrder(s) && AllLess(f, s)
    ensures InOrder([f] + s)
  {
    var t := [f] + s;
    forall i, j | 0 <= i < j < |t|
      ensures FileLess(t[i], t[j])
    {
      if i > 0 { assert FileLess(s[i-1], s[j-1]); } else { assert s[j-1] in s; }
    }
  }

  lemma InOrderTail(s: seq<FileMeta>)
    requires InOrder(s) && s != []
    ensures InOrder(s[1..]) && AllLess(s[0], s[1..])
  {
    forall i, j | 0 <= i < j < |s| - 1
      ensures FileLess(s[1..][i], s[1..][j])
    {
      assert FileLess(s[i+1], s[j+1]);
    }
    forall g | g in s[1..]
      ensures FileLess(s[0], g)
    {
      var i :| 0 <= i < |s| - 1 && s[1..][i] == g;
      assert FileLess(s[0], s[i+1]);
    }
  }

  lemma {:induction false} SetInsertOrdered(s: seq<FileMeta>, f: FileMeta)
    requires InOrder(s)
    ensures InOrder(SetInsert(s, f))
    ensures forall g :: g in SetInsert(s, f) ==> g in s || g == f
    ensures forall g :: g in s ==> g in SetInsert(s, f)
    ensures (forall g :: g in s && g.number == f.number && g.smallest == f.smallest ==> g == f) ==> f in SetInsert(s, f)
  {
    if s == [] {
    } else {
      InOrderTail(s);
      if FileLess(f, s[0]) {
        forall g | g in s
          ensures FileLess(f, g)
        {
          if g != s[0] { assert g in s[1..]; }
        }
        InOrderCons(f, s);
      } else if FileLess(s[0], f) {
        SetInsertOrdered(s[1..], f);
        InOrderCons(s[0], SetInsert(s[1..], f));
        forall g | g in s
          ensures g in SetInsert(s, f)
        {
          if g != s[0] { assert g in s[1..]; }
        }
      } else {
        FileLessTotal(f, s[0]);
      }
    }
  }

  // ----- what edits do to one level

  function DeletedAt(edit: FileEdit, l: nat): set<nat> {
    set d | d in edit.deletedFiles && d.0 == l :: d.1
  }

  /** The ordered set s after the first n new files that go to level l. */
  function InsertAll(s: seq<FileMeta>, newFiles: seq<(nat, FileMeta)>, n: nat, l: nat): seq<FileMeta>
    requires n <= |newFiles|
  {
    if n == 0 then s
    else if newFiles[n-1].0 == l then SetInsert(InsertAll(s, newFiles, n - 1, l), newFiles[n-1].1)
    else InsertAll(s, newFiles, n - 1, l)
  }

  /** Adding a file under a deleted number revives the number. */
  function Revive(deleted: set<nat>, newFiles: seq<(nat, FileMeta)>, n: nat, l: nat): set<nat>
    requires n <= |newFiles|
  {
    if n == 0 then deleted
    else if newFiles[n-1].0 == l then Revive(deleted, newFiles, n - 1, l) - {newFiles[n-1].1.number}
    else Revive(deleted, newFiles, n - 1, l)
  }

  /** The files of a level when the additions are merged into base and deleted numbers left out. */
  ghost function Merged(base: set<FileMeta>, deleted: set<nat>, added: set<FileMeta>): set<FileMeta> {
    set f | f in base + added && f.number !in deleted
  }

  /** How often each file with a number not deleted stands in a list. */
  ghost function LiveIn(files: seq<FileMeta>, deleted: set<nat>): multiset<FileMeta> {
    if files == [] then multiset{}
    else
      var f := files[|files|-1];
      LiveIn(files[..|files|-1], deleted) + if f.number in deleted then multiset{} else multiset{f}
  }

  /** No live base file is also added under its number. */
  ghost predicate FreshAdditions(base: seq<FileMeta>, deleted: set<nat>, added: seq<FileMeta>) {
    forall f, g :: f in base && g in added && f.number == g.number ==> f.number in deleted
  }

  // ----- merging one level

  /** out lists, in order, the live files among the first b base and a added files. */
  ghost predicate MergedSoFar(base: seq<FileMeta>, b: nat, deleted: set<nat>, added: seq<FileMeta>, a: nat, out: seq<FileMeta>) {
    && b <= |base| && a <= |added|
    && (forall f :: f in out <==> (f in base[..b] || f in added[..a]) && f.number !in deleted)
    && (FreshAdditions(base, deleted, added) ==> InOrder(out))
  }

  /** The files already copied sort before the ones still to come. */
  ghost predicate Interleaved(base: seq<FileMeta>, b: nat, added: seq<FileMeta>, a: nat)
    requires b <= |base| && a <= |added|
  {
    && (b < |base| && a > 0 ==> FileLess(added[a-1], base[b]))
    && (b > 0 && a < |added| ==> !FileLess(added[a], base[b-1]))
  }

  /** out lists each of them as often as the two lists do. */
  ghost predicate CountedSoFar(base: seq<FileMeta>, b: nat, deleted: set<nat>, added: seq<FileMeta>, a: nat, out: seq<FileMeta>) {
    && b <= |base| && a <= |added|
    && multiset(out) == LiveIn(base[..b], deleted) + LiveIn(added[..a], deleted)
  }

  lemma NothingMerged(base: seq<FileMeta>, deleted: set<nat>, added: seq<FileMeta>)
    ensures MergedSoFar(base, 0, deleted, added, 0, []) && Interleaved(base, 0, added, 0)
    ensures CountedSoFar(base, 0, deleted, added, 0, [])
  {
  }

  lemma PrefixLess(files: seq<FileMeta>, n: nat)
    requires InOrder(files) && n < |files|
    ensures forall g :: g in files[..n] ==> FileLess(g, files[n])
    ensures files[..n+1] == files[..n] + [files[n]]
  {
    forall g | g in files[..n]
      ensures FileLess(g, files[n])
    {
      var i :| 0 <= i < n && files[..n][i] == g;
      assert FileLess(files[i], files[n]);
    }
  }

  lemma AppendInOrder(out: seq<FileMeta>, f: FileMeta)
    requires InOrder(out) && forall g :: g in out ==> FileLess(g, f)
    ensures InOrder(out + [f])
  {
    var t := out + [f];
    forall i, j | 0 <= i < j < |t|
      ensures FileLess(t[i], t[j])
    {
      if j < |out| { assert FileLess(out[i], out[j]); } else { assert out[i] in out; }
    }
  }

  lemma AddBase(base: seq<FileMeta>, b: nat, deleted: set<nat>, added: seq<FileMeta>, a: nat, out: seq<FileMeta>)
    requires InOrder(base) && InOrder(added) && b < |base| && MergedSoFar(base, b, deleted, added, a, out)
    requires a > 0 ==> FileLess(added[a-1], base[b])
    ensures MergedSoFar(base, b + 1, deleted, added, a, if base[b].number in deleted then out else out + [base[b]])
  {
    PrefixLess(base, b);
    forall g | g in added[..a]
      ensures FileLess(g, base[b])
    {
      if a > 0 {
        PrefixLess(added, a - 1);
      }
    }
    if InOrder(out) {
      AppendInOrder(out, base[b]);
    }
  }

  lemma CountOneMore(files: seq<FileMeta>, n: nat, deleted: set<nat>)
    requires n < |files|
    ensures LiveIn(files[..n+1], deleted)
         == LiveIn(files[..n], deleted) + if files[n].number in deleted then multiset{} else multiset{files[n]}
  {
    assert files[..n+1][..n] == files[..n];
  }

  method MaybeAddFile(out: seq<FileMeta>, deleted: set<nat>, f: FileMeta) returns (out': seq<FileMeta>)
    ensures out' == if f.number in deleted then out else out + [f]
    ensures multiset(out') == multiset(out) + if f.number in deleted then multiset{} else multiset{f}
  {
    if f.number in deleted {
      out' := out;
    } else {
      out' := out + [f];
    }
  }

  /** Copies base files up to the first one after added[a], or all of them. */
  method CopyBaseFiles(base: seq<FileMeta>, b: nat, deleted: set<nat>, added: seq<FileMeta>, a: nat, out: seq<FileMeta>)
    returns (b': nat, out': seq<FileMeta>)
    requires InOrder(base) && InOrder(added) && MergedSoFar(base, b, deleted, added, a, out) && Interleaved(base, b, added, a)
    requires CountedSoFar(base, b, deleted, added, a, out)
    ensures MergedSoFar(base, b', deleted, added, a, out') && Interleaved(base, b', added, a)
    ensures CountedSoFar(base, b', deleted, added, a, out')
    ensures b' <= |base| && (b' < |base| ==> a < |added| && FileLess(added[a], base[b']))
  {
    hide MergedSoFar, LiveIn;
    b', out' := b, out;
    while b' < |base| && (a == |added| || !FileLess(added[a], base[b']))
      invariant b' <= |base| && MergedSoFar(base, b', deleted, added, a, out') && Interleaved(base, b', added, a)
      invariant CountedSoFar(base, b', deleted, added, a, out')
      decreases |base| - b'
    {
      AddBase(base, b', deleted, added, a, out');
      CountOneMore(base, b', deleted);
      out' := MaybeAddFile(out', deleted, base[b']);
      if b' + 1 < |base| {
        assert FileLess(base[b'], base[b'+1]);
      }
      b' := b' + 1;
    }
  }

  lemma AddAdded(base: seq<FileMeta>, b: nat, deleted: set<nat>, added: seq<FileMeta>, a: nat, out: seq<FileMeta>)
    requires InOrder(base) && InOrder(added) && a < |added| && MergedSoFar(base, b, deleted, added, a, out)
    requires b > 0 ==> !FileLess(added[a], base[b-1])
    ensures MergedSoFar(base, b, deleted, added, a + 1, if added[a].number in deleted then out else out + [added[a]])
  {
    PrefixLess(added, a);
    if FreshAdditions(base, deleted, added) && added[a].number !in deleted {
      forall g | g in out
        ensures FileLess(g, added[a])
      {
        if g in base[..b] {
          if b > 0 { PrefixLess(base, b - 1); }
          FileLessTotal(base[b-1], added[a]);
          FileLessTotal(g, added[a]);
        }
      }
      AppendInOrder(out, added[a]);
    }
  }

  lemma StillInterleaved(base: seq<FileMeta>, b: nat, added: seq<FileMeta>, a: nat)
    requires InOrder(added) && b <= |base| && a < |added| && Interleaved(base, b, added, a)
    requires b < |base| ==> FileLess(added[a], base[b])
    ensures Interleaved(base, b, added, a + 1)
  {
    if a + 1 < |added| && b > 0 {
      assert FileLess(added[a], added[a+1]);
    }
  }

  lemma AllMerged(base: seq<FileMeta>, b: nat, deleted: set<nat>, added: seq<FileMeta>, out: seq<FileMeta>)
    requires MergedSoFar(base, b, deleted, added, |added|, out) && b == |base|
    requires CountedSoFar(base, b, deleted, added, |added|, out)
    ensures FileSet(out) == Merged(FileSet(base), deleted, FileSet(added))
    ensures multiset(out) == LiveIn(base, deleted) + LiveIn(added, deleted)
    ensures FreshAdditions(base, deleted, added) ==> InOrder(out)
  {
    assert base[..|base|] == base && added[..|added|] == added;
  }

  method MergeLevel(base: seq<FileMeta>, deleted: set<nat>, added: seq<FileMeta>) returns (out: seq<FileMeta>)
    requires InOrder(base) && InOrder(added)
    ensures FileSet(out) == Merged(FileSet(base), deleted, FileSet(added))
    ensures multiset(out) == LiveIn(base, deleted) + LiveIn(added, deleted)
    ensures FreshAdditions(base, deleted, added) ==> InOrder(out)
  {
    hide MergedSoFar, FileLess, InOrder, LiveIn;
    out := [];
    var b: nat := 0;
    NothingMerged(base, deleted, added);
    for a := 0 to |added|
      invariant b <= |base|
      invariant MergedSoFar(base, b, deleted, added, a, out) && Interleaved(base, b, added, a)
      invariant CountedSoFar(base, b, deleted, added, a, out)
    {
      b, out := CopyBaseFiles(base, b, deleted, added, a, out);
      AddAdded(base, b, deleted, added, a, out);
      CountOneMore(added, a, deleted);
      out := MaybeAddFile(out, deleted, added[a]);
      StillInterleaved(base, b, added, a);
    }
    b, out := CopyBaseFiles(base, b, deleted, added, |added|, out);
    AllMerged(base, b, deleted, added, out);
  }

  // ----- the builder

  class Builder {
    const base: Version
    var deletedFiles: seq<set<nat>>
    var addedFiles: seq<seq<FileMeta>>

    ghost predicate Valid()
      reads this
    {
      && |base| == NUM_LEVELS && |deletedFiles| == NUM_LEVELS && |addedFiles| == NUM_LEVELS
      && Ordered(base)
      && forall l :: 0 <= l < NUM_LEVELS ==> InOrder(addedFiles[l])
    }

    constructor (base: Version)
      requires |base| == NUM_LEVELS && Ordered(base)
      ensures Valid() && this.base == base
      ensures forall l :: 0 <= l < NUM_LEVELS ==> deletedFiles[l] == {} && addedFiles[l] == []
    {
      this.base := base;
      deletedFiles := [{}, {}, {}, {}, {}, {}, {}];
      addedFiles := [[], [], [], [], [], [], []];
    }

    /** Deletions first, then additions. */
    method Apply(edit: FileEdit)
      requires Valid() && edit.Valid()
      modifies this
      ensures Valid()
      ensures forall l :: 0 <= l < NUM_LEVELS ==>
        && deletedFiles[l] == Revive(old(deletedFiles)[l] + DeletedAt(edit, l), edit.newFiles, |edit.newFiles|, l)
        && addedFiles[l] == InsertAll(old(addedFiles)[l], edit.newFiles, |edit.newFiles|, l)
    {
      var was := deletedFiles;
      deletedFiles := seq(NUM_LEVELS, l requires 0 <= l < |was| => was[l] + DeletedAt(edit, l));
      for i := 0 to |edit.newFiles|
        invariant Valid()
        invariant forall l :: 0 <= l < NUM_LEVELS ==> deletedFiles[l] == Revive(was[l] + DeletedAt(edit, l), edit.newFiles, i, l)
        invariant forall l :: 0 <= l < NUM_LEVELS ==> addedFiles[l] == InsertAll(old(addedFiles)[l], edit.newFiles, i, l)
      {
        var l, f := edit.newFiles[i].0, edit.newFiles[i].1;
        SetInsertOrdered(addedFiles[l], f);
        deletedFiles := deletedFiles[l := deletedFiles[l] - {f.number}];
        addedFiles := addedFiles[l := SetInsert(addedFiles[l], f)];
      }
    }

    /** The new version: per level, base and added files merged by smallest key, without the
        deleted numbers. */
    method SaveTo() returns (v: Version)
      requires Valid()
      ensures |v| == NUM_LEVELS
      ensures forall l :: 0 <= l < NUM_LEVELS ==>
        FileSet(v[l]) == Merged(FileSet(base[l]), deletedFiles[l], FileSet(addedFiles[l]))
      ensures forall l :: 0 <= l < NUM_LEVELS ==>
        multiset(v[l]) == LiveIn(base[l], deletedFiles[l]) + LiveIn(addedFiles[l], deletedFiles[l])
      ensures forall l :: 0 <= l < NUM_LEVELS && FreshAdditions(base[l], deletedFiles[l], addedFiles[l]) ==> BySmallest(v[l])
    {
      hide LiveIn, Merged, FileSet, FreshAdditions, InOrder;
      v := [];
      for l := 0 to NUM_LEVELS
        invariant |v| == l
        invariant forall m :: 0 <= m < l ==>
          FileSet(v[m]) == Merged(FileSet(base[m]), deletedFiles[m], FileSet(addedFiles[m]))
        invariant forall m :: 0 <= m < l ==>
          multiset(v[m]) == LiveIn(base[m], deletedFiles[m]) + LiveIn(addedFiles[m], deletedFiles[m])
        invariant forall m :: 0 <= m < l && FreshAdditions(base[m], deletedFiles[m], addedFiles[m]) ==> BySmallest(v[m])
      {
        InOrderIsBySmallest(base[l]);
        var files := MergeLevel(base[l], deletedFiles[l], addedFiles[l]);
        InOrderIsBySmallest(files);
        v := v + [files];
      }
    }
  }

  // ----- lists with the same files

  lemma NoFiles(b: seq<FileMeta>)
    ensures FileSet(b) == {} <==> b == []
  {
    if b != [] {
      assert b[0] in FileSet(b);
    }
  }

  lemma SameTails(a: seq<FileMeta>, b: seq<FileMeta>)
    requires a != [] && b != [] && a[0] == b[0] && FileSet(a) == FileSet(b)
    requires AllLess(a[0], a[1..]) && AllLess(b[0], b[1..])
    ensures FileSet(a[1..]) == FileSet(b[1..])
  {
    forall f | f in a[1..]
      ensures f in b[1..]
    {
      assert f in FileSet(b) && FileLess(a[0], f);
    }
    forall f | f in b[1..]
      ensures f in a[1..]
    {
      assert f in FileSet(a) && FileLess(b[0], f);
    }
  }

  /** Two lists of the same files in builder order are the same list. */
  lemma {:induction false} OrderedListsAgree(a: seq<FileMeta>, b: seq<FileMeta>)
    requires InOrder(a) && InOrder(b) && FileSet(a) == FileSet(b)
    ensures a == b
  {
    if a == [] {
      NoFiles(b);
    } else {
      assert a[0] in FileSet(b);
      InOrderTail(a);
      InOrderTail(b);
      if a[0] != b[0] {
        assert b[0] in FileSet(a);
        assert a[0] in b[1..] && b[0] in a[1..];
        FileLessTransitive(a[0], b[0], a[0]);
      }
      SameTails(a, b);
      OrderedListsAgree(a[1..], b[1..]);
    }
  }

  // ----- the edits of flushes and compactions

  ghost function NumbersOf(files: set<FileMeta>): set<nat> {
    set f | f in files :: f.number
  }

  ghost function DeletedBy(edit: FileEdit, l: nat): set<nat> {
    Revive({} + DeletedAt(edit, l), edit.newFiles, |edit.newFiles|, l)
  }

  ghost function AddedBy(edit: FileEdit, l: nat): seq<FileMeta> {
    InsertAll([], edit.newFiles, |edit.newFiles|, l)
  }

  ghost function Edited(v: Version, edit: FileEdit, l: nat): set<FileMeta>
    requires |v| == NUM_LEVELS && l < NUM_LEVELS
  {
    Merged(FileSet(v[l]), DeletedBy(edit, l), FileSet(AddedBy(edit, l)))
  }

  ghost predicate FreshEdit(v: Version, edit: FileEdit, l: nat)
    requires |v| == NUM_LEVELS && l < NUM_LEVELS
  {
    FreshAdditions(v[l], DeletedBy(edit, l), AddedBy(edit, l))
  }

  /** Applies one edit to the current version. */
  method LogAndApply(current: Version, edit: FileEdit) returns (v: Version)
    requires |current| == NUM_LEVELS && Ordered(current) && edit.Valid()
    ensures |v| == NUM_LEVELS
    ensures forall l :: 0 <= l < NUM_LEVELS ==> FileSet(v[l]) == Edited(current, edit, l)
    ensures (forall l :: 0 <= l < NUM_LEVELS ==> FreshEdit(current, edit, l)) ==> Ordered(v)
  {
    var builder := new Builder(current);
    builder.Apply(edit);
    v := builder.SaveTo();
    assert forall l :: 0 <= l < NUM_LEVELS && FreshEdit(current, edit, l) ==> BySmallest(v[l]);
  }

  ghost function NewAt(newFiles: seq<(nat, FileMeta)>, n: nat, l: nat): set<FileMeta>
    requires n <= |newFiles|
  {
    set i | 0 <= i < n && newFiles[i].0 == l :: newFiles[i].1
  }

  ghost predicate SameName(f: FileMeta, g: FileMeta) {
    f.number == g.number && f.smallest == g.smallest
  }

  /** No two files have both number and smallest key in common, by which the builder's ordered
      sets tell files apart. */
  ghost predicate ToldApart(files: set<FileMeta>) {
    forall f, g :: f in files && g in files && SameName(f, g) ==> f == g
  }

  lemma NewAtGrows(newFiles: seq<(nat, FileMeta)>, n: nat, l: nat)
    requires 0 < n <= |newFiles|
    ensures NewAt(newFiles, n, l) == NewAt(newFiles, n - 1, l) + if newFiles[n-1].0 == l then {newFiles[n-1].1} else {}
  {
  }

  ghost predicate OnlyName(files: set<FileMeta>, g: FileMeta) {
    forall h :: h in files && SameName(h, g) ==> h == g
  }

  lemma InsertedName(before: seq<FileMeta>, f: FileMeta, g: FileMeta, here: bool)
    requires InOrder(before) && ((here && g == f) || exists h :: h in before && SameName(h, g))
    ensures var after := if here then SetInsert(before, f) else before;
      exists h :: h in after && SameName(h, g)
  {
    hide FileLess, InOrder;
    SetInsertOrdered(before, f);
    if here && g == f {
      if f in SetInsert(before, f) {
        assert SameName(f, g);
      } else {
        var h :| h in before && h.number == f.number && h.smallest == f.smallest;
        assert SameName(h, g);
      }
    } else {
      var h :| h in before && SameName(h, g);
    }
  }

  /** Of files with the same number and smallest key, the ordered set keeps the one it had. */
  lemma {:induction false} FilesInserted(s: seq<FileMeta>, newFiles: seq<(nat, FileMeta)>, n: nat, l: nat)
    requires InOrder(s) && n <= |newFiles|
    ensures InOrder(InsertAll(s, newFiles, n, l))
    ensures FileSet(s) <= FileSet(InsertAll(s, newFiles, n, l)) <= FileSet(s) + NewAt(newFiles, n, l)
    ensures forall g :: g in NewAt(newFiles, n, l) ==> exists h :: h in InsertAll(s, newFiles, n, l) && SameName(h, g)
    ensures forall g :: g in NewAt(newFiles, n, l) && OnlyName(FileSet(s) + NewAt(newFiles, n, l), g) ==> g in InsertAll(s, newFiles, n, l)
  {
    hide FileLess, InOrder;
    if n > 0 {
      NewAtGrows(newFiles, n, l);
      FilesInserted(s, newFiles, n - 1, l);
      var before, f := InsertAll(s, newFiles, n - 1, l), newFiles[n-1].1;
      SetInsertOrdered(before, f);
      var after := InsertAll(s, newFiles, n, l);
      forall g | g in before
        ensures g in after && g in FileSet(s) + NewAt(newFiles, n, l)
      {
        assert g in FileSet(before);
      }
      forall g | g in NewAt(newFiles, n, l)
        ensures exists h :: h in after && SameName(h, g)
      {
        InsertedName(before, f, g, newFiles[n-1].0 == l);
      }
    }
  }

  lemma NewFilesInserted(s: seq<FileMeta>, newFiles: seq<(nat, FileMeta)>, n: nat, l: nat)
    requires InOrder(s) && n <= |newFiles| && ToldApart(FileSet(s) + NewAt(newFiles, n, l))
    ensures InOrder(InsertAll(s, newFiles, n, l))
    ensures FileSet(InsertAll(s, newFiles, n, l)) == FileSet(s) + NewAt(newFiles, n, l)
  {
    hide InOrder, InsertAll;
    FilesInserted(s, newFiles, n, l);
  }

  lemma {:induction false} NumbersRevived(deleted: set<nat>, newFiles: seq<(nat, FileMeta)>, n: nat, l: nat)
    requires n <= |newFiles|
    ensures Revive(deleted, newFiles, n, l) == deleted - NumbersOf(NewAt(newFiles, n, l))
  {
    if n > 0 {
      NumbersRevived(deleted, newFiles, n - 1, l);
      NewAtGrows(newFiles, n, l);
      if newFiles[n-1].0 == l {
        assert NumbersOf(NewAt(newFiles, n, l)) == NumbersOf(NewAt(newFiles, n - 1, l)) + {newFiles[n-1].1.number};
      }
    } else {
      assert NewAt(newFiles, n, l) == {};
    }
  }

  /** The edit installed for a memtable's file. */
  function FlushEdit(m: nat, h: FileMeta): FileEdit {
    FileEdit({}, [(m, h)])
  }

  /** The edit installed for a compaction: its inputs deleted, its outputs added one level down. */
  function CompactionEdit(level: nat, in0: set<FileMeta>, in1: set<FileMeta>, outs: seq<FileMeta>): FileEdit {
    FileEdit((set f | f in in0 :: (level, f.number)) + (set f | f in in1 :: (level + 1, f.number)),
                seq(|outs|, i requires 0 <= i < |outs| => (level + 1, outs[i])))
  }

  ghost predicate SavedAs(v: Version, v': Version, edit: FileEdit) {
    |v| == |v'| == NUM_LEVELS && forall l :: 0 <= l < NUM_LEVELS ==> FileSet(v'[l]) == Edited(v, edit, l)
  }

  lemma FlushEditAdds(v: Version, v': Version, m: nat, h: FileMeta)
    requires SavedAs(v, v', FlushEdit(m, h)) && m < NUM_LEVELS
    requires forall l, f :: At(v, l, f) ==> f.number != h.number
    ensures Added(v, v', m, h) && forall l :: 0 <= l < NUM_LEVELS ==> FreshEdit(v, FlushEdit(m, h), l)
  {
    var edit := FlushEdit(m, h);
    forall l | 0 <= l < NUM_LEVELS
      ensures AddedBy(edit, l) == if l == m then [h] else []
      ensures DeletedBy(edit, l) == {}
    {
      assert InsertAll([], edit.newFiles, 0, l) == [];
      assert Revive({} + DeletedAt(edit, l), edit.newFiles, 0, l) == {};
    }
    forall l, g
      ensures At(v', l, g) <==> At(v, l, g) || (l == m && g == h)
    {
      if 0 <= l < NUM_LEVELS {
        assert g in FileSet(v'[l]) <==> g in Edited(v, edit, l);
      }
    }
    forall l, f | 0 <= l < NUM_LEVELS && f in v[l]
      ensures f.number != h.number
    {
      assert At(v, l, f);
    }
  }

  lemma CompactionEditAt(level: nat, in0: set<FileMeta>, in1: set<FileMeta>, outs: seq<FileMeta>, l: nat)
    requires forall i, j :: 0 <= i < j < |outs| ==> outs[i].number != outs[j].number
    ensures var edit := CompactionEdit(level, in0, in1, outs);
      && FileSet(AddedBy(edit, l)) == (if l == level + 1 then FileSet(outs) else {})
      && DeletedBy(edit, l) == (if l == level then NumbersOf(in0) else if l == level + 1 then NumbersOf(in1) else {})
                               - (if l == level + 1 then NumbersOf(FileSet(outs)) else {})
  {
    var edit := CompactionEdit(level, in0, in1, outs);
    NewFilesInserted([], edit.newFiles, |outs|, l);
    NumbersRevived({} + DeletedAt(edit, l), edit.newFiles, |outs|, l);
    var news := NewAt(edit.newFiles, |outs|, l);
    assert news == if l == level + 1 then FileSet(outs) else {} by {
      forall f | l == level + 1 && f in outs
        ensures f in news
      {
        var i :| 0 <= i < |outs| && outs[i] == f;
        assert edit.newFiles[i] == (l, f);
      }
    }
    assert DeletedAt(edit, l) == if l == level then NumbersOf(in0) else if l == level + 1 then NumbersOf(in1) else {} by {
      forall f | f in in0
        ensures (level, f.number) in edit.deletedFiles
      {
      }
      forall f | f in in1
        ensures (level + 1, f.number) in edit.deletedFiles
      {
      }
    }
  }

  lemma OnlyInputsDeleted(v: Version, level: nat, in0: set<FileMeta>, in1: set<FileMeta>, outs: seq<FileMeta>, l: nat, g: FileMeta)
    requires DistinctNumbers(v) && l < |v|
    requires forall f :: f in in0 ==> At(v, level, f)
    requires forall f :: f in in1 ==> At(v, level + 1, f)
    requires forall l, g, o :: At(v, l, g) && g !in in0 && g !in in1 && o in outs ==> g.number != o.number
    requires forall f, o :: f in in1 && o in outs ==> f.number != o.number
    ensures At(v, l, g) && l == level ==> (g.number in NumbersOf(in0) <==> g in in0)
    ensures At(v, l, g) && l == level + 1 ==> (g.number in NumbersOf(in1) <==> g in in1)
    ensures At(v, l, g) && l == level + 1 ==> g.number !in NumbersOf(FileSet(outs))
    ensures l == level + 1 && g in outs ==> g.number !in NumbersOf(in1)
  {
    assert g in in0 ==> At(v, level, g);
  }

  /** Deleting by number removes exactly the inputs, because no two files share a number. */
  lemma CompactionEditReplaces(v: Version, v': Version, level: nat, in0: set<FileMeta>, in1: set<FileMeta>, outs: seq<FileMeta>)
    requires DistinctNumbers(v) && level + 1 < NUM_LEVELS
    requires forall f :: f in in0 ==> At(v, level, f)
    requires forall f :: f in in1 ==> At(v, level + 1, f)
    requires forall i, j :: 0 <= i < j < |outs| ==> outs[i].number != outs[j].number
    requires forall l, g, o :: At(v, l, g) && g !in in0 && g !in in1 && o in outs ==> g.number != o.number
    requires forall f, o :: f in in1 && o in outs ==> f.number != o.number
    requires SavedAs(v, v', CompactionEdit(level, in0, in1, outs))
    ensures Replaced(v, v', level, in0, in1, FileSet(outs))
    ensures forall l :: 0 <= l < NUM_LEVELS ==> FreshEdit(v, CompactionEdit(level, in0, in1, outs), l)
  {
    var edit := CompactionEdit(level, in0, in1, outs);
    forall l, g
      ensures At(v', l, g) <==>
        || (At(v, l, g) && !(l == level && g in in0) && !(l == level + 1 && g in in1))
        || (l == level + 1 && g in FileSet(outs))
    {
      if 0 <= l < NUM_LEVELS {
        CompactionEditAt(level, in0, in1, outs, l);
        assert g in FileSet(v'[l]) <==> g in Edited(v, edit, l);
        OnlyInputsDeleted(v, level, in0, in1, outs, l, g);
      }
    }
    forall l | 0 <= l < NUM_LEVELS
      ensures FreshEdit(v, edit, l)
    {
      CompactionEditAt(level, in0, in1, outs, l);
      forall f, g | f in v[l] && g in AddedBy(edit, l)
        ensures f.number == g.number ==> f.number in DeletedBy(edit, l)
      {
        assert g in FileSet(AddedBy(edit, l));
        assert At(v, l, f);
        OnlyInputsDeleted(v, level, in0, in1, outs, l, f);
      }
    }
  }
}
