/** Point lookups: memtable, immutable memtable, then the files level by level. */
module PointReads {
  import opened Keys
  import opened Files
  import opened Levels
  import opened Runs
  import opened RunReads
  import opened InputSelection

  /** r is the newest entry of k at s among es, if there is one. */
  ghost predicate Answers(es: set<Entry>, k: UserKey, s: nat, r: Option<Entry>) {
    match r
    case Some(e) => Newest(es, k, s, e)
    case None => forall x :: x in es && x.key.user == k ==> x.key.seqno > s
  }

  /** The value a reader gets from the entry found. */
  function ValueOf(r: Option<Entry>): Option<string> {
    match r
    case Some(e) => if e.key.kind.Value? then Some(e.value) else None
    case None => None
  }

  lemma AnswerIsVisible(es: set<Entry>, k: UserKey, s: nat, r: Option<Entry>)
    requires UniqueVersions(es) && Answers(es, k, s, r)
    ensures ValueOf(r) == Visible(es, k, s)
  {
    match r
    case Some(e) => VisibleIsNewest(es, k, s, e);
    case None => VisibleNone(es, k, s);
  }

  /** Finding something in the newer layer, or nothing there and asking the older one. */
  lemma AnswerLayers(newer: set<Entry>, older: set<Entry>, k: UserKey, s: nat, r: Option<Entry>)
    requires Answers(newer, k, s, r)
    requires forall e, x :: e in newer && x in older && e.key.user == x.key.user ==> e.key.seqno > x.key.seqno
    ensures r.Some? ==> Answers(newer + older, k, s, r)
    ensures r.None? ==> forall q :: Answers(older, k, s, q) ==> Answers(newer + older, k, s, q)
  {
  }

  // ----- one sorted run

  /** Position of the first entry at or after key. */
  function SeekFrom(es: seq<Entry>, i: nat, key: InternalKey): (pos: nat)
    requires i <= |es|
    ensures i <= pos <= |es|
    ensures forall j :: i <= j < pos ==> Less(es[j].key, key)
    ensures pos < |es| ==> !Less(es[pos].key, key)
    decreases |es| - i
  {
    if i < |es| && Less(es[i].key, key) then SeekFrom(es, i + 1, key) else i
  }

  function LookupKey(k: UserKey, s: SequenceNumber): InternalKey {
    InternalKey(k, s, Value)
  }

  lemma RunAnswer(es: seq<Entry>, k: UserKey, s: SequenceNumber, pos: nat)
    requires StrictlySorted(es) && pos <= |es|
    requires forall i :: 0 <= i < pos ==> Less(es[i].key, LookupKey(k, s))
    requires pos < |es| ==> !Less(es[pos].key, LookupKey(k, s))
    ensures Answers(Elements(es), k, s, if pos < |es| && es[pos].key.user == k then Some(es[pos]) else None)
  {
    forall i | 0 <= i < |es| && es[i].key.user == k && es[i].key.seqno <= s
      ensures pos <= i && es[pos].key.user == k && es[i].key.seqno <= es[pos].key.seqno
    {
      assert !Less(es[i].key, LookupKey(k, s));
      if pos < i { assert Less(es[pos].key, es[i].key); }
    }
  }

  /** Seeks to the lookup key and accepts the entry there if it has the user key. */
  method SeekRun(es: seq<Entry>, k: UserKey, s: SequenceNumber) returns (r: Option<Entry>)
    requires StrictlySorted(es)
    ensures Answers(Elements(es), k, s, r)
  {
    var pos := SeekFrom(es, 0, LookupKey(k, s));
    RunAnswer(es, k, s, pos);
    if pos < |es| && es[pos].key.user == k {
      r := Some(es[pos]);
    } else {
      r := None;
    }
  }

  // ----- level zero

  function InsertByNumber(f: FileMeta, files: seq<FileMeta>): seq<FileMeta> {
    if files == [] || f.number >= files[0].number then [f] + files
    else [files[0]] + InsertByNumber(f, files[1..])
  }

  function SortNewestFirst(files: seq<FileMeta>): seq<FileMeta> {
    if files == [] then [] else InsertByNumber(files[0], SortNewestFirst(files[1..]))
  }

  ghost predicate NewestFirst(files: seq<FileMeta>) {
    forall i, j :: 0 <= i < j < |files| ==> files[i].number >= files[j].number
  }

  lemma {:induction false} InsertKeepsOrder(f: FileMeta, files: seq<FileMeta>)
    requires NewestFirst(files)
    ensures NewestFirst(InsertByNumber(f, files))
    ensures forall g :: g in InsertByNumber(f, files) <==> g in files || g == f
  {
    if files != [] && f.number < files[0].number {
      InsertKeepsOrder(f, files[1..]);
      assert files == [files[0]] + files[1..];
      var rest := InsertByNumber(f, files[1..]);
      forall j | 0 <= j < |rest|
        ensures files[0].number >= rest[j].number
      {
        assert rest[j] in rest;
      }
    }
  }

  lemma {:induction false} SortedNewestFirst(files: seq<FileMeta>)
    ensures NewestFirst(SortNewestFirst(files))
    ensures forall g :: g in SortNewestFirst(files) <==> g in files
  {
    if files != [] {
      SortedNewestFirst(files[1..]);
      InsertKeepsOrder(files[0], SortNewestFirst(files[1..]));
      assert files == [files[0]] + files[1..];
    }
  }

  ghost function LevelEntries(v: Version, l: nat): set<Entry>
    requires l < |v|
  {
    EntriesOf(FileSet(v[l]))
  }

  ghost function UpTo(v: Version, n: nat): set<Entry>
    requires n <= |v|
  {
    set l, f, e | 0 <= l < n && f in v[l] && e in f.entries :: e
  }

  lemma PrefixEntry(files: seq<FileMeta>, i: nat, j: nat, x: Entry)
    requires j < i <= |files| && x in files[j].entries
    ensures x in EntriesOf(FileSet(files[..i]))
  {
    assert files[j] in files[..i];
    assert files[j] in FileSet(files[..i]);
  }

  lemma FirstFileAnswers(files: seq<FileMeta>, i: nat, k: UserKey, s: nat, e: Entry)
    requires i < |files| && Newest(Elements(files[i].entries), k, s, e)
    requires forall a, b :: 0 <= a < b < |files| ==> files[a] == files[b] || Newer(files[a], files[b])
    requires Answers(EntriesOf(FileSet(files[..i])), k, s, None)
    ensures Newest(EntriesOf(FileSet(files)), k, s, e)
  {
    forall x | x in EntriesOf(FileSet(files)) && x.key.user == k && x.key.seqno <= s
      ensures x.key.seqno <= e.key.seqno
    {
      var f :| f in FileSet(files) && x in f.entries;
      var j: nat :| j < |files| && files[j] == f;
      if j < i {
        PrefixEntry(files, i, j, x);
      } else if i < j {
        assert files[i] == files[j] || Newer(files[i], files[j]);
      }
    }
    assert files[i] in FileSet(files);
  }

  /** Searches the files of the list in turn and stops at the first that has an entry. */
  method SearchInTurn(files: seq<FileMeta>, k: UserKey, s: SequenceNumber) returns (r: Option<Entry>)
    requires ValidFiles(files)
    requires forall i, j :: 0 <= i < j < |files| ==> files[i] == files[j] || Newer(files[i], files[j])
    ensures Answers(EntriesOf(FileSet(files)), k, s, r)
  {
    for i := 0 to |files|
      invariant Answers(EntriesOf(FileSet(files[..i])), k, s, None)
    {
      assert files[i] in files;
      r := SeekRun(files[i].entries, k, s);
      if r.Some? {
        FirstFileAnswers(files, i, k, s, r.value);
        return;
      }
      assert FileSet(files[..i+1]) == FileSet(files[..i]) + {files[i]};
    }
    assert files[..|files|] == files;
    return None;
  }

  /** Only files whose range covers the user key matter. */
  lemma CoveringFilesSuffice(v: Version, l: nat, fs: set<FileMeta>, k: UserKey, s: nat, r: Option<Entry>)
    requires Shape(v) && l < |v| && forall f :: f in fs <==> f in v[l] && f.CoversUser(k)
    requires Answers(EntriesOf(fs), k, s, r)
    ensures Answers(LevelEntries(v, l), k, s, r)
  {
    forall x | x in LevelEntries(v, l) && x.key.user == k
      ensures x in EntriesOf(fs)
    {
      var f :| f in FileSet(v[l]) && x in f.entries;
      assert At(v, l, f);
      EntryInRange(f, x);
    }
  }

  method SearchLevelZero(v: Version, k: UserKey, s: SequenceNumber) returns (r: Option<Entry>)
    requires LevelOrder(v)
    ensures Answers(LevelEntries(v, 0), k, s, r)
  {
    var tmp: seq<FileMeta> := [];
    for i := 0 to |v[0]|
      invariant forall f :: f in tmp <==> f in v[0][..i] && f.CoversUser(k)
    {
      if v[0][i].CoversUser(k) {
        tmp := tmp + [v[0][i]];
      }
    }
    assert v[0][..|v[0]|] == v[0];
    var files := SortNewestFirst(tmp);
    SortedNewestFirst(tmp);
    forall i, j | 0 <= i < j < |files|
      ensures files[i] == files[j] || Newer(files[i], files[j])
    {
      assert files[i] in files && files[j] in files;
      assert At(v, 0, files[i]) && At(v, 0, files[j]);
    }
    forall f | f in files
      ensures f.Valid()
    {
      assert At(v, 0, f);
    }
    r := SearchInTurn(files, k, s);
    CoveringFilesSuffice(v, 0, FileSet(files), k, s, r);
  }

  // ----- deeper levels: at most one file can hold the answer

  lemma EntryAtOrAfter(files: seq<FileMeta>, k: UserKey, s: SequenceNumber, index: nat, r: Option<Entry>, j: nat, x: Entry)
    requires ValidFiles(files) && SortedLevel(files) && index <= |files| && j < |files|
    requires forall i :: 0 <= i < index ==> Less(files[i].largest, LookupKey(k, s))
    requires forall i :: index <= i < |files| ==> !Less(files[i].largest, LookupKey(k, s))
    requires if index < |files| then Answers(Elements(files[index].entries), k, s, r) else r == None
    requires x in files[j].entries && x.key.user == k && x.key.seqno <= s
    ensures r.Some? && x.key.seqno <= r.value.key.seqno
  {
    EntryInRange(files[j], x);
    assert index <= j;
    if index < j {
      var f := files[index];
      assert f in files && Less(f.largest, files[j].smallest);
      var last := f.entries[|f.entries|-1];
      assert last in Elements(f.entries) && last.key == f.largest;
      assert f.largest.user == k && f.largest.seqno <= s;
      var e := r.value;
      assert Less(f.largest, x.key);
    }
  }

  lemma OneFileSuffices(files: seq<FileMeta>, k: UserKey, s: SequenceNumber, index: nat, r: Option<Entry>)
    requires ValidFiles(files) && SortedLevel(files) && index <= |files|
    requires forall i :: 0 <= i < index ==> Less(files[i].largest, LookupKey(k, s))
    requires forall i :: index <= i < |files| ==> !Less(files[i].largest, LookupKey(k, s))
    requires if index < |files| then Answers(Elements(files[index].entries), k, s, r) else r == None
    ensures Answers(EntriesOf(FileSet(files)), k, s, r)
  {
    forall x | x in EntriesOf(FileSet(files)) && x.key.user == k && x.key.seqno <= s
      ensures r.Some? && x.key.seqno <= r.value.key.seqno
    {
      var f :| f in FileSet(files) && x in f.entries;
      var j :| 0 <= j < |files| && files[j] == f;
      EntryAtOrAfter(files, k, s, index, r, j, x);
    }
    if r.Some? { assert files[index] in FileSet(files); }
  }

  method SearchSortedLevel(v: Version, l: nat, k: UserKey, s: SequenceNumber) returns (r: Option<Entry>)
    requires WellFormed(v) && 0 < l < NUM_LEVELS
    ensures Answers(LevelEntries(v, l), k, s, r)
  {
    var index := FindFile(v[l], LookupKey(k, s));
    if index >= |v[l]| {
      OneFileSuffices(v[l], k, s, index, None);
      return None;
    }
    var f := v[l][index];
    assert f in v[l];
    if k < f.smallest.user {
      forall x | x in f.entries
        ensures x.key.user != k
      {
        EntryInRange(f, x);
      }
      OneFileSuffices(v[l], k, s, index, None);
      return None;
    }
    r := SeekRun(f.entries, k, s);
    OneFileSuffices(v[l], k, s, index, r);
  }

  // ----- all levels

  lemma InUpTo(v: Version, n: nat, m: nat, g: FileMeta, x: Entry)
    requires m < n <= |v| && g in v[m] && x in g.entries
    ensures x in UpTo(v, n)
  {
  }

  lemma UpToNext(v: Version, l: nat, k: UserKey, s: nat, r: Option<Entry>)
    requires LevelOrder(v) && l < NUM_LEVELS
    requires Answers(UpTo(v, l), k, s, None) && Answers(LevelEntries(v, l), k, s, r)
    ensures r.None? ==> Answers(UpTo(v, l + 1), k, s, None)
    ensures r.Some? ==> Answers(StoredEntries(v), k, s, r)
  {
    if r.Some? {
      var e := r.value;
      var f :| f in FileSet(v[l]) && e in f.entries;
      assert At(v, l, f);
      forall x | x in StoredEntries(v) && x.key.user == k && x.key.seqno <= s
        ensures x.key.seqno <= e.key.seqno
      {
        var m: nat, g :| m < |v| && g in v[m] && x in g.entries;
        assert At(v, m, g);
        if m < l {
          InUpTo(v, l, m, g, x);
        } else if m == l {
          assert g in FileSet(v[l]);
        } else {
          assert Newer(f, g);
        }
      }
    } else {
      forall x | x in UpTo(v, l + 1) && x.key.user == k
        ensures x.key.seqno > s
      {
        var m, g :| 0 <= m < l + 1 && g in v[m] && x in g.entries;
        if m < l { InUpTo(v, l, m, g, x); } else { assert g in FileSet(v[l]); }
      }
    }
  }

  /** The levels are searched from the top, and the first entry found is the newest. */
  method VersionGet(v: Version, k: UserKey, s: SequenceNumber) returns (r: Option<Entry>)
    requires LevelOrder(v) && WellFormed(v)
    ensures Answers(StoredEntries(v), k, s, r)
  {
    for l := 0 to NUM_LEVELS
      invariant Answers(UpTo(v, l), k, s, None)
    {
      if |v[l]| > 0 {
        if l == 0 {
          r := SearchLevelZero(v, k, s);
        } else {
          r := SearchSortedLevel(v, l, k, s);
        }
        UpToNext(v, l, k, s, r);
        if r.Some? {
          return;
        }
      } else {
        UpToNext(v, l, k, s, None);
      }
    }
    assert UpTo(v, NUM_LEVELS) == StoredEntries(v);
    return None;
  }

  /** Memtables first: they hold only newer entries than the files. */
  method Get(mem: seq<Entry>, imm: Option<seq<Entry>>, current: Version, k: UserKey, s: SequenceNumber, ghost st: State)
    returns (value: Option<string>)
    requires Inv(st) && st.current == current
    requires StrictlySorted(mem) && Elements(mem) == st.mem
    requires match imm case Some(es) => StrictlySorted(es) && Elements(es) == st.imm case None => st.imm == {}
    ensures value == Visible(st.All(), k, s)
  {
    var inMem := SeekRun(mem, k, s);
    AnswerLayers(st.mem, st.imm, k, s, inMem);
    if inMem.Some? {
      AnswerLayers(st.mem + st.imm, StoredEntries(current), k, s, inMem);
      AnswerIsVisible(st.All(), k, s, inMem);
      return ValueOf(inMem);
    }
    if imm.Some? {
      var inImm := SeekRun(imm.value, k, s);
      assert Answers(st.mem + st.imm, k, s, inImm);
      AnswerLayers(st.mem + st.imm, StoredEntries(current), k, s, inImm);
      if inImm.Some? {
        AnswerIsVisible(st.All(), k, s, inImm);
        return ValueOf(inImm);
      }
    }
    assert Answers(st.mem + st.imm, k, s, None);
    AnswerLayers(st.mem + st.imm, StoredEntries(current), k, s, None);
    WellFormedFromOrder(current);
    var r := VersionGet(current, k, s);
    AnswerIsVisible(st.All(), k, s, r);
    return ValueOf(r);
  }

  /** In every run whose compactions split no user key, Get at a live snapshot returns exactly
      what the writes up to that snapshot left there. */
  method GetInRun(ghost run: seq<State>, ghost n: nat, mem: seq<Entry>, imm: Option<seq<Entry>>, current: Version,
                  k: UserKey, s: SequenceNumber)
    returns (value: Option<string>)
    requires GuardedRun(run) && n < |run| && run[n].current == current
    requires s in run[n].snapshots || s >= run[n].OldestSnapshot()
    requires StrictlySorted(mem) && Elements(mem) == run[n].mem
    requires match imm case Some(es) => StrictlySorted(es) && Elements(es) == run[n].imm case None => run[n].imm == {}
    ensures value == Visible(run[n].history, k, s)
  {
    GuardedRunReadsRight(run, n);
    if s in run[n].snapshots { LiveNotOlder(run[n], s); }
    value := Get(mem, imm, current, k, s, run[n]);
  }
}
