/** Table files and versions: the metadata the version set keeps for every file,
    together with the sorted run of entries the file holds. */
module Files {
  import opened Keys

  const NUM_LEVELS: nat := 7
  const MAX_MEM_COMPACT_LEVEL: nat := 2

  datatype FileMeta = FileMeta(
    number: nat,
    size: nat,
    smallest: InternalKey,
    largest: InternalKey,
    entries: seq<Entry>)
  {
    ghost predicate Valid() {
      && |entries| > 0
      && StrictlySorted(entries)
      && smallest == entries[0].key
      && largest == entries[|entries| - 1].key
    }

    predicate CoversUser(k: UserKey) {
      smallest.user <= k <= largest.user
    }
  }

  type Version = seq<seq<FileMeta>>

  ghost predicate ValidFiles(files: seq<FileMeta>) {
    forall f :: f in files ==> f.Valid()
  }

  /** A level above zero: files in key order with disjoint internal-key ranges. */
  ghost predicate SortedLevel(files: seq<FileMeta>) {
    forall i, j {:trigger Less(files[i].largest, files[j].smallest)} :: 0 <= i < j < |files| ==> Less(files[i].largest, files[j].smallest)
  }

  ghost predicate NoRepeats(files: seq<FileMeta>) {
    forall i, j :: 0 <= i < j < |files| ==> files[i] != files[j]
  }

  /** As a merging iterator takes them: files of level zero each once, of others in key order. */
  ghost predicate Listed(level: nat, files: seq<FileMeta>) {
    if level == 0 then NoRepeats(files) else SortedLevel(files)
  }

  ghost function FileSet(files: seq<FileMeta>): set<FileMeta> {
    set f | f in files
  }

  ghost function EntriesOf(files: set<FileMeta>): set<Entry> {
    set f, e | f in files && e in f.entries :: e
  }

  ghost predicate WellFormed(v: Version) {
    && |v| == NUM_LEVELS
    && (forall l :: 0 <= l < NUM_LEVELS ==> ValidFiles(v[l]))
    && (forall l :: 1 <= l < NUM_LEVELS ==> SortedLevel(v[l]))
  }

  predicate UserOverlap(f: FileMeta, g: FileMeta) {
    f.smallest.user <= g.largest.user && g.smallest.user <= f.largest.user
  }

  /** g starts, later in key order, with the user key f ends with. */
  predicate Follows(f: FileMeta, g: FileMeta) {
    f.largest.user == g.smallest.user && Less(f.largest, g.smallest)
  }

  function TotalFileSize(files: seq<FileMeta>): nat {
    if files == [] then 0 else TotalFileSize(files[..|files|-1]) + files[|files|-1].size
  }

  lemma {:induction false} SizesAddUp(f: FileMeta, a: seq<FileMeta>, b: seq<FileMeta>)
    ensures TotalFileSize([f]) == f.size && TotalFileSize(a + b) == TotalFileSize(a) + TotalFileSize(b)
    decreases |b|
  {
    assert [f][..0] == [];
    if b == [] {
      assert a + b == a;
    } else {
      SizesAddUp(f, a, b[..|b|-1]);
      assert (a + b)[..|a + b| - 1] == a + b[..|b|-1];
    }
  }

  lemma EntryInRange(f: FileMeta, e: Entry)
    requires f.Valid() && e in f.entries
    ensures f.CoversUser(e.key.user)
    ensures e.key == f.smallest || Less(f.smallest, e.key)
    ensures e.key == f.largest || Less(e.key, f.largest)
  {
    var i :| 0 <= i < |f.entries| && f.entries[i] == e;
    if i > 0 { assert Less(f.entries[0].key, f.entries[i].key); }
    if i < |f.entries| - 1 { assert Less(f.entries[i].key, f.entries[|f.entries| - 1].key); }
  }

  lemma NonEmptyRange(f: FileMeta)
    requires f.Valid()
    ensures f.smallest.user <= f.largest.user
    ensures f.smallest == f.largest || Less(f.smallest, f.largest)
  {
    EntryInRange(f, f.entries[0]);
  }
}
