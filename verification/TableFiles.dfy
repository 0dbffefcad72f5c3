/** Table files as the files of the store: what the bytes of a finished table stand for among the
    runs of entries that versions are made of. */
module TableFiles {
  import opened Keys
  import opened Coding
  import opened Files
  import opened Blocks
  import opened Separators
  import opened Tables
  import opened TableReader
  import opened PointReads

  // ----- byte strings as ranks

  /** The rank of a byte string in bytewise order, read as digits after the point to base 257. */
  function Rank(s: Bytes): (r: real)
    ensures 0.0 <= r < 1.0 && (s != [] ==> r > 0.0)
  {
    if s == [] then 0.0 else (s[0] as real + 1.0 + Rank(s[1..])) / 257.0
  }

  lemma {:induction false} RankOrder(a: Bytes, b: Bytes)
    ensures BytesLess(a, b) <==> Rank(a) < Rank(b)
    decreases |a| + |b|
  {
    if a != [] && b != [] {
      RankOrder(a[1..], b[1..]);
    }
  }

  lemma RankTells(a: Bytes, b: Bytes)
    ensures Rank(a) == Rank(b) <==> a == b
  {
    RankOrder(a, b);
    RankOrder(b, a);
    BytesLessTotal(a, b);
  }

  // ----- entries

  /** A user key, a sequence number and one of the two types. */
  predicate IsEntryKey(key: Bytes) {
    IsInternal(key) && PackedTag(key) % 256 <= 1
  }

  function KeyOf(key: Bytes): (k: InternalKey)
    requires IsEntryKey(key)
    ensures k.Tag() == PackedTag(key)
  {
    Fixed64Fits(key[|key| - 8..]);
    InternalKey(Rank(ExtractUserKey(key)), PackedTag(key) / 256, if PackedTag(key) % 256 == 1 then Value else Deletion)
  }

  function AsString(b: Bytes): string {
    seq(|b|, i requires 0 <= i < |b| => b[i] as char)
  }

  function EntryOf(p: Pair): Entry
    requires IsEntryKey(p.key)
  {
    Entry(KeyOf(p.key), AsString(p.value))
  }

  ghost predicate EntryKeys(run: seq<Pair>) {
    forall i :: 0 <= i < |run| ==> IsEntryKey(run[i].key)
  }

  function RunOf(run: seq<Pair>): seq<Entry>
    requires forall i :: 0 <= i < |run| ==> IsEntryKey(run[i].key)
  {
    seq(|run|, i requires 0 <= i < |run| => EntryOf(run[i]))
  }

  /** The order of encoded keys is that of the keys they stand for. */
  lemma KeyOrder(a: Bytes, b: Bytes)
    requires IsEntryKey(a) && IsEntryKey(b)
    ensures InternalLess(a, b) <==> Less(KeyOf(a), KeyOf(b))
  {
    hide Rank, BytesLess, PackedTag;
    RankOrder(ExtractUserKey(a), ExtractUserKey(b));
    RankTells(ExtractUserKey(a), ExtractUserKey(b));
  }

  lemma RunOrder(run: seq<Pair>)
    requires SortedRun(run) && EntryKeys(run)
    ensures StrictlySorted(RunOf(run))
  {
    hide InternalLess, KeyOf;
    forall i, j | 0 <= i < j < |run|
      ensures Less(RunOf(run)[i].key, RunOf(run)[j].key)
    {
      KeyOrder(run[i].key, run[j].key);
    }
  }

  // ----- files

  /** The record of a file that holds a run. */
  function FileOf(number: nat, size: nat, run: seq<Pair>): FileMeta
    requires run != [] && forall i :: 0 <= i < |run| ==> IsEntryKey(run[i].key)
  {
    FileMeta(number, size, KeyOf(run[0].key), KeyOf(run[|run| - 1].key), RunOf(run))
  }

  lemma FileValid(number: nat, size: nat, run: seq<Pair>)
    requires run != [] && SortedRun(run) && EntryKeys(run)
    ensures FileOf(number, size, run).Valid()
  {
    hide InternalLess, KeyOf, PackedTag, SortedRun, StrictlySorted, Rank;
    RunOrder(run);
  }

  lemma NextPair(run: seq<Pair>, i: nat)
    requires SortedRun(run) && i < |run|
    ensures IsInternal(run[i].key) && (run[..i] != [] ==> InternalLess(LastKey(run[..i]), run[i].key))
    ensures run[..i+1] == run[..i] + [Pair(run[i].key, run[i].value)]
  {
    assert i > 0 ==> LastKey(run[..i]) == run[i-1].key;
  }

  /** Writes a run to a table file and records it. */
  method BuildTable(options: Options, number: nat, run: seq<Pair>) returns (file: Bytes, meta: FileMeta, ghost m: Image)
    requires options.Valid() && run != [] && SortedRun(run) && EntryKeys(run)
    ensures IsTable(options, file, m) && m.cut.run == run
    ensures meta == FileOf(number, |file|, run) && meta.Valid()
  {
    hide TableBuilder.Valid, IsTable, InternalLess, KeyOf, RunOf, SortedRun, LastKey, FileMeta.Valid;
    var builder := new TableBuilder(options);
    var smallest, largest := KeyOf(run[0].key), KeyOf(run[0].key);
    for i := 0 to |run|
      invariant fresh(builder) && fresh(builder.dataBlock) && fresh(builder.indexBlock)
      invariant builder.filterBlock != null ==> fresh(builder.filterBlock)
      invariant builder.Valid() && !builder.closed && builder.options == options && builder.cut.run == run[..i]
      invariant largest == KeyOf(run[if i == 0 then 0 else i - 1].key)
    {
      largest := KeyOf(run[i].key);
      NextPair(run, i);
      builder.Add(run[i].key, run[i].value);
    }
    assert run[..|run|] == run;
    m := builder.Finish();
    file := builder.file;
    meta := FileMeta(number, |file|, smallest, largest, RunOf(run));
    FileValid(number, |file|, run);
  }

  // ----- reading

  /** Landing on a pair of the run is landing on its entry. */
  lemma LandsOnEntry(run: seq<Pair>, key: Bytes, g: nat)
    requires EntryKeys(run) && IsEntryKey(key) && LandsOn(InternalLess, run, key, g)
    ensures g <= |run|
    ensures forall i :: 0 <= i < g ==> Less(RunOf(run)[i].key, KeyOf(key))
    ensures g < |run| ==> !Less(RunOf(run)[g].key, KeyOf(key))
  {
    hide InternalLess, KeyOf;
    forall i | 0 <= i < g
      ensures Less(RunOf(run)[i].key, KeyOf(key))
    {
      KeyOrder(run[i].key, key);
    }
    if g < |run| {
      KeyOrder(run[g].key, key);
    }
  }

  /** The key that a lookup of a user key at a snapshot seeks. */
  function EncodedLookup(user: Bytes, s: SequenceNumber): Bytes {
    user + Fixed64(256 * s + 1)
  }

  lemma LookupDecodes(user: Bytes, s: SequenceNumber)
    ensures IsEntryKey(EncodedLookup(user, s)) && ExtractUserKey(EncodedLookup(user, s)) == user
    ensures KeyOf(EncodedLookup(user, s)) == LookupKey(Rank(user), s)
  {
    hide DecodeFixed64, Fixed64, Rank;
    var key := EncodedLookup(user, s);
    Fixed64RoundTrip(256 * s + 1, []);
    assert key[|key| - 8..] == Fixed64(256 * s + 1) + [];
  }

  /** What a table lookup says of the file's run: the newest entry of the user key at or below
      the snapshot, or that there is none. */
  lemma LookupAnswers(run: seq<Pair>, user: Bytes, s: SequenceNumber, g: nat, r: Option<Pair>)
    requires SortedRun(run) && EntryKeys(run) && Found(run, EncodedLookup(user, s), g, r)
    ensures r.Some? ==> IsEntryKey(r.value.key)
    ensures Answers(Elements(RunOf(run)), Rank(user), s,
      if r.Some? && ExtractUserKey(r.value.key) == user then Some(EntryOf(r.value)) else None)
  {
    hide InternalLess, Rank, SortedRun, PackedTag, StrictlySorted, Answers;
    LookupDecodes(user, s);
    LandsOnEntry(run, EncodedLookup(user, s), g);
    RunOrder(run);
    RunAnswer(RunOf(run), Rank(user), s, g);
    if g < |run| {
      RankTells(ExtractUserKey(run[g].key), user);
    }
  }

  lemma OpensSorted(t: Table, m: Image)
    requires Opens(t, m)
    ensures SortedRun(m.cut.run)
  {
  }

  /** A point read of one file. */
  method TableGet(t: Table, user: Bytes, s: SequenceNumber, ghost m: Image) returns (r: Option<Entry>)
    requires Opens(t, m) && EntryKeys(m.cut.run)
    ensures Answers(Elements(RunOf(m.cut.run)), Rank(user), s, r)
  {
    hide Opens, Answers, SortedRun, IsEntryKey, RunOf;
    LookupDecodes(user, s);
    var found := InternalGet(t, EncodedLookup(user, s), m);
    ghost var g :| Found(m.cut.run, EncodedLookup(user, s), g, found);
    OpensSorted(t, m);
    LookupAnswers(m.cut.run, user, s, g, found);
    r := None;
    if found.Some? && ExtractUserKey(found.value.key) == user {
      r := Some(EntryOf(found.value));
    }
  }
}
