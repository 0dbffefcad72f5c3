/** Recovery from the manifest: its log is read, every record decoded as an edit, and all edits
    put through one builder. */
module ManifestRecovery {
  import opened Keys
  import opened Coding
  import opened Files
  import opened Runs
  import opened Log
  import opened LogRecovery
  import opened LogSoundness
  import opened VersionBuilder
  import opened ManifestReplay
  import EditRecords

  // ----- the files an edit names

  /** What a stored key stands for in the order of keys, and what the file of a number holds. */
  datatype Storage = Storage(key: Bytes -> InternalKey, contents: nat -> seq<Entry>)

  function Meta(f: EditRecords.NewFile, storage: Storage): FileMeta {
    FileMeta(f.number, f.fileSize, storage.key(f.smallest), storage.key(f.largest), storage.contents(f.number))
  }

  /** The part of an edit that the builder takes. */
  function FilesOf(e: EditRecords.Edit, storage: Storage): FileEdit {
    FileEdit(set d | d in e.deletedFiles :: (d.level, d.number),
             seq(|e.newFiles|, i requires 0 <= i < |e.newFiles| => (e.newFiles[i].level, Meta(e.newFiles[i], storage))))
  }

  function AllFilesOf(edits: seq<EditRecords.Edit>, storage: Storage): seq<FileEdit> {
    seq(|edits|, i requires 0 <= i < |edits| => FilesOf(edits[i], storage))
  }

  ghost predicate LevelsInRange(e: EditRecords.Edit) {
    forall i :: 0 <= i < |e.newFiles| ==> e.newFiles[i].level < NUM_LEVELS
  }

  lemma ParsedLevel(tag: nat, input: Bytes)
    ensures var t := EditRecords.ParseBody(tag, input);
      t.Some? && t.value.value.New? ==> t.value.value.file.level < NUM_LEVELS
  {
  }

  /** The decoder refuses levels that do not exist. */
  lemma {:induction false} DecodedLevels(input: Bytes, e: EditRecords.Edit)
    requires LevelsInRange(e)
    ensures EditRecords.Decoded(input, e).Some? ==> LevelsInRange(EditRecords.Decoded(input, e).value)
    decreases |input|
  {
    hide EditRecords.ParseNew, EditRecords.ParseDeleted, EditRecords.ParsePointer, EditRecords.ParseComparator,
         EditRecords.ParseNumber, EditRecords.InsertFile;
    var tag := GetVarint32(input);
    if tag.Some? {
      var field := EditRecords.ParseBody(tag.value.value, tag.value.rest);
      if field.Some? {
        ParsedLevel(tag.value.value, tag.value.rest);
        DecodedLevels(field.value.rest, EditRecords.Apply(e, field.value.value));
      }
    }
  }

  // ----- reading the manifest

  /** The counters an edit may set. */
  datatype Counters = Counters(logNumber: Option<nat>, prevLogNumber: Option<nat>, nextFileNumber: Option<nat>,
                               lastSequence: Option<nat>)
  {
    function Updated(e: EditRecords.Edit): Counters {
      Counters(if e.logNumber.Some? then e.logNumber else logNumber,
               if e.prevLogNumber.Some? then e.prevLogNumber else prevLogNumber,
               if e.nextFileNumber.Some? then e.nextFileNumber else nextFileNumber,
               if e.lastSequence.Some? then e.lastSequence else lastSequence)
    }

    /** All counters that a manifest must give have been given. */
    predicate Complete() {
      nextFileNumber.Some? && logNumber.Some? && lastSequence.Some?
    }
  }

  const NO_COUNTERS: Counters := Counters(None, None, None, None)

  /** The edits applied so far, the counters, and whether the status is still good. */
  datatype Recovering = Recovering(edits: seq<EditRecords.Edit>, counters: Counters, ok: bool)

  /** The last of the values given, None when none is. */
  ghost predicate IsLast(xs: seq<Option<nat>>, r: Option<nat>) {
    match r
    case None => forall i :: 0 <= i < |xs| ==> xs[i].None?
    case Some(n) => exists i :: 0 <= i < |xs| && xs[i] == Some(n) && forall j :: i < j < |xs| ==> xs[j].None?
  }

  ghost function Given(edits: seq<EditRecords.Edit>, counter: EditRecords.Edit -> Option<nat>): seq<Option<nat>> {
    seq(|edits|, i requires 0 <= i < |edits| => counter(edits[i]))
  }

  /** Every counter has the value of the last edit that sets it. */
  ghost predicate LastOf(edits: seq<EditRecords.Edit>, c: Counters) {
    && IsLast(Given(edits, (e: EditRecords.Edit) => e.logNumber), c.logNumber)
    && IsLast(Given(edits, (e: EditRecords.Edit) => e.prevLogNumber), c.prevLogNumber)
    && IsLast(Given(edits, (e: EditRecords.Edit) => e.nextFileNumber), c.nextFileNumber)
    && IsLast(Given(edits, (e: EditRecords.Edit) => e.lastSequence), c.lastSequence)
  }

  /** Some edit sets the next file number, some the log number, some the last sequence number. */
  ghost predicate AllSet(edits: seq<EditRecords.Edit>) {
    && (exists i :: 0 <= i < |edits| && edits[i].nextFileNumber.Some?)
    && (exists i :: 0 <= i < |edits| && edits[i].logNumber.Some?)
    && (exists i :: 0 <= i < |edits| && edits[i].lastSequence.Some?)
  }

  lemma NextLast(xs: seq<Option<nat>>, x: Option<nat>, r: Option<nat>)
    requires IsLast(xs, r)
    ensures IsLast(xs + [x], if x.Some? then x else r)
  {
    assert (xs + [x])[|xs|] == x;
    if x.None? && r.Some? {
      var i :| 0 <= i < |xs| && xs[i] == r && forall j :: i < j < |xs| ==> xs[j].None?;
      assert (xs + [x])[i] == r;
    }
  }

  lemma NextCounter(edits: seq<EditRecords.Edit>, e: EditRecords.Edit, counter: EditRecords.Edit -> Option<nat>, r: Option<nat>)
    requires IsLast(Given(edits, counter), r)
    ensures IsLast(Given(edits + [e], counter), if counter(e).Some? then counter(e) else r)
  {
    hide IsLast;
    NextLast(Given(edits, counter), counter(e), r);
    assert Given(edits + [e], counter) == Given(edits, counter) + [counter(e)];
  }

  lemma UpdatedLast(edits: seq<EditRecords.Edit>, c: Counters, e: EditRecords.Edit)
    requires LastOf(edits, c)
    ensures LastOf(edits + [e], c.Updated(e))
  {
    hide IsLast, Given;
    NextCounter(edits, e, (e: EditRecords.Edit) => e.logNumber, c.logNumber);
    NextCounter(edits, e, (e: EditRecords.Edit) => e.prevLogNumber, c.prevLogNumber);
    NextCounter(edits, e, (e: EditRecords.Edit) => e.nextFileNumber, c.nextFileNumber);
    NextCounter(edits, e, (e: EditRecords.Edit) => e.lastSequence, c.lastSequence);
  }

  lemma LastSet(edits: seq<EditRecords.Edit>, counter: EditRecords.Edit -> Option<nat>, r: Option<nat>)
    requires IsLast(Given(edits, counter), r)
    ensures r.Some? <==> exists i :: 0 <= i < |edits| && counter(edits[i]).Some?
  {
    var xs := Given(edits, counter);
    if r.Some? {
      var i :| 0 <= i < |xs| && xs[i] == r;
      assert counter(edits[i]).Some?;
    } else {
      forall i | 0 <= i < |edits|
        ensures counter(edits[i]).None?
      {
        assert xs[i].None?;
      }
    }
  }

  lemma CompleteIsAllSet(edits: seq<EditRecords.Edit>, c: Counters)
    requires LastOf(edits, c)
    ensures c.Complete() <==> AllSet(edits)
  {
    hide IsLast, Given;
    LastSet(edits, (e: EditRecords.Edit) => e.nextFileNumber, c.nextFileNumber);
    LastSet(edits, (e: EditRecords.Edit) => e.logNumber, c.logNumber);
    LastSet(edits, (e: EditRecords.Edit) => e.lastSequence, c.lastSequence);
  }

  predicate SameComparator(e: EditRecords.Edit, comparator: Bytes) {
    e.comparator.Some? ==> e.comparator.value == comparator
  }

  function TakeRecord(record: Bytes, comparator: Bytes, r: Recovering): Recovering {
    match EditRecords.Decoded(record, EditRecords.EMPTY_EDIT)
    case None => r.(ok := false)
    case Some(e) =>
      if SameComparator(e, comparator) then r.(edits := r.edits + [e], counters := r.counters.Updated(e))
      else r.(ok := false)
  }

  /** The recovery loop from reader state st on. Any corruption reported ends it. */
  function RecoverFrom(crc: Checksum, file: Bytes, st: ReadState, comparator: Bytes, r: Recovering): Recovering
    requires st.end <= |file|
    decreases st.Remaining(file)
  {
    var (st', record) := ReadLogical(crc, file, st, None);
    var reported := st'.corruptions > 0;
    if record.None? || !r.ok || reported then r.(ok := r.ok && !reported)
    else RecoverFrom(crc, file, st', comparator, TakeRecord(record.value, comparator, r))
  }

  // ----- what recovery finds in any file

  lemma NothingGiven()
    ensures LastOf([], NO_COUNTERS)
  {
  }

  lemma StaysBad(crc: Checksum, file: Bytes, st: ReadState, comparator: Bytes, r: Recovering)
    requires st.end <= |file| && !r.ok
    ensures var r' := RecoverFrom(crc, file, st, comparator, r); !r'.ok && r'.edits == r.edits && r'.counters == r.counters
  {
    hide ReadLogical;
  }

  function EditIn(record: Bytes): Option<EditRecords.Edit> {
    EditRecords.Decoded(record, EditRecords.EMPTY_EDIT)
  }

  ghost predicate IsEditFor(record: Bytes, comparator: Bytes) {
    EditIn(record).Some? && (EditIn(record).value.comparator == None || EditIn(record).value.comparator == Some(comparator))
  }

  ghost predicate AllEdits(records: seq<Bytes>, comparator: Bytes) {
    forall i :: 0 <= i < |records| ==> IsEditFor(records[i], comparator)
  }

  ghost function EditsIn(records: seq<Bytes>, comparator: Bytes): seq<EditRecords.Edit>
    requires AllEdits(records, comparator)
  {
    seq(|records|, i requires 0 <= i < |records| => assert IsEditFor(records[i], comparator); EditIn(records[i]).value)
  }

  lemma FirstEdit(records: seq<Bytes>, comparator: Bytes)
    requires records != []
    ensures AllEdits(records, comparator) <==> IsEditFor(records[0], comparator) && AllEdits(records[1..], comparator)
    ensures AllEdits(records, comparator) ==>
      EditsIn(records, comparator) == [EditIn(records[0]).value] + EditsIn(records[1..], comparator)
  {
    hide EditIn;
    assert forall i :: 0 < i < |records| ==> records[i] == records[1..][i-1];
  }

  lemma TakenEdit(record: Bytes, comparator: Bytes, r: Recovering)
    requires r.ok
    ensures TakeRecord(record, comparator, r).ok <==> IsEditFor(record, comparator)
    ensures IsEditFor(record, comparator) ==> TakeRecord(record, comparator, r).edits == r.edits + [EditIn(record).value]
    ensures var r' := TakeRecord(record, comparator, r); LastOf(r.edits, r.counters) ==> LastOf(r'.edits, r'.counters)
  {
    hide EditRecords.Decoded, LastOf;
    if IsEditFor(record, comparator) && LastOf(r.edits, r.counters) {
      UpdatedLast(r.edits, r.counters, EditIn(record).value);
    }
  }

  /** Any file: recovery is good just when nothing is reported and every record is an edit that
      names no other comparator, and those are the edits applied. */
  lemma {:induction false} RecoversAny(crc: Checksum, file: Bytes, st: ReadState, comparator: Bytes, r: Recovering)
    requires st.end <= |file| && st.corruptions == 0 && r.ok
    ensures var (last, records) := ReadAll(crc, file, st); var r' := RecoverFrom(crc, file, st, comparator, r);
      && (r'.ok <==> last.corruptions == 0 && AllEdits(records, comparator))
      && (r'.ok ==> r'.edits == r.edits + EditsIn(records, comparator))
      && (LastOf(r.edits, r.counters) ==> LastOf(r'.edits, r'.counters))
    decreases st.Remaining(file)
  {
    hide ReadLogical, EditIn, IsEditFor, TakeRecord, LastOf;
    var (st', record) := ReadLogical(crc, file, st, None);
    if record.Some? {
      var (last, records) := ReadAll(crc, file, st);
      assert records[0] == record.value && records[1..] == ReadAll(crc, file, st').1;
      FirstEdit(records, comparator);
      TakenEdit(record.value, comparator, r);
      var next := TakeRecord(record.value, comparator, r);
      if !next.ok {
        StaysBad(crc, file, st', comparator, next);
      } else if st'.corruptions == 0 {
        RecoversAny(crc, file, st', comparator, next);
      }
    }
  }

  lemma RecoversFromStart(crc: Checksum, file: Bytes, comparator: Bytes)
    ensures var (last, records) := ReadAll(crc, file, ReadState(0, [], false, 0));
      var r := RecoverFrom(crc, file, ReadState(0, [], false, 0), comparator, Recovering([], NO_COUNTERS, true));
      && (r.ok <==> last.corruptions == 0 && AllEdits(records, comparator))
      && (r.ok ==> r.edits == EditsIn(records, comparator)) && LastOf(r.edits, r.counters)
  {
    hide LastOf, RecoverFrom, ReadAll, AllEdits, EditsIn;
    NothingGiven();
    RecoversAny(crc, file, ReadState(0, [], false, 0), comparator, Recovering([], NO_COUNTERS, true));
    var records := ReadAll(crc, file, ReadState(0, [], false, 0)).1;
    assert AllEdits(records, comparator) ==> [] + EditsIn(records, comparator) == EditsIn(records, comparator);
  }

  // ----- the edits go through the builder

  /** What the builder holds after the edits so far. */
  ghost predicate Built(builder: Builder, base: Version, edits: seq<EditRecords.Edit>, storage: Storage)
    reads builder
  {
    && builder.Valid() && builder.base == base
    && forall l :: 0 <= l < NUM_LEVELS ==>
         && builder.deletedFiles[l] == DeletedAfter(AllFilesOf(edits, storage), |edits|, l)
         && builder.addedFiles[l] == AddedAfter(AllFilesOf(edits, storage), |edits|, l)
  }

  lemma {:induction false} AfterPrefix(edits: seq<EditRecords.Edit>, e: EditRecords.Edit, storage: Storage, n: nat, l: nat)
    requires n <= |edits|
    ensures DeletedAfter(AllFilesOf(edits + [e], storage), n, l) == DeletedAfter(AllFilesOf(edits, storage), n, l)
    ensures AddedAfter(AllFilesOf(edits + [e], storage), n, l) == AddedAfter(AllFilesOf(edits, storage), n, l)
  {
    hide Revive, InsertAll, FilesOf;
    if n > 0 {
      AfterPrefix(edits, e, storage, n - 1, l);
      assert AllFilesOf(edits + [e], storage)[n-1] == AllFilesOf(edits, storage)[n-1];
    }
  }

  lemma ValidFilesOf(e: EditRecords.Edit, storage: Storage)
    requires LevelsInRange(e)
    ensures FilesOf(e, storage).Valid()
  {
  }

  /** Decodes one record and gives its files to the builder. */
  method ApplyRecord(record: Bytes, comparator: Bytes, builder: Builder, storage: Storage, r: Recovering, ghost base: Version)
    returns (r': Recovering)
    requires Built(builder, base, r.edits, storage)
    modifies builder
    ensures Built(builder, base, r'.edits, storage) && r' == TakeRecord(record, comparator, r)
  {
    hide Revive, InsertAll, EditRecords.Decoded, FilesOf;
    var edit := new EditRecords.VersionEdit();
    var ok := edit.DecodeFrom(record);
    if !ok {
      return r.(ok := false);
    }
    var e := edit.Contents();
    if !SameComparator(e, comparator) {
      return r.(ok := false);
    }
    DecodedLevels(record, EditRecords.EMPTY_EDIT);
    ValidFilesOf(e, storage);
    builder.Apply(FilesOf(e, storage));
    forall l | 0 <= l < NUM_LEVELS
      ensures builder.deletedFiles[l] == DeletedAfter(AllFilesOf(r.edits + [e], storage), |r.edits| + 1, l)
      ensures builder.addedFiles[l] == AddedAfter(AllFilesOf(r.edits + [e], storage), |r.edits| + 1, l)
    {
      AfterPrefix(r.edits, e, storage, |r.edits|, l);
      assert AllFilesOf(r.edits + [e], storage)[|r.edits|] == FilesOf(e, storage);
    }
    r' := r.(edits := r.edits + [e], counters := r.counters.Updated(e));
  }

  lemma SavedBy(builder: Builder, base: Version, edits: seq<EditRecords.Edit>, storage: Storage, v: Version)
    requires Built(builder, base, edits, storage) && |v| == NUM_LEVELS
    requires forall l :: 0 <= l < NUM_LEVELS ==>
      && FileSet(v[l]) == Merged(FileSet(base[l]), builder.deletedFiles[l], FileSet(builder.addedFiles[l]))
      && multiset(v[l]) == LiveIn(base[l], builder.deletedFiles[l]) + LiveIn(builder.addedFiles[l], builder.deletedFiles[l])
    requires forall l :: 0 <= l < NUM_LEVELS && FreshAdditions(base[l], builder.deletedFiles[l], builder.addedFiles[l]) ==> BySmallest(v[l])
    ensures SavedOnce(base, AllFilesOf(edits, storage), v)
  {
    hide Revive, InsertAll, FilesOf, Merged, LiveIn, FreshAdditions, BySmallest;
    assert |AllFilesOf(edits, storage)| == |edits|;
  }

  ghost predicate Adds(e: EditRecords.Edit, l: nat, number: nat) {
    exists j :: 0 <= j < |e.newFiles| && e.newFiles[j].level == l && e.newFiles[j].number == number
  }

  ghost predicate Deletes(e: EditRecords.Edit, l: nat, number: nat) {
    exists j :: 0 <= j < |e.deletedFiles| && e.deletedFiles[j].level == l && e.deletedFiles[j].number == number
  }

  ghost predicate Describes(r: EditRecords.NewFile, storage: Storage, l: nat, f: FileMeta) {
    && r.level == l && r.number == f.number && r.fileSize == f.size
    && storage.key(r.smallest) == f.smallest && storage.key(r.largest) == f.largest && storage.contents(r.number) == f.entries
  }

  ghost predicate DescribedBy(e: EditRecords.Edit, storage: Storage, l: nat, f: FileMeta) {
    exists j :: 0 <= j < |e.newFiles| && Describes(e.newFiles[j], storage, l, f)
  }

  ghost predicate HasNumber(files: seq<FileMeta>, number: nat) {
    exists i :: 0 <= i < |files| && files[i].number == number
  }

  /** Some file was given the number, and no edit that deletes it comes after the last that adds it. */
  ghost predicate NumberLeft(base: seq<FileMeta>, edits: seq<EditRecords.Edit>, l: nat, number: nat) {
    && (HasNumber(base, number) || exists i :: 0 <= i < |edits| && Adds(edits[i], l, number))
    && forall i :: 0 <= i < |edits| && Deletes(edits[i], l, number) ==>
         exists j :: i <= j < |edits| && Adds(edits[j], l, number)
  }

  ghost predicate LevelFollows(base: seq<FileMeta>, edits: seq<EditRecords.Edit>, storage: Storage, l: nat, files: seq<FileMeta>) {
    && (forall f :: f in files ==> f in base || exists i :: 0 <= i < |edits| && DescribedBy(edits[i], storage, l, f))
    && forall number: nat :: HasNumber(files, number) <==> NumberLeft(base, edits, l, number)
  }

  /** Every file of v was in base or is described by an edit, and the numbers in v are those given
      and not deleted since. */
  ghost predicate FollowsEdits(base: Version, edits: seq<EditRecords.Edit>, storage: Storage, v: Version)
    requires |base| == NUM_LEVELS
  {
    && |v| == NUM_LEVELS
    && forall l :: 0 <= l < NUM_LEVELS ==> LevelFollows(base[l], edits, storage, l, v[l])
  }

  lemma {:induction false} AddedAre(edits: seq<EditRecords.Edit>, storage: Storage, l: nat, n: nat, f: FileMeta)
    requires n <= |edits| && f in Accumulated(EditsAt(AllFilesOf(edits, storage), l), n).added
    ensures exists i :: 0 <= i < n && DescribedBy(edits[i], storage, l, f)
  {
    var i := AccumulatedFrom(EditsAt(AllFilesOf(edits, storage), l), n, f);
    var j :| 0 <= j < |edits[i].newFiles| && edits[i].newFiles[j].level == l && f == Meta(edits[i].newFiles[j], storage);
    assert Describes(edits[i].newFiles[j], storage, l, f);
  }

  lemma NumbersAdded(e: EditRecords.Edit, storage: Storage, l: nat, number: nat)
    ensures number in NumbersOf(AtLevel(FilesOf(e, storage), l).added) <==> Adds(e, l, number)
    ensures number in AtLevel(FilesOf(e, storage), l).deleted <==> Deletes(e, l, number)
  {
    var fs := FilesOf(e, storage).newFiles;
    if Adds(e, l, number) {
      var j :| 0 <= j < |e.newFiles| && e.newFiles[j].level == l && e.newFiles[j].number == number;
      assert fs[j].0 == l && fs[j].1 in AtLevel(FilesOf(e, storage), l).added;
    }
    if Deletes(e, l, number) {
      var j :| 0 <= j < |e.deletedFiles| && e.deletedFiles[j].level == l && e.deletedFiles[j].number == number;
      assert e.deletedFiles[j] in e.deletedFiles;
      assert (l, number) in FilesOf(e, storage).deletedFiles;
    }
  }

  /** What the edits accumulate to, number by number. */
  lemma {:induction false} NumbersAccumulated(edits: seq<EditRecords.Edit>, storage: Storage, l: nat, n: nat, number: nat)
    requires n <= |edits|
    ensures var all := Accumulated(EditsAt(AllFilesOf(edits, storage), l), n);
      && (number in NumbersOf(all.added) <==> exists i :: 0 <= i < n && Adds(edits[i], l, number))
      && (number !in all.deleted <==> forall i :: 0 <= i < n && Deletes(edits[i], l, number) ==>
            exists j :: i <= j < n && Adds(edits[j], l, number))
  {
    hide AtLevel, FilesOf, Adds, Deletes;
    if n > 0 {
      NumbersAccumulated(edits, storage, l, n - 1, number);
      NumbersAdded(edits[n-1], storage, l, number);
      assert EditsAt(AllFilesOf(edits, storage), l)[n-1] == AtLevel(FilesOf(edits[n-1], storage), l);
    }
  }

  lemma SavedNumbers(base: seq<FileMeta>, all: LevelEdit, added: seq<FileMeta>, files: seq<FileMeta>, number: nat)
    requires FileSet(files) == Merged(FileSet(base), all.deleted, FileSet(added)) && FileSet(added) <= all.added
    requires forall g :: g in all.added ==> exists h :: h in added && SameName(h, g)
    ensures HasNumber(files, number) <==> (HasNumber(base, number) || number in NumbersOf(all.added)) && number !in all.deleted
  {
    if HasNumber(files, number) {
      var i :| 0 <= i < |files| && files[i].number == number;
      assert files[i] in FileSet(files);
      assert files[i] in FileSet(added) ==> number in NumbersOf(all.added);
    }
    if number !in all.deleted {
      if HasNumber(base, number) {
        var i :| 0 <= i < |base| && base[i].number == number;
        assert base[i] in FileSet(files);
      }
      if number in NumbersOf(all.added) {
        var g :| g in all.added && g.number == number;
        var h :| h in added && SameName(h, g);
        assert h in FileSet(files);
      }
    }
  }

  lemma SavedLevelFollows(base: Version, edits: seq<EditRecords.Edit>, storage: Storage, v: Version, l: nat)
    requires SavedOnce(base, AllFilesOf(edits, storage), v) && l < NUM_LEVELS
    ensures LevelFollows(base[l], edits, storage, l, v[l])
  {
    hide Accumulated, Adds, Deletes, DescribedBy, LiveIn, InOrder, FreshAdditions, BySmallest, DeletedAfter, AddedAfter;
    var fs := AllFilesOf(edits, storage);
    var all, added := Accumulated(EditsAt(fs, l), |fs|), AddedAfter(fs, |fs|, l);
    BuilderAccumulates(fs, |fs|, l);
    forall f | f in v[l]
      ensures f in base[l] || exists i :: 0 <= i < |edits| && DescribedBy(edits[i], storage, l, f)
    {
      assert f in FileSet(v[l]);
      if f !in base[l] {
        AddedAre(edits, storage, l, |fs|, f);
      }
    }
    forall number: nat
      ensures HasNumber(v[l], number) <==> NumberLeft(base[l], edits, l, number)
    {
      NumbersAccumulated(edits, storage, l, |fs|, number);
      SavedNumbers(base[l], all, added, v[l], number);
    }
  }

  lemma SavedFollows(base: Version, edits: seq<EditRecords.Edit>, storage: Storage, v: Version)
    requires SavedOnce(base, AllFilesOf(edits, storage), v)
    ensures FollowsEdits(base, edits, storage, v)
  {
    hide LevelFollows, SavedLevel;
    forall l | 0 <= l < NUM_LEVELS
      ensures LevelFollows(base[l], edits, storage, l, v[l])
    {
      SavedLevelFollows(base, edits, storage, v, l);
    }
  }

  /** Rebuilds the current version, and the counters kept beside it, from a manifest. */
  method Recover(crc: Checksum, file: Bytes, comparator: Bytes, base: Version, storage: Storage)
    returns (v: Option<Version>, counters: Counters)
    requires |base| == NUM_LEVELS && Ordered(base)
    ensures var r := RecoverFrom(crc, file, ReadState(0, [], false, 0), comparator, Recovering([], NO_COUNTERS, true));
      && counters == r.counters && LastOf(r.edits, counters)
      && var (last, records) := ReadAll(crc, file, ReadState(0, [], false, 0));
      && (r.ok <==> last.corruptions == 0 && AllEdits(records, comparator))
      && (r.ok ==> r.edits == EditsIn(records, comparator))
      && (v.Some? <==> r.ok && AllSet(r.edits))
      && (v.Some? ==> SavedOnce(base, AllFilesOf(r.edits, storage), v.value) && FollowsEdits(base, r.edits, storage, v.value))
  {
    hide LastOf, FollowsEdits, AllSet, AllEdits, EditsIn, ReadAll, ReadLogical, TakeRecord, SavedLevel, Revive,
         InsertAll, FilesOf, Merged, LiveIn, FreshAdditions, BySmallest;
    var builder := new Builder(base);
    var reader := new Reader(crc, file);
    var r := Recovering([], NO_COUNTERS, true);
    RecoversFromStart(crc, file, comparator);
    ghost var result := RecoverFrom(crc, file, reader.State(), comparator, r);
    while true
      invariant Built(builder, base, r.edits, storage) && fresh(builder)
      invariant reader.Valid() && fresh(reader) && reader.crc == crc && reader.file == file
      invariant RecoverFrom(crc, file, reader.State(), comparator, r) == result
      decreases reader.State().Remaining(file)
    {
      var record := reader.ReadRecord();
      var reported := reader.corruptions > 0;
      if record.None? || !r.ok || reported {
        r := r.(ok := r.ok && !reported);
        break;
      }
      r := ApplyRecord(record.value, comparator, builder, storage, r, base);
    }
    CompleteIsAllSet(r.edits, r.counters);
    v, counters := None, r.counters;
    if r.ok && counters.Complete() {
      var saved := builder.SaveTo();
      SavedBy(builder, base, r.edits, storage, saved);
      SavedFollows(base, r.edits, storage, saved);
      v := Some(saved);
    }
  }

  // ----- what recovery finds in a manifest cut off at any byte

  ghost predicate WrittenAs(record: Bytes, e: EditRecords.Edit) {
    && EditRecords.Ascending(e.deletedFiles) && EditRecords.AllEncodable(EditRecords.Records(e))
    && record == EditRecords.Bytewise(EditRecords.Records(e))
  }

  /** The records that the edits were written as. */
  ghost predicate Written(records: seq<Bytes>, edits: seq<EditRecords.Edit>) {
    && |records| == |edits|
    && forall i :: 0 <= i < |edits| ==> WrittenAs(records[i], edits[i])
  }

  /** No edit names a comparator other than this one. */
  ghost predicate NoneForeign(edits: seq<EditRecords.Edit>, comparator: Bytes) {
    forall i :: 0 <= i < |edits| ==> edits[i].comparator == None || edits[i].comparator == Some(comparator)
  }

  lemma WrittenEdits(records: seq<Bytes>, edits: seq<EditRecords.Edit>, comparator: Bytes)
    requires Written(records, edits)
    ensures AllEdits(records, comparator) <==> NoneForeign(edits, comparator)
    ensures AllEdits(records, comparator) ==> EditsIn(records, comparator) == edits
  {
    hide EditRecords.Decoded, EditRecords.Bytewise, EditRecords.Records, EditRecords.Ascending, EditRecords.AllEncodable;
    forall i | 0 <= i < |edits|
      ensures EditIn(records[i]) == Some(edits[i])
    {
      assert WrittenAs(records[i], edits[i]);
      EditRecords.EditRoundTrip(edits[i], []);
    }
  }

  /** A manifest cut off at any byte gives the edits whose records are completely in the file, with
      their last counters, just when none of them names a foreign comparator. */
  lemma CutManifestRecovers(crc: Checksum, records: seq<Bytes>, edits: seq<EditRecords.Edit>, cut: nat, comparator: Bytes)
    requires Written(records, edits) && cut <= |Records(crc, 0, records)|
    ensures var n := CompleteRecords(crc, 0, records, cut);
      var r := RecoverFrom(crc, Records(crc, 0, records)[..cut], ReadState(0, [], false, 0), comparator, Recovering([], NO_COUNTERS, true));
      && n <= |edits|
      && (r.ok <==> NoneForeign(edits[..n], comparator))
      && (r.ok ==> r.edits == edits[..n] && LastOf(edits[..n], r.counters))
  {
    hide ReadAll, Records, RecoverFrom, CompleteRecords, WrittenAs, LastOf, AllEdits, EditsIn;
    var n := CompleteRecords(crc, 0, records, cut);
    TruncatedLogReads(crc, records, cut);
    RecoversFromStart(crc, Records(crc, 0, records)[..cut], comparator);
    WrittenEdits(records[..n], edits[..n], comparator);
  }

  /** The version recovered is, list by list, the one that installing those edits one after the
      other gave, when none adds a number its level was given before. */
  method RecoverCut(crc: Checksum, ghost records: seq<Bytes>, ghost edits: seq<EditRecords.Edit>, file: Bytes, comparator: Bytes,
                    base: Version, storage: Storage, ghost n: nat, ghost inTurn: Version)
    returns (v: Option<Version>, counters: Counters)
    requires |base| == NUM_LEVELS && Ordered(base) && Written(records, edits)
    requires |file| <= |Records(crc, 0, records)| && file == Records(crc, 0, records)[..|file|]
    requires n == CompleteRecords(crc, 0, records, |file|) && n <= |edits|
    requires InstalledInTurn(base, AllFilesOf(edits[..n], storage), n, inTurn)
    requires forall l :: 0 <= l < NUM_LEVELS ==>
      NoNumberAddedTwice(FileSet(base[l]), EditsAt(AllFilesOf(edits[..n], storage), l))
    ensures v == if NoneForeign(edits[..n], comparator) && AllSet(edits[..n]) then Some(inTurn) else None
    ensures NoneForeign(edits[..n], comparator) ==> LastOf(edits[..n], counters)
  {
    hide LastOf, NoneForeign, AllSet, FollowsEdits, Records, RecoverFrom, CompleteRecords, Written, SavedOnce, InstalledInTurn,
         NoNumberAddedTwice;
    CutManifestRecovers(crc, records, edits, |file|, comparator);
    v, counters := Recover(crc, file, comparator, base, storage);
    if v.Some? {
      ReplayAgrees(base, AllFilesOf(edits[..n], storage), v.value, inTurn);
    }
  }
}
