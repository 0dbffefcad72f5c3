/** Recovering a memtable from a log that a crash may have cut off at any byte. */
module CrashRecovery {
  import opened Keys
  import opened Coding
  import opened Log
  import opened LogRecovery
  import opened LogSoundness
  import opened WriteBatches

  /** What recovery has built: the updates inserted so far, the largest sequence number, and
      whether the status is still good. */
  datatype Recovered = Recovered(updates: seq<Update>, maxSequence: nat, ok: bool)

  /** The last sequence number of a stored batch, in 64-bit arithmetic. */
  function LastSequence(rep: Bytes): nat
    requires |rep| >= HEADER
  {
    (Sequence(rep) + Count(rep) - 1) % TWO_64
  }

  /** One record: too short ones are reported, and errors count only with paranoid checks. */
  function RecoverRecord(record: Bytes, r: Recovered, paranoid: bool): Recovered {
    if |record| < HEADER then
      r.(ok := !paranoid)
    else
      var r' := r.(updates := r.updates + Replayed(record));
      if paranoid && !WellStored(record) then r'.(ok := false)
      else r'.(maxSequence := if LastSequence(record) > r.maxSequence then LastSequence(record) else r.maxSequence)
  }

  /** The recovery loop from reader state st on. */
  function RecoverFrom(crc: Checksum, file: Bytes, st: ReadState, r: Recovered, paranoid: bool): Recovered
    requires st.end <= |file|
    decreases st.Remaining(file)
  {
    var (st', record) := ReadLogical(crc, file, st, None);
    var reported := paranoid && st'.corruptions > 0;
    if record.None? || !r.ok || reported then r.(ok := r.ok && !reported)
    else RecoverFrom(crc, file, st', RecoverRecord(record.value, r, paranoid), paranoid)
  }

  method ReplayRecord(record: Bytes, r: Recovered, paranoid: bool) returns (r': Recovered)
    ensures r' == RecoverRecord(record, r, paranoid)
  {
    if |record| < HEADER {
      return r.(ok := !paranoid);
    }
    var updates, ok := InsertInto(record, r.updates);
    r' := r.(updates := updates);
    if paranoid && !ok {
      return r'.(ok := false);
    }
    var last := LastSequence(record);
    if last > r.maxSequence {
      r' := r'.(maxSequence := last);
    }
  }

  method RecoverLogFile(crc: Checksum, file: Bytes, maxSequence: nat, paranoid: bool) returns (r: Recovered)
    ensures r == RecoverFrom(crc, file, ReadState(0, [], false, 0), Recovered([], maxSequence, true), paranoid)
  {
    hide ReadLogical, RecoverRecord;
    var reader := new Reader(crc, file);
    r := Recovered([], maxSequence, true);
    ghost var result := RecoverFrom(crc, file, reader.State(), r, paranoid);
    while true
      invariant reader.Valid() && fresh(reader) && reader.crc == crc && reader.file == file
      invariant RecoverFrom(crc, file, reader.State(), r, paranoid) == result
      decreases reader.State().Remaining(file)
    {
      var record := reader.ReadRecord();
      var reported := paranoid && reader.corruptions > 0;
      if record.None? || !r.ok || reported {
        r := r.(ok := r.ok && !reported);
        return;
      }
      r := ReplayRecord(record.value, r, paranoid);
    }
  }

  // ----- what recovery finds in a truncated log

  datatype Batch = Batch(seqno: nat, ops: seq<Op>)

  /** The log records that the batches were written as. */
  ghost predicate Logged(reps: seq<Bytes>, batches: seq<Batch>) {
    && |reps| == |batches|
    && forall i :: 0 <= i < |reps| ==> Stores(reps[i], batches[i].seqno, batches[i].ops)
                                       && 0 < batches[i].seqno + |batches[i].ops| <= TWO_64
  }

  ghost function AllUpdates(batches: seq<Batch>): seq<Update> {
    if batches == [] then [] else Numbered(batches[0].ops, batches[0].seqno) + AllUpdates(batches[1..])
  }

  ghost function LargestSequence(batches: seq<Batch>, seqno: nat): nat {
    if batches == [] then seqno
    else
      var last := batches[0].seqno + |batches[0].ops| - 1;
      LargestSequence(batches[1..], if last > seqno then last else seqno)
  }

  lemma RecordRecovered(rep: Bytes, b: Batch, r: Recovered, paranoid: bool)
    requires Stores(rep, b.seqno, b.ops) && 0 < b.seqno + |b.ops| <= TWO_64
    ensures var last := b.seqno + |b.ops| - 1;
      RecoverRecord(rep, r, paranoid) ==
        Recovered(r.updates + Numbered(b.ops, b.seqno), if last > r.maxSequence then last else r.maxSequence, r.ok)
  {
    hide Replayed, WellStored, Numbered, Sequence, Count;
    StoredReplays(rep, b.seqno, b.ops);
  }

  lemma {:induction false} RecoversRecords(crc: Checksum, file: Bytes, st: ReadState, r: Recovered, paranoid: bool,
                                           batches: seq<Batch>)
    requires st.end <= |file| && st.corruptions == 0 && r.ok
    requires ReadAll(crc, file, st).0.corruptions == 0 && Logged(ReadAll(crc, file, st).1, batches)
    ensures RecoverFrom(crc, file, st, r, paranoid)
         == Recovered(r.updates + AllUpdates(batches), LargestSequence(batches, r.maxSequence), true)
    decreases st.Remaining(file)
  {
    hide ReadLogical, Stores, RecoverRecord;
    var (st', record) := ReadLogical(crc, file, st, None);
    if record.Some? {
      var reps := ReadAll(crc, file, st).1;
      assert reps[0] == record.value && reps[1..] == ReadAll(crc, file, st').1;
      RecordRecovered(reps[0], batches[0], r, paranoid);
      RecoversRecords(crc, file, st', RecoverRecord(record.value, r, paranoid), paranoid, batches[1..]);
      assert r.updates + (Numbered(batches[0].ops, batches[0].seqno) + AllUpdates(batches[1..]))
          == r.updates + Numbered(batches[0].ops, batches[0].seqno) + AllUpdates(batches[1..]);
    }
  }

  /** Recovering a log cut off at any byte rebuilds the updates of a prefix of the logged
      batches: the longest one whose records are completely in the file. */
  lemma CrashRecovers(crc: Checksum, reps: seq<Bytes>, batches: seq<Batch>, cut: nat, maxSequence: nat, paranoid: bool)
    requires Logged(reps, batches) && cut <= |Records(crc, 0, reps)|
    ensures var n := CompleteRecords(crc, 0, reps, cut);
      RecoverFrom(crc, Records(crc, 0, reps)[..cut], ReadState(0, [], false, 0), Recovered([], maxSequence, true), paranoid)
        == Recovered(AllUpdates(batches[..n]), LargestSequence(batches[..n], maxSequence), true)
  {
    hide ReadAll, Records, RecoverFrom, CompleteRecords, Stores;
    var n := CompleteRecords(crc, 0, reps, cut);
    var file := Records(crc, 0, reps)[..cut];
    TruncatedLogReads(crc, reps, cut);
    RecoversRecords(crc, file, ReadState(0, [], false, 0), Recovered([], maxSequence, true), paranoid, batches[..n]);
    assert [] + AllUpdates(batches[..n]) == AllUpdates(batches[..n]);
  }

  lemma {:induction false} LargestGrows(batches: seq<Batch>, seqno: nat)
    ensures LargestSequence(batches, seqno) >= seqno
    decreases |batches|
  {
    if batches != [] {
      var last := batches[0].seqno + |batches[0].ops| - 1;
      LargestGrows(batches[1..], if last > seqno then last else seqno);
    }
  }

  /** It is the last sequence number of some batch, if it is not the one there was before. */
  lemma {:induction false} LargestAttained(batches: seq<Batch>, seqno: nat)
    ensures LargestSequence(batches, seqno) != seqno ==>
      exists i :: 0 <= i < |batches| && LargestSequence(batches, seqno) == batches[i].seqno + |batches[i].ops| - 1
    decreases |batches|
  {
    if batches != [] {
      var last := batches[0].seqno + |batches[0].ops| - 1;
      var next := if last > seqno then last else seqno;
      LargestAttained(batches[1..], next);
      assert forall i :: 0 <= i < |batches[1..]| ==> batches[1..][i] == batches[i + 1];
    }
  }

  /** Recovery never leaves the counter below a sequence number it has recovered. */
  lemma {:induction false} LargestBounds(batches: seq<Batch>, seqno: nat, i: nat)
    requires i < |batches|
    ensures LargestSequence(batches, seqno) >= seqno
    ensures LargestSequence(batches, seqno) >= batches[i].seqno + |batches[i].ops| - 1
    decreases |batches|
  {
    var last := batches[0].seqno + |batches[0].ops| - 1;
    var next := if last > seqno then last else seqno;
    if i > 0 {
      LargestBounds(batches[1..], next, i - 1);
    } else {
      LargestGrows(batches[1..], next);
    }
  }

  // ----- what recovery finds in any file whatever

  /** The updates of all records that can be batches, up to what is malformed in each. */
  ghost function AllReplayed(records: seq<Bytes>): seq<Update>
    decreases |records|
  {
    if records == [] then []
    else (if |records[0]| < HEADER then [] else Replayed(records[0])) + AllReplayed(records[1..])
  }

  ghost predicate AllWellStored(records: seq<Bytes>) {
    forall i :: 0 <= i < |records| ==> |records[i]| >= HEADER && WellStored(records[i])
  }

  /** Without paranoid checks every record read is replayed, and nothing stops recovery; with them
      it is good just when nothing was reported and all records are batches. */
  lemma {:induction false} RecoversAny(crc: Checksum, file: Bytes, st: ReadState, r: Recovered, paranoid: bool)
    requires st.end <= |file| && r.ok && (paranoid ==> st.corruptions == 0)
    ensures var (last, records) := ReadAll(crc, file, st); var r' := RecoverFrom(crc, file, st, r, paranoid);
      && (r'.ok <==> (paranoid ==> last.corruptions == 0 && AllWellStored(records)))
      && (r'.ok ==> r'.updates == r.updates + AllReplayed(records))
    decreases st.Remaining(file)
  {
    hide ReadLogical, Replayed, WellStored, LastSequence;
    var (st', record) := ReadLogical(crc, file, st, None);
    if record.Some? {
      var (last, records) := ReadAll(crc, file, st);
      assert records[0] == record.value && records[1..] == ReadAll(crc, file, st').1;
      assert forall i :: 0 < i < |records| ==> records[i] == records[1..][i - 1];
      assert AllWellStored(records) <==> |records[0]| >= HEADER && WellStored(records[0]) && AllWellStored(records[1..]);
      var next := RecoverRecord(record.value, r, paranoid);
      if next.ok && !(paranoid && st'.corruptions > 0) {
        RecoversAny(crc, file, st', next, paranoid);
      }
    }
  }

  /** Recovering any file: what is replayed are records that lie in it with their checksums right. */
  lemma AnyFileRecovers(crc: Checksum, file: Bytes, maxSequence: nat, paranoid: bool)
    ensures var (last, records) := ReadAll(crc, file, ReadState(0, [], false, 0));
      var r := RecoverFrom(crc, file, ReadState(0, [], false, 0), Recovered([], maxSequence, true), paranoid);
      && RecordsIn(crc, file, 0, records)
      && (r.ok <==> (paranoid ==> last.corruptions == 0 && AllWellStored(records)))
      && (r.ok ==> r.updates == AllReplayed(records))
  {
    hide ReadAll, RecoverFrom, AllReplayed, AllWellStored, RecordsIn;
    var st := ReadState(0, [], false, 0);
    ReadsWhatLies(crc, file);
    RecoversAny(crc, file, st, Recovered([], maxSequence, true), paranoid);
    assert [] + AllReplayed(ReadAll(crc, file, st).1) == AllReplayed(ReadAll(crc, file, st).1);
  }

  /** A record appended by the writer extends the log by that record. */
  lemma {:induction false} RecordsAppend(crc: Checksum, pos: nat, rs: seq<Bytes>, r: Bytes)
    ensures Records(crc, pos, rs + [r])
         == Records(crc, pos, rs) + Record(crc, pos + |Records(crc, pos, rs)|, r, true)
    decreases |rs|
  {
    hide Record;
    if rs == [] {
      assert rs + [r] == [r] && [r][1..] == [];
      assert Records(crc, pos, [r]) == Record(crc, pos, r, true) + [];
    } else {
      var first := Record(crc, pos, rs[0], true);
      RecordsAppend(crc, pos + |first|, rs[1..], r);
      assert (rs + [r])[1..] == rs[1..] + [r];
    }
  }

  lemma EmptyLog(crc: Checksum)
    ensures Records(crc, 0, []) == []
  {
  }

  /** Writes the batches through a fresh log writer, as committed one after the other. */
  method WriteLog(crc: Checksum, reps: seq<Bytes>) returns (file: Bytes)
    ensures file == Records(crc, 0, reps)
  {
    hide Record, Records;
    var writer := new Writer(crc, []);
    EmptyLog(crc);
    for i := 0 to |reps|
      invariant fresh(writer) && writer.Valid() && writer.crc == crc && writer.dest == Records(crc, 0, reps[..i])
    {
      writer.AddRecord(reps[i]);
      RecordsAppend(crc, 0, reps[..i], reps[i]);
      assert reps[..i+1] == reps[..i] + [reps[i]];
    }
    assert reps[..|reps|] == reps;
    file := writer.dest;
  }
}
