# A model of LevelDB's store and nanopb's encoder

These files model two of the libraries that the AniChat application carries, and prove what those
libraries promise: LevelDB as a log-structured store, from the bytes of its files up to the reads
its clients make, and nanopb's descriptor-driven encoder and decoder. `dafny verify dfyconfig.toml`
checks all of it.

## The store

One definition says what a read must return: the newest entry of the user key at or below the
snapshot decides, and a deletion or no entry means nothing is there (`Keys.dfy`). Everything else is
tied to it.

- **Compaction and the run of the store** (`Compaction.dfy`, `Levels.dfy`, `Runs.dfy`,
  `RunReads.dfy`, `InputSelection.dfy`, `Picking.dfy`, `InputIterator.dfy`,
  `Installing.dfy`). The store is a state machine of writes,
  memtable switches, snapshots, flushes, trivial moves and compactions. A compaction begins and
  finishes in two steps, because flushes go on while it runs. The order of the levels holds in every
  run. The selection of inputs is modelled loop by loop and proved to yield what the run invariant
  needs; so are the merged input, the compaction loop and the edits that install its outputs, a flush
  or a move.
- **A property that fails** (`Resurrection.dfy`). `SetupOtherInputs` completes the inputs of the
  level with their boundary files, but not those of the next level. A user key whose versions were cut
  into two files of the next level can then lose its tombstone while an older value stays behind, and
  the deleted value comes back. A run from the empty store shows it. `CompactionPreservesReads` and
  `FinishReadsIff` say exactly when reads are kept, for all inputs, and `GuardedRunReadsRight` proves
  that they always are when no compaction leaves such a file behind, which its caller can see from the
  file boundaries.
- **Reading** (`PointReads.dfy`, `DbIterator.dfy`, `InternalIterators.dfy`, `Merger.dfy`,
  `Cursors.dfy`, `StoreIterator.dfy`): point reads through the layers, and the user-visible iterator
  over the merging iterator over memtables, files and levels, with changes of direction.
- **Tables** (`Blocks.dfy`, `Separators.dfy`, `Filters.dfy`, `Tables.dfy`, `TableReader.dfy`,
  `TwoLevel.dfy`, `TableFiles.dfy`): prefix-compressed blocks, shortened separators, Bloom filters, the
  file layout, and lookup and iteration through them, over bytes; and what a finished table is among
  the files of the store.
- **Log and recovery** (`Log.dfy`, `LogRecovery.dfy`, `LogSoundness.dfy`, `WriteBatches.dfy`,
  `CrashRecovery.dfy`, `Crc.dfy`, `Coding.dfy`). A file is a byte sequence and a crash cuts it off at
  any byte. What is read from a file that was damaged in any other way are still records that lie in
  it with right checksums.
- **Manifest** (`VersionBuilder.dfy`, `ManifestReplay.dfy`, `EditRecords.dfy`,
  `ManifestRecovery.dfy`): replaying edits, their encoding, and recovery from a manifest cut off
  anywhere. Replaying all edits in one builder gives the lists of files that installing them one
  by one gave exactly when no live number was given twice to a level.
- **Concurrency** (`SkipList.dfy`, `GroupCommit.dfy`): one step for each atomic load, store or section
  under the mutex, in any interleaving.
- **Cache** (`HandleTable.dfy`, `LruCache.dfy`): handles linked into hash buckets and rings, with
  reference counts.

Choices that run through the model:

- In the parts that only compare user keys, a user key is a real number, its rank under the user's
  comparator. Every countable total order embeds in the reals, so nothing is assumed of the
  comparator. The table files use byte strings in bytewise order.
- A file's metadata carries its entries; `TableFiles.dfy` proves that a table file holds and returns
  such a run.
- File sizes are arbitrary numbers, and the file a size or seek compaction starts from is arbitrary.
- The checksum in logs and tables is any function to 32 bits. `Crc.dfy` works on bits, lowest first;
  its tables stand for their defining equations, and the literals of the source's tables are not
  compared. The polynomial, both complements and the order of bits are fixed by the residue and the
  check value.
- The hash function of the Bloom filter and its number of probes (one to thirty) are arbitrary.
- `hash & (length - 1)` is proved to be the remainder, since the bucket count is always a power of two.
- Blocks and table files of four gigabytes or more (2^64 bytes for a file) cannot be read back, since
  lengths are stored in 32 (64) bits; builders accept them, readers are proved below these sizes.
- File writes succeed. Where the code has a branch for corrupt data that its own writer never
  produces, the table and block readers are proved never to take it.

## nanopb

`PbWire.dfy` has streams, varints, zigzag and tags (Protocol Buffers Encoding guide, "Base 128
Varints", "Signed Integers" and "Message Structure"); `PbMessages.dfy` the descriptors, the structs
they describe and the bytes a struct stands for; `PbFormat.dfy` the same bytes as a reader without the
descriptor sees them, which is how unknown fields are passed over; `PbFields.dfy` the cyclic field iterator;
`PbEncode.dfy` and `PbDecode.dfy` the encoder and decoder. A struct is a sequence of data slots
instead of memory at offsets; the fields of a union share a slot. Integer widths follow the build in
this repository, where `pb_size_t` has 32 bits and `malloc` is enabled, so the lookup of what a union
held before is modelled. Sums of sizes are taken not to exceed the range of `size_t`.

The decoder is given, as ghost arguments, the struct whose bytes are expected; its contracts say that
when the input begins with that encoding, possibly with unknown fields between its fields, the struct is
restored and exactly those bytes are used. For
any other input they say that the stream stays consistent and that a successful decoding leaves a
well-typed struct; the integer and fixed-length decoders also say exactly what they refuse.

## Model

| member | source | states |
|---|---|---|
| `Keys.VisibleIsNewest` | AniChat/Pods/leveldb-library/db/dbformat.cc:51-67 | what a snapshot shows of a user key is decided by the one newest entry at or below it: its value, or nothing when it is a deletion |
| `Keys.SortedAges` | AniChat/Pods/leveldb-library/db/dbformat.cc:51-67 | in a run in internal-key order, entries of one user key lie newest first |
| `Compactions.CompactionPreservesReads` | AniChat/Pods/leveldb-library/db/db_impl.cc:929-960 | for every input run, every set of entries outside it and every base-level test: dropping entries keeps every read at or above the oldest snapshot if and only if no dropped tombstone was shielding an older value outside the inputs |
| `Compactions.ReadKept` | AniChat/Pods/leveldb-library/db/db_impl.cc:946-960 | when nothing is shielded, the kept entries with all others show the same value of every key at every snapshot that may still be read |
| `Compactions.ReadResurrected` | AniChat/Pods/leveldb-library/db/db_impl.cc:949-960 | a dropped tombstone that shielded an older value makes that value readable at the oldest snapshot |
| `Compactions.KeptMembers` | AniChat/Pods/leveldb-library/db/db_impl.cc:929-996 | the output holds exactly the entries neither drop rule applies to |
| `Compactions.KeptSorted` | AniChat/Pods/leveldb-library/db/db_impl.cc:974-986 | the output is in strict internal-key order |
| `Compactions.Compaction.IsBaseLevelForKey` | AniChat/Pods/leveldb-library/db/version_set.cc:1533-1552 | with nondecreasing keys, the cursors that only move forward answer as a scan of all files of all deeper levels would |
| `Compactions.Compaction.ShouldStopBefore` | AniChat/Pods/leveldb-library/db/version_set.cc:1554-1576 | the output is cut exactly when the sizes of the grandparent files passed since the last cut, not counting those before the first key, exceed the limit; the cursor passes exactly the files that end before the key |
| `Compactions.DecideDrop` | AniChat/Pods/leveldb-library/db/db_impl.cc:929-963 | the decision made from the last user key and last sequence number seen is that of the two drop rules on the whole input |
| `Compactions.CompactEntry` | AniChat/Pods/leveldb-library/db/db_impl.cc:920-998 | one round of the loop adds the entry to the outputs exactly when the drop rules keep it, whether or not a file is cut before it |
| `Compactions.DoCompactionWork` | AniChat/Pods/leveldb-library/db/db_impl.cc:899-999 | wherever the loop cuts its files, together they hold exactly the kept entries of the merged input in order, as valid files of a sorted level, under the numbers the version set handed out for them; a file is ended as soon as it is full, and when the grandparents are too small to end one, only the last file may be less than full |
| `Compactions.WrittenOutIff` | AniChat/Pods/leveldb-library/db/db_impl.cc:929-960 | said of the input and the version alone: an entry is missing from the outputs if and only if the input has a newer version of its key at or below the oldest snapshot, or it is a deletion at or below it and no file two or more levels down covers its key |
| `Compactions.OutputsSorted` | AniChat/Pods/leveldb-library/db/db_impl.cc:974-996 | files cut one after the other from a strictly sorted run, labelled with their first and last keys, form a sorted level |
| `Levels.FlushKeepsOrder` | AniChat/Pods/leveldb-library/db/version_set.cc:491-516 | adding a flushed file at the level picked for it keeps every level above zero disjoint, level zero ordered by age, and every level newer than the deeper ones |
| `Levels.ReplaceKeepsOrder` | AniChat/Pods/leveldb-library/db/db_impl.cc:860-876 | replacing the inputs of a compaction by its outputs keeps the same order of the levels |
| `Runs.WellFormedFromOrder` | AniChat/Pods/leveldb-library/db/version_set.cc:695-739 | levels that are disjoint and written in builder order are sorted lists |
| `Runs.PickedIsSafe` | AniChat/Pods/leveldb-library/db/version_set.cc:1270-1322 | inputs as PickCompaction selects them may be replaced whatever is flushed meanwhile: no user key is left behind in a newer or a deeper place that the compaction relies on |
| `Runs.FlushKeepsJob` | AniChat/Pods/leveldb-library/db/version_set.cc:491-516 | a flush during a running compaction never lands inside the range of its inputs |
| `Runs.FlushKeepsInv` | AniChat/Pods/leveldb-library/db/db_impl.cc:491-566 | flushing the immutable memtable keeps the run invariant and every entry of the store |
| `Runs.MoveKeepsInv` | AniChat/Pods/leveldb-library/db/db_impl.cc:718-728 | moving one file down a level keeps the run invariant and every entry of the store |
| `Runs.BeginKeepsInv` | AniChat/Pods/leveldb-library/db/db_impl.cc:734-736 | starting a compaction on picked inputs keeps the run invariant |
| `Runs.TakeNumberKeepsInv` | AniChat/Pods/leveldb-library/db/db_impl.cc:785-797 | a number taken for an output stays unused by every file of the version until the outputs are installed, whatever is flushed in between |
| `Runs.LoopGivesOutputs` | AniChat/Pods/leveldb-library/db/db_impl.cc:899-999 | what the compaction loop makes of the entries of the inputs, under numbers reserved for it, may replace the inputs: valid files, disjoint, holding entries of the inputs only, with numbers that no file of the version has, inputs included |
| `Runs.FinishKeepsInv` | AniChat/Pods/leveldb-library/db/db_impl.cc:860-876 | installing what the loop produced, after any flushes in between, keeps the run invariant; nothing is assumed of the outputs but what the loop is proved to produce |
| `Runs.ClientKeepsInv` | AniChat/Pods/leveldb-library/db/db_impl.cc:1166-1175 | writes, memtable switches and taking or releasing snapshots keep the run invariant |
| `Runs.BackgroundKeepsInv` | AniChat/Pods/leveldb-library/db/db_impl.cc:688-767 | every background step keeps the run invariant |
| `RunReads.EveryRunKeepsOrder` | AniChat/Pods/leveldb-library/db/db_impl.cc:688-767 | in every run of writes, switches, flushes, trivial moves and automatically picked compactions, every level above zero is disjoint and every level is newer than the deeper ones |
| `RunReads.FinishReadsIff` | AniChat/Pods/leveldb-library/db/db_impl.cc:860-876 | in a reachable store, installing a compaction keeps every read at or above its oldest snapshot if and only if no tombstone it drops shields an older value that stays in the store |
| `RunReads.UnsplitShieldsNothing` | AniChat/Pods/leveldb-library/db/version_set.cc:1403-1462 | when no file left at the next level starts with the user key an input of that level ends with, no dropped tombstone shields anything |
| `RunReads.ClientKeepsReads` | AniChat/Pods/leveldb-library/db/db_impl.cc:1166-1175 | client steps keep every live snapshot reading what was written |
| `RunReads.BackgroundKeepsReads` | AniChat/Pods/leveldb-library/db/db_impl.cc:688-767 | background steps keep them so too, when the running compaction splits no user key |
| `RunReads.GuardedRunReadsRight` | AniChat/Pods/leveldb-library/db/db_impl.cc:688-767 | in every run whose compactions split no user key at the next level, every snapshot that is held and the latest sequence number read exactly what was written up to them |
| `Resurrection.DeletedKeyComesBack` | AniChat/Pods/leveldb-library/db/version_set.cc:1403-1462 | a concrete run of the store, from empty, after which a deleted key can be read again, because the inputs of the next level are not completed with their boundary files |
| `Resurrection.FirstCuts` | AniChat/Pods/leveldb-library/db/db_impl.cc:974-996 | with files full at two entries, the size limit alone makes the first compaction of that run cut between the two versions of the key |
| `Resurrection.CompactionsOfTheRun` | AniChat/Pods/leveldb-library/db/db_impl.cc:899-999 | both compactions of that run yield its files when the loop is run on their inputs |
| `InputSelection.FindFile` | AniChat/Pods/leveldb-library/db/version_set.cc:88-106 | binary search finds the first file whose largest key is at or after the key |
| `InputSelection.SomeFileOverlapsRange` | AniChat/Pods/leveldb-library/db/version_set.cc:122-157 | true exactly when some file touches the range, in either way of searching |
| `InputSelection.PickLevelForMemTableOutput` | AniChat/Pods/leveldb-library/db/version_set.cc:491-516 | from level zero down, at most two steps, each taken exactly when no file of the next level touches the range and not too many bytes of the level after it do |
| `InputSelection.GetOverlappingInputs` | AniChat/Pods/leveldb-library/db/version_set.cc:519-559 | at level zero, the restarting loop ends with the least set of files that holds those touching the range and is closed under user-key overlap; elsewhere the files touching the range, in order |
| `InputSelection.ClosureReached` | AniChat/Pods/leveldb-library/db/version_set.cc:533-558 | when no file sticks out of the grown range, the files collected are the least closed set |
| `Picking.FindLargestKey` | AniChat/Pods/leveldb-library/db/version_set.cc:1326-1340 | the largest of the largest keys, or none for no files |
| `Picking.FindSmallestBoundaryFile` | AniChat/Pods/leveldb-library/db/version_set.cc:1344-1362 | the first, in key order, of the files that start after the key with the same user key |
| `Picking.AddBoundaryInputs` | AniChat/Pods/leveldb-library/db/version_set.cc:1378-1401 | appends, one by one, the first file that starts after the largest key so far with its user key, until the level has none, and keeps the range without gaps |
| `Picking.GetRange` | AniChat/Pods/leveldb-library/db/version_set.cc:1205-1223 | the least smallest key and the greatest largest key of the files |
| `Picking.NextLevelInputs` | AniChat/Pods/leveldb-library/db/version_set.cc:1407-1411 | the inputs of the next level are exactly its files that meet the range of the inputs of the level |
| `Picking.GapFreeBridged` | AniChat/Pods/leveldb-library/db/version_set.cc:533-558 | files found by growing over the range of inputs without gaps leave no gap either |
| `Picking.ExpandedPick` | AniChat/Pods/leveldb-library/db/version_set.cc:1419-1447 | growing the inputs of the level keeps all that is guaranteed of the inputs |
| `Picking.SetupOtherInputs` | AniChat/Pods/leveldb-library/db/version_set.cc:1403-1462 | completes the inputs to a set as the run invariant needs it; takes the wider inputs exactly when they are more files, meet no further file of the next level and stay below the size limit; the grandparents are exactly the files two levels down that meet the range of all inputs; the compaction pointer is the largest key |
| `Picking.SameCount` | AniChat/Pods/leveldb-library/db/version_set.cc:1434-1437 | the wider inputs meet as many files of the next level exactly when they meet no other |
| `Picking.PickCompaction` | AniChat/Pods/leveldb-library/db/version_set.cc:1270-1322 | the charged file, or else the first past the compaction pointer or the level's first, is among the inputs; whatever it is, and whatever the sizes, the inputs are such a set, listed as the input iterator takes them, with exactly the grandparents that meet their range |
| `Installing.PickedMayTake` | AniChat/Pods/leveldb-library/db/version_set.cc:491-516 | the tests made on the way down to the picked level are what the run asks of a flush |
| `InputIterator.MakeInputIterator` | AniChat/Pods/leveldb-library/db/version_set.cc:1237-1268 | the inputs merged are one strictly sorted run of exactly their entries |
| `InputIterator.CompactInputs` | AniChat/Pods/leveldb-library/db/db_impl.cc:899-999 | the loop over that run yields what the finishing step of the store asks for, with nothing assumed of the run |
| `Installing.CompactPicked` | AniChat/Pods/leveldb-library/db/db_impl.cc:688-767 | picking begins a job of the run, and the loop over the picked inputs yields what its finishing step asks for |
| `Installing.CompactMemTable` | AniChat/Pods/leveldb-library/db/db_impl.cc:536-566 | writing the immutable memtable's file to the picked level through the builder is a flush step of the run |
| `Installing.InstallCompactionResults` | AniChat/Pods/leveldb-library/db/db_impl.cc:860-876 | the edit of a compaction put through the builder on the version that is current by then is the finishing step of the run |
| `Installing.EditReplaces` | AniChat/Pods/leveldb-library/db/db_impl.cc:860-876 | for the outputs of the loop, that edit removes just the inputs, adds just the outputs and adds no number already there |
| `Installing.MoveFile` | AniChat/Pods/leveldb-library/db/db_impl.cc:718-728 | the edit of a trivial move put through the builder is a move step of the run |
| `VersionBuilder.SetInsertOrdered` | AniChat/Pods/leveldb-library/db/version_set.cc:592-607 | insertion into the set of added files keeps it ordered by smallest key and number |
| `VersionBuilder.Builder.Apply` | AniChat/Pods/leveldb-library/db/version_set.cc:650-692 | deletions first, then additions, which revive a deleted number |
| `VersionBuilder.Builder.SaveTo` | AniChat/Pods/leveldb-library/db/version_set.cc:695-755 | each level of the new version lists the base files not deleted and the added files not deleted, each as often as they are in the two, in order of their smallest keys when no live number is in both |
| `VersionBuilder.MergeLevel` | AniChat/Pods/leveldb-library/db/version_set.cc:698-738 | the upper-bound merge of base and added files yields all of both but the deleted, in order |
| `VersionBuilder.LogAndApply` | AniChat/Pods/leveldb-library/db/version_set.cc:816-821 | applies one edit to the current version, level by level, keeping builder order |
| `VersionBuilder.OrderedListsAgree` | AniChat/Pods/leveldb-library/db/version_set.cc:592-607 | two lists of the same files in builder order are the same list |
| `VersionBuilder.FlushEditAdds` | AniChat/Pods/leveldb-library/db/db_impl.cc:517-526 | the edit a flush writes adds just its file |
| `VersionBuilder.CompactionEditReplaces` | AniChat/Pods/leveldb-library/db/db_impl.cc:860-876 | the edit a compaction writes removes just its inputs, although it names them by number, and adds its outputs |
| `ManifestReplay.ReplayManifest` | AniChat/Pods/leveldb-library/db/version_set.cc:933-992 | all edits through one builder, saved once: each level holds the base and added files whose numbers were not deleted after they were last given |
| `ManifestReplay.InstallInTurn` | AniChat/Pods/leveldb-library/db/version_set.cc:801-821 | each edit through a builder of its own on the version before it: the versions in between stay in builder order when no edit adds a live number |
| `ManifestReplay.ReplayAgrees` | AniChat/Pods/leveldb-library/db/version_set.cc:933-992 | both give the same list of files at every level when no edit adds a number its level was given before |
| `ManifestReplay.ReplayAgreesIff` | AniChat/Pods/leveldb-library/db/version_set.cc:658-691 | for edits that could be installed one after the other, a level gets the same list from both if and only if no number that is live in the end was given to it twice: to a file of the base too, to files with different smallest keys, or last to another file than first |
| `ManifestReplay.NotReusedIsFresh` | AniChat/Pods/leveldb-library/db/version_set.cc:801-821 | edits that never give a level the same number twice can be installed one after the other |
| `ManifestReplay.BuilderAccumulates` | AniChat/Pods/leveldb-library/db/version_set.cc:650-692 | after a script the builder has just the numbers deleted and not given again since, and one file for every number and smallest key added |
| `ManifestReplay.FirstIsKept` | AniChat/Pods/leveldb-library/db/version_set.cc:592-607 | of the files given under one number, the first stays in the builder's set |
| `ManifestReplay.ReplayDiffers` | AniChat/Pods/leveldb-library/db/version_set.cc:658-691 | the shortest script that reuses a live number: delete a file, add another under its number, and one builder brings the first file back |
| `EditRecords.EditRoundTrip` | AniChat/Pods/leveldb-library/db/version_edit.cc:41-205 | every edit survives being written and read into a cleared edit; compaction pointers join those already there |
| `EditRecords.BodyRoundTrip` | AniChat/Pods/leveldb-library/db/version_edit.cc:120-189 | every kind of field is read back as it was written, whatever follows it |
| `EditRecords.FieldTags` | AniChat/Pods/leveldb-library/db/version_edit.cc:14-24 | the tag byte in front of each kind of field |
| `EditRecords.BodyLayout` | AniChat/Pods/leveldb-library/db/version_edit.cc:41-85 | the bytes behind it when the numbers are short |
| `EditRecords.FieldOrder` | AniChat/Pods/leveldb-library/db/version_edit.cc:41-85 | the order in which an edit's fields are written |
| `EditRecords.DecodesRecords` | AniChat/Pods/leveldb-library/db/version_edit.cc:107-205 | the reading loop applies the fields one after the other to the end of the input |
| `EditRecords.VersionEdit.Clear` | AniChat/Pods/leveldb-library/db/version_edit.cc:26-39 | clears every field but the compaction pointers |
| `EditRecords.VersionEdit.EncodeTo` | AniChat/Pods/leveldb-library/db/version_edit.cc:41-85 | appends the fields that are set, then pointers, deleted files and new files |
| `EditRecords.VersionEdit.DecodeFrom` | AniChat/Pods/leveldb-library/db/version_edit.cc:107-205 | succeeds exactly when the input is a sequence of well-formed fields, and then holds what they say |
| `ManifestRecovery.Recover` | AniChat/Pods/leveldb-library/db/version_set.cc:933-1000 | for every file: a version comes out exactly when nothing is reported, every record decodes as an edit that names no other comparator, and among them the next file number, the log number and the last sequence number are set; it is what one builder makes of those edits, its files are of the base or described by an edit, its numbers are those given and not deleted since, and each of the four counters is that of the last edit that sets it |
| `ManifestRecovery.ApplyRecord` | AniChat/Pods/leveldb-library/db/version_set.cc:938-947 | one record decoded and given to the builder, as the function on recovery states does |
| `ManifestRecovery.RecoversAny` | AniChat/Pods/leveldb-library/db/version_set.cc:933-968 | for every file and reader position, the loop is good just when nothing is reported and every record is an edit for this comparator, applies just those, and keeps for each counter the value last set |
| `ManifestRecovery.SavedFollows` | AniChat/Pods/leveldb-library/db/version_set.cc:650-755 | the version saved holds only base files and files that an edit describes, and a number is in it just when it was given and no edit that deletes it comes after the last that gives it |
| `ManifestRecovery.CutManifestRecovers` | AniChat/Pods/leveldb-library/db/version_set.cc:933-968 | a manifest of encoded edits cut off at any byte yields exactly the edits whose records are complete, and their last counters, just when none of them names a foreign comparator |
| `ManifestRecovery.RecoverCut` | AniChat/Pods/leveldb-library/db/version_set.cc:933-1000 | recovering from it gives, list by list, the version that installing those edits one after the other gave, just when they set all counters and name no foreign comparator |
| `ManifestRecovery.DecodedLevels` | AniChat/Pods/leveldb-library/db/version_edit.cc:96-105 | an edit that was decoded names existing levels only |
| `PointReads.SeekRun` | AniChat/Pods/leveldb-library/db/memtable.cc:100-134 | seeking to the lookup key finds the newest entry of the user key at or below the snapshot, or none |
| `PointReads.SearchLevelZero` | AniChat/Pods/leveldb-library/db/version_set.cc:349-364 | searching the level-zero files that cover the key, newest number first, answers for all of level zero |
| `PointReads.SearchSortedLevel` | AniChat/Pods/leveldb-library/db/version_set.cc:365-382 | looking at the one file that binary search finds answers for the whole level |
| `PointReads.VersionGet` | AniChat/Pods/leveldb-library/db/version_set.cc:326-421 | the first answer from the top is the newest entry of the key at or below the snapshot in the whole version, or none exists |
| `PointReads.AnswerLayers` | AniChat/Pods/leveldb-library/db/db_impl.cc:1122-1134 | an answer from a newer layer stands; without one the older layer answers for both |
| `PointReads.Get` | AniChat/Pods/leveldb-library/db/db_impl.cc:1100-1145 | the value that the memtable, the immutable memtable and the version together show at the snapshot |
| `PointReads.GetInRun` | AniChat/Pods/leveldb-library/db/db_impl.cc:1100-1145 | in every run whose compactions split no user key, a read at a live snapshot returns what the writes up to it left there |
| `DbIterator.LiveIsVisible` | AniChat/Pods/leveldb-library/db/db_iter.cc:168-198 | the entry the iterator may stop at carries the value its snapshot shows of its key |
| `DbIterator.VisibleHasLive` | AniChat/Pods/leveldb-library/db/db_iter.cc:168-198 | every key the snapshot shows has an entry to stop at |
| `DbIterator.DBIter.ShowsVisible` | AniChat/Pods/leveldb-library/db/db_iter.cc:64-78 | key and value are those the snapshot shows |
| `DbIterator.DBIter.FindNextUserEntry` | AniChat/Pods/leveldb-library/db/db_iter.cc:168-198 | scanning forward stops at the first entry to show, past a skipped key and past keys hidden by deletions |
| `DbIterator.DBIter.FindPrevUserEntry` | AniChat/Pods/leveldb-library/db/db_iter.cc:227-267 | scanning back ends at the last entry to show before the start, with its key and value saved |
| `DbIterator.DBIter.Seek` | AniChat/Pods/leveldb-library/db/db_iter.cc:269-281 | lands on the least visible key at or after the target |
| `DbIterator.DBIter.SeekToFirst` | AniChat/Pods/leveldb-library/db/db_iter.cc:283-292 | lands on the least visible key |
| `DbIterator.DBIter.SeekToLast` | AniChat/Pods/leveldb-library/db/db_iter.cc:294-299 | lands on the greatest visible key |
| `DbIterator.DBIter.Next` | AniChat/Pods/leveldb-library/db/db_iter.cc:141-166 | moves to the least visible key above the current one, after moves in either direction |
| `DbIterator.DBIter.Prev` | AniChat/Pods/leveldb-library/db/db_iter.cc:200-225 | moves to the greatest visible key below the current one, after moves in either direction |
| `InternalIterators.InternalIterator.FirstPlace` | AniChat/Pods/leveldb-library/table/merger.cc:148-161 | the first entry of the union with a property is the first of the merged run |
| `InternalIterators.InternalIterator.Seek` | AniChat/Pods/leveldb-library/table/merger.cc:47-53 | the merging iterator moves over the one run its children hold: to the first entry at or after the key |
| `InternalIterators.InternalIterator.Next` | AniChat/Pods/leveldb-library/table/merger.cc:55-79 | one place on in the merged run |
| `InternalIterators.InternalIterator.Prev` | AniChat/Pods/leveldb-library/table/merger.cc:81-108 | one place back in the merged run |
| `StoreIterator.FlattenSorted` | AniChat/Pods/leveldb-library/db/version_set.cc:220-228 | the files of a deeper level, one after the other, are one sorted run of all their entries |
| `StoreIterator.AddIterators` | AniChat/Pods/leveldb-library/db/version_set.cc:230-246 | level-zero files one by one and deeper levels concatenated hold all entries of the version, no key twice |
| `StoreIterator.NewMergingIterator` | AniChat/Pods/leveldb-library/table/merger.cc:179-189 | children of which no two hold the same key make one strictly sorted run of all their entries |
| `StoreIterator.NewInternalIterator` | AniChat/Pods/leveldb-library/db/db_impl.cc:1062-1087 | the iterator over memtables and version runs over exactly what the store holds |
| `StoreIterator.NewIterator` | AniChat/Pods/leveldb-library/db/db_impl.cc:1147-1157 | a client's iterator stands on the map that its snapshot shows of everything the store holds |
| `StoreIterator.NewIteratorInRun` | AniChat/Pods/leveldb-library/db/db_impl.cc:1147-1157 | in every run whose compactions split no user key, the map an iterator walks at a live snapshot is the one the writes up to it left |
| `Merger.MergingIterator.SmallestIsFirst` | AniChat/Pods/leveldb-library/table/merger.cc:148-161 | the smallest child entry is the first of the union from where the children stand |
| `Merger.MergingIterator.LargestIsLast` | AniChat/Pods/leveldb-library/table/merger.cc:163-176 | the largest child entry is the last of the union up to where the children stand |
| `Merger.MergingIterator.Seek` | AniChat/Pods/leveldb-library/table/merger.cc:47-53 | lands on the first entry of the union at or after the target |
| `Merger.MergingIterator.SeekToFirst` | AniChat/Pods/leveldb-library/table/merger.cc:31-37 | lands on the first entry of the union |
| `Merger.MergingIterator.SeekToLast` | AniChat/Pods/leveldb-library/table/merger.cc:39-45 | lands on the last entry of the union |
| `Merger.MergingIterator.PositionAfterKey` | AniChat/Pods/leveldb-library/table/merger.cc:58-75 | turning forward puts every other child just past the current key |
| `Merger.MergingIterator.PositionBeforeKey` | AniChat/Pods/leveldb-library/table/merger.cc:84-104 | turning back puts every other child just short of the current key |
| `Merger.MergingIterator.Next` | AniChat/Pods/leveldb-library/table/merger.cc:55-79 | moves to the next entry of the union in either direction of travel before, and keeps the other children just past it |
| `Merger.MergingIterator.Prev` | AniChat/Pods/leveldb-library/table/merger.cc:81-108 | moves to the previous entry of the union, and keeps the other children just short of it |
| `Log.Writer.AddRecord` | AniChat/Pods/leveldb-library/db/log_writer.cc:34-80 | appends the record cut into pieces that never cross a block boundary, with padding where no header fits |
| `Log.Writer.EmitPhysicalRecord` | AniChat/Pods/leveldb-library/db/log_writer.cc:82-108 | appends checksum, length, type and payload |
| `Log.RecordSplits` | AniChat/Pods/leveldb-library/db/log_writer.cc:43-78 | a record that does not fit is its first piece followed by the record of the rest |
| `Log.PieceLayout` | AniChat/Pods/leveldb-library/db/log_writer.cc:34-110 | each piece lies in one block of 32768 bytes behind at most six zeros: masked checksum of type and payload, length and type in this order, then the payload, which ends the record or fills the block |
| `Log.Reader.ReadRecord` | AniChat/Pods/leveldb-library/db/log_reader.cc:56-174 | reassembles pieces as the function on reader states does, for every file, corrupt ones included; a stored type equal to one of the reader's own codes is taken for the end or a bad record, as in the source |
| `Log.Reader.ReadPhysicalRecord` | AniChat/Pods/leveldb-library/db/log_reader.cc:189-271 | takes the next piece, the end of the file, or a bad record off the buffer, counting corruptions |
| `LogRecovery.PieceArrives` | AniChat/Pods/leveldb-library/db/log_reader.cc:189-271 | a piece that is completely in the file is read back; one that is cut off ends the file silently |
| `LogRecovery.RecordArrives` | AniChat/Pods/leveldb-library/db/log_reader.cc:56-174 | a record that is completely in the file is read back from its pieces; one that is cut off ends the file silently |
| `LogRecovery.TruncatedLogReads` | AniChat/Pods/leveldb-library/db/log_reader.cc:56-271 | a log cut off at any byte reads back as exactly the records it holds completely, with no corruption report |
| `LogRecovery.LogRoundTrip` | AniChat/Pods/leveldb-library/db/log_writer.cc:34-108 | an intact log reads back as the records written, for every list of records |
| `LogSoundness.ParsedExactly` | AniChat/Pods/leveldb-library/db/log_reader.cc:189-269 | of a piece at the front of the buffer: cut off by the end of the file it ends it, empty and of type zero it is passed over, and any other is refused, reported and the rest of its block dropped exactly when its bytes are not those the writer makes, checksum included |
| `LogSoundness.LogicalSound` | AniChat/Pods/leveldb-library/db/log_reader.cc:56-174 | from any state of reading any file, a record that is yielded lies in the file as consecutive pieces of the right types with the right checksums |
| `LogSoundness.ReadsWhatLies` | AniChat/Pods/leveldb-library/db/log_reader.cc:56-174 | whatever the file holds, the records read from it lie in it one after the other without overlap, each piece with its right checksum |
| `WriteBatches.WriteBatch.AddOp` | AniChat/Pods/leveldb-library/db/write_batch.cc:98-109 | appends one update and counts it, leaving the others and the sequence number as they were |
| `WriteBatches.WriteBatch.Append` | AniChat/Pods/leveldb-library/db/write_batch.cc:144-149 | appends all updates of another batch and adds its count |
| `WriteBatches.WriteBatch.SetSequence` | AniChat/Pods/leveldb-library/db/write_batch.cc:94-96 | patches the sequence number in place, keeping the updates |
| `WriteBatches.HeaderLayout` | AniChat/Pods/leveldb-library/db/write_batch.cc:5-14 | the stored bytes: eight of sequence number and four of count, lowest first, then the updates |
| `WriteBatches.OpLayout` | AniChat/Pods/leveldb-library/db/write_batch.cc:98-109 | the bytes of short updates |
| `WriteBatches.StoredReplays` | AniChat/Pods/leveldb-library/db/write_batch.cc:42-80 | a stored batch replays as its own updates under consecutive sequence numbers |
| `WriteBatches.ParseEncodedOps` | AniChat/Pods/leveldb-library/db/write_batch.cc:42-80 | iterating over encoded updates yields them all and finds nothing wrong |
| `WriteBatches.InsertInto` | AniChat/Pods/leveldb-library/db/write_batch.cc:116-137 | inserts each update that can be read with the next sequence number, and reports a batch whose count or records are wrong |
| `CrashRecovery.RecoverLogFile` | AniChat/Pods/leveldb-library/db/db_impl.cc:412-453 | the recovery loop replays the records the log reader yields, for every file and either setting of paranoid checks |
| `CrashRecovery.CrashRecovers` | AniChat/Pods/leveldb-library/db/db_impl.cc:412-453 | recovering a log cut off at any byte rebuilds exactly the updates, with their sequence numbers, of the batches whose records are complete, and raises the last sequence accordingly |
| `CrashRecovery.AnyFileRecovers` | AniChat/Pods/leveldb-library/db/db_impl.cc:412-453 | for every file: without paranoid checks every batch read is replayed and recovery is good, with them it is good just when nothing was reported and all records are batches; what is replayed lies in the file with right checksums |
| `CrashRecovery.RecoversRecords` | AniChat/Pods/leveldb-library/db/db_impl.cc:412-453 | recovery follows the reader record by record |
| `CrashRecovery.LargestBounds` | AniChat/Pods/leveldb-library/db/db_impl.cc:435-439 | the recovered counter is at least its old value and at least every recovered sequence number |
| `CrashRecovery.LargestAttained` | AniChat/Pods/leveldb-library/db/db_impl.cc:435-439 | and is one of them: its old value or the last sequence number of a batch |
| `CrashRecovery.WriteLog` | AniChat/Pods/leveldb-library/db/log_writer.cc:34-80 | writing batches one after the other through a writer produces the log that recovery is proved about |
| `SkipList.ReadLinearizes` | AniChat/Pods/leveldb-library/db/skiplist.h:262-322 | a search that ends answers for the keys in the list at its last load, whatever an insert is in the middle of |
| `SkipList.PublishSortsLevel` | AniChat/Pods/leveldb-library/db/skiplist.h:361-367 | storing the predecessor's pointer adds the node to its level in order |
| `SkipList.NextKeepsInv` | AniChat/Pods/leveldb-library/db/skiplist.h:335-368 | every atomic load and store of an insert, with any reads in between, keeps every level a sorted list made of nodes of the level below |
| `SkipList.EveryRunWellLinked` | AniChat/Pods/leveldb-library/db/skiplist.h:337-368 | so in every interleaving of one writer and any number of readers |
| `SkipList.EveryReadLinearizes` | AniChat/Pods/leveldb-library/db/skiplist.h:262-322 | in every interleaving, each answer is right at the step that gives it |
| `SkipList.KeysChangeAtPublish` | AniChat/Pods/leveldb-library/db/skiplist.h:361-367 | the keys change in one step only, the store that links the node at level zero |
| `SkipList.WalkIsSorted` | AniChat/Pods/leveldb-library/db/skiplist.h:207-210 | following a level's pointers visits all its keys from a node on, in increasing order |
| `GroupCommit.BuildBatchGroup` | AniChat/Pods/leveldb-library/db/db_impl.cc:1260-1306 | takes a maximal prefix of the queue, in order: within the first batch's size and 128 kilobytes when that batch is no larger than this, within a megabyte otherwise, and without a sync write behind one that is not |
| `GroupCommit.NextKeepsInv` | AniChat/Pods/leveldb-library/db/db_impl.cc:1185-1256 | every step of the queue protocol, with the mutex dropped while logging, keeps its invariant |
| `GroupCommit.EveryRunCommits` | AniChat/Pods/leveldb-library/db/db_impl.cc:1185-1256 | in every interleaving, the memtable holds the updates of the groups that succeeded, in queue order and once each, followed by what the leader has inserted so far |
| `GroupCommit.ReadersSeeWholeGroups` | AniChat/Pods/leveldb-library/db/db_impl.cc:1206-1236 | a reader at the last sequence number sees all of every group that succeeded and nothing of the group in flight |
| `GroupCommit.WriteOutcome` | AniChat/Pods/leveldb-library/db/db_impl.cc:1185-1256 | a caller that got OK has its batch in the log, at a place no other group has and, unless its group was empty, in no other record of the log, and in the memtable, and in the synced part of the log if it asked for that |
| `GroupCommit.NextKeepsLog` | AniChat/Pods/leveldb-library/db/db_impl.cc:1185-1256 | every step keeps the records in order of their sequence ranges, without overlap, and each successful group's record after those of the groups before it |
| `GroupCommit.ServedOnce` | AniChat/Pods/leveldb-library/db/db_impl.cc:1239-1248 | no writer is served by two groups |
| `GroupCommit.BatchRange` | AniChat/Pods/leveldb-library/db/db_impl.cc:1206-1207 | within a group, consecutive batches get consecutive disjoint ranges of sequence numbers |
| `Coding.VarintDecodes` | AniChat/Pods/leveldb-library/util/coding.cc:112-157 | the decoding loop recovers every value that fits, whatever follows it |
| `Coding.EncodeVarint32` | AniChat/Pods/leveldb-library/util/coding.cc:47-73 | the unrolled encoder writes the same bytes as the general form |
| `Coding.VarintDigits` | AniChat/Pods/leveldb-library/util/coding.cc:47-73 | a varint holds the digits of its number to the base 128, lowest first, with the high bit on all but the last, and none too many |
| `Coding.Fixed64Places` | AniChat/Pods/leveldb-library/util/coding.cc:20-33 | the first of eight bytes weighs least |
| `Coding.LengthPrefixedRoundTrip` | AniChat/Pods/leveldb-library/util/coding.cc:98-101 | a length-prefixed string is taken off exactly |
| `Coding.Fixed64RoundTrip` | AniChat/Pods/leveldb-library/util/coding.cc:20-33 | eight little-endian bytes give the number back |
| `Coding.UnmaskInvertsMask` | AniChat/Pods/leveldb-library/util/crc32c.h:29-38 | unmasking a masked checksum gives it back |
| `Coding.MaskInvertsUnmask` | AniChat/Pods/leveldb-library/util/crc32c.h:29-38 | masking an unmasked word gives it back, so a stored word fits one checksum only |
| `Coding.MaskRotates` | AniChat/Pods/leveldb-library/util/crc32c.h:22-32 | without the constant, the checksum with its low fifteen bits on top |
| `Crc.Extend` | AniChat/Pods/leveldb-library/util/crc32c.cc:276-377 | for every string, alignment and starting checksum, the four interleaved strides compute the byte-at-a-time checksum |
| `Crc.ExtendTwice` | AniChat/Pods/leveldb-library/util/crc32c.cc:276-377 | extending by two strings in turn is extending by both |
| `Crc.Residue` | AniChat/Pods/leveldb-library/util/crc32c.cc:276-377 | for every string and starting checksum, the checksum of the string followed by its own four checksum bytes is the word 0x48674bc7 |
| `Crc.CheckValue` | AniChat/Pods/leveldb-library/util/crc32c.cc:276-377 | the checksum of the digits from 1 to 9 is 0xe3069283 |
| `Crc.BitShifts` | AniChat/Pods/leveldb-library/util/crc32c.cc:276-291 | the bit-list register is the shift register of 32-bit words with the reflected polynomial 0x82f63b78 |
| `Crc.StepAdvances` | AniChat/Pods/leveldb-library/util/crc32c.cc:286-291 | one table step is eight steps of the shift register |
| `Crc.StrideAdvances` | AniChat/Pods/leveldb-library/util/crc32c.cc:293-300 | one stride step advances the register by sixteen bytes, table by table |
| `Crc.WordTaken` | AniChat/Pods/leveldb-library/util/crc32c.cc:349-358 | giving the next word to the stride whose turn it is equals reading it in order |
| `Crc.FourBytes` | AniChat/Pods/leveldb-library/util/crc32c.cc:312-320 | four table steps are one step by a little-endian word |
| `Blocks.DecodesEntry` | AniChat/Pods/leveldb-library/table/block.cc:54-74 | both ways of reading the three lengths of an entry find what was written |
| `Blocks.EntryLayout` | AniChat/Pods/leveldb-library/table/block_builder.cc:92-99 | the bytes of an entry when its lengths are short |
| `Blocks.BlockBuilder.Add` | AniChat/Pods/leveldb-library/table/block_builder.cc:72-106 | appends the pair, sharing a prefix with the last key or as a restart point every interval entries |
| `Blocks.BlockBuilder.Finish` | AniChat/Pods/leveldb-library/table/block_builder.cc:62-70 | below four gigabytes, the bytes are a block of exactly the added pairs, restarted every interval entries, in which every other key shares all it can with the one before it |
| `Blocks.BlockDetermines` | AniChat/Pods/leveldb-library/table/block.cc:224-250 | the bytes of a block determine its pairs, whatever the sharing and the restart points |
| `Blocks.OpensBlock` | AniChat/Pods/leveldb-library/table/block.cc:24-39 | a finished block is opened at its restart points |
| `Blocks.Iter.ParseNextKey` | AniChat/Pods/leveldb-library/table/block.cc:224-250 | reads the entry after the current one, or the end, rebuilding its key and finding its restart point |
| `Blocks.Iter.Seek` | AniChat/Pods/leveldb-library/table/block.cc:163-201 | binary search over restart points and a scan land on the first entry that is not before the target |
| `Blocks.Iter.SeekToFirst` | AniChat/Pods/leveldb-library/table/block.cc:203-206 | lands on the first entry |
| `Blocks.Iter.SeekToLast` | AniChat/Pods/leveldb-library/table/block.cc:208-213 | lands on the last entry |
| `Blocks.Iter.Next` | AniChat/Pods/leveldb-library/table/block.cc:137-140 | moves to the next entry |
| `Blocks.Iter.Prev` | AniChat/Pods/leveldb-library/table/block.cc:142-161 | moves to the entry just before, from every position, so undoing Next |
| `Separators.FindShortestSeparator` | AniChat/Pods/leveldb-library/util/comparator.cc:29-50 | cuts the start after its first difference from the limit and raises that byte exactly when there is room between the two bytes, and leaves it alone otherwise; the result lies at or after the start and before the limit, and when it was cut no string that does is shorter |
| `Separators.FindShortSuccessor` | AniChat/Pods/leveldb-library/util/comparator.cc:52-63 | cuts the key after its first byte that can be raised, and raises it; a run of largest bytes stays; no string at or after the key is shorter |
| `Separators.FindShortestInternalSeparator` | AniChat/Pods/leveldb-library/db/dbformat.cc:69-86 | exactly when the user key gets shorter, the shortened user key with the bytes of the first version there can be, and the start itself otherwise; its user key is strictly between the two |
| `Separators.FindShortInternalSuccessor` | AniChat/Pods/leveldb-library/db/dbformat.cc:88-101 | the same without a limit: exactly when the user key gets shorter, that key with those bytes |
| `Separators.PartsUserKeys` | AniChat/Pods/leveldb-library/db/dbformat.cc:69-86 | a key that a separator sends past the start has no version at or after the limit |
| `Separators.BytesLessTotal` | AniChat/Pods/leveldb-library/util/comparator.cc:25-27 | the order of byte strings is total and irreflexive |
| `Separators.InternalLessWeak` | AniChat/Pods/leveldb-library/db/dbformat.cc:51-67 | the order of encoded internal keys is a weak order |
| `Filters.CreateFilter` | AniChat/Pods/leveldb-library/util/bloom.cc:28-54 | the filter has eight bytes or as many as the keys need, its bits are exactly those on which some probe of some key falls, and its last byte is the number of probes |
| `Filters.ProbeAt` | AniChat/Pods/leveldb-library/util/bloom.cc:45-52 | probe j is the hash plus j times the hash rotated, in 32 bits |
| `Filters.BitWeight` | AniChat/Pods/leveldb-library/util/bloom.cc:45-52 | bit i of a byte has the weight 2^i |
| `Filters.BloomMayMatch` | AniChat/Pods/leveldb-library/util/bloom.cc:56-80 | true exactly when every probe finds its bit set, or the filter has more than thirty probes |
| `Filters.FilterBlockBuilder.StartBlock` | AniChat/Pods/leveldb-library/table/filter_block.cc:21-27 | keys already given stay with the filter of the offset of their block |
| `Filters.FilterBlockBuilder.GenerateFilter` | AniChat/Pods/leveldb-library/table/filter_block.cc:51-75 | the pending keys make one more filter, empty when there are none |
| `Filters.FilterBlockBuilder.Finish` | AniChat/Pods/leveldb-library/table/filter_block.cc:35-49 | the filters and their offsets make a readable block holding all keys given |
| `Filters.KeyMayMatch` | AniChat/Pods/leveldb-library/table/filter_block.cc:77-104 | a key matches exactly when the filter of its offset is not empty and all its probes fall where probes of the filter's keys do, so a key whose user key was added always matches; offsets beyond the filters match |
| `Tables.TableBuilder.Add` | AniChat/Pods/leveldb-library/table/table_builder.cc:94-123 | takes one more entry of a strictly increasing run, emitting the separator of the last block when it is known |
| `Tables.TableBuilder.Flush` | AniChat/Pods/leveldb-library/table/table_builder.cc:125-139 | ends the block and starts the filter of the offset that follows |
| `Tables.TableBuilder.Finish` | AniChat/Pods/leveldb-library/table/table_builder.cc:198-253 | the file holds the run cut into blocks, separators between them, filters of all keys, and a footer that leads to them |
| `Tables.ReadsBack` | AniChat/Pods/leveldb-library/table/format.cc:64-139 | a stored block is read back, checked against its checksum or not |
| `Tables.HandleRoundTrip` | AniChat/Pods/leveldb-library/table/format.cc:15-29 | an offset and size are decoded as encoded |
| `Tables.FooterRoundTrip` | AniChat/Pods/leveldb-library/table/format.cc:31-62 | the footer gives back both handles |
| `Tables.FooterLayout` | AniChat/Pods/leveldb-library/table/format.cc:31-41 | 48 bytes: the meta block's handle, the index's, zeros, and the eight magic bytes |
| `Tables.StoredLayout` | AniChat/Pods/leveldb-library/table/table_builder.cc:177-193 | behind a block its type, zero, and the masked checksum of both |
| `TableReader.Open` | AniChat/Pods/leveldb-library/table/table.cc:38-134 | opening a finished file finds its index and its filters |
| `TableReader.TwoLevelsLand` | AniChat/Pods/leveldb-library/table/table.cc:216-244 | index search then block search finds the place of a key in the whole run; past the block's end only versions of other user keys follow |
| `TableReader.SeparatorsOrdered` | AniChat/Pods/leveldb-library/table/table_builder.cc:103-110 | separators increase with their blocks |
| `TableReader.FilterRefutes` | AniChat/Pods/leveldb-library/table/table.cc:224-228 | a block whose filter does not match holds no version of the key |
| `TableReader.InternalGet` | AniChat/Pods/leveldb-library/table/table.cc:216-244 | passes on the first entry of the run at or after the key, or nothing, and nothing only when that entry is not a version of the key |
| `TableFiles.RankOrder` | AniChat/Pods/leveldb-library/util/comparator.cc:25-27 | byte strings have ranks in their bytewise order, so the files of bytes and the store's keys are one order |
| `TableFiles.KeyOrder` | AniChat/Pods/leveldb-library/db/dbformat.cc:51-67 | encoded internal keys are ordered as the keys they stand for |
| `TableFiles.BuildTable` | AniChat/Pods/leveldb-library/db/builder.cc:17-78 | the table written is complete, and the record made of it is that of a valid file holding the run |
| `TableFiles.LandsOnEntry` | AniChat/Pods/leveldb-library/table/two_level_iterator.cc:82-87 | a place in the bytes' run is the same place among the file's entries |
| `TableFiles.LookupAnswers` | AniChat/Pods/leveldb-library/table/table.cc:216-244 | what a table lookup passes on is the newest entry of the user key at or below the snapshot in the file's run, or there is none |
| `TableFiles.TableGet` | AniChat/Pods/leveldb-library/db/table_cache.cc:100-112 | a point read of a table file answers for the file's entries |
| `TwoLevel.TwoLevelIterator.InitDataBlock` | AniChat/Pods/leveldb-library/table/two_level_iterator.cc:146-161 | the data block is the one the index is on, reopened only when the handle differs |
| `TwoLevel.TwoLevelIterator.Seek` | AniChat/Pods/leveldb-library/table/two_level_iterator.cc:82-87 | lands on the first entry of the run at or after the target |
| `TwoLevel.TwoLevelIterator.SeekToFirst` | AniChat/Pods/leveldb-library/table/two_level_iterator.cc:89-94 | lands on the first entry of the run |
| `TwoLevel.TwoLevelIterator.SeekToLast` | AniChat/Pods/leveldb-library/table/two_level_iterator.cc:96-101 | lands on the last entry of the run |
| `TwoLevel.TwoLevelIterator.Next` | AniChat/Pods/leveldb-library/table/two_level_iterator.cc:103-126 | moves to the next entry of the run, across blocks |
| `TwoLevel.TwoLevelIterator.Prev` | AniChat/Pods/leveldb-library/table/two_level_iterator.cc:109-139 | moves to the previous entry of the run, across blocks |
| `HandleTables.HandleTable.FindPointer` | AniChat/Pods/leveldb-library/util/cache.cc:114-120 | finds the slot that points to the handle of a name, or the end of its bucket |
| `HandleTables.MaskIsRemainder` | AniChat/Pods/leveldb-library/util/cache.cc:114-120 | masking a hash with the bucket count less one takes the remainder, for every power of two |
| `HandleTables.HandleTable.Insert` | AniChat/Pods/leveldb-library/util/cache.cc:78-92 | the table is a map by name: the handle takes the place of the one with its name, which is returned; handles never come to outnumber buckets |
| `HandleTables.HandleTable.Remove` | AniChat/Pods/leveldb-library/util/cache.cc:94-102 | the map without the name |
| `HandleTables.HandleTable.Resize` | AniChat/Pods/leveldb-library/util/cache.cc:122-146 | relinking every handle into the fewest buckets that are enough, a power of two, leaves the map as it was |
| `HandleTables.OneMoved` | AniChat/Pods/leveldb-library/util/cache.cc:128-142 | moving one handle keeps those moved and those to be moved apart and complete |
| `LruCaches.LRU_Remove` | AniChat/Pods/leveldb-library/util/cache.cc:239-242 | two pointer stores take a handle out of a ring |
| `LruCaches.LRU_Append` | AniChat/Pods/leveldb-library/util/cache.cc:244-250 | four pointer stores put a handle at the end of a ring |
| `LruCaches.LRUCache.Ref` | AniChat/Pods/leveldb-library/util/cache.cc:217-223 | a first client reference moves the handle to the ring of handles in use |
| `LruCaches.LRUCache.Unref` | AniChat/Pods/leveldb-library/util/cache.cc:225-237 | the last reference runs the deleter once; the last client's moves the handle to the end of the other ring |
| `LruCaches.LRUCache.Lookup` | AniChat/Pods/leveldb-library/util/cache.cc:252-259 | returns the handle of the name with one more reference; an unused handle goes to the end of the ring of handles in use, and the order of all others stays |
| `LruCaches.LRUCache.SetCapacity` | AniChat/Pods/leveldb-library/util/cache.cc:155-156 | changes the capacity alone, keeping the cache invariant |
| `LruCaches.LRUCache.Release` | AniChat/Pods/leveldb-library/util/cache.cc:261-264 | takes one reference back, keeping the cache invariant |
| `LruCaches.LRUCache.Insert` | AniChat/Pods/leveldb-library/util/cache.cc:266-303 | replaces the name, then evicts the oldest unused handles while over capacity and not one too many, ending within capacity or with nothing to evict; the table has the new handle and no longer the evicted names |
| `LruCaches.LRUCache.EvictWhileFull` | AniChat/Pods/leveldb-library/util/cache.cc:293-300 | evicts in order of last use and not one handle too many, and takes just the evicted names out of the table |
| `LruCaches.LRUCache.FinishErase` | AniChat/Pods/leveldb-library/util/cache.cc:307-316 | a handle taken out of the table leaves its ring, the usage and the cache's reference |
| `LruCaches.LRUCache.Erase` | AniChat/Pods/leveldb-library/util/cache.cc:318-321 | takes the name out of the table and its handle out of its ring and out of the usage, leaving the others in order |
| `LruCaches.LRUCache.Prune` | AniChat/Pods/leveldb-library/util/cache.cc:323-333 | evicts every handle no client uses and no other |
| `LruCaches.LRUCache.Destroy` | AniChat/Pods/leveldb-library/util/cache.cc:205-215 | with no client reference left, every handle ever made has had its deleter run exactly once |
| `LruCaches.ErasedOf` | AniChat/Pods/leveldb-library/util/cache.cc:307-316 | erasing changes the usage by just the charge of the handle and leaves table and rings in agreement |
| `PbWire.OStream.EncodeVarint` | AniChat/Pods/nanopb/pb_encode.c:574-594 | writes or counts the base-128 form of the number, all or failing at the size limit |
| `PbWire.IStream.DecodeVarint` | AniChat/Pods/nanopb/pb_decode.c:250-270 | reads a varint of up to ten bytes modulo 2^64, exactly when there is one |
| `PbWire.IStream.DecodeVarint32` | AniChat/Pods/nanopb/pb_decode.c:182-242 | of the encodings of 64-bit numbers, takes exactly those of 32-bit numbers and those its check of the higher bytes lets through, and gives their low 32 bits; reports the end of the stream |
| `PbWire.ExtendedTaken` | AniChat/Pods/nanopb/pb_decode.c:213-222 | a negative 32-bit number written with 64 bits is taken, and gives itself |
| `PbWire.OtherTaken` | AniChat/Pods/nanopb/pb_decode.c:213-222 | the same check lets through a number that is no sign extension |
| `PbWire.UnZigZag` | AniChat/Pods/nanopb/pb_decode.c:1240-1252 | the only number whose zigzag form this is |
| `PbWire.ZigZagOrder` | AniChat/Pods/nanopb/pb_encode.c:596-605 | zigzag forms come in the order 0, -1, 1, -2, 2 |
| `PbEncode.EncodeSubmessage` | AniChat/Pods/nanopb/pb_encode.c:682-730 | the counting pass and the writing pass produce the same number of bytes, so the size never changes between them; the bytes are length and encoding |
| `PbEncode.PackedSize` | AniChat/Pods/nanopb/pb_encode.c:145-165 | the size of a packed array, by multiplication or by a counting pass, is that of its encoding |
| `PbEncode.EncodeArray` | AniChat/Pods/nanopb/pb_encode.c:126-211 | packed or one by one, as its type allows; an array over its size is refused |
| `PbEncode.EncodeField` | AniChat/Pods/nanopb/pb_encode.c:307-392 | writes the field exactly when it is present |
| `PbEncode.PbEncode` | AniChat/Pods/nanopb/pb_encode.c:494-516 | writes, or counts, exactly the encoding of the struct, and succeeds exactly when the struct can be encoded and its encoding fits |
| `PbFormat.EncodingIsValue` | AniChat/Pods/nanopb/pb_encode.c:645-670 | every encoded value takes exactly the bytes that its kind's wire type says: a varint, four or eight bytes, or a length and as many bytes |
| `PbFormat.KeyByte` | AniChat/Pods/nanopb/pb_encode.c:634-672 | the key in front of a field of each kind: eight times the tag plus 0, 1, 2 or 5 |
| `PbFormat.ValueEnds` | AniChat/Pods/nanopb/pb_decode.c:273-326 | a value and its wire type tell where it ends |
| `PbFormat.MessageFields` | AniChat/Pods/nanopb/pb_encode.c:494-516 | the encoding of any struct is a sequence of keys and such values, which a reader without the descriptor can follow |
| `PbFormat.FieldEnds` | AniChat/Pods/nanopb/pb_decode.c:293-326 | two readings of the same bytes as a field agree on tag, wire type and value |
| `PbFields.FieldIter.Next` | AniChat/Pods/nanopb/pb_common.c:20-76 | goes to the next field or wraps around, keeping count of the required fields before it |
| `PbFields.FieldIter.Find` | AniChat/Pods/nanopb/pb_common.c:78-95 | finds the field with the tag from any position, if there is one |
| `PbDecode.DecodeSigned` | AniChat/Pods/nanopb/pb_decode.c:1289-1324 | restores a signed integer of every size, negative ones included; after the cut to 32 bits that fields of up to 32 bits get, succeeds exactly when the number fits the field |
| `PbDecode.DecodeUnsigned` | AniChat/Pods/nanopb/pb_decode.c:1326-1348 | restores an unsigned integer of every size, and succeeds exactly when there is a number and it fits the field |
| `PbDecode.DecodeZigZag` | AniChat/Pods/nanopb/pb_decode.c:1350-1372 | restores a zigzag integer of every size, and succeeds exactly when there is a number and it fits the field |
| `PbDecode.DecodeString` | AniChat/Pods/nanopb/pb_decode.c:1428-1461 | restores a string and its terminator |
| `PbDecode.DecodeBytes` | AniChat/Pods/nanopb/pb_decode.c:1391-1426 | restores a byte array and its size |
| `PbDecode.DecodeFixedBytes` | AniChat/Pods/nanopb/pb_decode.c:1487-1508 | restores an array of fixed length, gives all zeros for an empty one, and refuses any other length |
| `PbDecode.DecodeSubmessage` | AniChat/Pods/nanopb/pb_decode.c:1463-1485 | restores a nested struct from a substream and leaves the parent after it |
| `PbDecode.DecodePackedItems` | AniChat/Pods/nanopb/pb_decode.c:431-440 | restores every value of a packed array and stops at its end |
| `PbDecode.DecodeField` | AniChat/Pods/nanopb/pb_decode.c:401-475 | restores a field of each kind: alone, with a flag, in a union, packed, or one more value of an array |
| `PbDecode.SkipField` | AniChat/Pods/nanopb/pb_decode.c:273-326 | passes over exactly one value of the wire type |
| `PbDecode.DecodeTagged` | AniChat/Pods/nanopb/pb_decode.c:935-1003 | a field with a tag the descriptor does not have is passed over, the struct stays and exactly what follows its value is left; one that it has is restored |
| `PbDecode.KnownAhead` | AniChat/Pods/nanopb/pb_decode.c:929-936 | among unknown fields, the next known one is the next of the expected encoding |
| `PbDecode.AllRequiredSeen` | AniChat/Pods/nanopb/pb_decode.c:1006-1046 | true exactly when all of the first sixty-four required fields have been seen |
| `PbDecode.SetToDefaults` | AniChat/Pods/nanopb/pb_decode.c:884-895 | leaves nothing present at any depth |
| `PbDecode.PbDecodeNoinit` | AniChat/Pods/nanopb/pb_decode.c:901-1049 | decoding the encoding of a struct, with unknown fields put anywhere between its fields, into a cleared struct of its type succeeds, reads all of it and restores every present field; any successful decoding leaves a well-typed struct |
| `PbDecode.PbDecode` | AniChat/Pods/nanopb/pb_decode.c:1051-1063 | the same, unknown fields included, into any struct, which is cleared first |
| `PbDecode.FieldRestored` | AniChat/Pods/nanopb/pb_decode.c:901-1049 | reading the next field adds it to those restored and disturbs no other, also in a union |
| `PbDecode.RoundTrip` | AniChat/Pods/nanopb/pb_encode.c:494-516 | encoding into a buffer succeeds exactly when the encoding fits, and decoding it then restores every present field |
| `PbDecode.GetEncodedSize` | AniChat/Pods/nanopb/pb_encode.c:533-542 | the counting pass gives the length of the encoding |

## Left out

- Swift sources of the application, `env_posix.cc`, loggers, `filename.cc`, `c.cc`, `dumpfile.cc`, `histogram.cc`: user interface, input and output or thin wrappers.
- `repair.cc`: puts every table at level zero and so gives up the age order of level-zero files.
- Snappy compression: foreign code; tables are written and read uncompressed.
- Manual `CompactRange`: its inputs may have gaps into which a flush may fall, so it is outside the run invariant.
- Seek statistics, read sampling, compaction scores, write throttling: they choose when and where to compact, which the model leaves open.
- Failed log writes other than their reported status, null batches, and shutting down in the middle of a compaction beyond abandoning it.
- Corrupted internal keys in a compaction or an iterator.
- C++ weak memory: each acquire load and release store is one step of an interleaving.
- `db_iter.cc` releases and swaps large value buffers: memory use only.
- `std::sort` on level-zero files: modelled as insertion by file number.
- Arbitrary bytes given to the block and table readers: only files their own writers produced.
- Iterators in `two_level_iterator.cc` over functions other than the block reader, such as the file-number iterator.
- The block cache in front of `ReadBlock` and the sharding of the LRU cache by the top bits of the hash; one shard is modelled.
- The accelerated checksum instruction of the platform.
- nanopb callbacks, extensions, pointer fields, proto3 fields without a flag, repeated fields of fixed count, default values other than zero, and `PB_WITHOUT_64BIT`.
- RunReads.GuardedRunReadsRight: does not cover runs whose compactions leave a file that continues an input's last user key at the next level; there reads can be lost, as `DeletedKeyComesBack` shows.
- PbWire.IStream.DecodeVarint32: for overlong forms, which no encoder writes, it states only consistency; the 8-bit wrap of the bit position after 36 bytes is not modelled.
- StoreIterator.NewInternalIterator: takes memtables as fixed runs; entries that writes add later are newer than the snapshot and would not be shown.
- Log.Reader.ReadRecord: does not model an `initial_offset` above zero and the resynchronising mode; recovery reads from the start.
- CrashRecovery.RecoverLogFile: does not model memtable flushes while recovering (`db_impl.cc:436-452`) and reuse of the last log, only what is rebuilt.
- LogRecovery.PieceArrives: for the record types of the format only; the reader takes other type bytes for codes of its own or reports them.
- PbDecode.PbDecodeNoinit: values are restored into a struct that is passed and returned, so update in place and overlap of union members in memory are not captured.
- EditRecords.VersionEdit.DecodeFrom: deleted files are a sorted list in place of an ordered set.
