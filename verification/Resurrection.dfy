/** Reads are not preserved in every run: a run, from an empty store, in which a deleted key
    comes back. A first compaction, while an old snapshot is held, cuts its output between two
    entries of user key 2. A second one takes in the file ending with the tombstone of key 2,
    not the file that continues the key, and drops the tombstone. */
module Resurrection {
  import opened Keys
  import opened Files
  import opened Levels
  import opened Compactions
  import opened Runs
  import opened RunReads
  import opened InputIterator

  const PUT: Entry := Entry(InternalKey(2.0, 1, Value), "old")
  const DEL: Entry := Entry(InternalKey(2.0, 2, Deletion), "")
  const A3: Entry := Entry(InternalKey(1.0, 3, Value), "x")
  const A4: Entry := Entry(InternalKey(1.0, 4, Value), "y")

  function File(number: nat, entries: seq<Entry>): FileMeta
    requires |entries| > 0
  {
    FileMeta(number, |entries|, entries[0].key, entries[|entries|-1].key, entries)
  }

  const F2: FileMeta := File(2, [PUT])
  const F3: FileMeta := File(3, [A3, DEL])
  const F4: FileMeta := File(4, [A3, DEL])
  const F5: FileMeta := File(5, [PUT])
  const F6: FileMeta := File(6, [A4])
  const F7: FileMeta := File(7, [A4])

  /** A version with files at levels one and two only. */
  function V(one: seq<FileMeta>, two: seq<FileMeta>): Version {
    [[], one, two, [], [], [], []]
  }

  lemma AtV(one: seq<FileMeta>, two: seq<FileMeta>)
    ensures forall l, f :: At(V(one, two), l, f) <==> (l == 1 && f in one) || (l == 2 && f in two)
  {
    forall l, f
      ensures At(V(one, two), l, f) <==> (l == 1 && f in one) || (l == 2 && f in two)
    {
      if 0 <= l < 7 { assert V(one, two)[l] == if l == 1 then one else if l == 2 then two else []; }
    }
  }

  const S0: State := State({}, {}, V([], []), 2, 0, [], None, {})
  const S1: State := S0.(mem := {PUT}, history := {PUT}, lastSequence := 1)
  const S2: State := S1.(snapshots := [1])
  const S3: State := S2.(mem := {}, imm := {PUT})
  const S4: State := S3.(imm := {}, current := V([], [F2]), nextFileNumber := 3)
  const S5: State := S4.(mem := {DEL, A3}, history := {PUT, DEL, A3}, lastSequence := 3)
  const S6: State := S5.(mem := {}, imm := {DEL, A3})
  const S7: State := S6.(imm := {}, current := V([F3], [F2]), nextFileNumber := 4)
  const S8: State := S7.(job := Some(Job(1, {F3}, {F2}, 1, V([F3], [F2]), [])))
  const S8A: State := S8.(job := Some(S8.job.value.(numbers := [4])), nextFileNumber := 5)
  const S8B: State := S8A.(job := Some(S8.job.value.(numbers := [4, 5])), nextFileNumber := 6)
  const S9: State := S8B.(job := None, current := V([], [F4, F5]))
  const S10: State := S9.(snapshots := [])
  const S11: State := S10.(mem := {A4}, history := {PUT, DEL, A3, A4}, lastSequence := 4)
  const S12: State := S11.(mem := {}, imm := {A4})
  const S13: State := S12.(imm := {}, current := V([F6], [F4, F5]), nextFileNumber := 7)
  const S14: State := S13.(job := Some(Job(1, {F6}, {F4}, 4, V([F6], [F4, F5]), [])))
  const S14A: State := S14.(job := Some(S14.job.value.(numbers := [7])), nextFileNumber := 8)
  const S15: State := S14A.(job := None, current := V([], [F7, F5]))

  lemma FirstFlush()
    ensures Flush(S3, S4, 2, F2)
  {
    AtV([], []);
    AtV([], [F2]);
    assert Added(S3.current, S4.current, 2, F2);
  }

  lemma FirstSteps()
    ensures Next(S0, S1) && Next(S1, S2) && Next(S2, S3) && Next(S3, S4) && Next(S4, S5) && Next(S5, S6)
  {
    assert Write(S0, S1, {PUT});
    assert TakeSnapshot(S1, S2) by { assert S1.snapshots + [S1.lastSequence] == [1]; }
    assert SwitchMemtable(S2, S3);
    FirstFlush();
    assert Write(S4, S5, {DEL, A3});
    assert SwitchMemtable(S5, S6);
  }

  lemma SecondFlush()
    ensures Next(S6, S7)
  {
    AtV([], [F2]);
    AtV([F3], [F2]);
    assert Elements(F3.entries) == {DEL, A3};
    assert Added(S6.current, S7.current, 1, F3);
    assert Flush(S6, S7, 1, F3);
  }

  lemma FirstPick()
    ensures Next(S7, S8)
  {
    AtV([F3], [F2]);
    forall f, g, k | f in {F3} + {F2} && g in {F3} + {F2} && f.smallest.user <= k <= g.largest.user
      ensures Covered({F3} + {F2}, k)
    {
      assert F3.CoversUser(k);
    }
    assert MeetsRange(F2, {F3});
    assert Picked(S7.current, 1, {F3}, {F2});
    assert BeginCompaction(S7, S8, 1, {F3}, {F2});
  }

  lemma EntriesOfTwo(f: FileMeta, g: FileMeta)
    ensures EntriesOf({f} + {g}) == Elements(f.entries) + Elements(g.entries)
    ensures EntriesOf({f, g}) == Elements(f.entries) + Elements(g.entries)
  {
  }

  /** With the snapshot at 1 still held, the first compaction keeps all three entries. */
  lemma FirstKept(base: UserKey -> bool)
    ensures Kept([A3, DEL, PUT], 3, 1, base) == [A3, DEL, PUT]
  {
    var input := [A3, DEL, PUT];
    assert Kept(input, 1, 1, base) == [A3];
    assert Kept(input, 2, 1, base) == [A3, DEL];
  }

  lemma FirstEdit()
    ensures FileSet([F4, F5]) == {F4, F5}
    ensures Replaced(S8B.current, S9.current, 1, {F3}, {F2}, {F4, F5})
  {
    AtV([F3], [F2]);
    AtV([], [F4, F5]);
  }

  lemma FirstNumbers()
    ensures Next(S8, S8A) && Next(S8A, S8B)
  {
    assert [] + [4] == [4] && [4] + [5] == [4, 5];
    assert TakeNumber(S8, S8A, 4);
    assert TakeNumber(S8A, S8B, 5);
  }

  lemma FirstFiles()
    ensures Flatten([F4, F5]) == [A3, DEL, PUT]
  {
    assert [F4, F5][..1] == [F4] && [F4][..0] == [];
    assert Flatten([F4]) == F4.entries;
  }

  lemma FirstLevel()
    ensures ValidFiles([F4, F5]) && SortedLevel([F4, F5])
  {
  }

  lemma FirstContents()
    ensures Elements([A3, DEL, PUT]) == Elements(F3.entries) + Elements(F2.entries)
    ensures Elements([A3, DEL, PUT]) == Elements(F4.entries) + Elements(F5.entries)
  {
  }

  lemma FirstShapes()
    ensures StrictlySorted([A3, DEL, PUT]) && Ordered(S9.current)
  {
  }

  lemma FirstCompaction()
    ensures Next(S8B, S9)
  {
    hide Kept, BaseLevelFor, Replaced, EntriesOf, Elements, StrictlySorted, Ordered, Flatten, ValidFiles, SortedLevel, FileSet;
    FirstShapes();
    FirstKept(BaseOf(V([F3], [F2]), 1));
    FirstEdit();
    EntriesOfTwo(F3, F2);
    EntriesOfTwo(F4, F5);
    FirstContents();
    FirstFiles();
    FirstLevel();
    assert Compacted([F4, F5], [4, 5], [A3, DEL, PUT], 1, BaseOf(V([F3], [F2]), 1));
    assert FinishCompaction(S8B, S9, [A3, DEL, PUT], [F4, F5]);
  }

  lemma ThirdFlush()
    ensures Next(S9, S10) && Next(S10, S11) && Next(S11, S12) && Next(S12, S13)
  {
    assert ReleaseSnapshot(S9, S10, 0) by { assert S9.snapshots[..0] + S9.snapshots[1..] == []; }
    assert Write(S10, S11, {A4}) by { assert S10.history + {A4} == S11.history; }
    assert SwitchMemtable(S11, S12);
    AtV([], [F4, F5]);
    AtV([F6], [F4, F5]);
    assert Elements(F6.entries) == {A4};
    assert Added(S12.current, S13.current, 1, F6);
    assert Flush(S12, S13, 1, F6);
  }

  lemma SecondPick()
    ensures Next(S13, S14)
  {
    AtV([F6], [F4, F5]);
    forall f, g, k | f in {F6} + {F4} && g in {F6} + {F4} && f.smallest.user <= k <= g.largest.user
      ensures Covered({F6} + {F4}, k)
    {
      assert F4.CoversUser(k);
    }
    assert MeetsRange(F4, {F6});
    assert !MeetsRange(F5, {F6});
    assert Picked(S13.current, 1, {F6}, {F4});
    assert BeginCompaction(S13, S14, 1, {F6}, {F4});
  }

  /** The second compaction finds no deeper file for key 2 and drops its tombstone. */
  lemma SecondKept(base: UserKey -> bool)
    requires base(2.0)
    ensures Kept([A4, A3, DEL], 3, 4, base) == [A4]
  {
    var input := [A4, A3, DEL];
    assert Kept(input, 1, 4, base) == [A4];
    assert Kept(input, 2, 4, base) == [A4];
  }

  lemma SecondEdit()
    ensures FileSet([F7]) == {F7}
    ensures Replaced(S14A.current, S15.current, 1, {F6}, {F4}, {F7})
  {
    AtV([F6], [F4, F5]);
    AtV([], [F7, F5]);
  }

  lemma SecondNumber()
    ensures Next(S14, S14A)
  {
    assert [] + [7] == [7];
    assert TakeNumber(S14, S14A, 7);
  }

  lemma SecondFiles()
    ensures Flatten([F7]) == [A4] && ValidFiles([F7]) && SortedLevel([F7])
  {
    assert [F7][..0] == [];
  }

  lemma SecondContents()
    ensures Elements([A4, A3, DEL]) == Elements(F6.entries) + Elements(F4.entries)
    ensures Elements([A4]) == Elements(F7.entries) + Elements(F7.entries) && {F7, F7} == {F7}
  {
  }

  lemma SecondShapes()
    ensures StrictlySorted([A4, A3, DEL]) && Ordered(S15.current)
  {
  }

  lemma SecondCompaction()
    ensures Next(S14A, S15)
  {
    hide Kept, Replaced, EntriesOf, Elements, StrictlySorted, Ordered, Flatten, ValidFiles, SortedLevel, FileSet;
    SecondShapes();
    SecondContents();
    SecondKept(BaseOf(V([F6], [F4, F5]), 1));
    SecondEdit();
    EntriesOfTwo(F6, F4);
    EntriesOfTwo(F7, F7);
    SecondFiles();
    assert Compacted([F7], [7], [A4, A3, DEL], 4, BaseOf(V([F6], [F4, F5]), 1));
    assert FinishCompaction(S14A, S15, [A4, A3, DEL], [F7]);
  }

  lemma Extend(run: seq<State>, st: State) returns (run': seq<State>)
    requires Run(run) && Next(run[|run|-1], st)
    ensures Run(run') && run'[|run'|-1] == st
  {
    run' := run + [st];
    forall i | 0 <= i < |run'| - 1
      ensures Next(run'[i], run'[i+1])
    {
      if i < |run| - 1 { assert Next(run[i], run[i+1]); }
    }
  }

  lemma LastContents()
    ensures S15.All() == {A4, PUT}
  {
    AtV([], [F7, F5]);
    forall e | e in StoredEntries(S15.current)
      ensures e in {A4, PUT}
    {
      var l, f :| 0 <= l < |S15.current| && f in S15.current[l] && e in f.entries;
      assert At(S15.current, l, f);
    }
    assert At(S15.current, 2, F7) && At(S15.current, 2, F5);
    Stored(S15.current, 2, F7, A4);
    Stored(S15.current, 2, F5, PUT);
  }

  lemma EmptyStore() returns (run: seq<State>)
    ensures Run(run) && run[|run|-1] == S0
  {
    run := [S0];
  }

  lemma UpToSecondFlush() returns (run: seq<State>)
    ensures Run(run) && run[|run|-1] == S7
  {
    hide *;
    FirstSteps();
    SecondFlush();
    run := EmptyStore();
    run := Extend(run, S1);
    run := Extend(run, S2);
    run := Extend(run, S3);
    run := Extend(run, S4);
    run := Extend(run, S5);
    run := Extend(run, S6);
    run := Extend(run, S7);
  }

  lemma UpToFirstCompaction() returns (run: seq<State>)
    ensures Run(run) && run[|run|-1] == S9
  {
    hide *;
    FirstPick();
    FirstNumbers();
    FirstCompaction();
    run := UpToSecondFlush();
    run := Extend(run, S8);
    run := Extend(run, S8A);
    run := Extend(run, S8B);
    run := Extend(run, S9);
  }

  lemma UpToThirdFlush() returns (run: seq<State>)
    ensures Run(run) && run[|run|-1] == S13
  {
    hide *;
    ThirdFlush();
    run := UpToFirstCompaction();
    run := Extend(run, S10);
    run := Extend(run, S11);
    run := Extend(run, S12);
    run := Extend(run, S13);
  }

  lemma UpToSecondCompaction() returns (run: seq<State>)
    ensures Run(run) && run[|run|-1] == S15
  {
    hide *;
    SecondPick();
    SecondNumber();
    SecondCompaction();
    run := UpToThirdFlush();
    run := Extend(run, S14);
    run := Extend(run, S14A);
    run := Extend(run, S15);
  }

  /** Key 2 was deleted by the second write and never written again, yet at the end of this
      run it can be read. */
  lemma DeletedKeyComesBack() returns (run: seq<State>)
    ensures Run(run)
    ensures var last := run[|run|-1];
      && Visible(last.history, 2.0, last.lastSequence) == None
      && Visible(last.All(), 2.0, last.lastSequence) == Some("old")
  {
    run := UpToSecondCompaction();
    LastContents();
    VisibleIsNewest({PUT, DEL, A3, A4}, 2.0, 4, DEL);
    VisibleIsNewest({A4, PUT}, 2.0, 4, PUT);
  }

  // ----- the compaction loop makes these cuts

  /** A file of two entries is full. */
  const FULL: nat := 2

  function Entries(): seq<Entry> -> nat {
    es => |es|
  }

  function NumbersFrom(first: nat): nat -> nat {
    j => first + j
  }

  lemma {:induction false} NoEntries(es: seq<Entry>)
    ensures Elements(es) == {} <==> es == []
  {
    if es != [] {
      assert es[0] in Elements(es);
    }
  }

  lemma {:induction false} SameRest(a: seq<Entry>, b: seq<Entry>)
    requires StrictlySorted(a) && StrictlySorted(b) && Elements(a) == Elements(b)
    requires a != [] && b != [] && a[0] == b[0]
    ensures Elements(a[1..]) == Elements(b[1..])
    ensures StrictlySorted(a[1..]) && StrictlySorted(b[1..])
  {
    forall e | e in a[1..]
      ensures e in b[1..]
    {
      var i :| 1 <= i < |a| && a[i] == e;
      assert Less(a[0].key, a[i].key) && e in Elements(b);
    }
    forall e | e in b[1..]
      ensures e in a[1..]
    {
      var i :| 1 <= i < |b| && b[i] == e;
      assert Less(b[0].key, b[i].key) && e in Elements(a);
    }
  }

  /** A sorted run is told by its entries. */
  lemma {:induction false} OnlySorted(a: seq<Entry>, b: seq<Entry>)
    requires StrictlySorted(a) && StrictlySorted(b) && Elements(a) == Elements(b)
    ensures a == b
  {
    if a == [] {
      NoEntries(b);
    } else {
      assert a[0] in Elements(b) && (b != [] ==> b[0] in Elements(a));
      var i :| 0 <= i < |b| && b[i] == a[0];
      var j :| 0 <= j < |a| && a[j] == b[0];
      assert i > 0 && j > 0 ==> Less(b[0].key, b[i].key) && Less(a[0].key, a[j].key);
      SameRest(a, b);
      OnlySorted(a[1..], b[1..]);
    }
  }

  lemma {:induction false} ThirdEntry(es: seq<Entry>)
    ensures |es| > 2 ==> !NotFullBefore(es, Entries(), FULL)
  {
    if |es| > 2 {
      assert Entries()(es[..2]) == 2;
    }
  }

  /** Every file but the last has two entries, and the last one or two. */
  lemma {:induction false} CutInTwos(outputs: seq<FileMeta>)
    requires ValidFiles(outputs) && CutFiles(outputs, Entries(), FULL, true)
    ensures forall j :: 0 <= j < |outputs| ==> 1 <= |outputs[j].entries| <= 2 && outputs[j].size == |outputs[j].entries|
    ensures forall j :: 0 <= j < |outputs| - 1 ==> |outputs[j].entries| == 2
  {
    forall j | 0 <= j < |outputs|
      ensures 1 <= |outputs[j].entries| <= 2 && outputs[j].size == |outputs[j].entries|
    {
      assert outputs[j] in outputs && outputs[j].Valid();
      ThirdEntry(outputs[j].entries);
    }
  }

  lemma {:induction false} Doubled(files: seq<FileMeta>)
    requires forall j :: 0 <= j < |files| ==> |files[j].entries| == 2
    ensures |Flatten(files)| == 2 * |files|
  {
    if files != [] {
      Doubled(files[..|files|-1]);
    }
  }

  lemma {:induction false} Flattened(files: seq<FileMeta>)
    ensures |files| == 1 ==> Flatten(files) == files[0].entries
    ensures |files| == 2 ==> Flatten(files) == files[0].entries + files[1].entries
  {
    assert |files| == 1 ==> files[..0] == [];
    if |files| == 2 {
      assert files[..1] == [files[0]] && files[..1][..0] == [];
      assert Flatten(files[..1]) == files[0].entries;
    }
  }

  lemma {:induction false} HowMany(outputs: seq<FileMeta>)
    requires ValidFiles(outputs) && CutFiles(outputs, Entries(), FULL, true)
    ensures Flatten(outputs) == [] <==> outputs == []
    ensures outputs != [] ==>
      var last := outputs[|outputs|-1];
      |Flatten(outputs)| == 2 * (|outputs| - 1) + |last.entries| && 1 <= |last.entries| <= 2
  {
    CutInTwos(outputs);
    if outputs == [] {
      return;
    }
    var before := outputs[..|outputs|-1];
    forall j | 0 <= j < |before|
      ensures |before[j].entries| == 2
    {
      assert before[j] == outputs[j];
    }
    Doubled(before);
  }

  /** The size limit alone makes the first compaction cut between the two versions of key 2. */
  lemma {:induction false} FirstCuts(outputs: seq<FileMeta>, numbers: seq<nat>)
    requires Flatten(outputs) == [A3, DEL, PUT] && ValidFiles(outputs) && |numbers| == |outputs|
    requires forall j :: 0 <= j < |outputs| ==> outputs[j].number == numbers[j]
    requires HandedOut(numbers, NumbersFrom(4)) && CutFiles(outputs, Entries(), FULL, true)
    ensures outputs == [F4, F5] && numbers == [4, 5]
  {
    hide CutFiles, Flatten, StrictlySorted;
    HowMany(outputs);
    CutInTwos(outputs);
    Flattened(outputs);
    var f, g := outputs[0], outputs[1];
    assert f in outputs && g in outputs && f.Valid() && g.Valid();
    assert f.entries == Flatten(outputs)[..2] == [A3, DEL] && g.entries == Flatten(outputs)[2..] == [PUT];
    assert NumbersFrom(4)(0) == 4 && NumbersFrom(4)(1) == 5;
    assert f == F4 && g == F5;
  }

  lemma {:induction false} SecondCuts(outputs: seq<FileMeta>, numbers: seq<nat>)
    requires Flatten(outputs) == [A4] && ValidFiles(outputs) && |numbers| == |outputs|
    requires forall j :: 0 <= j < |outputs| ==> outputs[j].number == numbers[j]
    requires HandedOut(numbers, NumbersFrom(7)) && CutFiles(outputs, Entries(), FULL, true)
    ensures outputs == [F7] && numbers == [7]
  {
    hide CutFiles, Flatten, StrictlySorted;
    HowMany(outputs);
    CutInTwos(outputs);
    Flattened(outputs);
    var f := outputs[0];
    assert f in outputs && f.Valid();
    assert NumbersFrom(7)(0) == 7;
  }

  lemma StoreFacts(st: State)
    requires Inv(st)
    ensures LevelOrder(st.current) && Ordered(st.current) && UniqueVersions(StoredEntries(st.current))
  {
  }

  lemma FirstInputs()
    ensures var v := V([F3], [F2]);
      && LevelOrder(v) && Ordered(v) && UniqueVersions(StoredEntries(v))
      && InputLists(v, 1, [F3], [F2]) && FileSet([F3]) == {F3} && FileSet([F2]) == {F2}
  {
    hide LevelOrder, Ordered, UniqueVersions, StoredEntries, Inv;
    var run := UpToSecondFlush();
    EveryRunKeepsOrder(run, |run| - 1);
    StoreFacts(S7);
    AtV([F3], [F2]);
  }

  lemma SecondInputs()
    ensures var v := V([F6], [F4, F5]);
      && LevelOrder(v) && Ordered(v) && UniqueVersions(StoredEntries(v))
      && InputLists(v, 1, [F6], [F4]) && FileSet([F6]) == {F6} && FileSet([F4]) == {F4}
  {
    hide LevelOrder, Ordered, UniqueVersions, StoredEntries, Inv;
    var run := UpToThirdFlush();
    EveryRunKeepsOrder(run, |run| - 1);
    StoreFacts(S13);
    AtV([F6], [F4, F5]);
  }

  lemma FirstInput(input: seq<Entry>, base: UserKey -> bool)
    requires StrictlySorted(input) && Elements(input) == EntriesOf({F3} + {F2})
    ensures input == [A3, DEL, PUT] && Kept(input, |input|, 1, base) == [A3, DEL, PUT]
  {
    EntriesOfTwo(F3, F2);
    FirstContents();
    FirstShapes();
    OnlySorted(input, [A3, DEL, PUT]);
    FirstKept(base);
  }

  lemma SecondInput(input: seq<Entry>)
    requires StrictlySorted(input) && Elements(input) == EntriesOf({F6} + {F4})
    ensures Kept(input, |input|, 4, BaseOf(V([F6], [F4, F5]), 1)) == [A4]
  {
    hide Kept, EntriesOf, Elements, StrictlySorted;
    EntriesOfTwo(F6, F4);
    SecondContents();
    SecondShapes();
    OnlySorted(input, [A4, A3, DEL]);
    SecondKept(BaseOf(V([F6], [F4, F5]), 1));
  }

  /** Where the outputs of the run come from: both compactions as the loop makes them, when a
      file of two entries is full. */
  method CompactionsOfTheRun() returns (first: seq<FileMeta>, second: seq<FileMeta>)
    ensures first == [F4, F5] && second == [F7]
  {
    hide LevelOrder, Ordered, UniqueVersions, StoredEntries, InputLists, EntriesOf, Kept, CutFiles, HandedOut, FileSet;
    ghost var input;
    var numbers;
    FirstInputs();
    first, numbers, input := CompactInputs(V([F3], [F2]), 1, [F3], [F2], [], 0, 1, NumbersFrom(4), Entries(), FULL);
    FirstInput(input, BaseOf(V([F3], [F2]), 1));
    FirstCuts(first, numbers);
    SecondInputs();
    second, numbers, input := CompactInputs(V([F6], [F4, F5]), 1, [F6], [F4], [], 0, 4, NumbersFrom(7), Entries(), FULL);
    SecondInput(input);
    SecondCuts(second, numbers);
  }
}
