/** Version edits as the manifest stores them: tagged fields, one after the other. */
module EditRecords {
  import opened Keys
  import opened Coding
  import opened Files

  const COMPARATOR_TAG: nat := 1
  const LOG_NUMBER_TAG: nat := 2
  const NEXT_FILE_NUMBER_TAG: nat := 3
  const LAST_SEQUENCE_TAG: nat := 4
  const COMPACT_POINTER_TAG: nat := 5
  const DELETED_FILE_TAG: nat := 6
  const NEW_FILE_TAG: nat := 7
  const PREV_LOG_NUMBER_TAG: nat := 9
  datatype CompactPointer = CompactPointer(level: nat, key: Bytes)
  datatype DeletedFile = DeletedFile(level: nat, number: nat)
  datatype NewFile = NewFile(level: nat, number: nat, fileSize: nat, smallest: Bytes, largest: Bytes)

  /** The fields of an edit; the deleted files are kept in order, without repetition. */
  datatype Edit = Edit(comparator: Option<Bytes>, logNumber: Option<nat>, prevLogNumber: Option<nat>,
                       nextFileNumber: Option<nat>, lastSequence: Option<nat>,
                       compactPointers: seq<CompactPointer>, deletedFiles: seq<DeletedFile>, newFiles: seq<NewFile>)

  const EMPTY_EDIT: Edit := Edit(None, None, None, None, None, [], [], [])

  // ----- one field

  datatype Record =
    | Comparator(name: Bytes)
    | LogNumber(n: nat)
    | PrevLogNumber(n: nat)
    | NextFileNumber(n: nat)
    | LastSequence(n: nat)
    | Pointer(pointer: CompactPointer)
    | Deleted(deleted: DeletedFile)
    | New(file: NewFile)

  predicate Encodable(r: Record) {
    match r
    case Comparator(name) => |name| < TWO_32
    case LogNumber(n) => n < TWO_64
    case PrevLogNumber(n) => n < TWO_64
    case NextFileNumber(n) => n < TWO_64
    case LastSequence(n) => n < TWO_64
    case Pointer(p) => p.level < NUM_LEVELS && |p.key| < TWO_32
    case Deleted(d) => d.level < NUM_LEVELS && d.number < TWO_64
    case New(f) => f.level < NUM_LEVELS && f.number < TWO_64 && f.fileSize < TWO_64 && |f.smallest| < TWO_32 && |f.largest| < TWO_32
  }

  function RecordTag(r: Record): (t: nat)
    ensures 0 < t < 128
  {
    match r
    case Comparator(_) => COMPARATOR_TAG
    case LogNumber(_) => LOG_NUMBER_TAG
    case PrevLogNumber(_) => PREV_LOG_NUMBER_TAG
    case NextFileNumber(_) => NEXT_FILE_NUMBER_TAG
    case LastSequence(_) => LAST_SEQUENCE_TAG
    case Pointer(_) => COMPACT_POINTER_TAG
    case Deleted(_) => DELETED_FILE_TAG
    case New(_) => NEW_FILE_TAG
  }

  function BodyBytes(r: Record): Bytes {
    match r
    case Comparator(name) => LengthPrefixed(name)
    case LogNumber(n) => Varint(n)
    case PrevLogNumber(n) => Varint(n)
    case NextFileNumber(n) => Varint(n)
    case LastSequence(n) => Varint(n)
    case Pointer(p) => Varint(p.level) + LengthPrefixed(p.key)
    case Deleted(d) => Varint(d.level) + Varint(d.number)
    case New(f) => Varint(f.level) + (Varint(f.number) + (Varint(f.fileSize) + (LengthPrefixed(f.smallest) + LengthPrefixed(f.largest))))
  }

  function RecordBytes(r: Record): Bytes {
    Varint(RecordTag(r)) + BodyBytes(r)
  }

  /** The tag in front of each kind of field. */
  lemma FieldTags(r: Record)
    ensures var tag: Byte := match r
        case Comparator(_) => 1
        case LogNumber(_) => 2
        case NextFileNumber(_) => 3
        case LastSequence(_) => 4
        case Pointer(_) => 5
        case Deleted(_) => 6
        case New(_) => 7
        case PrevLogNumber(_) => 9;
      RecordBytes(r) == [tag] + BodyBytes(r)
  {
    hide BodyBytes;
  }

  /** Levels come first, then numbers, a file's size before its keys. */
  lemma BodyLayout(level: nat, number: nat, size: nat, a: Bytes, b: Bytes)
    requires level < 128 && number < 128 && size < 128 && |a| < 128 && |b| < 128
    ensures BodyBytes(New(NewFile(level, number, size, a, b))) == [level] + ([number] + ([size] + (([|a|] + a) + ([|b|] + b))))
    ensures BodyBytes(Deleted(DeletedFile(level, number))) == [level] + [number]
    ensures BodyBytes(Pointer(CompactPointer(level, a))) == [level] + ([|a|] + a)
  {
    hide LengthPrefixed, Varint;
    ShortVarint(level);
    ShortVarint(number);
    ShortVarint(size);
    ShortPrefixed(a);
    ShortPrefixed(b);
  }

  function GetLevel(input: Bytes): (t: Option<Taken<nat>>)
    ensures t.Some? ==> |t.value.rest| < |input| && t.value.value < NUM_LEVELS
  {
    match GetVarint32(input)
    case Some(t) => if t.value < NUM_LEVELS then Some(t) else None
    case None => None
  }

  function ParseNumber(input: Bytes, make: nat -> Record): (t: Option<Taken<Record>>)
    ensures t.Some? ==> |t.value.rest| < |input|
  {
    match GetVarint64(input)
    case Some(t) => Some(Taken(make(t.value), t.rest))
    case None => None
  }

  function ParseComparator(input: Bytes): (t: Option<Taken<Record>>)
    ensures t.Some? ==> |t.value.rest| < |input|
  {
    match GetLengthPrefixed(input)
    case Some(t) => Some(Taken(Comparator(t.value), t.rest))
    case None => None
  }

  function ParsePointer(input: Bytes): (t: Option<Taken<Record>>)
    ensures t.Some? ==> |t.value.rest| < |input|
  {
    match GetLevel(input)
    case None => None
    case Some(level) =>
      match GetLengthPrefixed(level.rest)
      case Some(key) => Some(Taken(Pointer(CompactPointer(level.value, key.value)), key.rest))
      case None => None
  }

  function ParseDeleted(input: Bytes): (t: Option<Taken<Record>>)
    ensures t.Some? ==> |t.value.rest| < |input|
  {
    match GetLevel(input)
    case None => None
    case Some(level) =>
      match GetVarint64(level.rest)
      case Some(number) => Some(Taken(Deleted(DeletedFile(level.value, number.value)), number.rest))
      case None => None
  }

  function ParseNew(input: Bytes): (t: Option<Taken<Record>>)
    ensures t.Some? ==> |t.value.rest| < |input|
  {
    match GetLevel(input)
    case None => None
    case Some(level) =>
      match GetVarint64(level.rest)
      case None => None
      case Some(number) =>
        match GetVarint64(number.rest)
        case None => None
        case Some(size) =>
          match GetLengthPrefixed(size.rest)
          case None => None
          case Some(smallest) =>
            match GetLengthPrefixed(smallest.rest)
            case None => None
            case Some(largest) =>
              Some(Taken(New(NewFile(level.value, number.value, size.value, smallest.value, largest.value)), largest.rest))
  }

  /** What follows a tag; an unknown tag is an error. */
  function ParseBody(tag: nat, input: Bytes): (t: Option<Taken<Record>>)
    ensures t.Some? ==> |t.value.rest| < |input|
  {
    if tag == COMPARATOR_TAG then ParseComparator(input)
    else if tag == LOG_NUMBER_TAG then ParseNumber(input, (n: nat) => LogNumber(n))
    else if tag == PREV_LOG_NUMBER_TAG then ParseNumber(input, (n: nat) => PrevLogNumber(n))
    else if tag == NEXT_FILE_NUMBER_TAG then ParseNumber(input, (n: nat) => NextFileNumber(n))
    else if tag == LAST_SEQUENCE_TAG then ParseNumber(input, (n: nat) => LastSequence(n))
    else if tag == COMPACT_POINTER_TAG then ParsePointer(input)
    else if tag == DELETED_FILE_TAG then ParseDeleted(input)
    else if tag == NEW_FILE_TAG then ParseNew(input)
    else None
  }

  lemma LevelRoundTrip(level: nat, rest: Bytes)
    requires level < NUM_LEVELS
    ensures GetLevel(Varint(level) + rest) == Some(Taken(level, rest))
  {
    hide Varint, GetVarint32;
    Varint32RoundTrip(level, rest);
  }

  lemma NewFileRoundTrip(f: NewFile, rest: Bytes)
    requires Encodable(New(f))
    ensures ParseNew(BodyBytes(New(f)) + rest) == Some(Taken(New(f), rest))
  {
    hide Varint, GetLevel, GetVarint64, LengthPrefixed, GetLengthPrefixed;
    var e := LengthPrefixed(f.largest) + rest;
    var d := LengthPrefixed(f.smallest) + e;
    var c := Varint(f.fileSize) + d;
    var b := Varint(f.number) + c;
    assert BodyBytes(New(f)) + rest == Varint(f.level) + b;
    LevelRoundTrip(f.level, b);
    Varint64RoundTrip(f.number, c);
    Varint64RoundTrip(f.fileSize, d);
    LengthPrefixedRoundTrip(f.smallest, e);
    LengthPrefixedRoundTrip(f.largest, rest);
  }

  lemma BodyRoundTrip(r: Record, rest: Bytes)
    requires Encodable(r)
    ensures ParseBody(RecordTag(r), BodyBytes(r) + rest) == Some(Taken(r, rest))
  {
    hide Varint, GetLevel, GetVarint64, LengthPrefixed, GetLengthPrefixed, ParseNew;
    match r
    case Comparator(name) => LengthPrefixedRoundTrip(name, rest);
    case LogNumber(n) => Varint64RoundTrip(n, rest);
    case PrevLogNumber(n) => Varint64RoundTrip(n, rest);
    case NextFileNumber(n) => Varint64RoundTrip(n, rest);
    case LastSequence(n) => Varint64RoundTrip(n, rest);
    case Pointer(p) =>
      assert BodyBytes(r) + rest == Varint(p.level) + (LengthPrefixed(p.key) + rest);
      LevelRoundTrip(p.level, LengthPrefixed(p.key) + rest);
      LengthPrefixedRoundTrip(p.key, rest);
    case Deleted(d) =>
      assert BodyBytes(r) + rest == Varint(d.level) + (Varint(d.number) + rest);
      LevelRoundTrip(d.level, Varint(d.number) + rest);
      Varint64RoundTrip(d.number, rest);
    case New(f) => NewFileRoundTrip(f, rest);
  }

  // ----- a whole edit

  predicate Before(a: DeletedFile, b: DeletedFile) {
    a.level < b.level || (a.level == b.level && a.number < b.number)
  }

  ghost predicate Ascending(s: seq<DeletedFile>) {
    forall i, j | 0 <= i < j < |s| :: Before(s[i], s[j])
  }

  /** Into its place, unless it is there already. */
  function InsertFile(s: seq<DeletedFile>, d: DeletedFile): seq<DeletedFile> {
    if s == [] then [d]
    else if Before(d, s[0]) then [d] + s
    else if d == s[0] then s
    else [s[0]] + InsertFile(s[1..], d)
  }

  lemma {:induction false} InsertLast(s: seq<DeletedFile>, d: DeletedFile)
    requires Ascending(s + [d])
    ensures InsertFile(s, d) == s + [d]
  {
    if s != [] {
      assert (s + [d])[|s|] == d && (s + [d])[0] == s[0];
      assert (s + [d])[1..] == s[1..] + [d];
      InsertLast(s[1..], d);
    }
  }

  /** What reading a field does. */
  function Apply(e: Edit, r: Record): Edit {
    match r
    case Comparator(name) => e.(comparator := Some(name))
    case LogNumber(n) => e.(logNumber := Some(n))
    case PrevLogNumber(n) => e.(prevLogNumber := Some(n))
    case NextFileNumber(n) => e.(nextFileNumber := Some(n))
    case LastSequence(n) => e.(lastSequence := Some(n))
    case Pointer(p) => e.(compactPointers := e.compactPointers + [p])
    case Deleted(d) => e.(deletedFiles := InsertFile(e.deletedFiles, d))
    case New(f) => e.(newFiles := e.newFiles + [f])
  }

  function ApplyAll(e: Edit, rs: seq<Record>): Edit
    decreases |rs|
  {
    if rs == [] then e else ApplyAll(Apply(e, rs[0]), rs[1..])
  }

  function Bytewise(rs: seq<Record>): Bytes {
    if rs == [] then [] else RecordBytes(rs[0]) + Bytewise(rs[1..])
  }

  /** None when the input is corrupt. */
  function Decoded(input: Bytes, e: Edit): Option<Edit>
    decreases |input|
  {
    match GetVarint32(input)
    case None => if input == [] then Some(e) else None
    case Some(tag) =>
      match ParseBody(tag.value, tag.rest)
      case None => None
      case Some(r) => Decoded(r.rest, Apply(e, r.value))
  }

  function OptionRecord(o: Option<nat>, make: nat -> Record): seq<Record> {
    if o.Some? then [make(o.value)] else []
  }

  function PointerRecords(ps: seq<CompactPointer>): seq<Record> {
    seq(|ps|, i requires 0 <= i < |ps| => Pointer(ps[i]))
  }

  function DeletedRecords(ds: seq<DeletedFile>): seq<Record> {
    seq(|ds|, i requires 0 <= i < |ds| => Deleted(ds[i]))
  }

  function NewRecords(fs: seq<NewFile>): seq<Record> {
    seq(|fs|, i requires 0 <= i < |fs| => New(fs[i]))
  }

  /** The fields in the order they are written. */
  function Records(e: Edit): seq<Record> {
    var numbers := OptionRecord(e.logNumber, (n: nat) => LogNumber(n)) + (OptionRecord(e.prevLogNumber, (n: nat) => PrevLogNumber(n))
                 + (OptionRecord(e.nextFileNumber, (n: nat) => NextFileNumber(n)) + OptionRecord(e.lastSequence, (n: nat) => LastSequence(n))));
    var lists := PointerRecords(e.compactPointers) + (DeletedRecords(e.deletedFiles) + NewRecords(e.newFiles));
    (if e.comparator.Some? then [Comparator(e.comparator.value)] else []) + (numbers + lists)
  }

  ghost predicate AllEncodable(rs: seq<Record>) {
    forall i | 0 <= i < |rs| :: Encodable(rs[i])
  }

  lemma {:induction false} ApplyTwice(e: Edit, a: seq<Record>, b: seq<Record>)
    ensures ApplyAll(e, a + b) == ApplyAll(ApplyAll(e, a), b)
    decreases |a|
  {
    if a == [] {
      assert a + b == b;
    } else {
      assert (a + b)[1..] == a[1..] + b;
      ApplyTwice(Apply(e, a[0]), a[1..], b);
    }
  }

  lemma {:induction false} BytewiseAppend(a: seq<Record>, b: seq<Record>)
    ensures Bytewise(a + b) == Bytewise(a) + Bytewise(b)
    decreases |a|
  {
    hide RecordBytes;
    if a == [] {
      assert a + b == b;
    } else {
      assert (a + b)[1..] == a[1..] + b;
      BytewiseAppend(a[1..], b);
    }
  }

  lemma OneRecord(r: Record, rest: Bytes, e: Edit)
    requires Encodable(r)
    ensures Decoded(RecordBytes(r) + rest, e) == Decoded(rest, Apply(e, r))
  {
    hide Varint, GetVarint32, ParseBody, BodyBytes, Apply;
    var input := RecordBytes(r) + rest;
    assert input == Varint(RecordTag(r)) + (BodyBytes(r) + rest);
    Varint32RoundTrip(RecordTag(r), BodyBytes(r) + rest);
    BodyRoundTrip(r, rest);
  }

  /** Decoding the bytes of some fields applies them in order. */
  lemma {:induction false} DecodesRecords(rs: seq<Record>, e: Edit)
    requires AllEncodable(rs)
    ensures Decoded(Bytewise(rs), e) == Some(ApplyAll(e, rs))
    decreases |rs|
  {
    if rs != [] {
      OneRecord(rs[0], Bytewise(rs[1..]), e);
      DecodesRecords(rs[1..], Apply(e, rs[0]));
    }
  }

  lemma {:induction false} PointersApplied(e: Edit, ps: seq<CompactPointer>)
    ensures ApplyAll(e, PointerRecords(ps)) == e.(compactPointers := e.compactPointers + ps)
    decreases |ps|
  {
    if ps == [] {
      assert e.compactPointers + ps == e.compactPointers;
    } else {
      assert PointerRecords(ps)[1..] == PointerRecords(ps[1..]);
      PointersApplied(Apply(e, Pointer(ps[0])), ps[1..]);
      assert e.compactPointers + [ps[0]] + ps[1..] == e.compactPointers + ps;
    }
  }

  lemma {:induction false} NewFilesApplied(e: Edit, fs: seq<NewFile>)
    ensures ApplyAll(e, NewRecords(fs)) == e.(newFiles := e.newFiles + fs)
    decreases |fs|
  {
    if fs == [] {
      assert e.newFiles + fs == e.newFiles;
    } else {
      assert NewRecords(fs)[1..] == NewRecords(fs[1..]);
      NewFilesApplied(Apply(e, New(fs[0])), fs[1..]);
      assert e.newFiles + [fs[0]] + fs[1..] == e.newFiles + fs;
    }
  }

  lemma {:induction false} DeletedFilesApplied(e: Edit, ds: seq<DeletedFile>)
    requires Ascending(e.deletedFiles + ds)
    ensures ApplyAll(e, DeletedRecords(ds)) == e.(deletedFiles := e.deletedFiles + ds)
    decreases |ds|
  {
    if ds == [] {
      assert e.deletedFiles + ds == e.deletedFiles;
    } else {
      assert DeletedRecords(ds)[1..] == DeletedRecords(ds[1..]);
      assert e.deletedFiles + [ds[0]] + ds[1..] == e.deletedFiles + ds;
      assert (e.deletedFiles + ds)[..|e.deletedFiles| + 1] == e.deletedFiles + [ds[0]];
      InsertLast(e.deletedFiles, ds[0]);
      DeletedFilesApplied(Apply(e, Deleted(ds[0])), ds[1..]);
    }
  }

  lemma NumberApplied(e: Edit, o: Option<nat>, make: nat -> Record)
    ensures ApplyAll(e, OptionRecord(o, make)) == if o.Some? then Apply(e, make(o.value)) else e
  {
    hide Apply;
    if o.Some? {
      assert OptionRecord(o, make)[1..] == [];
    }
  }

  lemma NameApplied(e: Edit, o: Option<Bytes>)
    requires e.comparator == None
    ensures ApplyAll(e, if o.Some? then [Comparator(o.value)] else []) == e.(comparator := o)
  {
    if o.Some? {
      assert [Comparator(o.value)][1..] == [];
    }
  }

  /** Reading an edit's fields in a cleared edit gives the edit; pointers join those already there. */
  lemma RecordsApplied(e: Edit, pointers: seq<CompactPointer>)
    requires Ascending(e.deletedFiles)
    ensures ApplyAll(EMPTY_EDIT.(compactPointers := pointers), Records(e)) == e.(compactPointers := pointers + e.compactPointers)
  {
    hide ApplyAll, Ascending, OptionRecord, PointerRecords, DeletedRecords, NewRecords;
    var e0 := EMPTY_EDIT.(compactPointers := pointers);
    var log, prev, next, last := OptionRecord(e.logNumber, (n: nat) => LogNumber(n)), OptionRecord(e.prevLogNumber, (n: nat) => PrevLogNumber(n)),
      OptionRecord(e.nextFileNumber, (n: nat) => NextFileNumber(n)), OptionRecord(e.lastSequence, (n: nat) => LastSequence(n));
    var name := if e.comparator.Some? then [Comparator(e.comparator.value)] else [];
    var ps, ds, fs := PointerRecords(e.compactPointers), DeletedRecords(e.deletedFiles), NewRecords(e.newFiles);
    var numbers, lists := log + (prev + (next + last)), ps + (ds + fs);
    var e1 := e0.(comparator := e.comparator);
    var e2 := e1.(logNumber := e.logNumber);
    var e3 := e2.(prevLogNumber := e.prevLogNumber);
    var e4 := e3.(nextFileNumber := e.nextFileNumber);
    var e5 := e4.(lastSequence := e.lastSequence);
    var e6 := e5.(compactPointers := pointers + e.compactPointers);
    var e7 := e6.(deletedFiles := e.deletedFiles);
    ApplyTwice(e0, name, numbers + lists);
    NameApplied(e0, e.comparator);
    ApplyTwice(e1, numbers, lists);
    ApplyTwice(e1, log, prev + (next + last));
    NumberApplied(e1, e.logNumber, (n: nat) => LogNumber(n));
    ApplyTwice(e2, prev, next + last);
    NumberApplied(e2, e.prevLogNumber, (n: nat) => PrevLogNumber(n));
    ApplyTwice(e3, next, last);
    NumberApplied(e3, e.nextFileNumber, (n: nat) => NextFileNumber(n));
    NumberApplied(e4, e.lastSequence, (n: nat) => LastSequence(n));
    ApplyTwice(e5, ps, ds + fs);
    PointersApplied(e5, e.compactPointers);
    ApplyTwice(e6, ds, fs);
    assert [] + e.deletedFiles == e.deletedFiles && [] + e.newFiles == e.newFiles;
    DeletedFilesApplied(e6, e.deletedFiles);
    NewFilesApplied(e7, e.newFiles);
  }

  /** Every edit survives being written and read into a cleared edit. */
  lemma EditRoundTrip(e: Edit, pointers: seq<CompactPointer>)
    requires Ascending(e.deletedFiles) && AllEncodable(Records(e))
    ensures Decoded(Bytewise(Records(e)), EMPTY_EDIT.(compactPointers := pointers))
         == Some(e.(compactPointers := pointers + e.compactPointers))
    ensures Decoded(Bytewise(Records(e)), EMPTY_EDIT) == Some(e)
  {
    hide Records, Decoded, Bytewise, ApplyAll, AllEncodable;
    DecodesRecords(Records(e), EMPTY_EDIT.(compactPointers := pointers));
    RecordsApplied(e, pointers);
    DecodesRecords(Records(e), EMPTY_EDIT.(compactPointers := []));
    RecordsApplied(e, []);
    assert [] + e.compactPointers == e.compactPointers;
  }

  /** The order of the fields. */
  lemma FieldOrder(e: Edit, p: CompactPointer, d: DeletedFile, f: NewFile)
    requires e.comparator.Some? && e.logNumber.Some? && e.prevLogNumber.Some? && e.nextFileNumber.Some? && e.lastSequence.Some?
    requires e.compactPointers == [p] && e.deletedFiles == [d] && e.newFiles == [f]
    ensures Records(e) == [Comparator(e.comparator.value), LogNumber(e.logNumber.value), PrevLogNumber(e.prevLogNumber.value),
                           NextFileNumber(e.nextFileNumber.value), LastSequence(e.lastSequence.value), Pointer(p), Deleted(d), New(f)]
  {
  }

  // ----- the object

  lemma NothingWritten(dst: Bytes)
    ensures dst + Bytewise([]) == dst
  {
  }

  /** Appends the tag and the body of a field. */
  method Put(dst: Bytes, r: Record, ghost start: Bytes, ghost done: seq<Record>) returns (b: Bytes)
    requires dst == start + Bytewise(done)
    ensures b == start + Bytewise(done + [r])
  {
    hide Varint, BodyBytes;
    b := dst + Varint(RecordTag(r));
    b := b + BodyBytes(r);
    BytewiseAppend(done, [r]);
    assert Bytewise([r]) == RecordBytes(r) + Bytewise([]);
  }

  /** Appends a numbered field, if it is set. */
  method PutNumber(dst: Bytes, o: Option<nat>, make: nat -> Record, ghost start: Bytes, ghost done: seq<Record>)
    returns (b: Bytes, ghost done': seq<Record>)
    requires dst == start + Bytewise(done)
    ensures done' == done + OptionRecord(o, make) && b == start + Bytewise(done')
  {
    hide Bytewise;
    b, done' := dst, done;
    if o.Some? {
      b := Put(dst, make(o.value), start, done);
      done' := done + [make(o.value)];
    }
  }

  class VersionEdit {
    var comparator: Option<Bytes>
    var logNumber: Option<nat>
    var prevLogNumber: Option<nat>
    var nextFileNumber: Option<nat>
    var lastSequence: Option<nat>
    var compactPointers: seq<CompactPointer>
    var deletedFiles: seq<DeletedFile>
    var newFiles: seq<NewFile>

    function Contents(): Edit
      reads this
    {
      Edit(comparator, logNumber, prevLogNumber, nextFileNumber, lastSequence, compactPointers, deletedFiles, newFiles)
    }

    constructor ()
      ensures Contents() == EMPTY_EDIT
    {
      comparator, logNumber, prevLogNumber, nextFileNumber, lastSequence := None, None, None, None, None;
      compactPointers, deletedFiles, newFiles := [], [], [];
    }

    /** Clears everything but the compaction pointers. */
    method Clear()
      modifies this
      ensures Contents() == EMPTY_EDIT.(compactPointers := old(compactPointers))
    {
      comparator, logNumber, prevLogNumber, nextFileNumber, lastSequence := None, None, None, None, None;
      deletedFiles, newFiles := [], [];
    }

    method EncodeLists(start: Bytes, ghost dst: Bytes, ghost head: seq<Record>) returns (r: Bytes)
      requires start == dst + Bytewise(head)
      ensures r == dst + Bytewise(head + (PointerRecords(compactPointers) + (DeletedRecords(deletedFiles) + NewRecords(newFiles))))
    {
      hide Bytewise, RecordBytes;
      r := start;
      ghost var done := head;
      for i := 0 to |compactPointers|
        invariant done == head + PointerRecords(compactPointers[..i]) && r == dst + Bytewise(done)
      {
        r := Put(r, Pointer(compactPointers[i]), dst, done);
        done := done + [Pointer(compactPointers[i])];
      }
      assert compactPointers[..|compactPointers|] == compactPointers;
      ghost var head2 := done;
      for i := 0 to |deletedFiles|
        invariant done == head2 + DeletedRecords(deletedFiles[..i]) && r == dst + Bytewise(done)
      {
        r := Put(r, Deleted(deletedFiles[i]), dst, done);
        done := done + [Deleted(deletedFiles[i])];
      }
      assert deletedFiles[..|deletedFiles|] == deletedFiles;
      ghost var head3 := done;
      for i := 0 to |newFiles|
        invariant done == head3 + NewRecords(newFiles[..i]) && r == dst + Bytewise(done)
      {
        r := Put(r, New(newFiles[i]), dst, done);
        done := done + [New(newFiles[i])];
      }
      assert newFiles[..|newFiles|] == newFiles;
      assert done == head + (PointerRecords(compactPointers) + (DeletedRecords(deletedFiles) + NewRecords(newFiles)));
    }

    method EncodeTo(dst: Bytes) returns (r: Bytes)
      ensures r == dst + Bytewise(Records(Contents()))
    {
      hide Bytewise, RecordBytes, OptionRecord, PointerRecords, DeletedRecords, NewRecords;
      r := dst;
      NothingWritten(dst);
      ghost var done: seq<Record> := [];
      if comparator.Some? {
        r := Put(r, Comparator(comparator.value), dst, done);
        done := done + [Comparator(comparator.value)];
      }
      r, done := PutNumber(r, logNumber, (n: nat) => LogNumber(n), dst, done);
      r, done := PutNumber(r, prevLogNumber, (n: nat) => PrevLogNumber(n), dst, done);
      r, done := PutNumber(r, nextFileNumber, (n: nat) => NextFileNumber(n), dst, done);
      r, done := PutNumber(r, lastSequence, (n: nat) => LastSequence(n), dst, done);
      r := EncodeLists(r, dst, done);
      assert Records(Contents()) == done + (PointerRecords(compactPointers) + (DeletedRecords(deletedFiles) + NewRecords(newFiles)));
    }

    method Take(r: Record)
      modifies this
      ensures Contents() == Apply(old(Contents()), r)
    {
      match r
      case Comparator(name) => comparator := Some(name);
      case LogNumber(n) => logNumber := Some(n);
      case PrevLogNumber(n) => prevLogNumber := Some(n);
      case NextFileNumber(n) => nextFileNumber := Some(n);
      case LastSequence(n) => lastSequence := Some(n);
      case Pointer(p) => compactPointers := compactPointers + [p];
      case Deleted(d) => deletedFiles := InsertFile(deletedFiles, d);
      case New(f) => newFiles := newFiles + [f];
    }

    /** Reads fields until the input ends or one of them is bad. */
    method DecodeFrom(src: Bytes) returns (ok: bool)
      modifies this
      ensures var d := Decoded(src, EMPTY_EDIT.(compactPointers := old(compactPointers)));
        (ok <==> d.Some?) && (ok ==> Contents() == d.value)
    {
      hide ParseBody;
      Clear();
      var input := src;
      while true
        invariant Decoded(input, Contents()) == Decoded(src, EMPTY_EDIT.(compactPointers := old(compactPointers)))
        decreases |input|
      {
        var tag := GetVarint32(input);
        if tag.None? {
          return input == [];
        }
        var field := ParseBody(tag.value.value, tag.value.rest);
        if field.None? {
          return false;
        }
        Take(field.value.value);
        input := field.value.rest;
      }
    }
  }
}
