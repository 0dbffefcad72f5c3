/** Reading back a log that may have been cut off at any byte: exactly the records that were
    completely written are returned, and no corruption is reported. */
module LogRecovery {
  import opened Keys
  import opened Coding
  import opened Log

  /** The reader is about to parse file position a: its buffer is the rest of a's block. */
  ghost predicate Ready(file: Bytes, st: ReadState, a: nat) {
    && st.end <= |file| && |st.buffer| <= st.end && a == st.end - |st.buffer|
    && st.buffer == file[a..st.end]
    && (!st.eof ==> st.end % BLOCK_SIZE == 0 && st.end - a < BLOCK_SIZE)
    && (st.eof ==> st.end == |file| && |file| - a <= BLOCK_SIZE - a % BLOCK_SIZE)
  }

  /** The file from a on is what was written there, as far as the file goes. */
  ghost predicate Agrees(file: Bytes, a: nat, written: Bytes) {
    a <= |file| && file[a..] <= written
  }

  lemma AgreesSplit(file: Bytes, a: nat, first: Bytes, rest: Bytes)
    requires Agrees(file, a, first + rest)
    ensures a + |first| <= |file| ==> file[a..a+|first|] == first && Agrees(file, a + |first|, rest)
    ensures a + |first| > |file| ==> file[a..] <= first
  {
    if a + |first| <= |file| {
      assert file[a..][..|first|] == first;
      assert file[a..][..|first|] == file[a..a+|first|];
      assert file[a..][|first|..] == file[a+|first|..];
      assert (first + rest)[|first|..] == rest;
    }
  }

  // ----- one piece

  /** The buffer starts with the piece's header, and holds the whole piece unless the file ends
      inside it. */
  ghost predicate AtBody(file: Bytes, st: ReadState, b: nat, length: nat) {
    && st.end <= |file| && b + |st.buffer| == st.end && st.buffer == file[b..st.end]
    && b % BLOCK_SIZE + HEADER_SIZE + length <= BLOCK_SIZE
    && st.end - b <= BLOCK_SIZE - b % BLOCK_SIZE
    && (!st.eof ==> st.end == b + (BLOCK_SIZE - b % BLOCK_SIZE))
    && (st.eof ==> st.end == |file|)
  }

  lemma HeaderParses(crc: Checksum, kind: Byte, payload: Bytes, buffer: Bytes)
    requires |payload| < 0x1_0000 && |buffer| >= HEADER_SIZE && buffer[..HEADER_SIZE] == Header(crc, kind, payload)
    ensures PayloadLength(buffer) == |payload| && buffer[6] == kind
    ensures Unmask(DecodeFixed32(buffer)) == crc([kind] + payload)
  {
    var h := Header(crc, kind, payload);
    var mask := Mask(crc([kind] + payload));
    forall i | 0 <= i < HEADER_SIZE
      ensures buffer[i] == h[i]
    {
      assert buffer[..HEADER_SIZE][i] == buffer[i];
    }
    Fixed32RoundTrip(mask, buffer[4..]);
    assert Fixed32(mask) + buffer[4..] == buffer;
    UnmaskInvertsMask(crc([kind] + payload));
  }

  lemma BodyInBuffer(file: Bytes, st: ReadState, b: nat, kind: Byte, payload: Bytes)
    requires AtBody(file, st, b, |payload|) && |st.buffer| >= HEADER_SIZE && st.buffer[6] == kind
    requires b + HEADER_SIZE + |payload| <= |file|
    requires file[b+HEADER_SIZE..b+HEADER_SIZE+|payload|] == payload
    ensures var n := HEADER_SIZE + |payload|;
      && n <= |st.buffer| && st.buffer[HEADER_SIZE..n] == payload && st.buffer[6..n] == [kind] + payload
      && st.buffer[n..] == file[b+n..st.end]
  {
    var n := HEADER_SIZE + |payload|;
    assert n <= |st.buffer|;
    assert st.buffer[HEADER_SIZE..n] == file[b+HEADER_SIZE..b+n];
    assert st.buffer[6..n] == [st.buffer[6]] + st.buffer[HEADER_SIZE..n];
  }

  lemma ReadyAfter(file: Bytes, st: ReadState, b: nat, n: nat)
    requires HEADER_SIZE <= n && AtBody(file, st, b, n - HEADER_SIZE) && n <= |st.buffer|
    requires st.buffer[n..] == file[b+n..st.end]
    ensures Ready(file, st.(buffer := st.buffer[n..]), b + n)
  {
    var e := b + n;
    var left := BLOCK_SIZE - b % BLOCK_SIZE;
    assert b + left == (b / BLOCK_SIZE + 1) * BLOCK_SIZE;
    if n < left {
      assert e % BLOCK_SIZE == b % BLOCK_SIZE + n;
    } else {
      assert e % BLOCK_SIZE == 0;
    }
  }

  lemma BodyArrives(crc: Checksum, file: Bytes, st: ReadState, b: nat, kind: Byte, payload: Bytes)
    requires |payload| < 0x1_0000 && ZERO_TYPE < kind <= LAST_TYPE
    requires AtBody(file, st, b, |payload|) && |st.buffer| >= HEADER_SIZE
    requires st.buffer[..HEADER_SIZE] == Header(crc, kind, payload)
    requires b + HEADER_SIZE + |payload| <= |file| ==> file[b+HEADER_SIZE..b+HEADER_SIZE+|payload|] == payload
    ensures var (st', p) := ParsePhysical(crc, st); var e := b + HEADER_SIZE + |payload|;
      && st'.corruptions == st.corruptions && st'.end <= |file|
      && (if e <= |file| then p == Fragment(kind, payload) && Ready(file, st', e) else p == Eof)
  {
    hide Header, Unmask, DecodeFixed32, PayloadLength, Ready;
    HeaderParses(crc, kind, payload, st.buffer);
    var n := HEADER_SIZE + |payload|;
    if b + n <= |file| {
      BodyInBuffer(file, st, b, kind, payload);
      ReadyAfter(file, st, b, n);
    }
  }

  /** Where the reader is once it has skipped the padding before the piece at a. */
  ghost function SkipPadding(file: Bytes, st: ReadState): ReadState
    requires st.end <= |file|
  {
    if |st.buffer| >= HEADER_SIZE || st.eof then st
    else var block := NextBlock(file, st.end); ReadState(st.end + |block|, block, |block| < BLOCK_SIZE, st.corruptions)
  }

  lemma PaddingSkipped(file: Bytes, st: ReadState, a: nat, length: nat)
    requires Ready(file, st, a) && (a + Padding(a)) % BLOCK_SIZE + HEADER_SIZE + length <= BLOCK_SIZE
    ensures var st1 := SkipPadding(file, st);
      && st1.corruptions == st.corruptions && st1.end <= |file|
      && (|st1.buffer| >= HEADER_SIZE ==> AtBody(file, st1, a + Padding(a), length))
      && (|st1.buffer| < HEADER_SIZE ==> st1.eof && a + Padding(a) + HEADER_SIZE > |file|)
  {
    if |st.buffer| >= HEADER_SIZE {
      assert !st.eof ==> st.end == a + (BLOCK_SIZE - a % BLOCK_SIZE);
      assert Padding(a) == 0;
    } else if !st.eof {
      assert st.end == a + Padding(a);
      var block := NextBlock(file, st.end);
      assert block == file[st.end..st.end+|block|];
    }
  }

  lemma ReadAfterSkip(crc: Checksum, file: Bytes, st: ReadState)
    requires st.end <= |file|
    ensures var st1 := SkipPadding(file, st);
      && st1.end <= |file|
      && (|st1.buffer| >= HEADER_SIZE ==> ReadPhysical(crc, file, st) == ParsePhysical(crc, st1))
      && (|st1.buffer| < HEADER_SIZE && st1.eof ==> ReadPhysical(crc, file, st) == (st1.(buffer := []), Eof))
  {
    if |st.buffer| < HEADER_SIZE && !st.eof {
      ReadPhysicalStep(crc, file, st);
    }
  }

  /** The parts of a piece as they lie in the file, as far as it goes. */
  lemma PieceInFile(crc: Checksum, file: Bytes, a: nat, kind: Byte, payload: Bytes, rest: Bytes)
    requires |payload| < 0x1_0000 && Agrees(file, a, Piece(crc, a, kind, payload) + rest)
    ensures var b := a + Padding(a);
      && (b + HEADER_SIZE <= |file| ==> file[b..b+HEADER_SIZE] == Header(crc, kind, payload))
      && (b + HEADER_SIZE + |payload| <= |file| ==> file[b+HEADER_SIZE..b+HEADER_SIZE+|payload|] == payload)
      && (b + HEADER_SIZE + |payload| <= |file| ==> Agrees(file, b + HEADER_SIZE + |payload|, rest))
  {
    var header, zeros := Header(crc, kind, payload), Zeros(Padding(a));
    assert Piece(crc, a, kind, payload) + rest == zeros + (header + (payload + rest));
    AgreesSplit(file, a, zeros, header + (payload + rest));
    if a + |zeros| <= |file| {
      AgreesSplit(file, a + |zeros|, header, payload + rest);
      if a + |zeros| + HEADER_SIZE <= |file| {
        AgreesSplit(file, a + |zeros| + HEADER_SIZE, payload, rest);
      }
    }
  }

  /** What reading a piece that ends at e gives: the fragment if the file holds all of it, and
      otherwise the end of the file. */
  ghost predicate PieceOutcome(file: Bytes, st: ReadState, r: (ReadState, Physical), e: nat, kind: Byte, payload: Bytes, rest: Bytes) {
    && r.0.corruptions == st.corruptions && r.0.end <= |file|
    && if e <= |file| then r.1 == Fragment(kind, payload) && Ready(file, r.0, e) && Agrees(file, e, rest) else r.1 == Eof
  }

  lemma BufferStart(file: Bytes, st: ReadState, b: nat, length: nat)
    requires AtBody(file, st, b, length) && |st.buffer| >= HEADER_SIZE
    ensures b + HEADER_SIZE <= |file| && st.buffer[..HEADER_SIZE] == file[b..b+HEADER_SIZE]
  {
    assert file[b..st.end][..HEADER_SIZE] == file[b..b+HEADER_SIZE];
  }

  lemma PieceArrives(crc: Checksum, file: Bytes, st: ReadState, a: nat, kind: Byte, payload: Bytes, rest: Bytes)
    requires |payload| < 0x1_0000 && ZERO_TYPE < kind <= LAST_TYPE && st.end <= |file| && Ready(file, st, a)
    requires (a + Padding(a)) % BLOCK_SIZE + HEADER_SIZE + |payload| <= BLOCK_SIZE
    requires Agrees(file, a, Piece(crc, a, kind, payload) + rest)
    ensures PieceOutcome(file, st, ReadPhysical(crc, file, st), a + Padding(a) + HEADER_SIZE + |payload|, kind, payload, rest)
  {
    hide Ready, Agrees, AtBody, SkipPadding, ReadPhysical, ParsePhysical, Piece, Header, Padding;
    var b := a + Padding(a);
    PaddingSkipped(file, st, a, |payload|);
    ReadAfterSkip(crc, file, st);
    PieceInFile(crc, file, a, kind, payload, rest);
    var st1 := SkipPadding(file, st);
    if |st1.buffer| >= HEADER_SIZE {
      BufferStart(file, st1, b, |payload|);
      BodyArrives(crc, file, st1, b, kind, payload);
    }
  }

  // ----- one record

  lemma FragmentFits(pos: nat, left: nat)
    ensures (pos + Padding(pos)) % BLOCK_SIZE + HEADER_SIZE + FragmentLength(pos, left) <= BLOCK_SIZE
  {
    PaddingFits(pos);
  }

  /** What reading a record that ends at e gives. */
  ghost predicate RecordOutcome(file: Bytes, st: ReadState, r: (ReadState, Option<Bytes>), e: nat, whole: Bytes, rest: Bytes) {
    && r.0.corruptions == st.corruptions && r.0.end <= |file|
    && if e <= |file| then r.1 == Some(whole) && Ready(file, r.0, e) && Agrees(file, e, rest) else r.1 == None
  }

  lemma RecordUnfolds(crc: Checksum, a: nat, data: Bytes, begin: bool, rest: Bytes)
    ensures var n, piece := FragmentLength(a, |data|), FirstPiece(crc, a, data, begin);
      && (n == |data| ==> Record(crc, a, data, begin) == piece)
      && (n < |data| ==> |Record(crc, a, data, begin)| == |piece| + |Record(crc, a + |piece|, data[n..], false)|)
      && (n < |data| ==> Record(crc, a, data, begin) + rest == piece + (Record(crc, a + |piece|, data[n..], false) + rest))
  {
    hide FirstPiece, Padding;
    var n, piece := FragmentLength(a, |data|), FirstPiece(crc, a, data, begin);
    if n < |data| {
      Associative(piece, Record(crc, a + |piece|, data[n..], false), rest);
    }
  }

  /** Reading on after one piece of the record, if it was all there. */
  lemma LogicalStep(crc: Checksum, file: Bytes, st: ReadState, scratch: Option<Bytes>, begin: bool, end: bool,
                    e: nat, payload: Bytes, rest: Bytes)
    requires st.end <= |file| && (begin <==> scratch.None?)
    requires PieceOutcome(file, st, ReadPhysical(crc, file, st), e, PieceType(begin, end), payload, rest)
    ensures var st', gathered := ReadPhysical(crc, file, st).0, (if begin then [] else scratch.value) + payload;
      && st'.end <= |file| && st'.corruptions == st.corruptions
      && (e <= |file| ==> Ready(file, st', e) && Agrees(file, e, rest))
      && ReadLogical(crc, file, st, scratch) ==
           if e > |file| then (st', None) else if end then (st', Some(gathered)) else ReadLogical(crc, file, st', Some(gathered))
  {
    hide Ready, Agrees, ReadPhysical, ParsePhysical;
    assert [] + payload == payload;
  }

  lemma ToOutcome(file: Bytes, st: ReadState, r: (ReadState, Option<Bytes>), e: nat, whole: Bytes, rest: Bytes)
    requires r.0.corruptions == st.corruptions && r.0.end <= |file|
    requires if e <= |file| then r.1 == Some(whole) && Ready(file, r.0, e) && Agrees(file, e, rest) else r.1 == None
    ensures RecordOutcome(file, st, r, e, whole, rest)
  {
  }

  /** The first piece of a record as PieceArrives expects it. */
  lemma FirstPieceArrives(crc: Checksum, file: Bytes, st: ReadState, a: nat, data: Bytes, begin: bool, after: Bytes)
    requires st.end <= |file| && Ready(file, st, a) && Agrees(file, a, FirstPiece(crc, a, data, begin) + after)
    ensures var n := FragmentLength(a, |data|);
      PieceOutcome(file, st, ReadPhysical(crc, file, st), a + |FirstPiece(crc, a, data, begin)|, PieceType(begin, n == |data|), data[..n], after)
  {
    hide Ready, Agrees, ReadPhysical, PieceOutcome, Piece, Padding;
    var n := FragmentLength(a, |data|);
    FragmentFits(a, |data|);
    PieceArrives(crc, file, st, a, PieceType(begin, n == |data|), data[..n], after);
  }

  lemma SameOutcome(file: Bytes, st: ReadState, st': ReadState, r: (ReadState, Option<Bytes>), e: nat, whole: Bytes, rest: Bytes)
    requires RecordOutcome(file, st', r, e, whole, rest) && st'.corruptions == st.corruptions
    ensures RecordOutcome(file, st, r, e, whole, rest)
  {
  }

  lemma {:induction false} RecordArrives(crc: Checksum, file: Bytes, st: ReadState, a: nat, data: Bytes, begin: bool,
                                         scratch: Option<Bytes>, rest: Bytes)
    requires st.end <= |file| && Ready(file, st, a) && (begin <==> scratch.None?)
    requires Agrees(file, a, Record(crc, a, data, begin) + rest)
    ensures RecordOutcome(file, st, ReadLogical(crc, file, st, scratch), a + |Record(crc, a, data, begin)|,
                          (if begin then [] else scratch.value) + data, rest)
    decreases |data|, if FragmentLength(a, |data|) == 0 then 1 else 0
  {
    hide *;
    var n := FragmentLength(a, |data|);
    var end := n == |data|;
    var piece := FirstPiece(crc, a, data, begin);
    var e := a + |piece|;
    RecordUnfolds(crc, a, data, begin, rest);
    var after := if end then rest else Record(crc, e, data[n..], false) + rest;
    FirstPieceArrives(crc, file, st, a, data, begin, after);
    LogicalStep(crc, file, st, scratch, begin, end, e, data[..n], after);
    var st', gathered := ReadPhysical(crc, file, st).0, (if begin then [] else scratch.value) + data[..n];
    var whole := (if begin then [] else scratch.value) + data;
    if end {
      assert data[..n] == data;
      ToOutcome(file, st, ReadLogical(crc, file, st, scratch), e, whole, rest);
    } else {
      var e' := a + |Record(crc, a, data, begin)|;
      assert gathered + data[n..] == whole;
      if e <= |file| {
        if n == 0 { MoreRoom(a, |data|); }
        RecordArrives(crc, file, st', e, data[n..], false, Some(gathered), rest);
        SameOutcome(file, st, st', ReadLogical(crc, file, st, scratch), e', whole, rest);
      } else {
        ToOutcome(file, st, ReadLogical(crc, file, st, scratch), e', whole, rest);
      }
    }
  }

  // ----- the whole log

  /** How many of the records written from pos on end at or before byte limit. */
  function CompleteRecords(crc: Checksum, pos: nat, rs: seq<Bytes>, limit: nat): (n: nat)
    ensures n <= |rs|
    decreases |rs|
  {
    if rs == [] then 0
    else
      var e := pos + |Record(crc, pos, rs[0], true)|;
      if e > limit then 0 else 1 + CompleteRecords(crc, e, rs[1..], limit)
  }

  lemma NothingLeft(crc: Checksum, file: Bytes, st: ReadState)
    requires Ready(file, st, |file|)
    ensures ReadLogical(crc, file, st, None).1 == None
    ensures ReadLogical(crc, file, st, None).0.corruptions == st.corruptions
  {
    ReadAfterSkip(crc, file, st);
    var st1 := SkipPadding(file, st);
    assert |st1.buffer| < HEADER_SIZE && st1.eof;
  }

  lemma FirstRecordArrives(crc: Checksum, file: Bytes, st: ReadState, a: nat, data: Bytes, rest: Bytes)
    requires st.end <= |file| && Ready(file, st, a) && Agrees(file, a, Record(crc, a, data, true) + rest)
    ensures var e, r := a + |Record(crc, a, data, true)|, ReadLogical(crc, file, st, None);
      && r.0.corruptions == st.corruptions && r.0.end <= |file|
      && if e <= |file| then r.1 == Some(data) && Ready(file, r.0, e) && Agrees(file, e, rest) else r.1 == None
  {
    hide Ready, Agrees, ReadLogical, Record;
    RecordArrives(crc, file, st, a, data, true, None, rest);
    assert [] + data == data;
  }

  lemma {:induction false} RecordsArrive(crc: Checksum, file: Bytes, st: ReadState, a: nat, rs: seq<Bytes>)
    requires st.end <= |file| && Ready(file, st, a) && Agrees(file, a, Records(crc, a, rs))
    ensures var (last, read) := ReadAll(crc, file, st);
      read == rs[..CompleteRecords(crc, a, rs, |file|)] && last.corruptions == st.corruptions
    decreases |rs|
  {
    hide Ready, ReadLogical, Record;
    if rs == [] {
      assert file[a..] == [];
      NothingLeft(crc, file, st);
    } else {
      var first := Record(crc, a, rs[0], true);
      var rest := Records(crc, a + |first|, rs[1..]);
      assert Records(crc, a, rs) == first + rest;
      FirstRecordArrives(crc, file, st, a, rs[0], rest);
      var (st', record) := ReadLogical(crc, file, st, None);
      if record.Some? {
        RecordsArrive(crc, file, st', a + |first|, rs[1..]);
        var n := CompleteRecords(crc, a + |first|, rs[1..], |file|);
        assert rs[..n+1] == [rs[0]] + rs[1..][..n];
      }
    }
  }

  lemma {:induction false} AllComplete(crc: Checksum, pos: nat, rs: seq<Bytes>, limit: nat)
    requires limit == pos + |Records(crc, pos, rs)|
    ensures CompleteRecords(crc, pos, rs, limit) == |rs|
    decreases |rs|
  {
    if rs != [] {
      AllComplete(crc, pos + |Record(crc, pos, rs[0], true)|, rs[1..], limit);
    }
  }

  /** A log cut off after any number of bytes reads back as the records it holds completely,
      without a corruption report. */
  lemma TruncatedLogReads(crc: Checksum, rs: seq<Bytes>, cut: nat)
    requires cut <= |Records(crc, 0, rs)|
    ensures var (last, read) := ReadAll(crc, Records(crc, 0, rs)[..cut], ReadState(0, [], false, 0));
      read == rs[..CompleteRecords(crc, 0, rs, cut)] && last.corruptions == 0
  {
    var file := Records(crc, 0, rs)[..cut];
    assert file[0..] == file;
    RecordsArrive(crc, file, ReadState(0, [], false, 0), 0, rs);
  }

  /** An intact log reads back as what was written. */
  lemma LogRoundTrip(crc: Checksum, rs: seq<Bytes>)
    ensures var (last, read) := ReadAll(crc, Records(crc, 0, rs), ReadState(0, [], false, 0));
      read == rs && last.corruptions == 0
  {
    var whole := Records(crc, 0, rs);
    assert whole[..|whole|] == whole;
    AllComplete(crc, 0, rs, |whole|);
    TruncatedLogReads(crc, rs, |whole|);
    assert rs[..|rs|] == rs;
  }
}
