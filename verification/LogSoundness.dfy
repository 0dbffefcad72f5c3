/** What the log reader yields from any file whatever: only records whose pieces lie in the file one
    after the other, each with the checksum that the writer would have given it. */
module LogSoundness {
  import opened Keys
  import opened Coding
  import opened Log
  import opened LogRecovery

  // ----- one piece

  /** The bytes of a piece as the writer makes them. */
  function PieceBytes(crc: Checksum, kind: Byte, payload: Bytes): (b: Bytes)
    requires |payload| < 0x1_0000
    ensures |b| == HEADER_SIZE + |payload|
  {
    Header(crc, kind, payload) + payload
  }

  /** The header and the payload at the front of a buffer are as the writer makes them just when
      the checksum in the header is right. */
  lemma RightChecksum(crc: Checksum, buffer: Bytes, n: nat)
    requires HEADER_SIZE <= n <= |buffer| && n == HEADER_SIZE + PayloadLength(buffer)
    ensures |buffer[HEADER_SIZE..n]| < 0x1_0000
    ensures crc(buffer[6..n]) == Unmask(DecodeFixed32(buffer)) <==> buffer[..n] == PieceBytes(crc, buffer[6], buffer[HEADER_SIZE..n])
  {
    hide Mask, Unmask, DecodeFixed32, Fixed32;
    var kind, payload := buffer[6], buffer[HEADER_SIZE..n];
    assert |payload| < 0x1_0000;
    assert buffer[6..n] == [kind] + payload;
    var h := Header(crc, kind, payload);
    assert h[4..] == [|payload| % 256, |payload| / 256, kind];
    assert buffer[..n] == buffer[..4] + (buffer[4..HEADER_SIZE] + payload);
    assert buffer[4..HEADER_SIZE] == [buffer[4], buffer[5], kind] == h[4..];
    if crc([kind] + payload) == Unmask(DecodeFixed32(buffer)) {
      MaskInvertsUnmask(DecodeFixed32(buffer));
      DecodedFixed32(buffer);
      assert h[..4] == buffer[..4];
    } else if buffer[..n] == PieceBytes(crc, kind, payload) {
      assert buffer[..HEADER_SIZE] == buffer[..n][..HEADER_SIZE] == h;
      HeaderParses(crc, kind, payload, buffer);
      assert false;
    }
  }

  ghost predicate Refused(st: ReadState, st': ReadState, p: Physical, reports: nat) {
    p == BadRecord && st'.buffer == [] && st'.corruptions == st.corruptions + reports
  }

  /** The types 5 and 6 are taken for the reader's own codes. */
  ghost predicate Taken(st: ReadState, st': ReadState, p: Physical, n: nat)
    requires HEADER_SIZE <= n <= |st.buffer|
  {
    && st'.buffer == st.buffer[n..] && st'.corruptions == st.corruptions
    && p == if st.buffer[6] == 5 then Eof else if st.buffer[6] == 6 then BadRecord else Fragment(st.buffer[6], st.buffer[HEADER_SIZE..n])
  }

  /** How the piece at the front of a buffer is taken: one that is cut off by the end of the file
      ends it, an empty one of type zero is passed over, any other is refused and reported unless
      its bytes are those the writer makes. What follows a refused piece in the block is dropped. */
  lemma ParsedExactly(crc: Checksum, st: ReadState)
    requires |st.buffer| >= HEADER_SIZE
    ensures var b, (st', p) := st.buffer, ParsePhysical(crc, st); var n := HEADER_SIZE + (b[4] as int) + 256 * (b[5] as int);
      && st'.end == st.end && st'.eof == st.eof
      && (n > |b| && st.eof ==> p == Eof && st'.buffer == [] && st'.corruptions == st.corruptions)
      && (n > |b| && !st.eof ==> Refused(st, st', p, 1))
      && (n <= |b| && b[6] == 0 && n == HEADER_SIZE ==> Refused(st, st', p, 0))
      && (n <= |b| && (b[6] != 0 || n > HEADER_SIZE) && !(b[..n] == PieceBytes(crc, b[6], b[HEADER_SIZE..n])) ==> Refused(st, st', p, 1))
      && (n <= |b| && (b[6] != 0 || n > HEADER_SIZE) && b[..n] == PieceBytes(crc, b[6], b[HEADER_SIZE..n]) ==> Taken(st, st', p, n))
  {
    hide Unmask, DecodeFixed32, PieceBytes;
    var n := HEADER_SIZE + PayloadLength(st.buffer);
    if n <= |st.buffer| {
      RightChecksum(crc, st.buffer, n);
    }
  }

  function PieceEnd(a: nat, payload: Bytes): nat {
    a + Padding(a) + HEADER_SIZE + |payload|
  }

  /** The file has this piece at a, behind the padding that belongs there. */
  ghost predicate PieceAt(crc: Checksum, file: Bytes, a: nat, kind: Byte, payload: Bytes) {
    && |payload| < 0x1_0000 && PieceEnd(a, payload) <= |file|
    && file[a+Padding(a)..PieceEnd(a, payload)] == PieceBytes(crc, kind, payload)
  }

  lemma BlockDropped(file: Bytes, st: ReadState, b: nat, st': ReadState)
    requires AtBody(file, st, b, 0) && st'.buffer == [] && st'.end == st.end && st'.eof == st.eof
    ensures Ready(file, st', st'.end) && b <= st'.end
  {
    if !st.eof {
      assert st.end == (b / BLOCK_SIZE + 1) * BLOCK_SIZE;
    }
  }

  /** A piece taken from the buffer lies in the file. */
  lemma TakenLies(crc: Checksum, file: Bytes, st: ReadState, b: nat, n: nat)
    requires AtBody(file, st, b, 0) && HEADER_SIZE <= n <= |st.buffer|
    ensures b + n <= |file| && file[b..b+n] == st.buffer[..n]
    ensures forall st': ReadState :: st'.buffer == st.buffer[n..] && st'.end == st.end && st'.eof == st.eof ==> Ready(file, st', b + n)
  {
    assert st.buffer[n..] == file[b+n..st.end];
    assert file[b..b+n] == file[b..st.end][..n];
    ReadyAfter(file, st, b, n);
  }

  /** A fragment that is read lies in the file; after a bad record the reader is further on. */
  ghost predicate Sound(crc: Checksum, file: Bytes, a: nat, r: (ReadState, Physical)) {
    && (r.1.Fragment? ==> PieceAt(crc, file, a, r.1.kind, r.1.payload) && Ready(file, r.0, PieceEnd(a, r.1.payload)))
    && (r.1.BadRecord? ==> exists a' :: a <= a' && Ready(file, r.0, a'))
  }

  lemma BodySound(crc: Checksum, file: Bytes, st: ReadState, a: nat)
    requires AtBody(file, st, a + Padding(a), 0) && |st.buffer| >= HEADER_SIZE
    ensures Sound(crc, file, a, ParsePhysical(crc, st))
  {
    hide ParsePhysical, Padding, Ready, Header, AtBody, PieceBytes;
    var b := a + Padding(a);
    ParsedExactly(crc, st);
    var (st', p) := ParsePhysical(crc, st);
    var n := HEADER_SIZE + (st.buffer[4] as int) + 256 * (st.buffer[5] as int);
    if n <= |st.buffer| {
      TakenLies(crc, file, st, b, n);
    }
    if st'.buffer == [] {
      BlockDropped(file, st, b, st');
    }
  }

  lemma EofSound(crc: Checksum, file: Bytes, a: nat, st: ReadState)
    ensures Sound(crc, file, a, (st, Eof))
  {
  }

  lemma PhysicalSound(crc: Checksum, file: Bytes, st: ReadState, a: nat)
    requires st.end <= |file| && Ready(file, st, a)
    ensures Sound(crc, file, a, ReadPhysical(crc, file, st))
  {
    hide ParsePhysical, ReadPhysical, Padding, Ready, Sound, AtBody, SkipPadding;
    PaddingFits(a);
    PaddingSkipped(file, st, a, 0);
    ReadAfterSkip(crc, file, st);
    if |SkipPadding(file, st).buffer| >= HEADER_SIZE {
      BodySound(crc, file, SkipPadding(file, st), a);
    } else {
      EofSound(crc, file, a, SkipPadding(file, st).(buffer := []));
    }
  }

  // ----- whole records

  /** The pieces lie one after the other from starts[0] on, marked as the first, the middle and,
      when the record is whole, the last piece of a record. */
  ghost predicate Lies(crc: Checksum, file: Bytes, starts: seq<nat>, payloads: seq<Bytes>, whole: bool) {
    && |starts| == |payloads| > 0
    && (forall i :: 0 <= i < |starts| ==> PieceAt(crc, file, starts[i], PieceType(i == 0, whole && i == |starts| - 1), payloads[i]))
    && forall i :: 0 < i < |starts| ==> starts[i] == PieceEnd(starts[i-1], payloads[i-1])
  }

  function Joined(payloads: seq<Bytes>): Bytes {
    if payloads == [] then [] else Joined(payloads[..|payloads|-1]) + payloads[|payloads|-1]
  }

  /** One more piece of the record. */
  lemma LiesOn(crc: Checksum, file: Bytes, starts: seq<nat>, payloads: seq<Bytes>, a: nat, kind: Byte, payload: Bytes, whole: bool)
    requires Lies(crc, file, starts, payloads, false) && a == PieceEnd(starts[|starts|-1], payloads[|payloads|-1])
    requires PieceAt(crc, file, a, kind, payload) && kind == PieceType(false, whole)
    ensures Lies(crc, file, starts + [a], payloads + [payload], whole) && Joined(payloads + [payload]) == Joined(payloads) + payload
  {
    hide PieceAt, PieceEnd;
    assert (payloads + [payload])[..|payloads|] == payloads;
  }

  lemma OnePiece(crc: Checksum, file: Bytes, a: nat, kind: Byte, payload: Bytes, whole: bool)
    requires PieceAt(crc, file, a, kind, payload) && kind == PieceType(true, whole)
    ensures Lies(crc, file, [a], [payload], whole) && Joined([payload]) == payload
  {
    hide PieceAt;
    assert [payload][..0] == [];
  }

  /** The record lies in the file from some position at or after from on, and ends at e. */
  ghost predicate RecordIn(crc: Checksum, file: Bytes, from: nat, data: Bytes, e: nat) {
    exists starts, payloads ::
      && Lies(crc, file, starts, payloads, true) && from <= starts[0]
      && data == Joined(payloads) && e == PieceEnd(starts[|starts|-1], payloads[|payloads|-1])
  }

  /** What has been gathered lies in the file right before a. */
  ghost predicate Gathered(crc: Checksum, file: Bytes, from: nat, scratch: Option<Bytes>, a: nat) {
    && from <= a
    && (scratch.Some? ==> exists starts, payloads ::
          Lies(crc, file, starts, payloads, false) && from <= starts[0] && scratch.value == Joined(payloads)
          && a == PieceEnd(starts[|starts|-1], payloads[|payloads|-1]))
  }

  /** A first or only piece, whatever was gathered before it. */
  lemma BeginsRecord(crc: Checksum, file: Bytes, from: nat, a: nat, kind: Byte, payload: Bytes)
    requires from <= a && PieceAt(crc, file, a, kind, payload)
    ensures kind == FULL_TYPE ==> RecordIn(crc, file, from, payload, PieceEnd(a, payload))
    ensures kind == FIRST_TYPE ==> Gathered(crc, file, from, Some(payload), PieceEnd(a, payload))
  {
    hide PieceAt, Lies, Joined;
    if kind == FULL_TYPE {
      OnePiece(crc, file, a, kind, payload, true);
      assert from <= [a][0];
    } else if kind == FIRST_TYPE {
      OnePiece(crc, file, a, kind, payload, false);
      assert from <= [a][0];
    }
  }

  lemma GoesOn(crc: Checksum, file: Bytes, from: nat, scratch: Bytes, a: nat, kind: Byte, payload: Bytes)
    requires Gathered(crc, file, from, Some(scratch), a) && PieceAt(crc, file, a, kind, payload)
    ensures kind == MIDDLE_TYPE ==> Gathered(crc, file, from, Some(scratch + payload), PieceEnd(a, payload))
    ensures kind == LAST_TYPE ==> RecordIn(crc, file, from, scratch + payload, PieceEnd(a, payload))
  {
    hide PieceAt, Joined;
    var starts, payloads :| Lies(crc, file, starts, payloads, false) && from <= starts[0] && scratch == Joined(payloads)
      && a == PieceEnd(starts[|starts|-1], payloads[|payloads|-1]);
    if kind == MIDDLE_TYPE || kind == LAST_TYPE {
      LiesOn(crc, file, starts, payloads, a, kind, payload, kind == LAST_TYPE);
      assert (starts + [a])[0] == starts[0];
    }
  }

  lemma Counted(file: Bytes, st: ReadState, a: nat, n: nat)
    requires Ready(file, st, a)
    ensures Ready(file, st.(corruptions := n), a)
  {
  }

  lemma NothingGathered(crc: Checksum, file: Bytes, from: nat, a: nat)
    requires from <= a
    ensures Gathered(crc, file, from, None, a)
  {
  }

  /** Only a record that lies in the file is yielded, and the reader goes on where it ends. */
  lemma {:induction false} LogicalSound(crc: Checksum, file: Bytes, st: ReadState, scratch: Option<Bytes>, from: nat, a: nat)
    requires st.end <= |file| && Ready(file, st, a) && from <= a && Gathered(crc, file, from, scratch, a)
    ensures var (st', record) := ReadLogical(crc, file, st, scratch);
      record.Some? ==> exists e :: RecordIn(crc, file, from, record.value, e) && Ready(file, st', e)
    decreases st.Remaining(file)
  {
    hide ReadPhysical, Ready, RecordIn, Gathered, PieceAt, Padding;
    var (st', p) := ReadPhysical(crc, file, st);
    PhysicalSound(crc, file, st, a);
    var broken := st'.(corruptions := st'.corruptions + 1);
    match p
    case Eof =>
    case BadRecord =>
      var a' :| a <= a' && Ready(file, st', a');
      Counted(file, st', a', st'.corruptions + 1);
      NothingGathered(crc, file, from, a');
      LogicalSound(crc, file, if scratch.Some? then broken else st', None, from, a');
    case Fragment(kind, payload) =>
      var e := PieceEnd(a, payload);
      Counted(file, st', e, st'.corruptions + 1);
      BeginsRecord(crc, file, from, a, kind, payload);
      NothingGathered(crc, file, from, e);
      if kind == FIRST_TYPE {
        LogicalSound(crc, file, if scratch.Some? && |scratch.value| > 0 then broken else st', Some(payload), from, e);
      } else if scratch.Some? && (kind == MIDDLE_TYPE || kind == LAST_TYPE) {
        GoesOn(crc, file, from, scratch.value, a, kind, payload);
        if kind == MIDDLE_TYPE {
          LogicalSound(crc, file, st', Some(scratch.value + payload), from, e);
        }
      } else if kind != FULL_TYPE {
        LogicalSound(crc, file, broken, None, from, e);
      }
  }

  /** The records lie in the file one after the other. */
  ghost predicate RecordsIn(crc: Checksum, file: Bytes, from: nat, rs: seq<Bytes>)
    decreases |rs|
  {
    rs == [] || exists e :: RecordIn(crc, file, from, rs[0], e) && RecordsIn(crc, file, e, rs[1..])
  }

  lemma {:induction false} AllSound(crc: Checksum, file: Bytes, st: ReadState, a: nat)
    requires st.end <= |file| && Ready(file, st, a)
    ensures RecordsIn(crc, file, a, ReadAll(crc, file, st).1)
    decreases st.Remaining(file)
  {
    hide ReadLogical, Ready, RecordIn;
    NothingGathered(crc, file, a, a);
    LogicalSound(crc, file, st, None, a, a);
    var (st', record) := ReadLogical(crc, file, st, None);
    if record.Some? {
      var e :| RecordIn(crc, file, a, record.value, e) && Ready(file, st', e);
      AllSound(crc, file, st', e);
      assert ReadAll(crc, file, st).1[1..] == ReadAll(crc, file, st').1;
    }
  }

  /** Whatever the file holds, the records read from it lie in it one after the other, cut into
      pieces as the writer cuts them and each piece with its right checksum. */
  lemma ReadsWhatLies(crc: Checksum, file: Bytes)
    ensures RecordsIn(crc, file, 0, ReadAll(crc, file, ReadState(0, [], false, 0)).1)
  {
    hide RecordsIn, ReadAll;
    AllSound(crc, file, ReadState(0, [], false, 0), 0);
  }
}
