/** The write-ahead log: records are cut into pieces that never cross a block boundary, and
    the reader puts them together again, also when the file was cut off by a crash. */
module Log {
  import opened Keys
  import opened Coding

  const BLOCK_SIZE: nat := 32768
  const HEADER_SIZE: nat := 7
  const ZERO_TYPE: nat := 0
  const FULL_TYPE: nat := 1
  const FIRST_TYPE: nat := 2
  const MIDDLE_TYPE: nat := 3
  const LAST_TYPE: nat := 4

  // ----- the format

  function Header(crc: Checksum, kind: Byte, payload: Bytes): (h: Bytes)
    requires |payload| < 0x1_0000
    ensures |h| == HEADER_SIZE
  {
    Fixed32(Mask(crc([kind] + payload))) + [|payload| % 256, |payload| / 256, kind]
  }

  /** Bytes left unused at the end of the block when a header no longer fits. */
  function Padding(pos: nat): nat {
    var leftover := BLOCK_SIZE - pos % BLOCK_SIZE;
    if leftover < HEADER_SIZE then leftover else 0
  }

  /** After the padding there is room for a header. */
  lemma PaddingFits(pos: nat)
    ensures (pos + Padding(pos)) % BLOCK_SIZE + HEADER_SIZE <= BLOCK_SIZE
    ensures Padding(pos) > 0 ==> (pos + Padding(pos)) % BLOCK_SIZE == 0
  {
  }

  /** How much of left more bytes goes into the piece starting at file position pos. */
  function FragmentLength(pos: nat, left: nat): (n: nat)
    ensures n <= left && n <= BLOCK_SIZE - HEADER_SIZE
  {
    PaddingFits(pos);
    var avail := BLOCK_SIZE - (pos + Padding(pos)) % BLOCK_SIZE - HEADER_SIZE;
    if left < avail then left else avail
  }

  /** A piece without payload ends the block, so the next one has room. */
  lemma MoreRoom(pos: nat, left: nat)
    requires FragmentLength(pos, left) == 0 < left
    ensures FragmentLength(pos + Padding(pos) + HEADER_SIZE, left) > 0
  {
    var next := pos + Padding(pos) + HEADER_SIZE;
    PaddingFits(pos);
    assert next % BLOCK_SIZE == 0;
    assert Padding(next) == 0;
  }

  function PieceType(begin: bool, end: bool): Byte {
    if begin && end then FULL_TYPE else if begin then FIRST_TYPE else if end then LAST_TYPE else MIDDLE_TYPE
  }

  /** One physical record, with the padding before it. */
  function Piece(crc: Checksum, pos: nat, kind: Byte, payload: Bytes): (b: Bytes)
    requires |payload| < 0x1_0000
    ensures |b| == Padding(pos) + HEADER_SIZE + |payload|
  {
    Zeros(Padding(pos)) + Header(crc, kind, payload) + payload
  }

  /** The piece that starts at pos when data is still to be written. */
  function FirstPiece(crc: Checksum, pos: nat, data: Bytes, begin: bool): (b: Bytes)
    ensures |b| == Padding(pos) + HEADER_SIZE + FragmentLength(pos, |data|)
  {
    var n := FragmentLength(pos, |data|);
    Piece(crc, pos, PieceType(begin, n == |data|), data[..n])
  }

  /** A logical record, or what is left of it, written at file position pos. */
  function Record(crc: Checksum, pos: nat, data: Bytes, begin: bool): (b: Bytes)
    ensures |b| >= HEADER_SIZE
    decreases |data|, if FragmentLength(pos, |data|) == 0 then 1 else 0
  {
    var n := FragmentLength(pos, |data|);
    var piece := FirstPiece(crc, pos, data, begin);
    if n == |data| then
      piece
    else
      assert n == 0 ==> FragmentLength(pos + |piece|, |data|) > 0 by { if n == 0 { MoreRoom(pos, |data|); } }
      piece + Record(crc, pos + |piece|, data[n..], false)
  }

  function Records(crc: Checksum, pos: nat, rs: seq<Bytes>): Bytes
    decreases |rs|
  {
    if rs == [] then []
    else
      var first := Record(crc, pos, rs[0], true);
      first + Records(crc, pos + |first|, rs[1..])
  }

  lemma Associative(a: Bytes, b: Bytes, c: Bytes)
    ensures a + (b + c) == a + b + c
  {
  }

  /** A record that does not fit in one piece is that piece followed by the rest. */
  lemma RecordSplits(crc: Checksum, dest: Bytes, left: Bytes, begin: bool)
    requires FragmentLength(|dest|, |left|) < |left|
    ensures var piece := FirstPiece(crc, |dest|, left, begin);
      dest + Record(crc, |dest|, left, begin)
        == dest + piece + Record(crc, |dest + piece|, left[FragmentLength(|dest|, |left|)..], false)
  {
    var piece := FirstPiece(crc, |dest|, left, begin);
    assert |dest + piece| == |dest| + |piece|;
    Associative(dest, piece, Record(crc, |dest| + |piece|, left[FragmentLength(|dest|, |left|)..], false));
  }

  ghost function Unwritten(crc: Checksum, dest: Bytes, left: Bytes, begin: bool, more: bool): Bytes {
    if more then Record(crc, |dest|, left, begin) else []
  }

  /** Writing the first piece leaves the rest of the record, and that is progress. */
  lemma RecordStep(crc: Checksum, dest: Bytes, left: Bytes, begin: bool, dest': Bytes)
    requires dest' == dest + FirstPiece(crc, |dest|, left, begin)
    ensures dest + Record(crc, |dest|, left, begin) == dest' + Unwritten(crc, dest', left[FragmentLength(|dest|, |left|)..], false, FragmentLength(|dest|, |left|) < |left|)
    ensures FragmentLength(|dest|, |left|) == 0 < |left| ==> FragmentLength(|dest'|, |left|) > 0
  {
    if FragmentLength(|dest|, |left|) < |left| {
      RecordSplits(crc, dest, left, begin);
      if FragmentLength(|dest|, |left|) == 0 { MoreRoom(|dest|, |left|); }
    } else {
      assert dest' + [] == dest';
    }
  }

  /** The layout of a piece: padding only where fewer than seven bytes are left of a block of 32768,
      then the masked checksum of type and payload, the length, the type and the payload, all in one
      block. The piece ends the record or the block. */
  lemma PieceLayout(crc: Checksum, pos: nat, data: Bytes, begin: bool)
    ensures var b, n := FirstPiece(crc, pos, data, begin), FragmentLength(pos, |data|);
      var h := |b| - 7 - n; var end := n == |data|;
      && h == (if 32768 - pos % 32768 < 7 then 32768 - pos % 32768 else 0) && (forall i :: 0 <= i < h ==> b[i] == 0)
      && (pos + h) / 32768 == (pos + |b| - 1) / 32768 && (!end ==> (pos + |b|) % 32768 == 0)
      && b[h..h+4] == Fixed32(Mask(crc(b[h+6..]))) && (b[h+4] as int) + 256 * (b[h+5] as int) == n
      && b[h+6] == (if begin then if end then 1 else 2 else if end then 4 else 3) && b[h+7..] == data[..n]
  {
    hide Mask, Fixed32;
    PaddingFits(pos);
    var n := FragmentLength(pos, |data|);
    var kind := PieceType(begin, n == |data|);
    var b, h, header := FirstPiece(crc, pos, data, begin), Padding(pos), Header(crc, kind, data[..n]);
    assert b == Zeros(h) + header + data[..n];
    assert b[h+6..] == [kind] + data[..n];
    assert b[h..h+4] == header[..4];
    assert b[h+4] == header[4] && b[h+5] == header[5] && b[h+6] == header[6];
  }

  // ----- the writer

  class Writer {
    const crc: Checksum
    var dest: Bytes
    var blockOffset: nat

    ghost predicate Valid()
      reads this
    {
      blockOffset <= BLOCK_SIZE && blockOffset % BLOCK_SIZE == |dest| % BLOCK_SIZE
    }

    /** Continues a file that already has contents. */
    constructor (crc: Checksum, dest: Bytes)
      ensures Valid() && this.crc == crc && this.dest == dest
    {
      this.crc, this.dest := crc, dest;
      blockOffset := |dest| % BLOCK_SIZE;
    }

    method PadBlock()
      requires Valid()
      modifies this
      ensures Valid() && dest == old(dest) + Zeros(Padding(|old(dest)|))
      ensures blockOffset == |dest| % BLOCK_SIZE && blockOffset + HEADER_SIZE <= BLOCK_SIZE
    {
      var leftover := BLOCK_SIZE - blockOffset;
      if leftover < HEADER_SIZE {
        if leftover > 0 {
          dest := dest + Zeros(leftover);
        }
        blockOffset := 0;
      }
    }

    method EmitPhysicalRecord(kind: Byte, payload: Bytes)
      requires Valid() && blockOffset + HEADER_SIZE + |payload| <= BLOCK_SIZE
      modifies this
      ensures Valid() && dest == old(dest) + Header(crc, kind, payload) + payload
    {
      dest := dest + Header(crc, kind, payload) + payload;
      blockOffset := blockOffset + HEADER_SIZE + |payload|;
    }

    /** Fills up the block if no header fits, then emits as much of left as fits. */
    method AddFragment(left: Bytes, begin: bool) returns (fragmentLength: nat)
      requires Valid()
      modifies this
      ensures Valid() && fragmentLength == FragmentLength(|old(dest)|, |left|)
      ensures dest == old(dest) + FirstPiece(crc, |old(dest)|, left, begin)
    {
      PadBlock();
      var avail := BLOCK_SIZE - blockOffset - HEADER_SIZE;
      fragmentLength := if |left| < avail then |left| else avail;
      var end := |left| == fragmentLength;
      EmitPhysicalRecord(PieceType(begin, end), left[..fragmentLength]);
    }

    /** Cuts the record at block boundaries; an empty record still makes one piece. */
    method AddRecord(data: Bytes)
      requires Valid()
      modifies this
      ensures Valid() && dest == old(dest) + Record(crc, |old(dest)|, data, true)
    {
      var left, begin, more := data, true, true;
      ghost var whole := dest + Record(crc, |dest|, data, true);
      while more
        invariant Valid()
        invariant whole == dest + Unwritten(crc, dest, left, begin, more)
        decreases more, |left|, if FragmentLength(|dest|, |left|) == 0 then 1 else 0
      {
        ghost var was := dest;
        var fragmentLength := AddFragment(left, begin);
        RecordStep(crc, was, left, begin, dest);
        more := fragmentLength < |left|;
        left := left[fragmentLength..];
        begin := false;
      }
    }
  }

  // ----- the reader

  /** What the reader reads the file into: the end of what it has read, the unparsed rest of
      the last block, and whether the file ended there. corruptions counts the reports. */
  datatype ReadState = ReadState(end: nat, buffer: Bytes, eof: bool, corruptions: nat) {
    ghost function Remaining(file: Bytes): int {
      |file| - end + |buffer|
    }
  }

  datatype Physical = Fragment(kind: Byte, payload: Bytes) | BadRecord | Eof

  /** The reader's own codes for the end and for a bad record. They share the range of the type
      byte, so a stored type can be mistaken for them. */
  const EOF_CODE: Byte := LAST_TYPE + 1

  const BAD_RECORD_CODE: Byte := LAST_TYPE + 2

  function Returned(kind: Byte, payload: Bytes): Physical {
    if kind == EOF_CODE then Eof else if kind == BAD_RECORD_CODE then BadRecord else Fragment(kind, payload)
  }

  function NextBlock(file: Bytes, end: nat): (b: Bytes)
    requires end <= |file|
    ensures |b| <= BLOCK_SIZE && end + |b| <= |file|
    ensures |b| < BLOCK_SIZE ==> end + |b| == |file|
  {
    if |file| - end < BLOCK_SIZE then file[end..] else file[end..end+BLOCK_SIZE]
  }

  function PayloadLength(buffer: Bytes): nat
    requires |buffer| >= HEADER_SIZE
  {
    (buffer[4] as int) + (buffer[5] as int) * 256
  }

  /** Parses the physical record at the front of a buffer that holds at least a header. */
  function ParsePhysical(crc: Checksum, st: ReadState): (ReadState, Physical)
    requires |st.buffer| >= HEADER_SIZE
  {
    var length := PayloadLength(st.buffer);
    var kind := st.buffer[6];
    if HEADER_SIZE + length > |st.buffer| then
      if st.eof then (st.(buffer := []), Eof)
      else (st.(buffer := [], corruptions := st.corruptions + 1), BadRecord)
    else if kind == ZERO_TYPE && length == 0 then
      (st.(buffer := []), BadRecord)
    else if crc(st.buffer[6..HEADER_SIZE+length]) != Unmask(DecodeFixed32(st.buffer)) then
      (st.(buffer := [], corruptions := st.corruptions + 1), BadRecord)
    else
      (st.(buffer := st.buffer[HEADER_SIZE+length..]), Returned(kind, st.buffer[HEADER_SIZE..HEADER_SIZE+length]))
  }

  function ReadPhysical(crc: Checksum, file: Bytes, st: ReadState): (r: (ReadState, Physical))
    requires st.end <= |file|
    ensures r.0.end <= |file|
    ensures r.1 != Eof ==> r.0.Remaining(file) < st.Remaining(file)
    ensures r.1 == Eof ==> r.0.Remaining(file) <= st.Remaining(file)
    ensures r.0.corruptions >= st.corruptions
    decreases |file| - st.end, if st.eof then 0 else 1
  {
    if |st.buffer| >= HEADER_SIZE then ParsePhysical(crc, st)
    else if st.eof then (st.(buffer := []), Eof)
    else
      var block := NextBlock(file, st.end);
      ReadPhysical(crc, file, ReadState(st.end + |block|, block, |block| < BLOCK_SIZE, st.corruptions))
  }

  lemma ReadPhysicalStep(crc: Checksum, file: Bytes, st: ReadState)
    requires st.end <= |file| && |st.buffer| < HEADER_SIZE && !st.eof
    ensures var block := NextBlock(file, st.end);
      ReadPhysical(crc, file, st) == ReadPhysical(crc, file, ReadState(st.end + |block|, block, |block| < BLOCK_SIZE, st.corruptions))
  {
  }

  /** Reassembles one logical record. scratch is what has been gathered, if a record has begun. */
  function ReadLogical(crc: Checksum, file: Bytes, st: ReadState, scratch: Option<Bytes>): (r: (ReadState, Option<Bytes>))
    requires st.end <= |file|
    ensures r.0.end <= |file|
    ensures r.1.Some? ==> r.0.Remaining(file) < st.Remaining(file)
    ensures r.0.corruptions >= st.corruptions
    decreases st.Remaining(file)
  {
    var (st', p) := ReadPhysical(crc, file, st);
    var gathered := if scratch.Some? then |scratch.value| else 0;
    var broken := st'.(corruptions := st'.corruptions + 1);
    match p
    case Eof => (st', None)
    case BadRecord => ReadLogical(crc, file, if scratch.Some? then broken else st', None)
    case Fragment(kind, payload) =>
      if kind == FULL_TYPE then
        (if gathered > 0 then broken else st', Some(payload))
      else if kind == FIRST_TYPE then
        ReadLogical(crc, file, if gathered > 0 then broken else st', Some(payload))
      else if kind == MIDDLE_TYPE then
        if scratch.None? then ReadLogical(crc, file, broken, None)
        else ReadLogical(crc, file, st', Some(scratch.value + payload))
      else if kind == LAST_TYPE then
        if scratch.None? then ReadLogical(crc, file, broken, None)
        else (st', Some(scratch.value + payload))
      else
        ReadLogical(crc, file, broken, None)
  }

  /** Reads records until there is none. */
  function ReadAll(crc: Checksum, file: Bytes, st: ReadState): (r: (ReadState, seq<Bytes>))
    requires st.end <= |file|
    ensures r.0.end <= |file| && r.0.corruptions >= st.corruptions
    decreases st.Remaining(file)
  {
    var (st', record) := ReadLogical(crc, file, st, None);
    match record
    case None => (st', [])
    case Some(data) => var (last, rest) := ReadAll(crc, file, st'); (last, [data] + rest)
  }

  class Reader {
    const crc: Checksum
    const file: Bytes
    var endOfBuffer: nat
    var buffer: Bytes
    var eof: bool
    var corruptions: nat

    ghost predicate Valid()
      reads this
    {
      endOfBuffer <= |file|
    }

    function State(): ReadState
      reads this
    {
      ReadState(endOfBuffer, buffer, eof, corruptions)
    }

    constructor (crc: Checksum, file: Bytes)
      ensures Valid() && State() == ReadState(0, [], false, 0) && this.file == file && this.crc == crc
    {
      this.crc, this.file := crc, file;
      endOfBuffer, buffer, eof, corruptions := 0, [], false, 0;
    }

    /** Reads on until the buffer holds a header or the file has ended. */
    method FillBuffer()
      requires Valid()
      modifies this
      ensures Valid() && ReadPhysical(crc, file, State()) == ReadPhysical(crc, file, old(State()))
      ensures |buffer| >= HEADER_SIZE || eof
    {
      hide ParsePhysical;
      ghost var result := ReadPhysical(crc, file, State());
      while |buffer| < HEADER_SIZE && !eof
        invariant Valid() && ReadPhysical(crc, file, State()) == result
        decreases |file| - endOfBuffer, if eof then 0 else 1
      {
        ReadPhysicalStep(crc, file, State());
        buffer := NextBlock(file, endOfBuffer);
        endOfBuffer := endOfBuffer + |buffer|;
        if |buffer| < BLOCK_SIZE {
          eof := true;
        }
      }
    }

    method ParseRecord() returns (p: Physical)
      requires Valid() && |buffer| >= HEADER_SIZE
      modifies this
      ensures Valid() && (State(), p) == ParsePhysical(crc, old(State()))
    {
      var kind, length := buffer[6], PayloadLength(buffer);
      if HEADER_SIZE + length > |buffer| {
        buffer := [];
        if !eof {
          corruptions := corruptions + 1;
          return BadRecord;
        }
        return Eof;
      }
      if kind == ZERO_TYPE && length == 0 {
        buffer := [];
        return BadRecord;
      }
      var expected := Unmask(DecodeFixed32(buffer));
      if crc(buffer[6..HEADER_SIZE+length]) != expected {
        buffer := [];
        corruptions := corruptions + 1;
        return BadRecord;
      }
      p := Returned(kind, buffer[HEADER_SIZE..HEADER_SIZE+length]);
      buffer := buffer[HEADER_SIZE+length..];
    }

    method ReadPhysicalRecord() returns (p: Physical)
      requires Valid()
      modifies this
      ensures Valid() && (State(), p) == ReadPhysical(crc, file, old(State()))
    {
      FillBuffer();
      if |buffer| < HEADER_SIZE {
        buffer := [];
        return Eof;
      }
      p := ParseRecord();
    }

    method ReadRecord() returns (record: Option<Bytes>)
      requires Valid()
      modifies this
      ensures Valid() && (State(), record) == ReadLogical(crc, file, old(State()), None)
      ensures record.Some? ==> State().Remaining(file) < old(State().Remaining(file))
    {
      hide ReadPhysical, ParsePhysical;
      var scratch: Bytes := [];
      var inFragmentedRecord := false;
      ghost var result := ReadLogical(crc, file, State(), None);
      while true
        invariant Valid()
        invariant ReadLogical(crc, file, State(), if inFragmentedRecord then Some(scratch) else None) == result
        invariant !inFragmentedRecord ==> scratch == []
        decreases State().Remaining(file)
      {
        var p := ReadPhysicalRecord();
        match p
        case Eof => return None;
        case BadRecord =>
          if inFragmentedRecord {
            corruptions := corruptions + 1;
            inFragmentedRecord, scratch := false, [];
          }
        case Fragment(kind, payload) =>
          if kind == FULL_TYPE {
            if inFragmentedRecord && scratch != [] {
              corruptions := corruptions + 1;
            }
            return Some(payload);
          } else if kind == FIRST_TYPE {
            if inFragmentedRecord && scratch != [] {
              corruptions := corruptions + 1;
            }
            scratch, inFragmentedRecord := payload, true;
          } else if kind == MIDDLE_TYPE {
            if !inFragmentedRecord {
              corruptions := corruptions + 1;
            } else {
              scratch := scratch + payload;
            }
          } else if kind == LAST_TYPE {
            if !inFragmentedRecord {
              corruptions := corruptions + 1;
            } else {
              return Some(scratch + payload);
            }
          } else {
            corruptions := corruptions + 1;
            inFragmentedRecord, scratch := false, [];
          }
      }
    }
  }
}
