// Reassembling records from blocks (db/log_reader.cc), read from the start of a file.

module LogReader {
  import opened DbFormat
  import opened Coding
  import opened Crc32c
  import opened LogFormat

  // ReadPhysicalRecord: a fragment, a bad record, or the end of the file.
  datatype Physical = Eof | Bad | Fragment(kind: byte, data: seq<byte>)

  // With the position after it and the number of corruptions reported.
  datatype Parsed = Parsed(result: Physical, pos: nat, drops: nat)

  function Min(a: nat, b: nat): nat {
    if a < b then a else b
  }

  // What is left of the block at a position.
  function Window(file: seq<byte>, pos: nat): seq<byte>
    requires pos <= |file|
  {
    file[pos..Min(|file|, BlockEnd(pos))]
  }

  // The next physical record of any file, damaged or not.
  function Parse(crc: Crc, file: seq<byte>, pos: nat): (r: Parsed)
    requires pos <= |file|
    ensures r.pos <= |file| && (!r.result.Eof? ==> r.pos > pos)
  {
    if NextStart(pos) > |file| then Parsed(Eof, |file|, 0)
    else ParseAt(crc, file, NextStart(pos))
  }

  function ParseAt(crc: Crc, file: seq<byte>, start: nat): (r: Parsed)
    requires start <= |file|
    ensures r.pos <= |file| && (!r.result.Eof? ==> r.pos > start)
  {
    var w := Window(file, start);
    ParsedWindow(crc, w, start, start + |w| == BlockEnd(start), |file|)
  }

  // The record at the start of a window onto a block, of which the whole rest may be there.
  function ParsedWindow(crc: Crc, w: seq<byte>, start: nat, whole: bool, size: nat): (r: Parsed)
    ensures r.pos <= start + |w| || r.pos == size
    ensures !r.result.Eof? ==> start < r.pos <= start + |w|
  {
    if |w| < HEADER_SIZE then
      Parsed(Eof, size, 0)              // nothing left, or a header cut off
    else if HEADER_SIZE + Length(w) > |w| then
      if whole then Parsed(Bad, start + |w|, 1)
      else Parsed(Eof, size, 0)         // a payload cut off
    else if w[6] == 0 && Length(w) == 0 then
      Parsed(Bad, start + |w|, 0)       // preallocated space
    else if !ChecksumMatches(crc, w) then
      Parsed(Bad, start + |w|, 1)
    else
      Parsed(Fragment(w[6], w[HEADER_SIZE..HEADER_SIZE + Length(w)]), start + HEADER_SIZE + Length(w), 0)
  }

  // ReadRecord: the next record if there is one.
  datatype ReadResult = ReadResult(record: Option<seq<byte>>, pos: nat, drops: nat)

  // One turn of its loop: return, or go on inside or outside a fragmented record.
  datatype Turn = Return(record: Option<seq<byte>>, drops: nat) | Continue(inRecord: bool, scratch: seq<byte>, drops: nat)

  function Assemble(physical: Physical, inRecord: bool, scratch: seq<byte>): (t: Turn)
    ensures physical.Eof? ==> t == Return(None, 0)
    ensures t.Return? && t.record.Some? ==> !physical.Eof?
  {
    var unfinished := if inRecord && scratch != [] then 1 else 0;
    match physical
    case Eof => Return(None, 0)
    case Bad => Continue(false, [], if inRecord then 1 else 0)
    case Fragment(kind, data) =>
      if kind == FULL then Return(Some(data), unfinished)
      else if kind == FIRST then Continue(true, data, unfinished)
      else if kind == MIDDLE then if inRecord then Continue(true, scratch + data, 0) else Continue(false, scratch, 1)
      else if kind == LAST then if inRecord then Return(Some(scratch + data), 0) else Continue(false, scratch, 1)
      else Continue(false, [], 1)
  }

  function ReadFrom(crc: Crc, file: seq<byte>, pos: nat, inRecord: bool, scratch: seq<byte>): (r: ReadResult)
    requires pos <= |file|
    ensures r.pos <= |file| && (r.record.Some? ==> r.pos > pos)
    decreases |file| - pos
  {
    var p := Parse(crc, file, pos);
    match Assemble(p.result, inRecord, scratch)
    case Return(record, drops) => ReadResult(record, p.pos, p.drops + drops)
    case Continue(in', scratch', drops) => Later(ReadFrom(crc, file, p.pos, in', scratch'), p.drops + drops)
  }

  function Later(r: ReadResult, drops: nat): ReadResult {
    r.(drops := r.drops + drops)
  }

  // All records from a position on.
  function ReadAll(crc: Crc, file: seq<byte>, pos: nat): (r: (seq<seq<byte>>, nat))
    requires pos <= |file|
    decreases |file| - pos
  {
    var r := ReadFrom(crc, file, pos, false, []);
    if r.record.None? then ([], r.drops)
    else
      var rest := ReadAll(crc, file, r.pos);
      ([r.record.value] + rest.0, r.drops + rest.1)
  }

  // ---- The reader's buffer ----------------------------------------------

  // The buffer is the unused end of what was read, and reads end at block ends or at the end of the file.
  ghost predicate BufferOk(file: seq<byte>, filePos: nat, buffer: seq<byte>, eof: bool) {
    && |buffer| <= filePos <= |file| && buffer == file[filePos - |buffer|..filePos]
    && (!eof ==> filePos % BLOCK_SIZE == 0 && (buffer != [] ==> filePos == BlockEnd(filePos - |buffer|)))
    && (eof ==> filePos == |file| && (buffer != [] ==> |file| < BlockEnd(filePos - |buffer|)))
  }

  lemma Consumed(file: seq<byte>, filePos: nat, buffer: seq<byte>, eof: bool, k: nat)
    requires BufferOk(file, filePos, buffer, eof) && k <= |buffer|
    ensures BufferOk(file, filePos, buffer[k..], eof) && BufferOk(file, filePos, [], eof)
  {
  }

  class Reader {
    const crc: Crc
    const file: seq<byte>
    var filePos: nat          // how far the file was read
    var buffer: seq<byte>     // the unused end of the last block read
    var eof: bool
    var corruptions: nat

    ghost function Pos(): int
      reads this
    {
      filePos - |buffer|
    }

    ghost predicate Valid()
      reads this
    {
      BufferOk(file, filePos, buffer, eof)
    }

    constructor (crc: Crc, file: seq<byte>)
      ensures Valid() && Pos() == 0 && corruptions == 0 && this.file == file && this.crc == crc
    {
      this.crc, this.file, filePos, buffer, eof, corruptions := crc, file, 0, [], false, 0;
    }

    // file_->Read(kBlockSize)
    method ReadBlock()
      requires Valid() && !eof && |buffer| < HEADER_SIZE
      modifies this
      ensures Valid() && corruptions == old(corruptions)
      ensures Pos() == old(filePos) && filePos == Min(|file|, old(filePos) + BLOCK_SIZE)
      ensures eof <==> filePos < old(filePos) + BLOCK_SIZE
    {
      var end := Min(|file|, filePos + BLOCK_SIZE);
      buffer := file[filePos..end];
      if end - filePos < BLOCK_SIZE {
        eof := true;
      }
      filePos := end;
    }

    // Make sure a header is in the buffer, or find the end of the file.
    method FillBuffer() returns (more: bool)
      requires Valid()
      modifies this
      ensures Valid() && corruptions == old(corruptions)
      ensures more ==> |buffer| >= HEADER_SIZE && Parse(crc, file, Pos()) == Parse(crc, file, old(Pos()))
      ensures !more ==> Pos() == |file| && Parse(crc, file, old(Pos())) == Parsed(Eof, |file|, 0)
    {
      ghost var target := Parse(crc, file, Pos());
      while |buffer| < HEADER_SIZE
        invariant Valid() && Parse(crc, file, Pos()) == target && corruptions == old(corruptions)
        decreases !eof, |file| - filePos
      {
        ShortBuffer(crc, file, filePos, buffer, eof);
        if eof {
          // a truncated header at the end of the file
          buffer := [];
          return false;
        }
        // a full read before, so this is a trailer to skip
        ReadBlock();
      }
      more := true;
    }

    // The record at the start of the buffer.
    method ParseBuffer() returns (r: Physical)
      requires Valid() && |buffer| >= HEADER_SIZE
      modifies this
      ensures Valid() && r == ParseAt(crc, file, old(Pos())).result && Pos() == ParseAt(crc, file, old(Pos())).pos
      ensures corruptions == old(corruptions) + ParseAt(crc, file, old(Pos())).drops
    {
      WindowIs(Pos());
      ghost var want := ParseAt(crc, file, Pos());
      var length := Length(buffer);
      Consumed(file, filePos, buffer, eof, if HEADER_SIZE + length > |buffer| then 0 else HEADER_SIZE + length);
      assert want == ParsedWindow(crc, buffer, Pos(), Pos() + |buffer| == BlockEnd(Pos()), |file|);
      if HEADER_SIZE + length > |buffer| {
        buffer := [];
        if !eof {
          corruptions := corruptions + 1;
          return Bad;
        }
        return Eof;
      }
      if buffer[6] == 0 && length == 0 {
        buffer := [];
        return Bad;
      }
      if Unmask(DecodeFixed32(buffer)) != crc.value(buffer[6..HEADER_SIZE + length]) {
        buffer := [];
        corruptions := corruptions + 1;
        return Bad;
      }
      r := Fragment(buffer[6], buffer[HEADER_SIZE..HEADER_SIZE + length]);
      buffer := buffer[HEADER_SIZE + length..];
    }

    method ReadPhysicalRecord() returns (r: Physical)
      requires Valid()
      modifies this
      ensures Valid() && r == Parse(crc, file, old(Pos())).result && Pos() == Parse(crc, file, old(Pos())).pos
      ensures corruptions == old(corruptions) + Parse(crc, file, old(Pos())).drops
    {
      var more := FillBuffer();
      if !more {
        return Eof;
      }
      WindowIs(Pos());
      r := ParseBuffer();
    }

    // Put fragments together until a record is complete.
    method ReadRecord() returns (record: Option<seq<byte>>)
      requires Valid()
      modifies this
      ensures Valid() && record == ReadFrom(crc, file, old(Pos()), false, []).record
      ensures Pos() == ReadFrom(crc, file, old(Pos()), false, []).pos
      ensures corruptions == old(corruptions) + ReadFrom(crc, file, old(Pos()), false, []).drops
    {
      var scratch, inRecord := [], false;
      ghost var start, target := corruptions, ReadFrom(crc, file, Pos(), false, []);
      while true
        invariant Valid() && corruptions >= start
        invariant Later(ReadFrom(crc, file, Pos(), inRecord, scratch), corruptions - start) == target
        decreases |file| - Pos()
      {
        ghost var pos, drops := Pos(), corruptions;
        var physical := ReadPhysicalRecord();
        var turn := SwitchOnType(physical, inRecord, scratch);
        TurnIs(crc, file, pos, inRecord, scratch, turn);
        assert corruptions == drops + Parse(crc, file, pos).drops + turn.drops;
        match turn {
          case Return(r, _) =>
            return r;
          case Continue(in', scratch', _) =>
            inRecord, scratch := in', scratch';
        }
      }
    }

    // The switch in ReadRecord.
    method SwitchOnType(physical: Physical, inRecord: bool, scratch: seq<byte>) returns (turn: Turn)
      modifies this`corruptions
      ensures turn == Assemble(physical, inRecord, scratch) && corruptions == old(corruptions) + turn.drops
    {
      var start := corruptions;
      match physical {
        case Eof =>
          turn := Return(None, 0);
        case Bad =>
          if inRecord {
            corruptions := corruptions + 1;
          }
          turn := Continue(false, [], corruptions - start);
        case Fragment(kind, data) =>
          if kind == FULL {
            if inRecord && scratch != [] {
              corruptions := corruptions + 1;
            }
            turn := Return(Some(data), corruptions - start);
          } else if kind == FIRST {
            if inRecord && scratch != [] {
              corruptions := corruptions + 1;
            }
            turn := Continue(true, data, corruptions - start);
          } else if kind == MIDDLE {
            if !inRecord {
              corruptions := corruptions + 1;
            }
            turn := Continue(inRecord, if inRecord then scratch + data else scratch, corruptions - start);
          } else if kind == LAST {
            if !inRecord {
              corruptions := corruptions + 1;
              turn := Continue(false, scratch, 1);
            } else {
              turn := Return(Some(scratch + data), 0);
            }
          } else {
            corruptions := corruptions + 1;
            turn := Continue(false, [], 1);
          }
      }
    }

    lemma WindowIs(pos: nat)
      requires Valid() && pos == Pos() && |buffer| >= HEADER_SIZE
      ensures pos <= |file| && NextStart(pos) == pos && Window(file, pos) == buffer
      ensures eof <==> pos + |buffer| < BlockEnd(pos)
    {
    }
  }

  lemma ShortWindow(crc: Crc, file: seq<byte>, pos: nat)
    requires pos <= |file| && |file| - pos < HEADER_SIZE && (pos < |file| ==> |file| < BlockEnd(pos))
    ensures Parse(crc, file, pos) == Parsed(Eof, |file|, 0)
  {
  }

  lemma TrailerSkipped(crc: Crc, file: seq<byte>, pos: nat, end: nat)
    requires pos <= end <= |file| && end % BLOCK_SIZE == 0 && end - pos < HEADER_SIZE && (pos < end ==> end == BlockEnd(pos))
    ensures Parse(crc, file, end) == Parse(crc, file, pos)
  {
  }

  // Less than a header left in the buffer: the end of the file, or a trailer to skip.
  lemma ShortBuffer(crc: Crc, file: seq<byte>, filePos: nat, buffer: seq<byte>, eof: bool)
    requires BufferOk(file, filePos, buffer, eof) && |buffer| < HEADER_SIZE
    ensures eof ==> filePos == |file| && Parse(crc, file, filePos - |buffer|) == Parsed(Eof, |file|, 0)
    ensures !eof ==> Parse(crc, file, filePos) == Parse(crc, file, filePos - |buffer|)
  {
    if eof {
      ShortWindow(crc, file, filePos - |buffer|);
    } else {
      TrailerSkipped(crc, file, filePos - |buffer|, filePos);
    }
  }

  // One turn of the loop in ReadRecord.
  lemma TurnIs(crc: Crc, file: seq<byte>, pos: nat, inRecord: bool, scratch: seq<byte>, turn: Turn)
    requires pos <= |file| && turn == Assemble(Parse(crc, file, pos).result, inRecord, scratch)
    ensures var p := Parse(crc, file, pos);
            match turn
            case Return(record, drops) => ReadFrom(crc, file, pos, inRecord, scratch) == ReadResult(record, p.pos, p.drops + drops)
            case Continue(in', scratch', drops) =>
              p.pos > pos && ReadFrom(crc, file, pos, inRecord, scratch) == Later(ReadFrom(crc, file, p.pos, in', scratch'), p.drops + drops)
  {
  }

  // The loop of RecoverLogFile: read until there is no record.
  method ReadLog(crc: Crc, file: seq<byte>) returns (records: seq<seq<byte>>, corruptions: nat)
    ensures (records, corruptions) == ReadAll(crc, file, 0)
  {
    var reader := new Reader(crc, file);
    ghost var target := ReadAll(crc, file, 0);
    records := [];
    var more := true;
    while more
      invariant reader.Valid() && fresh(reader) && reader.crc == crc && reader.file == file
      invariant more ==> records + ReadAll(crc, file, reader.Pos()).0 == target.0
      invariant more ==> reader.corruptions + ReadAll(crc, file, reader.Pos()).1 == target.1
      invariant !more ==> records == target.0 && reader.corruptions == target.1
      decreases more, |file| - reader.Pos()
    {
      var record := reader.ReadRecord();
      if record.Some? {
        Reassociate(records, [record.value], ReadAll(crc, file, reader.Pos()).0);
        records := records + [record.value];
      } else {
        more := false;
      }
    }
    corruptions := reader.corruptions;
  }
}
