// Fragmenting records into blocks (db/log_writer.cc).

module LogWriter {
  import opened DbFormat
  import opened Coding
  import opened Crc32c
  import opened LogFormat

  lemma OffsetMoves(a: nat, b: nat, n: nat)
    requires a % BLOCK_SIZE == b % BLOCK_SIZE
    ensures (a + n) % BLOCK_SIZE == (b + n) % BLOCK_SIZE
  {
  }

  class Writer {
    const crc: Crc
    var dest: seq<byte>   // the file
    var blockOffset: nat

    ghost predicate Valid()
      reads this
    {
      blockOffset <= BLOCK_SIZE && blockOffset % BLOCK_SIZE == |dest| % BLOCK_SIZE
    }

    // A new file, or an existing one that is appended to.
    constructor (crc: Crc, dest: seq<byte>)
      ensures Valid() && this.dest == dest && this.crc == crc
    {
      this.crc, this.dest, blockOffset := crc, dest, |dest| % BLOCK_SIZE;
    }

    method EmitPhysicalRecord(kind: byte, data: seq<byte>)
      requires Valid() && Lawful(crc) && blockOffset + HEADER_SIZE + |data| <= BLOCK_SIZE
      modifies this
      ensures Valid() && dest == old(dest) + Record(crc, kind, data) && blockOffset == old(blockOffset) + HEADER_SIZE + |data|
    {
      var sum := crc.extend(crc.value([kind]), data);
      var buf := EncodeFixed32(Mask(sum)) + [Low8(|data|), Low8(|data| / 256), kind];
      assert buf == Header(crc, kind, data);
      Reassociate(old(dest), buf, data);
      dest := dest + buf;
      dest := dest + data;
      OffsetMoves(|old(dest)|, blockOffset, HEADER_SIZE + |data|);
      blockOffset := blockOffset + HEADER_SIZE + |data|;
    }

    method SwitchBlock()
      requires Valid()
      modifies this
      ensures Valid() && dest == old(dest) + Padding(|old(dest)|) && |dest| == NextStart(|old(dest)|)
      ensures blockOffset == |dest| % BLOCK_SIZE && blockOffset + HEADER_SIZE <= BLOCK_SIZE
    {
      var leftover := BLOCK_SIZE - blockOffset;
      if leftover < HEADER_SIZE {
        if leftover > 0 {
          // fill the trailer
          dest := dest + [0, 0, 0, 0, 0, 0][..leftover];
        }
        assert dest == old(dest) + Padding(|old(dest)|);
        blockOffset := 0;
      }
    }

    // One turn of the loop in AddRecord.
    method AddFragment(left: seq<byte>, begin: bool) returns (n: nat)
      requires Valid() && Lawful(crc)
      modifies this
      ensures Valid() && n == FragmentLength(NextStart(|old(dest)|), |left|)
      ensures dest == old(dest) + Padding(|old(dest)|) + Record(crc, KindOf(begin, n == |left|), left[..n])
    {
      SwitchBlock();
      var avail := BLOCK_SIZE - blockOffset - HEADER_SIZE;
      n := if |left| < avail then |left| else avail;
      EmitPhysicalRecord(KindOf(begin, n == |left|), left[..n]);
    }

    // Append a record, cut at block ends.  An empty record is one empty fragment.
    method AddRecord(data: seq<byte>)
      requires Valid() && Lawful(crc)
      modifies this
      ensures Valid() && dest == old(dest) + Fragments(crc, |old(dest)|, data, true)
    {
      var left, begin, more := data, true, true;
      ghost var target := dest + Fragments(crc, |dest|, data, true);
      while more
        invariant Valid() && (more ==> dest + Fragments(crc, |dest|, left, begin) == target) && (!more ==> dest == target)
        decreases more, |left|, NoRoom(|dest|)
      {
        ghost var was := dest;
        var n := AddFragment(left, begin);
        TurnDone(crc, was, dest, left, begin, n, target);
        NextBlockHasRoom(|was|, |left|, n, |dest|);
        begin := false;
        more := n < |left|;
        left := left[n..];
      }
    }
  }

  // What one turn of the loop adds.
  lemma FragmentsStep(crc: Crc, dest: seq<byte>, data: seq<byte>, begin: bool)
    ensures var start := NextStart(|dest|);
            var n := FragmentLength(start, |data|);
            var now := dest + Padding(|dest|) + Record(crc, KindOf(begin, n == |data|), data[..n]);
            && |now| == start + HEADER_SIZE + n
            && dest + Fragments(crc, |dest|, data, begin) == (if n == |data| then now else now + Fragments(crc, |now|, data[n..], false))
  {
    var start := NextStart(|dest|);
    var n := FragmentLength(start, |data|);
    var r := Record(crc, KindOf(begin, n == |data|), data[..n]);
    Reassociate(dest, Padding(|dest|), r);
    if n < |data| {
      Reassociate(dest, Padding(|dest|) + r, Fragments(crc, start + HEADER_SIZE + n, data[n..], false));
    }
  }

  // After a turn the rest of the record is still to come, and it comes nearer.
  lemma TurnDone(crc: Crc, was: seq<byte>, dest: seq<byte>, left: seq<byte>, begin: bool, n: nat, target: seq<byte>)
    requires was + Fragments(crc, |was|, left, begin) == target && n == FragmentLength(NextStart(|was|), |left|)
    requires dest == was + Padding(|was|) + Record(crc, KindOf(begin, n == |left|), left[..n])
    ensures if n == |left| then dest == target else dest + Fragments(crc, |dest|, left[n..], false) == target
    ensures |dest| == NextStart(|was|) + HEADER_SIZE + n
  {
    FragmentsStep(crc, was, left, begin);
  }

  lemma EncodeNext(layout: Layout, done: seq<seq<byte>>, record: seq<byte>)
    ensures Encode(layout, 0, done + [record]) == Encode(layout, 0, done) + layout(|Encode(layout, 0, done)|, record)
  {
    EncodeSplit(layout, 0, done, [record]);
    var p := |Encode(layout, 0, done)|;
    assert Encode(layout, p, [record]) == layout(p, record) + Encode(layout, p + |layout(p, record)|, []);
  }

  method AppendRecords(w: Writer, ghost before: seq<seq<byte>>, records: seq<seq<byte>>)
    requires w.Valid() && Lawful(w.crc) && w.dest == LogFile(w.crc, before)
    modifies w
    ensures w.Valid() && w.dest == LogFile(w.crc, before + records)
  {
    ghost var done := before;
    assert before + records[..0] == before;
    for i := 0 to |records|
      invariant w.Valid() && w.dest == LogFile(w.crc, done) && done == before + records[..i]
    {
      EncodeNext(FragmentLayout(w.crc), done, records[i]);
      w.AddRecord(records[i]);
      done := done + [records[i]];
      assert records[..i + 1] == records[..i] + [records[i]];
    }
    assert records[..|records|] == records;
  }

  // Writing records one after the other lays them out as the encoding says,
  // also when the file was closed and reopened in between.
  method WriteAll(crc: Crc, before: seq<seq<byte>>, records: seq<seq<byte>>) returns (file: seq<byte>)
    requires Lawful(crc)
    ensures file == LogFile(crc, before + records)
  {
    var w := new Writer(crc, []);
    AppendRecords(w, [], before);
    assert [] + before == before;
    var reopened := new Writer(crc, w.dest);
    AppendRecords(reopened, before, records);
    file := reopened.dest;
  }
}
