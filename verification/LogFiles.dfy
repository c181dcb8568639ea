// Log files with any bytes: what cutting off and appending leave of what they hold
// (db/log_reader.cc, db/log_writer.cc; db/db_impl.cc, RecoverLogFile).

module LogFiles {
  import opened DbFormat
  import opened Coding
  import opened Crc32c
  import opened LogFormat
  import opened LogReader
  import opened LogRoundTrip
  import opened LogReopen

  // ---- Cutting off ------------------------------------------------------

  // A shorter file shows the same physical record, or its own end.
  lemma ParseCut(crc: Crc, file: seq<byte>, n: nat, pos: nat)
    requires pos <= n <= |file| && Parse(crc, file, pos).drops == 0
    ensures var a, b := Parse(crc, file, pos), Parse(crc, file[..n], pos);
            if !a.result.Eof? && a.pos <= n then b == a
            else b.drops == 0 && (b.result == Eof || (a.result == Bad && b == Parsed(Bad, n, 0)))
  {
    if NextStart(pos) <= n {
      CutWindow(crc, file, n, NextStart(pos));
    }
  }

  lemma CutWindow(crc: Crc, file: seq<byte>, n: nat, start: nat)
    requires start <= n <= |file|
    ensures var v, w := Window(file, start), Window(file[..n], start);
            && |w| <= |v| && w == v[..|w|] && SameHeader(crc, v, w)
            && start + |w| == Min(n, BlockEnd(start)) && start + |v| == Min(|file|, BlockEnd(start))
  {
    var end := BlockEnd(start);
    assert start < end;
    SliceCut(file, n, start, Min(n, end), Min(|file|, end));
    HeaderCut(crc, Window(file, start), Window(file[..n], start));
  }

  lemma SliceCut(file: seq<byte>, n: nat, a: nat, b: nat, c: nat)
    requires a <= b <= n <= |file| && b <= c <= |file|
    ensures file[..n][a..b] == file[a..c][..b - a]
  {
  }

  ghost predicate SameHeader(crc: Crc, v: seq<byte>, w: seq<byte>)
    requires |w| <= |v|
  {
    && (|w| >= HEADER_SIZE ==> Length(w) == Length(v) && w[6] == v[6])
    && (|w| >= HEADER_SIZE && HEADER_SIZE + Length(w) <= |w| ==>
          (ChecksumMatches(crc, w) <==> ChecksumMatches(crc, v)) && w[HEADER_SIZE..HEADER_SIZE + Length(w)] == v[HEADER_SIZE..HEADER_SIZE + Length(w)])
  }

  lemma HeaderCut(crc: Crc, v: seq<byte>, w: seq<byte>)
    requires |w| <= |v| && w == v[..|w|]
    ensures SameHeader(crc, v, w)
  {
    if |w| >= HEADER_SIZE {
      assert forall i :: 0 <= i < HEADER_SIZE ==> w[i] == v[i];
      if HEADER_SIZE + Length(w) <= |w| {
        assert w[6..HEADER_SIZE + Length(w)] == v[6..HEADER_SIZE + Length(w)];
        assert w[HEADER_SIZE..HEADER_SIZE + Length(w)] == v[HEADER_SIZE..HEADER_SIZE + Length(w)];
        assert DecodeFixed32(w) == DecodeFixed32(v);
      }
    }
  }

  // Nothing is read at the end of a file.
  lemma NothingLeft(crc: Crc, file: seq<byte>, inRecord: bool, scratch: seq<byte>)
    ensures var r := ReadFrom(crc, file, |file|, inRecord, scratch); r.record == None && r.drops == 0
  {
  }

  lemma {:induction false} ReadCut(crc: Crc, file: seq<byte>, n: nat, pos: nat, inRecord: bool, scratch: seq<byte>)
    requires pos <= n <= |file| && ReadFrom(crc, file, pos, inRecord, scratch).drops == 0
    ensures var r, s := ReadFrom(crc, file, pos, inRecord, scratch), ReadFrom(crc, file[..n], pos, inRecord, scratch);
            if r.record.Some? && r.pos <= n then s == r else s.record == None && s.drops == 0
    decreases |file| - pos
  {
    var a, b := Parse(crc, file, pos), Parse(crc, file[..n], pos);
    ParseCut(crc, file, n, pos);
    if !a.result.Eof? && a.pos <= n {
      var turn := Assemble(a.result, inRecord, scratch);
      if turn.Continue? {
        ReadCut(crc, file, n, a.pos, turn.inRecord, turn.scratch);
      }
    } else if b.result == Bad {
      NothingLeft(crc, file[..n], false, []);
    }
  }

  // From a position on the file holds these records and nothing to report, folded away.
  ghost predicate HoldsFrom(crc: Crc, file: seq<byte>, pos: nat, records: seq<seq<byte>>)
    requires pos <= |file|
  {
    forall x {:trigger Look(x)} :: Look(x) && x == file ==> ReadAll(crc, x, pos) == (records, 0)
  }

  lemma HoldsIs(crc: Crc, file: seq<byte>, pos: nat, records: seq<seq<byte>>)
    requires pos <= |file|
    ensures HoldsFrom(crc, file, pos, records) <==> ReadAll(crc, file, pos) == (records, 0)
  {
    assert Look(file);
  }

  lemma HoldsNone(crc: Crc, file: seq<byte>, pos: nat)
    requires pos <= |file| && var r := ReadFrom(crc, file, pos, false, []); r.record == None && r.drops == 0
    ensures HoldsFrom(crc, file, pos, [])
  {
  }

  lemma HoldsOne(crc: Crc, file: seq<byte>, pos: nat, r: seq<byte>, next: nat, records: seq<seq<byte>>)
    requires pos <= |file| && next <= |file| && ReadFrom(crc, file, pos, false, []) == ReadResult(Some(r), next, 0)
    requires HoldsFrom(crc, file, next, records)
    ensures HoldsFrom(crc, file, pos, [r] + records)
  {
    HoldsIs(crc, file, next, records);
    HoldsIs(crc, file, pos, [r] + records);
  }

  // The first of them.
  lemma HoldsParts(crc: Crc, file: seq<byte>, pos: nat, records: seq<seq<byte>>) returns (r: ReadResult)
    requires pos <= |file| && HoldsFrom(crc, file, pos, records)
    ensures r == ReadFrom(crc, file, pos, false, []) && r.drops == 0 && r.pos <= |file|
    ensures if records == [] then r.record == None
            else r.record == Some(records[0]) && r.pos > pos && HoldsFrom(crc, file, r.pos, records[1..])
  {
    HoldsIs(crc, file, pos, records);
    r := ReadFrom(crc, file, pos, false, []);
    if r.record.Some? {
      ReadAllFirst(crc, file, pos, r.record.value, r.pos, r.drops);
      ReadAllDrops(crc, file, pos, r.record.value, r.pos, r.drops);
      HoldsIs(crc, file, r.pos, records[1..]);
    }
  }

  // Whatever its bytes are, a file that holds some records holds, when cut off
  // anywhere, the front of them, and nothing to report.
  lemma {:induction false} CutHolds(crc: Crc, file: seq<byte>, n: nat, pos: nat, records: seq<seq<byte>>) returns (k: nat)
    requires pos <= n <= |file| && HoldsFrom(crc, file, pos, records)
    ensures k <= |records| && HoldsFrom(crc, file[..n], pos, records[..k]) && (n == |file| ==> k == |records|)
    decreases records
  {
    var r := HoldsParts(crc, file, pos, records);
    ReadCut(crc, file, n, pos, false, []);
    if r.record.Some? && r.pos <= n {
      var j := CutHolds(crc, file, n, r.pos, records[1..]);
      HoldsOne(crc, file[..n], pos, records[0], r.pos, records[1..][..j]);
      k := j + 1;
      assert [records[0]] + records[1..][..j] == records[..k];
    } else {
      k := 0;
      HoldsNone(crc, file[..n], pos);
    }
  }

  // ---- Appending --------------------------------------------------------

  // Where the last record of a file ends.
  function LastEnd(crc: Crc, file: seq<byte>, pos: nat): (end: nat)
    requires pos <= |file|
    ensures pos <= end <= |file|
    decreases |file| - pos
  {
    var r := ReadFrom(crc, file, pos, false, []);
    if r.record.None? then pos else LastEnd(crc, file, r.pos)
  }

  lemma {:induction false} ReadExtends(crc: Crc, file: seq<byte>, n: nat, pos: nat, inRecord: bool, scratch: seq<byte>)
    requires pos <= n <= |file|
    requires var s := ReadFrom(crc, file[..n], pos, inRecord, scratch); s.record.Some? && s.drops == 0
    ensures ReadFrom(crc, file, pos, inRecord, scratch) == ReadFrom(crc, file[..n], pos, inRecord, scratch)
    decreases n - pos
  {
    var a, b := Parse(crc, file, pos), Parse(crc, file[..n], pos);
    ParseExtends(crc, file, n, pos);
    if b.result == Bad && b.pos == n {
      NothingLeft(crc, file[..n], false, []);
    }
    var turn := Assemble(b.result, inRecord, scratch);
    if turn.Continue? {
      ReadExtends(crc, file, n, b.pos, turn.inRecord, turn.scratch);
    }
  }

  lemma ParseExtends(crc: Crc, file: seq<byte>, n: nat, pos: nat)
    requires pos <= n <= |file|
    ensures var a, b := Parse(crc, file, pos), Parse(crc, file[..n], pos);
            b.result.Fragment? || (b.result == Bad && b.pos < n) ==> a == b
  {
    if NextStart(pos) <= n {
      CutWindow(crc, file, n, NextStart(pos));
    }
  }

  // What was readable stays readable, whatever is put behind it.
  lemma {:induction false} HeldExtends(crc: Crc, file: seq<byte>, n: nat, pos: nat, records: seq<seq<byte>>)
    requires pos <= n <= |file| && HoldsFrom(crc, file[..n], pos, records)
    ensures Then(crc, file, pos, records, LastEnd(crc, file[..n], pos))
    decreases records
  {
    var s := HoldsParts(crc, file[..n], pos, records);
    if records == [] {
      ThenNone(crc, file, pos);
    } else {
      ReadExtends(crc, file, n, pos, false, []);
      HeldExtends(crc, file, n, s.pos, records[1..]);
      ThenOne(crc, file, pos, records[0], s.pos, records[1..], LastEnd(crc, file[..n], s.pos));
      assert [records[0]] + records[1..] == records;
    }
  }

  // ---- When a file may be appended to -----------------------------------

  // Behind the last record there is at most a trailer too short for a header, a first
  // fragment without payload at the end of a block, or the start of a header at the
  // end of a block, without a type or a length.
  ghost predicate EndsCleanly(crc: Crc, file: seq<byte>) {
    var end := LastEnd(crc, file, 0);
    |file| <= NextStart(end) || EndsInEmptyFirst(crc, file, end) || EndsInBlankHeader(file, end)
  }

  ghost predicate EndsInEmptyFirst(crc: Crc, file: seq<byte>, end: nat)
    requires end <= |file|
  {
    NoRoom(end) && |file| == NextStart(end) + HEADER_SIZE && Parse(crc, file, end) == Parsed(Fragment(FIRST, []), |file|, 0)
  }

  predicate EndsInBlankHeader(file: seq<byte>, end: nat) {
    var start := NextStart(end);
    AtBlockEnd(|file|) && start < |file| < BlockEnd(start) && Blank(file, start + 4)
  }

  predicate Blank(file: seq<byte>, from: nat) {
    forall i :: from <= i < |file| && i < from + 3 ==> file[i] == 0
  }

  // What the file holds and what is appended to it can be read, now and later.
  ghost predicate ContinuesWith(crc: Crc, file: seq<byte>, records: seq<seq<byte>>, more: seq<seq<byte>>) {
    HoldsFrom(crc, file + Encode(FragmentLayout(crc), |file|, more), 0, records + more)
  }

  // The reader comes from the last record to the end of the file.
  lemma ReachesEnd(crc: Crc, layout: Layout, left: seq<byte>, more: seq<seq<byte>>, file: seq<byte>)
    requires layout == FragmentLayout(crc) && more != [] && file == left + Encode(layout, |left|, more) && EndsCleanly(crc, left)
    ensures Leads(crc, file, LastEnd(crc, left, 0), false, [], |left|, false, [])
  {
    var n, end := |left|, LastEnd(crc, left, 0);
    if n <= NextStart(end) {
      PaddingSplit(end, n);
      SameParse(crc, file, end, n);
    } else if EndsInEmptyFirst(crc, left, end) {
      PassesEmptyFirst(crc, layout, left, more, file, end);
    } else {
      PassesBlankHeader(crc, layout, left, more, file, end);
    }
  }

  lemma PassesEmptyFirst(crc: Crc, layout: Layout, left: seq<byte>, more: seq<seq<byte>>, file: seq<byte>, end: nat)
    requires layout == FragmentLayout(crc) && file == left + Encode(layout, |left|, more) && end <= |left| && EndsInEmptyFirst(crc, left, end)
    ensures Leads(crc, file, end, false, [], |left|, false, [])
  {
    assert file[..|left|] == left;
    ParseExtends(crc, file, |left|, end);
    StartsRecord(crc, layout, file, |left|, more);
    FirstThenFresh(crc, file, end, |left|);
  }

  lemma PassesBlankHeader(crc: Crc, layout: Layout, left: seq<byte>, more: seq<seq<byte>>, file: seq<byte>, end: nat)
    requires layout == FragmentLayout(crc) && more != [] && file == left + Encode(layout, |left|, more)
    requires end <= |left| && EndsInBlankHeader(left, end)
    ensures Leads(crc, file, end, false, [], |left|, false, [])
  {
    assert file[..|left|] == left;
    AppendedPadding(crc, layout, |left|, more, left);
    BlankParse(crc, file, |left|, end, left);
    SkipsTo(crc, file, end, |left|);
  }

  lemma FirstThenFresh(crc: Crc, file: seq<byte>, pos: nat, n: nat)
    requires pos <= |file| && n <= |file| && Parse(crc, file, pos) == Parsed(Fragment(FIRST, []), n, 0)
    requires var p := Parse(crc, file, n).result; p == Eof || (p.Fragment? && (p.kind == FULL || p.kind == FIRST))
    ensures Leads(crc, file, pos, false, [], n, false, [])
  {
    FreshStart(crc, file, n);
    assert Leads(crc, file, pos, false, [], n, true, []);
    LeadsOn(crc, file, pos, false, [], n, true, [], n, false, []);
  }

  lemma BlankParse(crc: Crc, file: seq<byte>, n: nat, pos: nat, left: seq<byte>)
    requires pos <= n <= |file| && left == file[..n] && EndsInBlankHeader(left, pos) && HasAt(file, n, Padding(n))
    ensures NextStart(n) <= |file| && Parse(crc, file, pos) == Parsed(Bad, NextStart(n), 0)
  {
    var start := NextStart(pos);
    SameBlockEnd(start, n);
    BlankByte(file, n, start, 4);
    BlankByte(file, n, start, 5);
    BlankByte(file, n, start, 6);
  }

  lemma SameBlockEnd(start: nat, n: nat)
    requires start % BLOCK_SIZE <= BLOCK_SIZE - HEADER_SIZE && start < n < BlockEnd(start) && AtBlockEnd(n)
    ensures BlockEnd(start) == NextStart(n) && start + HEADER_SIZE <= NextStart(n)
  {
  }

  lemma BlankByte(file: seq<byte>, n: nat, start: nat, i: nat)
    requires 4 <= i < 7 && n <= |file| && Blank(file[..n], start + 4) && HasAt(file, n, Padding(n)) && start + i < NextStart(n)
    ensures file[start + i] == 0
  {
    if start + i < n {
      assert file[..n][start + i] == 0;
    } else {
      assert file[n..n + |Padding(n)|][start + i - n] == Padding(n)[start + i - n];
    }
  }

  // A file that ends cleanly can be appended to, whatever its bytes are.
  lemma CleanEndContinues(crc: Crc, left: seq<byte>, records: seq<seq<byte>>, more: seq<seq<byte>>)
    requires HoldsFrom(crc, left, 0, records) && EndsCleanly(crc, left)
    ensures ContinuesWith(crc, left, records, more)
  {
    var layout, n, end := FragmentLayout(crc), |left|, LastEnd(crc, left, 0);
    var bytes := Encode(layout, n, more);
    var file := left + bytes;
    if more == [] {
      assert file == left && records + more == records;
    } else {
      assert file[..n] == left;
      ReachesEnd(crc, layout, left, more, file);
      HeldExtends(crc, file, n, 0, records);
      AppendedAt(crc, layout, file, n, more, bytes);
      SameReads(crc, file, end, n);
      ThenIs(crc, file, 0, records, end);
      ThenIs(crc, file, n, more, |file|);
      assert ReadAll(crc, file, |file|) == ([], 0) && more + [] == more;
      HoldsIs(crc, file, 0, records + more);
    }
  }

  // ---- Files as the writer leaves them ----------------------------------

  lemma {:induction false} LastEndAt(crc: Crc, layout: Layout, file: seq<byte>, n: nat, pos: nat, records: seq<seq<byte>>)
    requires pos <= n <= |file| && Readable(crc, layout, file, n)
    requires HasAt(file, pos, Encode(layout, pos, records)) && |file| == pos + |Encode(layout, pos, records)|
    ensures LastEnd(crc, file[..n], pos) == pos + |Encode(layout, pos, Complete(layout, pos, records, n))|
    decreases records
  {
    if records == [] {
      NothingLeft(crc, file[..n], false, []);
    } else {
      var first := layout(pos, records[0]);
      var next := pos + |first|;
      HasParts(file, pos, first, Encode(layout, next, records[1..]));
      assert ReadsRecord(crc, file, n, pos, false, [], records[0], next);
      if next <= n {
        LastEndAt(crc, layout, file, n, next, records[1..]);
        LastEndNext(crc, file[..n], pos, records[0], next);
        EncodeMore(layout, pos, records[0], Complete(layout, next, records[1..], n));
      }
    }
  }

  lemma LastEndNext(crc: Crc, file: seq<byte>, pos: nat, r: seq<byte>, next: nat)
    requires pos <= |file| && next <= |file| && ReadFrom(crc, file, pos, false, []) == ReadResult(Some(r), next, 0)
    ensures LastEnd(crc, file, pos) == LastEnd(crc, file, next)
  {
  }

  lemma EncodeMore(layout: Layout, pos: nat, r: seq<byte>, more: seq<seq<byte>>)
    ensures Encode(layout, pos, [r] + more) == layout(pos, r) + Encode(layout, pos + |layout(pos, r)|, more)
  {
    assert ([r] + more)[1..] == more;
  }

  lemma LastEndIs(crc: Crc, layout: Layout, rs: seq<seq<byte>>, n: nat, file: seq<byte>)
    requires layout == FragmentLayout(crc) && file == Encode(layout, 0, rs) && n <= |file|
    ensures LastEnd(crc, file[..n], 0) == WholeEnd(layout, rs, n)
  {
    assert file[0..0 + |file|] == file;
    FragmentsReadable(crc, file, n);
    LastEndAt(crc, layout, file, n, 0, rs);
  }

  // On a log that was cut off, this is the exact condition.
  lemma EndsCleanlyIffClean(crc: Crc, rs: seq<seq<byte>>, n: nat)
    requires n <= |LogFile(crc, rs)|
    ensures EndsCleanly(crc, LogFile(crc, rs)[..n]) <==> Clean(FragmentLayout(crc), rs, n)
  {
    var layout := FragmentLayout(crc);
    if Clean(layout, rs, n) {
      CleanEnds(crc, layout, rs, n, LogFile(crc, rs));
    } else if EndsCleanly(crc, LogFile(crc, rs)[..n]) {
      CleanEndRereads(crc, layout, rs, n, LogFile(crc, rs));
      AppendableIffClean(crc, rs, n);
    }
  }

  lemma CleanEndRereads(crc: Crc, layout: Layout, rs: seq<seq<byte>>, n: nat, file: seq<byte>)
    requires layout == FragmentLayout(crc) && file == Encode(layout, 0, rs) && n <= |file| && EndsCleanly(crc, file[..n])
    ensures forall more {:trigger Rereads(crc, layout, rs, n, more)} :: Rereads(crc, layout, rs, n, more)
  {
    CutAt(crc, file, layout, 0, rs, n);
    HoldsIs(crc, file[..n], 0, Whole(layout, rs, n));
    forall more ensures Rereads(crc, layout, rs, n, more) {
      CleanEndContinues(crc, file[..n], Whole(layout, rs, n), more);
      HoldsIs(crc, file[..n] + Encode(layout, n, more), 0, Whole(layout, rs, n) + more);
    }
  }

  lemma CleanEnds(crc: Crc, layout: Layout, rs: seq<seq<byte>>, n: nat, file: seq<byte>)
    requires layout == FragmentLayout(crc) && file == Encode(layout, 0, rs) && n <= |file| && Clean(layout, rs, n)
    ensures EndsCleanly(crc, file[..n])
  {
    var end := WholeEnd(layout, rs, n);
    LastEndIs(crc, layout, rs, n, file);
    if n > NextStart(end) {
      if Skipped(layout, rs, n) {
        SkippedIsBlank(crc, layout, rs, n, file);
      } else {
        EmptyFirstIs(crc, layout, rs, n, file);
      }
    }
  }

  lemma SkippedIsBlank(crc: Crc, layout: Layout, rs: seq<seq<byte>>, n: nat, file: seq<byte>)
    requires layout == FragmentLayout(crc) && file == Encode(layout, 0, rs) && n <= |file| && Skipped(layout, rs, n)
    ensures EndsInBlankHeader(file[..n], WholeEnd(layout, rs, n))
  {
    ReadsToTorn(crc, layout, rs, n, file, file);
    FirstHeader(crc, layout, rs, n, file);
    var t := TornRecord(layout, rs, n);
    BlockOf(NextStart(t.at), n);
    TornIsBlank(crc, file, n, t);
  }

  lemma TornIsBlank(crc: Crc, file: seq<byte>, n: nat, t: Tear)
    requires |t.data| <= 0xffff && HoldsTear(crc, file, n, t) && NextStart(t.at) < n && (n <= NextStart(t.at) + 4 || t.data == [])
    ensures Blank(file[..n], NextStart(t.at) + 4)
  {
    var start, r := NextStart(t.at), Record(crc, Kind(t), t.data);
    forall i | start + 4 <= i < n && i < start + 7 ensures file[..n][i] == r[i - start] {
      assert file[start..n][i - start] == r[..n - start][i - start];
    }
  }

  lemma EmptyFirstIs(crc: Crc, layout: Layout, rs: seq<seq<byte>>, n: nat, file: seq<byte>)
    requires layout == FragmentLayout(crc) && file == Encode(layout, 0, rs) && n <= |file|
    requires var end := WholeEnd(layout, rs, n); NoRoom(end) && n == NextStart(end) + HEADER_SIZE
    ensures EndsInEmptyFirst(crc, file[..n], WholeEnd(layout, rs, n))
  {
    WholeParts(layout, rs, n, file);
    var end, k := WholeEnd(layout, rs, n), |Whole(layout, rs, n)|;
    var data, f := rs[k], layout(end, rs[k]);
    assert data != [] by {
      FragmentsAre(crc, end, data);
    }
    assert IsFragments(f, crc, end, data, true);
    var rest := Parts(crc, f, end, data, true, file);
    PhysicalAt(crc, file, n, end, FIRST, data[..0]);
  }
}
