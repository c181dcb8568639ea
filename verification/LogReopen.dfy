// Appending to a log that a crash may have cut off (db/db_impl.cc, RecoverLogFile
// with reuse_logs; db/version_set.cc, ReuseManifest; db/log_writer.cc, db/log_reader.cc).

module LogReopen {
  import opened DbFormat
  import opened Coding
  import opened Crc32c
  import opened LogFormat
  import opened LogReader
  import opened LogRoundTrip

  // ---- Where a cut falls ------------------------------------------------

  // The physical record in which a cut falls: the position before its padding,
  // its payload, and what the reader has put together before it.
  datatype Tear = Tear(at: nat, begin: bool, data: seq<byte>, end: bool, scratch: seq<byte>)

  function Kind(t: Tear): byte {
    KindOf(t.begin, t.end)
  }

  function TearOf(pos: nat, data: seq<byte>, begin: bool, scratch: seq<byte>, n: nat): (t: Tear)
    ensures |t.data| <= Available(NextStart(t.at)) && (!t.end ==> |t.data| == Available(NextStart(t.at)))
    ensures t.begin ==> begin && t.at == pos && t.scratch == scratch
    ensures t.at >= pos
    decreases |data|, NoRoom(pos)
  {
    var start := NextStart(pos);
    var m := FragmentLength(start, |data|);
    var next := start + HEADER_SIZE + m;
    if m == |data| || n < next then Tear(pos, begin, data[..m], m == |data|, scratch)
    else TearOf(next, data[m..], false, scratch + data[..m], n)
  }

  // A later fragment starts a block, behind a fragment with a payload unless
  // the first one had no room for any.
  lemma {:induction false} TearPlace(pos: nat, data: seq<byte>, begin: bool, scratch: seq<byte>, n: nat)
    requires pos <= n && (!begin ==> pos % BLOCK_SIZE == 0 && data != [])
    ensures var t := TearOf(pos, data, begin, scratch, n);
            && t.at <= n && (!t.begin ==> t.at % BLOCK_SIZE == 0)
            && (!begin ==> (t.at == pos && t.scratch == scratch) || t.scratch != [])
            && (begin && !t.begin ==> t.scratch != [] || (NoRoom(pos) && t.at == NextStart(pos) + HEADER_SIZE))
    decreases |data|, NoRoom(pos)
  {
    var start := NextStart(pos);
    var m := FragmentLength(start, |data|);
    var next := start + HEADER_SIZE + m;
    if m < |data| && next <= n {
      NextBlockHasRoom(pos, |data|, m, next);
      assert next % BLOCK_SIZE == 0;
      TearPlace(next, data[m..], false, scratch + data[..m], n);
    }
  }

  // The files agree up to the cut.
  ghost predicate SameUpTo(file0: seq<byte>, file: seq<byte>, n: nat) {
    n <= |file0| && n <= |file| && file0[..n] == file[..n]
  }

  lemma SameAt(file0: seq<byte>, file: seq<byte>, n: nat, pos: nat, bytes: seq<byte>)
    requires SameUpTo(file0, file, n) && HasAt(file0, pos, bytes) && pos + |bytes| <= n
    ensures HasAt(file, pos, bytes)
  {
    assert file[pos..pos + |bytes|] == file[..n][pos..pos + |bytes|] == file0[pos..pos + |bytes|];
  }

  // The bytes before the cut are those of the torn physical record.
  ghost predicate HoldsTear(crc: Crc, file: seq<byte>, n: nat, t: Tear)
    requires |t.data| <= 0xffff
  {
    var start, r := NextStart(t.at), Record(crc, Kind(t), t.data);
    n <= |file| && n < start + |r| && (start <= n ==> file[start..n] == r[..n - start])
  }

  lemma HoldsTearIs(crc: Crc, file0: seq<byte>, file: seq<byte>, n: nat, t: Tear)
    requires SameUpTo(file0, file, n) && |t.data| <= 0xffff && HasAt(file0, NextStart(t.at), Record(crc, Kind(t), t.data))
    requires n < NextStart(t.at) + HEADER_SIZE + |t.data|
    ensures HoldsTear(crc, file, n, t)
  {
    var start, r := NextStart(t.at), Record(crc, Kind(t), t.data);
    if start <= n {
      assert file[start..n] == file[..n][start..n] == file0[start..n];
      assert file0[start..start + |r|][..n - start] == file0[start..n];
    }
  }

  // The reader goes on from one position as from another, folded away.
  ghost predicate Leads(crc: Crc, file: seq<byte>, pos: nat, inRecord: bool, scratch: seq<byte>, pos2: nat, inRecord2: bool, scratch2: seq<byte>)
    requires pos <= |file| && pos2 <= |file|
  {
    forall x {:trigger Look(x)} :: Look(x) && x == file ==>
      ReadFrom(crc, x, pos, inRecord, scratch) == ReadFrom(crc, x, pos2, inRecord2, scratch2)
  }

  ghost predicate Look(file: seq<byte>) {
    true
  }

  lemma LeadsIs(crc: Crc, file: seq<byte>, pos: nat, inRecord: bool, scratch: seq<byte>, pos2: nat, inRecord2: bool, scratch2: seq<byte>)
    requires pos <= |file| && pos2 <= |file| && Leads(crc, file, pos, inRecord, scratch, pos2, inRecord2, scratch2)
    ensures ReadFrom(crc, file, pos, inRecord, scratch) == ReadFrom(crc, file, pos2, inRecord2, scratch2)
  {
    assert Look(file);
  }

  lemma LeadsOn(crc: Crc, file: seq<byte>, pos: nat, inRecord: bool, scratch: seq<byte>, pos2: nat, inRecord2: bool, scratch2: seq<byte>,
                pos3: nat, inRecord3: bool, scratch3: seq<byte>)
    requires pos <= |file| && pos2 <= |file| && pos3 <= |file|
    requires Leads(crc, file, pos, inRecord, scratch, pos2, inRecord2, scratch2)
    requires Leads(crc, file, pos2, inRecord2, scratch2, pos3, inRecord3, scratch3)
    ensures Leads(crc, file, pos, inRecord, scratch, pos3, inRecord3, scratch3)
  {
    assert Look(file);
  }

  // Whatever lies behind the cut, the reader gets as far as the torn physical record.
  lemma {:induction false} ReadsUpToTear(crc: Crc, file0: seq<byte>, file: seq<byte>, n: nat, pos: nat, data: seq<byte>, begin: bool,
                                         scratch: seq<byte>, f: seq<byte>)
    requires IsFragments(f, crc, pos, data, begin) && HasAt(file0, pos, f) && pos <= n < pos + |f| && SameUpTo(file0, file, n)
    requires begin ==> scratch == []
    ensures var t := TearOf(pos, data, begin, scratch, n);
            && t.at <= n && HoldsTear(crc, file, n, t) && Leads(crc, file, pos, !begin, scratch, t.at, !t.begin, t.scratch)
    decreases |data|, NoRoom(pos)
  {
    var start := NextStart(pos);
    var m := FragmentLength(start, |data|);
    var next := start + HEADER_SIZE + m;
    var rest := Parts(crc, f, pos, data, begin, file0);
    NextBlockHasRoom(pos, |data|, m, next);
    var t := TearOf(pos, data, begin, scratch, n);
    if m < |data| && next <= n {
      var longer := scratch + data[..m];
      WholeFragment(crc, file0, file, n, pos, begin, scratch, data[..m], next);
      ReadsUpToTear(crc, file0, file, n, next, data[m..], false, longer, rest);
      LeadsOn(crc, file, pos, !begin, scratch, next, true, longer, t.at, !t.begin, t.scratch);
    } else {
      HoldsTearIs(crc, file0, file, n, t);
    }
  }

  // A fragment that lies before the cut is read.
  lemma WholeFragment(crc: Crc, file0: seq<byte>, file: seq<byte>, n: nat, pos: nat, begin: bool, scratch: seq<byte>, data: seq<byte>, next: nat)
    requires SameUpTo(file0, file, n) && |data| <= Available(NextStart(pos)) && next == NextStart(pos) + HEADER_SIZE + |data| <= n
    requires HasAt(file0, NextStart(pos), Record(crc, KindOf(begin, false), data)) && (begin ==> scratch == [])
    ensures Leads(crc, file, pos, !begin, scratch, next, true, scratch + data)
  {
    SameAt(file0, file, n, NextStart(pos), Record(crc, KindOf(begin, false), data));
    PhysicalAt(crc, file, |file|, pos, KindOf(begin, false), data);
    assert file[..|file|] == file;
    Continues(crc, file, pos, next, begin, scratch, data);
  }

  lemma Continues(crc: Crc, file: seq<byte>, pos: nat, next: nat, begin: bool, scratch: seq<byte>, data: seq<byte>)
    requires pos <= |file| && Parse(crc, file, pos) == Parsed(Fragment(KindOf(begin, false), data), next, 0) && (begin ==> scratch == [])
    ensures Leads(crc, file, pos, !begin, scratch, next, true, scratch + data)
  {
    assert begin ==> scratch + data == data;
  }

  // ---- The whole records before the cut ---------------------------------

  function Whole(layout: Layout, rs: seq<seq<byte>>, n: nat): seq<seq<byte>> {
    Complete(layout, 0, rs, n)
  }

  function WholeEnd(layout: Layout, rs: seq<seq<byte>>, n: nat): nat {
    |Encode(layout, 0, Whole(layout, rs, n))|
  }

  lemma WholeParts(layout: Layout, rs: seq<seq<byte>>, n: nat, file: seq<byte>)
    requires file == Encode(layout, 0, rs) && n <= |file|
    ensures var k, end := |Whole(layout, rs, n)|, WholeEnd(layout, rs, n);
            && k <= |rs| && Whole(layout, rs, n) == rs[..k] && end <= n && HasAt(file, 0, Encode(layout, 0, rs[..k]))
            && (if k == |rs| then end == n == |file| else HasAt(file, end, layout(end, rs[k])) && n < end + |layout(end, rs[k])|)
  {
    CompleteIsPrefix(layout, 0, rs, n);
    var k := |Whole(layout, rs, n)|;
    assert k == 0 ==> rs[..k] == [];
    if k < |rs| {
      RecordPlace(layout, rs, k, file);
    } else {
      assert rs[..k] == rs && file[0..0 + |file|] == file;
    }
  }

  // The place of a record in its log.
  lemma RecordPlace(layout: Layout, rs: seq<seq<byte>>, k: nat, file: seq<byte>)
    requires file == Encode(layout, 0, rs) && k < |rs|
    ensures var end := |Encode(layout, 0, rs[..k])|;
            && HasAt(file, 0, Encode(layout, 0, rs[..k])) && HasAt(file, end, layout(end, rs[k]))
            && |Encode(layout, 0, rs[..k + 1])| == end + |layout(end, rs[k])|
  {
    var front, end := Encode(layout, 0, rs[..k]), |Encode(layout, 0, rs[..k])|;
    var f := layout(end, rs[k]);
    var back := Encode(layout, end + |f|, rs[k + 1..]);
    assert Encode(layout, 0, rs) == front + (f + back) by {
      EncodeSplit(layout, 0, rs[..k], rs[k..]);
      assert rs[..k] + rs[k..] == rs && rs[k..][1..] == rs[k + 1..];
    }
    assert file[0..0 + |front|] == front && file[end..end + |f|] == f;
    EncodeSplit(layout, 0, rs[..k], [rs[k]]);
    assert rs[..k] + [rs[k]] == rs[..k + 1];
    assert Encode(layout, end, [rs[k]]) == f + Encode(layout, end + |f|, []) == f;
  }

  // Reading on from a position yields some records and then what reading on from
  // a later position yields, folded away.
  ghost predicate Then(crc: Crc, file: seq<byte>, pos: nat, records: seq<seq<byte>>, end: nat)
    requires pos <= |file| && end <= |file|
  {
    forall x {:trigger Look(x)} :: Look(x) && x == file ==>
      ReadAll(crc, x, pos) == (records + ReadAll(crc, x, end).0, ReadAll(crc, x, end).1)
  }

  lemma ThenIs(crc: Crc, file: seq<byte>, pos: nat, records: seq<seq<byte>>, end: nat)
    requires pos <= |file| && end <= |file|
    ensures Then(crc, file, pos, records, end)
            <==> ReadAll(crc, file, pos) == (records + ReadAll(crc, file, end).0, ReadAll(crc, file, end).1)
  {
    assert Look(file);
  }

  lemma ThenNone(crc: Crc, file: seq<byte>, pos: nat)
    requires pos <= |file|
    ensures Then(crc, file, pos, [], pos)
  {
    var rest := ReadAll(crc, file, pos);
    assert [] + rest.0 == rest.0;
  }

  lemma ThenOne(crc: Crc, file: seq<byte>, pos: nat, r: seq<byte>, next: nat, records: seq<seq<byte>>, end: nat)
    requires pos <= |file| && next <= |file| && end <= |file|
    requires ReadFrom(crc, file, pos, false, []) == ReadResult(Some(r), next, 0) && Then(crc, file, next, records, end)
    ensures Then(crc, file, pos, [r] + records, end)
  {
    ThenIs(crc, file, next, records, end);
    ThenIs(crc, file, pos, [r] + records, end);
    assert [r] + (records + ReadAll(crc, file, end).0) == [r] + records + ReadAll(crc, file, end).0;
  }

  ghost predicate AllReadable(crc: Crc, layout: Layout, file: seq<byte>) {
    forall x {:trigger Peek(x)} :: Peek(x) && x == file ==> Readable(crc, layout, x, |x|)
  }

  ghost predicate Peek(file: seq<byte>) {
    true
  }

  lemma ThenFirst(crc: Crc, layout: Layout, file: seq<byte>, pos: nat, records: seq<seq<byte>>, first: seq<byte>, next: nat, end: nat)
    requires records != [] && AllReadable(crc, layout, file)
    requires first == layout(pos, records[0]) && HasAt(file, pos, first) && next == pos + |first|
    requires end <= |file| && Then(crc, file, next, records[1..], end)
    ensures Then(crc, file, pos, records, end)
  {
    assert Peek(file);
    assert ReadsRecord(crc, file, |file|, pos, false, [], records[0], next);
    assert file[..|file|] == file && [records[0]] + records[1..] == records;
    ThenOne(crc, file, pos, records[0], next, records[1..], end);
  }

  lemma EncodeParts(layout: Layout, file: seq<byte>, pos: nat, records: seq<seq<byte>>, bytes: seq<byte>)
    requires records != [] && bytes == Encode(layout, pos, records) && HasAt(file, pos, bytes)
    ensures var first := layout(pos, records[0]);
            var later := Encode(layout, pos + |first|, records[1..]);
            HasAt(file, pos, first) && HasAt(file, pos + |first|, later) && |bytes| == |first| + |later|
  {
    var first := layout(pos, records[0]);
    HasParts(file, pos, first, Encode(layout, pos + |first|, records[1..]));
  }

  lemma {:induction false} RecordsThen(crc: Crc, layout: Layout, file: seq<byte>, pos: nat, records: seq<seq<byte>>,
                                       bytes: seq<byte>, end: nat)
    requires AllReadable(crc, layout, file) && bytes == Encode(layout, pos, records) && HasAt(file, pos, bytes) && end == pos + |bytes|
    ensures Then(crc, file, pos, records, end)
    decreases records
  {
    if records == [] {
      ThenNone(crc, file, pos);
    } else {
      var first := layout(pos, records[0]);
      var next := pos + |first|;
      EncodeParts(layout, file, pos, records, bytes);
      RecordsThen(crc, layout, file, next, records[1..], Encode(layout, next, records[1..]), end);
      ThenFirst(crc, layout, file, pos, records, first, next, end);
    }
  }

  // Whatever lies behind the cut, the whole records before it are read first.
  lemma WholeThen(crc: Crc, layout: Layout, rs: seq<seq<byte>>, n: nat, file0: seq<byte>, file: seq<byte>)
    requires layout == FragmentLayout(crc) && file0 == Encode(layout, 0, rs) && SameUpTo(file0, file, n)
    ensures WholeEnd(layout, rs, n) <= n && Then(crc, file, 0, Whole(layout, rs, n), WholeEnd(layout, rs, n))
  {
    WholeParts(layout, rs, n, file0);
    var whole := Whole(layout, rs, n);
    SameAt(file0, file, n, 0, Encode(layout, 0, whole));
    FragmentsReadable(crc, file, |file|);
    RecordsThen(crc, layout, file, 0, whole, Encode(layout, 0, whole), WholeEnd(layout, rs, n));
  }

  // The physical record a cut falls into, when it falls behind the last whole record.
  function TornRecord(layout: Layout, rs: seq<seq<byte>>, n: nat): Tear
    requires |Whole(layout, rs, n)| < |rs|
  {
    TearOf(WholeEnd(layout, rs, n), rs[|Whole(layout, rs, n)|], true, [], n)
  }

  lemma ReadsToTorn(crc: Crc, layout: Layout, rs: seq<seq<byte>>, n: nat, file0: seq<byte>, file: seq<byte>)
    requires layout == FragmentLayout(crc) && file0 == Encode(layout, 0, rs) && SameUpTo(file0, file, n) && |Whole(layout, rs, n)| < |rs|
    ensures var t, end := TornRecord(layout, rs, n), WholeEnd(layout, rs, n);
            && end <= n && t.at <= n && HoldsTear(crc, file, n, t)
            && Leads(crc, file, end, false, [], t.at, !t.begin, t.scratch)
            && (!t.begin ==> t.at % BLOCK_SIZE == 0 && (t.scratch != [] || (NoRoom(end) && t.at == NextStart(end) + HEADER_SIZE)))
  {
    WholeParts(layout, rs, n, file0);
    var end, data := WholeEnd(layout, rs, n), rs[|Whole(layout, rs, n)|];
    assert IsFragments(layout(end, data), crc, end, data, true);
    TearPlace(end, data, true, [], n);
    ReadsUpToTear(crc, file0, file, n, end, data, true, [], layout(end, data));
  }

  // ---- Bytes behind a torn record ---------------------------------------

  // A torn payload: the header is there and claims more than what was left.
  lemma PayloadParse(crc: Crc, file: seq<byte>, n: nat, t: Tear)
    requires |t.data| <= Available(NextStart(t.at)) && HoldsTear(crc, file, n, t) && NextStart(t.at) + HEADER_SIZE <= n
    ensures var start := NextStart(t.at);
            var p, end := Parse(crc, file, t.at), start + HEADER_SIZE + |t.data|;
            && |Window(file, start)| >= HEADER_SIZE && Length(Window(file, start)) == |t.data|
            && if |file| < end then p.result == Eof && p.drops == 0
               else HEADER_SIZE + |t.data| <= |Window(file, start)|
                    && if !ChecksumMatches(crc, Window(file, start)) then p.result == Bad && p.drops == 1
                       else p.result.Fragment? && p.result.kind == Kind(t) && |p.result.data| == |t.data| && p.pos == end && p.drops == 0
  {
    var start, r := NextStart(t.at), Record(crc, Kind(t), t.data);
    var w := Window(file, start);
    RecordParts(crc, Kind(t), t.data, []);
    assert r + [] == r;
    assert file[start..n] == r[..n - start];
    assert w[4] == file[start..n][4] && w[5] == file[start..n][5] && w[6] == file[start..n][6];
  }

  // The end of the file behind a cut: nothing more is read, and nothing reported.
  lemma TornTail(crc: Crc, layout: Layout, rs: seq<seq<byte>>, n: nat, file0: seq<byte>, file: seq<byte>)
    requires layout == FragmentLayout(crc) && file0 == Encode(layout, 0, rs) && SameUpTo(file0, file, n) && |Whole(layout, rs, n)| < |rs|
    ensures TornRecord(layout, rs, n).at <= n
    ensures var p := Parse(crc, file, TornRecord(layout, rs, n).at);
            && (p.result == Eof && p.drops == 0 ==> ReadAll(crc, file, 0) == (Whole(layout, rs, n), 0))
            && (p.drops > 0 ==> ReadAll(crc, file, 0).1 > 0)
  {
    ReadsToTorn(crc, layout, rs, n, file0, file);
    WholeThen(crc, layout, rs, n, file0, file);
    ThenIs(crc, file, 0, Whole(layout, rs, n), WholeEnd(layout, rs, n));
    TornTurn(crc, file, WholeEnd(layout, rs, n), TornRecord(layout, rs, n));
    assert Whole(layout, rs, n) + [] == Whole(layout, rs, n);
  }

  lemma TornTurn(crc: Crc, file: seq<byte>, pos: nat, t: Tear)
    requires pos <= |file| && t.at <= |file| && Leads(crc, file, pos, false, [], t.at, !t.begin, t.scratch)
    ensures var p := Parse(crc, file, t.at);
            && (p.result == Eof && p.drops == 0 ==> ReadAll(crc, file, pos) == ([], 0))
            && (p.drops > 0 ==> ReadAll(crc, file, pos).1 > 0)
  {
    LeadsIs(crc, file, pos, false, [], t.at, !t.begin, t.scratch);
  }

  // However much is appended and synced behind a torn payload, as long as it does
  // not reach the length the torn header claims, all of it is lost without a report.
  lemma TornPayloadSwallows(crc: Crc, rs: seq<seq<byte>>, n: nat, tail: seq<byte>)
    requires var layout := FragmentLayout(crc);
             n <= |LogFile(crc, rs)| && |Whole(layout, rs, n)| < |rs|
             && var t := TornRecord(layout, rs, n);
                NextStart(t.at) + HEADER_SIZE <= n && n + |tail| < NextStart(t.at) + HEADER_SIZE + |t.data|
    ensures ReadAll(crc, LogFile(crc, rs)[..n] + tail, 0) == (Whole(FragmentLayout(crc), rs, n), 0)
  {
    var layout, file0 := FragmentLayout(crc), LogFile(crc, rs);
    var file := file0[..n] + tail;
    ReadsToTorn(crc, layout, rs, n, file0, file);
    PayloadParse(crc, file, n, TornRecord(layout, rs, n));
    TornTail(crc, layout, rs, n, file0, file);
  }

  // When it does reach that far, a wrong checksum is reported.
  lemma TornPayloadReports(crc: Crc, rs: seq<seq<byte>>, n: nat, tail: seq<byte>)
    requires var layout := FragmentLayout(crc);
             n <= |LogFile(crc, rs)| && |Whole(layout, rs, n)| < |rs|
             && var t := TornRecord(layout, rs, n);
                NextStart(t.at) + HEADER_SIZE <= n && NextStart(t.at) + HEADER_SIZE + |t.data| <= n + |tail|
                && var w := Window(LogFile(crc, rs)[..n] + tail, NextStart(t.at));
                   |w| >= HEADER_SIZE && HEADER_SIZE + Length(w) <= |w| ==> !ChecksumMatches(crc, w)
    ensures ReadAll(crc, LogFile(crc, rs)[..n] + tail, 0).1 > 0
  {
    var layout, file0 := FragmentLayout(crc), LogFile(crc, rs);
    var file := file0[..n] + tail;
    ReadsToTorn(crc, layout, rs, n, file0, file);
    PayloadParse(crc, file, n, TornRecord(layout, rs, n));
    TornTail(crc, layout, rs, n, file0, file);
  }

  // A synced record that is never seen again: 1000 bytes were to be written, eight
  // bytes of them with their header are left, and ten more are appended.
  lemma SyncedRecordVanishes(crc: Crc, data: seq<byte>, more: seq<byte>)
    requires |data| == 1000 && |more| == 10
    ensures |LogFile(crc, [data])| >= 8
    ensures ReadAll(crc, LogFile(crc, [data])[..8] + Encode(FragmentLayout(crc), 8, [more]), 0) == ([], 0)
  {
    var layout := FragmentLayout(crc);
    var f := Fragments(crc, 0, data, true);
    assert layout(0, data) == f && |f| == 1007;
    assert Encode(layout, 0, [data]) == f + Encode(layout, 1007, []) == f;
    assert Whole(layout, [data], 8) == [] && WholeEnd(layout, [data], 8) == 0;
    assert TornRecord(layout, [data], 8) == Tear(0, true, data[..1000], true, []);
    var g := layout(8, more);
    assert g == Fragments(crc, 8, more, true) && |g| == 17;
    assert Encode(layout, 8, [more]) == g + Encode(layout, 25, []) == g;
    TornPayloadSwallows(crc, [data], 8, g);
  }

  // ---- When a log may be appended to ------------------------------------

  predicate InHeader(layout: Layout, rs: seq<seq<byte>>, n: nat) {
    |Whole(layout, rs, n)| < |rs| && var start := NextStart(TornRecord(layout, rs, n).at); start < n < start + HEADER_SIZE
  }

  // No other header fits into the block behind the cut.
  predicate AtBlockEnd(n: nat) {
    n % BLOCK_SIZE > BLOCK_SIZE - HEADER_SIZE
  }

  // The cut tears a header at the end of a block, and the padding that comes next
  // completes it to type 0 and length 0.
  predicate Skipped(layout: Layout, rs: seq<seq<byte>>, n: nat) {
    && InHeader(layout, rs, n) && AtBlockEnd(n)
    && var t := TornRecord(layout, rs, n); n <= NextStart(t.at) + 4 || t.data == []
  }

  // The cut ends a record, lies in the padding behind one, ends a first fragment
  // that had no room for any payload, or tears a header that will be skipped.
  predicate Clean(layout: Layout, rs: seq<seq<byte>>, n: nat) {
    var end := WholeEnd(layout, rs, n);
    || end <= n <= NextStart(end)
    || (NoRoom(end) && n == NextStart(end) + HEADER_SIZE)
    || Skipped(layout, rs, n)
  }

  // A log cut off at n with more records appended.
  function Appended(layout: Layout, rs: seq<seq<byte>>, n: nat, more: seq<seq<byte>>): seq<byte>
    requires n <= |Encode(layout, 0, rs)|
  {
    Encode(layout, 0, rs)[..n] + Encode(layout, n, more)
  }

  // It reads as the whole records before the cut and those appended, without a report.
  ghost predicate Rereads(crc: Crc, layout: Layout, rs: seq<seq<byte>>, n: nat, more: seq<seq<byte>>)
    requires n <= |Encode(layout, 0, rs)|
  {
    ReadAll(crc, Appended(layout, rs, n, more), 0) == (Whole(layout, rs, n) + more, 0)
  }

  // A record's layout without its leading padding.
  function Unpadded(crc: Crc, start: nat, data: seq<byte>): seq<byte>
    requires start % BLOCK_SIZE <= BLOCK_SIZE - HEADER_SIZE
  {
    var m := FragmentLength(start, |data|);
    Record(crc, KindOf(true, m == |data|), data[..m])
    + (if m == |data| then [] else Fragments(crc, start + HEADER_SIZE + m, data[m..], false))
  }

  lemma FragmentsAre(crc: Crc, pos: nat, data: seq<byte>)
    ensures Fragments(crc, pos, data, true) == Padding(pos) + Unpadded(crc, NextStart(pos), data)
  {
    var start := NextStart(pos);
    var m := FragmentLength(start, |data|);
    var r := Record(crc, KindOf(true, m == |data|), data[..m]);
    if m == |data| {
      assert r + [] == r;
    } else {
      Reassociate(Padding(pos), r, Fragments(crc, start + HEADER_SIZE + m, data[m..], false));
    }
  }

  lemma FragmentsPadded(crc: Crc, pos: nat, n: nat, data: seq<byte>)
    requires pos <= n <= NextStart(pos)
    ensures Fragments(crc, pos, data, true) == Padding(pos)[..n - pos] + Fragments(crc, n, data, true)
  {
    PaddingSplit(pos, n);
    FragmentsAre(crc, pos, data);
    FragmentsAre(crc, n, data);
    Reassociate(Padding(pos)[..n - pos], Padding(n), Unpadded(crc, NextStart(pos), data));
  }

  lemma PaddingSplit(pos: nat, n: nat)
    requires pos <= n <= NextStart(pos)
    ensures NextStart(n) == NextStart(pos) && Padding(pos) == Padding(pos)[..n - pos] + Padding(n)
  {
  }

  lemma EncodePadded(crc: Crc, layout: Layout, pos: nat, n: nat, more: seq<seq<byte>>)
    requires layout == FragmentLayout(crc) && pos <= n <= NextStart(pos) && more != []
    ensures Encode(layout, pos, more) == Padding(pos)[..n - pos] + Encode(layout, n, more)
  {
    var zeros, a, b := Padding(pos)[..n - pos], layout(pos, more[0]), layout(n, more[0]);
    assert a == zeros + b by {
      FragmentsPadded(crc, pos, n, more[0]);
    }
    EncodeShifted(layout, pos, n, more, zeros);
  }

  lemma EncodeShifted(layout: Layout, pos: nat, n: nat, more: seq<seq<byte>>, zeros: seq<byte>)
    requires more != [] && layout(pos, more[0]) == zeros + layout(n, more[0]) && pos + |zeros| == n
    ensures Encode(layout, pos, more) == zeros + Encode(layout, n, more)
  {
    var b := layout(n, more[0]);
    Reassociate(zeros, b, Encode(layout, n + |b|, more[1..]));
  }

  // What lies between the last whole record and a cut in its padding.
  lemma CutInPadding(crc: Crc, layout: Layout, rs: seq<seq<byte>>, n: nat, file0: seq<byte>)
    requires layout == FragmentLayout(crc) && file0 == Encode(layout, 0, rs) && n <= |file0|
    requires var end := WholeEnd(layout, rs, n); end <= n <= NextStart(end)
    ensures file0[..n] == Encode(layout, 0, Whole(layout, rs, n)) + Padding(WholeEnd(layout, rs, n))[..n - WholeEnd(layout, rs, n)]
  {
    WholeParts(layout, rs, n, file0);
    var k, end := |Whole(layout, rs, n)|, WholeEnd(layout, rs, n);
    var whole := Encode(layout, 0, rs[..k]);
    assert file0[..n][..end] == file0[0..end] == whole;
    if k < |rs| {
      PaddingFirst(crc, end, rs[k], layout(end, rs[k]));
      CutBytes(file0, end, layout(end, rs[k]), n);
    }
    assert file0[..n] == file0[..end] + file0[end..n];
  }

  lemma CutBytes(file0: seq<byte>, end: nat, f: seq<byte>, n: nat)
    requires HasAt(file0, end, f) && |f| >= |Padding(end)| && f[..|Padding(end)|] == Padding(end) && end <= n <= NextStart(end)
    ensures n <= |file0| && file0[end..n] == Padding(end)[..n - end]
  {
    assert file0[end..n] == file0[end..end + |f|][..n - end];
  }

  lemma PaddingFirst(crc: Crc, pos: nat, data: seq<byte>, f: seq<byte>)
    requires f == Fragments(crc, pos, data, true)
    ensures |f| >= |Padding(pos)| && f[..|Padding(pos)|] == Padding(pos)
  {
  }

  // Appending behind such a cut continues the log of the whole records.
  lemma ReopenContinues(crc: Crc, layout: Layout, rs: seq<seq<byte>>, n: nat, more: seq<seq<byte>>)
    requires layout == FragmentLayout(crc) && n <= |Encode(layout, 0, rs)| && more != []
    requires var end := WholeEnd(layout, rs, n); end <= n <= NextStart(end)
    ensures Appended(layout, rs, n, more) == Encode(layout, 0, Whole(layout, rs, n) + more)
  {
    var end := WholeEnd(layout, rs, n);
    CutInPadding(crc, layout, rs, n, Encode(layout, 0, rs));
    EncodePadded(crc, layout, end, n, more);
    JoinAppended(layout, rs, n, more, Padding(end)[..n - end]);
  }

  lemma JoinAppended(layout: Layout, rs: seq<seq<byte>>, n: nat, more: seq<seq<byte>>, zeros: seq<byte>)
    requires n <= |Encode(layout, 0, rs)| && Encode(layout, 0, rs)[..n] == Encode(layout, 0, Whole(layout, rs, n)) + zeros
    requires Encode(layout, WholeEnd(layout, rs, n), more) == zeros + Encode(layout, n, more)
    ensures Appended(layout, rs, n, more) == Encode(layout, 0, Whole(layout, rs, n) + more)
  {
    EncodeSplit(layout, 0, Whole(layout, rs, n), more);
    Reassociate(Encode(layout, 0, Whole(layout, rs, n)), zeros, Encode(layout, n, more));
  }

  lemma PaddedRereads(crc: Crc, layout: Layout, rs: seq<seq<byte>>, n: nat, more: seq<seq<byte>>)
    requires layout == FragmentLayout(crc) && n <= |Encode(layout, 0, rs)|
    requires var end := WholeEnd(layout, rs, n); end <= n <= NextStart(end)
    ensures Rereads(crc, layout, rs, n, more)
  {
    if more == [] {
      NothingAppended(crc, layout, rs, n);
    } else {
      ReopenContinues(crc, layout, rs, n, more);
      WholeAt(crc, Appended(layout, rs, n, more), layout, 0, Whole(layout, rs, n) + more);
    }
  }

  lemma NothingAppended(crc: Crc, layout: Layout, rs: seq<seq<byte>>, n: nat)
    requires layout == FragmentLayout(crc) && n <= |Encode(layout, 0, rs)|
    ensures Rereads(crc, layout, rs, n, [])
  {
    var file0, whole := Encode(layout, 0, rs), Whole(layout, rs, n);
    CutAt(crc, file0, layout, 0, rs, n);
    assert Appended(layout, rs, n, []) == file0[..n] && whole + [] == whole;
  }

  // Behind an empty first fragment a record starts afresh.
  lemma FreshStart(crc: Crc, file: seq<byte>, pos: nat)
    requires pos <= |file| && var p := Parse(crc, file, pos).result; p == Eof || (p.Fragment? && (p.kind == FULL || p.kind == FIRST))
    ensures Leads(crc, file, pos, true, [], pos, false, [])
  {
  }

  lemma ReadAllNone(crc: Crc, file: seq<byte>, pos: nat, q: nat, drops: nat)
    requires pos <= |file| && ReadFrom(crc, file, pos, false, []) == ReadResult(None, q, drops)
    ensures ReadAll(crc, file, pos) == ([], drops)
  {
  }

  lemma ReadAllFirst(crc: Crc, file: seq<byte>, pos: nat, r: seq<byte>, next: nat, drops: nat)
    requires pos <= |file| && next <= |file| && ReadFrom(crc, file, pos, false, []) == ReadResult(Some(r), next, drops)
    ensures ReadAll(crc, file, pos).0 == [r] + ReadAll(crc, file, next).0
  {
  }

  lemma ReadAllDrops(crc: Crc, file: seq<byte>, pos: nat, r: seq<byte>, next: nat, drops: nat)
    requires pos <= |file| && next <= |file| && ReadFrom(crc, file, pos, false, []) == ReadResult(Some(r), next, drops)
    ensures ReadAll(crc, file, pos).1 == drops + ReadAll(crc, file, next).1
  {
  }

  lemma SameReads(crc: Crc, file: seq<byte>, pos: nat, n: nat)
    requires pos <= |file| && n <= |file| && Leads(crc, file, pos, false, [], n, false, [])
    ensures ReadAll(crc, file, pos).0 == ReadAll(crc, file, n).0 && ReadAll(crc, file, pos).1 == ReadAll(crc, file, n).1
  {
    LeadsIs(crc, file, pos, false, [], n, false, []);
    match ReadFrom(crc, file, n, false, [])
    case ReadResult(None, q, drops) =>
      ReadAllNone(crc, file, pos, q, drops);
      ReadAllNone(crc, file, n, q, drops);
    case ReadResult(Some(r), next, drops) =>
      ReadAllFirst(crc, file, pos, r, next, drops);
      ReadAllFirst(crc, file, n, r, next, drops);
      ReadAllDrops(crc, file, pos, r, next, drops);
      ReadAllDrops(crc, file, n, r, next, drops);
  }

  lemma EmptyFirstTear(crc: Crc, layout: Layout, rs: seq<seq<byte>>, n: nat, file0: seq<byte>)
    requires layout == FragmentLayout(crc) && file0 == Encode(layout, 0, rs) && n <= |file0|
    requires var end := WholeEnd(layout, rs, n); NoRoom(end) && n == NextStart(end) + HEADER_SIZE
    ensures |Whole(layout, rs, n)| < |rs|
    ensures var t := TornRecord(layout, rs, n); t.at == n && !t.begin && t.scratch == [] && NextStart(n) == n
  {
    WholeParts(layout, rs, n, file0);
    var end, k := WholeEnd(layout, rs, n), |Whole(layout, rs, n)|;
    var data, f := rs[k], layout(end, rs[k]);
    assert data != [] by {
      FragmentsAre(crc, end, data);
    }
    EmptyFirst(end, data, n);
  }

  lemma EmptyFirst(pos: nat, data: seq<byte>, n: nat)
    requires NoRoom(pos) && n == NextStart(pos) + HEADER_SIZE && data != []
    ensures var t := TearOf(pos, data, true, [], n); t.at == n && !t.begin && t.scratch == [] && NextStart(n) == n
  {
    assert data[0..] == data && n % BLOCK_SIZE == 0;
    assert TearOf(pos, data, true, [], n) == TearOf(n, data, false, [], n);
  }

  lemma EmptyFirstRereads(crc: Crc, layout: Layout, rs: seq<seq<byte>>, n: nat, more: seq<seq<byte>>)
    requires layout == FragmentLayout(crc) && n <= |Encode(layout, 0, rs)|
    requires var end := WholeEnd(layout, rs, n); NoRoom(end) && n == NextStart(end) + HEADER_SIZE
    ensures Rereads(crc, layout, rs, n, more)
  {
    var file0, end, bytes := Encode(layout, 0, rs), WholeEnd(layout, rs, n), Encode(layout, n, more);
    var file := file0[..n] + bytes;
    EmptyFirstTear(crc, layout, rs, n, file0);
    ReadsToTorn(crc, layout, rs, n, file0, file);
    StartsRecord(crc, layout, file, n, more);
    FreshStart(crc, file, n);
    LeadsOn(crc, file, end, false, [], n, true, [], n, false, []);
    SameRereads(crc, layout, rs, n, more, file0, file);
  }

  lemma AppendedAt(crc: Crc, layout: Layout, file: seq<byte>, n: nat, more: seq<seq<byte>>, bytes: seq<byte>)
    requires layout == FragmentLayout(crc) && bytes == Encode(layout, n, more) && |file| == n + |bytes| && file[n..] == bytes
    ensures Then(crc, file, n, more, |file|)
  {
    assert file[n..n + |bytes|] == bytes;
    FragmentsReadable(crc, file, |file|);
    RecordsThen(crc, layout, file, n, more, bytes, |file|);
  }

  // What is appended starts with a full or a first fragment, if there is anything.
  lemma StartsRecord(crc: Crc, layout: Layout, file: seq<byte>, n: nat, more: seq<seq<byte>>)
    requires layout == FragmentLayout(crc) && n + |Encode(layout, n, more)| == |file| && file[n..] == Encode(layout, n, more)
    ensures var p := Parse(crc, file, n).result; p == Eof || (p.Fragment? && (p.kind == FULL || p.kind == FIRST))
  {
    if more != [] {
      assert file[n..n + |Encode(layout, n, more)|] == Encode(layout, n, more);
      HasParts(file, n, layout(n, more[0]), Encode(layout, n + |layout(n, more[0])|, more[1..]));
      StartsFragment(crc, file, n, more[0], layout(n, more[0]));
    }
  }

  lemma StartsFragment(crc: Crc, file: seq<byte>, n: nat, data: seq<byte>, f: seq<byte>)
    requires f == Fragments(crc, n, data, true) && HasAt(file, n, f)
    ensures var p := Parse(crc, file, n).result; p.Fragment? && (p.kind == FULL || p.kind == FIRST)
  {
    var m := FragmentLength(NextStart(n), |data|);
    assert IsFragments(f, crc, n, data, true);
    var rest := Parts(crc, f, n, data, true, file);
    PhysicalAt(crc, file, |file|, n, KindOf(true, m == |data|), data[..m]);
    assert file[..|file|] == file;
  }

  // Zeros complete a torn header at the end of a block.  Type 0 is nothing the writer
  // writes: the rest of the block is skipped, or reported if there is a length.
  lemma PaddedParse(crc: Crc, file: seq<byte>, n: nat, t: Tear)
    requires t.at <= n <= |file| && |t.data| <= Available(NextStart(t.at)) && HoldsTear(crc, file, n, t) && HasAt(file, n, Padding(n))
    requires NextStart(t.at) < n < NextStart(t.at) + HEADER_SIZE && AtBlockEnd(n)
    ensures NextStart(n) <= |file|
    ensures var p := Parse(crc, file, t.at);
            if n <= NextStart(t.at) + 4 || t.data == [] then p == Parsed(Bad, NextStart(n), 0)
            else (p.result == Bad && p.drops == 1) || (p.result.Fragment? && p.result.kind == 0)
  {
    PaddedHeader(crc, file, n, t);
  }

  lemma PaddedHeader(crc: Crc, file: seq<byte>, n: nat, t: Tear)
    requires |t.data| <= Available(NextStart(t.at)) && HoldsTear(crc, file, n, t) && HasAt(file, n, Padding(n))
    requires NextStart(t.at) < n < NextStart(t.at) + HEADER_SIZE && AtBlockEnd(n)
    ensures var start := NextStart(t.at);
            && BlockEnd(start) == NextStart(n) <= |file| && |t.data| <= 5
            && file[start + 6] == 0 && file[start + 5] == 0 && file[start + 4] == (if n <= start + 4 then 0 else |t.data|) as byte
  {
    var start, r := NextStart(t.at), Record(crc, Kind(t), t.data);
    BlockOf(start, n);
    TornByte(file, start, n, r, 4);
    TornByte(file, start, n, r, 5);
    TornByte(file, start, n, r, 6);
    assert r[4] == Low8(|t.data|) && r[5] == Low8(|t.data| / 256);
  }

  lemma BlockOf(start: nat, n: nat)
    requires start % BLOCK_SIZE <= BLOCK_SIZE - HEADER_SIZE && start < n < start + HEADER_SIZE && AtBlockEnd(n)
    ensures BlockEnd(start) == BlockEnd(n) == NextStart(n) && Available(start) <= 5
  {
  }

  // A byte of a torn header with the padding that follows.
  lemma TornByte(file: seq<byte>, start: nat, n: nat, r: seq<byte>, i: nat)
    requires start < n <= |file| && n - start <= |r| && file[start..n] == r[..n - start] && HasAt(file, n, Padding(n)) && start + i < NextStart(n)
    ensures start + i < |file| && file[start + i] == (if i < n - start then r[i] else 0)
  {
    if i < n - start {
      assert file[start..n][i] == r[..n - start][i];
    } else {
      assert file[n..n + |Padding(n)|][start + i - n] == Padding(n)[start + i - n];
    }
  }

  // A header torn at the end of a block is the first one of its record.
  lemma FirstHeader(crc: Crc, layout: Layout, rs: seq<seq<byte>>, n: nat, file0: seq<byte>)
    requires layout == FragmentLayout(crc) && file0 == Encode(layout, 0, rs) && n <= |file0|
    requires InHeader(layout, rs, n) && n % BLOCK_SIZE >= HEADER_SIZE
    ensures var t := TornRecord(layout, rs, n); t.begin && t.scratch == [] && t.at == WholeEnd(layout, rs, n)
  {
    var t := TornRecord(layout, rs, n);
    WholeParts(layout, rs, n, file0);
    TearPlace(WholeEnd(layout, rs, n), rs[|Whole(layout, rs, n)|], true, [], n);
    if t.at % BLOCK_SIZE == 0 {
      HeaderPlace(t.at, n);
    }
  }

  lemma HeaderPlace(pos: nat, n: nat)
    requires pos % BLOCK_SIZE == 0 && pos < n < pos + HEADER_SIZE
    ensures n % BLOCK_SIZE < HEADER_SIZE
  {
  }

  lemma AppendedPadding(crc: Crc, layout: Layout, n: nat, more: seq<seq<byte>>, front: seq<byte>)
    requires layout == FragmentLayout(crc) && more != [] && |front| == n
    ensures HasAt(front + Encode(layout, n, more), n, Padding(n))
  {
    var first, file := layout(n, more[0]), front + Encode(layout, n, more);
    PaddingFirst(crc, n, more[0], first);
    assert file[n..n + |Padding(n)|] == first[..|Padding(n)|];
  }

  // The reader goes on at the next block, where what is appended starts.
  lemma SkipsTo(crc: Crc, file: seq<byte>, pos: nat, n: nat)
    requires pos <= |file| && n <= |file| && NextStart(n) <= |file| && Parse(crc, file, pos) == Parsed(Bad, NextStart(n), 0)
    ensures Leads(crc, file, pos, false, [], n, false, [])
  {
    BadSkips(crc, file, pos, NextStart(n));
    assert NextStart(NextStart(n)) == NextStart(n);
    SameParse(crc, file, NextStart(n), n);
    LeadsOn(crc, file, pos, false, [], NextStart(n), false, [], n, false, []);
  }

  lemma BadSkips(crc: Crc, file: seq<byte>, pos: nat, next: nat)
    requires pos <= |file| && next <= |file| && Parse(crc, file, pos) == Parsed(Bad, next, 0)
    ensures Leads(crc, file, pos, false, [], next, false, [])
  {
  }

  lemma SameParse(crc: Crc, file: seq<byte>, pos: nat, n: nat)
    requires pos <= |file| && n <= |file| && NextStart(pos) == NextStart(n)
    ensures Leads(crc, file, pos, false, [], n, false, [])
  {
    assert Parse(crc, file, pos) == Parse(crc, file, n);
  }

  lemma SkippedRereads(crc: Crc, layout: Layout, rs: seq<seq<byte>>, n: nat, more: seq<seq<byte>>)
    requires layout == FragmentLayout(crc) && n <= |Encode(layout, 0, rs)| && Skipped(layout, rs, n) && more != []
    ensures Rereads(crc, layout, rs, n, more)
  {
    var file0, end, bytes := Encode(layout, 0, rs), WholeEnd(layout, rs, n), Encode(layout, n, more);
    var file := file0[..n] + bytes;
    ReadsToTorn(crc, layout, rs, n, file0, file);
    FirstHeader(crc, layout, rs, n, file0);
    AppendedPadding(crc, layout, n, more, file0[..n]);
    PaddedParse(crc, file, n, TornRecord(layout, rs, n));
    SkipsTo(crc, file, end, n);
    SameRereads(crc, layout, rs, n, more, file0, file);
  }

  // It is enough that the reader gets from the last whole record to what was appended.
  lemma SameRereads(crc: Crc, layout: Layout, rs: seq<seq<byte>>, n: nat, more: seq<seq<byte>>, file0: seq<byte>, file: seq<byte>)
    requires layout == FragmentLayout(crc) && file0 == Encode(layout, 0, rs) && n <= |file0| && file == file0[..n] + Encode(layout, n, more)
    requires WholeEnd(layout, rs, n) <= n && Leads(crc, file, WholeEnd(layout, rs, n), false, [], n, false, [])
    ensures Rereads(crc, layout, rs, n, more)
  {
    var whole, end := Whole(layout, rs, n), WholeEnd(layout, rs, n);
    WholeThen(crc, layout, rs, n, file0, file);
    AppendedAt(crc, layout, file, n, more, Encode(layout, n, more));
    SameReads(crc, file, end, n);
    ThenIs(crc, file, 0, whole, end);
    ThenIs(crc, file, n, more, |file|);
    assert ReadAll(crc, file, |file|) == ([], 0) && more + [] == more;
  }

  // ---- and when not -----------------------------------------------------

  // The next record read is not the one asked for, or something is reported; folded away.
  ghost predicate Rejected(crc: Crc, file: seq<byte>, pos: nat, inRecord: bool, scratch: seq<byte>, x: seq<byte>)
    requires pos <= |file|
  {
    forall g {:trigger Look(g)} :: Look(g) && g == file ==> Rejects(ReadFrom(crc, g, pos, inRecord, scratch), x)
  }

  predicate Rejects(r: ReadResult, x: seq<byte>) {
    r.record != Some(x) || r.drops > 0
  }

  lemma SameRejected(crc: Crc, file: seq<byte>, pos: nat, t: Tear, x: seq<byte>)
    requires pos <= |file| && t.at <= |file| && Rejected(crc, file, t.at, !t.begin, t.scratch, x)
    requires Leads(crc, file, pos, false, [], t.at, !t.begin, t.scratch)
    ensures Rejected(crc, file, pos, false, [], x)
  {
    assert Look(file);
  }

  // What may come of a torn payload with other bytes behind it, folded away.
  ghost predicate Outcome(crc: Crc, file: seq<byte>, t: Tear, end: nat)
    requires t.at <= |file|
  {
    forall g {:trigger Look(g)} :: Look(g) && g == file ==> ComesTo(Parse(crc, g, t.at), Kind(t), end)
  }

  predicate ComesTo(p: Parsed, kind: byte, end: nat) {
    || (p.result == Eof && p.drops == 0)
    || (p.result == Bad && p.drops == 1)
    || (p.result.Fragment? && p.result.kind == kind && p.result.data != [] && p.pos == end && p.drops == 0)
  }

  lemma PayloadOutcome(crc: Crc, file: seq<byte>, n: nat, t: Tear, end: nat)
    requires |t.data| <= Available(NextStart(t.at)) && HoldsTear(crc, file, n, t) && NextStart(t.at) + HEADER_SIZE <= n
    requires end == NextStart(t.at) + HEADER_SIZE + |t.data|
    ensures n < end && Outcome(crc, file, t, end)
  {
    PayloadParse(crc, file, n, t);
  }

  // A payload that fills its block was put together with other bytes: what follows is
  // the end of the file or a record that leaves it unfinished.
  lemma RejectsBehind(crc: Crc, file: seq<byte>, n: nat, end: nat, scratch: seq<byte>)
    requires n < end <= |file| == NextStart(n) + HEADER_SIZE && end % BLOCK_SIZE == 0 && scratch != []
    requires HasAt(file, NextStart(n), Record(crc, FULL, []))
    ensures Rejected(crc, file, end, true, scratch, [])
  {
    if NextStart(n) >= end {
      assert NextStart(n) == end;
      PhysicalAt(crc, file, |file|, end, FULL, []);
      assert file[..|file|] == file;
    }
  }

  ghost predicate RejectsUnfinished(crc: Crc, file: seq<byte>, end: nat)
    requires end <= |file|
  {
    forall scratch {:trigger Rejected(crc, file, end, true, scratch, [])} :: scratch != [] ==> Rejected(crc, file, end, true, scratch, [])
  }

  lemma FillsBlock(start: nat, n: nat)
    requires start % BLOCK_SIZE <= BLOCK_SIZE - HEADER_SIZE && n == Available(start)
    ensures (start + HEADER_SIZE + n) % BLOCK_SIZE == 0
  {
  }

  lemma UnfinishedRejected(crc: Crc, file: seq<byte>, n: nat, end: nat)
    requires n < end <= |file| == NextStart(n) + HEADER_SIZE && end % BLOCK_SIZE == 0
    requires HasAt(file, NextStart(n), Record(crc, FULL, []))
    ensures RejectsUnfinished(crc, file, end)
  {
    forall scratch | scratch != [] ensures Rejected(crc, file, end, true, scratch, []) {
      RejectsBehind(crc, file, n, end, scratch);
    }
  }

  lemma OutcomeRejects(crc: Crc, file: seq<byte>, t: Tear, end: nat)
    requires t.at <= |file| && Outcome(crc, file, t, end)
    requires !t.end && end <= |file| ==> RejectsUnfinished(crc, file, end)
    ensures Rejected(crc, file, t.at, !t.begin, t.scratch, [])
  {
    assert Look(file);
    var p := Parse(crc, file, t.at).result;
    if p.Fragment? && !t.end {
      var longer := if t.begin then p.data else t.scratch + p.data;
      assert Rejected(crc, file, end, true, longer, []);
    }
  }

  // Appending an empty record to a torn payload is never read back as that.
  lemma PayloadRejects(crc: Crc, file: seq<byte>, n: nat, t: Tear)
    requires |t.data| <= Available(NextStart(t.at)) && (!t.end ==> |t.data| == Available(NextStart(t.at)))
    requires HoldsTear(crc, file, n, t) && NextStart(t.at) + HEADER_SIZE <= n
    requires |file| == NextStart(n) + HEADER_SIZE && HasAt(file, NextStart(n), Record(crc, FULL, []))
    ensures Rejected(crc, file, t.at, !t.begin, t.scratch, [])
  {
    var end := NextStart(t.at) + HEADER_SIZE + |t.data|;
    PayloadOutcome(crc, file, n, t, end);
    if !t.end && end <= |file| {
      FillsBlock(NextStart(t.at), |t.data|);
      UnfinishedRejected(crc, file, n, end);
    }
    OutcomeRejects(crc, file, t, end);
  }

  // A whole record behind whole fragments of an unfinished one is read, with a report.
  lemma BoundaryRejects(crc: Crc, file: seq<byte>, t: Tear)
    requires !t.begin && t.scratch != [] && t.at % BLOCK_SIZE == 0 && HasAt(file, t.at, Record(crc, FULL, []))
    ensures Rejected(crc, file, t.at, !t.begin, t.scratch, [])
  {
    PhysicalAt(crc, file, |file|, t.at, FULL, []);
    assert file[..|file|] == file;
  }

  lemma OneEmptyRecord(crc: Crc, layout: Layout, n: nat)
    requires layout == FragmentLayout(crc)
    ensures Encode(layout, n, [[]]) == Padding(n) + Record(crc, FULL, [])
  {
    var f := layout(n, []);
    assert f == Fragments(crc, n, [], true) == Padding(n) + Record(crc, FULL, []);
    assert Encode(layout, n, [[]]) == f + Encode(layout, n + |f|, []) == f;
  }

  // Where a cut falls that is not clean and not inside a header.
  ghost predicate Torn(n: nat, t: Tear) {
    || NextStart(t.at) + HEADER_SIZE <= n
    || (!t.begin && t.scratch != [] && t.at % BLOCK_SIZE == 0 && t.at == n)
  }

  lemma TornPlace(crc: Crc, layout: Layout, rs: seq<seq<byte>>, n: nat, file0: seq<byte>)
    requires layout == FragmentLayout(crc) && file0 == Encode(layout, 0, rs) && n <= |file0|
    requires !Clean(layout, rs, n) && !InHeader(layout, rs, n)
    ensures |Whole(layout, rs, n)| < |rs|
    ensures Torn(n, TornRecord(layout, rs, n))
  {
    WholeParts(layout, rs, n, file0);
    ReadsToTorn(crc, layout, rs, n, file0, file0);
  }

  lemma TearRejects(crc: Crc, file: seq<byte>, n: nat, t: Tear)
    requires |t.data| <= Available(NextStart(t.at)) && (!t.end ==> |t.data| == Available(NextStart(t.at)))
    requires t.at <= n && HoldsTear(crc, file, n, t) && Torn(n, t)
    requires |file| == NextStart(n) + HEADER_SIZE && HasAt(file, NextStart(n), Record(crc, FULL, []))
    ensures Rejected(crc, file, t.at, !t.begin, t.scratch, [])
  {
    if NextStart(t.at) + HEADER_SIZE <= n {
      PayloadRejects(crc, file, n, t);
    } else {
      BoundaryRejects(crc, file, t);
    }
  }

  lemma EmptyAt(crc: Crc, file0: seq<byte>, n: nat, file: seq<byte>)
    requires n <= |file0| && file == file0[..n] + (Padding(n) + Record(crc, FULL, []))
    ensures SameUpTo(file0, file, n) && |file| == NextStart(n) + HEADER_SIZE && HasAt(file, NextStart(n), Record(crc, FULL, []))
  {
    var bytes := Padding(n) + Record(crc, FULL, []);
    assert file[n..n + |bytes|] == bytes;
    HasParts(file, n, Padding(n), Record(crc, FULL, []));
  }

  lemma TornRejects(crc: Crc, layout: Layout, rs: seq<seq<byte>>, n: nat, file0: seq<byte>, file: seq<byte>)
    requires layout == FragmentLayout(crc) && file0 == Encode(layout, 0, rs) && n <= |file0|
    requires !Clean(layout, rs, n) && !InHeader(layout, rs, n) && file == file0[..n] + (Padding(n) + Record(crc, FULL, []))
    ensures WholeEnd(layout, rs, n) <= n && Rejected(crc, file, WholeEnd(layout, rs, n), false, [], [])
  {
    TornPlace(crc, layout, rs, n, file0);
    EmptyAt(crc, file0, n, file);
    ReadsToTorn(crc, layout, rs, n, file0, file);
    var t := TornRecord(layout, rs, n);
    TearRejects(crc, file, n, t);
    SameRejected(crc, file, WholeEnd(layout, rs, n), t, []);
  }

  lemma RejectedAll(crc: Crc, file: seq<byte>, pos: nat, x: seq<byte>)
    requires pos <= |file| && Rejected(crc, file, pos, false, [], x)
    ensures ReadAll(crc, file, pos) != ([x], 0)
  {
    assert Look(file);
    match ReadFrom(crc, file, pos, false, [])
    case ReadResult(None, q, drops) =>
      ReadAllNone(crc, file, pos, q, drops);
    case ReadResult(Some(r), next, drops) =>
      ReadAllFirst(crc, file, pos, r, next, drops);
      ReadAllDrops(crc, file, pos, r, next, drops);
      assert ([r] + ReadAll(crc, file, next).0)[0] == r;
  }

  // Then the log does not read as the whole records before the cut and this one.
  lemma RejectedBehind(crc: Crc, layout: Layout, rs: seq<seq<byte>>, n: nat, x: seq<byte>)
    requires layout == FragmentLayout(crc) && n <= |Encode(layout, 0, rs)|
    requires var file := Appended(layout, rs, n, [x]);
             n <= |file| && WholeEnd(layout, rs, n) <= n && Rejected(crc, file, WholeEnd(layout, rs, n), false, [], x)
    ensures !Rereads(crc, layout, rs, n, [x])
  {
    var file0, end, whole := Encode(layout, 0, rs), WholeEnd(layout, rs, n), Whole(layout, rs, n);
    var file := Appended(layout, rs, n, [x]);
    assert SameUpTo(file0, file, n);
    WholeThen(crc, layout, rs, n, file0, file);
    ThenIs(crc, file, 0, whole, end);
    RejectedAll(crc, file, end, x);
    var rest := ReadAll(crc, file, end);
    if whole + rest.0 == whole + [x] {
      assert rest.0 == (whole + rest.0)[|whole|..] == (whole + [x])[|whole|..] == [x];
    }
  }

  lemma TornLoses(crc: Crc, layout: Layout, rs: seq<seq<byte>>, n: nat)
    requires layout == FragmentLayout(crc) && n <= |Encode(layout, 0, rs)| && !Clean(layout, rs, n) && !InHeader(layout, rs, n)
    ensures !Rereads(crc, layout, rs, n, [[]])
  {
    OneEmptyRecord(crc, layout, n);
    TornRejects(crc, layout, rs, n, Encode(layout, 0, rs), Appended(layout, rs, n, [[]]));
    RejectedBehind(crc, layout, rs, n, []);
  }

  // ---- A cut inside a header --------------------------------------------

  // Every record costs a header, and an unfinished one is only ever continued or reported.
  ghost predicate Costs(crc: Crc, file: seq<byte>, pos: nat, inRecord: bool, scratch: seq<byte>)
    requires pos <= |file|
  {
    forall x {:trigger Look(x)} :: Look(x) && x == file ==> Affordable(ReadFrom(crc, x, pos, inRecord, scratch), |x| - pos, inRecord, scratch)
  }

  predicate Affordable(r: ReadResult, bytes: nat, inRecord: bool, scratch: seq<byte>) {
    r.record.Some? ==>
      && |r.record.value| + HEADER_SIZE <= bytes + (if inRecord then |scratch| else 0)
      && (inRecord && scratch != [] && r.drops == 0 ==> scratch <= r.record.value)
  }

  lemma {:induction false} RecordCosts(crc: Crc, file: seq<byte>, pos: nat, inRecord: bool, scratch: seq<byte>)
    requires pos <= |file|
    ensures Costs(crc, file, pos, inRecord, scratch)
    decreases |file| - pos
  {
    var p := Parse(crc, file, pos);
    match Assemble(p.result, inRecord, scratch)
    case Return(record, drops) =>
    case Continue(in', scratch', drops) =>
      RecordCosts(crc, file, p.pos, in', scratch');
      assert Look(file);
  }

  // A record that is not a shifted copy of itself and does not start like the scratch.
  function Odd(scratch: seq<byte>): (x: seq<byte>)
    ensures |x| == 7
  {
    var a: byte := if scratch != [] && scratch[0] == 0 then 1 else 0;
    [a, a, a, a, a, a, 2]
  }

  lemma NotShifted(scratch: seq<byte>, file: seq<byte>, start: nat, n: nat)
    requires start < n < start + HEADER_SIZE && HasAt(file, n + HEADER_SIZE, Odd(scratch))
    ensures file[start + HEADER_SIZE..start + HEADER_SIZE + 7] != Odd(scratch)
  {
    var x, w := Odd(scratch), file[n + HEADER_SIZE..n + HEADER_SIZE + 7];
    assert w[6 - (n - start)] == file[start + HEADER_SIZE + 6];
  }

  // The physical record found where a header was torn.
  lemma HeaderParse(crc: Crc, file: seq<byte>, start: nat)
    requires start <= |file| && NextStart(start) == start && |file| <= BlockEnd(start)
    ensures var p := Parse(crc, file, start);
            || (p.result == Eof && p.drops == 0)
            || (p.result == Bad && p.pos == |file|)
            || (p.result.Fragment? && p.pos == start + HEADER_SIZE + |p.result.data| <= |file|
                && p.result.data == file[start + HEADER_SIZE..p.pos] && p.drops == 0)
  {
    var w := Window(file, start);
    assert w == file[start..];
  }

  lemma HeaderTurn(crc: Crc, file: seq<byte>, pos: nat, start: nat, inRecord: bool, scratch: seq<byte>, x: seq<byte>)
    requires pos <= start <= |file| <= start + 20 && |x| == 7 && (!inRecord ==> scratch == []) && (scratch != [] ==> scratch[0] != x[0])
    requires var p := Parse(crc, file, pos);
             || (p.result == Eof && p.drops == 0)
             || (p.result == Bad && p.pos == |file|)
             || (p.result.Fragment? && p.pos == start + HEADER_SIZE + |p.result.data| <= |file| && p.result.data != x && p.drops == 0)
    ensures Rejected(crc, file, pos, inRecord, scratch, x)
  {
    var p := Parse(crc, file, pos);
    match Assemble(p.result, inRecord, scratch)
    case Return(record, drops) =>
      assert scratch == [] && p.result.Fragment? ==> scratch + p.result.data == p.result.data;
    case Continue(in', scratch', drops) =>
      RecordCosts(crc, file, p.pos, in', scratch');
      assert Look(file);
  }

  lemma HeaderRejects(crc: Crc, file: seq<byte>, n: nat, t: Tear)
    requires var start := NextStart(t.at); start < n < start + HEADER_SIZE && (t.begin ==> t.scratch == [])
    requires t.at <= n && n % BLOCK_SIZE + 2 * HEADER_SIZE <= BLOCK_SIZE && |file| == n + 14 && HasAt(file, n + HEADER_SIZE, Odd(t.scratch))
    ensures Rejected(crc, file, t.at, !t.begin, t.scratch, Odd(t.scratch))
  {
    var start := NextStart(t.at);
    assert n / BLOCK_SIZE == start / BLOCK_SIZE;
    HeaderParse(crc, file, start);
    NotShifted(t.scratch, file, start, n);
    HeaderTurn(crc, file, t.at, start, !t.begin, t.scratch, Odd(t.scratch));
  }

  lemma OneShortRecord(crc: Crc, layout: Layout, n: nat, x: seq<byte>)
    requires layout == FragmentLayout(crc) && |x| == 7 && n % BLOCK_SIZE + 2 * HEADER_SIZE <= BLOCK_SIZE
    ensures Encode(layout, n, [x]) == Record(crc, FULL, x)
  {
    var f := layout(n, x);
    assert x[..7] == x;
    assert f == Fragments(crc, n, x, true) == Padding(n) + Record(crc, FULL, x) == Record(crc, FULL, x);
    assert Encode(layout, n, [x]) == f + Encode(layout, n + |f|, []) == f;
  }

  lemma RoomLoses(crc: Crc, layout: Layout, rs: seq<seq<byte>>, n: nat) returns (x: seq<byte>)
    requires layout == FragmentLayout(crc) && n <= |Encode(layout, 0, rs)| && InHeader(layout, rs, n)
    requires n % BLOCK_SIZE + 2 * HEADER_SIZE <= BLOCK_SIZE
    ensures !Rereads(crc, layout, rs, n, [x])
  {
    var t, file0 := TornRecord(layout, rs, n), Encode(layout, 0, rs);
    x := Odd(t.scratch);
    OneShortRecord(crc, layout, n, x);
    var file := Appended(layout, rs, n, [x]);
    assert file == file0[..n] + Record(crc, FULL, x) && Record(crc, FULL, x)[HEADER_SIZE..] == x;
    assert file[n + HEADER_SIZE..n + HEADER_SIZE + |x|] == x;
    ReadsToTorn(crc, layout, rs, n, file0, file);
    HeaderRejects(crc, file, n, t);
    SameRejected(crc, file, WholeEnd(layout, rs, n), t, x);
    RejectedBehind(crc, layout, rs, n, x);
  }


  // ---- A cut inside the last header of a block --------------------------

  // A turn that reports something gives no clean read.
  lemma TurnReports(crc: Crc, file: seq<byte>, pos: nat, inRecord: bool, scratch: seq<byte>, x: seq<byte>)
    requires pos <= |file| && var p := Parse(crc, file, pos); p.drops > 0 || Assemble(p.result, inRecord, scratch).drops > 0
    ensures Rejected(crc, file, pos, inRecord, scratch, x)
  {
  }

  // Padding completed the header with a length.
  lemma PaddedLoses(crc: Crc, layout: Layout, rs: seq<seq<byte>>, n: nat)
    requires layout == FragmentLayout(crc) && n <= |Encode(layout, 0, rs)| && InHeader(layout, rs, n) && AtBlockEnd(n) && !Skipped(layout, rs, n)
    ensures !Rereads(crc, layout, rs, n, [[]])
  {
    var t, file0, file := TornRecord(layout, rs, n), Encode(layout, 0, rs), Appended(layout, rs, n, [[]]);
    ReadsToTorn(crc, layout, rs, n, file0, file);
    AppendedPadding(crc, layout, n, [[]], file0[..n]);
    PaddedParse(crc, file, n, t);
    TurnReports(crc, file, t.at, !t.begin, t.scratch, []);
    SameRejected(crc, file, WholeEnd(layout, rs, n), t, []);
    RejectedBehind(crc, layout, rs, n, []);
  }

  // One more header fits into the block, and no third one from where the cut's starts.
  predicate LastHeader(n: nat) {
    !AtBlockEnd(n) && n % BLOCK_SIZE + 2 * HEADER_SIZE > BLOCK_SIZE
  }

  // What the reader takes from a place where a header fits.
  ghost predicate Takes(crc: Crc, file: seq<byte>, pos: nat, p: Parsed) {
    var end := Min(|file|, BlockEnd(pos));
    || (p.result == Eof && p.drops == 0 && |file| < BlockEnd(pos))
    || (p.result == Bad && p.pos == end)
    || (p.result.Fragment? && p.drops == 0 && p.pos == pos + HEADER_SIZE + |p.result.data| <= end
        && Checked(crc, file, pos, p.result.kind, p.result.data))
  }

  // The header at a position fits this kind and these bytes.
  ghost predicate Checked(crc: Crc, file: seq<byte>, pos: nat, kind: byte, data: seq<byte>) {
    pos + HEADER_SIZE <= |file| && file[pos + 6] == kind && Unmask(DecodeFixed32(file[pos..pos + 4])) == crc.value([kind] + data)
  }

  lemma ParseTakes(crc: Crc, file: seq<byte>, pos: nat)
    requires NextStart(pos) == pos && pos + HEADER_SIZE <= |file|
    ensures Takes(crc, file, pos, Parse(crc, file, pos))
  {
    var w := Window(file, pos);
    assert pos + HEADER_SIZE <= BlockEnd(pos);
    if HEADER_SIZE + Length(w) <= |w| {
      assert w[6..HEADER_SIZE + Length(w)] == [w[6]] + w[HEADER_SIZE..HEADER_SIZE + Length(w)];
      assert DecodeFixed32(w) == DecodeFixed32(file[pos..pos + 4]);
    }
  }

  // The one byte of a torn header that another header behind it can turn into the type,
  // with a checksum that matches: the torn byte itself decides.
  function TypeByte(crc: Crc, n: nat, t: Tear): byte
    requires |t.data| <= 0xffff && NextStart(t.at) < n < NextStart(t.at) + HEADER_SIZE
  {
    var k := n - NextStart(t.at);
    if k < 3 then 0 else Record(crc, Kind(t), t.data)[if k == 3 then 0 else 6 - k]
  }

  lemma TypeIsFixed(crc: Crc, file: seq<byte>, n: nat, t: Tear, kind: byte, data: seq<byte>)
    requires |t.data| <= 0xffff && NextStart(t.at) < n < NextStart(t.at) + HEADER_SIZE && HoldsTear(crc, file, n, t)
    requires 0 < |data| < 256 ==> n > NextStart(t.at) + 2
    requires |data| < 256 && HasAt(file, n, Record(crc, kind, data)) && Checked(crc, file, NextStart(t.at), kind, data)
    ensures kind == TypeByte(crc, n, t)
  {
    var start, r := NextStart(t.at), Record(crc, kind, data);
    var k, v := n - start, DecodeFixed32(file[start..start + 4]);
    MaskUnmask(v);
    Fixed32Unique(file[start..start + 4]);
    assert file[start..start + 4] == r[..4];
    HasByte(file, start, r[..4], if k == 3 then 3 else if k > 3 then 6 - k else 0);
    HasByte(file, start, r[..4], 0);
    HasByte(file, n, r, 6 - k);
    HasByte(file, n, r, 0);
    HasByte(file, start, Record(crc, Kind(t), t.data)[..k], if k <= 3 then 0 else 6 - k);
  }

  lemma HasByte(file: seq<byte>, pos: nat, bytes: seq<byte>, i: nat)
    requires HasAt(file, pos, bytes) && i < |bytes|
    ensures file[pos + i] == bytes[i]
  {
    assert file[pos..pos + |bytes|][i] == bytes[i];
  }

  // An empty record behind the torn header is read back only if it makes that header its own.
  lemma EmptyTurn(crc: Crc, file: seq<byte>, pos: nat, start: nat)
    requires pos <= start && start + HEADER_SIZE <= |file| < start + 2 * HEADER_SIZE
    requires var p := Parse(crc, file, pos);
             || (p.result == Eof && p.drops == 0)
             || (p.result == Bad && p.pos == |file|)
             || (p.result.Fragment? && p.pos == start + HEADER_SIZE + |p.result.data| && !(p.result.kind == FULL && p.result.data == []))
    ensures Rejected(crc, file, pos, false, [], [])
  {
    var p := Parse(crc, file, pos);
    match Assemble(p.result, false, [])
    case Return(record, drops) =>
    case Continue(in', scratch', drops) =>
      RecordCosts(crc, file, p.pos, in', scratch');
      assert Look(file);
  }

  lemma EmptyRejects(crc: Crc, file: seq<byte>, n: nat, t: Tear)
    requires t.begin && t.scratch == [] && t.at <= n && |t.data| <= 0xffff && HoldsTear(crc, file, n, t)
    requires NextStart(t.at) < n < NextStart(t.at) + HEADER_SIZE && LastHeader(n)
    requires |file| == n + HEADER_SIZE && HasAt(file, n, Record(crc, FULL, [])) && TypeByte(crc, n, t) != FULL
    ensures Rejected(crc, file, t.at, false, [], [])
  {
    var start := NextStart(t.at);
    SameBlock(start, n);
    ParseTakes(crc, file, start);
    var p := Parse(crc, file, t.at);
    assert p == Parse(crc, file, start);
    if p.result == Fragment(FULL, []) {
      TypeIsFixed(crc, file, n, t, FULL, []);
    }
    EmptyTurn(crc, file, t.at, start);
  }

  lemma SameBlock(start: nat, n: nat)
    requires start % BLOCK_SIZE <= BLOCK_SIZE - HEADER_SIZE && start < n < start + HEADER_SIZE && LastHeader(n)
    ensures NextStart(start) == start && NextStart(n) == n
    ensures BlockEnd(start) == n + HEADER_SIZE + Available(n) && BlockEnd(start) % BLOCK_SIZE == 0 && Available(n) < HEADER_SIZE
  {
  }

  // A long record behind the torn header ends in the next block; the reader gets there
  // with as many bytes as the record's first fragment has, or with another length.
  ghost predicate TooFew(pos: nat, end: nat, inRecord: bool, scratch: seq<byte>, first: nat) {
    && pos <= end && end % BLOCK_SIZE == 0 && (pos < end ==> BlockEnd(pos) == end)
    && (if inRecord then |scratch| != first else scratch == [])
    && (end - pos >= HEADER_SIZE ==> |scratch| + (end - pos) < first + HEADER_SIZE)
  }

  lemma NextBlock(pos: nat, end: nat, inRecord: bool, scratch: seq<byte>, first: nat)
    requires TooFew(pos, end, inRecord, scratch, first)
    ensures if end - pos < HEADER_SIZE then NextStart(pos) == end else NextStart(pos) == pos && BlockEnd(pos) == end
  {
  }

  // The last fragment follows in the next block.
  lemma EndsRecord(crc: Crc, file: seq<byte>, pos: nat, end: nat, inRecord: bool, scratch: seq<byte>, x: seq<byte>, first: nat)
    requires pos <= end <= |file| && NextStart(pos) == end && end % BLOCK_SIZE == 0 && first <= |x| <= first + 100
    requires HasAt(file, end, Record(crc, LAST, x[first..])) && (inRecord ==> scratch + x[first..] != x)
    ensures Rejected(crc, file, pos, inRecord, scratch, x)
  {
    PhysicalAt(crc, file, |file|, pos, LAST, x[first..]);
    assert file[..|file|] == file;
    if !inRecord {
      TurnReports(crc, file, pos, inRecord, scratch, x);
    }
  }

  lemma {:induction false} TooFewRejects(crc: Crc, file: seq<byte>, pos: nat, end: nat, inRecord: bool, scratch: seq<byte>, x: seq<byte>, first: nat)
    requires TooFew(pos, end, inRecord, scratch, first) && end <= |file| && first <= |x| <= first + 100
    requires HasAt(file, end, Record(crc, LAST, x[first..]))
    ensures Rejected(crc, file, pos, inRecord, scratch, x)
    decreases end - pos
  {
    NextBlock(pos, end, inRecord, scratch, first);
    if end - pos < HEADER_SIZE {
      EndsRecord(crc, file, pos, end, inRecord, scratch, x, first);
    } else {
      ParseTakes(crc, file, pos);
      var p := Parse(crc, file, pos);
      match Assemble(p.result, inRecord, scratch)
      case Return(record, drops) =>
        assert |record.value| < first;
      case Continue(in', scratch', drops) =>
        if p.drops + drops > 0 {
          TurnReports(crc, file, pos, inRecord, scratch, x);
        } else {
          TooFewRejects(crc, file, p.pos, end, in', scratch', x, first);
          assert Look(file);
        }
    }
  }

  lemma LongRejects(crc: Crc, file: seq<byte>, n: nat, t: Tear, x: seq<byte>)
    requires t.begin && t.scratch == [] && t.at <= n && |t.data| <= 0xffff && HoldsTear(crc, file, n, t)
    requires NextStart(t.at) + 2 < n < NextStart(t.at) + HEADER_SIZE && LastHeader(n) && |x| == Available(n) + 20
    requires var first := Available(n);
             && HasAt(file, n, Record(crc, FIRST, x[..first])) && HasAt(file, n + HEADER_SIZE + first, Record(crc, LAST, x[first..]))
    requires TypeByte(crc, n, t) != FIRST
    ensures Rejected(crc, file, t.at, false, [], x)
  {
    var start, first := NextStart(t.at), Available(n);
    var end := n + HEADER_SIZE + first;
    SameBlock(start, n);
    ParseTakes(crc, file, start);
    var p := Parse(crc, file, t.at);
    assert p == Parse(crc, file, start);
    if p.result == Fragment(FIRST, x[..first]) {
      TypeIsFixed(crc, file, n, t, FIRST, x[..first]);
    }
    LongTurn(crc, file, t.at, start, n, end, x, first);
  }

  lemma LongTurn(crc: Crc, file: seq<byte>, pos: nat, start: nat, n: nat, end: nat, x: seq<byte>, first: nat)
    requires pos <= start < n < start + HEADER_SIZE && end == n + HEADER_SIZE + first <= |file| && first < HEADER_SIZE
    requires end == BlockEnd(start) && end % BLOCK_SIZE == 0 && |x| == first + 20 && HasAt(file, end, Record(crc, LAST, x[first..]))
    requires Takes(crc, file, start, Parse(crc, file, pos)) && Parse(crc, file, pos).result != Fragment(FIRST, x[..first])
    ensures Rejected(crc, file, pos, false, [], x)
  {
    var p := Parse(crc, file, pos);
    match Assemble(p.result, false, [])
    case Return(record, drops) =>
      assert |record.value| < |x|;
    case Continue(in', scratch', drops) =>
      if p.drops + drops > 0 {
        TurnReports(crc, file, pos, false, [], x);
      } else {
        BehindFirst(crc, file, start, n, end, p.pos, in', scratch', x, first);
        assert Look(file);
      }
  }

  lemma BehindFirst(crc: Crc, file: seq<byte>, start: nat, n: nat, end: nat, pos: nat, inRecord: bool, scratch: seq<byte>, x: seq<byte>, first: nat)
    requires start < n < start + HEADER_SIZE && end == n + HEADER_SIZE + first <= |file| && first < HEADER_SIZE
    requires end == BlockEnd(start) && end % BLOCK_SIZE == 0 && |x| == first + 20 && HasAt(file, end, Record(crc, LAST, x[first..]))
    requires if inRecord then pos == start + HEADER_SIZE + |scratch| <= end && scratch != x[..first] else pos == end && scratch == []
    ensures Rejected(crc, file, pos, inRecord, scratch, x)
  {
    if inRecord && |scratch| == first {
      assert (scratch + x[first..])[..first] == scratch;
      EndsRecord(crc, file, pos, end, inRecord, scratch, x, first);
    } else {
      TooFewRejects(crc, file, pos, end, inRecord, scratch, x, first);
    }
  }

  lemma OneLongRecord(crc: Crc, layout: Layout, n: nat, x: seq<byte>)
    requires layout == FragmentLayout(crc) && LastHeader(n) && |x| == Available(n) + 20
    ensures var first := Available(n);
            Encode(layout, n, [x]) == Record(crc, FIRST, x[..first]) + Record(crc, LAST, x[first..])
  {
    var first, f := Available(n), layout(n, x);
    var end := n + HEADER_SIZE + first;
    assert NextStart(n) == n && end % BLOCK_SIZE == 0;
    assert x[first..][..20] == x[first..];
    assert Fragments(crc, end, x[first..], false) == Padding(end) + Record(crc, LAST, x[first..]) == Record(crc, LAST, x[first..]);
    assert f == Fragments(crc, n, x, true) == Padding(n) + Record(crc, FIRST, x[..first]) + Record(crc, LAST, x[first..]);
    assert Encode(layout, n, [x]) == f + Encode(layout, n + |f|, []) == f;
  }

  lemma LongAt(crc: Crc, n: nat, first: nat, x: seq<byte>, front: seq<byte>, file: seq<byte>)
    requires |front| == n && first <= 0xffff && first <= |x| <= first + 100 && file == front + (Record(crc, FIRST, x[..first]) + Record(crc, LAST, x[first..]))
    ensures HasAt(file, n, Record(crc, FIRST, x[..first])) && HasAt(file, n + HEADER_SIZE + first, Record(crc, LAST, x[first..]))
  {
    var a, b := Record(crc, FIRST, x[..first]), Record(crc, LAST, x[first..]);
    assert file[n..n + |a + b|] == a + b;
    HasParts(file, n, a, b);
  }

  // The empty record and a long one cannot both be read back.
  lemma LastHeaderLoses(crc: Crc, layout: Layout, rs: seq<seq<byte>>, n: nat) returns (x: seq<byte>)
    requires layout == FragmentLayout(crc) && n <= |Encode(layout, 0, rs)| && InHeader(layout, rs, n) && LastHeader(n)
    ensures !Rereads(crc, layout, rs, n, [x])
  {
    var t, file0 := TornRecord(layout, rs, n), Encode(layout, 0, rs);
    FirstHeader(crc, layout, rs, n, file0);
    x := if TypeByte(crc, n, t) != FULL then [] else seq(Available(n) + 20, i => 0);
    var file := Appended(layout, rs, n, [x]);
    ReadsToTorn(crc, layout, rs, n, file0, file);
    if TypeByte(crc, n, t) != FULL {
      OneEmptyRecord(crc, layout, n);
      EmptyAt(crc, file0, n, file);
      EmptyRejects(crc, file, n, t);
    } else {
      OneLongRecord(crc, layout, n, x);
      LongAt(crc, n, Available(n), x, file0[..n], file);
      LongRejects(crc, file, n, t, x);
    }
    SameRejected(crc, file, WholeEnd(layout, rs, n), t, x);
    RejectedBehind(crc, layout, rs, n, x);
  }

  // Behind a cut inside a header that will not be skipped, some record is never read back.
  lemma HeaderLoses(crc: Crc, layout: Layout, rs: seq<seq<byte>>, n: nat) returns (x: seq<byte>)
    requires layout == FragmentLayout(crc) && n <= |Encode(layout, 0, rs)| && InHeader(layout, rs, n) && !Skipped(layout, rs, n)
    ensures !Rereads(crc, layout, rs, n, [x])
  {
    if AtBlockEnd(n) {
      x := [];
      PaddedLoses(crc, layout, rs, n);
    } else if LastHeader(n) {
      x := LastHeaderLoses(crc, layout, rs, n);
    } else {
      x := RoomLoses(crc, layout, rs, n);
    }
  }

  // Whatever is appended to a cut-off log is read back, behind the whole records before
  // the cut and without a report, exactly when the cut is clean.
  lemma AppendableIffClean(crc: Crc, rs: seq<seq<byte>>, n: nat)
    requires n <= |LogFile(crc, rs)|
    ensures (forall more {:trigger Rereads(crc, FragmentLayout(crc), rs, n, more)} :: Rereads(crc, FragmentLayout(crc), rs, n, more))
            <==> Clean(FragmentLayout(crc), rs, n)
  {
    var layout := FragmentLayout(crc);
    if Clean(layout, rs, n) {
      forall more ensures Rereads(crc, layout, rs, n, more) {
        CleanRereads(crc, layout, rs, n, more);
      }
    } else if InHeader(layout, rs, n) {
      var x := HeaderLoses(crc, layout, rs, n);
    } else {
      TornLoses(crc, layout, rs, n);
    }
  }

  // Every clean cut will do, wherever it falls.
  lemma CleanRereads(crc: Crc, layout: Layout, rs: seq<seq<byte>>, n: nat, more: seq<seq<byte>>)
    requires layout == FragmentLayout(crc) && n <= |Encode(layout, 0, rs)| && Clean(layout, rs, n)
    ensures Rereads(crc, layout, rs, n, more)
  {
    if n <= NextStart(WholeEnd(layout, rs, n)) {
      PaddedRereads(crc, layout, rs, n, more);
    } else if !Skipped(layout, rs, n) {
      EmptyFirstRereads(crc, layout, rs, n, more);
    } else if more == [] {
      NothingAppended(crc, layout, rs, n);
    } else {
      SkippedRereads(crc, layout, rs, n, more);
    }
  }
}
