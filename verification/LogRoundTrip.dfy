// What the reader makes of a file the writer left behind, whole or cut off
// at any byte (db/log_writer.cc, db/log_reader.cc).

module LogRoundTrip {
  import opened DbFormat
  import opened Coding
  import opened Crc32c
  import opened LogFormat
  import opened LogReader

  // The file holds the bytes at a position.
  ghost predicate HasAt(file: seq<byte>, pos: nat, bytes: seq<byte>) {
    pos + |bytes| <= |file| && file[pos..pos + |bytes|] == bytes
  }

  lemma HasParts(file: seq<byte>, pos: nat, a: seq<byte>, b: seq<byte>)
    requires HasAt(file, pos, a + b)
    ensures HasAt(file, pos, a) && HasAt(file, pos + |a|, b)
  {
    var w := file[pos..pos + |a + b|];
    assert w[..|a|] == a && w[|a|..] == b;
  }

  // One physical record is read back if it is all there; otherwise the file
  // ends, and nothing is reported.
  lemma PhysicalAt(crc: Crc, file: seq<byte>, n: nat, pos: nat, kind: byte, data: seq<byte>)
    requires kind > 0 && |data| <= Available(NextStart(pos)) && pos <= n <= |file|
    requires HasAt(file, NextStart(pos), Record(crc, kind, data))
    ensures var end := NextStart(pos) + HEADER_SIZE + |data|;
            if end <= n then Parse(crc, file[..n], pos) == Parsed(Fragment(kind, data), end, 0)
            else Parse(crc, file[..n], pos).result == Eof && Parse(crc, file[..n], pos).drops == 0
  {
    var start := NextStart(pos);
    var end := start + HEADER_SIZE + |data|;
    assert end <= BlockEnd(start);
    if end <= n {
      var w := Window(file[..n], start);
      var rest := w[HEADER_SIZE + |data|..];
      assert w == Record(crc, kind, data) + rest;
      RecordParts(crc, kind, data, rest);
    } else if start + HEADER_SIZE <= n {
      CutPayload(crc, file, n, start, kind, data);
    }
  }

  lemma CutPayload(crc: Crc, file: seq<byte>, n: nat, start: nat, kind: byte, data: seq<byte>)
    requires |data| <= 0xffff && start + HEADER_SIZE <= n < start + HEADER_SIZE + |data| <= BlockEnd(start) && n <= |file|
    requires HasAt(file, start, Record(crc, kind, data))
    ensures ParseAt(crc, file[..n], start) == Parsed(Eof, n, 0)
  {
    var w, r := Window(file[..n], start), Record(crc, kind, data);
    RecordParts(crc, kind, data, []);
    assert r + [] == r;
    assert w == file[start..n] && file[start..start + |r|] == r;
    assert w[4] == r[4] && w[5] == r[5];
  }

  // f is a record's layout, folded away: the solver opens it only in Parts.
  ghost predicate Open(f: seq<byte>) {
    true
  }

  ghost predicate IsFragments(f: seq<byte>, crc: Crc, pos: nat, data: seq<byte>, begin: bool) {
    forall x {:trigger Open(x)} :: Open(x) && x == f ==> x == Fragments(crc, pos, data, begin)
  }

  // The first physical record of a layout and the layout of the rest.
  lemma Parts(crc: Crc, f: seq<byte>, pos: nat, data: seq<byte>, begin: bool, file: seq<byte>) returns (rest: seq<byte>)
    requires IsFragments(f, crc, pos, data, begin) && HasAt(file, pos, f)
    ensures var start := NextStart(pos);
            var n := FragmentLength(start, |data|);
            && HasAt(file, start, Record(crc, KindOf(begin, n == |data|), data[..n]))
            && |f| == start + HEADER_SIZE + n - pos + |rest|
            && (if n == |data| then rest == []
                else HasAt(file, start + HEADER_SIZE + n, rest) && IsFragments(rest, crc, start + HEADER_SIZE + n, data[n..], false))
  {
    assert Open(f);
    var start := NextStart(pos);
    var n := FragmentLength(start, |data|);
    var r := Record(crc, KindOf(begin, n == |data|), data[..n]);
    rest := [];
    if n == |data| {
      HasParts(file, pos, Padding(pos), r);
    } else {
      rest := Fragments(crc, start + HEADER_SIZE + n, data[n..], false);
      HasParts(file, pos, Padding(pos) + r, rest);
      HasParts(file, pos, Padding(pos), r);
    }
  }

  // What the reader does with a record whose layout ends at end.
  ghost predicate ReadsRecord(crc: Crc, file: seq<byte>, n: nat, pos: nat, inRecord: bool, scratch: seq<byte>, record: seq<byte>, end: nat)
    requires pos <= n <= |file|
  {
    var r := ReadFrom(crc, file[..n], pos, inRecord, scratch);
    if end <= n then r == ReadResult(Some(record), end, 0) else r.record == None && r.drops == 0
  }

  // A record is read back if its last byte is there; otherwise the file ends,
  // and nothing is reported.
  lemma {:induction false} RecordAt(crc: Crc, file: seq<byte>, n: nat, pos: nat, data: seq<byte>, begin: bool, scratch: seq<byte>, f: seq<byte>)
    requires IsFragments(f, crc, pos, data, begin) && HasAt(file, pos, f) && pos <= n <= |file| && (begin ==> scratch == [])
    ensures ReadsRecord(crc, file, n, pos, !begin, scratch, scratch + data, pos + |f|)
    decreases |data|, NoRoom(pos)
  {
    var start := NextStart(pos);
    var m := FragmentLength(start, |data|);
    var next := start + HEADER_SIZE + m;
    var rest := Parts(crc, f, pos, data, begin, file);
    PhysicalAt(crc, file, n, pos, KindOf(begin, m == |data|), data[..m]);
    NextBlockHasRoom(pos, |data|, m, next);
    if m < |data| && next <= n {
      var longer := scratch + data[..m];
      assert longer + data[m..] == scratch + data && (begin ==> longer == data[..m]);
      RecordAt(crc, file, n, next, data[m..], false, longer, rest);
      MoreFragments(crc, file, n, pos, next, begin, scratch, longer, data[..m], scratch + data, pos + |f|);
    } else if m < |data| {
      CutFragment(crc, file, n, pos, !begin, scratch, scratch + data, pos + |f|);
    } else {
      assert data[..m] == data;
      LastFragment(crc, file, n, pos, begin, scratch, data, pos + |f|);
    }
  }

  lemma LastFragment(crc: Crc, file: seq<byte>, n: nat, pos: nat, begin: bool, scratch: seq<byte>, data: seq<byte>, end: nat)
    requires pos <= n <= |file| && (begin ==> scratch == [])
    requires if end <= n then Parse(crc, file[..n], pos) == Parsed(Fragment(KindOf(begin, true), data), end, 0)
             else Parse(crc, file[..n], pos).result == Eof && Parse(crc, file[..n], pos).drops == 0
    ensures ReadsRecord(crc, file, n, pos, !begin, scratch, scratch + data, end)
  {
    assert begin ==> scratch + data == data;
  }

  lemma CutFragment(crc: Crc, file: seq<byte>, n: nat, pos: nat, inRecord: bool, scratch: seq<byte>, record: seq<byte>, end: nat)
    requires pos <= n <= |file| && n < end && Parse(crc, file[..n], pos).result == Eof && Parse(crc, file[..n], pos).drops == 0
    ensures ReadsRecord(crc, file, n, pos, inRecord, scratch, record, end)
  {
  }

  // A first or middle fragment only adds to the scratch.
  lemma MoreFragments(crc: Crc, file: seq<byte>, n: nat, pos: nat, next: nat, begin: bool, scratch: seq<byte>, longer: seq<byte>,
                      data: seq<byte>, record: seq<byte>, end: nat)
    requires pos <= n <= |file| && next <= n && (begin ==> scratch == [] && longer == data) && (!begin ==> longer == scratch + data)
    requires Parse(crc, file[..n], pos) == Parsed(Fragment(KindOf(begin, false), data), next, 0)
    requires ReadsRecord(crc, file, n, next, true, longer, record, end)
    ensures ReadsRecord(crc, file, n, pos, !begin, scratch, record, end)
  {
  }

  // The records whose last byte lies before the cut.
  function Complete(layout: Layout, pos: nat, records: seq<seq<byte>>, n: nat): seq<seq<byte>>
    decreases records
  {
    if records == [] then []
    else
      var end := pos + |layout(pos, records[0])|;
      if end <= n then [records[0]] + Complete(layout, end, records[1..], n) else []
  }

  // Each record the file holds is read back as far as it was not cut off.
  ghost predicate Readable(crc: Crc, layout: Layout, file: seq<byte>, n: nat)
    requires n <= |file|
  {
    forall pos: nat, data {:trigger layout(pos, data)} ::
      pos <= n && HasAt(file, pos, layout(pos, data)) ==> ReadsRecord(crc, file, n, pos, false, [], data, pos + |layout(pos, data)|)
  }

  lemma FragmentsReadable(crc: Crc, file: seq<byte>, n: nat)
    requires n <= |file|
    ensures Readable(crc, FragmentLayout(crc), file, n)
  {
    var layout := FragmentLayout(crc);
    forall pos: nat, data | pos <= n && HasAt(file, pos, layout(pos, data))
      ensures ReadsRecord(crc, file, n, pos, false, [], data, pos + |layout(pos, data)|)
    {
      assert layout(pos, data) == Fragments(crc, pos, data, true);
      RecordAt(crc, file, n, pos, data, true, [], layout(pos, data));
      assert [] + data == data;
    }
  }

  lemma {:induction false} LogAt(crc: Crc, layout: Layout, file: seq<byte>, n: nat, pos: nat, records: seq<seq<byte>>)
    requires pos <= n <= |file| && Readable(crc, layout, file, n)
    requires HasAt(file, pos, Encode(layout, pos, records)) && |file| == pos + |Encode(layout, pos, records)|
    ensures ReadAll(crc, file[..n], pos) == (Complete(layout, pos, records, n), 0)
    decreases records
  {
    if records == [] {
      assert Parse(crc, file[..n], pos) == Parsed(Eof, n, 0);
    } else {
      var first := layout(pos, records[0]);
      HasParts(file, pos, first, Encode(layout, pos + |first|, records[1..]));
      assert ReadsRecord(crc, file, n, pos, false, [], records[0], pos + |first|);
      if pos + |first| <= n {
        LogAt(crc, layout, file, n, pos + |first|, records[1..]);
      }
    }
  }

  // However a log is cut off, the reader returns exactly the records that are
  // complete, and reports no corruption.
  lemma CutLog(crc: Crc, records: seq<seq<byte>>, n: nat)
    requires n <= |LogFile(crc, records)|
    ensures ReadAll(crc, LogFile(crc, records)[..n], 0) == (Complete(FragmentLayout(crc), 0, records, n), 0)
  {
    CutAt(crc, LogFile(crc, records), FragmentLayout(crc), 0, records, n);
  }

  lemma CutAt(crc: Crc, file: seq<byte>, layout: Layout, pos: nat, records: seq<seq<byte>>, n: nat)
    requires layout == FragmentLayout(crc) && pos == 0 && file == Encode(layout, pos, records) && n <= |file|
    ensures ReadAll(crc, file[..n], pos) == (Complete(layout, pos, records, n), 0)
  {
    assert file[0..0 + |file|] == file;
    FragmentsReadable(crc, file, n);
    LogAt(crc, layout, file, n, pos, records);
  }

  // The complete records are the longest prefix whose encoding fits before the cut.
  lemma {:induction false} CompleteIsPrefix(layout: Layout, pos: nat, records: seq<seq<byte>>, n: nat)
    ensures var k := |Complete(layout, pos, records, n)|;
            && k <= |records| && Complete(layout, pos, records, n) == records[..k]
            && (k > 0 ==> pos + |Encode(layout, pos, records[..k])| <= n)
            && (k < |records| ==> n < pos + |Encode(layout, pos, records[..k + 1])|)
    decreases records
  {
    if records != [] {
      var first := layout(pos, records[0]);
      var end, k := pos + |first|, |Complete(layout, pos, records, n)|;
      EncodeFirst(layout, pos, records, 1);
      if end <= n {
        CompleteIsPrefix(layout, end, records[1..], n);
        EncodeFirst(layout, pos, records, k);
        if k < |records| {
          EncodeFirst(layout, pos, records, k + 1);
        }
      }
    }
  }

  lemma EncodeFirst(layout: Layout, pos: nat, records: seq<seq<byte>>, k: nat)
    requires 0 < k <= |records|
    ensures var first := layout(pos, records[0]);
            Encode(layout, pos, records[..k]) == first + Encode(layout, pos + |first|, records[1..][..k - 1])
  {
    assert records[..k][0] == records[0] && records[..k][1..] == records[1..][..k - 1];
  }

  // A whole log is read back record by record.
  lemma WholeLog(crc: Crc, records: seq<seq<byte>>)
    ensures ReadAll(crc, LogFile(crc, records), 0) == (records, 0)
  {
    WholeAt(crc, LogFile(crc, records), FragmentLayout(crc), 0, records);
  }

  lemma WholeAt(crc: Crc, file: seq<byte>, layout: Layout, pos: nat, records: seq<seq<byte>>)
    requires layout == FragmentLayout(crc) && pos == 0 && file == Encode(layout, pos, records)
    ensures ReadAll(crc, file, pos) == (records, 0)
  {
    var n := |file|;
    var cut := file[..n];
    CutAt(crc, file, layout, pos, records, n);
    assert cut == file;
    AllComplete(layout, pos, records);
  }

  lemma {:induction false} AllComplete(layout: Layout, pos: nat, records: seq<seq<byte>>)
    ensures Complete(layout, pos, records, pos + |Encode(layout, pos, records)|) == records
    decreases records
  {
    if records != [] {
      AllComplete(layout, pos + |layout(pos, records[0])|, records[1..]);
    }
  }
}
