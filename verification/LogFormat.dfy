// Physical records of a log file (db/log_format.h, db/log_writer.cc).

module LogFormat {
  import opened DbFormat
  import opened Coding
  import opened Crc32c

  const BLOCK_SIZE: nat := 32768
  const HEADER_SIZE: nat := 7

  const FULL: byte := 1
  const FIRST: byte := 2
  const MIDDLE: byte := 3
  const LAST: byte := 4

  // Masked checksum of the type and the payload, two bytes of length, the type.
  function Header(crc: Crc, kind: byte, data: seq<byte>): (s: seq<byte>)
    requires |data| <= 0xffff
    ensures |s| == HEADER_SIZE
  {
    EncodeFixed32(Mask(crc.value([kind] + data))) + [Low8(|data|), Low8(|data| / 256), kind]
  }

  function Record(crc: Crc, kind: byte, data: seq<byte>): (s: seq<byte>)
    requires |data| <= 0xffff
    ensures |s| == HEADER_SIZE + |data|
  {
    Header(crc, kind, data) + data
  }

  function Length(header: seq<byte>): nat
    requires |header| >= HEADER_SIZE
  {
    (header[4] as nat) + (header[5] as nat) * 256
  }

  predicate ChecksumMatches(crc: Crc, w: seq<byte>)
    requires |w| >= HEADER_SIZE && HEADER_SIZE + Length(w) <= |w|
  {
    Unmask(DecodeFixed32(w)) == crc.value(w[6..HEADER_SIZE + Length(w)])
  }

  // Reading back what was written.
  lemma RecordParts(crc: Crc, kind: byte, data: seq<byte>, rest: seq<byte>)
    requires |data| <= 0xffff
    ensures var w := Record(crc, kind, data) + rest;
            && |w| >= HEADER_SIZE + |data| && Length(w) == |data| && w[6] == kind
            && w[HEADER_SIZE..HEADER_SIZE + |data|] == data && ChecksumMatches(crc, w)
  {
    var w, sum := Record(crc, kind, data) + rest, Mask(crc.value([kind] + data));
    var tail := [Low8(|data|), Low8(|data| / 256), kind] + data + rest;
    assert w == EncodeFixed32(sum) + tail;
    assert w[4] == tail[0] && w[5] == tail[1] && w[6] == tail[2];
    Fixed32RoundTrip(sum, tail);
    UnmaskMask(crc.value([kind] + data));
    assert w[6..HEADER_SIZE + |data|] == [kind] + data;
  }

  function BlockEnd(pos: nat): nat {
    (pos / BLOCK_SIZE + 1) * BLOCK_SIZE
  }

  // Where the next physical record starts: no header fits into a short trailer.
  function NextStart(pos: nat): nat {
    if pos % BLOCK_SIZE > BLOCK_SIZE - HEADER_SIZE then BlockEnd(pos) else pos
  }

  function Padding(pos: nat): (s: seq<byte>)
    ensures |s| == NextStart(pos) - pos
  {
    seq(NextStart(pos) - pos, i => 0)
  }

  function KindOf(begin: bool, end: bool): byte {
    if begin && end then FULL else if begin then FIRST else if end then LAST else MIDDLE
  }

  function Available(start: nat): (n: nat)
    requires start % BLOCK_SIZE <= BLOCK_SIZE - HEADER_SIZE
    ensures n <= 0xffff
  {
    BLOCK_SIZE - start % BLOCK_SIZE - HEADER_SIZE
  }

  function FragmentLength(start: nat, left: nat): nat
    requires start % BLOCK_SIZE <= BLOCK_SIZE - HEADER_SIZE
  {
    if left < Available(start) then left else Available(start)
  }

  // No payload fits behind the next header.
  predicate NoRoom(pos: nat) {
    Available(NextStart(pos)) == 0
  }

  // An empty first fragment fills a block, so the next one is not empty.
  lemma NextBlockHasRoom(pos: nat, left: nat, n: nat, after: nat)
    requires n == FragmentLength(NextStart(pos), left) && after == NextStart(pos) + HEADER_SIZE + n
    ensures n == 0 && left > 0 ==> NoRoom(pos) && !NoRoom(after)
  {
  }

  // The bytes that hold a record written at a position of the file.
  function Fragments(crc: Crc, pos: nat, data: seq<byte>, begin: bool): seq<byte>
    decreases |data|, NoRoom(pos)
  {
    var start := NextStart(pos);
    var n := FragmentLength(start, |data|);
    var first := Padding(pos) + Record(crc, KindOf(begin, n == |data|), data[..n]);
    if n == |data| then first
    else first + Fragments(crc, start + HEADER_SIZE + n, data[n..], false)
  }

  // How a record is laid out at a position.
  type Layout = (nat, seq<byte>) -> seq<byte>

  function FragmentLayout(crc: Crc): Layout {
    (pos, data) => Fragments(crc, pos, data, true)
  }

  // A file of records, the first of them written at a position.
  function Encode(layout: Layout, pos: nat, records: seq<seq<byte>>): seq<byte>
    decreases records
  {
    if records == [] then []
    else layout(pos, records[0]) + Encode(layout, pos + |layout(pos, records[0])|, records[1..])
  }

  lemma {:induction false} EncodeSplit(layout: Layout, pos: nat, a: seq<seq<byte>>, b: seq<seq<byte>>)
    ensures Encode(layout, pos, a + b) == Encode(layout, pos, a) + Encode(layout, pos + |Encode(layout, pos, a)|, b)
    decreases a
  {
    if a == [] {
      assert a + b == b;
    } else {
      assert (a + b)[0] == a[0] && (a + b)[1..] == a[1..] + b;
      EncodeSplit(layout, pos + |layout(pos, a[0])|, a[1..], b);
    }
  }

  // The log file of some records.
  function LogFile(crc: Crc, records: seq<seq<byte>>): seq<byte> {
    Encode(FragmentLayout(crc), 0, records)
  }
}
