// What the records a reader returns are made of, in a file of any bytes
// (db/log_reader.cc, ReadRecord, ReadPhysicalRecord).

module LogGroups {
  import opened DbFormat
  import opened Coding
  import opened Crc32c
  import opened LogFormat
  import opened LogReader

  // ---- Physical records -------------------------------------------------

  // The bytes of a physical record: all in one block, length and type in the header, and a
  // checksum over type and payload.
  ghost predicate Stands(crc: Crc, file: seq<byte>, start: nat, kind: byte, data: seq<byte>) {
    && start % BLOCK_SIZE <= BLOCK_SIZE - HEADER_SIZE
    && start + HEADER_SIZE + |data| <= |file| && start + HEADER_SIZE + |data| <= BlockEnd(start)
    && (file[start + 4] as nat) + 256 * (file[start + 5] as nat) == |data| && file[start + 6] == kind
    && file[start + HEADER_SIZE..start + HEADER_SIZE + |data|] == data
    && Unmask(DecodeFixed32(file[start..start + 4])) == crc.value([kind] + data)
  }

  lemma WindowSlice(file: seq<byte>, start: nat)
    requires start <= |file|
    ensures var w := Window(file, start); start + |w| == Min(|file|, BlockEnd(start)) && w == file[start..start + |w|]
  {
    assert start < BlockEnd(start);
  }

  lemma KindAndData(file: seq<byte>, start: nat, w: seq<byte>, n: nat)
    requires start + |w| <= |file| && HEADER_SIZE + n <= |w| && w == file[start..start + |w|]
    ensures w[6..HEADER_SIZE + n] == [w[6]] + w[HEADER_SIZE..HEADER_SIZE + n]
    ensures w[HEADER_SIZE..HEADER_SIZE + n] == file[start + HEADER_SIZE..start + HEADER_SIZE + n]
  {
    var a, b := w[HEADER_SIZE..HEADER_SIZE + n], file[start + HEADER_SIZE..start + HEADER_SIZE + n];
    assert |a| == |b|;
    forall i | 0 <= i < n ensures a[i] == b[i] {
      assert w[HEADER_SIZE + i] == file[start + HEADER_SIZE + i];
    }
  }

  lemma SameWord(file: seq<byte>, start: nat, w: seq<byte>)
    requires start + |w| <= |file| && |w| >= 4 && w == file[start..start + |w|]
    ensures DecodeFixed32(w) == DecodeFixed32(file[start..start + 4])
  {
    assert w[..4] == file[start..start + 4];
    assert forall i :: 0 <= i < 4 ==> w[i] == file[start..start + 4][i];
  }

  // A fragment is one of these, behind the trailer of its block, and the only reading of its bytes.
  lemma FragmentStands(crc: Crc, file: seq<byte>, pos: nat)
    requires pos <= |file| && Parse(crc, file, pos).result.Fragment?
    ensures var p := Parse(crc, file, pos);
            var kind, data := p.result.kind, p.result.data;
            && Stands(crc, file, NextStart(pos), kind, data) && !(kind == 0 && data == [])
            && p.pos == NextStart(pos) + HEADER_SIZE + |data| && p.drops == 0
  {
    var start := NextStart(pos);
    var w := Window(file, start);
    var n := Length(w);
    WindowSlice(file, start);
    SameWord(file, start, w);
    KindAndData(file, start, w, n);
  }

  // Every physical record that is there is read.
  lemma StandingIsRead(crc: Crc, file: seq<byte>, pos: nat, kind: byte, data: seq<byte>)
    requires pos <= |file| && Stands(crc, file, NextStart(pos), kind, data) && !(kind == 0 && data == [])
    ensures Parse(crc, file, pos) == Parsed(Fragment(kind, data), NextStart(pos) + HEADER_SIZE + |data|, 0)
  {
    var start := NextStart(pos);
    var w := Window(file, start);
    WindowSlice(file, start);
    SameWord(file, start, w);
    assert Length(w) == |data| && w[6] == kind;
    KindAndData(file, start, w, |data|);
  }

  predicate Zeroed(file: seq<byte>, start: nat) {
    start + HEADER_SIZE <= |file| && file[start + 4] == 0 && file[start + 5] == 0 && file[start + 6] == 0
  }

  // What is not such a record: the end of the file, or bytes for which the rest of the block is
  // thrown away, with a report unless type and length are zero.
  lemma OtherParse(crc: Crc, file: seq<byte>, pos: nat)
    requires pos <= |file| && !Parse(crc, file, pos).result.Fragment?
    ensures var p, start := Parse(crc, file, pos), NextStart(pos);
            if p.result.Bad? then
              && p.pos == Min(|file|, BlockEnd(start)) && start + HEADER_SIZE <= |file|
              && p.drops == (if Zeroed(file, start) then 0 else 1)
            else
              && p.drops == 0 && p.pos == |file| < BlockEnd(start)
              && (start + HEADER_SIZE <= |file| ==>
                    start + HEADER_SIZE + (file[start + 4] as nat) + 256 * (file[start + 5] as nat) > |file|)
  {
    var start := NextStart(pos);
    if start <= |file| {
      WindowSlice(file, start);
    }
    assert start + HEADER_SIZE <= BlockEnd(start);
  }

  // ---- Groups -----------------------------------------------------------

  // What the reader takes one after the other, from one position to another.
  ghost predicate Chain(crc: Crc, file: seq<byte>, at: nat, ps: seq<Parsed>, end: nat)
    decreases ps
  {
    if ps == [] then at == end else Taken(crc, file, at, ps[0]) && Chain(crc, file, ps[0].pos, ps[1..], end)
  }

  // The same as reading there, folded away; Sight opens it.
  ghost predicate Taken(crc: Crc, file: seq<byte>, at: nat, p: Parsed) {
    at <= |file| && forall x {:trigger Sight(x)} :: Sight(x) && x == file ==> at <= |x| && p == Parse(crc, x, at) && !p.result.Eof?
  }

  ghost predicate Sight(file: seq<byte>) {
    true
  }

  function Payload(p: Parsed): seq<byte> {
    if p.result.Fragment? then p.result.data else []
  }

  function Payloads(ps: seq<Parsed>): seq<byte> {
    if ps == [] then [] else Payloads(ps[..|ps| - 1]) + Payload(ps[|ps| - 1])
  }

  predicate IsKind(p: Parsed, kind: byte) {
    p.result.Fragment? && p.result.kind == kind
  }

  // FIRST, then only MIDDLE.
  ghost predicate IsFront(ps: seq<Parsed>) {
    ps != [] && IsKind(ps[0], FIRST) && forall i {:trigger ps[i]} :: 1 <= i < |ps| ==> IsKind(ps[i], MIDDLE)
  }

  // One FULL, or FIRST, MIDDLE as often as need be, and LAST.
  ghost predicate IsGroup(ps: seq<Parsed>) {
    || (|ps| == 1 && IsKind(ps[0], FULL))
    || (|ps| > 1 && IsFront(ps[..|ps| - 1]) && IsKind(ps[|ps| - 1], LAST))
  }

  // A zeroed rest of a block, or a piece of an unfinished record without any bytes.
  predicate Harmless(p: Parsed) {
    || (p.result == Bad && p.drops == 0)
    || ((IsKind(p, FIRST) || IsKind(p, MIDDLE)) && Payload(p) == [])
  }

  ghost predicate AllHarmless(ps: seq<Parsed>) {
    forall i {:trigger ps[i]} :: 0 <= i < |ps| ==> Harmless(ps[i])
  }

  lemma {:induction false} ChainJoin(crc: Crc, file: seq<byte>, at: nat, a: seq<Parsed>, mid: nat, b: seq<Parsed>, end: nat)
    requires Chain(crc, file, at, a, mid) && Chain(crc, file, mid, b, end)
    ensures Chain(crc, file, at, a + b, end)
    decreases a
  {
    if a == [] {
      assert a + b == b;
    } else {
      assert (a + b)[1..] == a[1..] + b;
      ChainJoin(crc, file, a[0].pos, a[1..], mid, b, end);
    }
  }

  lemma ChainOne(crc: Crc, file: seq<byte>, at: nat)
    requires at <= |file| && !Parse(crc, file, at).result.Eof?
    ensures Chain(crc, file, at, [Parse(crc, file, at)], Parse(crc, file, at).pos)
  {
    var p := Parse(crc, file, at);
    assert Taken(crc, file, at, p);
    assert [p][1..] == [] && Chain(crc, file, p.pos, [], p.pos);
  }

  lemma {:induction false} NothingIn(ps: seq<Parsed>)
    requires Payloads(ps) == []
    ensures forall i {:trigger ps[i]} :: 0 <= i < |ps| ==> Payload(ps[i]) == []
  {
    if ps != [] {
      var n := |ps| - 1;
      NothingIn(ps[..n]);
      forall i | 0 <= i < n ensures Payload(ps[i]) == [] {
        assert ps[..n][i] == ps[i];
      }
    }
  }

  lemma NoPayload(ps: seq<Parsed>)
    requires IsFront(ps) && Payloads(ps) == []
    ensures AllHarmless(ps)
  {
    NothingIn(ps);
    forall i | 0 <= i < |ps| ensures Harmless(ps[i]) {
      assert i > 0 ==> IsKind(ps[i], MIDDLE);
    }
  }

  lemma FrontGrows(ps: seq<Parsed>, p: Parsed)
    requires IsFront(ps)
    ensures IsKind(p, MIDDLE) ==> IsFront(ps + [p])
    ensures IsKind(p, LAST) ==> IsGroup(ps + [p])
    ensures Payloads(ps + [p]) == Payloads(ps) + Payload(p)
  {
    assert (ps + [p])[..|ps|] == ps;
  }

  // Where the reader stands: what it has passed, and the front of the record it is in.
  ghost predicate Standing(crc: Crc, file: seq<byte>, origin: nat, passed: seq<Parsed>, start: nat, front: seq<Parsed>, pos: nat,
                           inRecord: bool, scratch: seq<byte>, drops: nat) {
    && pos <= |file| && Chain(crc, file, origin, passed, start) && Chain(crc, file, start, front, pos)
    && (if inRecord then IsFront(front) && scratch == Payloads(front) else front == [] && scratch == [])
    && (drops == 0 ==> AllHarmless(passed))
  }

  // What it comes to.
  ghost predicate Ends(crc: Crc, file: seq<byte>, origin: nat, passed: seq<Parsed>, start: nat, group: seq<Parsed>, r: ReadResult) {
    && Chain(crc, file, origin, passed, start) && (r.drops == 0 ==> AllHarmless(passed))
    && match r.record
       case Some(record) => Chain(crc, file, start, group, r.pos) && IsGroup(group) && record == Payloads(group)
       case None => (group == [] || IsFront(group)) && exists e: nat {:trigger Chain(crc, file, start, group, e)} ::
                      Chain(crc, file, start, group, e) && e <= |file| && Parse(crc, file, e).result == Eof
  }

  lemma Abandon(crc: Crc, file: seq<byte>, origin: nat, passed: seq<Parsed>, start: nat, front: seq<Parsed>, pos: nat, scratch: seq<byte>,
                inRecord: bool, drops: nat, more: nat)
    requires Standing(crc, file, origin, passed, start, front, pos, inRecord, scratch, drops)
    requires inRecord && scratch != [] ==> more > 0
    ensures Standing(crc, file, origin, passed + front, pos, [], pos, false, [], drops + more)
  {
    ChainJoin(crc, file, origin, passed, start, front, pos);
    if drops + more == 0 && inRecord {
      NoPayload(front);
    }
  }

  // Passing over something that is not part of a record.
  lemma PassOver(crc: Crc, file: seq<byte>, origin: nat, passed: seq<Parsed>, pos: nat, drops: nat, more: nat)
    requires Standing(crc, file, origin, passed, pos, [], pos, false, [], drops)
    requires var p := Parse(crc, file, pos); !p.result.Eof? && (more == 0 ==> Harmless(p))
    ensures var p := Parse(crc, file, pos); Standing(crc, file, origin, passed + [p], p.pos, [], p.pos, false, [], drops + more)
  {
    ChainOne(crc, file, pos);
    ChainJoin(crc, file, origin, passed, pos, [Parse(crc, file, pos)], Parse(crc, file, pos).pos);
  }

  lemma TakeFirst(crc: Crc, file: seq<byte>, origin: nat, passed: seq<Parsed>, pos: nat, drops: nat)
    requires Standing(crc, file, origin, passed, pos, [], pos, false, [], drops) && IsKind(Parse(crc, file, pos), FIRST)
    ensures var p := Parse(crc, file, pos); Standing(crc, file, origin, passed, pos, [p], p.pos, true, p.result.data, drops)
  {
    var p := Parse(crc, file, pos);
    ChainOne(crc, file, pos);
    assert [p][..0] == [] && Payloads([p]) == [] + Payload(p) == p.result.data;
  }

  lemma TakeMiddle(crc: Crc, file: seq<byte>, origin: nat, passed: seq<Parsed>, start: nat, front: seq<Parsed>, pos: nat, scratch: seq<byte>, drops: nat)
    requires Standing(crc, file, origin, passed, start, front, pos, true, scratch, drops) && IsKind(Parse(crc, file, pos), MIDDLE)
    ensures var p := Parse(crc, file, pos); Standing(crc, file, origin, passed, start, front + [p], p.pos, true, scratch + p.result.data, drops)
  {
    ChainOne(crc, file, pos);
    ChainJoin(crc, file, start, front, pos, [Parse(crc, file, pos)], Parse(crc, file, pos).pos);
    FrontGrows(front, Parse(crc, file, pos));
  }

  lemma {:induction false} Assembled(crc: Crc, file: seq<byte>, origin: nat, passed: seq<Parsed>, start: nat, front: seq<Parsed>, pos: nat,
                                     inRecord: bool, scratch: seq<byte>, drops: nat)
      returns (passed': seq<Parsed>, start': nat, group: seq<Parsed>)
    requires Standing(crc, file, origin, passed, start, front, pos, inRecord, scratch, drops)
    ensures Ends(crc, file, origin, passed', start', group, Later(ReadFrom(crc, file, pos, inRecord, scratch), drops))
    decreases |file| - pos, 1
  {
    var p := Parse(crc, file, pos);
    if p.result == Eof {
      passed', start', group := passed, start, front;
      assert Chain(crc, file, start, front, pos);
    } else if IsKind(p, FULL) {
      Abandon(crc, file, origin, passed, start, front, pos, scratch, inRecord, drops, if inRecord && scratch != [] then 1 else 0);
      passed', start', group := passed + front, pos, [p];
      ChainOne(crc, file, pos);
      assert [p][..0] == [] && Payloads([p]) == [] + Payload(p) == p.result.data;
      FragmentStands(crc, file, pos);
    } else if IsKind(p, LAST) && inRecord {
      ChainOne(crc, file, pos);
      ChainJoin(crc, file, start, front, pos, [p], p.pos);
      FrontGrows(front, p);
      passed', start', group := passed, start, front + [p];
      FragmentStands(crc, file, pos);
    } else {
      passed', start', group := GoesOn(crc, file, origin, passed, start, front, pos, inRecord, scratch, drops);
    }
  }

  lemma GoesOn(crc: Crc, file: seq<byte>, origin: nat, passed: seq<Parsed>, start: nat, front: seq<Parsed>, pos: nat,
               inRecord: bool, scratch: seq<byte>, drops: nat)
      returns (passed': seq<Parsed>, start': nat, group: seq<Parsed>)
    requires Standing(crc, file, origin, passed, start, front, pos, inRecord, scratch, drops)
    requires var p := Parse(crc, file, pos); p.result != Eof && !IsKind(p, FULL) && !(IsKind(p, LAST) && inRecord)
    ensures Ends(crc, file, origin, passed', start', group, Later(ReadFrom(crc, file, pos, inRecord, scratch), drops))
    decreases |file| - pos, 0
  {
    var p := Parse(crc, file, pos);
    var turn := Assemble(p.result, inRecord, scratch);
    var total := drops + p.drops + turn.drops;
    if p.result.Fragment? {
      FragmentStands(crc, file, pos);
    }
    if IsKind(p, FIRST) {
      Abandon(crc, file, origin, passed, start, front, pos, scratch, inRecord, drops, turn.drops);
      TakeFirst(crc, file, origin, passed + front, pos, total);
      passed', start', group := Assembled(crc, file, origin, passed + front, pos, [p], p.pos, true, p.result.data, total);
    } else if IsKind(p, MIDDLE) && inRecord {
      TakeMiddle(crc, file, origin, passed, start, front, pos, scratch, drops);
      passed', start', group := Assembled(crc, file, origin, passed, start, front + [p], p.pos, true, scratch + p.result.data, total);
    } else {
      Abandon(crc, file, origin, passed, start, front, pos, scratch, inRecord, drops, turn.drops);
      PassOver(crc, file, origin, passed + front, pos, drops + turn.drops, p.drops + turn.drops);
      passed', start', group := Assembled(crc, file, origin, passed + front + [p], p.pos, [], p.pos, false, [], total);
    }
  }

  // Each record returned is the payload of one FULL physical record, or the payloads of
  // consecutive FIRST, MIDDLE and LAST ones and nothing else.  What was passed over before
  // it was reported, but for zeroed blocks and pieces without bytes; at the end of the
  // file an unfinished record may be left.
  lemma RecordIsGroup(crc: Crc, file: seq<byte>, pos: nat) returns (passed: seq<Parsed>, start: nat, group: seq<Parsed>)
    requires pos <= |file|
    ensures Ends(crc, file, pos, passed, start, group, ReadFrom(crc, file, pos, false, []))
  {
    passed, start, group := Assembled(crc, file, pos, [], pos, [], pos, false, [], 0);
  }
}
