// The layout of a table block: prefix-compressed entries, then the offsets of
// the entries stored whole (table/block_builder.cc, table/block.cc).

module BlockFormat {
  import opened DbFormat
  import opened Coding

  datatype KeyValue = KeyValue(key: seq<byte>, value: seq<byte>)

  // An entry: how much of the previous key it shares, the rest of the key, the value.
  function Record(shared: nat, delta: seq<byte>, value: seq<byte>): seq<byte> {
    Varint(shared) + Varint(|delta|) + Varint(|value|) + delta + value
  }

  datatype Header = Header(shared: nat, nonShared: nat, valueLength: nat, rest: seq<byte>)

  // Three varints, then at least as many bytes as the last two say (in 32 bits).
  function DecodeEntry(p: seq<byte>): Option<Header> {
    if |p| < 3 then None
    else
      var h := if p[0] < 128 && p[1] < 128 && p[2] < 128 then Some(Header(p[0], p[1], p[2], p[3..])) else DecodeSlowly(p);
      if h.Some? && |h.value.rest| >= (h.value.nonShared + h.value.valueLength) % TWO_32 then h else None
  }

  function DecodeSlowly(p: seq<byte>): Option<Header> {
    var a := GetVarint32(p);
    if a.None? then None
    else
      var b := GetVarint32(a.value.1);
      if b.None? then None
      else
        var c := GetVarint32(b.value.1);
        if c.None? then None else Some(Header(a.value.0, b.value.0, c.value.0, c.value.1))
  }

  lemma OneByte(p: seq<byte>)
    requires p != [] && p[0] < 128
    ensures GetVarint32(p) == Some((p[0] as nat, p[1..]))
  {
    assert Varint(p[0]) + p[1..] == p;
    Varint32RoundTrip(p[0], p[1..]);
  }

  // The one-byte fast path and the length test before it change nothing.
  lemma FastPathAgrees(p: seq<byte>)
    ensures DecodeEntry(p) ==
            var h := DecodeSlowly(p);
            if h.Some? && |h.value.rest| >= (h.value.nonShared + h.value.valueLength) % TWO_32 then h else None
  {
    var a := GetVarint32(p);
    if a.Some? {
      var b := GetVarint32(a.value.1);
      if b.Some? {
        var c := GetVarint32(b.value.1);
        assert c.Some? ==> |p| >= 3;
      }
    }
    if |p| >= 3 && p[0] < 128 && p[1] < 128 && p[2] < 128 {
      OneByte(p);
      OneByte(p[1..]);
      OneByte(p[2..]);
      assert p[1..][1..] == p[2..] && p[2..][1..] == p[3..];
    }
  }

  lemma ThreeVarints(a: nat, b: nat, c: nat, body: seq<byte>)
    requires a < TWO_32 && b < TWO_32 && c < TWO_32
    ensures DecodeSlowly(Varint(a) + (Varint(b) + (Varint(c) + body))) == Some(Header(a, b, c, body))
  {
    Varint32RoundTrip(a, Varint(b) + (Varint(c) + body));
    Varint32RoundTrip(b, Varint(c) + body);
    Varint32RoundTrip(c, body);
  }

  lemma Regroup(a: seq<byte>, b: seq<byte>, c: seq<byte>, d: seq<byte>, e: seq<byte>, rest: seq<byte>)
    ensures a + b + c + d + e + rest == a + (b + (c + (d + e + rest)))
  {
  }

  lemma DecodedSlowly(p: seq<byte>, h: Header)
    requires DecodeSlowly(p) == Some(h) && h.nonShared + h.valueLength < TWO_32 && |h.rest| >= h.nonShared + h.valueLength
    ensures DecodeEntry(p) == Some(h)
  {
    FastPathAgrees(p);
    Small(h.nonShared + h.valueLength, TWO_32);
  }

  lemma RecordRoundTrip(shared: nat, delta: seq<byte>, value: seq<byte>, rest: seq<byte>)
    requires shared < TWO_32 && |delta| + |value| < TWO_32
    ensures DecodeEntry(Record(shared, delta, value) + rest) == Some(Header(shared, |delta|, |value|, delta + value + rest))
  {
    var n, m: nat := |delta|, |value|;
    Regroup(Varint(shared), Varint(n), Varint(m), delta, value, rest);
    ThreeVarints(shared, n, m, delta + value + rest);
    DecodedSlowly(Record(shared, delta, value) + rest, Header(shared, n, m, delta + value + rest));
  }

  // ---- A block's data ---------------------------------------------------

  // What a block holds: entry i lies at starts[i]..starts[i+1] and shares
  // shared[i] bytes with the key before it; the entries named by wholes are
  // stored whole, and the restart array has their offsets.
  datatype Layout = Layout(entries: seq<KeyValue>, starts: seq<nat>, shared: seq<nat>, wholes: seq<nat>)

  function KeyBefore(entries: seq<KeyValue>, i: nat): seq<byte>
    requires i <= |entries|
  {
    if i == 0 then [] else entries[i - 1].key
  }

  // The part of a key the entry stores.
  function Delta(lay: Layout, i: nat): seq<byte>
    requires i < |lay.entries| && i < |lay.shared|
  {
    if lay.shared[i] <= |lay.entries[i].key| then lay.entries[i].key[lay.shared[i]..] else []
  }

  ghost predicate EntryAt(data: seq<byte>, lay: Layout, i: nat) {
    && i < |lay.entries| && i < |lay.shared| && i + 1 < |lay.starts|
    && lay.starts[i] < lay.starts[i + 1] <= |data|
    && lay.shared[i] <= |KeyBefore(lay.entries, i)| && lay.shared[i] <= |lay.entries[i].key|
    && KeyBefore(lay.entries, i)[..lay.shared[i]] == lay.entries[i].key[..lay.shared[i]]
    && data[lay.starts[i]..lay.starts[i + 1]] == Record(lay.shared[i], Delta(lay, i), lay.entries[i].value)
  }

  ghost predicate RestartAt(offsets: seq<nat>, lay: Layout, j: nat) {
    && j < |offsets| && j < |lay.wholes| && lay.wholes[j] < |lay.starts| && offsets[j] == lay.starts[lay.wholes[j]]
    && (j > 0 ==> lay.wholes[j] < |lay.entries|)
    && (lay.wholes[j] < |lay.shared| ==> lay.shared[lay.wholes[j]] == 0)
  }

  ghost predicate LaidOut(data: seq<byte>, offsets: seq<nat>, lay: Layout) {
    && |lay.starts| == |lay.entries| + 1 && |lay.shared| == |lay.entries|
    && lay.starts[0] == 0 && lay.starts[|lay.entries|] == |data| < TWO_32
    && (forall i: nat {:trigger EntryAt(data, lay, i)} :: i < |lay.entries| ==> EntryAt(data, lay, i))
    && |offsets| == |lay.wholes| > 0 && lay.wholes[0] == 0
    && (forall j: nat {:trigger RestartAt(offsets, lay, j)} :: j < |offsets| ==> RestartAt(offsets, lay, j))
    && (forall j, k {:trigger lay.wholes[j], lay.wholes[k]} :: 0 <= j < k < |offsets| ==> lay.wholes[j] < lay.wholes[k])
  }

  lemma {:induction false} StartsAscend(data: seq<byte>, offsets: seq<nat>, lay: Layout, i: nat, j: nat)
    requires LaidOut(data, offsets, lay) && i < j <= |lay.entries|
    ensures lay.starts[i] < lay.starts[j] <= |data|
  {
    assert EntryAt(data, lay, j - 1);
    if i < j - 1 {
      StartsAscend(data, offsets, lay, i, j - 1);
    }
  }

  // Offsets compare as the entries they belong to.
  lemma OffsetsCompare(data: seq<byte>, offsets: seq<nat>, lay: Layout, i: nat, j: nat)
    requires LaidOut(data, offsets, lay) && i <= |lay.entries| && j <= |lay.entries|
    ensures lay.starts[i] < lay.starts[j] <==> i < j
    ensures lay.starts[i] <= |data| && lay.starts[j] <= |data|
  {
    if i < j {
      StartsAscend(data, offsets, lay, i, j);
    } else if j < i {
      StartsAscend(data, offsets, lay, j, i);
    } else {
      if i < |lay.entries| {
        StartsAscend(data, offsets, lay, i, |lay.entries|);
      }
    }
  }

  // The bytes at an entry's offset decode to it.
  lemma EntryDecodes(data: seq<byte>, offsets: seq<nat>, lay: Layout, i: nat)
    requires LaidOut(data, offsets, lay) && i < |lay.entries|
    ensures var e := lay.entries[i];
            var delta := Delta(lay, i);
            && lay.starts[i] < lay.starts[i + 1] <= |data|
            && |delta| + |e.value| <= lay.starts[i + 1]
            && data[lay.starts[i + 1] - |e.value|..lay.starts[i + 1]] == e.value
            && DecodeEntry(data[lay.starts[i]..]) == Some(Header(lay.shared[i], |delta|, |e.value|, delta + e.value + data[lay.starts[i + 1]..]))
  {
    assert EntryAt(data, lay, i);
    StartsAscend(data, offsets, lay, i, |lay.entries|);
    var e, s, t := lay.entries[i], lay.starts[i], lay.starts[i + 1];
    var delta := Delta(lay, i);
    var r := Record(lay.shared[i], delta, e.value);
    assert r == data[s..t];
    assert data[s..] == r + data[t..];
    assert |r| == t - s;
    SharedSmall(data, offsets, lay, i);
    RecordRoundTrip(lay.shared[i], delta, e.value, data[t..]);
    assert data[t - |e.value|..t] == r[|r| - |e.value|..];
  }

  // No key shares 4 GB with the one before it: the whole of it is in the block.
  lemma {:induction false} KeyFits(data: seq<byte>, offsets: seq<nat>, lay: Layout, i: nat)
    requires LaidOut(data, offsets, lay) && i < |lay.entries|
    ensures |lay.entries[i].key| <= lay.starts[i + 1]
  {
    assert EntryAt(data, lay, i);
    if i > 0 {
      KeyFits(data, offsets, lay, i - 1);
    }
    assert |Record(lay.shared[i], Delta(lay, i), lay.entries[i].value)| == lay.starts[i + 1] - lay.starts[i];
  }

  lemma SharedSmall(data: seq<byte>, offsets: seq<nat>, lay: Layout, i: nat)
    requires LaidOut(data, offsets, lay) && i < |lay.entries|
    ensures lay.shared[i] < TWO_32
  {
    KeyFits(data, offsets, lay, i);
    assert EntryAt(data, lay, i);
  }

  // ---- The restart array ------------------------------------------------

  function Trailer(offsets: seq<nat>): (t: seq<byte>)
    requires forall i :: 0 <= i < |offsets| ==> offsets[i] < TWO_32
    ensures |t| == 4 * |offsets|
  {
    if offsets == [] then [] else Trailer(offsets[..|offsets| - 1]) + EncodeFixed32(offsets[|offsets| - 1])
  }

  lemma {:induction false} TrailerAt(offsets: seq<nat>, i: nat)
    requires (forall j :: 0 <= j < |offsets| ==> offsets[j] < TWO_32) && i < |offsets|
    ensures Trailer(offsets)[4 * i..4 * i + 4] == EncodeFixed32(offsets[i])
  {
    var n := |offsets| - 1;
    if i < n {
      TrailerAt(offsets[..n], i);
      assert Trailer(offsets)[4 * i..4 * i + 4] == Trailer(offsets[..n])[4 * i..4 * i + 4];
    }
  }

  // A finished block.
  function Contents(data: seq<byte>, offsets: seq<nat>): seq<byte>
    requires |offsets| < TWO_32 && forall i :: 0 <= i < |offsets| ==> offsets[i] < TWO_32
  {
    data + Trailer(offsets) + EncodeFixed32(|offsets|)
  }

  function NumRestarts(contents: seq<byte>): nat
    requires |contents| >= 4
  {
    DecodeFixed32(contents[|contents| - 4..])
  }

  // Where the restart array starts, if the block is long enough to have it.
  function RestartOffset(contents: seq<byte>): Option<nat> {
    if |contents| < 4 || NumRestarts(contents) > (|contents| - 4) / 4 then None
    else Some(|contents| - (1 + NumRestarts(contents)) * 4)
  }

  function RestartPoint(contents: seq<byte>, restarts: nat, index: nat): nat
    requires restarts + 4 * index + 4 <= |contents|
  {
    DecodeFixed32(contents[restarts + 4 * index..])
  }

  lemma ContentsOpen(data: seq<byte>, offsets: seq<nat>)
    requires |offsets| < TWO_32 && forall i :: 0 <= i < |offsets| ==> offsets[i] < TWO_32
    ensures var c := Contents(data, offsets);
            && |c| == |data| + 4 * |offsets| + 4 && NumRestarts(c) == |offsets| && RestartOffset(c) == Some(|data|)
            && c[..|data|] == data
            && forall i: nat {:trigger RestartPoint(c, |data|, i)} :: i < |offsets| ==> RestartPoint(c, |data|, i) == offsets[i]
  {
    var c := Contents(data, offsets);
    assert c[|c| - 4..] == EncodeFixed32(|offsets|) + [];
    Fixed32RoundTrip(|offsets|, []);
    forall i: nat | i < |offsets| ensures RestartPoint(c, |data|, i) == offsets[i] {
      TrailerAt(offsets, i);
      var at := |data| + 4 * i;
      assert c[at..at + 4] == Trailer(offsets)[4 * i..4 * i + 4];
      assert c[at..] == EncodeFixed32(offsets[i]) + c[at + 4..];
      Fixed32RoundTrip(offsets[i], c[at + 4..]);
    }
  }
}
