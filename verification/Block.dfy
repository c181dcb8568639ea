// Building a table block and moving about in one (table/block_builder.cc,
// table/block.cc).

module Block {
  import opened DbFormat
  import opened Coding
  import opened BlockFormat

  // The comparator the block is built and searched with.
  type Order = (seq<byte>, seq<byte>) -> bool

  ghost predicate StrictOrder(less: Order) {
    && (forall a, b, c {:trigger less(a, b), less(b, c)} :: less(a, b) && less(b, c) ==> less(a, c))
    && (forall a, b {:trigger less(a, b)} :: a != b ==> less(a, b) || less(b, a))
    && (forall a {:trigger less(a, a)} :: !less(a, a))
  }

  ghost predicate Ascending(entries: seq<KeyValue>, less: Order) {
    forall i, j {:trigger entries[i], entries[j]} :: 0 <= i < j < |entries| ==> less(entries[i].key, entries[j].key)
  }

  // ---- Building ---------------------------------------------------------

  function WithEntry(lay: Layout, e: KeyValue, shared: nat, size: nat, whole: bool): Layout
    requires lay.starts != []
  {
    Layout(lay.entries + [e], lay.starts + [size], lay.shared + [shared], if whole then lay.wholes + [|lay.entries|] else lay.wholes)
  }

  lemma EntryAdded(data: seq<byte>, offsets: seq<nat>, lay: Layout, e: KeyValue, shared: nat, whole: bool)
    requires LaidOut(data, offsets, lay)
    requires shared <= |KeyBefore(lay.entries, |lay.entries|)| && shared <= |e.key|
    requires KeyBefore(lay.entries, |lay.entries|)[..shared] == e.key[..shared]
    requires whole ==> shared == 0 && lay.entries != []
    requires |data + Record(shared, e.key[shared..], e.value)| < TWO_32
    ensures var data2 := data + Record(shared, e.key[shared..], e.value);
            LaidOut(data2, if whole then offsets + [|data|] else offsets, WithEntry(lay, e, shared, |data2|, whole))
  {
    var r := Record(shared, e.key[shared..], e.value);
    var data2 := data + r;
    var offsets2 := if whole then offsets + [|data|] else offsets;
    var lay2 := WithEntry(lay, e, shared, |data2|, whole);
    var n := |lay.entries|;
    forall i: nat | i <= n ensures EntryAt(data2, lay2, i) {
      if i < n {
        assert EntryAt(data, lay, i);
        assert data2[lay.starts[i]..lay.starts[i + 1]] == data[lay.starts[i]..lay.starts[i + 1]];
      } else {
        assert data2[|data|..|data2|] == r;
      }
    }
    forall j: nat | j < |offsets2| ensures RestartAt(offsets2, lay2, j) {
      assert j < |offsets| ==> RestartAt(offsets, lay, j);
    }
    forall j, k | 0 <= j < k < |offsets2| ensures lay2.wholes[j] < lay2.wholes[k] {
      assert j < |offsets| && RestartAt(offsets, lay, j);
      assert k < |offsets| ==> lay.wholes[j] < lay.wholes[k];
    }
  }

  lemma {:induction false} WholesSpread(data: seq<byte>, offsets: seq<nat>, lay: Layout, j: nat)
    requires LaidOut(data, offsets, lay) && j < |offsets|
    ensures lay.wholes[j] >= j
  {
    if j > 0 {
      WholesSpread(data, offsets, lay, j - 1);
      assert lay.wholes[j - 1] < lay.wholes[j];
    }
  }

  lemma {:induction false} StartsSpread(data: seq<byte>, offsets: seq<nat>, lay: Layout, i: nat)
    requires LaidOut(data, offsets, lay) && i <= |lay.entries|
    ensures lay.starts[i] >= i
  {
    if i > 0 {
      StartsSpread(data, offsets, lay, i - 1);
      assert EntryAt(data, lay, i - 1);
    }
  }

  // The restart array can be written.
  lemma RestartsFit(data: seq<byte>, offsets: seq<nat>, lay: Layout)
    requires LaidOut(data, offsets, lay)
    ensures |offsets| < TWO_32 && forall j :: 0 <= j < |offsets| ==> offsets[j] < TWO_32
  {
    var last := |offsets| - 1;
    WholesSpread(data, offsets, lay, last);
    assert RestartAt(offsets, lay, last);
    StartsSpread(data, offsets, lay, |lay.entries|);
    forall j | 0 <= j < |offsets| ensures offsets[j] < TWO_32 {
      assert RestartAt(offsets, lay, j);
      OffsetsCompare(data, offsets, lay, lay.wholes[j], |lay.entries|);
    }
  }

  lemma VarintShort(v: nat)
    requires v < TWO_32
    ensures |Varint(v)| <= 5
  {
    Pow2Values();
    VarintLength(v, 5);
  }

  lemma RecordShort(shared: nat, delta: seq<byte>, value: seq<byte>)
    requires shared < TWO_32 && |delta| < TWO_32 && |value| < TWO_32
    ensures |Record(shared, delta, value)| <= 15 + |delta| + |value|
  {
    VarintShort(shared);
    VarintShort(|delta|);
    VarintShort(|value|);
  }

  // The length of the common prefix.
  method SharedPrefix(a: seq<byte>, b: seq<byte>) returns (n: nat)
    ensures n <= |a| && n <= |b| && a[..n] == b[..n]
    ensures n < |a| && n < |b| ==> a[n] != b[n]
  {
    var minLength := if |a| < |b| then |a| else |b|;
    n := 0;
    while n < minLength && a[n] == b[n]
      invariant n <= minLength && a[..n] == b[..n]
    {
      assert a[..n + 1] == a[..n] + [a[n]] && b[..n + 1] == b[..n] + [b[n]];
      n := n + 1;
    }
  }

  predicate IsRestart(lay: Layout, i: nat) {
    exists j {:trigger lay.wholes[j]} :: 0 <= j < |lay.wholes| && lay.wholes[j] == i
  }

  // Entry i is stored whole at a restart, and otherwise without all it shares with the key before.
  predicate SharesAll(lay: Layout, i: nat)
    requires i < |lay.entries| && i < |lay.shared|
  {
    var before, key, n := KeyBefore(lay.entries, i), lay.entries[i].key, lay.shared[i];
    if IsRestart(lay, i) then n == 0 else n < |before| && n < |key| ==> before[n] != key[n]
  }

  // A restart every interval entries; counter entries since the last one.
  predicate Spaced(wholes: seq<nat>, n: nat, interval: nat, counter: nat) {
    && wholes != [] && wholes[0] == 0 && n == wholes[|wholes| - 1] + counter && counter <= interval
    && (forall j {:trigger wholes[j]} :: 0 < j < |wholes| ==> wholes[j - 1] + interval == wholes[j] < n)
  }

  ghost predicate AllShare(lay: Layout) {
    |lay.shared| == |lay.entries| && forall i: nat {:trigger SharesAll(lay, i)} :: i < |lay.entries| ==> SharesAll(lay, i)
  }

  // Restarts at even distances, and nothing shared stored twice between them; folded away, Look opens it.
  ghost predicate Compressed(lay: Layout, interval: nat, counter: nat) {
    forall x {:trigger Look(x)} :: Look(x) && x == lay ==> Spaced(x.wholes, |x.entries|, interval, counter) && AllShare(x)
  }

  ghost predicate Look(lay: Layout) {
    true
  }

  lemma CompressedIs(lay: Layout, interval: nat, counter: nat)
    ensures Compressed(lay, interval, counter) <==> Spaced(lay.wholes, |lay.entries|, interval, counter) && AllShare(lay)
  {
    assert Look(lay);
  }

  lemma NothingCompressed(interval: nat, lay: Layout)
    requires lay == Layout([], [0], [], [0])
    ensures Compressed(lay, interval, 0)
  {
  }

  lemma SpacedMore(wholes: seq<nat>, n: nat, interval: nat, counter: nat)
    requires Spaced(wholes, n, interval, counter) && interval >= 1
    ensures counter < interval ==> Spaced(wholes, n + 1, interval, counter + 1)
    ensures counter == interval ==> Spaced(wholes + [n], n + 1, interval, 1)
  {
  }

  // What the next entry shares with the last one: nothing at a restart, otherwise all it can.
  predicate SharesMost(before: seq<byte>, key: seq<byte>, shared: nat, whole: bool) {
    if whole then shared == 0
    else shared <= |before| && shared <= |key| && (shared < |before| && shared < |key| ==> before[shared] != key[shared])
  }

  lemma SharesMore(lay: Layout, e: KeyValue, shared: nat, size: nat, whole: bool)
    requires lay.starts != [] && lay.wholes != [] && lay.wholes[0] == 0 && AllShare(lay) && SharesMost(KeyBefore(lay.entries, |lay.entries|), e.key, shared, whole)
    requires forall j {:trigger lay.wholes[j]} :: 0 < j < |lay.wholes| ==> lay.wholes[j] < |lay.entries|
    requires lay.entries == [] ==> shared == 0
    ensures AllShare(WithEntry(lay, e, shared, size, whole))
  {
    var n, w := |lay.entries|, WithEntry(lay, e, shared, size, whole);
    forall i: nat | i < n + 1 ensures SharesAll(w, i) {
      assert KeyBefore(w.entries, i) == KeyBefore(lay.entries, i);
      if i < n {
        assert SharesAll(lay, i);
        RestartsStay(lay, e, shared, size, whole, i);
      } else if whole {
        assert w.wholes[|lay.wholes|] == n;
      }
    }
  }

  lemma RestartsStay(lay: Layout, e: KeyValue, shared: nat, size: nat, whole: bool, i: nat)
    requires lay.starts != [] && i < |lay.entries|
    ensures IsRestart(WithEntry(lay, e, shared, size, whole), i) <==> IsRestart(lay, i)
  {
    var w := WithEntry(lay, e, shared, size, whole);
    if IsRestart(lay, i) {
      var j :| 0 <= j < |lay.wholes| && lay.wholes[j] == i;
      assert w.wholes[j] == i;
    }
  }

  lemma CompressedMore(lay: Layout, interval: nat, counter: nat, e: KeyValue, shared: nat, size: nat)
    requires Compressed(lay, interval, counter) && interval >= 1 && lay.starts != []
    requires SharesMost(KeyBefore(lay.entries, |lay.entries|), e.key, shared, counter >= interval)
    ensures var whole := counter >= interval;
            Compressed(WithEntry(lay, e, shared, size, whole), interval, if whole then 1 else counter + 1)
  {
    var whole := counter >= interval;
    CompressedIs(lay, interval, counter);
    SpacedMore(lay.wholes, |lay.entries|, interval, counter);
    SharesMore(lay, e, shared, size, whole);
    CompressedIs(WithEntry(lay, e, shared, size, whole), interval, if whole then 1 else counter + 1);
  }

  lemma AscendingAppend(entries: seq<KeyValue>, e: KeyValue, less: Order)
    requires Ascending(entries, less) && StrictOrder(less) && (entries == [] || less(entries[|entries| - 1].key, e.key))
    ensures Ascending(entries + [e], less)
  {
    var r := entries + [e];
    forall i, j | 0 <= i < j < |r| ensures less(r[i].key, r[j].key) {
      if j == |entries| && i < j - 1 {
        assert less(entries[i].key, entries[j - 1].key);
      }
    }
  }

  // Everything the builder keeps is kept by an entry put in.
  lemma AddKeeps(data: seq<byte>, offsets: seq<nat>, lay: Layout, less: Order, interval: nat, counter: nat, e: KeyValue, shared: nat) returns (w: Layout, next: nat)
    requires LaidOut(data, offsets, lay) && Ascending(lay.entries, less) && StrictOrder(less)
    requires Compressed(lay, interval, counter) && interval >= 1 && (lay.entries == [] ==> counter == 0)
    requires data == [] || less(KeyBefore(lay.entries, |lay.entries|), e.key)
    requires shared <= |KeyBefore(lay.entries, |lay.entries|)| && shared <= |e.key|
    requires KeyBefore(lay.entries, |lay.entries|)[..shared] == e.key[..shared]
    requires SharesMost(KeyBefore(lay.entries, |lay.entries|), e.key, shared, counter >= interval)
    requires |data| + |e.key| + |e.value| + 15 < TWO_32
    ensures w == WithEntry(lay, e, shared, |data + Record(shared, e.key[shared..], e.value)|, counter >= interval)
    ensures next == if counter >= interval then 1 else counter + 1
    ensures LaidOut(data + Record(shared, e.key[shared..], e.value), if counter >= interval then offsets + [|data|] else offsets, w)
    ensures Ascending(w.entries, less) && Compressed(w, interval, next)
  {
    StartsSpread(data, offsets, lay, |lay.entries|);
    RecordShort(shared, e.key[shared..], e.value);
    EntryAdded(data, offsets, lay, e, shared, counter >= interval);
    AscendingAppend(lay.entries, e, less);
    CompressedMore(lay, interval, counter, e, shared, |data + Record(shared, e.key[shared..], e.value)|);
    w := WithEntry(lay, e, shared, |data + Record(shared, e.key[shared..], e.value)|, counter >= interval);
    next := if counter >= interval then 1 else counter + 1;
  }

  class BlockBuilder {
    const interval: nat
    const less: Order
    var buffer: seq<byte>
    var restarts: seq<nat>
    var counter: nat
    var lastKey: seq<byte>
    var finished: bool
    ghost var lay: Layout

    ghost predicate Valid()
      reads this
    {
      && interval >= 1 && !finished && counter <= interval
      && LaidOut(buffer, restarts, lay) && lastKey == KeyBefore(lay.entries, |lay.entries|)
      && (lay.entries == [] ==> counter == 0)
      && Ascending(lay.entries, less) && Compressed(lay, interval, counter)
    }

    constructor (interval: nat, less: Order)
      requires interval >= 1
      ensures Valid() && lay.entries == [] && this.less == less && buffer == []
    {
      this.interval, this.less := interval, less;
      buffer, restarts, counter, lastKey, finished := [], [0], 0, [], false;
      lay := Layout([], [0], [], [0]);
      new;
      assert RestartAt(restarts, lay, 0);
      NothingCompressed(interval, lay);
    }

    method Reset()
      requires interval >= 1
      modifies this
      ensures Valid() && lay.entries == [] && buffer == []
    {
      buffer, restarts, counter, lastKey, finished := [], [0], 0, [], false;
      lay := Layout([], [0], [], [0]);
      assert RestartAt(restarts, lay, 0);
      NothingCompressed(interval, lay);
    }

    function CurrentSizeEstimate(): nat
      reads this
    {
      |buffer| + 4 * |restarts| + 4
    }

    method Add(key: seq<byte>, value: seq<byte>)
      requires Valid() && StrictOrder(less) && (buffer == [] || less(lastKey, key))
      requires |buffer| + |key| + |value| + 15 < TWO_32
      modifies this
      ensures Valid() && lay.entries == old(lay.entries) + [KeyValue(key, value)]
    {
      var shared: nat := 0;
      ghost var offsets := restarts;
      if counter < interval {
        shared := SharedPrefix(lastKey, key);
      } else {
        restarts := restarts + [|buffer|];
        counter := 0;
      }
      var nonShared := |key| - shared;
      var a := EncodeVarint32(shared);
      var b := EncodeVarint32(nonShared);
      var c := EncodeVarint32(|value|);
      ghost var w, next := AddKeeps(buffer, offsets, lay, less, interval, old(counter), KeyValue(key, value), shared);
      ghost var data := buffer + Record(shared, key[shared..], value);
      buffer := buffer + (a + b + c + key[shared..] + value);
      lastKey := lastKey[..shared] + key[shared..];
      counter := counter + 1;
      lay := w;
      assert buffer == data && lastKey == key && counter == next;
    }

    // The block as written out.
    method Finish() returns (contents: seq<byte>)
      requires Valid()
      modifies this`buffer, this`finished
      ensures finished && contents == buffer && |contents| == old(CurrentSizeEstimate())
      ensures |restarts| < TWO_32 && (forall j :: 0 <= j < |restarts| ==> restarts[j] < TWO_32)
      ensures contents == Contents(old(buffer), restarts) && LaidOut(old(buffer), restarts, lay) && Compressed(lay, interval, counter)
    {
      RestartsFit(buffer, restarts, lay);
      ghost var data := buffer;
      var i := 0;
      while i < |restarts|
        invariant 0 <= i <= |restarts| && buffer == data + Trailer(restarts[..i]) && |buffer| == |data| + 4 * i
      {
        assert restarts[..i + 1][..i] == restarts[..i];
        buffer := buffer + EncodeFixed32(restarts[i]);
        i := i + 1;
      }
      assert restarts[..i] == restarts;
      buffer := buffer + EncodeFixed32(|restarts|);
      finished := true;
      contents := buffer;
    }
  }
}
