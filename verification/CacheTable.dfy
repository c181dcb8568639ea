// The chained hash table of the block cache (util/cache.cc, HandleTable).

module CacheTable {
  import opened DbFormat

  // The immutable part of a cache entry.
  datatype Info = Info(key: seq<byte>, hash: nat, charge: nat)

  function Target(chain: seq<nat>, i: nat): Option<nat>
    requires i <= |chain|
  {
    if i < |chain| then Some(chain[i]) else None
  }

  ghost predicate LinkHolds(nextHash: seq<Option<nat>>, chain: seq<nat>, i: nat)
    requires i < |chain|
  {
    chain[i] < |nextHash| && nextHash[chain[i]] == Target(chain, i + 1)
  }

  // The bucket's links run through the chain.
  ghost predicate Chained(head: Option<nat>, nextHash: seq<Option<nat>>, chain: seq<nat>) {
    head == Target(chain, 0) && forall i {:trigger LinkHolds(nextHash, chain, i)} :: 0 <= i < |chain| ==> LinkHolds(nextHash, chain, i)
  }

  ghost predicate SameKey(info: seq<Info>, m: nat, n: nat) {
    m < |info| && n < |info| && info[m].key == info[n].key
  }

  // Entries sit in the bucket of their hash, each key once.
  ghost predicate Placed(info: seq<Info>, buckets: nat, b: nat, chain: seq<nat>) {
    && buckets > 0
    && (forall i {:trigger chain[i]} :: 0 <= i < |chain| ==> chain[i] < |info| && info[chain[i]].hash % buckets == b)
    && (forall i, j {:trigger SameKey(info, chain[i], chain[j])} :: 0 <= i < j < |chain| ==> !SameKey(info, chain[i], chain[j]))
  }

  function Total(chains: seq<seq<nat>>): nat {
    if chains == [] then 0 else Total(chains[..|chains| - 1]) + |chains[|chains| - 1]|
  }

  // The number of buckets is a power of two, so the mask in the code is a remainder.
  predicate PowerOfTwo(n: nat) {
    n == 1 || (n > 1 && n % 2 == 0 && PowerOfTwo(n / 2))
  }

  ghost predicate TableOk(info: seq<Info>, buckets: seq<Option<nat>>, nextHash: seq<Option<nat>>, chains: seq<seq<nat>>) {
    && |buckets| == |chains| > 0 && |nextHash| == |info|
    && forall b {:trigger chains[b]} :: 0 <= b < |chains| ==> Chained(buckets[b], nextHash, chains[b]) && Placed(info, |chains|, b, chains[b])
  }

  // An entry is in the table.
  predicate InTable(info: seq<Info>, chains: seq<seq<nat>>, h: nat) {
    h < |info| && |chains| > 0 && h in chains[info[h].hash % |chains|]
  }

  // The table's answer for a key, if entries with equal keys have equal hashes.
  ghost predicate HashesAgree(info: seq<Info>) {
    forall m: nat, n: nat {:trigger SameKey(info, m, n)} :: SameKey(info, m, n) ==> info[m].hash == info[n].hash
  }

  ghost predicate AllPlaced(info: seq<Info>, chains: seq<seq<nat>>) {
    |chains| > 0 && forall b {:trigger chains[b]} :: 0 <= b < |chains| ==> Placed(info, |chains|, b, chains[b])
  }

  lemma OnePerKey(info: seq<Info>, chains: seq<seq<nat>>, m: nat, n: nat)
    requires AllPlaced(info, chains) && HashesAgree(info)
    requires InTable(info, chains, m) && InTable(info, chains, n) && info[m].key == info[n].key
    ensures m == n
  {
    assert SameKey(info, m, n);
    var chain := chains[info[m].hash % |chains|];
    var i :| 0 <= i < |chain| && chain[i] == m;
    var j :| 0 <= j < |chain| && chain[j] == n;
    assert SameKey(info, chain[i], chain[j]) && SameKey(info, chain[j], chain[i]);
  }

  // ---- Changing one slot ------------------------------------------------

  // *ptr: the bucket itself, or the link of an entry.
  datatype Slot = Bucket(b: nat) | NextOf(h: nat)

  function SlotAt(b: nat, chain: seq<nat>, i: nat): Slot
    requires i <= |chain|
  {
    if i == 0 then Bucket(b) else NextOf(chain[i - 1])
  }

  function SetBucket(buckets: seq<Option<nat>>, s: Slot, v: Option<nat>): seq<Option<nat>> {
    if s.Bucket? && s.b < |buckets| then buckets[s.b := v] else buckets
  }

  function SetNext(nextHash: seq<Option<nat>>, s: Slot, v: Option<nat>): seq<Option<nat>> {
    if s.NextOf? && s.h < |nextHash| then nextHash[s.h := v] else nextHash
  }

  // Nodes of one chain do not repeat and are in no other chain.
  lemma NodesApart(info: seq<Info>, buckets: nat, b: nat, chain: seq<nat>, i: nat, c: nat, other: seq<nat>, j: nat)
    requires Placed(info, buckets, b, chain) && Placed(info, buckets, c, other) && i < |chain| && j < |other|
    requires b != c || (chain == other && i != j)
    ensures chain[i] != other[j]
  {
    if b == c {
      assert if i < j then !SameKey(info, chain[i], chain[j]) else !SameKey(info, chain[j], chain[i]);
    }
  }

  // Changing the slot at place i of one chain leaves the other chains alone.
  lemma OtherChains(info: seq<Info>, buckets: seq<Option<nat>>, nextHash: seq<Option<nat>>, chains: seq<seq<nat>>, b: nat, i: nat, v: Option<nat>, c: nat)
    requires TableOk(info, buckets, nextHash, chains) && b < |chains| && i <= |chains[b]| && c < |chains| && c != b
    ensures Chained(SetBucket(buckets, SlotAt(b, chains[b], i), v)[c], SetNext(nextHash, SlotAt(b, chains[b], i), v), chains[c])
  {
    var s := SlotAt(b, chains[b], i);
    var w := SetNext(nextHash, s, v);
    var other := chains[c];
    assert Chained(buckets[c], nextHash, other);
    forall j | 0 <= j < |other| ensures LinkHolds(w, other, j) {
      assert LinkHolds(nextHash, other, j);
      if i > 0 {
        NodesApart(info, |chains|, b, chains[b], i - 1, c, other, j);
      }
    }
  }

  // Replacing the rest of a chain from place i on.
  lemma SpliceChain(info: seq<Info>, buckets: seq<Option<nat>>, nextHash: seq<Option<nat>>, chains: seq<seq<nat>>, b: nat, i: nat, rest: seq<nat>)
    requires TableOk(info, buckets, nextHash, chains) && b < |chains| && i <= |chains[b]|
    requires forall j {:trigger LinkHolds(nextHash, rest, j)} :: 0 <= j < |rest| ==> LinkHolds(nextHash, rest, j)
    requires i > 0 ==> chains[b][i - 1] !in rest
    ensures Chained(SetBucket(buckets, SlotAt(b, chains[b], i), Target(rest, 0))[b], SetNext(nextHash, SlotAt(b, chains[b], i), Target(rest, 0)), chains[b][..i] + rest)
  {
    var chain, s := chains[b], SlotAt(b, chains[b], i);
    var w, r := SetNext(nextHash, s, Target(rest, 0)), chains[b][..i] + rest;
    assert Chained(buckets[b], nextHash, chain);
    assert i > 0 ==> LinkHolds(nextHash, chain, i - 1) && LinkHolds(nextHash, chain, 0);
    forall j | 0 <= j < |r| ensures LinkHolds(w, r, j) {
      if j < i {
        assert LinkHolds(nextHash, chain, j);
        if j < i - 1 {
          NodesApart(info, |chains|, b, chain, i - 1, b, chain, j);
        }
      } else {
        assert LinkHolds(nextHash, rest, j - i) && rest[j - i] in rest;
      }
    }
  }

  // After a splice the table is in order again if the new chain is.
  lemma Spliced(info: seq<Info>, buckets: seq<Option<nat>>, nextHash: seq<Option<nat>>, chains: seq<seq<nat>>, b: nat, i: nat, rest: seq<nat>)
    requires TableOk(info, buckets, nextHash, chains) && b < |chains| && i <= |chains[b]|
    requires forall j {:trigger LinkHolds(nextHash, rest, j)} :: 0 <= j < |rest| ==> LinkHolds(nextHash, rest, j)
    requires i > 0 ==> chains[b][i - 1] !in rest
    requires Placed(info, |chains|, b, chains[b][..i] + rest)
    ensures TableOk(info, SetBucket(buckets, SlotAt(b, chains[b], i), Target(rest, 0)), SetNext(nextHash, SlotAt(b, chains[b], i), Target(rest, 0)),
                    chains[b := chains[b][..i] + rest])
  {
    SpliceChain(info, buckets, nextHash, chains, b, i, rest);
    forall c | 0 <= c < |chains| && c != b
      ensures Chained(SetBucket(buckets, SlotAt(b, chains[b], i), Target(rest, 0))[c], SetNext(nextHash, SlotAt(b, chains[b], i), Target(rest, 0)), chains[c])
      ensures Placed(info, |chains|, c, chains[c])
    {
      OtherChains(info, buckets, nextHash, chains, b, i, Target(rest, 0), c);
      assert Chained(buckets[c], nextHash, chains[c]);
    }
  }

  // Setting the link of an entry that is in no chain.
  lemma SetFree(info: seq<Info>, buckets: seq<Option<nat>>, nextHash: seq<Option<nat>>, chains: seq<seq<nat>>, h: nat, v: Option<nat>)
    requires TableOk(info, buckets, nextHash, chains) && h < |info| && !InTable(info, chains, h)
    ensures TableOk(info, buckets, nextHash[h := v], chains)
    ensures forall b {:trigger chains[b]} :: 0 <= b < |chains| ==> h !in chains[b]
  {
    forall b | 0 <= b < |chains| ensures h !in chains[b] && Chained(buckets[b], nextHash[h := v], chains[b]) {
      assert Chained(buckets[b], nextHash, chains[b]);
      forall j | 0 <= j < |chains[b]| ensures chains[b][j] != h && LinkHolds(nextHash[h := v], chains[b], j) {
        assert LinkHolds(nextHash, chains[b], j);
      }
    }
  }

  lemma {:induction false} TotalUpdate(chains: seq<seq<nat>>, b: nat, c: seq<nat>)
    requires b < |chains|
    ensures Total(chains[b := c]) == Total(chains) - |chains[b]| + |c|
    decreases chains
  {
    var n := |chains| - 1;
    if b < n {
      TotalUpdate(chains[..n], b, c);
      assert chains[b := c][..n] == chains[..n][b := c];
    } else {
      assert chains[b := c][..n] == chains[..n];
    }
  }

  lemma {:induction false} TotalEmpty(n: nat)
    ensures Total(seq<seq<nat>>(n, i => [])) == 0
  {
    if n > 0 {
      TotalEmpty(n - 1);
      var c: seq<seq<nat>> := seq(n, i => []);
      var d: seq<seq<nat>> := seq(n - 1, i => []);
      assert c[..n - 1] == d;
    }
  }

  // The tail of a chain keeps its links.
  lemma TailLinks(head: Option<nat>, nextHash: seq<Option<nat>>, chain: seq<nat>, i: nat)
    requires Chained(head, nextHash, chain) && i <= |chain|
    ensures forall j {:trigger LinkHolds(nextHash, chain[i..], j)} :: 0 <= j < |chain[i..]| ==> LinkHolds(nextHash, chain[i..], j)
  {
    forall j | 0 <= j < |chain[i..]| ensures LinkHolds(nextHash, chain[i..], j) {
      assert LinkHolds(nextHash, chain, i + j);
    }
  }

  lemma PlacedTail(info: seq<Info>, buckets: nat, b: nat, chain: seq<nat>, i: nat)
    requires Placed(info, buckets, b, chain) && i < |chain|
    ensures Placed(info, buckets, b, chain[..i] + chain[i + 1..])
    ensures forall n :: n in chain[..i] + chain[i + 1..] <==> n in chain && n != chain[i]
  {
    var r := chain[..i] + chain[i + 1..];
    forall j, k | 0 <= j < k < |r| ensures !SameKey(info, r[j], r[k]) {
      assert !SameKey(info, chain[if j < i then j else j + 1], chain[if k < i then k else k + 1]);
    }
    forall n | n in r ensures n in chain && n != chain[i] {
      var j :| 0 <= j < |r| && r[j] == n;
      NodesApart(info, buckets, b, chain, if j < i then j else j + 1, b, chain, i);
    }
    forall n | n in chain && n != chain[i] ensures n in r {
      var j :| 0 <= j < |chain| && chain[j] == n;
      assert r[if j < i then j else j - 1] == n;
    }
  }

  // The chain with h at place i, where the entry with its key was if there was one.
  function Replaced(chain: seq<nat>, i: nat, h: nat): seq<nat>
    requires i <= |chain|
  {
    chain[..i] + ([h] + chain[if i < |chain| then i + 1 else i..])
  }

  // Place i is the only one whose entry may have h's key.
  ghost predicate OnlyThere(info: seq<Info>, chain: seq<nat>, i: nat, h: nat) {
    h < |info| && forall j {:trigger chain[j]} :: 0 <= j < |chain| ==> chain[j] < |info| && (info[chain[j]].key == info[h].key <==> j == i)
  }

  lemma PlacedReplace(info: seq<Info>, buckets: nat, b: nat, chain: seq<nat>, i: nat, h: nat)
    requires Placed(info, buckets, b, chain) && i <= |chain| && OnlyThere(info, chain, i, h) && info[h].hash % buckets == b
    ensures Placed(info, buckets, b, Replaced(chain, i, h))
  {
    var r := Replaced(chain, i, h);
    forall j | 0 <= j < |r| && j != i ensures j < |chain| && r[j] == chain[j] {
    }
    forall j, k | 0 <= j < k < |r| ensures !SameKey(info, r[j], r[k]) {
      if j != i && k != i {
        assert !SameKey(info, chain[j], chain[k]);
      }
    }
  }

  lemma ReplacedHolds(info: seq<Info>, chain: seq<nat>, i: nat, h: nat, n: nat)
    requires i <= |chain| && OnlyThere(info, chain, i, h)
    ensures n in Replaced(chain, i, h) <==> n == h || (n in chain && n < |info| && info[n].key != info[h].key)
  {
    var r := Replaced(chain, i, h);
    assert r[i] == h;
    if n in chain {
      var j :| 0 <= j < |chain| && chain[j] == n;
      assert j != i ==> r[j] == n;
    }
    if n in r {
      var j :| 0 <= j < |r| && r[j] == n;
      assert j != i ==> n == chain[j];
    }
  }

  lemma InsertPlaced(info: seq<Info>, chains: seq<seq<nat>>, i: nat, h: nat)
    requires AllPlaced(info, chains) && HashesAgree(info) && h < |info| && !InTable(info, chains, h)
    requires i <= |chains[info[h].hash % |chains|]|
    requires var chain := chains[info[h].hash % |chains|];
             if i < |chain| then chain[i] < |info| && info[chain[i]].key == info[h].key
             else forall j {:trigger chain[j]} :: 0 <= j < i ==> chain[j] < |info| && (info[chain[j]].key != info[h].key || info[chain[j]].hash != info[h].hash)
    ensures var b := info[h].hash % |chains|;
            && (i > 0 ==> chains[b][i - 1] !in [h] + chains[b][if i < |chains[b]| then i + 1 else i..])
            && Placed(info, |chains|, b, Replaced(chains[b], i, h))
            && forall n: nat {:trigger InTable(info, chains[b := Replaced(chains[b], i, h)], n)} ::
                 InTable(info, chains[b := Replaced(chains[b], i, h)], n) <==> n == h || (InTable(info, chains, n) && info[n].key != info[h].key)
  {
    var b := info[h].hash % |chains|;
    var chain := chains[b];
    assert Placed(info, |chains|, b, chain);
    forall j | 0 <= j < |chain| ensures info[chain[j]].key == info[h].key <==> j == i {
      if i < |chain| && i != j {
        assert if i < j then !SameKey(info, chain[i], chain[j]) else !SameKey(info, chain[j], chain[i]);
      }
      assert info[chain[j]].key == info[h].key ==> SameKey(info, chain[j], h);
    }
    PlacedReplace(info, |chains|, b, chain, i, h);
    var rest := [h] + chain[if i < |chain| then i + 1 else i..];
    if i > 0 && chain[i - 1] in rest {
      var j :| 0 <= j < |rest| && rest[j] == chain[i - 1];
      NodesApart(info, |chains|, b, chain, i - 1, b, chain, if i < |chain| then i + j else i + j - 1);
    }
    forall n: nat
      ensures InTable(info, chains[b := Replaced(chain, i, h)], n) <==> n == h || (InTable(info, chains, n) && info[n].key != info[h].key)
    {
      ReplacedHolds(info, chain, i, h, n);
      if InTable(info, chains, n) && info[n].key == info[h].key {
        assert SameKey(info, n, h);
      }
    }
  }

  // The slot of place i now points to h, and h to what follows.
  lemma InsertSpliced(info: seq<Info>, buckets: seq<Option<nat>>, nextHash: seq<Option<nat>>, chains: seq<seq<nat>>, i: nat, h: nat)
    requires TableOk(info, buckets, nextHash, chains) && HashesAgree(info) && h < |info| && !InTable(info, chains, h)
    requires i <= |chains[info[h].hash % |chains|]|
    requires var chain := chains[info[h].hash % |chains|];
             if i < |chain| then chain[i] < |info| && info[chain[i]].key == info[h].key
             else forall j {:trigger chain[j]} :: 0 <= j < i ==> chain[j] < |info| && (info[chain[j]].key != info[h].key || info[chain[j]].hash != info[h].hash)
    ensures var b := info[h].hash % |chains|;
            var chain := chains[b];
            var after := if i < |chain| then nextHash[chain[i]] else None;
            var slot := SlotAt(b, chain, i);
            var chains2 := chains[b := Replaced(chain, i, h)];
            && TableOk(info, SetBucket(buckets, slot, Some(h)), SetNext(nextHash[h := after], slot, Some(h)), chains2)
            && Total(chains2) == Total(chains) + (if i < |chain| then 0 else 1)
            && forall n: nat {:trigger InTable(info, chains2, n)} ::
                 InTable(info, chains2, n) <==> n == h || (InTable(info, chains, n) && info[n].key != info[h].key)
  {
    var b := info[h].hash % |chains|;
    var chain := chains[b];
    var rest := chain[if i < |chain| then i + 1 else i..];
    assert Chained(buckets[b], nextHash, chain) && AllPlaced(info, chains);
    assert i < |chain| ==> LinkHolds(nextHash, chain, i);
    var after := if i < |chain| then nextHash[chain[i]] else None;
    SetFree(info, buckets, nextHash, chains, h, after);
    InsertPlaced(info, chains, i, h);
    var next2, rest2 := nextHash[h := after], [h] + rest;
    assert Chained(buckets[b], next2, chain);
    TailLinks(buckets[b], next2, chain, if i < |chain| then i + 1 else i);
    forall j | 0 <= j < |rest2| ensures LinkHolds(next2, rest2, j) {
      assert j > 0 ==> LinkHolds(next2, rest, j - 1);
    }
    Spliced(info, buckets, next2, chains, b, i, rest2);
    TotalUpdate(chains, b, Replaced(chain, i, h));
  }

  // The slot of place i now points past it.
  lemma RemoveSpliced(info: seq<Info>, buckets: seq<Option<nat>>, nextHash: seq<Option<nat>>, chains: seq<seq<nat>>, b: nat, i: nat)
    requires TableOk(info, buckets, nextHash, chains) && HashesAgree(info) && b < |chains| && i < |chains[b]| && chains[b][i] < |nextHash|
    ensures var h := chains[b][i];
            var slot := SlotAt(b, chains[b], i);
            var chains2 := chains[b := chains[b][..i] + chains[b][i + 1..]];
            && h < |info|
            && TableOk(info, SetBucket(buckets, slot, nextHash[h]), SetNext(nextHash, slot, nextHash[h]), chains2)
            && Total(chains2) == Total(chains) - 1
            && forall n: nat {:trigger InTable(info, chains2, n)} ::
                 InTable(info, chains2, n) <==> InTable(info, chains, n) && info[n].key != info[h].key
  {
    var chain := chains[b];
    assert Chained(buckets[b], nextHash, chain) && Placed(info, |chains|, b, chain) && AllPlaced(info, chains);
    assert LinkHolds(nextHash, chain, i);
    PlacedTail(info, |chains|, b, chain, i);
    TailLinks(buckets[b], nextHash, chain, i + 1);
    if i > 0 && chain[i - 1] in chain[i + 1..] {
      var j :| i + 1 <= j < |chain| && chain[j] == chain[i - 1];
      NodesApart(info, |chains|, b, chain, i - 1, b, chain, j);
    }
    Spliced(info, buckets, nextHash, chains, b, i, chain[i + 1..]);
    TotalUpdate(chains, b, chain[..i] + chain[i + 1..]);
    forall n: nat
      ensures InTable(info, chains[b := chain[..i] + chain[i + 1..]], n) <==> InTable(info, chains, n) && info[n].key != info[chain[i]].key
    {
      if InTable(info, chains, n) && info[n].key == info[chain[i]].key {
        assert InTable(info, chains, chain[i]);
        OnePerKey(info, chains, n, chain[i]);
      }
    }
  }

  // ---- Moving to a larger array of buckets ------------------------------

  // The part of the old array not moved yet: from place k of chain b on.
  ghost predicate RestChained(buckets: seq<Option<nat>>, nextHash: seq<Option<nat>>, chains: seq<seq<nat>>, b: nat, k: nat) {
    && |buckets| == |chains|
    && (forall c {:trigger chains[c]} :: b < c < |chains| ==> Chained(buckets[c], nextHash, chains[c]))
    && (b < |chains| ==> k <= |chains[b]|
                         && forall j {:trigger LinkHolds(nextHash, chains[b], j)} :: k <= j < |chains[b]| ==> LinkHolds(nextHash, chains[b], j))
  }

  predicate Moved(info: seq<Info>, chains: seq<seq<nat>>, b: nat, k: nat, n: nat) {
    && InTable(info, chains, n)
    && var c := info[n].hash % |chains|;
       c < b || (c == b && k <= |chains[b]| && n in chains[b][..k])
  }

  // Moving one entry does not disturb the part of the old array still to be moved.
  lemma RestKept(info: seq<Info>, buckets: seq<Option<nat>>, nextHash: seq<Option<nat>>, chains: seq<seq<nat>>, b: nat, k: nat, v: Option<nat>)
    requires AllPlaced(info, chains) && RestChained(buckets, nextHash, chains, b, k) && b < |chains| && k < |chains[b]|
    requires chains[b][k] < |nextHash|
    ensures RestChained(buckets, nextHash[chains[b][k] := v], chains, b, k + 1)
  {
    var next2 := nextHash[chains[b][k] := v];
    assert Placed(info, |chains|, b, chains[b]);
    forall d | b < d < |chains| ensures Chained(buckets[d], next2, chains[d]) {
      assert Chained(buckets[d], nextHash, chains[d]) && Placed(info, |chains|, d, chains[d]);
      forall j | 0 <= j < |chains[d]| ensures LinkHolds(next2, chains[d], j) {
        assert LinkHolds(nextHash, chains[d], j);
        NodesApart(info, |chains|, b, chains[b], k, d, chains[d], j);
      }
    }
    forall j | k + 1 <= j < |chains[b]| ensures LinkHolds(next2, chains[b], j) {
      assert LinkHolds(nextHash, chains[b], j);
      NodesApart(info, |chains|, b, chains[b], k, b, chains[b], j);
    }
  }

  lemma MovedNext(info: seq<Info>, chains: seq<seq<nat>>, b: nat, k: nat, n: nat)
    requires AllPlaced(info, chains) && b < |chains| && k < |chains[b]|
    ensures InTable(info, chains, chains[b][k]) && !Moved(info, chains, b, k, chains[b][k])
    ensures Moved(info, chains, b, k + 1, n) <==> Moved(info, chains, b, k, n) || n == chains[b][k]
  {
    var chain := chains[b];
    assert Placed(info, |chains|, b, chain);
    assert chain[..k + 1] == chain[..k] + [chain[k]];
    if chain[k] in chain[..k] {
      var j :| 0 <= j < k && chain[j] == chain[k];
      NodesApart(info, |chains|, b, chain, j, b, chain, k);
    }
  }

  lemma InPushed(info: seq<Info>, chains: seq<seq<nat>>, h: nat, n: nat)
    requires |chains| > 0 && h < |info|
    ensures var c := info[h].hash % |chains|; InTable(info, chains[c := [h] + chains[c]], n) <==> InTable(info, chains, n) || n == h
  {
  }

  // Everything up to place k of chain b has moved, the rest is still linked as it was.
  ghost predicate Moving(info: seq<Info>, buckets: seq<Option<nat>>, nextHash: seq<Option<nat>>, chains: seq<seq<nat>>, b: nat, k: nat,
                         buckets2: seq<Option<nat>>, chains2: seq<seq<nat>>) {
    && AllPlaced(info, chains) && RestChained(buckets, nextHash, chains, b, k)
    && TableOk(info, buckets2, nextHash, chains2)
    && (forall n: nat {:trigger InTable(info, chains2, n)} :: InTable(info, chains2, n) <==> Moved(info, chains, b, k, n))
    && b <= |chains| && Total(chains2) == Total(chains[..b]) + k
  }

  // Moving the entry at place k of chain b to the front of its new chain.
  lemma MoveOne(info: seq<Info>, buckets: seq<Option<nat>>, nextHash: seq<Option<nat>>, chains: seq<seq<nat>>, b: nat, k: nat,
                buckets2: seq<Option<nat>>, chains2: seq<seq<nat>>)
    requires HashesAgree(info) && Moving(info, buckets, nextHash, chains, b, k, buckets2, chains2) && b < |chains| && k < |chains[b]|
    ensures var h := chains[b][k];
            && h < |info| == |nextHash| && nextHash[h] == Target(chains[b], k + 1)
            && var c := info[h].hash % |buckets2|;
               Moving(info, buckets, nextHash[h := buckets2[c]], chains, b, k + 1, buckets2[c := Some(h)], chains2[c := [h] + chains2[c]])
  {
    var h := chains[b][k];
    assert Placed(info, |chains|, b, chains[b]) && LinkHolds(nextHash, chains[b], k);
    var c := info[h].hash % |buckets2|;
    var next2, c2 := nextHash[h := buckets2[c]], chains2[c := [h] + chains2[c]];
    RestKept(info, buckets, nextHash, chains, b, k, buckets2[c]);
    MovedNext(info, chains, b, k, h);
    assert !InTable(info, chains2, h);
    SetFree(info, buckets2, nextHash, chains2, h, buckets2[c]);
    forall n: nat | InTable(info, chains2, n) ensures info[n].key != info[h].key {
      if info[n].key == info[h].key {
        OnePerKey(info, chains, n, h);
      }
    }
    PushFront(info, buckets2, next2, chains2, h);
    TotalUpdate(chains2, c, [h] + chains2[c]);
    forall n: nat ensures InTable(info, c2, n) <==> Moved(info, chains, b, k + 1, n) {
      MovedNext(info, chains, b, k, n);
      InPushed(info, chains2, h, n);
    }
  }

  lemma MovingStarts(info: seq<Info>, buckets: seq<Option<nat>>, nextHash: seq<Option<nat>>, chains: seq<seq<nat>>, n: nat)
    requires TableOk(info, buckets, nextHash, chains) && n > 0
    ensures var none: seq<seq<nat>> := seq(n, i => []); Moving(info, buckets, nextHash, chains, 0, 0, seq(n, i => None), none)
  {
    TotalEmpty(n);
    assert forall b {:trigger chains[b]} :: 0 <= b < |chains| ==> Chained(buckets[b], nextHash, chains[b]);
    assert Chained(buckets[0], nextHash, chains[0]);
  }

  // A bucket is done: on to the next.
  lemma MovingNext(info: seq<Info>, buckets: seq<Option<nat>>, nextHash: seq<Option<nat>>, chains: seq<seq<nat>>, b: nat, k: nat,
                   buckets2: seq<Option<nat>>, chains2: seq<seq<nat>>)
    requires Moving(info, buckets, nextHash, chains, b, k, buckets2, chains2) && b < |chains| && k == |chains[b]|
    ensures Moving(info, buckets, nextHash, chains, b + 1, 0, buckets2, chains2)
    ensures b + 1 < |chains| ==> buckets[b + 1] == Target(chains[b + 1], 0)
  {
    TotalPrefix(chains, b);
    if b + 1 < |chains| {
      assert Chained(buckets[b + 1], nextHash, chains[b + 1]);
    }
    forall n: nat ensures Moved(info, chains, b, k, n) <==> Moved(info, chains, b + 1, 0, n) {
      assert chains[b][..k] == chains[b];
    }
  }

  // An entry that is in no chain and points to the front of its own goes before it.
  lemma PushFront(info: seq<Info>, buckets: seq<Option<nat>>, nextHash: seq<Option<nat>>, chains: seq<seq<nat>>, h: nat)
    requires TableOk(info, buckets, nextHash, chains) && h < |info|
    requires forall b {:trigger chains[b]} :: 0 <= b < |chains| ==> h !in chains[b]
    requires forall n: nat {:trigger InTable(info, chains, n)} :: InTable(info, chains, n) ==> info[n].key != info[h].key
    requires nextHash[h] == buckets[info[h].hash % |buckets|]
    ensures var c := info[h].hash % |buckets|; TableOk(info, buckets[c := Some(h)], nextHash, chains[c := [h] + chains[c]])
  {
    var c := info[h].hash % |buckets|;
    var chain := chains[c];
    var rest := [h] + chain;
    assert Chained(buckets[c], nextHash, chain) && Placed(info, |chains|, c, chain);
    forall j | 0 <= j < |rest| ensures LinkHolds(nextHash, rest, j) {
      assert j > 0 ==> LinkHolds(nextHash, chain, j - 1);
    }
    forall j | 0 <= j < |chain| ensures info[chain[j]].key != info[h].key {
      assert InTable(info, chains, chain[j]);
    }
    PlacedReplaceNew(info, |chains|, c, chain, h);
    Spliced(info, buckets, nextHash, chains, c, 0, rest);
    assert chain[..0] + rest == rest;
  }

  lemma PlacedReplaceNew(info: seq<Info>, buckets: nat, b: nat, chain: seq<nat>, h: nat)
    requires Placed(info, buckets, b, chain) && h < |info| && info[h].hash % buckets == b
    requires forall j {:trigger chain[j]} :: 0 <= j < |chain| ==> info[chain[j]].key != info[h].key
    ensures Placed(info, buckets, b, [h] + chain)
  {
    var r := [h] + chain;
    forall j, k | 0 <= j < k < |r| ensures !SameKey(info, r[j], r[k]) {
      assert r[k] == chain[k - 1];
      assert j > 0 ==> !SameKey(info, chain[j - 1], chain[k - 1]);
    }
  }

  // The last bucket moved: everything is in the new array.
  lemma {:induction false} TotalPrefix(chains: seq<seq<nat>>, b: nat)
    requires b < |chains|
    ensures Total(chains[..b + 1]) == Total(chains[..b]) + |chains[b]|
  {
    assert chains[..b + 1][..b] == chains[..b];
  }

  // ---- The table --------------------------------------------------------

  class HandleTable {
    var info: seq<Info>              // every entry ever allocated
    var nextHash: seq<Option<nat>>
    var buckets: seq<Option<nat>>
    var elems: nat
    ghost var chains: seq<seq<nat>>

    ghost predicate Linked()
      reads this
    {
      TableOk(info, buckets, nextHash, chains) && HashesAgree(info) && elems == Total(chains) && PowerOfTwo(|buckets|)
    }

    // At most one entry a bucket on average.
    ghost predicate Valid()
      reads this
    {
      Linked() && elems <= |buckets|
    }

    ghost predicate Has(h: nat)
      reads this
    {
      InTable(info, chains, h)
    }

    ghost predicate KnownHash(key: seq<byte>, hash: nat)
      reads this
    {
      forall n {:trigger info[n]} :: 0 <= n < |info| && info[n].key == key ==> info[n].hash == hash
    }

    constructor ()
      ensures Valid() && info == [] && forall h :: !Has(h)
    {
      info, nextHash, elems := [], [], 0;
      buckets, chains := seq(4, i => None), seq(4, i => []);
      TotalEmpty(4);
      assert PowerOfTwo(2);
    }

    // A new entry, not in the table yet.
    method Allocate(key: seq<byte>, hash: nat, charge: nat) returns (h: nat)
      requires Valid() && KnownHash(key, hash)
      modifies this`info, this`nextHash
      ensures Valid() && h == |old(info)| && info == old(info) + [Info(key, hash, charge)]
      ensures forall n :: Has(n) <==> old(Has(n))
    {
      h := |info|;
      ghost var info0, next0 := info, nextHash;
      info := info + [Info(key, hash, charge)];
      nextHash := nextHash + [None];
      forall b | 0 <= b < |chains| ensures Chained(buckets[b], nextHash, chains[b]) && Placed(info, |chains|, b, chains[b]) && h !in chains[b] {
        assert Chained(buckets[b], next0, chains[b]) && Placed(info0, |chains|, b, chains[b]);
        forall j | 0 <= j < |chains[b]| ensures LinkHolds(nextHash, chains[b], j) {
          assert LinkHolds(next0, chains[b], j);
        }
        forall i, j | 0 <= i < j < |chains[b]| ensures !SameKey(info, chains[b][i], chains[b][j]) {
          assert !SameKey(info0, chains[b][i], chains[b][j]);
        }
      }
      forall m: nat, n: nat | SameKey(info, m, n) ensures info[m].hash == info[n].hash {
        assert m < h && n < h ==> SameKey(info0, m, n);
      }
      forall n ensures Has(n) <==> InTable(info0, chains, n) {
      }
    }

    // Walk the chain of the key's bucket to the slot that holds it, or to its end.
    method FindPointer(key: seq<byte>, hash: nat) returns (slot: Slot, ghost i: nat)
      requires Valid()
      ensures var b := hash % |chains|;
              && i <= |chains[b]| && slot == SlotAt(b, chains[b], i)
              && (i < |chains[b]| ==> info[chains[b][i]].key == key && info[chains[b][i]].hash == hash)
              && (forall j {:trigger chains[b][j]} :: 0 <= j < i ==> info[chains[b][j]].key != key || info[chains[b][j]].hash != hash)
    {
      var b := hash % |buckets|;
      slot, i := Bucket(b), 0;
      ghost var chain := chains[b];
      assert Chained(buckets[b], nextHash, chain) && Placed(info, |chains|, b, chain);
      var cur := buckets[b];
      while cur.Some? && (info[cur.value].hash != hash || info[cur.value].key != key)
        invariant i <= |chain| && slot == SlotAt(b, chain, i) && cur == Target(chain, i)
        invariant forall j {:trigger chain[j]} :: 0 <= j < i ==> info[chain[j]].key != key || info[chain[j]].hash != hash
        decreases |chain| - i
      {
        assert LinkHolds(nextHash, chain, i);
        slot := NextOf(cur.value);
        cur := nextHash[cur.value];
        i := i + 1;
      }
    }

    // What a slot points to.
    function Get(slot: Slot): Option<nat>
      requires if slot.Bucket? then slot.b < |buckets| else slot.h < |nextHash|
      reads this
    {
      if slot.Bucket? then buckets[slot.b] else nextHash[slot.h]
    }

    lemma SlotHolds(b: nat, i: nat)
      requires Valid() && b < |chains| && i <= |chains[b]|
      ensures var slot := SlotAt(b, chains[b], i);
              && (if slot.Bucket? then slot.b < |buckets| else slot.h < |nextHash|)
              && Get(slot) == Target(chains[b], i)
    {
      assert Chained(buckets[b], nextHash, chains[b]);
      assert i > 0 ==> LinkHolds(nextHash, chains[b], i - 1);
    }

    // An entry with the key is where its hash says.
    lemma HasMeans(h: nat, key: seq<byte>, hash: nat)
      requires Valid() && Has(h) && info[h].key == key && info[h].hash == hash
      ensures h in chains[hash % |chains|]
    {
    }

    method Lookup(key: seq<byte>, hash: nat) returns (r: Option<nat>)
      requires Valid() && KnownHash(key, hash)
      ensures r.Some? ==> Has(r.value) && r.value < |info| && info[r.value].key == key
      ensures r.None? ==> forall h: nat :: Has(h) ==> info[h].key != key
    {
      var slot;
      ghost var i;
      slot, i := FindPointer(key, hash);
      ghost var b := hash % |chains|;
      SlotHolds(b, i);
      assert Placed(info, |chains|, b, chains[b]);
      r := Get(slot);
      if r.None? {
        forall h: nat | Has(h) ensures info[h].key != key {
          if info[h].key == key {
            HasMeans(h, key, hash);
          }
        }
      }
    }

    lemma HashKnown(h: nat)
      requires Valid() && h < |info|
      ensures KnownHash(info[h].key, info[h].hash)
    {
      forall n | 0 <= n < |info| && info[n].key == info[h].key ensures info[n].hash == info[h].hash {
        assert SameKey(info, n, h);
      }
    }

    // The place FindPointer stops at says which entry of the table has the key.
    lemma Answer(b: nat, i: nat, key: seq<byte>, hash: nat)
      requires Valid() && KnownHash(key, hash) && b == hash % |chains| && i <= |chains[b]|
      requires i < |chains[b]| ==> chains[b][i] < |info| && info[chains[b][i]].key == key
      requires forall j {:trigger chains[b][j]} :: 0 <= j < i ==> chains[b][j] < |info| && (info[chains[b][j]].key != key || info[chains[b][j]].hash != hash)
      ensures i < |chains[b]| ==> Has(chains[b][i])
      ensures i == |chains[b]| ==> forall n: nat :: Has(n) ==> info[n].key != key
    {
      assert Placed(info, |chains|, b, chains[b]);
      if i == |chains[b]| {
        forall n: nat | Has(n) ensures info[n].key != key {
          if info[n].key == key {
            HasMeans(n, key, hash);
          }
        }
      }
    }

    // *slot = v
    method Store(slot: Slot, v: Option<nat>)
      modifies this`buckets, this`nextHash
      ensures buckets == SetBucket(old(buckets), slot, v) && nextHash == SetNext(old(nextHash), slot, v)
    {
      match slot
      case Bucket(b) => if b < |buckets| { buckets := buckets[b := v]; }
      case NextOf(h) => if h < |nextHash| { nextHash := nextHash[h := v]; }
    }

    method Insert(h: nat) returns (r: Option<nat>)
      requires Valid() && h < |info| && !Has(h)
      modifies this`nextHash, this`buckets, this`elems, this`chains
      ensures Valid()
      ensures forall n: nat :: Has(n) <==> n == h || (old(Has(n)) && info[n].key != info[h].key)
      ensures r.Some? ==> old(Has(r.value)) && info[r.value].key == info[h].key
      ensures r.None? ==> forall n: nat :: old(Has(n)) ==> info[n].key != info[h].key
    {
      var slot;
      ghost var i;
      slot, i := FindPointer(info[h].key, info[h].hash);
      ghost var b := info[h].hash % |chains|;
      ghost var chain := chains[b];
      SlotHolds(b, i);
      assert Placed(info, |chains|, b, chain);
      r := Get(slot);
      HashKnown(h);
      InsertSpliced(info, buckets, nextHash, chains, i, h);
      Answer(b, i, info[h].key, info[h].hash);
      nextHash := nextHash[h := if r.None? then None else nextHash[r.value]];
      Store(slot, Some(h));
      chains := chains[b := Replaced(chain, i, h)];
      if r.None? {
        elems := elems + 1;
        if elems > |buckets| {
          Resize();
        }
      }
    }

    method Remove(key: seq<byte>, hash: nat) returns (r: Option<nat>)
      requires Valid() && KnownHash(key, hash)
      modifies this`nextHash, this`buckets, this`elems, this`chains
      ensures Valid()
      ensures forall n: nat :: Has(n) <==> old(Has(n)) && info[n].key != key
      ensures r.Some? ==> old(Has(r.value)) && info[r.value].key == key
      ensures r.None? ==> forall n: nat :: old(Has(n)) ==> info[n].key != key
    {
      var slot;
      ghost var i;
      slot, i := FindPointer(key, hash);
      ghost var b := hash % |chains|;
      ghost var chain := chains[b];
      SlotHolds(b, i);
      assert Placed(info, |chains|, b, chain);
      r := Get(slot);
      Answer(b, i, key, hash);
      if r.Some? {
        RemoveSpliced(info, buckets, nextHash, chains, b, i);
        Store(slot, nextHash[r.value]);
        chains := chains[b := chain[..i] + chain[i + 1..]];
        elems := elems - 1;
      }
    }

    method Resize()
      requires Linked()
      modifies this`nextHash, this`buckets, this`chains
      ensures Valid()
      ensures forall n: nat :: Has(n) <==> old(Has(n))
    {
      var newLength: nat := 4;
      assert PowerOfTwo(2);
      while newLength < elems
        invariant newLength >= 4 && PowerOfTwo(newLength)
        decreases elems - newLength
      {
        newLength := newLength * 2;
      }
      var newBuckets: seq<Option<nat>> := seq(newLength, i => None);
      ghost var newChains: seq<seq<nat>> := seq(newLength, i => []);
      ghost var was := chains;
      MovingStarts(info, buckets, nextHash, was, newLength);
      var i: nat := 0;
      assert buckets[0] == Target(was[0], 0) by {
        assert Chained(buckets[0], nextHash, was[0]);
      }
      while i < |buckets|
        invariant i <= |buckets| == |was| && |newBuckets| == newLength == |newChains| && |nextHash| == |info|
        invariant i < |was| ==> buckets[i] == Target(was[i], 0)
        invariant Moving(info, buckets, nextHash, was, i, 0, newBuckets, newChains)
      {
        var h := buckets[i];
        ghost var k: nat := 0;
        while h.Some?
          invariant k <= |was[i]| && h == Target(was[i], k) && |newBuckets| == newLength == |newChains| && |nextHash| == |info|
          invariant Moving(info, buckets, nextHash, was, i, k, newBuckets, newChains)
          decreases |was[i]| - k
        {
          MoveOne(info, buckets, nextHash, was, i, k, newBuckets, newChains);
          var next := nextHash[h.value];
          var slot := info[h.value].hash % newLength;
          nextHash := nextHash[h.value := newBuckets[slot]];
          newBuckets := newBuckets[slot := h];
          newChains := newChains[slot := [h.value] + newChains[slot]];
          h := next;
          k := k + 1;
        }
        MovingNext(info, buckets, nextHash, was, i, k, newBuckets, newChains);
        i := i + 1;
      }
      assert was[..i] == was;
      buckets, chains := newBuckets, newChains;
    }
  }
}
