// The block cache itself (util/cache.cc, LRUCache): entries with reference
// counts, threaded on two circular lists and found through a hash table.

module Cache {
  import opened DbFormat
  import opened CacheTable
  import opened Rings
  import opened CacheSpec

  // Link nodes: the two dummy heads, then one for every entry.
  const LRU := 0
  const IN_USE := 1

  function Nodes(order: seq<nat>): seq<nat> {
    seq(|order|, i requires 0 <= i < |order| => order[i] + 2)
  }

  ghost predicate Links(next: seq<nat>, prev: seq<nat>, lru: seq<nat>, inUse: seq<nat>, n: nat) {
    && |next| == |prev| == n + 2
    && Ring(next, prev, LRU, Nodes(lru)) && Ring(next, prev, IN_USE, Nodes(inUse))
    && (forall e {:trigger e in lru} :: e in lru ==> e < n && e !in inUse)
    && (forall e {:trigger e in inUse} :: e in inUse ==> e < n)
  }

  lemma NodesHold(order: seq<nat>)
    ensures forall e: nat {:trigger e in order} :: e in order <==> e + 2 in Nodes(order)
    ensures forall x: nat {:trigger x in Nodes(order)} :: x in Nodes(order) ==> x >= 2 && x - 2 in order
    ensures NoRepeats(order) <==> NoRepeats(Nodes(order))
  {
    forall e: nat ensures e in order <==> e + 2 in Nodes(order) {
      if e in order {
        var i :| 0 <= i < |order| && order[i] == e;
        assert Nodes(order)[i] == e + 2;
      }
    }
    if NoRepeats(order) {
      forall i: nat, j: nat | i < j < |order| ensures Apart(Nodes(order), i, j) {
        assert Apart(order, i, j);
      }
    }
    if NoRepeats(Nodes(order)) {
      forall i: nat, j: nat | i < j < |order| ensures Apart(order, i, j) {
        assert Apart(Nodes(order), i, j);
      }
    }
  }

  // The neighbours of a node of a ring belong to the ring.
  lemma NeighboursInside(next: seq<nat>, prev: seq<nat>, head: nat, order: seq<nat>, k: nat)
    requires Ring(next, prev, head, order) && k <= |order|
    ensures var e := Node(head, order, k);
            e < |next| == |prev| && (next[e] == head || next[e] in order) && (prev[e] == head || prev[e] in order)
            && next[e] < |prev| && prev[e] < |next|
  {
    Neighbours(next, prev, head, order, k);
  }

  // The neighbours of an entry are not on the other list.
  lemma NeighboursApart(next: seq<nat>, prev: seq<nat>, head: nat, order: seq<nat>, other: nat, others: seq<nat>, k: nat)
    requires Ring(next, prev, head, Nodes(order)) && k < |order| && order[k] + 2 < |next| == |prev|
    requires head <= IN_USE && other == IN_USE - head && (forall x {:trigger x in order} :: x in order ==> x !in others)
    ensures var e := order[k] + 2; next[e] != other && next[e] !in Nodes(others) && prev[e] != other && prev[e] !in Nodes(others)
  {
    NodesHold(order);
    NodesHold(others);
    NeighboursInside(next, prev, head, Nodes(order), k + 1);
  }

  lemma RemoveFrom(next: seq<nat>, prev: seq<nat>, head: nat, order: seq<nat>, other: nat, others: seq<nat>, e: nat)
    requires Ring(next, prev, head, Nodes(order)) && Ring(next, prev, other, Nodes(others)) && e in order
    requires head <= IN_USE && other == IN_USE - head && (forall x {:trigger x in order} :: x in order ==> x !in others)
    ensures e + 2 < |next| == |prev| && next[e + 2] < |next| && prev[e + 2] < |next|
    ensures var (n, p) := Unlink(next, prev, e + 2); Ring(n, p, head, Nodes(Drop(order, e))) && Ring(n, p, other, Nodes(others))
  {
    var k: nat :| k < |order| && order[k] == e;
    NodesHold(order);
    NodesHold(others);
    Removed(next, prev, head, Nodes(order), k);
    DropIsWithout(order, k);
    assert Nodes(Without(order, k)) == Without(Nodes(order), k);
    NeighboursApart(next, prev, head, order, other, others, k);
    var (n, p) := Unlink(next, prev, e + 2);
    Untouched(next, prev, other, Nodes(others), n, p);
  }

  lemma AppendTo(next: seq<nat>, prev: seq<nat>, head: nat, order: seq<nat>, other: nat, others: seq<nat>, e: nat)
    requires Ring(next, prev, head, Nodes(order)) && Ring(next, prev, other, Nodes(others)) && e !in order && e !in others && e + 2 < |next|
    requires head <= IN_USE && other == IN_USE - head && (forall x {:trigger x in order} :: x in order ==> x !in others)
    ensures head < |next| == |prev| && prev[head] < |next| && prev[head] != e + 2
    ensures var (n, p) := LinkLast(next, prev, head, e + 2); Ring(n, p, head, Nodes(order + [e])) && Ring(n, p, other, Nodes(others))
  {
    NodesHold(order);
    NodesHold(others);
    Appended(next, prev, head, Nodes(order), e + 2);
    assert Nodes(order + [e]) == Nodes(order) + [e + 2];
    NeighboursInside(next, prev, head, Nodes(order), 0);
    var (n, p) := LinkLast(next, prev, head, e + 2);
    assert prev[head] != e + 2 && prev[head] != other && prev[head] !in Nodes(others);
    assert e + 2 != other && e + 2 !in Nodes(others) && head !in Nodes(others);
    Untouched(next, prev, other, Nodes(others), n, p);
  }

  lemma LinksRemove(next: seq<nat>, prev: seq<nat>, lru: seq<nat>, inUse: seq<nat>, n: nat, e: nat)
    requires Links(next, prev, lru, inUse, n) && (e in lru || e in inUse)
    ensures e + 2 < |next| && next[e + 2] < |next| && prev[e + 2] < |next|
    ensures var (x, p) := Unlink(next, prev, e + 2); Links(x, p, Drop(lru, e), Drop(inUse, e), n)
  {
    NodesHold(lru);
    NodesHold(inUse);
    DropHolds(lru, e);
    DropHolds(inUse, e);
    if e in lru {
      RemoveFrom(next, prev, LRU, lru, IN_USE, inUse, e);
      DropAbsent(inUse, e);
    } else {
      RemoveFrom(next, prev, IN_USE, inUse, LRU, lru, e);
      DropAbsent(lru, e);
    }
  }

  lemma LinksAppend(next: seq<nat>, prev: seq<nat>, lru: seq<nat>, inUse: seq<nat>, n: nat, e: nat)
    requires Links(next, prev, lru, inUse, n) && e !in lru && e !in inUse && e < n
    ensures prev[LRU] < |next| && prev[IN_USE] < |next| && prev[LRU] != e + 2 && prev[IN_USE] != e + 2
    ensures var (x, p) := LinkLast(next, prev, LRU, e + 2); Links(x, p, lru + [e], inUse, n)
    ensures var (x, p) := LinkLast(next, prev, IN_USE, e + 2); Links(x, p, lru, inUse + [e], n)
  {
    AppendTo(next, prev, LRU, lru, IN_USE, inUse, e);
    AppendTo(next, prev, IN_USE, inUse, LRU, lru, e);
  }

  lemma LinksGrow(next: seq<nat>, prev: seq<nat>, lru: seq<nat>, inUse: seq<nat>, n: nat)
    requires Links(next, prev, lru, inUse, n)
    ensures Links(next + [0], prev + [0], lru, inUse, n + 1)
  {
    Untouched(next, prev, LRU, Nodes(lru), next + [0], prev + [0]);
    Untouched(next, prev, IN_USE, Nodes(inUse), next + [0], prev + [0]);
  }

  // The oldest unused entry is the one after the head.
  lemma Oldest(next: seq<nat>, prev: seq<nat>, lru: seq<nat>, inUse: seq<nat>, n: nat)
    requires Links(next, prev, lru, inUse, n)
    ensures next[LRU] == if lru == [] then LRU else lru[0] + 2
  {
    Neighbours(next, prev, LRU, Nodes(lru), 0);
  }

  // In a sound cache an entry is on the list its count says.
  lemma WhereItIs(v: View, e: nat)
    requires Inv(v) && e < |v.info|
    ensures e in v.lru || e in v.inUse <==> v.inCache[e]
    ensures v.refs[e] == 1 && v.inCache[e] ==> e in v.lru
    ensures v.refs[e] >= 2 && v.inCache[e] ==> e in v.inUse
    ensures v.refs[e] == v.clients[e] + if v.inCache[e] then 1 else 0
  {
    assert EntryOk(v, e);
  }

  // Dropping the cache's reference to its oldest unused entry.
  lemma FrontGone(v: View) returns (w: View)
    requires Inv(v) && v.lru != []
    ensures v.lru[0] < |v.info| == |v.refs| == |v.inCache| && v.refs[v.lru[0]] == 1 && v.usage >= v.info[v.lru[0]].charge
    ensures Inv(w) && w == v.(lru := v.lru[1..], inCache := v.inCache[v.lru[0] := false], refs := v.refs[v.lru[0] := 0],
                              deleted := v.deleted + [v.lru[0]], usage := v.usage - v.info[v.lru[0]].charge)
  {
    FrontEvicts(v);
    w := CacheSpec.FinishErase(v, v.lru[0]);
  }

  lemma HolderExists(v: View, key: seq<byte>) returns (r: Option<nat>)
    ensures Holder(v, key, r)
  {
    if e: nat :| Cached(v, e) && e < |v.info| && v.info[e].key == key {
      r := Some(e);
    } else {
      r := None;
    }
  }

  lemma InsertIs(v: View, i: Info, capacity: nat, r: Option<nat>, u: View)
    requires Inv(v) && Holder(v, i.key, r)
    requires u == if capacity > 0 then Displace(v, i, r) else Add(v, i, false)
    ensures Inv(u) && CacheSpec.Insert(v, i, capacity, r) == Evict(u, capacity)
  {
    AddKeeps(v, i, false);
  }

  class LRUCache {
    var capacity: nat
    var usage: nat
    var next: seq<nat>
    var prev: seq<nat>
    var refs: seq<nat>
    var inCache: seq<bool>
    const table: HandleTable
    ghost var clients: seq<nat>
    ghost var lru: seq<nat>
    ghost var inUse: seq<nat>
    ghost var deleted: seq<nat>

    ghost function Abs(): View
      reads this, table
    {
      View(table.info, refs, inCache, clients, lru, inUse, usage, deleted)
    }

    // The counts, the lists and the links agree.
    ghost predicate Counted()
      reads this, table
    {
      Inv(Abs()) && Links(next, prev, lru, inUse, |refs|)
    }

    ghost predicate Valid()
      reads this, table
    {
      Counted() && KeysDiffer(Abs()) && table.Valid() && forall e: nat {:trigger table.Has(e)} :: table.Has(e) <==> Cached(Abs(), e)
    }

    constructor (capacity: nat)
      ensures Valid() && fresh(table) && this.capacity == capacity && Abs() == View([], [], [], [], [], [], 0, [])
    {
      this.capacity, usage, next, prev, refs, inCache := capacity, 0, [LRU, IN_USE], [LRU, IN_USE], [], [];
      clients, lru, inUse, deleted := [], [], [], [];
      table := new HandleTable();
      new;
      assert Nodes([]) == [];
      assert Joined(next, prev, LRU, [], 0) && Joined(next, prev, IN_USE, [], 0);
    }

    method LRURemove(e: nat)
      requires Links(next, prev, lru, inUse, |refs|) && (e in lru || e in inUse)
      modifies this`next, this`prev, this`lru, this`inUse
      ensures Links(next, prev, lru, inUse, |refs|) && lru == Drop(old(lru), e) && inUse == Drop(old(inUse), e)
    {
      LinksRemove(next, prev, lru, inUse, |refs|, e);
      var x := e + 2;
      ghost var was := Unlink(next, prev, x);
      prev := prev[next[x] := prev[x]];
      next := next[prev[x] := next[x]];
      assert (next, prev) == was;
      lru, inUse := Drop(lru, e), Drop(inUse, e);
    }

    method LRUAppend(head: nat, e: nat)
      requires Links(next, prev, lru, inUse, |refs|) && e !in lru && e !in inUse && e < |refs| && head in {LRU, IN_USE}
      modifies this`next, this`prev, this`lru, this`inUse
      ensures Links(next, prev, lru, inUse, |refs|)
      ensures lru == (if head == LRU then old(lru) + [e] else old(lru)) && inUse == (if head == IN_USE then old(inUse) + [e] else old(inUse))
    {
      LinksAppend(next, prev, lru, inUse, |refs|, e);
      var x := e + 2;
      ghost var was := LinkLast(next, prev, head, x);
      next := next[x := head];
      prev := prev[x := prev[head]];
      next := next[prev[x] := x];
      prev := prev[next[x] := x];
      assert (next, prev) == was;
      if head == LRU {
        lru := lru + [e];
      } else {
        inUse := inUse + [e];
      }
    }

    method Ref(e: nat)
      requires Counted() && e < |refs| && refs[e] > 0
      modifies this`next, this`prev, this`lru, this`inUse, this`refs, this`clients
      ensures Counted() && Abs() == CacheSpec.Ref(old(Abs()), e)
    {
      ghost var v := Abs();
      WhereItIs(v, e);
      RefKeeps(v, e);
      if refs[e] == 1 && inCache[e] {
        DropHolds(lru, e);
        DropAbsent(inUse, e);
        LRURemove(e);
        LRUAppend(IN_USE, e);
      }
      refs := refs[e := refs[e] + 1];
      clients := clients[e := clients[e] + 1];
    }

    method Unref(e: nat)
      requires Counted() && e < |refs| && e < |clients| && clients[e] > 0
      modifies this`next, this`prev, this`lru, this`inUse, this`refs, this`clients, this`deleted
      ensures old(refs[e]) > 0 && Counted() && Abs() == CacheSpec.Unref(old(Abs()), e)
    {
      ghost var v := Abs();
      WhereItIs(v, e);
      UnrefKeeps(v, e);
      refs := refs[e := refs[e] - 1];
      clients := clients[e := clients[e] - 1];
      if refs[e] == 0 {
        deleted := deleted + [e];
      } else if inCache[e] && refs[e] == 1 {
        DropHolds(inUse, e);
        DropAbsent(lru, e);
        LRURemove(e);
        LRUAppend(LRU, e);
      }
    }

    // Finish removing an entry the table no longer has.
    method FinishErase(r: Option<nat>) returns (erased: bool)
      requires Counted() && (r.Some? ==> Cached(Abs(), r.value))
      modifies this`next, this`prev, this`lru, this`inUse, this`refs, this`clients, this`deleted, this`inCache, this`usage
      ensures Counted() && erased == r.Some?
      ensures r.None? ==> Abs() == old(Abs())
      ensures r.Some? ==> old(refs[r.value]) > 0 && old(usage) >= table.info[r.value].charge && Abs() == CacheSpec.FinishErase(old(Abs()), r.value)
    {
      if r.Some? {
        var e := r.value;
        ghost var v := Abs();
        WhereItIs(v, e);
        DetachKeeps(v, e);
        LRURemove(e);
        inCache := inCache[e := false];
        usage := usage - table.info[e].charge;
        clients := clients[e := clients[e] + 1];
        Unref(e);
      }
      return r.Some?;
    }

    // Evict from the old end while the cache is over its capacity.
    method EvictOld()
      requires Valid()
      modifies this`next, this`prev, this`lru, this`inUse, this`refs, this`clients, this`deleted, this`inCache, this`usage
      modifies table`nextHash, table`buckets, table`elems, table`chains
      ensures Valid() && Abs() == Evict(old(Abs()), capacity)
    {
      Oldest(next, prev, lru, inUse, |refs|);
      while usage > capacity && next[LRU] != LRU
        invariant Valid() && |next| > 1 && next[LRU] == (if lru == [] then LRU else lru[0] + 2)
        invariant Evict(Abs(), capacity) == Evict(old(Abs()), capacity)
        decreases |lru|
      {
        var e := next[LRU] - 2;
        ghost var v := Abs();
        FrontEvicts(v);
        EvictEntry(e);
        Oldest(next, prev, lru, inUse, |refs|);
      }
    }

    // Remove a key from the table; the entry, if there is one, is still to be finished off.
    method TakeFromTable(key: seq<byte>, hash: nat) returns (r: Option<nat>)
      requires Valid() && table.KnownHash(key, hash)
      modifies table`nextHash, table`buckets, table`elems, table`chains
      ensures Counted() && KeysDiffer(Abs()) && Abs() == old(Abs()) && Holder(Abs(), key, r) && table.Valid()
      ensures forall n: nat {:trigger table.Has(n)} :: table.Has(n) <==> Cached(Abs(), n) && r != Some(n)
    {
      ghost var v := Abs();
      r := table.Remove(key, hash);
      forall n: nat ensures table.Has(n) <==> Cached(v, n) && r != Some(n) {
        assert r.Some? && Cached(v, n) && v.info[n].key == key ==> SameKey(v.info, n, r.value);
      }
      if r.None? {
        forall e: nat | Cached(v, e) && e < |v.info| ensures v.info[e].key != key {
          assert table.Has(e);
        }
      }
    }

    // Take one cached entry out of the table and the cache.
    method EvictEntry(e: nat)
      requires Valid() && Cached(Abs(), e)
      modifies this`next, this`prev, this`lru, this`inUse, this`refs, this`clients, this`deleted, this`inCache, this`usage
      modifies table`nextHash, table`buckets, table`elems, table`chains
      ensures Valid() && old(refs[e]) > 0 && old(usage) >= table.info[e].charge && Abs() == CacheSpec.FinishErase(old(Abs()), e)
    {
      ghost var v := Abs();
      assert table.Has(e);
      table.HashKnown(e);
      var r := TakeFromTable(table.info[e].key, table.info[e].hash);
      assert r == Some(e) by {
        assert SameKey(v.info, e, e);
        assert r.Some? ==> SameKey(v.info, r.value, e);
      }
      FinishEraseKeeps(v, e);
      var erased := FinishErase(r);
    }

    // A table answer is the cached entry with the key.
    lemma TableAnswers(key: seq<byte>, r: Option<nat>)
      requires Valid()
      requires r.Some? ==> table.Has(r.value) && table.info[r.value].key == key
      requires r.None? ==> forall n: nat :: table.Has(n) ==> table.info[n].key != key
      ensures Holder(Abs(), key, r)
    {
      if r.None? {
        forall e: nat | Cached(Abs(), e) && e < |table.info| ensures table.info[e].key != key {
          assert table.Has(e);
        }
      }
    }

    method Lookup(key: seq<byte>, hash: nat) returns (r: Option<nat>)
      requires Valid() && table.KnownHash(key, hash)
      modifies this`next, this`prev, this`lru, this`inUse, this`refs, this`clients
      ensures Valid() && Holder(old(Abs()), key, r)
      ensures r.None? ==> Abs() == old(Abs())
      ensures r.Some? ==> r.value < |old(refs)| && r.value < |old(clients)| && Abs() == CacheSpec.Ref(old(Abs()), r.value)
    {
      r := table.Lookup(key, hash);
      TableAnswers(key, r);
      if r.Some? {
        ghost var v := Abs();
        WhereItIs(v, r.value);
        RefKeeps(v, r.value);
        Ref(r.value);
        forall e: nat ensures table.Has(e) <==> Cached(Abs(), e) {
          assert Cached(Abs(), e) <==> Cached(v, e);
        }
      }
    }

    method Release(handle: nat)
      requires Valid() && handle < |refs| && handle < |clients| && clients[handle] > 0
      modifies this`next, this`prev, this`lru, this`inUse, this`refs, this`clients, this`deleted
      ensures Valid() && old(refs[handle]) > 0 && Abs() == CacheSpec.Unref(old(Abs()), handle)
    {
      ghost var v := Abs();
      UnrefKeeps(v, handle);
      Unref(handle);
      forall e: nat ensures table.Has(e) <==> Cached(Abs(), e) {
        assert Cached(Abs(), e) <==> Cached(v, e);
      }
    }

    method Erase(key: seq<byte>, hash: nat) returns (ghost r: Option<nat>)
      requires Valid() && table.KnownHash(key, hash)
      modifies this`next, this`prev, this`lru, this`inUse, this`refs, this`clients, this`deleted, this`inCache, this`usage
      modifies table`nextHash, table`buckets, table`elems, table`chains
      ensures Valid() && Holder(old(Abs()), key, r)
      ensures r.None? ==> Abs() == old(Abs())
      ensures r.Some? ==> old(refs[r.value]) > 0 && old(usage) >= table.info[r.value].charge && Abs() == CacheSpec.FinishErase(old(Abs()), r.value)
    {
      ghost var v := Abs();
      var found := TakeFromTable(key, hash);
      r := found;
      if found.Some? {
        FinishEraseKeeps(v, found.value);
      }
      var erased := FinishErase(found);
    }

    // The cache takes its own reference to the new entry, which is in use.
    method Enlist(h: nat, ghost v: View)
      requires Counted() && Inv(v) && h == |v.info| < |table.info| && Abs() == Add(v, table.info[h], false)
      modifies this`next, this`prev, this`lru, this`inUse, this`refs, this`inCache, this`usage
      ensures Counted() && Abs() == Add(v, table.info[h], true)
    {
      ghost var i := table.info[h];
      AddKeeps(v, i, true);
      WhereItIs(Abs(), h);
      refs := refs[h := refs[h] + 1];
      inCache := inCache[h := true];
      LRUAppend(IN_USE, h);
      usage := usage + table.info[h].charge;
      assert refs == v.refs + [2] && inCache == v.inCache + [true];
    }

    // Let the cache hold the new entry, in the place of the one with its key.
    method Keep(h: nat, ghost v: View) returns (ghost r: Option<nat>)
      requires Valid() && Inv(v) && KeysDiffer(v) && h == |v.info| < |table.info| && Abs() == Add(v, table.info[h], false)
      modifies this`next, this`prev, this`lru, this`inUse, this`refs, this`clients, this`deleted, this`inCache, this`usage
      modifies table`nextHash, table`buckets, table`elems, table`chains
      ensures Valid() && Holder(v, table.info[h].key, r) && Abs() == Displace(v, table.info[h], r)
    {
      ghost var i, start := table.info[h], Abs();
      forall n: nat ensures table.Has(n) <==> Cached(v, n) {
        assert Cached(start, n) <==> Cached(v, n);
      }
      Enlist(h, v);
      ghost var a := Abs();
      assert !Cached(start, h);
      var was := table.Insert(h);
      r := was;
      TakesOver(v, i, a, r);
      var erased := FinishErase(was);
      DisplaceMeans(v, i, r);
      forall n: nat ensures table.Has(n) <==> Cached(Abs(), n) {
        assert Cached(Abs(), n) <==> n == h || (Cached(v, n) && v.info[n].key != i.key);
      }
    }

    lemma TakesOver(v: View, i: Info, a: View, r: Option<nat>)
      requires Inv(v) && a == Add(v, i, true)
      requires r.Some? ==> Cached(v, r.value) && r.value < |a.info| && a.info[r.value].key == i.key
      requires r.None? ==> forall n: nat :: Cached(v, n) && n < |a.info| ==> a.info[n].key != i.key
      ensures Holder(v, i.key, r) && (r.Some? ==> Cached(a, r.value))
    {
      if r.None? {
        forall e: nat | Cached(v, e) && e < |v.info| ensures v.info[e].key != i.key {
          assert a.info[e] == v.info[e];
        }
      }
    }

    // A new entry with one reference, for the handle to be returned.
    method New(key: seq<byte>, hash: nat, charge: nat) returns (h: nat)
      requires Valid() && table.KnownHash(key, hash)
      modifies this`next, this`prev, this`refs, this`clients, this`inCache
      modifies table`info, table`nextHash
      ensures Valid() && h == |old(table.info)| && Abs() == Add(old(Abs()), Info(key, hash, charge), false)
    {
      ghost var v := Abs();
      AddMeans(v, Info(key, hash, charge));
      h := table.Allocate(key, hash, charge);
      LinksGrow(next, prev, lru, inUse, |refs|);
      next, prev, refs, inCache := next + [0], prev + [0], refs + [1], inCache + [false];
      clients := clients + [1];
      forall n: nat ensures table.Has(n) <==> Cached(Abs(), n) {
        assert Cached(Abs(), n) <==> Cached(v, n);
      }
    }

    method Insert(key: seq<byte>, hash: nat, charge: nat) returns (handle: nat, ghost r: Option<nat>)
      requires Valid() && table.KnownHash(key, hash)
      modifies this`next, this`prev, this`lru, this`inUse, this`refs, this`clients, this`deleted, this`inCache, this`usage
      modifies table
      ensures Valid() && handle == |old(table.info)|
      ensures Holder(old(Abs()), key, r) && Abs() == CacheSpec.Insert(old(Abs()), Info(key, hash, charge), capacity, r)
    {
      ghost var v, i := Abs(), Info(key, hash, charge);
      handle := New(key, hash, charge);
      if capacity > 0 {
        r := Keep(handle, v);
        InsertIs(v, i, capacity, r, Abs());
      } else {
        r := HolderExists(v, key);
        InsertIs(v, i, capacity, r, Abs());
      }
      EvictOld();
    }

    method Prune()
      requires Valid()
      modifies this`next, this`prev, this`lru, this`inUse, this`refs, this`clients, this`deleted, this`inCache, this`usage
      modifies table`nextHash, table`buckets, table`elems, table`chains
      ensures Valid() && Abs() == CacheSpec.Prune(old(Abs()))
    {
      Oldest(next, prev, lru, inUse, |refs|);
      while next[LRU] != LRU
        invariant Valid() && |next| > 1 && next[LRU] == (if lru == [] then LRU else lru[0] + 2)
        invariant CacheSpec.Prune(Abs()) == CacheSpec.Prune(old(Abs()))
        decreases |lru|
      {
        FrontEvicts(Abs());
        EvictEntry(next[LRU] - 2);
        Oldest(next, prev, lru, inUse, |refs|);
      }
    }

    // The destructor: with no handle out, every deleter not yet run runs now.
    method Destroy()
      requires Valid() && forall e :: 0 <= e < |clients| ==> clients[e] == 0
      modifies this`lru, this`refs, this`deleted, this`inCache, this`usage
      ensures forall e: nat :: e < |table.info| ==> multiset(deleted)[e] == 1
    {
      ghost var order := lru;
      var x := next[LRU];
      ghost var k: nat := 0;
      Neighbours(next, prev, LRU, Nodes(order), 0);
      while x != LRU
        invariant k <= |order| && x == Node(LRU, Nodes(order), k + 1) && lru == order[k..]
        invariant Inv(Abs()) && |next| == |refs| + 2
        decreases |order| - k
      {
        var e := x - 2;
        Neighbours(next, prev, LRU, Nodes(order), k + 1);
        x := next[x];
        ghost var w := FrontGone(Abs());
        inCache := inCache[e := false];
        refs := refs[e := refs[e] - 1];
        deleted := deleted + [e];
        usage := usage - table.info[e].charge;
        lru := lru[1..];
        k := k + 1;
        assert Abs() == w;
      }
      forall e: nat | e < |table.info| ensures multiset(deleted)[e] == 1 {
        DeletedOnceUnreachable(Abs(), e);
        assert EntryOk(Abs(), e);
      }
    }
  }
}
