// What the block cache of util/cache.cc promises, stated on values: which
// entries are cached, in what order they may be evicted, who refers to them
// and whose deleter has run.

module CacheSpec {
  import opened DbFormat
  import opened CacheTable
  import opened Rings

  datatype View = View(
    info: seq<Info>,        // every entry ever allocated
    refs: seq<nat>,         // its reference count
    inCache: seq<bool>,     // the cache itself refers to it
    clients: seq<nat>,      // handles given out and not yet released
    lru: seq<nat>,          // cached, no handles out: oldest first
    inUse: seq<nat>,        // cached, handles out
    usage: nat,
    deleted: seq<nat>       // entries whose deleter has run, in order
  )

  function Drop(order: seq<nat>, e: nat): seq<nat> {
    if order == [] then [] else if order[0] == e then order[1..] else [order[0]] + Drop(order[1..], e)
  }

  // The charges of the cached entries among the first n.
  function Charges(info: seq<Info>, inCache: seq<bool>, n: nat): nat
    requires n <= |info| && n <= |inCache|
  {
    if n == 0 then 0 else Charges(info, inCache, n - 1) + if inCache[n - 1] then info[n - 1].charge else 0
  }

  ghost predicate EntryOk(v: View, e: nat) {
    && e < |v.info| == |v.refs| == |v.inCache| == |v.clients|
    && v.refs[e] == v.clients[e] + (if v.inCache[e] then 1 else 0)
    && (e in v.lru <==> v.inCache[e] && v.refs[e] == 1)
    && (e in v.inUse <==> v.inCache[e] && v.refs[e] >= 2)
    && (e in v.deleted <==> v.refs[e] == 0)
  }

  ghost predicate Inv(v: View) {
    && |v.info| == |v.refs| == |v.inCache| == |v.clients|
    && (forall e: nat {:trigger EntryOk(v, e)} :: e < |v.info| ==> EntryOk(v, e))
    && NoRepeats(v.lru) && NoRepeats(v.inUse) && NoRepeats(v.deleted)
    && (forall e {:trigger e in v.lru} :: e in v.lru ==> e < |v.info|)
    && (forall e {:trigger e in v.inUse} :: e in v.inUse ==> e < |v.info|)
    && (forall e {:trigger e in v.deleted} :: e in v.deleted ==> e < |v.info|)
    && v.usage == Charges(v.info, v.inCache, |v.info|)
  }

  predicate Cached(v: View, e: nat) {
    e < |v.inCache| && v.inCache[e]
  }

  ghost predicate KeysDiffer(v: View) {
    forall m: nat, n: nat {:trigger SameKey(v.info, m, n)} :: SameKey(v.info, m, n) && Cached(v, m) && Cached(v, n) ==> m == n
  }

  // ---- The steps --------------------------------------------------------

  function Ref(v: View, e: nat): View
    requires e < |v.refs| && e < |v.inCache| && e < |v.clients|
  {
    var w := v.(refs := v.refs[e := v.refs[e] + 1], clients := v.clients[e := v.clients[e] + 1]);
    if v.refs[e] == 1 && v.inCache[e] then w.(lru := Drop(v.lru, e), inUse := v.inUse + [e]) else w
  }

  function Unref(v: View, e: nat): View
    requires e < |v.refs| && e < |v.inCache| && e < |v.clients| && v.refs[e] > 0 && v.clients[e] > 0
  {
    var w := v.(refs := v.refs[e := v.refs[e] - 1], clients := v.clients[e := v.clients[e] - 1]);
    if v.refs[e] == 1 then w.(deleted := v.deleted + [e])
    else if v.inCache[e] && v.refs[e] == 2 then w.(inUse := Drop(v.inUse, e), lru := v.lru + [e])
    else w
  }

  // The cache gives up its reference: until that is dropped, it counts as a handle.
  function Detach(v: View, e: nat): View
    requires e < |v.info| && e < |v.inCache| && e < |v.clients| && v.usage >= v.info[e].charge
  {
    v.(lru := Drop(v.lru, e), inUse := Drop(v.inUse, e), inCache := v.inCache[e := false],
       clients := v.clients[e := v.clients[e] + 1], usage := v.usage - v.info[e].charge)
  }

  function FinishErase(v: View, e: nat): View
    requires e < |v.info| && e < |v.inCache| && e < |v.clients| && e < |v.refs| && v.refs[e] > 0 && v.usage >= v.info[e].charge
  {
    Unref(Detach(v, e), e)
  }

  // A new entry: cached and in use, or (with no capacity) only handed out.
  function Add(v: View, i: Info, cached: bool): View {
    if cached then
      v.(info := v.info + [i], refs := v.refs + [2], inCache := v.inCache + [true], clients := v.clients + [1],
         inUse := v.inUse + [|v.info|], usage := v.usage + i.charge)
    else
      v.(info := v.info + [i], refs := v.refs + [1], inCache := v.inCache + [false], clients := v.clients + [1])
  }

  // ---- Each step keeps the invariant ------------------------------------

  lemma {:induction false} DropHolds(order: seq<nat>, e: nat)
    requires NoRepeats(order)
    ensures NoRepeats(Drop(order, e))
    ensures forall n :: n in Drop(order, e) <==> n in order && n != e
    ensures |Drop(order, e)| == if e in order then |order| - 1 else |order|
  {
    if order != [] {
      forall i: nat, j: nat | i < j < |order[1..]| ensures Apart(order[1..], i, j) {
        assert Apart(order, i + 1, j + 1);
      }
      forall i | 0 < i < |order| ensures order[i] != order[0] {
        assert Apart(order, 0, i);
      }
      if order[0] == e {
        assert forall n :: n in order[1..] <==> n in order && n != e;
      } else {
        DropHolds(order[1..], e);
        var d := Drop(order[1..], e);
        forall i: nat, j: nat | i < j < |[order[0]] + d| ensures Apart([order[0]] + d, i, j) {
          if i > 0 {
            assert Apart(d, i - 1, j - 1);
          } else {
            assert d[j - 1] in d;
          }
        }
        assert forall n :: n in order <==> n == order[0] || n in order[1..];
      }
    }
  }

  lemma {:induction false} DropIsWithout(order: seq<nat>, k: nat)
    requires NoRepeats(order) && k < |order|
    ensures Drop(order, order[k]) == Without(order, k)
  {
    if k > 0 {
      assert Apart(order, 0, k);
      forall i: nat, j: nat | i < j < |order[1..]| ensures Apart(order[1..], i, j) {
        assert Apart(order, i + 1, j + 1);
      }
      DropIsWithout(order[1..], k - 1);
    }
  }

  lemma {:induction false} DropAbsent(order: seq<nat>, e: nat)
    requires e !in order
    ensures Drop(order, e) == order
  {
    if order != [] {
      DropAbsent(order[1..], e);
    }
  }

  lemma {:induction false} ChargesChange(info: seq<Info>, inCache: seq<bool>, n: nat, e: nat)
    requires n <= |info| == |inCache| && e < |info| && inCache[e]
    ensures Charges(info, inCache, n) == Charges(info, inCache[e := false], n) + if e < n then info[e].charge else 0
  {
    if n > 0 {
      ChargesChange(info, inCache, n - 1, e);
    }
  }

  lemma {:induction false} ChargesExtend(info: seq<Info>, inCache: seq<bool>, n: nat, i: Info, c: bool)
    requires n <= |info| == |inCache|
    ensures Charges(info + [i], inCache + [c], n) == Charges(info, inCache, n)
  {
    if n > 0 {
      ChargesExtend(info, inCache, n - 1, i, c);
    }
  }

  lemma AppendDistinct(order: seq<nat>, e: nat)
    requires NoRepeats(order) && e !in order
    ensures NoRepeats(order + [e])
  {
    forall i: nat, j: nat | i < j < |order + [e]| ensures Apart(order + [e], i, j) {
      assert j < |order| ==> Apart(order, i, j);
    }
  }

  lemma RefKeeps(v: View, e: nat)
    requires Inv(v) && e < |v.info| && v.refs[e] > 0
    ensures Inv(Ref(v, e)) && (KeysDiffer(v) ==> KeysDiffer(Ref(v, e)))
  {
    var w := Ref(v, e);
    assert EntryOk(v, e);
    DropHolds(v.lru, e);
    if v.refs[e] == 1 && v.inCache[e] {
      AppendDistinct(v.inUse, e);
    }
    forall n: nat | n < |w.info| ensures EntryOk(w, n) {
      assert EntryOk(v, n);
    }
  }

  lemma UnrefKeeps(v: View, e: nat)
    requires Inv(v) && e < |v.info| && v.clients[e] > 0
    ensures v.refs[e] > 0 && Inv(Unref(v, e)) && (KeysDiffer(v) ==> KeysDiffer(Unref(v, e)))
  {
    assert EntryOk(v, e);
    var w := Unref(v, e);
    DropHolds(v.inUse, e);
    if v.refs[e] == 1 {
      AppendDistinct(v.deleted, e);
    } else if v.inCache[e] && v.refs[e] == 2 {
      AppendDistinct(v.lru, e);
    }
    forall n: nat | n < |w.info| ensures EntryOk(w, n) {
      assert EntryOk(v, n);
    }
  }

  lemma DetachKeeps(v: View, e: nat)
    requires Inv(v) && Cached(v, e)
    ensures v.usage >= v.info[e].charge && v.refs[e] > 0
    ensures Inv(Detach(v, e)) && Detach(v, e).clients[e] > 0 && (KeysDiffer(v) ==> KeysDiffer(Detach(v, e)))
  {
    assert EntryOk(v, e);
    ChargesChange(v.info, v.inCache, |v.info|, e);
    var w := Detach(v, e);
    DropHolds(v.lru, e);
    DropHolds(v.inUse, e);
    forall n: nat | n < |w.info| ensures EntryOk(w, n) {
      assert EntryOk(v, n);
    }
  }

  lemma FinishEraseShape(v: View, e: nat)
    requires e < |v.info| && e < |v.inCache| && e < |v.clients| && e < |v.refs| && v.refs[e] == v.clients[e] + 1 && v.usage >= v.info[e].charge
    ensures var w := FinishErase(v, e);
            && w.info == v.info && w.clients == v.clients && w.inCache == v.inCache[e := false]
            && w.lru == Drop(v.lru, e) && w.inUse == Drop(v.inUse, e) && w.usage == v.usage - v.info[e].charge
            && w.deleted == (if v.clients[e] == 0 then v.deleted + [e] else v.deleted)
  {
    var d := Detach(v, e);
    assert d.clients[e := d.clients[e] - 1] == v.clients;
  }

  // Taking e out of the cache: its handles stay good, and its deleter runs now if it has none.
  lemma FinishEraseKeeps(v: View, e: nat)
    requires Inv(v) && Cached(v, e)
    ensures v.usage >= v.info[e].charge && v.refs[e] > 0
    ensures var w := FinishErase(v, e);
            && Inv(w) && (KeysDiffer(v) ==> KeysDiffer(w))
            && w.info == v.info && w.clients == v.clients && w.inCache == v.inCache[e := false]
            && w.lru == Drop(v.lru, e) && w.inUse == Drop(v.inUse, e) && w.usage == v.usage - v.info[e].charge
            && w.deleted == (if v.clients[e] == 0 then v.deleted + [e] else v.deleted)
  {
    assert EntryOk(v, e);
    DetachKeeps(v, e);
    FinishEraseShape(v, e);
    UnrefKeeps(Detach(v, e), e);
  }

  lemma AddKeeps(v: View, i: Info, cached: bool)
    requires Inv(v)
    ensures Inv(Add(v, i, cached))
  {
    var w := Add(v, i, cached);
    if cached {
      AppendDistinct(v.inUse, |v.info|);
    }
    ChargesExtend(v.info, v.inCache, |v.info|, i, cached);
    forall n: nat | n < |w.info| ensures EntryOk(w, n) {
      assert n < |v.info| ==> EntryOk(v, n);
    }
  }

  // ---- Eviction ---------------------------------------------------------

  // Evict from the old end of lru until usage fits or nothing more may go.
  ghost function Evict(v: View, capacity: nat): View
    requires Inv(v)
    decreases |v.lru|
  {
    if v.usage <= capacity || v.lru == [] then v
    else
      FrontEvicts(v);
      Evict(FinishErase(v, v.lru[0]), capacity)
  }

  lemma FrontEvicts(v: View)
    requires Inv(v) && v.lru != []
    ensures Cached(v, v.lru[0]) && v.refs[v.lru[0]] == 1 && v.clients[v.lru[0]] == 0 && v.lru[0] < |v.info|
    ensures v.usage >= v.info[v.lru[0]].charge
    ensures var w := FinishErase(v, v.lru[0]);
            && Inv(w) && w.lru == v.lru[1..] && w.inUse == v.inUse && w.clients == v.clients && w.info == v.info
            && (KeysDiffer(v) ==> KeysDiffer(w)) && w.inCache == v.inCache[v.lru[0] := false] && w.deleted == v.deleted + [v.lru[0]]
            && w.usage == v.usage - v.info[v.lru[0]].charge
  {
    var e := v.lru[0];
    assert e in v.lru && EntryOk(v, e);
    FinishEraseKeeps(v, e);
    DropAbsent(v.inUse, e);
  }

  // The k oldest unused entries went, and no more than needed; nothing in use was touched.
  ghost predicate Evicted(v: View, w: View, capacity: nat, k: nat) {
    && k <= |v.lru| && w.lru == v.lru[k..] && w.inUse == v.inUse && w.deleted == v.deleted + v.lru[..k]
    && w.info == v.info && w.clients == v.clients && |w.inCache| == |v.inCache|
    && (forall e: nat {:trigger Cached(w, e)} :: Cached(w, e) <==> Cached(v, e) && e !in v.lru[..k])
    && (w.usage <= capacity || w.lru == [])
    && (k > 0 ==> v.lru[k - 1] < |v.info| && w.usage + v.info[v.lru[k - 1]].charge > capacity)
  }

  lemma EvictedFirst(v: View, u: View, w: View, capacity: nat, j: nat)
    requires v.lru != [] && u.lru == v.lru[1..] && u.inUse == v.inUse && u.clients == v.clients && u.info == v.info
    requires v.lru[0] < |v.inCache| && u.inCache == v.inCache[v.lru[0] := false] && u.deleted == v.deleted + [v.lru[0]]
    requires v.lru[0] < |v.info| && u.usage == v.usage - v.info[v.lru[0]].charge && v.usage > capacity && (j == 0 ==> w == u)
    requires Evicted(u, w, capacity, j)
    ensures Evicted(v, w, capacity, j + 1)
  {
    assert v.lru[..j + 1] == [v.lru[0]] + u.lru[..j];
    assert v.deleted + v.lru[..j + 1] == u.deleted + u.lru[..j];
  }

  lemma {:induction false} EvictMeans(v: View, capacity: nat) returns (k: nat)
    requires Inv(v)
    ensures var w := Evict(v, capacity); Inv(w) && (KeysDiffer(v) ==> KeysDiffer(w)) && Evicted(v, w, capacity, k) && (k == 0 ==> w == v)
    decreases |v.lru|
  {
    if v.usage <= capacity || v.lru == [] {
      k := 0;
      assert v.lru[..0] == [] && v.deleted + [] == v.deleted;
    } else {
      FrontEvicts(v);
      var u := FinishErase(v, v.lru[0]);
      k := EvictMeans(u, capacity);
      EvictedFirst(v, u, Evict(v, capacity), capacity, k);
      k := k + 1;
    }
  }

  ghost function Prune(v: View): View
    requires Inv(v)
    decreases |v.lru|
  {
    if v.lru == [] then v
    else
      FrontEvicts(v);
      Prune(FinishErase(v, v.lru[0]))
  }

  ghost predicate Pruned(v: View, w: View) {
    && w.lru == [] && w.inUse == v.inUse && w.info == v.info && w.clients == v.clients && w.deleted == v.deleted + v.lru
    && (forall e: nat {:trigger Cached(w, e)} :: Cached(w, e) <==> Cached(v, e) && e !in v.lru)
  }

  lemma PrunedFirst(v: View, u: View, w: View)
    requires v.lru != [] && u.lru == v.lru[1..] && u.inUse == v.inUse && u.clients == v.clients && u.info == v.info
    requires v.lru[0] < |v.inCache| && u.inCache == v.inCache[v.lru[0] := false] && u.deleted == v.deleted + [v.lru[0]]
    requires Pruned(u, w)
    ensures Pruned(v, w)
  {
    assert v.lru == [v.lru[0]] + u.lru;
    assert v.deleted + v.lru == u.deleted + u.lru;
  }

  // Every unused entry goes and its deleter runs, in order; the rest stays.
  lemma {:induction false} PruneMeans(v: View)
    requires Inv(v)
    ensures Inv(Prune(v)) && (KeysDiffer(v) ==> KeysDiffer(Prune(v))) && Pruned(v, Prune(v))
    decreases |v.lru|
  {
    if v.lru == [] {
      assert v.deleted + [] == v.deleted;
    } else {
      FrontEvicts(v);
      var u := FinishErase(v, v.lru[0]);
      PruneMeans(u);
      PrunedFirst(v, u, Prune(v));
    }
  }

  // A deleter has run exactly when nobody can reach the entry any more, and it ran once.
  lemma DeletedOnceUnreachable(v: View, e: nat)
    requires Inv(v) && e < |v.info|
    ensures multiset(v.deleted)[e] == if v.clients[e] == 0 && !Cached(v, e) then 1 else 0
  {
    assert EntryOk(v, e);
    OnceAtMost(v.deleted, e);
  }

  lemma {:induction false} OnceAtMost(order: seq<nat>, e: nat)
    requires NoRepeats(order)
    ensures multiset(order)[e] == if e in order then 1 else 0
  {
    if order != [] {
      var n := |order| - 1;
      forall i: nat, j: nat | i < j < n ensures Apart(order[..n], i, j) {
        assert Apart(order, i, j);
      }
      OnceAtMost(order[..n], e);
      assert order == order[..n] + [order[n]];
      if order[n] in order[..n] {
        var i: nat :| i < n && order[i] == order[n];
        assert Apart(order, i, n);
      }
    }
  }

  // ---- Insert as a whole ------------------------------------------------

  // The cached entry with a key.
  ghost predicate Holder(v: View, key: seq<byte>, r: Option<nat>) {
    match r
    case Some(e) => Cached(v, e) && e < |v.info| && v.info[e].key == key
    case None => forall e: nat {:trigger Cached(v, e)} :: Cached(v, e) && e < |v.info| ==> v.info[e].key != key
  }

  ghost function Displace(v: View, i: Info, r: Option<nat>): (w: View)
    requires Inv(v) && Holder(v, i.key, r)
    ensures Inv(w)
  {
    AddKeeps(v, i, true);
    match r
    case None => Add(v, i, true)
    case Some(e) =>
      FinishEraseKeeps(Add(v, i, true), e);
      FinishErase(Add(v, i, true), e)
  }

  // With capacity to cache at all, Insert takes the old holder of the key out,
  // puts the new entry in use and evicts; without, it only hands the entry out.
  ghost function Insert(v: View, i: Info, capacity: nat, r: Option<nat>): View
    requires Inv(v) && Holder(v, i.key, r)
  {
    if capacity > 0 then Evict(Displace(v, i, r), capacity)
    else
      AddKeeps(v, i, false);
      Evict(Add(v, i, false), capacity)
  }

  lemma DisplaceMeans(v: View, i: Info, r: Option<nat>)
    requires Inv(v) && KeysDiffer(v) && Holder(v, i.key, r)
    ensures var w := Displace(v, i, r);
            && KeysDiffer(w) && w.info == v.info + [i] && w.clients == v.clients + [1] && |v.info| in w.inUse
            && w.lru == (if r.Some? then Drop(v.lru, r.value) else v.lru)
            && (forall e: nat :: Cached(w, e) <==> e == |v.info| || (Cached(v, e) && v.info[e].key != i.key))
            && (forall e {:trigger e in w.inUse} :: e in v.inUse && v.info[e].key != i.key ==> e in w.inUse)
  {
    var a := Add(v, i, true);
    AddKeeps(v, i, true);
    var w := Displace(v, i, r);
    if r.Some? {
      FinishEraseKeeps(a, r.value);
      DropHolds(a.inUse, r.value);
      assert SameKey(v.info, r.value, r.value);
      forall e: nat | Cached(v, e) && v.info[e].key == i.key ensures e == r.value {
        assert SameKey(v.info, e, r.value);
      }
    }
    forall e: nat ensures Cached(w, e) <==> e == |v.info| || (Cached(v, e) && v.info[e].key != i.key) {
    }
    forall m: nat, n: nat | SameKey(w.info, m, n) && Cached(w, m) && Cached(w, n) ensures m == n {
      if m < |v.info| && n < |v.info| {
        assert SameKey(v.info, m, n);
      }
    }
  }

  // The unused entries once the old holder of the key is out.
  function Unused(v: View, capacity: nat, r: Option<nat>): seq<nat> {
    if capacity > 0 && r.Some? then Drop(v.lru, r.value) else v.lru
  }

  // What a client sees of Insert: the key now maps to the new entry, no other
  // key in use is affected, of the unused ones only the k oldest are lost (and
  // none that need not be), and afterwards the cache is within its capacity
  // unless everything is in use.
  lemma InsertMeans(v: View, i: Info, capacity: nat, r: Option<nat>) returns (k: nat)
    requires Inv(v) && KeysDiffer(v) && Holder(v, i.key, r)
    ensures var w, h, unused := Insert(v, i, capacity, r), |v.info|, Unused(v, capacity, r);
            && k <= |unused| && w.lru == unused[k..]
            && Inv(w) && KeysDiffer(w) && w.info == v.info + [i] && w.clients == v.clients + [1]
            && (if capacity > 0 then Holder(w, i.key, Some(h)) else !Cached(w, h))
            && (w.usage <= capacity || w.lru == [])
            && (k > 0 ==> unused[k - 1] < |w.info| && w.usage + w.info[unused[k - 1]].charge > capacity)
            && (forall e: nat {:trigger Cached(w, e)} :: Cached(w, e) && e != h ==> Cached(v, e))
            && (forall e {:trigger e in v.inUse} :: e in v.inUse && (capacity == 0 || v.info[e].key != i.key) ==> Cached(w, e))
  {
    var h := |v.info|;
    var u := if capacity > 0 then Displace(v, i, r) else Add(v, i, false);
    if capacity > 0 {
      DisplaceMeans(v, i, r);
    } else {
      AddMeans(v, i);
    }
    k := EvictMeans(u, capacity);
    var w := Insert(v, i, capacity, r);
    assert w == Evict(u, capacity);
    forall e: nat | e in u.inUse ensures Cached(w, e) {
      InUseStays(u, w, capacity, k, e);
    }
    assert capacity > 0 ==> Cached(w, h);
  }

  lemma AddMeans(v: View, i: Info)
    requires Inv(v) && KeysDiffer(v)
    ensures Inv(Add(v, i, false)) && KeysDiffer(Add(v, i, false))
    ensures forall e: nat {:trigger Cached(Add(v, i, false), e)} :: Cached(Add(v, i, false), e) <==> Cached(v, e)
  {
    AddKeeps(v, i, false);
    var u := Add(v, i, false);
    forall m: nat, n: nat | SameKey(u.info, m, n) && Cached(u, m) && Cached(u, n) ensures m == n {
      assert SameKey(v.info, m, n);
    }
  }

  lemma InUseStays(u: View, w: View, capacity: nat, k: nat, e: nat)
    requires Inv(u) && Evicted(u, w, capacity, k) && e in u.inUse
    ensures Cached(w, e)
  {
    assert EntryOk(u, e);
    assert e in u.lru[..k] ==> e in u.lru;
  }
}
