// Runs of the cache (util/cache.cc): what is given up first is what was
// released longest ago.

module CacheRuns {
  import opened DbFormat
  import opened CacheTable
  import opened Rings
  import opened CacheSpec

  // What clients do.  Put names the cached entry its key displaces, if there is one.
  datatype Move =
    | Find(e: nat)
    | Release(e: nat)
    | Put(i: Info, capacity: nat, r: Option<nat>)
    | Erase(e: nat)
    | PruneAll

  ghost predicate Moves(v: View, m: Move, w: View)
    requires Inv(v)
  {
    match m
    case Find(e) => Cached(v, e) && e < |v.refs| && e < |v.clients| && w == Ref(v, e)
    case Release(e) => e < |v.clients| && e < |v.refs| && e < |v.inCache| && v.clients[e] > 0 && v.refs[e] > 0 && w == Unref(v, e)
    case Put(i, capacity, r) => Holder(v, i.key, r) && w == Insert(v, i, capacity, r)
    case Erase(e) =>
      && Cached(v, e) && e < |v.info| && e < |v.clients| && e < |v.refs| && v.refs[e] > 0 && v.usage >= v.info[e].charge
      && w == FinishErase(v, e)
    case PruneAll => w == Prune(v)
  }

  // The entries released, one for each release.
  function Releases(moves: seq<Move>): seq<nat> {
    if moves == [] then []
    else
      var m := moves[|moves| - 1];
      Releases(moves[..|moves| - 1]) + if m.Release? then [m.e] else []
  }

  // b was released after the last release of a.
  ghost predicate Later(released: seq<nat>, a: nat, b: nat) {
    exists k {:trigger released[k]} :: 0 <= k < |released| && released[k] == b && a !in released[k..]
  }

  // Oldest release first, and only what was released.
  ghost predicate ByLastRelease(order: seq<nat>, released: seq<nat>) {
    && (forall e {:trigger e in order} :: e in order ==> e in released)
    && (forall i, j {:trigger order[i], order[j]} :: 0 <= i < j < |order| ==> Later(released, order[i], order[j]))
  }

  lemma LaterStays(released: seq<nat>, a: nat, b: nat, e: nat)
    requires Later(released, a, b) && e != a
    ensures Later(released + [e], a, b)
  {
    var k :| 0 <= k < |released| && released[k] == b && a !in released[k..];
    assert (released + [e])[k..] == released[k..] + [e];
    assert (released + [e])[k] == b;
  }

  lemma OthersStay(order: seq<nat>, released: seq<nat>, e: nat)
    requires ByLastRelease(order, released) && e !in order
    ensures ByLastRelease(order, released + [e])
  {
    forall i, j | 0 <= i < j < |order| ensures Later(released + [e], order[i], order[j]) {
      LaterStays(released, order[i], order[j], e);
    }
  }

  lemma NewestLast(order: seq<nat>, released: seq<nat>, e: nat)
    requires ByLastRelease(order, released) && e !in order
    ensures ByLastRelease(order + [e], released + [e])
  {
    OthersStay(order, released, e);
    var w, rs := order + [e], released + [e];
    forall i, j | 0 <= i < j < |w| ensures Later(rs, w[i], w[j]) {
      if j == |order| {
        assert rs[|released|..] == [e];
        assert rs[|released|] == e && w[i] in order;
      }
    }
  }

  lemma FewerOrdered(order: seq<nat>, released: seq<nat>, k: nat)
    requires ByLastRelease(order, released) && k < |order|
    ensures ByLastRelease(Without(order, k), released)
  {
    var w := Without(order, k);
    forall e | e in w ensures e in released {
      assert e in order;
    }
    forall i, j | 0 <= i < j < |w| ensures Later(released, w[i], w[j]) {
      assert w[i] == order[if i < k then i else i + 1] && w[j] == order[if j < k then j else j + 1];
    }
  }

  lemma DropOrdered(order: seq<nat>, released: seq<nat>, e: nat)
    requires ByLastRelease(order, released) && NoRepeats(order)
    ensures ByLastRelease(Drop(order, e), released)
  {
    if e in order {
      var k: nat :| k < |order| && order[k] == e;
      DropIsWithout(order, k);
      FewerOrdered(order, released, k);
    } else {
      DropAbsent(order, e);
    }
  }

  // One move keeps the unused entries in the order of their last release.
  lemma MoveKeepsOrder(v: View, m: Move, w: View, released: seq<nat>)
    requires Inv(v) && KeysDiffer(v) && Moves(v, m, w) && ByLastRelease(v.lru, released)
    ensures Inv(w) && KeysDiffer(w) && ByLastRelease(w.lru, if m.Release? then released + [m.e] else released)
  {
    match m
    case Find(e) =>
      assert EntryOk(v, e);
      RefKeeps(v, e);
      DropOrdered(v.lru, released, e);
    case Release(e) =>
      assert EntryOk(v, e);
      UnrefKeeps(v, e);
      OthersStay(v.lru, released, e);
      NewestLast(v.lru, released, e);
    case Put(i, capacity, r) =>
      var k := InsertMeans(v, i, capacity, r);
      if r.Some? {
        DropOrdered(v.lru, released, r.value);
      }
    case Erase(e) =>
      FinishEraseKeeps(v, e);
      DropOrdered(v.lru, released, e);
    case PruneAll =>
      PruneMeans(v);
  }

  ghost predicate MovesAt(states: seq<View>, moves: seq<Move>, i: nat)
    requires i + 1 < |states| && i < |moves|
  {
    Inv(states[i]) && Moves(states[i], moves[i], states[i + 1])
  }

  ghost predicate IsRun(states: seq<View>, moves: seq<Move>) {
    && |states| == |moves| + 1 && states[0] == View([], [], [], [], [], [], 0, [])
    && forall i: nat {:trigger MovesAt(states, moves, i)} :: i < |moves| ==> MovesAt(states, moves, i)
  }

  // In every run the unused entries lie in the order of their last release.
  lemma {:induction false} RunKeepsOrder(states: seq<View>, moves: seq<Move>)
    requires IsRun(states, moves)
    ensures var v := states[|moves|]; Inv(v) && KeysDiffer(v) && ByLastRelease(v.lru, Releases(moves))
  {
    if moves != [] {
      var n := |moves| - 1;
      var ss, ms := states[..n + 1], moves[..n];
      forall i: nat | i < n ensures MovesAt(ss, ms, i) {
        assert MovesAt(states, moves, i);
      }
      RunKeepsOrder(ss, ms);
      assert MovesAt(states, moves, n);
      MoveKeepsOrder(states[n], moves[n], states[n + 1], Releases(moves[..n]));
    }
  }

  // So eviction takes what was released longest ago: what it leaves was released later than what it takes.
  lemma EvictsLeastRecent(states: seq<View>, moves: seq<Move>, capacity: nat, gone: nat, kept: nat)
    requires IsRun(states, moves) && Inv(states[|moves|])
    requires var v := states[|moves|];
             && Cached(v, gone) && gone in v.lru && !Cached(Evict(v, capacity), gone)
             && kept in v.lru && Cached(Evict(v, capacity), kept)
    ensures Later(Releases(moves), gone, kept)
  {
    var v := states[|moves|];
    RunKeepsOrder(states, moves);
    var k := EvictMeans(v, capacity);
    assert v.lru == v.lru[..k] + v.lru[k..];
    assert gone in v.lru[..k] && kept in v.lru[k..];
    var i: nat :| i < k && v.lru[..k][i] == gone;
    var j: nat :| j < |v.lru| - k && v.lru[k..][j] == kept;
    assert v.lru[i] == gone && v.lru[k + j] == kept;
  }
}
