// A merging iterator is one cursor over the sorted union of its children
// (table/merger.cc).

module Merger {
  import opened DbFormat

  // The index of an entry in a sorted sequence.
  ghost function Rank(all: seq<Entry>, e: Entry): (r: nat)
    requires e in all
    ensures r < |all| && all[r] == e
  {
    var r :| 0 <= r < |all| && all[r] == e;
    r
  }

  lemma RankOrder(all: seq<Entry>, x: Entry, y: Entry)
    requires Sorted(all) && x in all && y in all
    ensures Less(x.key, y.key) <==> Rank(all, x) < Rank(all, y)
    ensures Rank(all, x) == Rank(all, y) ==> x == y
  {
    var i, j := Rank(all, x), Rank(all, y);
    assert i < j ==> Less(all[i].key, all[j].key);
    assert j < i ==> Less(all[j].key, all[i].key);
  }

  lemma RankIs(all: seq<Entry>, i: nat)
    requires Sorted(all) && i < |all|
    ensures Rank(all, all[i]) == i
  {
    var r := Rank(all, all[i]);
    assert r < i ==> Less(all[r].key, all[i].key);
    assert i < r ==> Less(all[i].key, all[r].key);
  }

  // all is the sorted union of the lists, and no two lists share an entry.
  ghost predicate IsUnion(lists: seq<seq<Entry>>, all: seq<Entry>) {
    && Sorted(all)
    && (forall i {:trigger lists[i]} :: 0 <= i < |lists| ==> Sorted(lists[i]))
    && (forall i, j {:trigger lists[i][j]} :: 0 <= i < |lists| && 0 <= j < |lists[i]| ==> lists[i][j] in all)
    && (forall e {:trigger e in all} :: e in all ==> exists i, j :: 0 <= i < |lists| && 0 <= j < |lists[i]| && lists[i][j] == e)
    && (forall i, j, k, m {:trigger lists[i][j], lists[k][m]} ::
          (0 <= i < |lists| && 0 <= j < |lists[i]| && 0 <= k < |lists| && 0 <= m < |lists[k]| && lists[i][j] == lists[k][m])
          ==> i == k && j == m)
  }

  // Ranks grow along a list.
  lemma RankGrows(lists: seq<seq<Entry>>, all: seq<Entry>, i: nat, j: nat, m: nat)
    requires IsUnion(lists, all) && i < |lists| && j < m < |lists[i]|
    ensures Rank(all, lists[i][j]) < Rank(all, lists[i][m])
  {
    assert Less(lists[i][j].key, lists[i][m].key);
    RankOrder(all, lists[i][j], lists[i][m]);
  }

  class MergingIterator {
    const lists: seq<seq<Entry>>   // what the children iterate over
    ghost const all: seq<Entry>    // their sorted union
    var pos: array<nat>            // child positions; the list length when not valid
    var current: Option<nat>       // the child that holds the current entry
    var forward: bool
    ghost var cursor: nat          // position in all; its length when not valid

    // At position at, child i stands at its first entry at or after rank q.
    ghost predicate AtOrAfter(i: nat, at: nat, q: nat)
      requires IsUnion(lists, all) && i < |lists|
    {
      && at <= |lists[i]|
      && forall j {:trigger lists[i][j]} :: 0 <= j < |lists[i]| ==> (j >= at <==> Rank(all, lists[i][j]) >= q)
    }

    // At position at, child i stands at its last entry at or below rank q, or is
    // not valid when it has none.
    ghost predicate LastUpTo(i: nat, at: nat, q: int)
      requires IsUnion(lists, all) && i < |lists|
    {
      && at <= |lists[i]|
      && forall j {:trigger lists[i][j]} :: 0 <= j < |lists[i]| ==> ((at < |lists[i]| && j <= at) <==> Rank(all, lists[i][j]) <= q)
    }

    ghost predicate Valid()
      reads this, pos
    {
      && IsUnion(lists, all) && pos.Length == |lists|
      && (forall i :: 0 <= i < |lists| ==> pos[i] <= |lists[i]|)
      && cursor <= |all| && (current.None? <==> cursor == |all|)
      && (current.Some? ==>
            && current.value < |lists| && Points(current.value, pos[current.value], cursor)
            && (forward ==> forall i {:trigger AtOrAfter(i, pos[i], cursor)} :: 0 <= i < |lists| ==> AtOrAfter(i, pos[i], cursor))
            && (!forward ==> forall i {:trigger LastUpTo(i, pos[i], cursor)} :: 0 <= i < |lists| ==> LastUpTo(i, pos[i], cursor)))
    }

    // Child c, at position at, stands at entry q of the union.
    ghost predicate Points(c: nat, at: nat, q: nat)
      requires c < |lists| && q < |all|
    {
      at < |lists[c]| && lists[c][at] == all[q]
    }

    constructor (lists: seq<seq<Entry>>, ghost all: seq<Entry>)
      requires IsUnion(lists, all)
      ensures Valid() && cursor == |all| && this.lists == lists && this.all == all && fresh(pos)
    {
      this.lists, this.all := lists, all;
      pos := new nat[|lists|](i requires 0 <= i < |lists| => |lists[i]|);
      current, forward, cursor := None, true, |all|;
    }

    // ---- children ----

    function ChildKey(i: nat): InternalKey
      requires i < |lists| && pos.Length == |lists| && pos[i] < |lists[i]|
      reads this`pos, pos
    {
      lists[i][pos[i]].key
    }

    function Entry(): Entry
      requires Valid() && current.Some?
      reads this, pos
      ensures Entry() == all[cursor]
    {
      lists[current.value][pos[current.value]]
    }

    // Next child key to the right, when every child stands at or after rank q.
    method FindSmallest(ghost q: nat)
      requires IsUnion(lists, all) && pos.Length == |lists| && q <= |all|
      requires forall i {:trigger AtOrAfter(i, pos[i], q)} :: 0 <= i < |lists| ==> AtOrAfter(i, pos[i], q)
      modifies this`current, this`cursor, this`forward
      ensures Valid() && cursor == q && forward
    {
      var smallest: Option<nat> := None;
      for i := 0 to |lists|
        invariant smallest.None? ==> forall k :: 0 <= k < i ==> pos[k] == |lists[k]|
        invariant smallest.Some? ==> smallest.value < i && pos[smallest.value] < |lists[smallest.value]|
        invariant smallest.Some? ==> forall k :: 0 <= k < i && pos[k] < |lists[k]| ==> !Less(ChildKey(k), ChildKey(smallest.value))
      {
        assert AtOrAfter(i, pos[i], q);
        if pos[i] < |lists[i]| {
          if smallest.None? || Less(ChildKey(i), ChildKey(smallest.value)) {
            smallest := Some(i);
          }
        }
      }
      SmallestIsNext(q, smallest);
      forall i | 0 <= i < |lists| ensures pos[i] <= |lists[i]| { assert AtOrAfter(i, pos[i], q); }
      current, cursor, forward := smallest, q, true;
    }

    lemma SmallestIsNext(q: nat, c: Option<nat>)
      requires IsUnion(lists, all) && pos.Length == |lists| && q <= |all|
      requires forall i {:trigger AtOrAfter(i, pos[i], q)} :: 0 <= i < |lists| ==> AtOrAfter(i, pos[i], q)
      requires c.None? ==> forall k :: 0 <= k < |lists| ==> pos[k] == |lists[k]|
      requires c.Some? ==> c.value < |lists| && pos[c.value] < |lists[c.value]|
      requires c.Some? ==> forall k :: 0 <= k < |lists| && pos[k] < |lists[k]| ==> !Less(ChildKey(k), ChildKey(c.value))
      ensures c.None? <==> q == |all|
      ensures c.Some? ==> c.value < |lists| && Points(c.value, pos[c.value], q)
    {
      if c.Some? {
        assert AtOrAfter(c.value, pos[c.value], q) && Rank(all, lists[c.value][pos[c.value]]) < |all|;
      }
      if q < |all| {
        var e := all[q];
        RankIs(all, q);
        assert e in all;
        var i, j :| 0 <= i < |lists| && 0 <= j < |lists[i]| && lists[i][j] == e;
        assert AtOrAfter(i, pos[i], q);
        if pos[i] < j {
          RankGrows(lists, all, i, pos[i], j);
        }
        assert lists[i][pos[i]] == e && c.Some?;
        RankOrder(all, e, lists[c.value][pos[c.value]]);
      }
    }

    // Next child key to the left, when every child stands at its last entry up to rank q.
    method FindLargest(ghost q: int)
      requires IsUnion(lists, all) && pos.Length == |lists| && -1 <= q < |all|
      requires forall i {:trigger LastUpTo(i, pos[i], q)} :: 0 <= i < |lists| ==> LastUpTo(i, pos[i], q)
      modifies this`current, this`cursor, this`forward
      ensures Valid() && cursor == (if q == -1 then |all| else q) && !forward
    {
      var largest: Option<nat> := None;
      for i := |lists| downto 0
        invariant largest.None? ==> forall k :: i <= k < |lists| ==> pos[k] == |lists[k]|
        invariant largest.Some? ==> i <= largest.value < |lists| && pos[largest.value] < |lists[largest.value]|
        invariant largest.Some? ==> forall k :: i <= k < |lists| && pos[k] < |lists[k]| ==> !Less(ChildKey(largest.value), ChildKey(k))
      {
        assert LastUpTo(i, pos[i], q);
        if pos[i] < |lists[i]| {
          if largest.None? || Less(ChildKey(largest.value), ChildKey(i)) {
            largest := Some(i);
          }
        }
      }
      LargestIsPrev(q, largest);
      forall i | 0 <= i < |lists| ensures pos[i] <= |lists[i]| { assert LastUpTo(i, pos[i], q); }
      current, cursor, forward := largest, if q == -1 then |all| else q, false;
    }

    lemma LargestIsPrev(q: int, c: Option<nat>)
      requires IsUnion(lists, all) && pos.Length == |lists| && -1 <= q < |all|
      requires forall i {:trigger LastUpTo(i, pos[i], q)} :: 0 <= i < |lists| ==> LastUpTo(i, pos[i], q)
      requires c.None? ==> forall k :: 0 <= k < |lists| ==> pos[k] == |lists[k]|
      requires c.Some? ==> c.value < |lists| && pos[c.value] < |lists[c.value]|
      requires c.Some? ==> forall k :: 0 <= k < |lists| && pos[k] < |lists[k]| ==> !Less(ChildKey(c.value), ChildKey(k))
      ensures c.None? <==> q == -1
      ensures c.Some? ==> c.value < |lists| && Points(c.value, pos[c.value], q)
    {
      if c.Some? {
        assert LastUpTo(c.value, pos[c.value], q) && Rank(all, lists[c.value][pos[c.value]]) <= q;
      }
      if q >= 0 {
        var e := all[q];
        RankIs(all, q);
        assert e in all;
        var i, j :| 0 <= i < |lists| && 0 <= j < |lists[i]| && lists[i][j] == e;
        assert LastUpTo(i, pos[i], q);
        if j < pos[i] {
          RankGrows(lists, all, i, j, pos[i]);
        }
        assert lists[i][pos[i]] == e && c.Some?;
        RankOrder(all, e, lists[c.value][pos[c.value]]);
      }
    }

    // ---- seeks ----

    method SeekToFirst()
      requires Valid()
      modifies this`current, this`cursor, this`forward, pos
      ensures Valid() && cursor == 0
    {
      for i := 0 to |lists|
        invariant forall k {:trigger AtOrAfter(k, pos[k], 0)} :: 0 <= k < i ==> AtOrAfter(k, pos[k], 0)
      {
        pos[i] := 0;
      }
      FindSmallest(0);
    }

    method SeekToLast()
      requires Valid()
      modifies this`current, this`cursor, this`forward, pos
      ensures Valid() && cursor == (if all == [] then 0 else |all| - 1)
    {
      ghost var q: int := |all| - 1;
      for i := 0 to |lists|
        invariant forall k {:trigger LastUpTo(k, pos[k], q)} :: 0 <= k < i ==> LastUpTo(k, pos[k], q)
      {
        pos[i] := if |lists[i]| == 0 then 0 else |lists[i]| - 1;
        assert LastUpTo(i, pos[i], q);
      }
      FindLargest(q);
    }

    // The first entry of a child at or after the target.
    method ChildSeek(i: nat, target: InternalKey)
      requires IsUnion(lists, all) && pos.Length == |lists| && i < |lists|
      modifies pos
      ensures IsLowerBound(lists[i], target, pos[i])
      ensures forall k :: 0 <= k < |lists| && k != i ==> pos[k] == old(pos[k])
    {
      pos[i] := 0;
      while pos[i] < |lists[i]| && Less(lists[i][pos[i]].key, target)
        invariant pos[i] <= |lists[i]|
        invariant forall j :: 0 <= j < pos[i] ==> Less(lists[i][j].key, target)
        invariant forall k :: 0 <= k < |lists| && k != i ==> pos[k] == old(pos[k])
        decreases |lists[i]| - pos[i]
      {
        pos[i] := pos[i] + 1;
      }
      forall j | pos[i] <= j < |lists[i]| ensures !Less(lists[i][j].key, target) {
        assert pos[i] < j ==> Less(lists[i][pos[i]].key, lists[i][j].key);
      }
    }

    method Seek(target: InternalKey)
      requires Valid()
      modifies this`current, this`cursor, this`forward, pos
      ensures Valid() && IsLowerBound(all, target, cursor)
    {
      ghost var q := LowerBoundExists(all, target);
      for i := 0 to |lists|
        invariant forall k {:trigger AtOrAfter(k, pos[k], q)} :: 0 <= k < i ==> AtOrAfter(k, pos[k], q)
      {
        ChildSeek(i, target);
        forall j | 0 <= j < |lists[i]| ensures j >= pos[i] <==> Rank(all, lists[i][j]) >= q {
          assert all[Rank(all, lists[i][j])] == lists[i][j];
        }
        assert AtOrAfter(i, pos[i], q);
      }
      FindSmallest(q);
    }

    // ---- moves ----

    // The current child is at the current entry whichever way one looks.
    lemma CurrentStands(c: nat, p: nat)
      requires IsUnion(lists, all) && pos.Length == |lists| && p < |all| && c < |lists| && Points(c, pos[c], p)
      ensures AtOrAfter(c, pos[c], p) && LastUpTo(c, pos[c], p)
    {
      RankIs(all, p);
      forall j | 0 <= j < |lists[c]| ensures j >= pos[c] <==> Rank(all, lists[c][j]) >= p {
        if j < pos[c] { RankGrows(lists, all, c, j, pos[c]); }
        if j > pos[c] { RankGrows(lists, all, c, pos[c], j); }
      }
      forall j | 0 <= j < |lists[c]| ensures j <= pos[c] <==> Rank(all, lists[c][j]) <= p {
        if j < pos[c] { RankGrows(lists, all, c, j, pos[c]); }
        if j > pos[c] { RankGrows(lists, all, c, pos[c], j); }
      }
    }

    // Another child never holds the current entry.
    lemma OthersDiffer(c: nat, p: nat, i: nat, j: nat)
      requires IsUnion(lists, all) && pos.Length == |lists| && p < |all| && c < |lists| && Points(c, pos[c], p)
      requires i < |lists| && i != c && j < |lists[i]|
      ensures Rank(all, lists[i][j]) != p
      ensures Less(lists[i][j].key, all[p].key) <==> Rank(all, lists[i][j]) < p
    {
      RankIs(all, p);
      RankOrder(all, lists[i][j], all[p]);
      assert lists[i][j] != lists[c][pos[c]];
    }

    // Step a child past an entry whose key equals the given one.
    method SkipEqual(i: nat, key: InternalKey)
      requires pos.Length == |lists| && i < |lists| && pos[i] <= |lists[i]|
      modifies pos
      ensures forall k :: 0 <= k < |lists| && k != i ==> pos[k] == old(pos[k])
      ensures pos[i] == old(pos[i]) +
                (if old(pos[i]) < |lists[i]| && !Less(key, lists[i][old(pos[i])].key) && !Less(lists[i][old(pos[i])].key, key) then 1 else 0)
    {
      if pos[i] < |lists[i]| && !Less(key, ChildKey(i)) && !Less(ChildKey(i), key) {
        pos[i] := pos[i] + 1;
      }
    }

    // Position the other children after the current entry.
    method TurnForward()
      requires Valid() && current.Some? && !forward
      modifies this`forward, pos
      ensures Valid() && forward && cursor == old(cursor) && current.Some?
    {
      var c, p := current.value, cursor;
      var key := ChildKey(c);
      for i := 0 to |lists|
        invariant c < |lists| && Points(c, pos[c], p)
        invariant forall k :: 0 <= k < |lists| ==> pos[k] <= |lists[k]|
        invariant forall k {:trigger AtOrAfter(k, pos[k], p)} :: 0 <= k < i && k != c ==> AtOrAfter(k, pos[k], p)
      {
        if i != c {
          ChildSeek(i, key);
          forall j | 0 <= j < |lists[i]| ensures j >= pos[i] <==> Rank(all, lists[i][j]) >= p {
            OthersDiffer(c, p, i, j);
          }
          if pos[i] < |lists[i]| {
            OthersDiffer(c, p, i, pos[i]);
            RankOrder(all, all[p], lists[i][pos[i]]);
            RankIs(all, p);
          }
          SkipEqual(i, key);
          assert AtOrAfter(i, pos[i], p);
        }
      }
      CurrentStands(c, p);
      forward := true;
    }

    // Position the other children before the current entry.
    method TurnBackward()
      requires Valid() && current.Some? && forward
      modifies this`forward, pos
      ensures Valid() && !forward && cursor == old(cursor) && current.Some?
    {
      var c, p := current.value, cursor;
      var key := ChildKey(c);
      for i := 0 to |lists|
        invariant c < |lists| && Points(c, pos[c], p)
        invariant forall k :: 0 <= k < |lists| ==> pos[k] <= |lists[k]|
        invariant forall k {:trigger LastUpTo(k, pos[k], p)} :: 0 <= k < i && k != c ==> LastUpTo(k, pos[k], p)
      {
        if i != c {
          ChildSeek(i, key);
          forall j | 0 <= j < |lists[i]| ensures j < pos[i] <==> Rank(all, lists[i][j]) <= p {
            OthersDiffer(c, p, i, j);
          }
          if pos[i] < |lists[i]| {
            // first entry at or after the key: step back one
            pos[i] := if pos[i] == 0 then |lists[i]| else pos[i] - 1;
          } else {
            // no entry at or after the key: go to the last one
            pos[i] := if |lists[i]| == 0 then 0 else |lists[i]| - 1;
          }
          assert LastUpTo(i, pos[i], p);
        }
      }
      CurrentStands(c, p);
      forward := false;
    }

    // With the current child one further, every child stands after the old entry.
    lemma PassedRight(c: nat, at: nat, p: nat, i: nat, was: nat)
      requires IsUnion(lists, all) && p < |all| && c < |lists| && i < |lists|
      requires Points(c, at, p) && AtOrAfter(i, was, p) && (i == c ==> was == at)
      ensures AtOrAfter(i, if i == c then was + 1 else was, p + 1)
    {
      RankIs(all, p);
      forall j | 0 <= j < |lists[i]| ensures Rank(all, lists[i][j]) == p <==> i == c && j == at {
        RankOrder(all, lists[i][j], all[p]);
        assert lists[i][j] == lists[c][at] ==> i == c && j == at;
      }
    }

    lemma PassedLeft(c: nat, at: nat, p: nat, i: nat, was: nat)
      requires IsUnion(lists, all) && p < |all| && c < |lists| && i < |lists|
      requires Points(c, at, p) && LastUpTo(i, was, p) && (i == c ==> was == at)
      ensures LastUpTo(i, if i != c then was else if at == 0 then |lists[c]| else at - 1, p - 1)
    {
      RankIs(all, p);
      forall j | 0 <= j < |lists[i]| ensures Rank(all, lists[i][j]) == p <==> i == c && j == at {
        RankOrder(all, lists[i][j], all[p]);
        assert lists[i][j] == lists[c][at] ==> i == c && j == at;
      }
    }

    method Next()
      requires Valid() && current.Some?
      modifies this`current, this`cursor, this`forward, pos
      ensures Valid() && cursor == old(cursor) + 1
    {
      if !forward {
        TurnForward();
      }
      var c := current.value;
      ghost var p := cursor;
      forall i | 0 <= i < |lists| ensures AtOrAfter(i, if i == c then pos[i] + 1 else pos[i], p + 1) {
        assert AtOrAfter(i, pos[i], p);
        PassedRight(c, pos[c], p, i, pos[i]);
      }
      pos[c] := pos[c] + 1;
      FindSmallest(p + 1);
    }

    method Prev()
      requires Valid() && current.Some?
      modifies this`current, this`cursor, this`forward, pos
      ensures Valid() && cursor == (if old(cursor) == 0 then |all| else old(cursor) - 1)
    {
      if forward {
        TurnBackward();
      }
      var c := current.value;
      ghost var p := cursor;
      ghost var q: int := p as int - 1;
      var left := if pos[c] == 0 then |lists[c]| else pos[c] - 1;
      forall i | 0 <= i < |lists| ensures LastUpTo(i, if i == c then left else pos[i], q) {
        assert LastUpTo(i, pos[i], p);
        PassedLeft(c, pos[c], p, i, pos[i]);
      }
      pos[c] := left;
      FindLargest(q);
    }
  }

  // Reading a merging iterator from the start to its end gives the whole union.
  method Merge(lists: seq<seq<Entry>>, ghost all: seq<Entry>) returns (out: seq<Entry>)
    requires IsUnion(lists, all)
    ensures out == all
  {
    var it := new MergingIterator(lists, all);
    it.SeekToFirst();
    out := [];
    while it.current.Some?
      invariant it.Valid() && it.all == all && fresh(it) && fresh(it.pos)
      invariant out == all[..it.cursor]
      decreases |all| - it.cursor
    {
      out := out + [it.Entry()];
      it.Next();
    }
  }
}
