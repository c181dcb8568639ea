// The list of live snapshots (db/snapshot.h): a circular list in the order the
// snapshots were taken.

module Snapshots {
  import opened Rings

  function NumbersOf(sequence: seq<nat>, order: seq<nat>): seq<nat>
    requires forall i :: 0 <= i < |order| ==> order[i] < |sequence|
  {
    seq(|order|, i requires 0 <= i < |order| => sequence[order[i]])
  }

  class SnapshotList {
    var next: seq<nat>
    var prev: seq<nat>
    var sequence: seq<nat>   // the sequence number of every node; node 0 is the head
    ghost var order: seq<nat>

    ghost predicate Valid()
      reads this
    {
      && |next| == |sequence| > 0 && Ring(next, prev, 0, order)
      && (forall i {:trigger order[i]} :: 0 <= i < |order| ==> order[i] < |sequence|)
      && (forall i, j {:trigger order[i], order[j]} :: 0 <= i < j < |order| ==> sequence[order[i]] <= sequence[order[j]])
    }

    // The sequence numbers of the live snapshots, oldest first.
    ghost function Numbers(): seq<nat>
      requires Valid()
      reads this
    {
      NumbersOf(sequence, order)
    }

    constructor ()
      ensures Valid() && order == []
    {
      next, prev, sequence, order := [0], [0], [0], [];
      new;
      assert Joined(next, prev, 0, order, 0);
    }

    predicate Empty()
      requires Valid()
      reads this
    {
      next[0] == 0
    }

    lemma EmptyMeans()
      requires Valid()
      ensures Empty() <==> Numbers() == []
    {
      Neighbours(next, prev, 0, order, 0);
      assert order != [] ==> order[0] in order;
    }

    method Oldest() returns (s: nat)
      requires Valid() && Numbers() != []
      ensures s == Numbers()[0] && forall i :: 0 <= i < |Numbers()| ==> s <= Numbers()[i]
    {
      Neighbours(next, prev, 0, order, 0);
      s := sequence[next[0]];
    }

    method Newest() returns (s: nat)
      requires Valid() && Numbers() != []
      ensures s == Numbers()[|order| - 1] && forall i :: 0 <= i < |Numbers()| ==> Numbers()[i] <= s
    {
      Neighbours(next, prev, 0, order, 0);
      s := sequence[prev[0]];
    }

    method New(s: nat) returns (x: nat)
      requires Valid() && (Numbers() != [] ==> Numbers()[|order| - 1] <= s)
      modifies this
      ensures Valid() && x !in old(order) && order == old(order) + [x] && Numbers() == old(Numbers()) + [s]
    {
      x := |sequence|;
      Neighbours(next, prev, 0, order, 0);
      assert prev[0] < x;
      Untouched(next, prev, 0, order, next + [0], prev + [0]);
      next, prev, sequence := next + [0], prev + [0], sequence + [s];
      Appended(next, prev, 0, order, x);
      ghost var was := LinkLast(next, prev, 0, x);
      next := next[x := 0];
      prev := prev[x := prev[0]];
      next := next[prev[x] := x];
      prev := prev[next[x] := x];
      assert (next, prev) == was;
      order := order + [x];
    }

    // Other snapshots, also ones of the same sequence number, stay.
    method Delete(x: nat) returns (ghost k: nat)
      requires Valid() && x in order
      modifies this`next, this`prev, this`order
      ensures k < |old(order)| && old(order)[k] == x
      ensures Valid() && order == Without(old(order), k) && Numbers() == Without(old(Numbers()), k)
    {
      k :| k < |order| && order[k] == x;
      Removed(next, prev, 0, order, k);
      ghost var was := Unlink(next, prev, x);
      next := next[prev[x] := next[x]];
      prev := prev[next[x] := prev[x]];
      order := Without(order, k);
    }
  }
}
