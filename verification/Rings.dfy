// Circular doubly linked lists with a dummy head, as the block cache
// (util/cache.cc) and the snapshot list (db/snapshot.h) keep them.  Nodes are
// indices; next and prev hold the links of every node of every list.

module Rings {

  // The nodes met when walking forwards from the head and back to it.
  function Node(head: nat, order: seq<nat>, i: nat): nat
    requires i <= |order| + 1
  {
    if 1 <= i <= |order| then order[i - 1] else head
  }

  ghost predicate Joined(next: seq<nat>, prev: seq<nat>, head: nat, order: seq<nat>, i: nat)
    requires i <= |order|
  {
    var a, b := Node(head, order, i), Node(head, order, i + 1);
    a < |next| && b < |prev| && next[a] == b && prev[b] == a
  }

  ghost predicate Apart(order: seq<nat>, i: nat, j: nat)
    requires i < |order| && j < |order|
  {
    order[i] != order[j]
  }

  ghost predicate NoRepeats(order: seq<nat>) {
    forall i: nat, j: nat {:trigger Apart(order, i, j)} :: i < j < |order| ==> Apart(order, i, j)
  }

  // The links from the head run through order, forwards and backwards.
  ghost predicate Ring(next: seq<nat>, prev: seq<nat>, head: nat, order: seq<nat>) {
    && |next| == |prev| && head !in order && NoRepeats(order)
    && forall i: nat {:trigger Joined(next, prev, head, order, i)} :: i <= |order| ==> Joined(next, prev, head, order, i)
  }

  function Without(order: seq<nat>, k: nat): seq<nat>
    requires k < |order|
  {
    order[..k] + order[k + 1..]
  }

  // LRU_Remove, and the unlinking in SnapshotList::Delete.
  function Unlink(next: seq<nat>, prev: seq<nat>, e: nat): (r: (seq<nat>, seq<nat>))
    requires e < |next| == |prev| && prev[e] < |next| && next[e] < |prev|
  {
    (next[prev[e] := next[e]], prev[next[e] := prev[e]])
  }

  // LRU_Append, and the linking in SnapshotList::New.
  function LinkLast(next: seq<nat>, prev: seq<nat>, head: nat, e: nat): (r: (seq<nat>, seq<nat>))
    requires e < |next| == |prev| && head < |prev| && prev[head] < |next|
  {
    (next[e := head][prev[head] := e], prev[e := prev[head]][head := e])
  }

  lemma NodesDiffer(head: nat, order: seq<nat>, i: nat, j: nat)
    requires head !in order && NoRepeats(order) && i <= |order| && j <= |order| && i != j
    ensures Node(head, order, i) != Node(head, order, j)
  {
    if i > 0 && j > 0 {
      assert if i < j then Apart(order, i - 1, j - 1) else Apart(order, j - 1, i - 1);
    }
  }

  // The links of a node of the ring.
  lemma Neighbours(next: seq<nat>, prev: seq<nat>, head: nat, order: seq<nat>, k: nat)
    requires Ring(next, prev, head, order) && k <= |order|
    ensures var e := Node(head, order, k);
            && e < |next|
            && next[e] == Node(head, order, k + 1)
            && prev[e] == Node(head, order, if k == 0 then |order| else k - 1)
            && next[e] < |next| && prev[e] < |prev|
  {
    assert Joined(next, prev, head, order, k);
    assert Joined(next, prev, head, order, if k == 0 then |order| else k - 1);
    assert k < |order| ==> Joined(next, prev, head, order, k + 1);
  }

  lemma WithoutDistinct(order: seq<nat>, k: nat)
    requires NoRepeats(order) && k < |order|
    ensures NoRepeats(Without(order, k))
    ensures forall n :: n in Without(order, k) <==> n in order && n != order[k]
  {
    var r := Without(order, k);
    forall i: nat, j: nat | i < j < |r| ensures Apart(r, i, j) {
      assert Apart(order, if i < k then i else i + 1, if j < k then j else j + 1);
    }
    forall n | n in r ensures n in order && n != order[k] {
      var i :| 0 <= i < |r| && r[i] == n;
      assert if i < k then Apart(order, i, k) else Apart(order, k, i + 1);
    }
    forall n | n in order && n != order[k] ensures n in r {
      var i :| 0 <= i < |order| && order[i] == n;
      assert r[if i < k then i else i - 1] == n;
    }
  }

  lemma Removed(next: seq<nat>, prev: seq<nat>, head: nat, order: seq<nat>, k: nat)
    requires Ring(next, prev, head, order) && k < |order|
    ensures var e := order[k];
            && e < |next| && next[e] < |next| && prev[e] < |prev|
            && var (n, p) := Unlink(next, prev, e); Ring(n, p, head, Without(order, k))
  {
    Neighbours(next, prev, head, order, k + 1);
    var e, r := order[k], Without(order, k);
    var (n, p) := Unlink(next, prev, e);
    WithoutDistinct(order, k);
    forall i: nat | i <= |r| ensures Joined(n, p, head, r, i) {
      var from := if i <= k then i else i + 1;
      var to := if i < k then i + 1 else i + 2;
      assert Node(head, r, i) == Node(head, order, from) && Node(head, r, i + 1) == Node(head, order, to);
      assert Joined(next, prev, head, order, from) && Joined(next, prev, head, order, to - 1);
      Neighbours(next, prev, head, order, from);
      if from != k {
        NodesDiffer(head, order, from, k);
      }
      if to <= |order| && to != k + 2 {
        NodesDiffer(head, order, to, if k + 2 <= |order| then k + 2 else 0);
      }
      if to == |order| + 1 && k + 2 <= |order| {
        NodesDiffer(head, order, 0, k + 2);
      }
    }
  }

  lemma Appended(next: seq<nat>, prev: seq<nat>, head: nat, order: seq<nat>, e: nat)
    requires Ring(next, prev, head, order) && e !in order && e != head && e < |next|
    ensures head < |prev| && prev[head] < |next|
    ensures var (n, p) := LinkLast(next, prev, head, e); Ring(n, p, head, order + [e])
  {
    Neighbours(next, prev, head, order, 0);
    var r := order + [e];
    var (n, p) := LinkLast(next, prev, head, e);
    forall i: nat, j: nat | i < j < |r| ensures Apart(r, i, j) {
      assert j < |order| ==> Apart(order, i, j);
    }
    forall i: nat | i <= |r| ensures Joined(n, p, head, r, i) {
      if i < |order| {
        assert Joined(next, prev, head, order, i);
        NodesDiffer(head, order, i, |order|);
        NodesDiffer(head, order, i + 1, 0);
      }
    }
  }

  // Changing links of nodes outside a ring leaves it as it is.
  lemma Untouched(next: seq<nat>, prev: seq<nat>, head: nat, order: seq<nat>, n: seq<nat>, p: seq<nat>)
    requires Ring(next, prev, head, order) && |n| == |p| >= |next|
    requires forall x: nat {:trigger n[x]} :: x < |next| && (x == head || x in order) ==> n[x] == next[x]
    requires forall x: nat {:trigger p[x]} :: x < |next| && (x == head || x in order) ==> p[x] == prev[x]
    ensures Ring(n, p, head, order)
  {
    forall i: nat | i <= |order| ensures Joined(n, p, head, order, i) {
      assert Joined(next, prev, head, order, i);
    }
  }
}
