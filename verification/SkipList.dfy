// The skip list under a memtable: nested sorted lists, also while a node is
// being linked in (db/skiplist.h).

module SkipList {
  import opened DbFormat

  // A node with one link per level; its height is the number of links.  Nodes
  // are numbered as the arena hands them out; node 0 is the head.
  datatype Node = Node(key: InternalKey, next: seq<Option<nat>>)

  const MAX_HEIGHT: nat := 12
  const HEAD: nat := 0

  // ---- Lists of nodes ---------------------------------------------------

  ghost predicate InArena(nodes: seq<Node>, l: nat, n: nat) {
    n < |nodes| && l < |nodes[n].next|
  }

  // The node before place i of a list, and the link it should have.
  function NodeBefore(list: seq<nat>, i: nat): nat
    requires i <= |list|
  {
    if i == 0 then HEAD else list[i - 1]
  }

  function Target(list: seq<nat>, i: nat): Option<nat>
    requires i <= |list|
  {
    if i < |list| then Some(list[i]) else None
  }

  ghost predicate LinkHolds(nodes: seq<Node>, l: nat, list: seq<nat>, i: nat)
    requires i <= |list|
  {
    InArena(nodes, l, NodeBefore(list, i)) && nodes[NodeBefore(list, i)].next[l] == Target(list, i)
  }

  ghost predicate KeyLess(nodes: seq<Node>, m: nat, n: nat) {
    m < |nodes| && n < |nodes| && Less(nodes[m].key, nodes[n].key)
  }

  // The links of level l run through the list, in key order.
  ghost predicate Linked(nodes: seq<Node>, l: nat, list: seq<nat>) {
    && (forall i {:trigger LinkHolds(nodes, l, list, i)} :: 0 <= i <= |list| ==> LinkHolds(nodes, l, list, i))
    && (forall i {:trigger InArena(nodes, l, list[i])} :: 0 <= i < |list| ==> InArena(nodes, l, list[i]) && list[i] != HEAD)
    && (forall i, j {:trigger KeyLess(nodes, list[i], list[j])} :: 0 <= i < j < |list| ==> KeyLess(nodes, list[i], list[j]))
  }

  // Every level is a sublist of the ones below.
  ghost predicate Nested(lists: seq<seq<nat>>) {
    forall l, m, n {:trigger lists[l], n in lists[m]} :: 0 <= l <= m < |lists| && n in lists[m] ==> n in lists[l]
  }

  ghost predicate Structured(nodes: seq<Node>, lists: seq<seq<nat>>) {
    && |lists| == MAX_HEIGHT && Nested(lists)
    && forall l {:trigger lists[l]} :: 0 <= l < MAX_HEIGHT ==> Linked(nodes, l, lists[l])
  }

  // The first p nodes of the list come before the key, the others do not.
  ghost predicate SplitsAt(nodes: seq<Node>, list: seq<nat>, key: InternalKey, p: nat) {
    && p <= |list|
    && (forall i {:trigger list[i]} :: 0 <= i < |list| ==> list[i] < |nodes| && (Less(nodes[list[i]].key, key) <==> i < p))
  }

  // What a search for the first node at or after the key should find.
  ghost predicate IsFirstAtOrAfter(nodes: seq<Node>, list: seq<nat>, key: InternalKey, r: Option<nat>) {
    exists p {:trigger Target(list, p)} :: 0 <= p <= |list| && SplitsAt(nodes, list, key, p) && r == Target(list, p)
  }

  // ---- Changing one link ------------------------------------------------

  function SetNext(nodes: seq<Node>, n: nat, l: nat, target: Option<nat>): seq<Node>
    requires n < |nodes| && l < |nodes[n].next|
  {
    nodes[n := Node(nodes[n].key, nodes[n].next[l := target])]
  }

  lemma SetElsewhere(nodes: seq<Node>, n: nat, l: nat, target: Option<nat>, m: nat, list: seq<nat>)
    requires InArena(nodes, l, n) && Linked(nodes, m, list) && (m != l || (n !in list && n != HEAD))
    ensures Linked(SetNext(nodes, n, l, target), m, list)
  {
    var w := SetNext(nodes, n, l, target);
    forall i | 0 <= i <= |list| ensures LinkHolds(w, m, list, i) {
      assert LinkHolds(nodes, m, list, i);
    }
    forall i | 0 <= i < |list| ensures InArena(w, m, list[i]) && list[i] != HEAD {
      assert InArena(nodes, m, list[i]);
    }
    forall i, j | 0 <= i < j < |list| ensures KeyLess(w, list[i], list[j]) {
      assert KeyLess(nodes, list[i], list[j]);
    }
  }

  lemma AppendElsewhere(nodes: seq<Node>, node: Node, m: nat, list: seq<nat>)
    requires Linked(nodes, m, list)
    ensures Linked(nodes + [node], m, list)
  {
    var w := nodes + [node];
    forall i | 0 <= i <= |list| ensures LinkHolds(w, m, list, i) {
      assert LinkHolds(nodes, m, list, i);
    }
    forall i | 0 <= i < |list| ensures InArena(w, m, list[i]) && list[i] != HEAD {
      assert InArena(nodes, m, list[i]);
    }
    forall i, j | 0 <= i < j < |list| ensures KeyLess(w, list[i], list[j]) {
      assert KeyLess(nodes, list[i], list[j]);
    }
  }

  function Inserted(list: seq<nat>, p: nat, x: nat): seq<nat>
    requires p <= |list|
  {
    list[..p] + [x] + list[p..]
  }

  lemma InsertedMembers(list: seq<nat>, p: nat, x: nat)
    requires p <= |list|
    ensures forall n {:trigger n in Inserted(list, p, x)} :: n in Inserted(list, p, x) <==> n == x || n in list
  {
    assert list == list[..p] + list[p..];
  }

  // A node whose own link is set enters the list when its predecessor's link is set.
  lemma PublishLinks(nodes: seq<Node>, l: nat, list: seq<nat>, p: nat, x: nat)
    requires Linked(nodes, l, list) && InArena(nodes, l, x) && x != HEAD && x !in list
    requires SplitsAt(nodes, list, nodes[x].key, p) && nodes[x].next[l] == Target(list, p)
    requires forall i {:trigger list[i]} :: 0 <= i < |list| ==> list[i] < |nodes| && nodes[list[i]].key != nodes[x].key
    ensures InArena(nodes, l, NodeBefore(list, p))
    ensures Linked(SetNext(nodes, NodeBefore(list, p), l, Some(x)), l, Inserted(list, p, x))
  {
    assert LinkHolds(nodes, l, list, p);
    var b, w, r := NodeBefore(list, p), SetNext(nodes, NodeBefore(list, p), l, Some(x)), Inserted(list, p, x);
    assert b != x;
    forall i | 0 <= i <= |r| ensures LinkHolds(w, l, r, i) {
      if i < p {
        assert LinkHolds(nodes, l, list, i);
        BeforeDiffers(nodes, l, list, i, p);
      } else if i > p + 1 {
        assert LinkHolds(nodes, l, list, i - 1);
        BeforeDiffers(nodes, l, list, i - 1, p);
      }
    }
    forall i | 0 <= i < |r| ensures InArena(w, l, r[i]) && r[i] != HEAD {
      if i < p {
        assert InArena(nodes, l, list[i]);
      } else if i > p {
        assert InArena(nodes, l, list[i - 1]);
      }
    }
    forall i, j | 0 <= i < j < |r| ensures KeyLess(w, r[i], r[j]) {
      PublishKeepsOrder(nodes, l, list, p, x, i, j);
    }
  }

  // Nodes before different places differ.
  lemma BeforeDiffers(nodes: seq<Node>, l: nat, list: seq<nat>, i: nat, p: nat)
    requires Linked(nodes, l, list) && i <= |list| && p <= |list| && i != p
    ensures NodeBefore(list, i) != NodeBefore(list, p)
  {
    if i > 0 {
      assert InArena(nodes, l, list[i - 1]);
    }
    if p > 0 {
      assert InArena(nodes, l, list[p - 1]);
    }
    if 0 < i < p {
      assert KeyLess(nodes, list[i - 1], list[p - 1]);
    } else if 0 < p < i {
      assert KeyLess(nodes, list[p - 1], list[i - 1]);
    }
  }

  lemma PublishKeepsOrder(nodes: seq<Node>, l: nat, list: seq<nat>, p: nat, x: nat, i: nat, j: nat)
    requires Linked(nodes, l, list) && InArena(nodes, l, x) && SplitsAt(nodes, list, nodes[x].key, p)
    requires forall i {:trigger list[i]} :: 0 <= i < |list| ==> list[i] < |nodes| && nodes[list[i]].key != nodes[x].key
    requires i < j < |Inserted(list, p, x)|
    ensures KeyLess(nodes, Inserted(list, p, x)[i], Inserted(list, p, x)[j])
  {
    var i', j' := if i < p then i else i - 1, if j < p then j else j - 1;
    if i != p && j != p {
      assert KeyLess(nodes, list[i'], list[j']);
    } else if j == p {
      assert list[i] in list;
    } else {
      assert list[j'] in list;
      KeysTotal(nodes[list[j']].key, nodes[x].key);
    }
  }

  lemma KeysTotal(a: InternalKey, b: InternalKey)
    ensures a == b || Less(a, b) || Less(b, a)
  {
    assert Tag(a) == Tag(b) ==> a.sequence == b.sequence && a.kind == b.kind;
  }

  // ---- One turn of a search ---------------------------------------------

  // Where a search stands: at the head, or at a node of the level before the key.
  ghost predicate Standing(nodes: seq<Node>, list: seq<nat>, x: nat, key: InternalKey) {
    x == HEAD || (x in list && x < |nodes| && Less(nodes[x].key, key))
  }

  // The link read there leads to the next node of the level.
  lemma ReadLink(nodes: seq<Node>, l: nat, list: seq<nat>, x: nat) returns (p: nat)
    requires Linked(nodes, l, list) && (x == HEAD || x in list)
    ensures InArena(nodes, l, x) && p <= |list| && x == NodeBefore(list, p) && nodes[x].next[l] == Target(list, p)
    ensures p < |list| ==> list[p] in list && list[p] < |nodes|
  {
    if x == HEAD {
      p := 0;
    } else {
      var i :| 0 <= i < |list| && list[i] == x;
      p := i + 1;
    }
    assert LinkHolds(nodes, l, list, p);
    assert p < |list| ==> InArena(nodes, l, list[p]);
  }

  // When the next node is not before the key, the place is found.
  lemma PlaceFound(nodes: seq<Node>, l: nat, list: seq<nat>, x: nat, key: InternalKey, p: nat)
    requires Linked(nodes, l, list) && Standing(nodes, list, x, key) && p <= |list| && x == NodeBefore(list, p)
    requires p < |list| ==> !(list[p] < |nodes| && Less(nodes[list[p]].key, key))
    ensures SplitsAt(nodes, list, key, p)
  {
    forall i | 0 <= i < |list| ensures list[i] < |nodes| && (Less(nodes[list[i]].key, key) <==> i < p) {
      assert InArena(nodes, l, list[i]);
      if i < p {
        assert InArena(nodes, l, list[p - 1]);
        assert i < p - 1 ==> KeyLess(nodes, list[i], list[p - 1]);
      } else {
        assert p < i ==> KeyLess(nodes, list[p], list[i]);
        assert InArena(nodes, l, list[p]);
      }
    }
  }

  // ---- Searches while a node is linked in -------------------------------

  // The writer's unfinished insertion: node x is in the lists below level, and
  // its own link there may already be set.
  datatype Pending = Pending(x: nat, level: nat)

  // A reader is at node x of a level, or has returned.
  datatype Search = Reading(key: InternalKey, x: nat, level: nat) | Found(key: InternalKey, result: Option<nat>)

  datatype Shared = Shared(nodes: seq<Node>, lists: seq<seq<nat>>, pending: Option<Pending>, search: Search)

  datatype Step = Read | NewNode(key: InternalKey, height: nat) | SetOwnLink(p: nat) | Publish(p: nat)

  // One turn of FindGreaterOrEqual.
  function Turn(nodes: seq<Node>, s: Search): Search
    requires s.Reading? && s.x < |nodes| && s.level < |nodes[s.x].next|
  {
    var next := nodes[s.x].next[s.level];
    if next.Some? && next.value < |nodes| && Less(nodes[next.value].key, s.key) then s.(x := next.value)
    else if s.level == 0 then Found(s.key, next)
    else s.(level := s.level - 1)
  }

  // The insertion is over.
  predicate LinkedIn(nodes: seq<Node>, p: Pending) {
    p.x < |nodes| && p.level == |nodes[p.x].next|
  }

  ghost predicate Next(st: Shared, step: Step, w: Shared) {
    |st.lists| == MAX_HEIGHT &&
    match step
    case Read =>
      && st.search.Reading? && InArena(st.nodes, st.search.level, st.search.x)
      && w == st.(search := Turn(st.nodes, st.search))
    case NewNode(key, height) =>
      && 0 < height <= MAX_HEIGHT && (st.pending.Some? ==> LinkedIn(st.nodes, st.pending.value))
      && (forall n {:trigger n in st.lists[0]} :: n in st.lists[0] ==> n < |st.nodes| && st.nodes[n].key != key)
      && w == st.(nodes := st.nodes + [Node(key, seq(height, i => None))], pending := Some(Pending(|st.nodes|, 0)))
    case SetOwnLink(p) =>
      && st.pending.Some? && InArena(st.nodes, st.pending.value.level, st.pending.value.x) && st.pending.value.level < MAX_HEIGHT
      && var x, l := st.pending.value.x, st.pending.value.level;
      && p <= |st.lists[l]| && w == st.(nodes := SetNext(st.nodes, x, l, Target(st.lists[l], p)))
    case Publish(p) =>
      && st.pending.Some? && InArena(st.nodes, st.pending.value.level, st.pending.value.x) && st.pending.value.level < MAX_HEIGHT
      && var x, l := st.pending.value.x, st.pending.value.level;
      && SplitsAt(st.nodes, st.lists[l], st.nodes[x].key, p) && st.nodes[x].next[l] == Target(st.lists[l], p)
      && InArena(st.nodes, l, NodeBefore(st.lists[l], p))
      && w == st.(nodes := SetNext(st.nodes, NodeBefore(st.lists[l], p), l, Some(x)),
                  lists := st.lists[l := Inserted(st.lists[l], p, x)], pending := Some(Pending(x, l + 1)))
  }

  // The pending node is in exactly the lists below its level, and no other node has its key.
  ghost predicate PendingFits(st: Shared)
    requires |st.lists| == MAX_HEIGHT
  {
    st.pending.Some? ==>
      var x, l := st.pending.value.x, st.pending.value.level;
      && 0 < x < |st.nodes| && l <= |st.nodes[x].next| <= MAX_HEIGHT
      && (forall m {:trigger st.lists[m]} :: 0 <= m < MAX_HEIGHT ==> (x in st.lists[m] <==> m < l))
      && (forall m, n {:trigger n in st.lists[m]} :: 0 <= m < MAX_HEIGHT && n in st.lists[m] && n != x ==> n < |st.nodes| && st.nodes[n].key != st.nodes[x].key)
  }

  ghost predicate SearchFits(st: Shared)
    requires |st.lists| == MAX_HEIGHT
  {
    st.search.Reading? ==> st.search.level < MAX_HEIGHT && Standing(st.nodes, st.lists[st.search.level], st.search.x, st.search.key)
  }

  ghost predicate Inv(st: Shared) {
    |st.nodes| > 0 && Structured(st.nodes, st.lists) && PendingFits(st) && SearchFits(st)
  }

  lemma ReadKeepsInv(st: Shared, w: Shared)
    requires Inv(st) && Next(st, Read, w)
    ensures Inv(w)
    ensures w.search.Found? ==> IsFirstAtOrAfter(st.nodes, st.lists[0], st.search.key, w.search.result)
  {
    var s := st.search;
    var list := st.lists[s.level];
    var p := ReadLink(st.nodes, s.level, list, s.x);
    if w.search.Found? {
      PlaceFound(st.nodes, 0, list, s.x, s.key, p);
      assert w.search.result == Target(st.lists[0], p);
    } else if w.search.level < s.level {
      assert s.x != HEAD ==> s.x in st.lists[s.level] && s.x in st.lists[w.search.level];
    }
  }

  lemma NewNodeKeepsInv(st: Shared, step: Step, w: Shared)
    requires Inv(st) && step.NewNode? && Next(st, step, w)
    ensures Inv(w)
  {
    var x, node := |st.nodes|, w.nodes[|st.nodes|];
    forall m | 0 <= m < MAX_HEIGHT ensures Linked(w.nodes, m, w.lists[m]) && x !in w.lists[m] {
      AppendElsewhere(st.nodes, node, m, st.lists[m]);
      forall i | 0 <= i < |st.lists[m]| ensures st.lists[m][i] != x {
        assert InArena(st.nodes, m, st.lists[m][i]);
      }
    }
    forall m, n | 0 <= m < MAX_HEIGHT && n in w.lists[m] && n != x ensures n < |w.nodes| && w.nodes[n].key != node.key {
      assert n in st.lists[0];
    }
  }

  lemma SetOwnKeepsInv(st: Shared, step: Step, w: Shared)
    requires Inv(st) && step.SetOwnLink? && Next(st, step, w)
    ensures Inv(w)
  {
    var x, l := st.pending.value.x, st.pending.value.level;
    forall m | 0 <= m < MAX_HEIGHT ensures Linked(w.nodes, m, w.lists[m]) {
      assert Linked(st.nodes, m, st.lists[m]);
      assert x in st.lists[l] <==> l < l;
      SetElsewhere(st.nodes, x, l, Target(st.lists[l], step.p), m, st.lists[m]);
    }
  }

  lemma PublishKeepsNested(st: Shared, step: Step, w: Shared)
    requires Inv(st) && step.Publish? && Next(st, step, w)
    ensures Nested(w.lists)
    ensures forall m, n {:trigger n in w.lists[m]} :: 0 <= m < MAX_HEIGHT ==> (n in w.lists[m] <==> n in st.lists[m] || (m == st.pending.value.level && n == st.pending.value.x))
  {
    var x, l := st.pending.value.x, st.pending.value.level;
    InsertedMembers(st.lists[l], step.p, x);
    forall k, m, n | 0 <= k <= m < MAX_HEIGHT && n in w.lists[m] ensures n in w.lists[k] {
      if n in st.lists[m] {
        assert n in st.lists[k];
      } else {
        assert m == l && n == x;
        assert k < l ==> x in st.lists[k];
      }
    }
  }

  lemma PublishKeepsInv(st: Shared, step: Step, w: Shared)
    requires Inv(st) && step.Publish? && Next(st, step, w)
    ensures Inv(w)
  {
    var x, l, p := st.pending.value.x, st.pending.value.level, step.p;
    var list := st.lists[l];
    PublishKeepsNested(st, step, w);
    assert Linked(st.nodes, l, list) && x !in list;
    forall i | 0 <= i < |list| ensures list[i] < |st.nodes| && st.nodes[list[i]].key != st.nodes[x].key {
      assert list[i] in st.lists[l] && list[i] != x;
    }
    PublishLinks(st.nodes, l, list, p, x);
    forall m | 0 <= m < MAX_HEIGHT ensures Linked(w.nodes, m, w.lists[m]) {
      if m != l {
        assert Linked(st.nodes, m, st.lists[m]);
        SetElsewhere(st.nodes, NodeBefore(list, p), l, Some(x), m, st.lists[m]);
      }
    }
    forall m | 0 <= m < MAX_HEIGHT ensures x in w.lists[m] <==> m < l + 1 {
      assert x in st.lists[m] <==> m < l;
    }
  }

  // Every single step of readers and of the writer keeps the nested lists, also
  // between two links of an insertion.
  lemma StepKeepsInv(st: Shared, step: Step, w: Shared)
    requires Inv(st) && Next(st, step, w)
    ensures Inv(w)
  {
    match step
    case Read => ReadKeepsInv(st, w);
    case NewNode(_, _) => NewNodeKeepsInv(st, step, w);
    case SetOwnLink(_) => SetOwnKeepsInv(st, step, w);
    case Publish(_) => PublishKeepsInv(st, step, w);
  }

  ghost predicate StepAt(states: seq<Shared>, steps: seq<Step>, i: nat)
    requires i < |steps| && i + 1 < |states|
  {
    Next(states[i], steps[i], states[i + 1])
  }

  // A search that starts at the head of some level, interleaved with a writer.
  ghost predicate IsRun(states: seq<Shared>, steps: seq<Step>) {
    && |states| == |steps| + 1 && Inv(states[0]) && states[0].search.Reading? && states[0].search.x == HEAD
    && forall i {:trigger StepAt(states, steps, i)} :: 0 <= i < |steps| ==> StepAt(states, steps, i)
  }

  lemma {:induction false} RunKeepsInv(states: seq<Shared>, steps: seq<Step>, n: nat)
    requires IsRun(states, steps) && n < |states|
    ensures Inv(states[n])
  {
    if n > 0 {
      RunKeepsInv(states, steps, n - 1);
      assert StepAt(states, steps, n - 1);
      StepKeepsInv(states[n - 1], steps[n - 1], states[n]);
    }
  }

  // The result of a search is the first node at or after the key in the bottom
  // list as it was at the search's last read.
  lemma SearchLinearizes(states: seq<Shared>, steps: seq<Step>, n: nat)
    requires IsRun(states, steps) && n < |steps| && states[n].search.Reading? && states[n + 1].search.Found?
    ensures steps[n] == Read && |states[n].lists| == MAX_HEIGHT
    ensures IsFirstAtOrAfter(states[n].nodes, states[n].lists[0], states[n].search.key, states[n + 1].search.result)
  {
    RunKeepsInv(states, steps, n);
    assert StepAt(states, steps, n);
    ReadKeepsInv(states[n], states[n + 1]);
  }

  // ---- The list ---------------------------------------------------------

  // prev is the node before the key's place in every level.
  ghost predicate PlacesFrom(nodes: seq<Node>, lists: seq<seq<nat>>, key: InternalKey, prev: seq<nat>, places: seq<nat>, from: nat, to: nat)
    requires |lists| == MAX_HEIGHT && to <= |prev| && to <= |places| && to <= MAX_HEIGHT
  {
    forall l {:trigger prev[l]} {:trigger places[l]} :: from <= l < to ==>
      SplitsAt(nodes, lists[l], key, places[l]) && prev[l] == NodeBefore(lists[l], places[l])
  }

  ghost function Keys(nodes: seq<Node>, list: seq<nat>): (r: seq<InternalKey>)
    requires forall i {:trigger list[i]} :: 0 <= i < |list| ==> list[i] < |nodes|
    ensures |r| == |list| && forall i {:trigger r[i]} :: 0 <= i < |list| ==> r[i] == nodes[list[i]].key
  {
    seq(|list|, i requires 0 <= i < |list| => nodes[list[i]].key)
  }

  class List {
    var nodes: seq<Node>
    var maxHeight: nat
    ghost var lists: seq<seq<nat>>

    ghost predicate Valid()
      reads this
    {
      && |nodes| > 0 && Structured(nodes, lists) && 0 < maxHeight <= MAX_HEIGHT
      && (forall l {:trigger lists[l]} :: maxHeight <= l < MAX_HEIGHT ==> lists[l] == [])
      && (forall i {:trigger lists[0][i]} :: 0 <= i < |lists[0]| ==> lists[0][i] < |nodes|)
    }

    // The keys in order.
    ghost function Contents(): seq<InternalKey>
      requires Valid()
      reads this
    {
      Keys(nodes, lists[0])
    }

    lemma ContentsAscend(i: nat, j: nat)
      requires Valid() && i < j < |Contents()|
      ensures Less(Contents()[i], Contents()[j])
    {
      assert Linked(nodes, 0, lists[0]);
      assert KeyLess(nodes, lists[0][i], lists[0][j]);
    }

    constructor ()
      ensures Valid() && Contents() == []
    {
      nodes := [Node(InternalKey(0.0, 0, Deletion), seq(MAX_HEIGHT, i => None))];
      maxHeight := 1;
      lists := seq(MAX_HEIGHT, l => []);
    }

    method FindGreaterOrEqual(key: InternalKey) returns (r: Option<nat>, prev: seq<nat>, ghost places: seq<nat>)
      requires Valid()
      ensures |prev| == |places| == maxHeight && PlacesFrom(nodes, lists, key, prev, places, 0, maxHeight)
      ensures r == Target(lists[0], places[0])
    {
      var x: nat, level: nat := HEAD, maxHeight - 1;
      prev, places := seq(maxHeight, i => HEAD), seq(maxHeight, i => 0);
      ghost var p: nat := 0;
      while true
        invariant 0 <= level < maxHeight && |prev| == |places| == maxHeight
        invariant Standing(nodes, lists[level], x, key) && p <= |lists[level]| && x == NodeBefore(lists[level], p)
        invariant PlacesFrom(nodes, lists, key, prev, places, level + 1, maxHeight)
        decreases level, |lists[level]| - p
      {
        assert Linked(nodes, level, lists[level]) && LinkHolds(nodes, level, lists[level], p);
        assert p < |lists[level]| ==> InArena(nodes, level, lists[level][p]);
        var next := nodes[x].next[level];
        if next.Some? && Less(nodes[next.value].key, key) {
          x := next.value;
          p := p + 1;
        } else {
          PlaceFound(nodes, level, lists[level], x, key, p);
          prev, places := prev[level := x], places[level := p];
          if level == 0 {
            return next, prev, places;
          }
          assert x != HEAD ==> x in lists[level] && x in lists[level - 1];
          level := level - 1;
          assert Linked(nodes, level, lists[level]);
          p := ReadLink(nodes, level, lists[level], x);
        }
      }
    }

    // The latest node before the key, or the head.
    method FindLessThan(key: InternalKey) returns (x: nat, ghost p: nat)
      requires Valid()
      ensures SplitsAt(nodes, lists[0], key, p) && x == NodeBefore(lists[0], p)
    {
      var level: nat := maxHeight - 1;
      x, p := HEAD, 0;
      while true
        invariant 0 <= level < maxHeight && Standing(nodes, lists[level], x, key)
        invariant p <= |lists[level]| && x == NodeBefore(lists[level], p)
        decreases level, |lists[level]| - p
      {
        assert Linked(nodes, level, lists[level]) && LinkHolds(nodes, level, lists[level], p);
        assert p < |lists[level]| ==> InArena(nodes, level, lists[level][p]);
        var next := nodes[x].next[level];
        if next.None? || !Less(nodes[next.value].key, key) {
          PlaceFound(nodes, level, lists[level], x, key, p);
          if level == 0 {
            return;
          }
          assert x != HEAD ==> x in lists[level] && x in lists[level - 1];
          level := level - 1;
          assert Linked(nodes, level, lists[level]);
          p := ReadLink(nodes, level, lists[level], x);
        } else {
          x := next.value;
          p := p + 1;
        }
      }
    }

    // The last node, or the head.
    method FindLast() returns (x: nat)
      requires Valid()
      ensures x == NodeBefore(lists[0], |lists[0]|)
    {
      var level: nat := maxHeight - 1;
      ghost var p: nat := 0;
      x := HEAD;
      while true
        invariant 0 <= level < maxHeight && (x == HEAD || x in lists[level])
        invariant p <= |lists[level]| && x == NodeBefore(lists[level], p)
        decreases level, |lists[level]| - p
      {
        assert Linked(nodes, level, lists[level]) && LinkHolds(nodes, level, lists[level], p);
        var next := nodes[x].next[level];
        if next.None? {
          if level == 0 {
            return;
          }
          assert x != HEAD ==> x in lists[level] && x in lists[level - 1];
          level := level - 1;
          assert Linked(nodes, level, lists[level]);
          p := ReadLink(nodes, level, lists[level], x);
        } else {
          x := next.value;
          p := p + 1;
        }
      }
    }

    method Contains(key: InternalKey) returns (found: bool)
      requires Valid()
      ensures found <==> key in Contents()
    {
      var x, prev;
      ghost var places;
      x, prev, places := FindGreaterOrEqual(key);
      found := x.Some? && !Less(key, nodes[x.value].key) && !Less(nodes[x.value].key, key);
      ContainsKey(key, prev, places, x);
    }

    lemma ContainsKey(key: InternalKey, prev: seq<nat>, places: seq<nat>, x: Option<nat>)
      requires Valid() && |prev| == |places| == maxHeight && PlacesFrom(nodes, lists, key, prev, places, 0, maxHeight)
      requires x == Target(lists[0], places[0])
      ensures x.Some? ==> x.value < |nodes|
      ensures key in Contents() <==> x.Some? && nodes[x.value].key == key
      ensures x.Some? && !Less(key, nodes[x.value].key) && !Less(nodes[x.value].key, key) ==> nodes[x.value].key == key
    {
      var list, p := lists[0], places[0];
      assert SplitsAt(nodes, list, key, p) && Linked(nodes, 0, list);
      if x.Some? {
        KeysTotal(key, nodes[x.value].key);
        assert Contents()[p] == nodes[list[p]].key;
      }
      if key in Contents() {
        var i :| 0 <= i < |list| && Contents()[i] == key;
        assert list[i] in list && i >= p;
        assert p < i ==> KeyLess(nodes, list[p], list[i]);
      }
    }

    // One turn of the loop in Insert: exactly the steps SetOwnLink and Publish.
    method LinkOne(key: InternalKey, node: nat, i: nat, before: nat, ghost q: nat)
      requires Inv(Shared(nodes, lists, Some(Pending(node, i)), Found(key, None)))
      requires node < |nodes| && nodes[node].key == key && i < |nodes[node].next|
      requires SplitsAt(nodes, lists[i], key, q) && before == NodeBefore(lists[i], q)
      modifies this`nodes, this`lists
      ensures Inv(Shared(nodes, lists, Some(Pending(node, i + 1)), Found(key, None)))
      ensures SameKeys(old(nodes), nodes) && lists == old(lists)[i := Inserted(old(lists)[i], q, node)]
    {
      ghost var st := Shared(nodes, lists, Some(Pending(node, i)), Found(key, None));
      assert Linked(nodes, i, lists[i]) && LinkHolds(nodes, i, lists[i], q);
      assert node !in lists[i];
      nodes := SetNext(nodes, node, i, nodes[before].next[i]);
      ghost var st1 := Shared(nodes, lists, Some(Pending(node, i)), Found(key, None));
      SetOwnKeepsInv(st, SetOwnLink(q), st1);
      assert Linked(nodes, i, lists[i]) && LinkHolds(nodes, i, lists[i], q);
      nodes := SetNext(nodes, before, i, Some(node));
      lists := lists[i := Inserted(lists[i], q, node)];
      PublishKeepsInv(st1, Publish(q), Shared(nodes, lists, Some(Pending(node, i + 1)), Found(key, None)));
    }

    // Link a new node into every level up to its height, bottom up.
    method Insert(key: InternalKey, height: nat) returns (ghost p: nat)
      requires Valid() && 0 < height <= MAX_HEIGHT && key !in Contents()
      modifies this
      ensures Valid() && p <= |old(Contents())| && Contents() == old(Contents())[..p] + [key] + old(Contents())[p..]
      ensures forall l {:trigger lists[l]} :: 0 <= l < MAX_HEIGHT ==>
                forall n :: n in lists[l] <==> n in old(lists)[l] || (l < height && n == |old(nodes)|)
    {
      ghost var lists0, nodes0 := lists, nodes;
      var x, prev;
      ghost var places;
      x, prev, places := FindGreaterOrEqual(key);
      p := places[0];
      prev, places := RaiseTo(key, height, prev, places);
      var node := |nodes|;
      nodes := nodes + [Node(key, seq(height, i => None))];
      StartInsert(nodes0, key, height, lists, prev, places);
      ghost var m := |prev|;
      for i := 0 to height
        invariant Inv(Shared(nodes, lists, Some(Pending(node, i)), Found(key, None)))
        invariant node == |nodes0| && SameKeys(nodes0 + [Node(key, seq(height, i => None))], nodes)
        invariant |lists| == MAX_HEIGHT && LinkedUpTo(lists0, lists, places, node, i)
        invariant maxHeight == |prev|
      {
        PlaceStill(nodes0, nodes, lists0, key, prev, places, i);
        LinkOne(key, node, i, prev[i], places[i]);
      }
      InsertEnds(nodes0, nodes, lists0, lists, places, node, key, height);
    }

    method RaiseTo(key: InternalKey, height: nat, prev0: seq<nat>, ghost places0: seq<nat>) returns (prev: seq<nat>, ghost places: seq<nat>)
      requires Valid() && 0 < height <= MAX_HEIGHT && |prev0| == |places0| == maxHeight
      requires PlacesFrom(nodes, lists, key, prev0, places0, 0, maxHeight)
      modifies this`maxHeight
      ensures Valid() && |prev| == |places| == maxHeight >= height && maxHeight >= old(maxHeight) && places[0] == places0[0]
      ensures PlacesFrom(nodes, lists, key, prev, places, 0, maxHeight)
    {
      prev, places := prev0, places0;
      if height > maxHeight {
        for i := maxHeight to height
          invariant |prev| == |places| == i && PlacesFrom(nodes, lists, key, prev, places, 0, i) && places[0] == places0[0]
        {
          assert lists[i] == [];
          prev, places := prev + [HEAD], places + [0];
        }
        maxHeight := height;
      }
    }
  }

  ghost predicate SameKeys(a: seq<Node>, b: seq<Node>) {
    |a| == |b| && forall n {:trigger b[n]} {:trigger a[n]} :: 0 <= n < |a| ==> b[n].key == a[n].key && |b[n].next| == |a[n].next|
  }

  ghost predicate LinkedUpTo(lists0: seq<seq<nat>>, lists: seq<seq<nat>>, places: seq<nat>, node: nat, i: nat) {
    |lists0| == |lists| && i <= |places| && i <= |lists| &&
    forall l {:trigger lists[l]} :: 0 <= l < |lists| ==>
      if l < i then places[l] <= |lists0[l]| && lists[l] == Inserted(lists0[l], places[l], node) else lists[l] == lists0[l]
  }

  lemma StartInsert(nodes: seq<Node>, key: InternalKey, height: nat, lists: seq<seq<nat>>, prev: seq<nat>, places: seq<nat>)
    requires |nodes| > 0 && Structured(nodes, lists) && 0 < height <= MAX_HEIGHT
    requires forall i {:trigger lists[0][i]} :: 0 <= i < |lists[0]| ==> lists[0][i] < |nodes|
    requires key !in Keys(nodes, lists[0])
    ensures Inv(Shared(nodes + [Node(key, seq(height, i => None))], lists, Some(Pending(|nodes|, 0)), Found(key, None)))
  {
    var list := lists[0];
    forall n | n in list ensures n < |nodes| && nodes[n].key != key {
      var i :| 0 <= i < |list| && list[i] == n;
      assert Keys(nodes, list)[i] == nodes[n].key;
    }
    NewNodeKeepsInv(Shared(nodes, lists, None, Found(key, None)), NewNode(key, height),
                    Shared(nodes + [Node(key, seq(height, i => None))], lists, Some(Pending(|nodes|, 0)), Found(key, None)));
  }

  // The places found before are still right: no key moved.
  lemma PlaceStill(nodes0: seq<Node>, nodes: seq<Node>, lists: seq<seq<nat>>, key: InternalKey, prev: seq<nat>, places: seq<nat>, i: nat)
    requires |lists| == MAX_HEIGHT && i < |prev| == |places| <= MAX_HEIGHT && PlacesFrom(nodes0, lists, key, prev, places, 0, |prev|)
    requires |nodes0| <= |nodes| && forall n {:trigger nodes[n]} :: 0 <= n < |nodes0| ==> nodes[n].key == nodes0[n].key
    ensures SplitsAt(nodes, lists[i], key, places[i]) && prev[i] == NodeBefore(lists[i], places[i])
  {
    assert SplitsAt(nodes0, lists[i], key, places[i]);
  }

  lemma InsertEnds(nodes0: seq<Node>, nodes: seq<Node>, lists0: seq<seq<nat>>, lists: seq<seq<nat>>, places: seq<nat>, node: nat, key: InternalKey, height: nat)
    requires |lists0| == MAX_HEIGHT && 0 < height <= |places| && height <= MAX_HEIGHT && LinkedUpTo(lists0, lists, places, node, height)
    requires node == |nodes0| && SameKeys(nodes0 + [Node(key, seq(height, i => None))], nodes)
    requires forall i {:trigger lists0[0][i]} :: 0 <= i < |lists0[0]| ==> lists0[0][i] < |nodes0|
    ensures forall i {:trigger lists[0][i]} :: 0 <= i < |lists[0]| ==> lists[0][i] < |nodes|
    ensures places[0] <= |lists0[0]|
    ensures Keys(nodes, lists[0]) == Keys(nodes0, lists0[0])[..places[0]] + [key] + Keys(nodes0, lists0[0])[places[0]..]
    ensures forall l {:trigger lists[l]} :: 0 <= l < MAX_HEIGHT ==> forall n :: n in lists[l] <==> n in lists0[l] || (l < height && n == node)
  {
    var w := nodes0 + [Node(key, seq(height, i => None))];
    var list := lists[0];
    assert list == Inserted(lists0[0], places[0], node);
    forall i | 0 <= i < |lists[0]| ensures lists[0][i] < |nodes| {
      assert nodes[node].key == w[node].key;
    }
    forall n | 0 <= n < |nodes0| ensures nodes[n].key == nodes0[n].key {
      assert w[n] == nodes0[n];
    }
    assert nodes[node].key == w[node].key == key;
    forall l | 0 <= l < MAX_HEIGHT ensures forall n :: n in lists[l] <==> n in lists0[l] || (l < height && n == node) {
      var list := lists[l];
      if l < height {
        InsertedMembers(lists0[l], places[l], node);
      }
    }
  }

  // SkipList::Iterator is one cursor over the bottom list.
  class Iterator {
    const list: List
    var node: Option<nat>
    ghost var place: nat   // index into the bottom list; its length when not valid

    ghost predicate Valid()
      reads this, list
    {
      list.Valid() && place <= |list.lists[0]| && node == Target(list.lists[0], place)
    }

    constructor (list: List)
      requires list.Valid()
      ensures Valid() && node == None && this.list == list
    {
      this.list, node, place := list, None, |list.lists[0]|;
    }

    function Key(): InternalKey
      requires Valid() && node.Some?
      reads this, list
      ensures Key() == list.Contents()[place]
    {
      assert list.Contents()[place] == list.nodes[list.lists[0][place]].key;
      list.nodes[node.value].key
    }

    method Next()
      requires Valid() && node.Some?
      modifies this
      ensures Valid() && place == old(place) + 1
    {
      assert Linked(list.nodes, 0, list.lists[0]) && LinkHolds(list.nodes, 0, list.lists[0], place + 1);
      node := list.nodes[node.value].next[0];
      place := place + 1;
    }

    method Prev()
      requires Valid() && node.Some?
      modifies this
      ensures Valid() && place == if old(place) == 0 then |list.Contents()| else old(place) - 1
    {
      var l := list;
      ghost var bottom := l.lists[0];
      var key := Key();
      var x;
      ghost var p;
      x, p := l.FindLessThan(key);
      SplitIsPlace(l.nodes, bottom, place, p);
      assert Linked(l.nodes, 0, bottom);
      assert p > 0 ==> InArena(l.nodes, 0, bottom[p - 1]);
      node := if x == HEAD then None else Some(x);
      place := if p == 0 then |bottom| else p - 1;
    }

    method Seek(target: InternalKey)
      requires Valid()
      modifies this
      ensures Valid() && SplitsAt(list.nodes, list.lists[0], target, place)
    {
      var prev;
      ghost var places;
      node, prev, places := list.FindGreaterOrEqual(target);
      place := places[0];
    }

    method SeekToFirst()
      requires Valid()
      modifies this
      ensures Valid() && place == 0
    {
      assert Linked(list.nodes, 0, list.lists[0]) && LinkHolds(list.nodes, 0, list.lists[0], 0);
      node := list.nodes[HEAD].next[0];
      place := 0;
    }

    method SeekToLast()
      requires Valid()
      modifies this
      ensures Valid() && place == if list.Contents() == [] then 0 else |list.Contents()| - 1
    {
      var x := list.FindLast();
      ghost var bottom := list.lists[0];
      assert Linked(list.nodes, 0, bottom);
      assert bottom != [] ==> InArena(list.nodes, 0, bottom[|bottom| - 1]);
      node := if x == HEAD then None else Some(x);
      place := if bottom == [] then 0 else |bottom| - 1;
    }
  }

  // Seeking a key of the list finds its own place.
  lemma SplitIsPlace(nodes: seq<Node>, list: seq<nat>, i: nat, p: nat)
    requires Linked(nodes, 0, list) && i < |list| && list[i] < |nodes| && SplitsAt(nodes, list, nodes[list[i]].key, p)
    ensures p == i
  {
    assert p < i ==> KeyLess(nodes, list[p], list[i]);
  }
}
