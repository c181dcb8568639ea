// The queue of writers: one writer at the front logs and applies a group of
// batches for those behind it (db/db_impl.cc, Write, BuildBatchGroup).

module WriterQueue {
  import opened DbFormat

  // One Put or Delete; its contents do not matter here.
  type Op = seq<byte>

  // A null batch only waits for room.  Writers are numbered in the order they join.
  datatype Writer = Writer(id: nat, batch: Option<seq<Op>>, size: nat, sync: bool)

  // A log record: the batches of a group under one first sequence number.
  datatype Record = Record(first: nat, members: seq<Writer>, synced: bool, inserted: bool)

  datatype Phase = Logging | Syncing | Inserting | Finishing(ok: bool)

  // The group the front writer works for while the lock is released.
  datatype Group = Group(first: nat, members: seq<Writer>, sync: bool, phase: Phase)

  datatype Ack = Ack(writer: Writer, ok: bool)

  datatype State = State(
    queue: seq<Writer>,
    group: Option<Group>,
    log: seq<Record>,
    mem: seq<(nat, Op)>,      // sequence number, operation
    lastSequence: nat,
    acks: seq<Ack>,           // released writers, in order
    bgError: bool)

  function OpsOf(w: Writer): seq<Op> {
    if w.batch.Some? then w.batch.value else []
  }

  function Ops(ws: seq<Writer>): seq<Op> {
    if ws == [] then [] else Ops(ws[..|ws| - 1]) + OpsOf(ws[|ws| - 1])
  }

  // What inserting a group adds: its operations under consecutive numbers.
  function Numbered(first: nat, ops: seq<Op>): (r: seq<(nat, Op)>)
    ensures |r| == |ops| && forall i {:trigger r[i]} :: 0 <= i < |r| ==> r[i] == (first + i, ops[i])
  {
    seq(|ops|, i requires 0 <= i < |ops| => (first + i, ops[i]))
  }

  // ---- BuildBatchGroup --------------------------------------------------

  const MAX_GROUP_SIZE: nat := 0x10_0000
  const SMALL_BATCH: nat := 0x2_0000

  function Limit(firstSize: nat): nat {
    if firstSize <= SMALL_BATCH then firstSize + SMALL_BATCH else MAX_GROUP_SIZE
  }

  // How many writers, of those from position i on, still join the group.
  function Joining(queue: seq<Writer>, i: nat, size: nat): (k: nat)
    requires 0 < i <= |queue|
    ensures i <= k <= |queue|
    decreases |queue| - i
  {
    if i == |queue| || (queue[i].sync && !queue[0].sync) then i
    else if queue[i].batch.None? then Joining(queue, i + 1, size)
    else if size + queue[i].size > Limit(queue[0].size) then i
    else Joining(queue, i + 1, size + queue[i].size)
  }

  function GroupSize(queue: seq<Writer>): (k: nat)
    requires queue != []
    ensures 0 < k <= |queue|
  {
    Joining(queue, 1, queue[0].size)
  }

  method BuildBatchGroup(queue: seq<Writer>) returns (members: nat, ops: seq<Op>)
    requires queue != [] && queue[0].batch.Some?
    ensures members == GroupSize(queue) && ops == Ops(queue[..members])
    ensures forall j: nat {:trigger MayJoin(queue, j)} :: 0 < j < members ==> MayJoin(queue, j)
    ensures members < |queue| ==> !MayJoin(queue, members)
  {
    assert queue[1..1] == [];
    GroupIsLongest(queue, 1, queue[0].size);
    var size: nat := queue[0].size;
    members, ops := 1, queue[0].batch.value;
    assert queue[..1][..0] == [] && [] + OpsOf(queue[0]) == OpsOf(queue[0]);
    while members < |queue|
      invariant 0 < members <= |queue| && ops == Ops(queue[..members])
      invariant Joining(queue, members, size) == GroupSize(queue)
      decreases |queue| - members
    {
      var w := queue[members];
      assert queue[..members + 1][..members] == queue[..members];
      if w.sync && !queue[0].sync {
        // no sync write in a group logged without sync
        break;
      }
      if w.batch.Some? {
        if size + w.size > Limit(queue[0].size) {
          break;
        }
        size := size + w.size;
        ops := ops + w.batch.value;
      } else {
        assert ops + OpsOf(w) == ops;
      }
      members := members + 1;
    }
  }

  // A sync writer only joins a group that is synced.
  lemma {:induction false} SyncWritersJoinSync(queue: seq<Writer>, i: nat, size: nat, j: nat)
    requires 0 < i <= |queue| && i <= j < Joining(queue, i, size) && queue[j].sync
    ensures queue[0].sync
    decreases |queue| - i
  {
    if i < j {
      if queue[i].batch.None? {
        SyncWritersJoinSync(queue, i + 1, size, j);
      } else {
        SyncWritersJoinSync(queue, i + 1, size + queue[i].size, j);
      }
    }
  }

  // Apart from the first batch alone, a group keeps its size limit.
  lemma {:induction false} GroupFits(queue: seq<Writer>, i: nat, size: nat)
    requires 0 < i <= |queue| && size <= Limit(queue[0].size)
    ensures size + TotalSize(queue[i..Joining(queue, i, size)]) <= Limit(queue[0].size)
    decreases |queue| - i
  {
    var k := Joining(queue, i, size);
    if i < k {
      assert queue[i..k][0] == queue[i] && queue[i..k][1..] == queue[i + 1..k];
      if queue[i].batch.None? {
        GroupFits(queue, i + 1, size);
      } else {
        GroupFits(queue, i + 1, size + queue[i].size);
      }
    }
  }

  function TotalSize(ws: seq<Writer>): nat {
    if ws == [] then 0 else (if ws[0].batch.Some? then ws[0].size else 0) + TotalSize(ws[1..])
  }

  // Writer j can be taken together with all before it.
  predicate MayJoin(queue: seq<Writer>, j: nat)
    requires 0 < j < |queue|
  {
    && (queue[j].sync ==> queue[0].sync)
    && (queue[j].batch.Some? ==> queue[0].size + TotalSize(queue[1..j]) + queue[j].size <= Limit(queue[0].size))
  }

  lemma {:induction false} TotalSizeGrows(ws: seq<Writer>, w: Writer)
    ensures TotalSize(ws + [w]) == TotalSize(ws) + if w.batch.Some? then w.size else 0
  {
    if ws == [] {
      assert [w][1..] == [];
    } else {
      assert (ws + [w])[1..] == ws[1..] + [w];
      TotalSizeGrows(ws[1..], w);
    }
  }

  // The group is the longest that may be: each of its members may join, and the writer after it may not.
  lemma {:induction false} GroupIsLongest(queue: seq<Writer>, i: nat, size: nat)
    requires 0 < i <= |queue| && size == queue[0].size + TotalSize(queue[1..i])
    ensures var k := Joining(queue, i, size);
            (forall j: nat {:trigger MayJoin(queue, j)} :: i <= j < k ==> MayJoin(queue, j)) && (k < |queue| ==> !MayJoin(queue, k))
    decreases |queue| - i
  {
    if i < |queue| && MayJoin(queue, i) {
      assert queue[1..i + 1] == queue[1..i] + [queue[i]];
      TotalSizeGrows(queue[1..i], queue[i]);
      GroupIsLongest(queue, i + 1, queue[0].size + TotalSize(queue[1..i + 1]));
    }
  }

  // ---- Steps ------------------------------------------------------------

  datatype Step =
    | Join(batch: Option<seq<Op>>, size: nat, sync: bool)
    | FailFast                   // an earlier background error
    | PassNull                   // a null batch at the front
    | Build
    | Log(ok: bool)
    | Sync(ok: bool)
    | Insert
    | Finish

  // Every writer that ever joined, in order.
  ghost function Joined(st: State): seq<Writer> {
    Released(st.acks) + st.queue
  }

  function Released(acks: seq<Ack>): (ws: seq<Writer>)
    ensures |ws| == |acks| && forall i {:trigger ws[i]} :: 0 <= i < |ws| ==> ws[i] == acks[i].writer
  {
    seq(|acks|, i requires 0 <= i < |acks| => acks[i].writer)
  }

  function Acknowledge(ws: seq<Writer>, ok: bool): (acks: seq<Ack>)
    ensures |acks| == |ws| && forall i {:trigger acks[i]} :: 0 <= i < |ws| ==> acks[i] == Ack(ws[i], ok)
  {
    seq(|ws|, i requires 0 <= i < |ws| => Ack(ws[i], ok))
  }

  // fsync covers the whole file.
  function SyncAll(log: seq<Record>): (r: seq<Record>)
    ensures |r| == |log| && forall i {:trigger r[i]} :: 0 <= i < |r| ==> r[i] == log[i].(synced := true)
  {
    seq(|log|, i requires 0 <= i < |log| => log[i].(synced := true))
  }

  ghost predicate Next(st: State, step: Step, w: State) {
    match step
    case Join(batch, size, sync) =>
      w == st.(queue := st.queue + [Writer(|st.acks| + |st.queue|, batch, size, sync)])
    case FailFast =>
      && st.bgError && st.group.None? && st.queue != []
      && w == st.(queue := st.queue[1..], acks := st.acks + [Ack(st.queue[0], false)])
    case PassNull =>
      && !st.bgError && st.group.None? && st.queue != [] && st.queue[0].batch.None?
      && w == st.(queue := st.queue[1..], acks := st.acks + [Ack(st.queue[0], true)])
    case Build =>
      && !st.bgError && st.group.None? && st.queue != [] && st.queue[0].batch.Some?
      && w == st.(group := Some(Group(st.lastSequence + 1, st.queue[..GroupSize(st.queue)], st.queue[0].sync, Logging)))
    case Log(ok) =>
      && st.group.Some? && st.group.value.phase == Logging
      && var g := st.group.value;
      w == if ok then st.(log := st.log + [Record(g.first, g.members, false, false)],
                          group := Some(g.(phase := if g.sync then Syncing else Inserting)))
           else st.(group := Some(g.(phase := Finishing(false))))
    case Sync(ok) =>
      && st.group.Some? && st.group.value.phase == Syncing
      && var g := st.group.value;
      w == if ok then st.(log := SyncAll(st.log), group := Some(g.(phase := Inserting)))
           else st.(bgError := true, group := Some(g.(phase := Finishing(false))))
    case Insert =>
      && st.group.Some? && st.group.value.phase == Inserting && st.log != []
      && var g, k := st.group.value, |st.log| - 1;
      w == st.(mem := st.mem + Numbered(g.first, Ops(g.members)), log := st.log[k := st.log[k].(inserted := true)],
               group := Some(g.(phase := Finishing(true))))
    case Finish =>
      && st.group.Some? && st.group.value.phase.Finishing?
      && var g := st.group.value;
      && |g.members| <= |st.queue|
      && w == st.(lastSequence := st.lastSequence + |Ops(g.members)|, group := None,
                  queue := st.queue[|g.members|..], acks := st.acks + Acknowledge(g.members, g.phase.ok))
  }

  ghost predicate Init(st: State) {
    st.queue == [] && st.group == None && st.log == [] && st.mem == [] && st.acks == [] && !st.bgError
  }

  // ---- Invariant --------------------------------------------------------

  // Writers are numbered as they joined.
  ghost predicate InOrder(ws: seq<Writer>) {
    forall i {:trigger ws[i]} :: 0 <= i < |ws| ==> ws[i].id == i
  }

  function End(r: Record): nat {
    r.first + |Ops(r.members)|
  }

  // The number of the writer after the last member.
  function NextId(ws: seq<Writer>): nat {
    if ws == [] then 0 else ws[0].id + |ws|
  }

  ghost predicate RecordBefore(r: Record, s: Record) {
    End(r) <= s.first && s.members != [] && NextId(r.members) <= s.members[0].id
  }

  // Records follow each other in the queue's order with disjoint numbers.
  ghost predicate LogOrdered(log: seq<Record>) {
    forall i, j {:trigger RecordBefore(log[i], log[j])} :: 0 <= i < j < |log| ==> RecordBefore(log[i], log[j])
  }

  // A member of a record is one of the writers that joined, and occurs once.
  ghost predicate MembersJoined(log: seq<Record>, joined: seq<Writer>) {
    forall i {:trigger IsRun(log[i].members, joined)} :: 0 <= i < |log| ==> IsRun(log[i].members, joined)
  }

  // Neighbours in the queue.
  ghost predicate IsRun(ws: seq<Writer>, joined: seq<Writer>) {
    ws != [] && ws[0].id + |ws| <= |joined| && ws == joined[ws[0].id..ws[0].id + |ws|]
  }

  // What was inserted, record by record.
  ghost function InsertedOf(log: seq<Record>): seq<(nat, Op)> {
    if log == [] then []
    else
      var r := log[|log| - 1];
      InsertedOf(log[..|log| - 1]) + (if r.inserted then Numbered(r.first, Ops(r.members)) else [])
  }

  // The record the group in progress has logged.
  ghost predicate OwnRecord(g: Group, r: Record) {
    && r.first == g.first && r.members == g.members
    && (g.phase == Syncing || g.phase == Inserting ==> !r.inserted) && (g.phase == Finishing(true) ==> r.inserted)
    && (g.sync && (g.phase == Inserting || g.phase == Finishing(true)) ==> r.synced)
  }

  // Records of finished groups end by the last sequence number.
  ghost predicate Finished(log: seq<Record>, n: nat, lastSequence: nat, released: nat)
    requires n <= |log|
  {
    forall i {:trigger End(log[i])} :: 0 <= i < n ==> End(log[i]) <= lastSequence + 1 && NextId(log[i].members) <= released
  }

  ghost predicate GroupMatches(st: State) {
    match st.group
    case None => Finished(st.log, |st.log|, st.lastSequence, |st.acks|)
    case Some(g) =>
      && g.members != [] && g.members <= st.queue && g.first == st.lastSequence + 1
      && (forall x {:trigger x.sync} :: x in g.members && x.sync ==> g.sync)
      && if g.phase == Logging then Finished(st.log, |st.log|, st.lastSequence, |st.acks|)
         else if g.phase == Finishing(false) then
           || Finished(st.log, |st.log|, st.lastSequence, |st.acks|)
           || (st.log != [] && Finished(st.log, |st.log| - 1, st.lastSequence, |st.acks|) && OwnRecord(g, st.log[|st.log| - 1]))
         else st.log != [] && Finished(st.log, |st.log| - 1, st.lastSequence, |st.acks|) && OwnRecord(g, st.log[|st.log| - 1])
  }

  // A released writer's batch is where its status says.
  ghost predicate AckHolds(a: Ack, log: seq<Record>) {
    a.ok && a.writer.batch.Some? ==> exists i {:trigger log[i]} :: 0 <= i < |log| && KeepsPromise(a.writer, log[i])
  }

  ghost predicate KeepsPromise(w: Writer, r: Record) {
    w in r.members && r.inserted && (w.sync ==> r.synced)
  }

  ghost predicate AcksHold(acks: seq<Ack>, log: seq<Record>) {
    forall i {:trigger AckHolds(acks[i], log)} :: 0 <= i < |acks| ==> AckHolds(acks[i], log)
  }

  ghost predicate Inv(st: State) {
    && InOrder(Joined(st)) && LogOrdered(st.log) && MembersJoined(st.log, Joined(st))
    && GroupMatches(st) && st.mem == InsertedOf(st.log) && AcksHold(st.acks, st.log)
  }

  // ---- Each step keeps the invariant ------------------------------------

  lemma JoinedPrefix(ws: seq<Writer>, joined: seq<Writer>, more: seq<Writer>)
    requires IsRun(ws, joined)
    ensures IsRun(ws, joined + more)
  {
  }

  lemma FinishedLater(log: seq<Record>, n: nat, lastSequence: nat, released: nat, lastSequence1: nat, released1: nat)
    requires n <= |log| && Finished(log, n, lastSequence, released) && lastSequence <= lastSequence1 && released <= released1
    ensures Finished(log, n, lastSequence1, released1)
  {
  }

  lemma JoinKeepsInv(st: State, step: Step, w: State)
    requires Inv(st) && step.Join? && Next(st, step, w)
    ensures Inv(w)
  {
    var x := w.queue[|st.queue|];
    assert Joined(w) == Joined(st) + [x];
    forall i | 0 <= i < |w.log| ensures IsRun(w.log[i].members, Joined(w)) {
      JoinedPrefix(w.log[i].members, Joined(st), [x]);
    }
  }

  lemma PopKeepsInv(st: State, step: Step, w: State)
    requires Inv(st) && (step.FailFast? || step.PassNull?) && Next(st, step, w)
    ensures Inv(w)
  {
    assert Joined(w) == Joined(st);
    FinishedLater(st.log, |st.log|, st.lastSequence, |st.acks|, w.lastSequence, |w.acks|);
    forall i | 0 <= i < |w.acks| ensures AckHolds(w.acks[i], w.log) {
      assert i < |st.acks| ==> AckHolds(st.acks[i], st.log);
    }
  }

  lemma BuildKeepsInv(st: State, step: Step, w: State)
    requires Inv(st) && step.Build? && Next(st, step, w)
    ensures Inv(w)
  {
    var g := w.group.value;
    forall x | x in g.members && x.sync ensures g.sync {
      var j :| 0 <= j < |g.members| && g.members[j] == x;
      if j > 0 {
        SyncWritersJoinSync(st.queue, 1, st.queue[0].size, j);
      }
    }
  }

  lemma FrontIsRun(st: State, ws: seq<Writer>)
    requires InOrder(Joined(st)) && ws != [] && ws <= st.queue
    ensures ws[0].id == |st.acks| && IsRun(ws, Joined(st))
  {
    assert Joined(st)[|st.acks|] == st.queue[0];
  }

  lemma NotInserted(log: seq<Record>, r: Record)
    requires !r.inserted
    ensures InsertedOf(log + [r]) == InsertedOf(log)
  {
    assert (log + [r])[..|log|] == log && InsertedOf(log) + [] == InsertedOf(log);
  }

  // A record of the front of the queue, numbered after everything before, goes to the end of the log.
  lemma AppendRecord(log: seq<Record>, r: Record, joined: seq<Writer>, lastSequence: nat, released: nat)
    requires LogOrdered(log) && MembersJoined(log, joined) && Finished(log, |log|, lastSequence, released)
    requires IsRun(r.members, joined) && r.members[0].id == released && r.first == lastSequence + 1 && !r.inserted
    ensures LogOrdered(log + [r]) && MembersJoined(log + [r], joined) && Finished(log + [r], |log|, lastSequence, released)
    ensures InsertedOf(log + [r]) == InsertedOf(log)
  {
    NotInserted(log, r);
    var w, n := log + [r], |log|;
    forall i, j | 0 <= i < j < |w| ensures RecordBefore(w[i], w[j]) {
      assert j < n ==> RecordBefore(log[i], log[j]);
      assert End(log[i]) <= lastSequence + 1;
    }
    forall i | 0 <= i < |w| ensures IsRun(w[i].members, joined) {
      assert i < n ==> IsRun(log[i].members, joined);
    }
    forall i | 0 <= i < n ensures End(w[i]) <= lastSequence + 1 && NextId(w[i].members) <= released {
      assert End(log[i]) <= lastSequence + 1;
    }
  }

  lemma LogKeepsInv(st: State, step: Step, w: State)
    requires Inv(st) && step.Log? && Next(st, step, w)
    ensures Inv(w)
  {
    if step.ok {
      var g := st.group.value;
      FrontIsRun(st, g.members);
      AppendRecord(st.log, Record(g.first, g.members, false, false), Joined(st), st.lastSequence, |st.acks|);
      AcksStillHold(st.acks, st.log, w.log);
    }
  }

  lemma AcksStillHold(acks: seq<Ack>, log: seq<Record>, log1: seq<Record>)
    requires AcksHold(acks, log) && |log| <= |log1|
    requires forall i {:trigger log[i]} :: 0 <= i < |log| ==>
               log1[i].members == log[i].members && (log[i].inserted ==> log1[i].inserted) && (log[i].synced ==> log1[i].synced)
    ensures AcksHold(acks, log1)
  {
    forall i | 0 <= i < |acks| ensures AckHolds(acks[i], log1) {
      assert AckHolds(acks[i], log);
      StillHolds(acks[i], log, log1);
    }
  }

  // A promise stays kept when the log grows or its records are marked.
  lemma StillHolds(a: Ack, log: seq<Record>, log1: seq<Record>)
    requires AckHolds(a, log) && |log| <= |log1|
    requires forall i {:trigger log[i]} :: 0 <= i < |log| ==>
               log1[i].members == log[i].members && (log[i].inserted ==> log1[i].inserted) && (log[i].synced ==> log1[i].synced)
    ensures AckHolds(a, log1)
  {
    if a.ok && a.writer.batch.Some? {
      var i :| 0 <= i < |log| && KeepsPromise(a.writer, log[i]);
      assert KeepsPromise(a.writer, log1[i]);
    }
  }

  lemma {:induction false} SyncKeepsInserted(log: seq<Record>)
    ensures InsertedOf(SyncAll(log)) == InsertedOf(log)
  {
    if log != [] {
      var n := |log| - 1;
      assert SyncAll(log)[..n] == SyncAll(log[..n]);
      SyncKeepsInserted(log[..n]);
    }
  }

  lemma MarkedKeepsOrder(log: seq<Record>, log1: seq<Record>, joined: seq<Writer>, n: nat, lastSequence: nat, released: nat)
    requires LogOrdered(log) && MembersJoined(log, joined) && n <= |log| && Finished(log, n, lastSequence, released)
    requires |log1| == |log|
    requires forall i {:trigger log1[i]} :: 0 <= i < |log| ==> log1[i].members == log[i].members && log1[i].first == log[i].first
    ensures LogOrdered(log1) && MembersJoined(log1, joined) && Finished(log1, n, lastSequence, released)
  {
    forall i, j | 0 <= i < j < |log1| ensures RecordBefore(log1[i], log1[j]) {
      assert RecordBefore(log[i], log[j]);
    }
    forall i | 0 <= i < |log1| ensures IsRun(log1[i].members, joined) {
      assert IsRun(log[i].members, joined);
    }
    forall i | 0 <= i < n ensures End(log1[i]) <= lastSequence + 1 && NextId(log1[i].members) <= released {
      assert End(log[i]) <= lastSequence + 1;
    }
  }

  lemma SyncKeepsInv(st: State, step: Step, w: State)
    requires Inv(st) && step.Sync? && Next(st, step, w)
    ensures Inv(w)
  {
    if step.ok {
      SyncKeepsInserted(st.log);
      MarkedKeepsOrder(st.log, w.log, Joined(st), |st.log| - 1, st.lastSequence, |st.acks|);
      AcksStillHold(st.acks, st.log, w.log);
    }
  }

  lemma InsertKeepsInv(st: State, step: Step, w: State)
    requires Inv(st) && step.Insert? && Next(st, step, w)
    ensures Inv(w)
  {
    var k := |st.log| - 1;
    assert w.log[..k] == st.log[..k];
    MarkedKeepsOrder(st.log, w.log, Joined(st), k, st.lastSequence, |st.acks|);
    assert InsertedOf(st.log) == InsertedOf(st.log[..k]) + [];
    AcksStillHold(st.acks, st.log, w.log);
  }

  lemma GroupFinished(st: State, g: Group)
    requires st.group == Some(g) && g.phase.Finishing? && GroupMatches(st) && g.members[0].id == |st.acks|
    ensures Finished(st.log, |st.log|, st.lastSequence + |Ops(g.members)|, |st.acks| + |g.members|)
  {
    var k := |st.log| - 1;
    forall i | 0 <= i < |st.log|
      ensures End(st.log[i]) <= st.lastSequence + |Ops(g.members)| + 1 && NextId(st.log[i].members) <= |st.acks| + |g.members|
    {
      assert End(st.log[i]) <= st.lastSequence + 1 || (i == k && OwnRecord(g, st.log[k]));
    }
  }

  lemma GroupAcksHold(acks: seq<Ack>, log: seq<Record>, g: Group)
    requires AcksHold(acks, log) && g.phase.Finishing?
    requires g.phase.ok ==> log != [] && OwnRecord(g, log[|log| - 1]) && forall x {:trigger x.sync} :: x in g.members && x.sync ==> g.sync
    ensures AcksHold(acks + Acknowledge(g.members, g.phase.ok), log)
  {
    var all := acks + Acknowledge(g.members, g.phase.ok);
    forall i | 0 <= i < |all| ensures AckHolds(all[i], log) {
      if i < |acks| {
        assert AckHolds(acks[i], log);
      } else if g.phase.ok {
        var x := g.members[i - |acks|];
        assert all[i] == Ack(x, true) && x in g.members;
        assert KeepsPromise(x, log[|log| - 1]);
      }
    }
  }

  lemma FinishKeepsInv(st: State, step: Step, w: State)
    requires Inv(st) && step.Finish? && Next(st, step, w)
    ensures Inv(w)
  {
    var g := st.group.value;
    FrontIsRun(st, g.members);
    FinishJoined(st, g, w);
    GroupFinished(st, g);
    GroupAcksHold(st.acks, st.log, g);
    assert w.log == st.log && GroupMatches(w) && AcksHold(w.acks, w.log);
  }

  // A released group moves from the queue to the acknowledged, in order.
  lemma FinishJoined(st: State, g: Group, w: State)
    requires g.members <= st.queue && w.queue == st.queue[|g.members|..] && w.acks == st.acks + Acknowledge(g.members, g.phase.Finishing? && g.phase.ok)
    ensures Joined(w) == Joined(st)
  {
    var a, b := Joined(w), Joined(st);
    assert |a| == |b|;
    forall i | 0 <= i < |a| ensures a[i] == b[i] {
    }
  }

  lemma StepKeepsInv(st: State, step: Step, w: State)
    requires Inv(st) && Next(st, step, w)
    ensures Inv(w)
  {
    match step
    case Join(_, _, _) => JoinKeepsInv(st, step, w);
    case FailFast => PopKeepsInv(st, step, w);
    case PassNull => PopKeepsInv(st, step, w);
    case Build => BuildKeepsInv(st, step, w);
    case Log(_) => LogKeepsInv(st, step, w);
    case Sync(_) => SyncKeepsInv(st, step, w);
    case Insert => InsertKeepsInv(st, step, w);
    case Finish => FinishKeepsInv(st, step, w);
  }

  // ---- Runs -------------------------------------------------------------

  ghost predicate StepAt(states: seq<State>, steps: seq<Step>, i: nat)
    requires i < |steps| && i + 1 < |states|
  {
    Next(states[i], steps[i], states[i + 1])
  }

  ghost predicate IsRunOf(states: seq<State>, steps: seq<Step>) {
    && |states| == |steps| + 1 && Init(states[0])
    && forall i {:trigger StepAt(states, steps, i)} :: 0 <= i < |steps| ==> StepAt(states, steps, i)
  }

  lemma {:induction false} RunKeepsInv(states: seq<State>, steps: seq<Step>, n: nat)
    requires IsRunOf(states, steps) && n < |states|
    ensures Inv(states[n])
  {
    if n == 0 {
      assert Joined(states[0]) == [];
    } else {
      RunKeepsInv(states, steps, n - 1);
      assert StepAt(states, steps, n - 1);
      StepKeepsInv(states[n - 1], steps[n - 1], states[n]);
    }
  }

  // A writer is in at most one record, at one place.
  lemma LoggedOnce(st: State, i: nat, j: nat, x: Writer)
    requires Inv(st) && i < |st.log| && j < |st.log| && x in st.log[i].members && x in st.log[j].members
    ensures i == j
  {
    MemberId(st, i, x);
    MemberId(st, j, x);
    assert i < j ==> RecordBefore(st.log[i], st.log[j]);
    assert j < i ==> RecordBefore(st.log[j], st.log[i]);
  }

  lemma MemberId(st: State, i: nat, x: Writer)
    requires Inv(st) && i < |st.log| && x in st.log[i].members
    ensures st.log[i].members[0].id <= x.id < NextId(st.log[i].members) && x.id < |Joined(st)| && Joined(st)[x.id] == x
  {
    var ws := st.log[i].members;
    assert IsRun(ws, Joined(st));
    var k :| 0 <= k < |ws| && ws[k] == x;
    assert ws[0] == Joined(st)[ws[0].id] && x == Joined(st)[ws[0].id + k];
  }

  // In every run, every batch acknowledged with success is in exactly one log
  // record, which was inserted, and synced if its writer asked for it.
  lemma AcknowledgedOnce(states: seq<State>, steps: seq<Step>, n: nat, a: Ack)
    requires IsRunOf(states, steps) && n < |states| && a in states[n].acks && a.ok && a.writer.batch.Some?
    ensures exists i {:trigger states[n].log[i]} :: 0 <= i < |states[n].log| && KeepsPromise(a.writer, states[n].log[i])
              && forall j {:trigger states[n].log[j]} :: 0 <= j < |states[n].log| && a.writer in states[n].log[j].members ==> j == i
  {
    RunKeepsInv(states, steps, n);
    var st := states[n];
    var k :| 0 <= k < |st.acks| && st.acks[k] == a;
    assert AckHolds(st.acks[k], st.log);
    var i :| 0 <= i < |st.log| && KeepsPromise(a.writer, st.log[i]);
    forall j | 0 <= j < |st.log| && a.writer in st.log[j].members ensures j == i {
      LoggedOnce(st, i, j, a.writer);
    }
    assert KeepsPromise(a.writer, st.log[i]);
  }

  // Writers are released in the order they joined, and their records follow that order.
  lemma ReleasedInOrder(states: seq<State>, steps: seq<Step>, n: nat, i: nat, j: nat, x: Writer, y: Writer)
    requires IsRunOf(states, steps) && n < |states| && i < j < |states[n].log|
    requires x in states[n].log[i].members && y in states[n].log[j].members
    ensures x.id < y.id && states[n].log[i].first + |Ops(states[n].log[i].members)| <= states[n].log[j].first
    ensures forall k :: 0 <= k < |states[n].acks| ==> states[n].acks[k].writer.id == k
  {
    RunKeepsInv(states, steps, n);
    var st := states[n];
    MemberId(st, i, x);
    MemberId(st, j, y);
    assert RecordBefore(st.log[i], st.log[j]);
    forall k | 0 <= k < |st.acks| ensures st.acks[k].writer.id == k {
      assert Joined(st)[k] == st.acks[k].writer;
    }
  }

  // ---- What readers see -------------------------------------------------

  // The operations of one record as they sit in the memtable.
  ghost function EntriesOf(r: Record): seq<(nat, Op)> {
    Numbered(r.first, Ops(r.members))
  }

  predicate VisibleAt(s: nat, e: (nat, Op)) {
    e.0 <= s
  }

  // A reader at the last sequence number sees the operations of each record
  // that was inserted wholly or not at all.
  lemma GroupsSeenWhole(states: seq<State>, steps: seq<Step>, n: nat, i: nat)
    requires IsRunOf(states, steps) && n < |states| && i < |states[n].log|
    ensures var st := states[n];
            || (forall k :: 0 <= k < |EntriesOf(st.log[i])| ==> VisibleAt(st.lastSequence, EntriesOf(st.log[i])[k]))
            || (forall k :: 0 <= k < |EntriesOf(st.log[i])| ==> !VisibleAt(st.lastSequence, EntriesOf(st.log[i])[k]))
  {
    RunKeepsInv(states, steps, n);
    SeenWhole(states[n], i);
  }

  lemma SeenWhole(st: State, i: nat)
    requires Inv(st) && i < |st.log|
    ensures || (forall k :: 0 <= k < |EntriesOf(st.log[i])| ==> VisibleAt(st.lastSequence, EntriesOf(st.log[i])[k]))
            || (forall k :: 0 <= k < |EntriesOf(st.log[i])| ==> !VisibleAt(st.lastSequence, EntriesOf(st.log[i])[k]))
  {
    var k := |st.log| - 1;
    assert End(st.log[i]) <= st.lastSequence + 1 || (i == k && st.log[i].first == st.lastSequence + 1);
  }

  // In every run no two operations in the memtable share a sequence number, and it took
  // them in the order of their numbers.
  lemma NumbersAscend(states: seq<State>, steps: seq<Step>, n: nat, i: nat, j: nat)
    requires IsRunOf(states, steps) && n < |states| && i < j < |states[n].mem|
    ensures states[n].mem[i].0 < states[n].mem[j].0
  {
    RunKeepsInv(states, steps, n);
    InsertedAscend(states[n].log, i, j);
  }

  lemma {:induction false} InsertedAscend(log: seq<Record>, i: nat, j: nat)
    requires LogOrdered(log) && i < j < |InsertedOf(log)|
    ensures InsertedOf(log)[i].0 < InsertedOf(log)[j].0
  {
    var k := |log| - 1;
    var front := log[..k];
    forall a, b | 0 <= a < b < k ensures RecordBefore(front[a], front[b]) {
      assert RecordBefore(log[a], log[b]);
    }
    if j < |InsertedOf(front)| {
      InsertedAscend(front, i, j);
    } else if i < |InsertedOf(front)| {
      var r := InsertedFrom(front, i);
      assert RecordBefore(log[r], log[k]);
    }
  }

  lemma {:induction false} InsertedFrom(log: seq<Record>, i: nat) returns (r: nat)
    requires i < |InsertedOf(log)|
    ensures r < |log| && InsertedOf(log)[i].0 < End(log[r])
  {
    var k := |log| - 1;
    var front := log[..k];
    if i < |InsertedOf(front)| {
      r := InsertedFrom(front, i);
    } else {
      r := k;
    }
  }
}
