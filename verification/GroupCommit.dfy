// The queue of writers in front of the store: each group that is committed is one write
// (db/db_impl.cc, Write).

module GroupCommit {
  import opened DbFormat
  import Q = WriterQueue
  import S = Store

  // What an operation is to the store: its entry under a sequence number.
  type Meaning = (nat, Q.Op) -> Entry

  ghost predicate KeepsNumbers(meaning: Meaning) {
    forall n, op {:trigger meaning(n, op)} :: meaning(n, op).key.sequence == n
  }

  // A group of operations as the store writes it.
  function Batch(meaning: Meaning, first: nat, ops: seq<Q.Op>): (es: seq<Entry>)
    ensures |es| == |ops| && forall i {:trigger es[i]} :: 0 <= i < |es| ==> es[i] == meaning(first + i, ops[i])
  {
    seq(|ops|, i requires 0 <= i < |ops| => meaning(first + i, ops[i]))
  }

  // The entries that readers see at the last sequence number.
  ghost function Published(meaning: Meaning, q: Q.State): set<Entry> {
    set x | x in q.mem && x.0 <= q.lastSequence :: meaning(x.0, x.1)
  }

  // Nothing went wrong with the log in this step.
  ghost predicate Succeeds(step: Q.Step, q: Q.State) {
    match step
    case Log(ok) => ok
    case Sync(ok) => ok
    case Finish => q.group.Some? && q.group.value.phase == Q.Finishing(true)
    case _ => true
  }

  // What a step of the queue is to the store: a write when a group is finished, and nothing otherwise.
  ghost predicate IsWrite(meaning: Meaning, q: Q.State, step: Q.Step, st: S.State, w: S.State) {
    if step.Finish? then
      && q.group.Some?
      && S.Next(st, S.Step.Write(Batch(meaning, q.group.value.first, Q.Ops(q.group.value.members)), q.group.value.sync), w)
    else w == st
  }

  ghost predicate Matches(meaning: Meaning, base: set<Entry>, q: Q.State, st: S.State) {
    S.Inv(st) && st.lastSequence == q.lastSequence && st.History() == base + Published(meaning, q)
  }

  // ---- What is published ------------------------------------------------

  lemma InsertPublishesNothing(meaning: Meaning, q: Q.State, w: Q.State)
    requires Q.Inv(q) && Q.Next(q, Q.Insert, w)
    ensures Published(meaning, w) == Published(meaning, q)
  {
    var g := q.group.value;
    assert g.first == q.lastSequence + 1;
    var added := Q.Numbered(g.first, Q.Ops(g.members));
    forall x | x in added ensures x.0 > q.lastSequence {
      var i :| 0 <= i < |added| && added[i] == x;
    }
  }

  // What finished groups inserted lies below the group's first number.
  lemma OlderAreBelow(log: seq<Q.Record>, lastSequence: nat, released: nat)
    requires Q.Finished(log, |log|, lastSequence, released)
    ensures forall x {:trigger x in Q.InsertedOf(log)} :: x in Q.InsertedOf(log) ==> x.0 <= lastSequence
  {
    var all := Q.InsertedOf(log);
    forall x | x in all ensures x.0 <= lastSequence {
      var i :| 0 <= i < |all| && all[i] == x;
      var r := Q.InsertedFrom(log, i);
      assert Q.End(log[r]) <= lastSequence + 1;
    }
  }

  // The memtable before the group in progress, and what the group inserted.
  lemma GroupInserted(q: Q.State, g: Q.Group)
    requires Q.Inv(q) && q.group == Some(g) && g.phase == Q.Finishing(true)
    ensures g.first == q.lastSequence + 1 && q.log != []
    ensures var older := Q.InsertedOf(q.log[..|q.log| - 1]);
            q.mem == older + Q.Numbered(g.first, Q.Ops(g.members)) && forall x {:trigger x in older} :: x in older ==> x.0 <= q.lastSequence
  {
    var front := q.log[..|q.log| - 1];
    forall i | 0 <= i < |front| ensures Q.End(front[i]) <= q.lastSequence + 1 && Q.NextId(front[i].members) <= |q.acks| {
      assert Q.End(q.log[i]) <= q.lastSequence + 1;
    }
    OlderAreBelow(front, q.lastSequence, |q.acks|);
  }

  lemma FinishPublishesGroup(meaning: Meaning, q: Q.State, w: Q.State)
    requires Q.Inv(q) && Q.Next(q, Q.Finish, w) && q.group.value.phase == Q.Finishing(true)
    ensures var g := q.group.value;
            Published(meaning, w) == Published(meaning, q) + Elements(Batch(meaning, g.first, Q.Ops(g.members)))
  {
    var g := q.group.value;
    GroupInserted(q, g);
    GroupPublished(meaning, q, w, Q.InsertedOf(q.log[..|q.log| - 1]), g.first, Q.Ops(g.members));
  }

  lemma GroupPublished(meaning: Meaning, q: Q.State, w: Q.State, older: seq<(nat, Q.Op)>, first: nat, ops: seq<Q.Op>)
    requires first == q.lastSequence + 1 && w.lastSequence == q.lastSequence + |ops| && w.mem == q.mem == older + Q.Numbered(first, ops)
    requires forall x {:trigger x in older} :: x in older ==> x.0 <= q.lastSequence
    ensures Published(meaning, w) == Published(meaning, q) + Elements(Batch(meaning, first, ops))
  {
    var added, es := Q.Numbered(first, ops), Batch(meaning, first, ops);
    forall e | e in Published(meaning, w) ensures e in Published(meaning, q) + Elements(es) {
      var x :| x in w.mem && x.0 <= w.lastSequence && e == meaning(x.0, x.1);
      if x in added {
        var i :| 0 <= i < |added| && added[i] == x;
        assert es[i] == e;
      }
    }
    forall e | e in Elements(es) ensures e in Published(meaning, w) {
      var i :| 0 <= i < |es| && es[i] == e;
      assert added[i] in w.mem;
    }
    assert Published(meaning, q) <= Published(meaning, w);
  }

  // ---- The store follows the queue --------------------------------------

  // The store can always take a write.
  lemma CanWrite(st: S.State, es: seq<Entry>, sync: bool) returns (w: S.State)
    requires S.Inv(st) && S.Numbered(es, st.lastSequence + 1)
    ensures S.Next(st, S.Step.Write(es, sync), w) && S.Inv(w)
    ensures w.lastSequence == st.lastSequence + |es| && w.History() == st.History() + Elements(es)
  {
    var k := |st.logs| - 1;
    w := st.(mem := st.mem + Elements(es), logs := st.logs[k := S.AppendRecord(st.logs[k], es, sync)], lastSequence := st.lastSequence + |es|);
    S.WriteKeepsInv(st, w, es, sync);
  }

  lemma FinishIsWrite(meaning: Meaning, base: set<Entry>, q: Q.State, w: Q.State, st: S.State) returns (st': S.State)
    requires KeepsNumbers(meaning) && Q.Inv(q) && Q.Next(q, Q.Finish, w) && q.group.value.phase == Q.Finishing(true) && Matches(meaning, base, q, st)
    ensures IsWrite(meaning, q, Q.Finish, st, st') && Matches(meaning, base, w, st')
  {
    var g := q.group.value;
    var es := Batch(meaning, g.first, Q.Ops(g.members));
    GroupFirst(q, g);
    FinishPublishesGroup(meaning, q, w);
    st' := CanWrite(st, es, g.sync);
    MatchesOn(meaning, base, q, w, st, st', es);
  }

  lemma GroupFirst(q: Q.State, g: Q.Group)
    requires Q.Inv(q) && q.group == Some(g)
    ensures g.first == q.lastSequence + 1
  {
  }

  lemma MatchesOn(meaning: Meaning, base: set<Entry>, q: Q.State, w: Q.State, st: S.State, st': S.State, es: seq<Entry>)
    requires Matches(meaning, base, q, st) && S.Inv(st')
    requires Published(meaning, w) == Published(meaning, q) + Elements(es) && st'.History() == st.History() + Elements(es)
    requires w.lastSequence == q.lastSequence + |es| && st'.lastSequence == st.lastSequence + |es|
    ensures Matches(meaning, base, w, st')
  {
    Reunite(base, Published(meaning, q), Elements(es));
  }

  lemma Reunite(a: set<Entry>, b: set<Entry>, c: set<Entry>)
    ensures a + b + c == a + (b + c)
  {
  }

  // Every step of the queue in which the log does its work is a step of the store, or none.
  lemma StepIsWrite(meaning: Meaning, base: set<Entry>, q: Q.State, step: Q.Step, w: Q.State, st: S.State) returns (st': S.State)
    requires KeepsNumbers(meaning) && Q.Inv(q) && Q.Next(q, step, w) && Succeeds(step, q) && Matches(meaning, base, q, st)
    ensures IsWrite(meaning, q, step, st, st') && Matches(meaning, base, w, st')
  {
    if step.Finish? {
      st' := FinishIsWrite(meaning, base, q, w, st);
    } else {
      st' := st;
      if step.Insert? {
        InsertPublishesNothing(meaning, q, w);
      } else {
        assert w.mem == q.mem && w.lastSequence == q.lastSequence;
      }
    }
  }

  ghost predicate WriteAt(meaning: Meaning, states: seq<Q.State>, steps: seq<Q.Step>, stores: seq<S.State>, i: nat)
    requires i < |steps| && i < |states| && i + 1 < |stores|
  {
    IsWrite(meaning, states[i], steps[i], stores[i], stores[i + 1])
  }

  // One state of the store for each of the queue up to the n-th.
  ghost predicate Follows(meaning: Meaning, states: seq<Q.State>, steps: seq<Q.Step>, stores: seq<S.State>, n: nat) {
    && n <= |steps| && n < |states| && |stores| == n + 1
    && forall i {:trigger WriteAt(meaning, states, steps, stores, i)} :: 0 <= i < n ==> WriteAt(meaning, states, steps, stores, i)
  }

  lemma FollowsOn(meaning: Meaning, states: seq<Q.State>, steps: seq<Q.Step>, stores: seq<S.State>, n: nat, w: S.State)
    requires Follows(meaning, states, steps, stores, n) && n < |steps| && n + 1 < |states|
    requires IsWrite(meaning, states[n], steps[n], stores[n], w)
    ensures Follows(meaning, states, steps, stores + [w], n + 1)
  {
    forall i | 0 <= i < n + 1 ensures WriteAt(meaning, states, steps, stores + [w], i) {
      assert i < n ==> WriteAt(meaning, states, steps, stores, i);
    }
  }

  // In every run of the queue in which the log does its work, the store can follow with one
  // write for each finished group, under the same sequence numbers; its history is always
  // what it was at the start together with what readers of the queue's memtable see.
  lemma {:induction false} RunIsWrites(meaning: Meaning, states: seq<Q.State>, steps: seq<Q.Step>, st: S.State, n: nat) returns (stores: seq<S.State>)
    requires KeepsNumbers(meaning) && Q.IsRunOf(states, steps) && n < |states|
    requires forall i {:trigger steps[i]} :: 0 <= i < n ==> Succeeds(steps[i], states[i])
    requires S.Inv(st) && st.lastSequence == states[0].lastSequence
    ensures Follows(meaning, states, steps, stores, n) && stores[0] == st
    ensures Matches(meaning, st.History(), states[n], stores[n])
  {
    if n == 0 {
      stores := [st];
      assert Published(meaning, states[0]) == {};
    } else {
      var front := RunIsWrites(meaning, states, steps, st, n - 1);
      Q.RunKeepsInv(states, steps, n - 1);
      assert Q.StepAt(states, steps, n - 1);
      var last := StepIsWrite(meaning, st.History(), states[n - 1], steps[n - 1], states[n], front[n - 1]);
      FollowsOn(meaning, states, steps, front, n - 1, last);
      stores := front + [last];
    }
  }
}
