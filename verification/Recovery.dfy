// Crashes, log replay and whole runs
// (db/db_impl.cc, Recover, RecoverLogFile, Open; db/version_set.cc, Recover).

module Recovery {
  import opened DbFormat
  import opened Levels
  import opened LevelSteps
  import opened Store
  import Crc32c
  import DiskImage
  import LogFiles

  // A crash keeps a prefix of each log's records, at least the synced ones.
  ghost predicate ValidKeep(logs: seq<LogFile>, keep: seq<nat>) {
    |keep| == |logs| && forall i :: 0 <= i < |logs| ==> logs[i].synced <= keep[i] <= |logs[i].records|
  }

  ghost function Truncate(l: LogFile, k: nat): LogFile
    requires k <= |l.records|
  {
    LogFile(l.number, l.records[..k], l.synced)
  }

  ghost function Survive(logs: seq<LogFile>, keep: seq<nat>): (r: seq<LogFile>)
    requires ValidKeep(logs, keep)
    ensures |r| == |logs| && forall i :: 0 <= i < |logs| ==> r[i] == Truncate(logs[i], keep[i])
  {
    seq(|logs|, i requires 0 <= i < |logs| => Truncate(logs[i], keep[i]))
  }

  // Level-0 files written during recovery, oldest first.
  ghost function AddFiles(v: Levels, fs: seq<File>): Levels {
    if fs == [] then v else AddFile(AddFiles(v, fs[..|fs| - 1]), 0, fs[|fs| - 1])
  }

  ghost function MaxSequence(es: seq<Entry>, m: nat): nat {
    if es == [] then m
    else
      var r := MaxSequence(es[..|es| - 1], m);
      if r < es[|es| - 1].key.sequence then es[|es| - 1].key.sequence else r
  }

  // The replayed records are cut into memtables wherever one fills up; each
  // non-empty one becomes a level-0 file with a new number.
  ghost predicate TablesOf(fs: seq<File>, chunks: seq<seq<Entry>>, firstNumber: nat) {
    && |fs| == |chunks|
    && (forall i :: 0 <= i < |fs| ==> WfFile(fs[i]) && Elements(fs[i].entries) == Elements(chunks[i]) && firstNumber <= fs[i].number)
    && (forall i, j {:trigger fs[i].number, fs[j].number} :: 0 <= i < j < |fs| ==> fs[i].number < fs[j].number)
  }

  datatype Crash = Crash(
    keep: seq<nat>,               // how much of each log is left
    chunks: seq<seq<Entry>>,      // how the replayed entries were cut into memtables
    fs: seq<File>,                // the tables written for them
    reuse: bool,                  // keep appending to the last log (options.reuse_logs)
    left: seq<byte>,              // the bytes left of that log
    reuseManifest: bool,          // keep appending to the manifest
    leftManifest: seq<byte>,      // the bytes left of the manifest
    saved: bool)                  // whether a new manifest record was written

  // The logs replayed into tables; a reused last log is replayed into the memtable.
  ghost function Replayed(live: seq<LogFile>, reuse: bool): seq<LogFile> {
    if reuse && live != [] then live[..|live| - 1] else live
  }

  // The entries written to tables during recovery.
  ghost function ReplayedEntries(st: State, c: Crash): seq<Entry>
    requires ValidKeep(st.logs, c.keep)
  {
    Stream(Replayed(Live(Survive(st.logs, c.keep), st.logNumber), c.reuse))
  }

  ghost predicate RecoveredLogs(st: State, c: Crash, w: State) {
    && st.logs != [] && ValidKeep(st.logs, c.keep)
    && var logs := Survive(st.logs, c.keep);
    && w.mem == (if c.reuse then Elements(Flat(logs[|logs| - 1].records)) else {})
    && w.imm == None
    && (if c.reuse then w.logs == logs
        else |w.logs| == |logs| + 1 && w.logs[..|logs|] == logs && w.logs[|logs|].records == [] && w.logs[|logs|].synced == 0)
    && Ascending(w.logs)
    && w.logNumber == (if c.saved then w.logs[|w.logs| - 1].number else st.logNumber)
    && (forall i :: 0 <= i < |w.logs| ==> w.logs[i].number < w.nextFile)
  }

  ghost predicate RecoveredTables(st: State, c: Crash, w: State) {
    && ValidKeep(st.logs, c.keep)
    && Flat(c.chunks) == ReplayedEntries(st, c) && TablesOf(c.fs, c.chunks, st.manifestNextFile)
    && (c.fs != [] ==> c.saved)
    && w.version == AddFiles(st.version, c.fs)
    && w.flushed == st.flushed + Elements(ReplayedEntries(st, c))
    && w.horizon == st.horizon && w.snapshots == []
    && st.manifestNextFile <= w.nextFile && (forall f :: f in c.fs ==> f.number < w.nextFile)
    && w.manifestNextFile == (if c.saved then w.nextFile else st.manifestNextFile)
  }

  ghost predicate RecoveredSequence(st: State, c: Crash, w: State) {
    && ValidKeep(st.logs, c.keep)
    && w.lastSequence == MaxSequence(Stream(Live(Survive(st.logs, c.keep), st.logNumber)), st.manifestSequence)
    && w.manifestSequence == (if c.saved then w.lastSequence else st.manifestSequence)
  }

  // The bytes left of the last log hold what is left of it.
  ghost predicate LeftLog(st: State, c: Crash) {
    st.logs != [] && ValidKeep(st.logs, c.keep) && DiskImage.LogHolds(c.left, Survive(st.logs, c.keep)[|st.logs| - 1].records)
  }

  // What was left is back.
  ghost predicate Restored(st: State, c: Crash, w: State) {
    LeftLog(st, c) && RecoveredLogs(st, c, w) && RecoveredTables(st, c, w) && RecoveredSequence(st, c, w)
  }

  // What is appended from now on will be readable: the last bytes of a file that is
  // appended to are those of a whole record, or nothing that will get in the way.
  ghost predicate Appendable(c: Crash) {
    && (c.reuse ==> LogFiles.EndsCleanly(Crc32c.CRC32C, c.left))
    && (c.reuseManifest ==> LogFiles.EndsCleanly(Crc32c.CRC32C, c.leftManifest))
  }

  ghost predicate RecoverStep(st: State, c: Crash, w: State) {
    Restored(st, c, w) && Appendable(c)
  }

  // ---- What a truncated stream looks like -------------------------------

  lemma {:induction false} FlatSplit(rs: seq<seq<Entry>>, k: nat)
    requires k <= |rs|
    ensures Flat(rs) == Flat(rs[..k]) + Flat(rs[k..])
  {
    if k == |rs| {
      assert rs[..k] == rs;
    } else {
      var front := rs[..|rs| - 1];
      FlatSplit(front, k);
      assert front[..k] == rs[..k] && front[k..] == rs[k..][..|rs| - k - 1];
      assert rs[k..][|rs| - k - 1] == rs[|rs| - 1];
    }
  }

  lemma TruncatedFlat(l: LogFile, k: nat)
    requires k <= |l.records|
    ensures Elements(Flat(Truncate(l, k).records)) <= Elements(Flat(l.records))
    ensures Increasing(Flat(l.records)) ==> Increasing(Flat(Truncate(l, k).records))
  {
    FlatSplit(l.records, k);
    if Increasing(Flat(l.records)) {
      IncreasingSplit(Flat(l.records[..k]), Flat(l.records[k..]));
    }
  }

  // The surviving stream is an increasing part of the stream.
  lemma {:induction false} SurvivingStream(logs: seq<LogFile>, keep: seq<nat>, from: nat)
    requires ValidKeep(logs, keep) && Increasing(Stream(Live(logs, from)))
    ensures Increasing(Stream(Live(Survive(logs, keep), from)))
    ensures Elements(Stream(Live(Survive(logs, keep), from))) <= Elements(Stream(Live(logs, from)))
  {
    var r := Survive(logs, keep);
    if logs != [] && logs[|logs| - 1].number >= from {
      var k := |logs| - 1;
      var front, front' := Live(logs[..k], from), Live(r[..k], from);
      LastOfStream(logs, from);
      LastOfStream(r, from);
      IncreasingSplit(Stream(front), Flat(logs[k].records));
      assert Survive(logs[..k], keep[..k]) == r[..k];
      SurvivingStream(logs[..k], keep[..k], from);
      TruncatedFlat(logs[k], keep[k]);
      IncreasingJoin(Stream(front'), Flat(r[k].records));
      PartsContained(Stream(front'), Flat(r[k].records), Stream(front), Flat(logs[k].records));
    }
  }

  lemma PartsContained(a': seq<Entry>, b': seq<Entry>, a: seq<Entry>, b: seq<Entry>)
    requires Elements(a') <= Elements(a) && Elements(b') <= Elements(b)
    ensures Elements(a' + b') <= Elements(a + b)
  {
    assert Elements(a' + b') == Elements(a') + Elements(b');
    assert Elements(a + b) == Elements(a) + Elements(b);
  }

  lemma LastOfStream(logs: seq<LogFile>, from: nat)
    requires logs != [] && logs[|logs| - 1].number >= from
    ensures Live(logs, from) == Live(logs[..|logs| - 1], from) + [logs[|logs| - 1]]
    ensures Stream(Live(logs, from)) == Stream(Live(logs[..|logs| - 1], from)) + Flat(logs[|logs| - 1].records)
  {
    var front := Live(logs[..|logs| - 1], from);
    assert (front + [logs[|logs| - 1]])[..|front|] == front;
  }

  lemma {:induction false} MaxSequenceBounds(es: seq<Entry>, m: nat)
    ensures m <= MaxSequence(es, m) && AtMost(Elements(es), MaxSequence(es, m))
    ensures MaxSequence(es, m) == m || exists e :: e in es && e.key.sequence == MaxSequence(es, m)
  {
    if es != [] {
      MaxSequenceBounds(es[..|es| - 1], m);
    }
  }

  // ---- Writing the replayed tables --------------------------------------

  lemma {:induction false} TablesAdded(v: Levels, fs: seq<File>, chunks: seq<seq<Entry>>, firstNumber: nat, H: set<Entry>, horizon: nat)
    requires TablesOf(fs, chunks, firstNumber) && WfStore(v) && Distinct(H) && Stored(v) <= H
    requires Increasing(Flat(chunks)) && AllLater(Elements(Flat(chunks)), H)
    requires forall l, g {:trigger Holds(v, l, g)} :: Holds(v, l, g) ==> g.number < firstNumber
    requires forall user: UserKey, s: nat {:trigger View(H, user, s)} :: s >= horizon ==> View(Stored(v), user, s) == View(H, user, s)
    ensures WfStore(AddFiles(v, fs)) && Stored(AddFiles(v, fs)) <= Elements(Flat(chunks)) + H
    ensures forall user: UserKey, s: nat :: s >= horizon ==>
              View(Stored(AddFiles(v, fs)), user, s) == View(Elements(Flat(chunks)) + H, user, s)
    ensures forall l, g {:trigger Holds(AddFiles(v, fs), l, g)} :: Holds(AddFiles(v, fs), l, g) ==> g in fs || Holds(v, l, g)
    ensures Distinct(Elements(Flat(chunks)) + H)
  {
    if fs == [] {
      assert Elements(Flat(chunks)) + H == H;
    } else {
      var n := |fs| - 1;
      var w, a, b, f := AddFiles(v, fs[..n]), Flat(chunks[..n]), chunks[n], fs[n];
      IncreasingSplit(a, b);
      assert TablesOf(fs[..n], chunks[..n], firstNumber);
      TablesAdded(v, fs[..n], chunks[..n], firstNumber, H, horizon);
      var H' := Elements(a) + H;
      IncreasingIsDistinct(b);
      forall p, e | p in Elements(b) && e in H' ensures Later(p, e) {
        assert p in Elements(Flat(chunks));
      }
      forall l, g | Holds(w, l, g) ensures g.number < f.number {
        assert g in fs[..n] ==> exists i :: 0 <= i < n && fs[i] == g;
      }
      FlushIsGood(w, 0, f, Elements(b), H');
      FlushKeepsTables(w, 0, f, H', horizon);
      DistinctUnion(Elements(b), H');
      assert Elements(b) + H' == Elements(Flat(chunks)) + H;
      forall l, g | Holds(AddFiles(v, fs), l, g) ensures g in fs || Holds(v, l, g) {
        FlushHolds(w, 0, f, l, g);
      }
    }
  }

  // ---- Recovery keeps the invariant -------------------------------------

  // After recovery nothing before the last log is left to replay.
  lemma FrontReplaysNothing(st: State, c: Crash, w: State)
    requires LogsMatch(st) && RecoveredLogs(st, c, w)
    requires c.saved || ReplayedEntries(st, c) == []
    ensures Stream(Live(w.logs[..|w.logs| - 1], w.logNumber)) == []
  {
    var logs := Survive(st.logs, c.keep);
    var n := |w.logs| - 1;
    LastOfStream(logs, st.logNumber);
    if c.saved {
      forall i | 0 <= i < n ensures w.logs[..n][i].number < w.logNumber {
        assert NumberBelow(w.logs[i], w.logs[n]);
      }
      OlderNotLive(w.logs[..n], w.logNumber);
    } else if c.reuse {
      assert Replayed(Live(logs, st.logNumber), true) == Live(w.logs[..n], w.logNumber);
    } else {
      assert w.logs[..n] == logs;
    }
  }

  lemma RecoveredLastLog(st: State, c: Crash, w: State)
    requires LogsMatch(st) && RecoveredLogs(st, c, w)
    ensures w.logNumber <= w.logs[|w.logs| - 1].number
    ensures w.mem == Elements(Flat(w.logs[|w.logs| - 1].records))
    ensures forall i :: 0 <= i < |w.logs| ==> w.logs[i].synced <= |w.logs[i].records|
  {
    var logs := Survive(st.logs, c.keep);
    var n := |w.logs| - 1;
    forall i | 0 <= i < |w.logs| ensures w.logs[i].synced <= |w.logs[i].records| {
      assert i < |logs| ==> w.logs[i] == logs[i];
    }
    if !c.saved && !c.reuse {
      assert w.logs[n - 1] == logs[n - 1];
      assert NumberBelow(w.logs[n - 1], w.logs[n]);
    }
  }

  lemma RecoverKeepsLogs(st: State, c: Crash, w: State)
    requires LogsMatch(st) && RecoveredLogs(st, c, w)
    requires c.saved || ReplayedEntries(st, c) == []
    ensures LogsMatch(w)
    ensures Stream(w.LiveLogs()) == Flat(w.logs[|w.logs| - 1].records)
  {
    FrontReplaysNothing(st, c, w);
    RecoveredLastLog(st, c, w);
    LogsAgree(w);
    OnlyLastLog(w);
  }

  lemma LogsAgree(w: State)
    requires w.logs != [] && Ascending(w.logs) && w.logNumber <= w.logs[|w.logs| - 1].number && w.imm == None
    requires forall i :: 0 <= i < |w.logs| ==> w.logs[i].number < w.nextFile && w.logs[i].synced <= |w.logs[i].records|
    requires w.mem == Elements(Flat(w.logs[|w.logs| - 1].records)) && Stream(Live(w.logs[..|w.logs| - 1], w.logNumber)) == []
    ensures LogsMatch(w)
  {
  }

  lemma OnlyLastLog(w: State)
    requires LogsMatch(w) && Stream(Live(w.logs[..|w.logs| - 1], w.logNumber)) == []
    ensures Stream(w.LiveLogs()) == Flat(w.logs[|w.logs| - 1].records)
  {
    LastLive(w);
    var last := Flat(w.logs[|w.logs| - 1].records);
    assert [] + last == last;
  }

  // What is recovered: everything flushed before and everything left in the live logs.
  ghost function Survivors(st: State, c: Crash): seq<Entry>
    requires ValidKeep(st.logs, c.keep)
  {
    Stream(Live(Survive(st.logs, c.keep), st.logNumber))
  }

  lemma SurvivorsSplit(st: State, c: Crash, w: State)
    requires LogsMatch(st) && SequencesMatch(st) && RecoveredLogs(st, c, w)
    ensures Survivors(st, c) == ReplayedEntries(st, c) + Flat(w.logs[|w.logs| - 1].records)
    ensures Increasing(Survivors(st, c)) && Elements(Survivors(st, c)) <= st.Pending()
  {
    var logs := Survive(st.logs, c.keep);
    LastLive(st);
    SurvivingStream(st.logs, c.keep, st.logNumber);
    LastOfStream(logs, st.logNumber);
    if c.reuse {
      var live := Live(logs, st.logNumber);
      assert live[..|live| - 1] == Live(logs[..|logs| - 1], st.logNumber);
    } else {
      assert Survivors(st, c) + [] == Survivors(st, c);
    }
  }

  lemma SplitSequences(a: seq<Entry>, b: seq<Entry>, F: set<Entry>, m: nat, last: nat)
    requires Increasing(a + b) && AllLater(Elements(a + b), F) && Distinct(F) && AtMost(F, m)
    requires last == MaxSequence(a + b, m)
    ensures Increasing(b) && AllLater(Elements(b), F + Elements(a)) && Distinct(F + Elements(a))
    ensures m <= last && AtMost(Elements(b), last) && AtMost(F + Elements(a), last)
  {
    IncreasingSplit(a, b);
    IncreasingIsDistinct(a);
    MaxSequenceBounds(a + b, m);
    assert Elements(a + b) == Elements(a) + Elements(b);
    forall p, e | p in Elements(a) && e in F ensures Later(p, e) {
      assert p in Elements(a + b);
    }
    DistinctUnion(Elements(a), F);
    assert F + Elements(a) == Elements(a) + F;
    forall p, e | p in Elements(b) && e in F + Elements(a) ensures Later(p, e) {
      assert p in Elements(a + b) && (e in Elements(a) || e in F);
    }
  }

  lemma RecoveredSequencesMatch(w: State, a: seq<Entry>, b: seq<Entry>, F: set<Entry>, m: nat, saved: bool)
    requires Increasing(a + b) && AllLater(Elements(a + b), F) && Distinct(F) && AtMost(F, m)
    requires Stream(w.LiveLogs()) == b && w.Pending() == Elements(b) && w.flushed == F + Elements(a)
    requires w.lastSequence == MaxSequence(a + b, m) && w.manifestSequence == (if saved then w.lastSequence else m)
    requires saved || a == []
    ensures SequencesMatch(w) && w.History() == F + Elements(a + b)
  {
    SplitSequences(a, b, F, m, w.lastSequence);
    assert Elements(a + b) == Elements(a) + Elements(b);
    assert !saved ==> w.flushed == F;
  }

  lemma RecoverKeepsSequences(st: State, c: Crash, w: State)
    requires LogsMatch(st) && SequencesMatch(st) && LogsMatch(w) && RecoveredLogs(st, c, w) && RecoveredSequence(st, c, w)
    requires w.flushed == st.flushed + Elements(ReplayedEntries(st, c))
    requires c.saved || ReplayedEntries(st, c) == []
    requires Stream(w.LiveLogs()) == Flat(w.logs[|w.logs| - 1].records)
    ensures SequencesMatch(w) && w.History() == st.flushed + Elements(Survivors(st, c))
  {
    SurvivorsSplit(st, c, w);
    LastLive(w);
    var a, b := ReplayedEntries(st, c), Stream(w.LiveLogs());
    assert Survivors(st, c) == a + b;
    forall p, e | p in Elements(a + b) && e in st.flushed ensures Later(p, e) {
      assert p in st.Pending();
    }
    RecoveredSequencesMatch(w, a, b, st.flushed, st.manifestSequence, c.saved);
  }

  lemma RecoverKeepsTables(st: State, c: Crash, w: State)
    requires SequencesMatch(st) && NumbersMatch(st) && TablesMatch(st) && RecoveredTables(st, c, w)
    requires Increasing(ReplayedEntries(st, c)) && Elements(ReplayedEntries(st, c)) <= st.Pending()
    ensures TablesMatch(w) && NumbersMatch(w)
  {
    var A := Elements(ReplayedEntries(st, c));
    forall p, e | p in A && e in st.flushed ensures Later(p, e) {
      assert p in st.Pending();
    }
    TablesAdded(st.version, c.fs, c.chunks, st.manifestNextFile, st.flushed, st.horizon);
    assert A + st.flushed == w.flushed;
    forall user: UserKey, s: nat | s >= w.horizon
      ensures View(Stored(w.version), user, s) == View(w.flushed, user, s)
    {
      assert View(Stored(AddFiles(st.version, c.fs)), user, s) == View(A + st.flushed, user, s);
    }
    assert c.fs == [] ==> w.version == st.version;
  }

  // Recovery after any crash keeps the invariant.  What was flushed and what is
  // left in the live logs is all back, with its original sequence numbers.
  lemma RecoverKeepsInv(st: State, c: Crash, w: State)
    requires Inv(st) && RecoverStep(st, c, w)
    ensures Inv(w)
    ensures w.History() == st.flushed + Elements(Survivors(st, c))
  {
    NoFilesNoEntries(c);
    SurvivorsSplit(st, c, w);
    IncreasingSplit(ReplayedEntries(st, c), Flat(w.logs[|w.logs| - 1].records));
    RecoverKeepsLogs(st, c, w);
    RecoverKeepsSequences(st, c, w);
    assert Elements(ReplayedEntries(st, c)) <= Elements(Survivors(st, c));
    RecoverKeepsTables(st, c, w);
    MaxSequenceBounds(Survivors(st, c), st.manifestSequence);
  }

  lemma NoFilesNoEntries(c: Crash)
    requires |c.fs| == |c.chunks|
    ensures c.fs == [] ==> Flat(c.chunks) == []
  {
  }

  // Written with sync: on disk before the write was acknowledged.
  ghost predicate Synced(st: State, i: nat, j: nat) {
    i < |st.logs| && st.logs[i].number >= st.logNumber && j < st.logs[i].synced && j < |st.logs[i].records|
  }

  lemma {:induction false} RecordInFlat(rs: seq<seq<Entry>>, j: nat)
    requires j < |rs|
    ensures Elements(rs[j]) <= Elements(Flat(rs))
  {
    if j < |rs| - 1 {
      RecordInFlat(rs[..|rs| - 1], j);
    }
  }

  lemma {:induction false} LogInStream(logs: seq<LogFile>, from: nat, i: nat)
    requires Ascending(logs) && i < |logs| && logs[i].number >= from
    ensures Elements(Flat(logs[i].records)) <= Elements(Stream(Live(logs, from)))
  {
    var k := |logs| - 1;
    assert i < k ==> NumberBelow(logs[i], logs[k]);
    LastOfStream(logs, from);
    if i < k {
      forall a, b | 0 <= a < b < k ensures NumberBelow(logs[..k][a], logs[..k][b]) {
        assert NumberBelow(logs[a], logs[b]);
      }
      LogInStream(logs[..k], from, i);
    }
  }

  // No crash loses a synced record of a live log, nor anything flushed before.
  lemma SyncedWritesSurvive(st: State, c: Crash, w: State, i: nat, j: nat)
    requires Inv(st) && RecoverStep(st, c, w) && Synced(st, i, j)
    ensures Elements(st.logs[i].records[j]) <= w.History()
    ensures st.flushed <= w.History()
  {
    RecoverKeepsInv(st, c, w);
    SurvivingRecord(st, c, i, j);
  }

  lemma SurvivingRecord(st: State, c: Crash, i: nat, j: nat)
    requires LogsMatch(st) && ValidKeep(st.logs, c.keep) && i < |st.logs| && st.logs[i].number >= st.logNumber && j < c.keep[i]
    ensures Elements(st.logs[i].records[j]) <= Elements(Survivors(st, c))
  {
    var logs := Survive(st.logs, c.keep);
    forall a, b | 0 <= a < b < |logs| ensures NumberBelow(logs[a], logs[b]) {
      assert NumberBelow(st.logs[a], st.logs[b]);
    }
    RecordInFlat(logs[i].records, j);
    LogInStream(logs, st.logNumber, i);
  }

  // A crash that leaves every log whole loses nothing at all.
  lemma WholeLogsLoseNothing(st: State, c: Crash, w: State)
    requires Inv(st) && RecoverStep(st, c, w)
    requires forall i :: 0 <= i < |st.logs| ==> c.keep[i] == |st.logs[i].records|
    ensures w.History() == st.History()
  {
    SurvivorsWhole(st, c);
    RecoveredHistory(st, c, w);
    assert st.History() == st.flushed + st.Pending();
  }

  lemma RecoveredHistory(st: State, c: Crash, w: State)
    requires Inv(st) && RecoverStep(st, c, w)
    ensures w.History() == st.flushed + Elements(Survivors(st, c))
  {
    RecoverKeepsInv(st, c, w);
  }

  lemma SurvivorsWhole(st: State, c: Crash)
    requires LogsMatch(st) && ValidKeep(st.logs, c.keep) && forall i :: 0 <= i < |st.logs| ==> c.keep[i] == |st.logs[i].records|
    ensures Elements(Survivors(st, c)) == st.Pending()
  {
    SurviveWhole(st.logs, c.keep);
    LastLive(st);
  }

  lemma SurviveWhole(logs: seq<LogFile>, keep: seq<nat>)
    requires ValidKeep(logs, keep) && forall i :: 0 <= i < |logs| ==> keep[i] == |logs[i].records|
    ensures Survive(logs, keep) == logs
  {
    forall i | 0 <= i < |logs| ensures Truncate(logs[i], keep[i]) == logs[i] {
      assert logs[i].records[..|logs[i].records|] == logs[i].records;
    }
  }

  // After recovery every read answers from the recovered history.
  lemma RecoveredReads(st: State, c: Crash, w: State, user: UserKey)
    requires Inv(st) && RecoverStep(st, c, w)
    ensures View(w.Held(), user, w.lastSequence) == View(st.flushed + Elements(Survivors(st, c)), user, w.lastSequence)
  {
    RecoverKeepsInv(st, c, w);
    ReadsMatchHistory(w, user, w.lastSequence);
  }

  // ---- Runs -------------------------------------------------------------

  datatype Action = Ordinary(step: Step) | CrashAndRecover(crash: Crash)

  ghost predicate Take(st: State, a: Action, w: State) {
    match a
    case Ordinary(step) => Next(st, step, w)
    case CrashAndRecover(c) => RecoverStep(st, c, w)
  }

  ghost predicate StepAt(states: seq<State>, actions: seq<Action>, i: nat)
    requires i < |actions| && i + 1 < |states|
  {
    Take(states[i], actions[i], states[i + 1])
  }

  ghost predicate IsRun(states: seq<State>, actions: seq<Action>) {
    && |states| == |actions| + 1 && Init(states[0])
    && forall i {:trigger StepAt(states, actions, i)} :: 0 <= i < |actions| ==> StepAt(states, actions, i)
  }

  lemma InitInv(st: State)
    requires Init(st)
    ensures Inv(st)
  {
    assert st.logs[..0] == [] && Live(st.logs[..0], st.logNumber) == [];
    assert LogsMatch(st);
    LastLive(st);
    EmptyTables(st);
  }

  lemma EmptyTables(st: State)
    requires Init(st)
    ensures TablesMatch(st)
  {
    forall l, f | Holds(st.version, l, f) ensures false {}
    assert Stored(st.version) == {} == st.flushed;
  }

  lemma {:induction false} RunKeepsInv(states: seq<State>, actions: seq<Action>, n: nat)
    requires IsRun(states, actions) && n < |states|
    ensures Inv(states[n])
  {
    if n == 0 {
      InitInv(states[0]);
    } else {
      RunKeepsInv(states, actions, n - 1);
      assert StepAt(states, actions, n - 1);
      match actions[n - 1]
      case Ordinary(step) => StepKeepsInv(states[n - 1], step, states[n]);
      case CrashAndRecover(c) => RecoverKeepsInv(states[n - 1], c, states[n]);
    }
  }

  // In every reachable state of every run, every read at a live snapshot or at
  // the latest sequence number answers from the full write history.
  lemma EveryReadIsRight(states: seq<State>, actions: seq<Action>, n: nat, user: UserKey, s: nat)
    requires IsRun(states, actions) && n < |states|
    requires s in states[n].snapshots || s == states[n].lastSequence
    ensures View(states[n].Held(), user, s) == View(states[n].History(), user, s)
  {
    RunKeepsInv(states, actions, n);
    ReadsMatchHistory(states[n], user, s);
  }

  // A write is invisible to every snapshot taken before it.
  lemma OldSnapshotsUnchanged(st: State, step: Step, w: State, user: UserKey, s: nat)
    requires Inv(st) && Next(st, step, w) && s <= st.lastSequence
    ensures View(w.History(), user, s) == View(st.History(), user, s)
  {
    StepKeepsInv(st, step, w);
    if step.Write? {
      NewWritesUnseen(st.History(), Elements(step.batch), user, s, st.lastSequence, step.batch);
      HistoryDistinct(w);
      SameVisible(st.History(), w.History(), user, s);
    } else {
      assert st.History() + {} == st.History();
    }
  }

  lemma NewWritesUnseen(H: set<Entry>, B: set<Entry>, user: UserKey, s: nat, last: nat, batch: seq<Entry>)
    requires B == Elements(batch) && Numbered(batch, last + 1) && s <= last
    ensures forall e :: e in H + B && Sees(e, user, s) ==> e in H
  {
    forall e | e in B ensures e.key.sequence > s {
      var i :| 0 <= i < |batch| && batch[i] == e;
    }
  }

  lemma HistoryDistinct(st: State)
    requires Inv(st)
    ensures Distinct(st.History())
  {
    LastLive(st);
    IncreasingIsDistinct(Stream(st.LiveLogs()));
    DistinctUnion(st.Pending(), st.flushed);
  }

  lemma SameVisible(H: set<Entry>, G: set<Entry>, user: UserKey, s: nat)
    requires H <= G && Distinct(G) && forall e :: e in G && Sees(e, user, s) ==> e in H
    ensures View(G, user, s) == View(H, user, s)
  {
    var a, b := Newest(G, user, s), Newest(H, user, s);
    if a.Some? {
      assert a.value in H;
      assert b.Some? && b.value in G;
      assert SameVersion(a.value, b.value);
    }
  }

  // While a snapshot is held, nothing the store does changes what it reads.
  lemma {:induction false} HeldSnapshotIsStable(states: seq<State>, actions: seq<Action>, i: nat, j: nat, user: UserKey, s: nat)
    requires IsRun(states, actions) && i <= j < |states|
    requires forall k :: i <= k <= j ==> s in states[k].snapshots
    requires forall k :: i <= k < j ==> actions[k].Ordinary?
    ensures View(states[j].Held(), user, s) == View(states[i].Held(), user, s)
  {
    EveryReadIsRight(states, actions, i, user, s);
    EveryReadIsRight(states, actions, j, user, s);
    HistoryStable(states, actions, i, j, user, s);
  }

  lemma {:induction false} HistoryStable(states: seq<State>, actions: seq<Action>, i: nat, j: nat, user: UserKey, s: nat)
    requires IsRun(states, actions) && i <= j < |states|
    requires forall k :: i <= k <= j ==> s in states[k].snapshots
    requires forall k :: i <= k < j ==> actions[k].Ordinary?
    ensures View(states[j].History(), user, s) == View(states[i].History(), user, s)
    decreases j - i
  {
    if i < j {
      HistoryStable(states, actions, i, j - 1, user, s);
      RunKeepsInv(states, actions, j - 1);
      assert StepAt(states, actions, j - 1);
      StableStep(states[j - 1], actions[j - 1], states[j], user, s);
    }
  }

  lemma StableStep(st: State, a: Action, w: State, user: UserKey, s: nat)
    requires Inv(st) && a.Ordinary? && Take(st, a, w) && s in st.snapshots
    ensures View(w.History(), user, s) == View(st.History(), user, s)
  {
    OldSnapshotsUnchanged(st, a.step, w, user, s);
  }
}
