// The whole store as a state machine: writes, memtable switches, flushes,
// moves, compactions, snapshots, crashes and recovery
// (db/db_impl.cc, db/version_set.cc).

module Store {
  import opened DbFormat
  import opened Levels
  import opened CompactionSafety
  import opened LevelSteps

  // ---- Logs -------------------------------------------------------------

  // A write-ahead log: one record per write group; the first synced records
  // survive the loss of power.
  datatype LogFile = LogFile(number: nat, records: seq<seq<Entry>>, synced: nat)

  ghost function Flat(records: seq<seq<Entry>>): seq<Entry> {
    if records == [] then [] else Flat(records[..|records| - 1]) + records[|records| - 1]
  }

  ghost function Stream(logs: seq<LogFile>): seq<Entry> {
    if logs == [] then [] else Stream(logs[..|logs| - 1]) + Flat(logs[|logs| - 1].records)
  }

  // The logs recovery replays, in the order it replays them.
  ghost function Live(logs: seq<LogFile>, from: nat): seq<LogFile> {
    if logs == [] || logs[|logs| - 1].number < from then []
    else Live(logs[..|logs| - 1], from) + [logs[|logs| - 1]]
  }

  // p was written after e.
  ghost predicate Later(p: Entry, e: Entry) {
    p.key.sequence > e.key.sequence
  }

  ghost predicate Increasing(es: seq<Entry>) {
    forall i, j {:trigger Later(es[j], es[i])} :: 0 <= i < j < |es| ==> Later(es[j], es[i])
  }

  ghost predicate AllLater(P: set<Entry>, H: set<Entry>) {
    forall p, e {:trigger Later(p, e)} :: p in P && e in H ==> Later(p, e)
  }

  predicate NumberBelow(a: LogFile, b: LogFile) {
    a.number < b.number
  }

  ghost predicate Ascending(logs: seq<LogFile>) {
    forall i, j {:trigger NumberBelow(logs[i], logs[j])} :: 0 <= i < j < |logs| ==> NumberBelow(logs[i], logs[j])
  }

  ghost predicate AtMost(S: set<Entry>, bound: nat) {
    forall e :: e in S ==> e.key.sequence <= bound
  }

  // ---- State ------------------------------------------------------------

  datatype State = State(
    version: Levels,
    mem: set<Entry>,
    imm: Option<set<Entry>>,
    logs: seq<LogFile>,
    logNumber: nat,          // recorded in the manifest: older logs are not replayed
    lastSequence: nat,
    nextFile: nat,
    manifestSequence: nat,   // last sequence recorded in the manifest
    manifestNextFile: nat,   // next file number recorded in the manifest
    snapshots: seq<nat>,
    flushed: set<Entry>,     // every entry ever moved from a memtable to a table
    horizon: nat             // largest smallest-snapshot any compaction worked with
  ) {
    ghost function LiveLogs(): seq<LogFile> { Live(logs, logNumber) }

    ghost function Imm(): set<Entry> { if imm.Some? then imm.value else {} }

    ghost function Pending(): set<Entry> { mem + Imm() }

    // What the store holds and a reader searches.
    ghost function Held(): set<Entry> { Pending() + Stored(version) }

    // What was ever written and not lost in a crash.
    ghost function History(): set<Entry> { Pending() + flushed }
  }

  ghost predicate LogsMatch(st: State) {
    && st.logs != []
    && Ascending(st.logs)
    && (forall i :: 0 <= i < |st.logs| ==> st.logs[i].number < st.nextFile && st.logs[i].synced <= |st.logs[i].records|)
    && st.logNumber <= st.logs[|st.logs| - 1].number
    && st.mem == Elements(Flat(st.logs[|st.logs| - 1].records))
    && st.Imm() == Elements(Stream(Live(st.logs[..|st.logs| - 1], st.logNumber)))
  }

  ghost predicate SequencesMatch(st: State) {
    && Increasing(Stream(st.LiveLogs()))
    && AtMost(st.Pending(), st.lastSequence)
    && AtMost(st.flushed, st.manifestSequence)
    && AllLater(st.Pending(), st.flushed)
    && Distinct(st.flushed)
    && st.manifestSequence <= st.lastSequence
  }

  ghost predicate NumbersMatch(st: State) {
    && st.manifestNextFile <= st.nextFile
    && forall l, f {:trigger Holds(st.version, l, f)} :: Holds(st.version, l, f) ==> f.number < st.manifestNextFile
  }

  ghost predicate SnapshotsMatch(st: State) {
    && st.horizon <= st.manifestSequence
    && (forall i :: 0 <= i < |st.snapshots| ==> st.horizon <= st.snapshots[i] <= st.lastSequence)
    && (forall i, j :: 0 <= i < j < |st.snapshots| ==> st.snapshots[i] <= st.snapshots[j])
  }

  // Tables answer like the full history of what was flushed.
  ghost predicate TablesMatch(st: State) {
    && WfStore(st.version)
    && Stored(st.version) <= st.flushed
    && forall user: UserKey, s: nat {:trigger View(st.flushed, user, s)} :: s >= st.horizon ==> View(Stored(st.version), user, s) == View(st.flushed, user, s)
  }

  ghost predicate Inv(st: State) {
    LogsMatch(st) && SequencesMatch(st) && NumbersMatch(st) && SnapshotsMatch(st) && TablesMatch(st)
  }

  ghost predicate Init(st: State) {
    && st.version == [{}, {}, {}, {}, {}, {}, {}]
    && st.mem == {} && st.imm == None && st.snapshots == [] && st.flushed == {}
    && st.lastSequence == st.manifestSequence == st.horizon == 0
    && st.manifestNextFile <= st.nextFile
    && |st.logs| == 1 && st.logs[0].records == [] && st.logs[0].synced == 0
    && st.logNumber <= st.logs[0].number < st.nextFile
  }

  // ---- Reads ------------------------------------------------------------

  lemma LastLive(st: State)
    requires LogsMatch(st)
    ensures st.LiveLogs() == Live(st.logs[..|st.logs| - 1], st.logNumber) + [st.logs[|st.logs| - 1]]
    ensures Stream(st.LiveLogs()) == Stream(Live(st.logs[..|st.logs| - 1], st.logNumber)) + Flat(st.logs[|st.logs| - 1].records)
    ensures Elements(Stream(st.LiveLogs())) == st.Pending()
  {
    var front, last := Live(st.logs[..|st.logs| - 1], st.logNumber), st.logs[|st.logs| - 1];
    assert (front + [last])[..|front|] == front;
    ElementsJoin(Stream(front), Flat(last.records));
    assert st.Pending() == st.Imm() + st.mem;
  }

  lemma ElementsJoin(a: seq<Entry>, b: seq<Entry>)
    ensures Elements(a + b) == Elements(a) + Elements(b)
  {
  }

  lemma IncreasingSplit(a: seq<Entry>, b: seq<Entry>)
    requires Increasing(a + b)
    ensures Increasing(a) && Increasing(b) && AllLater(Elements(b), Elements(a))
  {
    var s := a + b;
    forall i, j | 0 <= i < j < |a| ensures Later(a[j], a[i]) {
      assert Later(s[j], s[i]);
    }
    forall i, j | 0 <= i < j < |b| ensures Later(b[j], b[i]) {
      assert Later(s[|a| + j], s[|a| + i]);
    }
    forall y, x | y in Elements(b) && x in Elements(a) ensures Later(y, x) {
      var i :| 0 <= i < |a| && a[i] == x;
      var j :| 0 <= j < |b| && b[j] == y;
      assert Later(s[|a| + j], s[i]);
    }
  }

  lemma IncreasingJoin(a: seq<Entry>, b: seq<Entry>)
    requires Increasing(a) && Increasing(b) && AllLater(Elements(b), Elements(a))
    ensures Increasing(a + b)
  {
    var s := a + b;
    forall i, j | 0 <= i < j < |s| ensures Later(s[j], s[i]) {
      if j < |a| {
        assert Later(a[j], a[i]);
      } else if i >= |a| {
        assert Later(b[j - |a|], b[i - |a|]);
      } else {
        assert s[j] in Elements(b) && s[i] in Elements(a);
      }
    }
  }

  lemma IncreasingIsDistinct(s: seq<Entry>)
    requires Increasing(s)
    ensures Distinct(Elements(s))
  {
    forall x, y | x in Elements(s) && y in Elements(s) && SameVersion(x, y) ensures x == y {
      var i :| 0 <= i < |s| && s[i] == x;
      var j :| 0 <= j < |s| && s[j] == y;
      assert i < j ==> Later(s[j], s[i]);
      assert j < i ==> Later(s[i], s[j]);
    }
  }

  lemma LaterIsNewer(P: set<Entry>, H: set<Entry>)
    requires AllLater(P, H)
    ensures NewerSet(P, H)
  {
    forall p, e | p in P && e in H ensures NewerEntry(p, e) {
      assert Later(p, e);
    }
  }

  lemma DistinctUnion(P: set<Entry>, H: set<Entry>)
    requires Distinct(P) && Distinct(H) && AllLater(P, H)
    ensures Distinct(P + H)
  {
    forall x, y | x in P + H && y in P + H && SameVersion(x, y) ensures x == y {
      assert x in P && y in H ==> Later(x, y);
      assert y in P && x in H ==> Later(y, x);
    }
  }

  // Entries added in front of the tables are answered like entries added in
  // front of the history the tables stand for.
  lemma AddedInFront(A: set<Entry>, S: set<Entry>, H: set<Entry>, user: UserKey, s: nat)
    requires Distinct(A) && Distinct(S) && Distinct(H) && AllLater(A, H) && S <= H
    requires View(S, user, s) == View(H, user, s)
    ensures View(A + S, user, s) == View(A + H, user, s)
  {
    LaterIsNewer(A, H);
    LaterIsNewer(A, S);
    NewestOfUnion(A, S, user, s);
    NewestOfUnion(A, H, user, s);
  }

  // Reading memtables first, then tables, answers like the full history for
  // every snapshot no compaction has passed.
  lemma ReadsMatchHistory(st: State, user: UserKey, s: nat)
    requires Inv(st) && s >= st.horizon
    ensures View(st.Held(), user, s) == View(st.History(), user, s)
  {
    LastLive(st);
    IncreasingIsDistinct(Stream(st.LiveLogs()));
    assert View(st.flushed, user, s) == View(Stored(st.version), user, s);
    AddedInFront(st.Pending(), Stored(st.version), st.flushed, user, s);
  }

  // ---- What a batch shows -----------------------------------------------

  // A batch with the next sequence numbers on top of a history.
  lemma BatchDistinct(H: set<Entry>, es: seq<Entry>, last: nat)
    requires Distinct(H) && AtMost(H, last) && Numbered(es, last + 1)
    ensures Distinct(Elements(es) + H)
  {
    NumberedIncreasing(es, last + 1);
    IncreasingIsDistinct(es);
    forall p, e | p in Elements(es) && e in H ensures Later(p, e) {
      var i :| 0 <= i < |es| && es[i] == p;
    }
    DistinctUnion(Elements(es), H);
  }

  // The last entry for a user key decides what is seen.
  lemma LastEntrySeen(H: set<Entry>, es: seq<Entry>, last: nat, i: nat)
    requires Distinct(H) && AtMost(H, last) && Numbered(es, last + 1)
    requires i < |es| && forall j {:trigger es[j]} :: i < j < |es| ==> es[j].key.user != es[i].key.user
    ensures View(Elements(es) + H, es[i].key.user, last + |es|) == Meaning(Some(es[i]))
  {
    var G, user, s := Elements(es) + H, es[i].key.user, last + |es|;
    BatchDistinct(H, es, last);
    assert es[i] in G && Sees(es[i], user, s);
    forall x | x in G && Sees(x, user, s) ensures x.key.sequence <= es[i].key.sequence {
      if x in Elements(es) {
        var j :| 0 <= j < |es| && es[j] == x;
      }
    }
    NewestIs(G, user, s, es[i]);
  }

  // Without one the key shows what it did.
  lemma OtherEntriesSeen(H: set<Entry>, es: seq<Entry>, last: nat, user: UserKey)
    requires Distinct(H) && AtMost(H, last) && Numbered(es, last + 1)
    requires forall j {:trigger es[j]} :: 0 <= j < |es| ==> es[j].key.user != user
    ensures View(Elements(es) + H, user, last + |es|) == View(H, user, last)
  {
    var G, s := Elements(es) + H, last + |es|;
    BatchDistinct(H, es, last);
    var a := Newest(H, user, last);
    if a.Some? {
      assert a.value in G && Sees(a.value, user, s);
      forall x | x in G && Sees(x, user, s) ensures x.key.sequence <= a.value.key.sequence {
        assert x in H && Sees(x, user, last);
      }
      NewestIs(G, user, s, a.value);
    } else {
      forall x | x in G ensures !Sees(x, user, s) {
        assert x in H ==> !Sees(x, user, last);
      }
    }
  }

  // ---- Steps ------------------------------------------------------------

  // The one-step moves of the store.  A compaction carries the smallest snapshot
  // it worked with, so writes, snapshots and memtable switches may happen while
  // it runs; only its effect on the version is one step.
  datatype Step =
    | Write(batch: seq<Entry>, sync: bool)
    | SwitchMemTable
    | FlushEmpty
    | Flush(level: nat, file: File)
    | TrivialMove(from: nat, moved: File)
    | Compact(c: Compaction, m: nat, out: set<File>)
    | GetSnapshot
    | ReleaseSnapshot(index: nat)
    | RemoveObsoleteLogs

  ghost predicate Numbered(batch: seq<Entry>, first: nat) {
    forall i {:trigger batch[i]} :: 0 <= i < |batch| ==> batch[i].key.sequence == first + i
  }

  ghost function AppendRecord(l: LogFile, batch: seq<Entry>, sync: bool): LogFile {
    LogFile(l.number, l.records + [batch], if sync then |l.records| + 1 else l.synced)
  }

  ghost predicate WriteStep(st: State, w: State, batch: seq<Entry>, sync: bool)
    requires st.logs != []
  {
    var k := |st.logs| - 1;
    && Numbered(batch, st.lastSequence + 1)
    && w == st.(mem := st.mem + Elements(batch), logs := st.logs[k := AppendRecord(st.logs[k], batch, sync)],
                lastSequence := st.lastSequence + |batch|)
  }

  ghost predicate SwitchStep(st: State, w: State) {
    && st.imm == None
    && w == st.(mem := {}, imm := Some(st.mem), logs := st.logs + [LogFile(st.nextFile, [], 0)], nextFile := st.nextFile + 1)
  }

  // What LogAndApply records along with a new version.
  ghost function Recorded(st: State): State {
    st.(manifestSequence := st.lastSequence, manifestNextFile := st.nextFile)
  }

  ghost predicate FlushEmptyStep(st: State, w: State)
    requires st.logs != []
  {
    && st.imm == Some({})
    && w == Recorded(st.(imm := None, logNumber := st.logs[|st.logs| - 1].number, nextFile := st.nextFile + 1))
  }

  ghost predicate FlushStep(st: State, w: State, level: nat, f: File)
    requires st.logs != []
  {
    && st.imm == Some(Elements(f.entries)) && f.number == st.nextFile && WfFile(f) && level < NUM_LEVELS
    && (level > 0 ==> forall l, g {:trigger Holds(st.version, l, g), RangesOverlap(f, g)} ::
          Holds(st.version, l, g) && l <= level ==> !RangesOverlap(f, g))
    && w == Recorded(st.(version := AddFile(st.version, level, f), imm := None, flushed := st.flushed + Elements(f.entries),
                         logNumber := st.logs[|st.logs| - 1].number, nextFile := st.nextFile + 1))
  }

  ghost predicate MoveStep(st: State, w: State, level: nat, f: File) {
    var c := Compaction(level, {f}, {});
    GoodInputs(st.version, c) && w == Recorded(st.(version := Install(st.version, c, {f})))
  }

  ghost predicate CompactStep(st: State, w: State, c: Compaction, m: nat, out: set<File>) {
    && GoodInputs(st.version, c) && NoResurrection(st.version, c, m)
    && GoodOutputs(st.version, c, out) && EntriesOf(out) == Kept(st.version, c, m)
    && m <= st.lastSequence && (forall i :: 0 <= i < |st.snapshots| ==> m <= st.snapshots[i])
    && st.nextFile <= w.nextFile && (forall f :: f in out ==> f.number < w.nextFile)
    && w == Recorded(st.(version := Install(st.version, c, out), nextFile := w.nextFile,
                         horizon := if st.horizon < m then m else st.horizon))
  }

  ghost predicate Next(st: State, step: Step, w: State) {
    st.logs != [] &&
    match step
    case Write(batch, sync) => WriteStep(st, w, batch, sync)
    case SwitchMemTable => SwitchStep(st, w)
    case FlushEmpty => FlushEmptyStep(st, w)
    case Flush(level, f) => FlushStep(st, w, level, f)
    case TrivialMove(level, f) => MoveStep(st, w, level, f)
    case Compact(c, m, out) => CompactStep(st, w, c, m, out)
    case GetSnapshot => w == st.(snapshots := st.snapshots + [st.lastSequence])
    case ReleaseSnapshot(i) => i < |st.snapshots| && w == st.(snapshots := st.snapshots[..i] + st.snapshots[i + 1..])
    case RemoveObsoleteLogs => w == st.(logs := Live(st.logs, st.logNumber))
  }

  // ---- Each step keeps the invariant ------------------------------------

  lemma AppendedFlat(l: LogFile, batch: seq<Entry>, sync: bool)
    ensures Flat(AppendRecord(l, batch, sync).records) == Flat(l.records) + batch
  {
    var r := l.records + [batch];
    assert r[..|r| - 1] == l.records;
  }

  lemma WriteKeepsLogs(st: State, w: State, batch: seq<Entry>, sync: bool)
    requires LogsMatch(st) && WriteStep(st, w, batch, sync)
    ensures LogsMatch(w) && w.Pending() == st.Pending() + Elements(batch)
  {
    var k := |st.logs| - 1;
    AppendedFlat(st.logs[k], batch, sync);
    assert w.logs[..k] == st.logs[..k];
    AppendKeepsAscending(st.logs, AppendRecord(st.logs[k], batch, sync));
    assert Elements(Flat(st.logs[k].records) + batch) == st.mem + Elements(batch);
  }

  lemma AppendKeepsAscending(logs: seq<LogFile>, l: LogFile)
    requires logs != [] && Ascending(logs) && l.number == logs[|logs| - 1].number
    ensures Ascending(logs[|logs| - 1 := l])
  {
    var w := logs[|logs| - 1 := l];
    forall i, j | 0 <= i < j < |w| ensures NumberBelow(w[i], w[j]) {
      assert NumberBelow(logs[i], logs[j]);
    }
  }

  lemma WriteExtendsStream(st: State, w: State, batch: seq<Entry>, sync: bool)
    requires LogsMatch(st) && LogsMatch(w) && WriteStep(st, w, batch, sync)
    ensures Stream(w.LiveLogs()) == Stream(st.LiveLogs()) + batch
  {
    var k := |st.logs| - 1;
    AppendedFlat(st.logs[k], batch, sync);
    LastLive(st);
    LastLive(w);
    assert w.logs[..k] == st.logs[..k];
    Reassociate(Stream(Live(st.logs[..k], st.logNumber)), Flat(st.logs[k].records), batch);
  }

  lemma NumberedIncreasing(batch: seq<Entry>, first: nat)
    requires Numbered(batch, first)
    ensures Increasing(batch)
  {
    forall i, j | 0 <= i < j < |batch| ensures Later(batch[j], batch[i]) {
      assert batch[i].key.sequence == first + i && batch[j].key.sequence == first + j;
    }
  }

  lemma WriteKeepsSequences(st: State, w: State, batch: seq<Entry>)
    requires LogsMatch(st) && SequencesMatch(st) && Numbered(batch, st.lastSequence + 1)
    requires w.Pending() == st.Pending() + Elements(batch) && Stream(w.LiveLogs()) == Stream(st.LiveLogs()) + batch
    requires w.flushed == st.flushed && w.lastSequence == st.lastSequence + |batch| && w.manifestSequence == st.manifestSequence
    ensures SequencesMatch(w)
  {
    LastLive(st);
    NumberedIncreasing(batch, st.lastSequence + 1);
    forall p | p in batch ensures st.lastSequence < p.key.sequence <= w.lastSequence {
      var i :| 0 <= i < |batch| && batch[i] == p;
    }
    forall p, e | p in Elements(batch) && e in Elements(Stream(st.LiveLogs())) ensures Later(p, e) {
      assert e in st.Pending();
    }
    IncreasingJoin(Stream(st.LiveLogs()), batch);
    forall p, e | p in w.Pending() && e in w.flushed ensures Later(p, e) {
      assert p in batch || p in st.Pending();
    }
  }

  lemma WriteKeepsInv(st: State, w: State, batch: seq<Entry>, sync: bool)
    requires Inv(st) && WriteStep(st, w, batch, sync)
    ensures Inv(w) && w.History() == st.History() + Elements(batch)
  {
    WriteKeepsLogs(st, w, batch, sync);
    WriteExtendsStream(st, w, batch, sync);
    WriteKeepsSequences(st, w, batch);
  }

  lemma AscendingAppend(logs: seq<LogFile>, log: LogFile)
    requires Ascending(logs)
    requires forall i :: 0 <= i < |logs| ==> logs[i].number < log.number
    ensures Ascending(logs + [log])
  {
    var all := logs + [log];
    forall i, j | 0 <= i < j < |all| ensures NumberBelow(all[i], all[j]) {
      assert j < |logs| ==> NumberBelow(logs[i], logs[j]);
    }
  }

  lemma SwitchKeepsLogs(st: State, w: State)
    requires LogsMatch(st) && SwitchStep(st, w)
    ensures LogsMatch(w) && w.Pending() == st.Pending() && Stream(w.LiveLogs()) == Stream(st.LiveLogs())
  {
    LastLive(st);
    AscendingAppend(st.logs, LogFile(st.nextFile, [], 0));
    assert w.logs[..|w.logs| - 1] == st.logs;
    assert LogsMatch(w);
    LastLive(w);
  }

  // Once the manifest names the current log, only that log is replayed.
  lemma {:induction false} OlderNotLive(logs: seq<LogFile>, from: nat)
    requires forall i :: 0 <= i < |logs| ==> logs[i].number < from
    ensures Live(logs, from) == []
  {
  }

  lemma FlushKeepsLogs(st: State, w: State)
    requires LogsMatch(st) && w.logs == st.logs && w.mem == st.mem && w.imm == None && w.nextFile >= st.nextFile
    requires w.logNumber == st.logs[|st.logs| - 1].number
    ensures LogsMatch(w) && Stream(w.LiveLogs()) == Flat(st.logs[|st.logs| - 1].records)
    ensures w.Pending() == st.mem
  {
    var k := |st.logs| - 1;
    forall i | 0 <= i < k ensures st.logs[..k][i].number < w.logNumber {
      assert NumberBelow(st.logs[i], st.logs[k]);
    }
    OlderNotLive(st.logs[..k], w.logNumber);
    assert LogsMatch(w);
    LastLive(w);
    assert [] + Flat(st.logs[k].records) == Flat(st.logs[k].records);
  }

  // The immutable memtable holds the older part of the live logs.
  lemma PendingSplit(st: State)
    requires LogsMatch(st) && SequencesMatch(st)
    ensures Increasing(Flat(st.logs[|st.logs| - 1].records)) && Distinct(st.mem) && Distinct(st.Imm())
    ensures AllLater(st.mem, st.Imm()) && AllLater(st.Imm(), st.flushed) && AllLater(st.mem, st.flushed)
  {
    var a, b := Stream(Live(st.logs[..|st.logs| - 1], st.logNumber)), Flat(st.logs[|st.logs| - 1].records);
    LastLive(st);
    IncreasingSplit(a, b);
    IncreasingIsDistinct(a);
    IncreasingIsDistinct(b);
  }

  lemma FlushKeepsSequences(st: State, w: State, A: set<Entry>)
    requires LogsMatch(st) && SequencesMatch(st) && st.Imm() == A && w.Pending() == st.mem && w.flushed == st.flushed + A
    requires w.lastSequence == st.lastSequence == w.manifestSequence
    requires Stream(w.LiveLogs()) == Flat(st.logs[|st.logs| - 1].records)
    ensures SequencesMatch(w) && w.History() == st.History()
  {
    PendingSplit(st);
    DistinctUnion(A, st.flushed);
    assert w.flushed == A + st.flushed;
  }

  lemma FlushEmptyKeepsInv(st: State, w: State)
    requires Inv(st) && FlushEmptyStep(st, w)
    ensures Inv(w) && w.History() == st.History()
  {
    FlushKeepsLogs(st, w);
    FlushKeepsSequences(st, w, {});
  }

  lemma FlushIsGood(v: Levels, level: nat, f: File, A: set<Entry>, H: set<Entry>)
    requires WfFile(f) && level < NUM_LEVELS && Elements(f.entries) == A && AllLater(A, H) && Stored(v) <= H
    requires forall l, g {:trigger Holds(v, l, g)} :: Holds(v, l, g) ==> g.number < f.number
    requires level > 0 ==> forall l, g {:trigger Holds(v, l, g), RangesOverlap(f, g)} ::
               Holds(v, l, g) && l <= level ==> !RangesOverlap(f, g)
    ensures GoodFlush(v, level, f)
  {
    forall l, g | Holds(v, l, g) ensures Newer(f, g) {
      forall x, y | x in f.entries && y in g.entries ensures NewerEntry(x, y) {
        assert x in A && y in Stored(v) && Later(x, y);
      }
    }
  }

  lemma FlushKeepsTables(v: Levels, level: nat, f: File, H: set<Entry>, horizon: nat)
    requires GoodFlush(v, level, f) && WfStore(v) && Distinct(H) && Distinct(Elements(f.entries))
    requires AllLater(Elements(f.entries), H) && Stored(v) <= H
    requires forall user: UserKey, s: nat {:trigger View(H, user, s)} :: s >= horizon ==> View(Stored(v), user, s) == View(H, user, s)
    ensures WfStore(AddFile(v, level, f)) && Stored(AddFile(v, level, f)) <= Elements(f.entries) + H
    ensures forall user: UserKey, s: nat :: s >= horizon ==>
              View(Stored(AddFile(v, level, f)), user, s) == View(Elements(f.entries) + H, user, s)
  {
    var A := Elements(f.entries);
    FlushKeepsLevels(v, level, f);
    FlushStored(v, level, f);
    DistinctUnion(A, H);
    forall x, y | x in A + Stored(v) && y in A + Stored(v) && SameVersion(x, y) ensures x == y {
      assert x in A + H && y in A + H;
    }
    forall user: UserKey, s: nat | s >= horizon
      ensures View(A + Stored(v), user, s) == View(A + H, user, s)
    {
      assert View(H, user, s) == View(Stored(v), user, s);
      AddedInFront(A, Stored(v), H, user, s);
    }
  }

  lemma FlushKeepsInv(st: State, w: State, level: nat, f: File)
    requires Inv(st) && FlushStep(st, w, level, f)
    ensures Inv(w) && w.History() == st.History()
  {
    var A := Elements(f.entries);
    FlushKeepsLogs(st, w);
    FlushKeepsSequences(st, w, A);
    PendingSplit(st);
    FlushIsGood(st.version, level, f, A, st.flushed);
    FlushKeepsTables(st.version, level, f, st.flushed, st.horizon);
    assert A + st.flushed == w.flushed;
    forall l, g | Holds(w.version, l, g) ensures g.number < w.manifestNextFile {
      FlushHolds(st.version, level, f, l, g);
    }
  }

  lemma MoveKeepsInv(st: State, w: State, level: nat, f: File)
    requires Inv(st) && MoveStep(st, w, level, f)
    ensures Inv(w) && w.History() == st.History()
  {
    var c := Compaction(level, {f}, {});
    MoveIsInstall(st.version, level, f);
    InstallKeepsNumbers(st, w, c, {f});
  }

  lemma InstallKeepsNumbers(st: State, w: State, c: Compaction, out: set<File>)
    requires NumbersMatch(st) && GoodInputs(st.version, c) && w.version == Install(st.version, c, out)
    requires st.nextFile <= w.nextFile == w.manifestNextFile
    requires forall f :: f in out ==> f.number < w.nextFile || f in c.upper
    ensures NumbersMatch(w)
  {
    forall f | f in c.upper ensures f.number < st.manifestNextFile {
      assert Holds(st.version, c.level, f);
    }
    forall l, g | Holds(w.version, l, g) ensures g.number < w.manifestNextFile {
      InstallHolds(st.version, c, out, l, g);
    }
  }

  lemma CompactKeepsTables(st: State, w: State, c: Compaction, m: nat, out: set<File>)
    requires TablesMatch(st) && CompactStep(st, w, c, m, out)
    ensures TablesMatch(w)
  {
    InstallKeepsStore(st.version, c, out);
    CompactionPreservesReads(st.version, c, m, out);
    forall user: UserKey, s: nat | s >= w.horizon
      ensures View(Stored(w.version), user, s) == View(w.flushed, user, s)
    {
      assert View(Stored(w.version), user, s) == View(Stored(st.version), user, s);
      assert View(st.flushed, user, s) == View(Stored(st.version), user, s);
    }
  }

  lemma CompactKeepsInv(st: State, w: State, c: Compaction, m: nat, out: set<File>)
    requires Inv(st) && CompactStep(st, w, c, m, out)
    ensures Inv(w) && w.History() == st.History()
  {
    CompactKeepsTables(st, w, c, m, out);
    InstallKeepsNumbers(st, w, c, out);
    CompactKeepsRest(st, w);
  }

  // A new version leaves the logs, the sequence numbers and the snapshots alone.
  lemma CompactKeepsRest(st: State, w: State)
    requires LogsMatch(st) && SequencesMatch(st) && SnapshotsMatch(st) && st.nextFile <= w.nextFile && st.horizon <= w.horizon <= st.lastSequence
    requires w == Recorded(st.(version := w.version, nextFile := w.nextFile, horizon := w.horizon))
    requires forall i :: 0 <= i < |st.snapshots| ==> w.horizon <= st.snapshots[i]
    ensures LogsMatch(w) && SequencesMatch(w) && SnapshotsMatch(w)
  {
  }

  lemma LiveAppend(front: seq<LogFile>, log: LogFile, from: nat)
    requires log.number >= from
    ensures Live(front + [log], from) == Live(front, from) + [log]
  {
    assert (front + [log])[..|front|] == front;
  }

  lemma {:induction false} LiveOfLive(logs: seq<LogFile>, from: nat)
    ensures Live(Live(logs, from), from) == Live(logs, from)
  {
    if logs != [] && logs[|logs| - 1].number >= from {
      var front, last := logs[..|logs| - 1], logs[|logs| - 1];
      LiveOfLive(front, from);
      LiveAppend(Live(front, from), last, from);
    }
  }

  lemma {:induction false} LiveIsTail(logs: seq<LogFile>, from: nat) returns (k: nat)
    ensures k <= |logs| && Live(logs, from) == logs[k..]
  {
    if logs == [] || logs[|logs| - 1].number < from {
      k := |logs|;
    } else {
      k := LiveIsTail(logs[..|logs| - 1], from);
      assert logs[k..|logs| - 1] + [logs[|logs| - 1]] == logs[k..];
    }
  }

  lemma RemoveLogsKeepsLogs(st: State, w: State)
    requires LogsMatch(st) && w == st.(logs := Live(st.logs, st.logNumber))
    ensures LogsMatch(w) && w.LiveLogs() == st.LiveLogs()
  {
    LiveShape(st.logs, st.logNumber);
    LiveOfLive(st.logs, st.logNumber);
    var k := LiveIsTail(st.logs, st.logNumber);
    TailMatches(st, w.logs);
  }

  // Any run of logs up to the last, with the same live ones in front of it, will do.
  lemma TailMatches(st: State, tail: seq<LogFile>)
    requires LogsMatch(st) && 0 < |tail| <= |st.logs| && tail == st.logs[|st.logs| - |tail|..]
    requires Live(tail[..|tail| - 1], st.logNumber) == Live(st.logs[..|st.logs| - 1], st.logNumber)
    ensures LogsMatch(st.(logs := tail))
  {
    TailAscends(st.logs, tail);
    var d := |st.logs| - |tail|;
    assert tail[|tail| - 1] == st.logs[|st.logs| - 1];
    forall i | 0 <= i < |tail| ensures tail[i].number < st.nextFile && tail[i].synced <= |tail[i].records| {
      assert tail[i] == st.logs[d + i];
    }
  }

  // The last log is live; removing the others that are not leaves the same live ones in front of it.
  lemma LiveShape(logs: seq<LogFile>, from: nat)
    requires logs != [] && from <= logs[|logs| - 1].number
    ensures var n, w := |logs| - 1, Live(logs, from);
            w != [] && w[|w| - 1] == logs[n] && Live(w[..|w| - 1], from) == Live(logs[..n], from)
  {
    var n := |logs| - 1;
    var front := Live(logs[..n], from);
    LiveOfLive(logs[..n], from);
    assert (front + [logs[n]])[..|front|] == front;
  }

  lemma TailAscends(logs: seq<LogFile>, tail: seq<LogFile>)
    requires Ascending(logs) && |tail| <= |logs| && tail == logs[|logs| - |tail|..]
    ensures Ascending(tail)
  {
    var d := |logs| - |tail|;
    forall i, j | 0 <= i < j < |tail| ensures NumberBelow(tail[i], tail[j]) {
      assert NumberBelow(logs[d + i], logs[d + j]);
    }
  }

  lemma SwitchKeepsInv(st: State, w: State)
    requires Inv(st) && SwitchStep(st, w)
    ensures Inv(w) && w.History() == st.History()
  {
    SwitchKeepsLogs(st, w);
  }

  lemma RemoveLogsKeepsInv(st: State, w: State)
    requires Inv(st) && w == st.(logs := Live(st.logs, st.logNumber))
    ensures Inv(w) && w.History() == st.History()
  {
    RemoveLogsKeepsLogs(st, w);
  }

  lemma SnapshotsKeepInv(st: State, w: State)
    requires Inv(st) && w == st.(snapshots := w.snapshots) && SnapshotsMatch(w)
    ensures Inv(w) && w.History() == st.History()
  {
  }

  // Every step keeps the invariant, and only a write changes the history.
  lemma StepKeepsInv(st: State, step: Step, w: State)
    requires Inv(st) && Next(st, step, w)
    ensures Inv(w)
    ensures w.History() == st.History() + (if step.Write? then Elements(step.batch) else {})
  {
    if step.Write? {
      WriteStepKeepsInv(st, step, w);
    } else {
      QuietStepKeepsInv(st, step, w);
      NothingAdded(st.History());
    }
  }

  lemma NothingAdded(S: set<Entry>)
    ensures S + {} == S
  {
  }

  lemma WriteStepKeepsInv(st: State, step: Step, w: State)
    requires Inv(st) && Next(st, step, w) && step.Write?
    ensures Inv(w) && w.History() == st.History() + Elements(step.batch)
  {
    WriteKeepsInv(st, w, step.batch, step.sync);
  }

  lemma QuietStepKeepsInv(st: State, step: Step, w: State)
    requires Inv(st) && Next(st, step, w) && !step.Write?
    ensures Inv(w) && w.History() == st.History()
  {
    match step
    case SwitchMemTable => SwitchKeepsInv(st, w);
    case FlushEmpty => FlushEmptyKeepsInv(st, w);
    case Flush(level, f) => FlushKeepsInv(st, w, level, f);
    case TrivialMove(level, f) => MoveKeepsInv(st, w, level, f);
    case Compact(c, m, out) => CompactKeepsInv(st, w, c, m, out);
    case GetSnapshot => SnapshotsKeepInv(st, w);
    case ReleaseSnapshot(i) => SnapshotsKeepInv(st, w);
    case RemoveObsoleteLogs => RemoveLogsKeepsInv(st, w);
  }
}
