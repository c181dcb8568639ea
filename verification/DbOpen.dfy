// Opening a database that was not closed: replay the manifest, then the logs
// (db/db_impl.cc, DB::Open, Recover, RecoverLogFile).

module DbOpen {
  import opened DbFormat
  import opened Levels
  import opened LevelSteps
  import opened VersionSet
  import opened Manifest
  import opened Store
  import opened Recovery
  import opened Db
  import DiskImage
  import SortedEntries

  // Where the replay stands: the entries read so far are those in finished
  // tables, oldest first, and those in the open memtable.
  ghost predicate ReplayHolds(metas: seq<File>, chunks: seq<seq<Entry>>, cur: seq<Entry>, es: seq<Entry>, first: nat, nextFile: nat, U: set<File>) {
    && TablesOf(metas, chunks, first) && Flat(chunks) + cur == es && first <= nextFile
    && forall f {:trigger f in metas} :: f in metas ==> f in U && f.number < nextFile
  }

  // The same, folded away.
  ghost predicate Replay(metas: seq<File>, chunks: seq<seq<Entry>>, cur: seq<Entry>, es: seq<Entry>, first: nat, nextFile: nat, U: set<File>) {
    forall x {:trigger Look(x)} :: Look(x) && x == chunks ==> ReplayHolds(metas, x, cur, es, first, nextFile, U)
  }

  ghost predicate Look(chunks: seq<seq<Entry>>) {
    true
  }

  lemma ReplayIs(metas: seq<File>, chunks: seq<seq<Entry>>, cur: seq<Entry>, es: seq<Entry>, first: nat, nextFile: nat, U: set<File>)
    ensures Replay(metas, chunks, cur, es, first, nextFile, U) <==> ReplayHolds(metas, chunks, cur, es, first, nextFile, U)
  {
    assert Look(chunks);
  }

  lemma ReplayRecord(metas: seq<File>, chunks: seq<seq<Entry>>, cur: seq<Entry>, es: seq<Entry>, batch: seq<Entry>, first: nat, nextFile: nat, U: set<File>)
    requires Replay(metas, chunks, cur, es, first, nextFile, U)
    ensures Replay(metas, chunks, cur + batch, es + batch, first, nextFile, U)
  {
    Reassociate(Flat(chunks), cur, batch);
  }

  lemma OpenPart(metas: seq<File>, chunks: seq<seq<Entry>>, cur: seq<Entry>, es: seq<Entry>, first: nat, nextFile: nat, U: set<File>)
    requires Replay(metas, chunks, cur, es, first, nextFile, U)
    ensures Elements(cur) <= Elements(es)
  {
    ReplayIs(metas, chunks, cur, es, first, nextFile, U);
    forall e | e in cur ensures e in Flat(chunks) + cur {
    }
  }

  // A non-empty memtable becomes the next table.
  lemma ReplayTable(metas: seq<File>, chunks: seq<seq<Entry>>, cur: seq<Entry>, es: seq<Entry>, first: nat, nextFile: nat, U: set<File>, f: File, V: set<File>)
    requires Replay(metas, chunks, cur, es, first, nextFile, U)
    requires f.number == nextFile && WfFile(f) && Elements(f.entries) == Elements(cur) && f in V && U <= V
    ensures Replay(metas + [f], chunks + [cur], [], es, first, nextFile + 1, V)
  {
    ReplayIs(metas, chunks, cur, es, first, nextFile, U);
    ReplayIs(metas + [f], chunks + [cur], [], es, first, nextFile + 1, V);
    var n := |metas|;
    assert (chunks + [cur])[..n] == chunks;
    assert Flat(chunks + [cur]) + [] == es;
    forall i | 0 <= i < n ensures metas[i].number < nextFile {
      assert metas[i] in metas;
    }
  }

  lemma ReplayNothing(metas: seq<File>, chunks: seq<seq<Entry>>, cur: seq<Entry>, es: seq<Entry>, first: nat, nextFile: nat, U: set<File>, V: set<File>)
    requires Replay(metas, chunks, cur, es, first, nextFile, U) && Elements(cur) == {} && U <= V
    ensures Replay(metas, chunks, [], es, first, nextFile + 1, V)
  {
    SortedEntries.NoElements(cur);
  }

  lemma {:induction false} MaxOfBatch(a: seq<Entry>, batch: seq<Entry>, m: nat)
    requires Increasing(batch) && batch != []
    ensures MaxSequence(a + batch, m) ==
            if batch[|batch| - 1].key.sequence > MaxSequence(a, m) then batch[|batch| - 1].key.sequence else MaxSequence(a, m)
  {
    var n := |batch| - 1;
    assert (a + batch)[..|a + batch| - 1] == a + batch[..n];
    if n == 0 {
      assert a + batch[..n] == a;
    } else {
      forall i, j | 0 <= i < j < n ensures Later(batch[..n][j], batch[..n][i]) {
        assert Later(batch[j], batch[i]);
      }
      MaxOfBatch(a, batch[..n], m);
      assert Later(batch[n], batch[n - 1]);
    }
  }

  lemma {:induction false} MaxFromZero(es: seq<Entry>, m: nat)
    ensures MaxSequence(es, m) == if MaxSequence(es, 0) > m then MaxSequence(es, 0) else m
  {
    if es != [] {
      MaxFromZero(es[..|es| - 1], m);
    }
  }

  // A version edit that adds tables to level 0.
  function Level0Edit(log: nat, metas: seq<File>): VersionEdit {
    VersionEdit(Some(log), None, None, {}, seq(|metas|, i requires 0 <= i < |metas| => (0, metas[i])))
  }

  lemma {:induction false} AddFilesAt(v: Levels, fs: seq<File>, l: nat)
    requires l < NUM_LEVELS
    ensures AddFiles(v, fs)[l] == v[l] + (if l == 0 then FileSet(fs) else {})
  {
    if fs != [] {
      AddFilesAt(v, fs[..|fs| - 1], l);
      assert fs == fs[..|fs| - 1] + [fs[|fs| - 1]];
    }
  }

  lemma Level0EditInstalls(v: Version, e: VersionEdit, w: Version, log: nat, metas: seq<File>)
    requires Installs(v, e, w) && e.deletedFiles == {} && e.newFiles == Level0Edit(log, metas).newFiles
    ensures Abs(w) == AddFiles(Abs(v), metas)
  {
    forall l | 0 <= l < NUM_LEVELS ensures Abs(w)[l] == AddFiles(Abs(v), metas)[l] {
      AddFilesAt(Abs(v), metas, l);
      assert FileSet(w[l]) == Edited(FileSet(v[l]), e, l);
      forall f ensures f in AddedAt(e, l) <==> l == 0 && f in metas {
        if l == 0 && f in metas {
          var i :| 0 <= i < |metas| && metas[i] == f;
          assert e.newFiles[i] == (l, f);
        }
      }
    }
  }

  // The local variables of RecoverLogFile.
  datatype Progress = Progress(metas: seq<File>, maxSequence: nat, save: bool, mem: Option<seq<Entry>>, compactions: nat)

  // m is the memtable of the first j records of a log.
  ghost predicate MemTableOf(m: seq<Entry>, records: seq<seq<Entry>>, j: nat)
    requires j <= |records|
  {
    Sorted(m) && Elements(m) == Elements(Flat(records[..j]))
  }

  // Read into one memtable, the first n records of a log never make it overflow.
  ghost predicate Roomy(records: seq<seq<Entry>>, n: nat, overflows: seq<Entry> -> bool)
    requires n <= |records|
  {
    forall j: nat, m {:trigger MemTableOf(m, records, j)} :: 0 < j <= n && MemTableOf(m, records, j) ==> !overflows(m)
  }

  lemma RoomyMore(records: seq<seq<Entry>>, j: nat, overflows: seq<Entry> -> bool, inserted: seq<Entry>)
    requires j < |records| && MemTableOf(inserted, records, j + 1)
    ensures Roomy(records, j + 1, overflows) <==> Roomy(records, j, overflows) && !overflows(inserted)
  {
    var k := j + 1;
    forall m {:trigger MemTableOf(m, records, k)} | MemTableOf(m, records, k) ensures m == inserted {
      SortedEntries.SortedOnce(m, inserted);
    }
  }

  // After j records of a log.
  ghost predicate Midway(p: Progress, p0: Progress, chunks: seq<seq<Entry>>, chunks0: seq<seq<Entry>>, cur: seq<Entry>,
                         before: seq<Entry>, records: seq<seq<Entry>>, j: nat, overflows: seq<Entry> -> bool, first: nat, nextFile: nat, U: set<File>)
    requires j <= |records|
  {
    && p.maxSequence == MaxSequence(before + Flat(records[..j]), 0)
    && Replay(p.metas, chunks, cur, before + Flat(records[..j]), first, nextFile, U)
    && (if p.mem.None? then cur == [] else Sorted(p.mem.value) && Elements(p.mem.value) == Elements(cur))
    && (p.compactions == 0 ==> p.metas == p0.metas && chunks == chunks0 && cur == Flat(records[..j]) && p.save == p0.save)
    && (p.metas != [] ==> p.save) && (p.compactions == 0 <==> Roomy(records, j, overflows)) && (p.compactions > 0 || p0.save ==> p.save)
    && (p.mem.None? ==> j == 0 || p.compactions > 0) && (j == 0 ==> p.mem.None?)
  }

  method ReplayOne(db: DBImpl, records: seq<seq<Entry>>, j: nat, overflows: seq<Entry> -> bool, sizeOf: seq<Entry> -> nat,
                   p: Progress, ghost p0: Progress, ghost chunks: seq<seq<Entry>>, ghost chunks0: seq<seq<Entry>>,
                   ghost cur: seq<Entry>, ghost before: seq<Entry>, ghost first: nat)
      returns (q: Progress, ghost newChunks: seq<seq<Entry>>, ghost newCur: seq<Entry>)
    requires Consistent(db.Ledger()) && j < |records| && Increasing(before + Flat(records))
    requires Midway(p, p0, chunks, chunks0, cur, before, records, j, overflows, first, db.nextFile, db.U)
    modifies db`nextFile, db`U
    ensures Consistent(db.Ledger())
    ensures Midway(q, p0, newChunks, chunks0, newCur, before, records, j + 1, overflows, first, db.nextFile, db.U)
  {
    OpenPart(p.metas, chunks, cur, before + Flat(records[..j]), first, db.nextFile, db.U);
    RecordIsLater(before, records, j);
    ReplayRecord(p.metas, chunks, cur, before + Flat(records[..j]), records[j], first, db.nextFile, db.U);
    FlatStep(records, j);
    var inserted, maxSequence := InsertRecord(records, j, p.mem, p.maxSequence, before, cur);
    if p.compactions == 0 {
      RoomyMore(records, j, overflows, inserted);
    }
    q := p.(mem := Some(inserted), maxSequence := maxSequence);
    newChunks, newCur := chunks, cur + records[j];
    if overflows(inserted) {
      var metas;
      metas, newChunks := WriteReplayed(db, inserted, sizeOf, p.metas, chunks, newCur, before + Flat(records[..j + 1]), first);
      q, newCur := Progress(metas, maxSequence, true, None, p.compactions + 1), [];
    }
  }

  lemma FlatStep(records: seq<seq<Entry>>, j: nat)
    requires j < |records|
    ensures Flat(records[..j + 1]) == Flat(records[..j]) + records[j]
  {
    assert records[..j + 1][..j] == records[..j];
  }

  // Read the records of one log into memtables; a memtable that overflows, and
  // the last one unless its log is reused, becomes a level-0 table.
  method RecoverLogFile(db: DBImpl, log: LogFile, lastLog: bool, reuseLogs: bool, overflows: seq<Entry> -> bool, sizeOf: seq<Entry> -> nat,
                        metas0: seq<File>, maxSequence0: nat, save0: bool,
                        ghost chunks0: seq<seq<Entry>>, ghost before: seq<Entry>, ghost first: nat)
      returns (metas: seq<File>, maxSequence: nat, save: bool, reused: bool, ghost chunks: seq<seq<Entry>>)
    requires Consistent(db.Ledger()) && Replay(metas0, chunks0, [], before, first, db.nextFile, db.U)
    requires Increasing(before + Flat(log.records)) && maxSequence0 == MaxSequence(before, 0) && (metas0 != [] ==> save0)
    modifies db`nextFile, db`U, db`mem
    ensures Consistent(db.Ledger()) && maxSequence == MaxSequence(before + Flat(log.records), 0)
    ensures Replay(metas, chunks, [], if reused then before else before + Flat(log.records), first, db.nextFile, db.U)
    ensures reused <==> lastLog && reuseLogs && Roomy(log.records, |log.records|, overflows)
    ensures if reused then Sorted(db.mem) && Elements(db.mem) == Elements(Flat(log.records)) else db.mem == old(db.mem)
    ensures metas != [] ==> save
    ensures save <==> save0 || (log.records != [] && !reused)
  {
    var p := Progress(metas0, maxSequence0, save0, None, 0);
    ghost var p0, cur := p, [];
    chunks := chunks0;
    assert before + Flat(log.records[..0]) == before;
    for j := 0 to |log.records|
      invariant Consistent(db.Ledger()) && db.mem == old(db.mem)
      invariant Midway(p, p0, chunks, chunks0, cur, before, log.records, j, overflows, first, db.nextFile, db.U)
    {
      p, chunks, cur := ReplayOne(db, log.records, j, overflows, sizeOf, p, p0, chunks, chunks0, cur, before, first);
    }
    assert log.records[..|log.records|] == log.records;
    metas, maxSequence, save := p.metas, p.maxSequence, p.save;
    reused := reuseLogs && lastLog && p.compactions == 0;
    if reused {
      Untouched(p, p0, chunks, chunks0, cur, before, log.records, overflows, first, old(db.nextFile), old(db.U), db.nextFile, db.U);
      db.mem := if p.mem.Some? then p.mem.value else [];
    } else if p.mem.Some? {
      save := true;
      metas, chunks := WriteReplayed(db, p.mem.value, sizeOf, metas, chunks, cur, before + Flat(log.records), first);
    }
  }

  // No table was written: what was replayed before this log is still all there is in tables.
  lemma Untouched(p: Progress, p0: Progress, chunks: seq<seq<Entry>>, chunks0: seq<seq<Entry>>, cur: seq<Entry>, before: seq<Entry>,
                  records: seq<seq<Entry>>, overflows: seq<Entry> -> bool, first: nat, nextFile0: nat, U0: set<File>, nextFile: nat, U: set<File>)
    requires Midway(p, p0, chunks, chunks0, cur, before, records, |records|, overflows, first, nextFile, U) && p.compactions == 0
    requires Replay(p0.metas, chunks0, [], before, first, nextFile0, U0)
    ensures Replay(p.metas, chunks, [], before, first, nextFile, U)
    ensures if p.mem.None? then Flat(records) == [] else Sorted(p.mem.value) && Elements(p.mem.value) == Elements(Flat(records))
  {
    assert records[..|records|] == records;
  }

  // One record into the open memtable.
  method InsertRecord(records: seq<seq<Entry>>, j: nat, mem: Option<seq<Entry>>, maxSequence: nat, ghost before: seq<Entry>, ghost cur: seq<Entry>)
      returns (inserted: seq<Entry>, newMaxSequence: nat)
    requires j < |records| && Increasing(before + Flat(records)) && Elements(cur) <= Elements(before + Flat(records[..j]))
    requires if mem.None? then cur == [] else Sorted(mem.value) && Elements(mem.value) == Elements(cur)
    requires maxSequence == MaxSequence(before + Flat(records[..j]), 0)
    ensures Sorted(inserted) && Elements(inserted) == Elements(cur + records[j])
    ensures newMaxSequence == MaxSequence(before + Flat(records[..j + 1]), 0)
  {
    var batch := records[j];
    ghost var es := before + Flat(records[..j]);
    RecordIsLater(before, records, j);
    LaterThanPart(batch, es, cur);
    inserted := InsertInto(batch, if mem.None? then [] else mem.value);
    newMaxSequence := maxSequence;
    if batch != [] {
      MaxOfBatch(es, batch, 0);
      if batch[|batch| - 1].key.sequence > maxSequence {
        newMaxSequence := batch[|batch| - 1].key.sequence;
      }
    } else {
      assert es + batch == es;
    }
    assert Elements(cur + batch) == Elements(cur) + Elements(batch);
  }

  method WriteReplayed(db: DBImpl, mem: seq<Entry>, sizeOf: seq<Entry> -> nat, metas0: seq<File>, ghost chunks0: seq<seq<Entry>>,
                       ghost cur: seq<Entry>, ghost es: seq<Entry>, ghost first: nat)
      returns (metas: seq<File>, ghost chunks: seq<seq<Entry>>)
    requires Consistent(db.Ledger()) && Replay(metas0, chunks0, cur, es, first, db.nextFile, db.U)
    requires Sorted(mem) && Elements(mem) == Elements(cur)
    modifies db`nextFile, db`U
    ensures Consistent(db.Ledger()) && Replay(metas, chunks, [], es, first, db.nextFile, db.U)
  {
    var meta := db.WriteLevel0Table(mem, None, 0, sizeOf(mem));
    if meta.None? {
      ReplayNothing(metas0, chunks0, cur, es, first, old(db.nextFile), old(db.U), db.U);
      metas, chunks := metas0, chunks0;
    } else {
      ReplayTable(metas0, chunks0, cur, es, first, old(db.nextFile), old(db.U), meta.value.1, db.U);
      metas, chunks := metas0 + [meta.value.1], chunks0 + [cur];
    }
  }

  lemma RecordIsLater(before: seq<Entry>, records: seq<seq<Entry>>, j: nat)
    requires j < |records| && Increasing(before + Flat(records))
    ensures before + Flat(records[..j]) + records[j] == before + Flat(records[..j + 1])
    ensures Increasing(records[j]) && AllLater(Elements(records[j]), Elements(before + Flat(records[..j])))
  {
    var a := before + Flat(records[..j]);
    FlatSplit(records, j + 1);
    assert records[..j + 1][..j] == records[..j];
    Reassociate(before, Flat(records[..j]), records[j]);
    Reassociate(before, Flat(records[..j + 1]), Flat(records[j + 1..]));
    IncreasingSplit(a + records[j], Flat(records[j + 1..]));
    IncreasingSplit(a, records[j]);
  }

  lemma LaterThanPart(batch: seq<Entry>, es: seq<Entry>, cur: seq<Entry>)
    requires AllLater(Elements(batch), Elements(es)) && Elements(cur) <= Elements(es)
    ensures AllLater(Elements(batch), Elements(cur))
  {
    forall p, e | p in Elements(batch) && e in Elements(cur) ensures Later(p, e) {
      assert e in Elements(es);
    }
  }

  // ---- all logs ----

  lemma StreamStep(logs: seq<LogFile>, i: nat)
    requires i < |logs|
    ensures Stream(logs[..i + 1]) == Stream(logs[..i]) + Flat(logs[i].records)
  {
    assert logs[..i + 1][..i] == logs[..i];
  }

  lemma {:induction false} StreamPrefix(logs: seq<LogFile>, k: nat)
    requires k <= |logs| && Increasing(Stream(logs))
    ensures Increasing(Stream(logs[..k]))
  {
    if k < |logs| {
      var n := |logs| - 1;
      IncreasingSplit(Stream(logs[..n]), Flat(logs[n].records));
      StreamPrefix(logs[..n], k);
      assert logs[..n][..k] == logs[..k];
    } else {
      assert logs[..k] == logs;
    }
  }

  // After i logs; only the last one can be reused.
  ghost predicate Recovering(logs: seq<LogFile>, i: nat, metas: seq<File>, maxSequence: nat, save: bool, reused: bool, chunks: seq<seq<Entry>>,
                             mem: seq<Entry>, first: nat, nextFile: nat, U: set<File>)
    requires i <= |logs|
  {
    && (i < |logs| ==> !reused) && (i == 0 ==> !reused)
    && maxSequence == MaxSequence(Stream(logs[..i]), 0)
    && Replay(metas, chunks, [], Stream(Replayed(logs[..i], reused)), first, nextFile, U)
    && Sorted(mem) && Elements(mem) == (if reused then Elements(Flat(logs[i - 1].records)) else {})
    && (metas != [] ==> save) && (i > 0 ==> logs[i - 1].number < nextFile)
  }

  lemma NoLogYet(logs: seq<LogFile>, first: nat, nextFile: nat, U: set<File>)
    requires first <= nextFile
    ensures Recovering(logs, 0, [], 0, false, false, [], [], first, nextFile, U)
  {
    assert logs[..0] == [] && Stream(logs[..0]) == [];
  }

  lemma NextLog(logs: seq<LogFile>, i: nat, metas: seq<File>, maxSequence: nat, save: bool, reused: bool, chunks: seq<seq<Entry>>,
                mem: seq<Entry>, first: nat, nextFile: nat, U: set<File>)
    requires i < |logs| && Increasing(Stream(logs)) && Recovering(logs, i, metas, maxSequence, save, reused, chunks, mem, first, nextFile, U)
    ensures Replay(metas, chunks, [], Stream(logs[..i]), first, nextFile, U) && (metas != [] ==> save)
    ensures Increasing(Stream(logs[..i]) + Flat(logs[i].records)) && maxSequence == MaxSequence(Stream(logs[..i]), 0)
    ensures Sorted(mem) && mem == []
  {
    StreamStep(logs, i);
    StreamPrefix(logs, i + 1);
    SortedEntries.NoElements(mem);
  }

  lemma RecoveredOneMore(logs: seq<LogFile>, i: nat, metas: seq<File>, maxSequence: nat, save: bool, reused: bool, chunks: seq<seq<Entry>>,
                         mem: seq<Entry>, first: nat, nextFile: nat, U: set<File>, nextFile1: nat)
    requires i < |logs| && (reused ==> i == |logs| - 1) && nextFile <= nextFile1 && logs[i].number < nextFile1
    requires maxSequence == MaxSequence(Stream(logs[..i]) + Flat(logs[i].records), 0)
    requires Replay(metas, chunks, [], if reused then Stream(logs[..i]) else Stream(logs[..i]) + Flat(logs[i].records), first, nextFile, U)
    requires Sorted(mem) && Elements(mem) == (if reused then Elements(Flat(logs[i].records)) else {})
    requires metas != [] ==> save
    ensures Recovering(logs, i + 1, metas, maxSequence, save, reused, chunks, mem, first, nextFile1, U)
  {
    StreamStep(logs, i);
    assert logs[..i + 1][..i] == logs[..i];
    var es := if reused then Stream(logs[..i]) else Stream(logs[..i]) + Flat(logs[i].records);
    assert es == Stream(Replayed(logs[..i + 1], reused));
    ReplayLater(metas, chunks, es, first, nextFile, U, nextFile1);
  }

  lemma ReplayLater(metas: seq<File>, chunks: seq<seq<Entry>>, es: seq<Entry>, first: nat, nextFile: nat, U: set<File>, nextFile1: nat)
    requires Replay(metas, chunks, [], es, first, nextFile, U) && nextFile <= nextFile1
    ensures Replay(metas, chunks, [], es, first, nextFile1, U)
  {
  }

  method MarkFileNumberUsed(db: DBImpl, number: nat)
    requires Consistent(db.Ledger())
    modifies db`nextFile
    ensures Consistent(db.Ledger())
    ensures db.nextFile == if old(db.nextFile) <= number then number + 1 else old(db.nextFile)
  {
    if db.nextFile <= number {
      ConsistentIs(db.Ledger());
      StillConsistent(db.Ledger(), number + 1, db.lastSequence);
      db.nextFile := number + 1;
    }
  }

  // Some of the first n logs has records that did not stay in the reused memtable.
  ghost predicate WrittenOut(logs: seq<LogFile>, n: nat, reused: bool)
    requires n <= |logs|
  {
    exists k {:trigger logs[k]} :: 0 <= k < n && logs[k].records != [] && !(reused && k == |logs| - 1)
  }

  // The last log is gone on with if that is asked for and its records fit into one memtable.
  ghost predicate GoesOn(logs: seq<LogFile>, reuseLogs: bool, overflows: seq<Entry> -> bool)
    requires logs != []
  {
    reuseLogs && var last := logs[|logs| - 1].records; Roomy(last, |last|, overflows)
  }

  // Recover in the order in which the logs were generated.
  method RecoverLogFiles(db: DBImpl, logs: seq<LogFile>, reuseLogs: bool, overflows: seq<Entry> -> bool, sizeOf: seq<Entry> -> nat, ghost first: nat)
      returns (metas: seq<File>, maxSequence: nat, save: bool, reused: bool, ghost chunks: seq<seq<Entry>>)
    requires Consistent(db.Ledger()) && db.mem == [] && first <= db.nextFile && Increasing(Stream(logs)) && logs != []
    modifies db`nextFile, db`U, db`mem
    ensures Consistent(db.Ledger())
    ensures Recovering(logs, |logs|, metas, maxSequence, save, reused, chunks, db.mem, first, db.nextFile, db.U)
    ensures (reused <==> GoesOn(logs, reuseLogs, overflows)) && (save <==> WrittenOut(logs, |logs|, reused))
  {
    metas, maxSequence, save, reused, chunks := [], 0, false, false, [];
    NoLogYet(logs, first, db.nextFile, db.U);
    for i := 0 to |logs|
      invariant Consistent(db.Ledger())
      invariant Recovering(logs, i, metas, maxSequence, save, reused, chunks, db.mem, first, db.nextFile, db.U)
      invariant i == |logs| ==> (reused <==> GoesOn(logs, reuseLogs, overflows))
      invariant save <==> WrittenOut(logs, i, reused)
    {
      NextLog(logs, i, metas, maxSequence, save, reused, chunks, db.mem, first, db.nextFile, db.U);
      metas, maxSequence, save, reused, chunks :=
        RecoverLogFile(db, logs[i], i == |logs| - 1, reuseLogs, overflows, sizeOf, metas, maxSequence, save, chunks, Stream(logs[..i]), first);
      ghost var n := db.nextFile;
      MarkFileNumberUsed(db, logs[i].number);
      RecoveredOneMore(logs, i, metas, maxSequence, save, reused, chunks, db.mem, first, n, db.U, db.nextFile);
    }
    assert logs[..|logs|] == logs;
  }

  // ---- opening ----

  lemma {:induction false} EditedAllNamed(es: seq<VersionEdit>, l: nat)
    ensures EditedAll({}, es, l) <= Named(es)
  {
    if es != [] {
      var n := |es| - 1;
      EditedAllNamed(es[..n], l);
      forall f | f in EditedAll({}, es, l) ensures f in Named(es) {
        if f in AddedAt(es[n], l) {
          assert (l, f) in es[n].newFiles;
        } else {
          assert f in Named(es[..n]);
          var i, p :| 0 <= i < n && p in es[..n][i].newFiles && p.1 == f;
          assert p in es[i].newFiles;
        }
      }
    }
  }

  // What the manifest says is a sound start, whatever numbers were handed out after it.
  lemma ManifestIsConsistent(b: Books, r: Recovered)
    requires BooksAgree(b) && Describes(b.manifest, r.version)
    requires r.logNumber == b.logNumber && r.nextFile == b.manifestNextFile && r.lastSequence == b.manifestSequence < MAX_SEQUENCE
    ensures r.version == b.version
    ensures Consistent(Books(r.version, b.manifest, r.logNumber, r.nextFile + 1, r.lastSequence, r.nextFile, r.lastSequence, Named(b.manifest)))
  {
    DescribedOnce(b.manifest, b.version, r.version);
    var N := Named(b.manifest);
    NamedWithin(b.manifest, b.U);
    forall l, f | 0 <= l < NUM_LEVELS && f in r.version[l] ensures f in N {
      EditedAllNamed(b.manifest, l);
      assert f in FileSet(r.version[l]);
    }
    forall i | 0 <= i < |b.manifest| ensures EditWithin(b.manifest[i], N) {
      assert EditWithin(b.manifest[i], b.U);
    }
    ConsistentIs(Books(r.version, b.manifest, r.logNumber, r.nextFile + 1, r.lastSequence, r.nextFile, r.lastSequence, N));
  }

  // The disk left behind by a database: its manifest, and of each log a prefix
  // of the records, at least the synced ones.
  ghost predicate LeftOnDisk(disk: DBImpl, keep: seq<nat>, manifest: seq<VersionEdit>, logs: seq<LogFile>)
    reads disk
  {
    disk.Valid() && manifest == disk.manifest && LogsLeft(disk.State(), keep, logs)
  }

  // The bytes left of the last log and of the manifest hold these records and edits.
  ghost predicate FilesHold(left: seq<byte>, logs: seq<LogFile>, leftManifest: seq<byte>, manifest: seq<VersionEdit>) {
    logs != [] && DiskImage.LogHolds(left, logs[|logs| - 1].records) && DiskImage.ManifestHolds(leftManifest, manifest)
  }

  // Folded away like the invariant.
  ghost predicate LogsLeft(st: State, keep: seq<nat>, logs: seq<LogFile>) {
    forall x {:trigger Db.Open(x)} :: Db.Open(x) && x == st ==> ValidKeep(x.logs, keep) && logs == Survive(x.logs, keep)
  }

  lemma LogsLeftIs(st: State, keep: seq<nat>, logs: seq<LogFile>)
    ensures LogsLeft(st, keep, logs) <==> ValidKeep(st.logs, keep) && logs == Survive(st.logs, keep)
  {
    assert Db.Open(st);
  }

  method ReadManifest(ghost disk: DBImpl, ghost keep: seq<nat>, manifest: seq<VersionEdit>, logs: seq<LogFile>) returns (db: DBImpl)
    requires LeftOnDisk(disk, keep, manifest, logs)
    ensures fresh(db) && Consistent(db.Ledger()) && db.version == disk.version && db.logs == logs && db.manifest == manifest
    ensures db.logNumber == disk.logNumber && db.nextFile == disk.manifestNextFile + 1 && db.lastSequence == disk.manifestSequence
    ensures db.mem == [] && db.imm == None && db.snapshots == [] && db.flushed == disk.flushed && db.horizon == disk.horizon
    ensures db.manifestNextFile == disk.manifestNextFile && db.manifestSequence == disk.manifestSequence
  {
    ConsistentIs(disk.Ledger());
    SoundIsInv(disk.State());
    var r := RecoverManifest(manifest, disk.U);
    ManifestIsConsistent(disk.Ledger(), r.value);
    db := new DBImpl.FromManifest(r.value, manifest, logs, disk.State(), Named(manifest));
  }

  lemma AllRecovered(logs: seq<LogFile>, metas: seq<File>, maxSequence: nat, save: bool, reused: bool, chunks: seq<seq<Entry>>,
                     mem: seq<Entry>, first: nat, nextFile: nat, U: set<File>)
    requires logs != [] && Recovering(logs, |logs|, metas, maxSequence, save, reused, chunks, mem, first, nextFile, U)
    ensures maxSequence == MaxSequence(Stream(logs), 0) && Replay(metas, chunks, [], Stream(Replayed(logs, reused)), first, nextFile, U)
    ensures Sorted(mem) && Elements(mem) == if reused then Elements(Flat(logs[|logs| - 1].records)) else {}
    ensures (metas != [] ==> save) && logs[|logs| - 1].number < nextFile
  {
    assert logs[..|logs|] == logs;
  }

  method ReplayAll(db: DBImpl, live: seq<LogFile>, reuseLogs: bool, overflows: seq<Entry> -> bool, sizeOf: seq<Entry> -> nat, ghost first: nat)
      returns (metas: seq<File>, save: bool, reused: bool, ghost chunks: seq<seq<Entry>>)
    requires Consistent(db.Ledger()) && db.mem == [] && first <= db.nextFile
    requires live != [] && Increasing(Stream(live)) && MaxSequence(Stream(live), 0) < MAX_SEQUENCE
    modifies db`nextFile, db`U, db`mem, db`lastSequence
    ensures Consistent(db.Ledger()) && db.lastSequence == MaxSequence(Stream(live), old(db.lastSequence))
    ensures Replay(metas, chunks, [], Stream(Replayed(live, reused)), first, db.nextFile, db.U)
    ensures Sorted(db.mem) && Elements(db.mem) == if reused then Elements(Flat(live[|live| - 1].records)) else {}
    ensures (metas != [] ==> save) && live[|live| - 1].number < db.nextFile
    ensures (reused <==> GoesOn(live, reuseLogs, overflows)) && (save <==> WrittenOut(live, |live|, reused))
  {
    var maxSequence;
    metas, maxSequence, save, reused, chunks := RecoverLogFiles(db, live, reuseLogs, overflows, sizeOf, first);
    AllRecovered(live, metas, maxSequence, save, reused, chunks, db.mem, first, db.nextFile, db.U);
    MaxFromZero(Stream(live), db.lastSequence);
    if db.lastSequence < maxSequence {
      StillConsistent(db.Ledger(), db.nextFile, maxSequence);
      db.lastSequence := maxSequence;
    }
  }

  method StartLog(db: DBImpl, reused: bool)
    requires Consistent(db.Ledger())
    modifies db`nextFile, db`logs
    ensures Consistent(db.Ledger())
    ensures if reused then db.logs == old(db.logs) && db.nextFile == old(db.nextFile)
            else db.logs == old(db.logs) + [LogFile(old(db.nextFile), [], 0)] && db.nextFile == old(db.nextFile) + 1
  {
    if !reused {
      ConsistentIs(db.Ledger());
      StillConsistent(db.Ledger(), db.nextFile + 1, db.lastSequence);
      db.logs := db.logs + [LogFile(db.nextFile, [], 0)];
      db.nextFile := db.nextFile + 1;
    }
  }

  lemma Level0EditFits(log: nat, metas: seq<File>, v: Version, U: set<File>)
    requires forall f :: f in metas ==> f in U && f !in v[0]
    ensures EditWithin(Level0Edit(log, metas), U) && AddsOnlyNewFiles(v, Level0Edit(log, metas))
  {
  }

  method SaveManifest(db: DBImpl, metas: seq<File>, save: bool, newManifest: bool)
    requires Consistent(db.Ledger()) && db.logs != [] && (metas != [] ==> save)
    requires forall f :: f in metas ==> f in db.U && f !in db.version[0]
    modifies db`version, db`manifest, db`logNumber, db`manifestNextFile, db`manifestSequence
    ensures Consistent(db.Ledger()) && Abs(db.version) == AddFiles(Abs(old(db.version)), metas)
    ensures if save then db.logNumber == db.logs[|db.logs| - 1].number && db.manifestNextFile == db.nextFile && db.manifestSequence == db.lastSequence
            else unchanged(db`logNumber, db`manifestNextFile, db`manifestSequence)
  {
    if save {
      var edit := Level0Edit(db.logs[|db.logs| - 1].number, metas);
      Level0EditFits(db.logs[|db.logs| - 1].number, metas, db.version, db.U);
      ghost var v := db.version;
      ghost var e := db.LogAndApply(edit, newManifest);
      Level0EditInstalls(v, e, db.version, db.logs[|db.logs| - 1].number, metas);
    }
  }

  lemma MetasAreNew(st: State, v: Version, metas: seq<File>, chunks: seq<seq<Entry>>, es: seq<Entry>, nextFile: nat, U: set<File>)
    requires Sound(st) && st.version == Abs(v) && Replay(metas, chunks, [], es, st.manifestNextFile, nextFile, U)
    ensures forall f :: f in metas ==> f in U && f !in v[0]
  {
    ReplayIs(metas, chunks, [], es, st.manifestNextFile, nextFile, U);
    SoundIsInv(st);
    forall f | f in metas ensures f !in v[0] {
      var i :| 0 <= i < |metas| && metas[i] == f;
      assert f in v[0] ==> Holds(st.version, 0, f);
    }
  }

  // What is left of the logs, and the part that is replayed.
  ghost predicate LeftToReplay(st: State, keep: seq<nat>, logs: seq<LogFile>, live: seq<LogFile>) {
    && st.logs != [] && logs != [] && ValidKeep(st.logs, keep) && logs == Survive(st.logs, keep) && live == Live(logs, st.logNumber) && live != []
    && Ascending(logs) && live[|live| - 1] == logs[|logs| - 1]
  }

  // The same, folded away.
  ghost predicate Surviving(st: State, keep: seq<nat>, logs: seq<LogFile>, live: seq<LogFile>) {
    live != [] && logs != [] && forall x {:trigger Db.Open(x)} :: Db.Open(x) && x == st ==> LeftToReplay(x, keep, logs, live)
  }

  lemma SurvivingIs(st: State, keep: seq<nat>, logs: seq<LogFile>, live: seq<LogFile>)
    ensures Surviving(st, keep, logs, live) <==> LeftToReplay(st, keep, logs, live)
  {
    assert Db.Open(st);
  }

  // Facts about what survived that the replay relies on.
  lemma SurvivedLogs(st: State, keep: seq<nat>, logs: seq<LogFile>)
    requires Sound(st) && LogsLeft(st, keep, logs) && st.lastSequence < MAX_SEQUENCE
    ensures Surviving(st, keep, logs, Live(logs, st.logNumber)) && Ascending(logs)
    ensures Increasing(Stream(Live(logs, st.logNumber)))
    ensures MaxSequence(Stream(Live(logs, st.logNumber)), 0) < MAX_SEQUENCE
  {
    SoundIsInv(st);
    LogsLeftIs(st, keep, logs);
    forall a, b | 0 <= a < b < |logs| ensures NumberBelow(logs[a], logs[b]) {
      assert NumberBelow(st.logs[a], st.logs[b]);
    }
    LastLive(st);
    SurvivingStream(st.logs, keep, st.logNumber);
    LastOfStream(logs, st.logNumber);
    var es := Stream(Live(logs, st.logNumber));
    MaxSequenceBounds(es, 0);
    forall e | e in es ensures e.key.sequence <= st.lastSequence {
      assert e in Elements(es) && e in st.Pending();
    }
    SurvivingIs(st, keep, logs, Live(logs, st.logNumber));
  }

  // The fields of the opened database: inMem is left in the memtable, inTables
  // went to tables, v is the version with them.
  ghost predicate Opened(st: State, logs: seq<LogFile>, reuse: bool, saved: bool, inMem: set<Entry>, inTables: set<Entry>, v: Levels,
                         lastSequence: nat, nextFile: nat, w: State) {
    && w.mem == inMem && w.imm == None
    && (if reuse then w.logs == logs && w.nextFile == nextFile
        else w.logs == logs + [LogFile(nextFile, [], 0)] && w.nextFile == nextFile + 1)
    && w.version == v && w.flushed == st.flushed + inTables
    && w.horizon == st.horizon && w.snapshots == []
    && w.lastSequence == lastSequence && w.logs != []
    && (if saved then w.logNumber == w.logs[|w.logs| - 1].number && w.manifestNextFile == w.nextFile && w.manifestSequence == w.lastSequence
        else w.logNumber == st.logNumber && w.manifestNextFile == st.manifestNextFile && w.manifestSequence == st.manifestSequence)
  }

  ghost predicate OpenedAfter(st: State, logs: seq<LogFile>, live: seq<LogFile>, c: Crash, nextFile: nat, w: State)
    requires live != []
  {
    Opened(st, logs, c.reuse, c.saved, if c.reuse then Elements(Flat(live[|live| - 1].records)) else {},
           Elements(Stream(Replayed(live, c.reuse))), AddFiles(st.version, c.fs), MaxSequence(Stream(live), st.manifestSequence), nextFile, w)
  }

  lemma OpenedLogs(st: State, keep: seq<nat>, logs: seq<LogFile>, live: seq<LogFile>, c: Crash, nextFile: nat, w: State)
    requires Surviving(st, keep, logs, live) && c.keep == keep && live[|live| - 1].number < nextFile && OpenedAfter(st, logs, live, c, nextFile, w)
    ensures RecoveredLogs(st, c, w)
  {
    SurvivingIs(st, keep, logs, live);
    LogsBelow(logs, nextFile);
    if !c.reuse {
      forall i, j | 0 <= i < j < |w.logs| ensures NumberBelow(w.logs[i], w.logs[j]) {
        assert j < |logs| ==> NumberBelow(logs[i], logs[j]);
      }
    }
  }

  lemma OpenedTables(st: State, keep: seq<nat>, logs: seq<LogFile>, live: seq<LogFile>, c: Crash, nextFile: nat, U: set<File>, w: State)
    requires Surviving(st, keep, logs, live) && c.keep == keep && OpenedAfter(st, logs, live, c, nextFile, w)
    requires Replay(c.fs, c.chunks, [], Stream(Replayed(live, c.reuse)), st.manifestNextFile, nextFile, U) && (c.fs != [] ==> c.saved)
    ensures RecoveredTables(st, c, w) && RecoveredSequence(st, c, w)
  {
    ReplayIs(c.fs, c.chunks, [], Stream(Replayed(live, c.reuse)), st.manifestNextFile, nextFile, U);
    SurvivingIs(st, keep, logs, live);
    assert Flat(c.chunks) + [] == Flat(c.chunks);
  }

  // Restored, folded away like the invariant.
  ghost predicate Reopened(st: State, c: Crash, w: State) {
    forall x {:trigger Db.Open(x)} :: Db.Open(x) && x == w ==> Restored(st, c, x)
  }

  lemma ReopenedIs(st: State, c: Crash, w: State)
    ensures Reopened(st, c, w) <==> Restored(st, c, w)
  {
    assert Db.Open(w);
  }

  lemma OpenIsRecovery(st: State, keep: seq<nat>, logs: seq<LogFile>, live: seq<LogFile>, c: Crash, nextFile: nat, U: set<File>, w: State)
    requires Sound(st) && Surviving(st, keep, logs, live) && c.keep == keep && live[|live| - 1].number < nextFile
    requires Replay(c.fs, c.chunks, [], Stream(Replayed(live, c.reuse)), st.manifestNextFile, nextFile, U) && (c.fs != [] ==> c.saved)
    requires OpenedAfter(st, logs, live, c, nextFile, w) && DiskImage.LogHolds(c.left, logs[|logs| - 1].records)
    ensures Reopened(st, c, w) && (Appendable(c) ==> Sound(w))
  {
    SurvivingIs(st, keep, logs, live);
    OpenedLogs(st, keep, logs, live, c, nextFile, w);
    OpenedTables(st, keep, logs, live, c, nextFile, U, w);
    ReopenedIs(st, c, w);
    if Appendable(c) {
      RecoverKeepsSound(st, c, w);
    }
  }

  lemma RecoverKeepsSound(st: State, c: Crash, w: State)
    requires Sound(st) && RecoverStep(st, c, w)
    ensures Sound(w)
  {
    SoundIsInv(st);
    RecoverKeepsInv(st, c, w);
    SoundIsInv(w);
  }

  lemma LogsBelow(logs: seq<LogFile>, nextFile: nat)
    requires Ascending(logs) && logs != [] && logs[|logs| - 1].number < nextFile
    ensures forall i :: 0 <= i < |logs| ==> logs[i].number < nextFile
  {
    forall i | 0 <= i < |logs| ensures logs[i].number < nextFile {
      assert i < |logs| - 1 ==> NumberBelow(logs[i], logs[|logs| - 1]);
    }
  }

  // Start a new log unless the last one is reused, and record the outcome if anything changed.
  method RecordOutcome(db: DBImpl, metas: seq<File>, save: bool, reused: bool, newManifest: bool, ghost st: State, ghost inTables: set<Entry>)
    requires Consistent(db.Ledger()) && db.logs != [] && db.imm == None && db.snapshots == [] && (metas != [] ==> save)
    requires forall f :: f in metas ==> f in db.U && f !in db.version[0]
    requires db.flushed == st.flushed && db.horizon == st.horizon && db.logNumber == st.logNumber
    requires db.manifestNextFile == st.manifestNextFile && db.manifestSequence == st.manifestSequence
    modifies db`nextFile, db`logs, db`version, db`manifest, db`logNumber, db`manifestNextFile, db`manifestSequence, db`flushed
    ensures Consistent(db.Ledger())
    ensures Opened(st, old(db.logs), reused, save, Elements(db.mem), inTables, AddFiles(Abs(old(db.version)), metas),
                   db.lastSequence, old(db.nextFile), db.State())
  {
    StartLog(db, reused);
    SaveManifest(db, metas, save, newManifest);
    db.flushed := st.flushed + inTables;
  }

  // The replay is over: what was read is in the memtable and in tables not yet installed.
  ghost predicate ReplayDone(db: DBImpl, st: State, keep: seq<nat>, logs: seq<LogFile>, live: seq<LogFile>, reused: bool,
                             metas: seq<File>, chunks: seq<seq<Entry>>)
    reads db
  {
    && Consistent(db.Ledger()) && Sound(st) && Surviving(st, keep, logs, live)
    && db.logs == logs && live[|live| - 1].number < db.nextFile && Abs(db.version) == st.version
    && Replay(metas, chunks, [], Stream(Replayed(live, reused)), st.manifestNextFile, db.nextFile, db.U)
    && Sorted(db.mem) && Elements(db.mem) == (if reused then Elements(Flat(live[|live| - 1].records)) else {}) && db.imm == None
    && db.snapshots == [] && db.flushed == st.flushed && db.horizon == st.horizon && db.logNumber == st.logNumber
    && db.lastSequence == MaxSequence(Stream(live), st.manifestSequence)
    && db.manifestNextFile == st.manifestNextFile && db.manifestSequence == st.manifestSequence
  }

  method FinishOpen(db: DBImpl, metas: seq<File>, save: bool, reused: bool, newManifest: bool, ghost st: State, ghost keep: seq<nat>,
                    ghost left: seq<byte>, ghost leftManifest: seq<byte>, ghost logs: seq<LogFile>, ghost live: seq<LogFile>, ghost chunks: seq<seq<Entry>>)
      returns (ghost c: Crash)
    requires ReplayDone(db, st, keep, logs, live, reused, metas, chunks) && (metas != [] ==> save)
    requires DiskImage.LogHolds(left, logs[|logs| - 1].records)
    modifies db
    ensures Left(c, keep, left, leftManifest) && c.reuse == reused && c.reuseManifest == !newManifest && c.saved == save
    ensures Reopened(st, c, db.State()) && (Appendable(c) ==> db.Valid())
  {
    ghost var nextFile, U := db.nextFile, db.U;
    ghost var inTables := Elements(Stream(Replayed(live, reused)));
    MetasAreNew(st, db.version, metas, chunks, Stream(Replayed(live, reused)), nextFile, U);
    RecordOutcome(db, metas, save, reused, newManifest, st, inTables);
    c := Crash(keep, chunks, metas, reused, left, !newManifest, leftManifest, save);
    OpenIsRecovery(st, keep, logs, live, c, nextFile, U, db.State());
  }

  lemma SequenceFits(b: Books)
    requires Consistent(b)
    ensures b.lastSequence < MAX_SEQUENCE
  {
    ConsistentIs(b);
  }

  // What a crash left of the last log and of the manifest.
  ghost predicate Left(c: Crash, keep: seq<nat>, left: seq<byte>, leftManifest: seq<byte>) {
    c.keep == keep && c.left == left && c.leftManifest == leftManifest
  }

  method ReplayDisk(ghost disk: DBImpl, ghost keep: seq<nat>, manifest: seq<VersionEdit>, logs: seq<LogFile>, reuseLogs: bool,
                    overflows: seq<Entry> -> bool, sizeOf: seq<Entry> -> nat)
      returns (db: DBImpl, metas: seq<File>, save: bool, reused: bool, ghost live: seq<LogFile>, ghost chunks: seq<seq<Entry>>)
    requires LeftOnDisk(disk, keep, manifest, logs)
    ensures fresh(db) && ReplayDone(db, disk.State(), keep, logs, live, reused, metas, chunks)
    ensures (metas != [] ==> save) && live == Live(logs, disk.logNumber)
    ensures (reused <==> GoesOn(live, reuseLogs, overflows)) && (save <==> WrittenOut(live, |live|, reused))
  {
    ghost var st := disk.State();
    SequenceFits(disk.Ledger());
    SurvivedLogs(st, keep, logs);
    db := ReadManifest(disk, keep, manifest, logs);
    var lives := LiveLogs(logs, db.logNumber);
    live := lives;
    metas, save, reused, chunks := ReplayAll(db, lives, reuseLogs, overflows, sizeOf, disk.manifestNextFile);
    assert db.logs == logs && db.imm == None && db.snapshots == [] && Abs(db.version) == st.version;
    assert db.flushed == st.flushed && db.horizon == st.horizon && db.logNumber == st.logNumber;
  }

  // Open after a crash: replay the manifest and the live logs, start a new log
  // unless the last one is reused, and record the result if anything changed.  All
  // that was left is back; the outcome is a recovery step of the store unless the
  // database goes on appending to a file that does not end cleanly, which the code
  // does not look for.
  method Open(ghost disk: DBImpl, ghost keep: seq<nat>, ghost left: seq<byte>, ghost leftManifest: seq<byte>,
              manifest: seq<VersionEdit>, logs: seq<LogFile>, reuseLogs: bool, reuseManifest: bool,
              overflows: seq<Entry> -> bool, sizeOf: seq<Entry> -> nat)
      returns (db: DBImpl, ghost c: Crash)
    requires LeftOnDisk(disk, keep, manifest, logs) && FilesHold(left, logs, leftManifest, manifest)
    ensures fresh(db) && Left(c, keep, left, leftManifest) && c.reuseManifest == reuseManifest
    ensures var live := Live(logs, disk.logNumber);
            && live != [] && (c.reuse <==> GoesOn(live, reuseLogs, overflows))
            && (c.saved <==> !reuseManifest || WrittenOut(live, |live|, c.reuse))
    ensures Restored(disk.State(), c, db.State())
    ensures Appendable(c) ==> db.Valid() && RecoverStep(disk.State(), c, db.State())
  {
    ghost var st := disk.State();
    var metas, save, reused;
    ghost var live, chunks;
    db, metas, save, reused, live, chunks := ReplayDisk(disk, keep, manifest, logs, reuseLogs, overflows, sizeOf);
    c := FinishOpen(db, metas, save || !reuseManifest, reused, !reuseManifest, st, keep, left, leftManifest, logs, live, chunks);
    ReopenedIs(st, c, db.State());
  }
}
