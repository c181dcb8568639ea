// The database object: its operations are steps of the store
// (db/db_impl.cc, db/version_set.cc, db/memtable.cc, db/write_batch.cc).

module Db {
  import opened DbFormat
  import opened Levels
  import opened LevelSteps
  import opened CompactionSafety
  import opened VersionSet
  import opened InputSelection
  import opened CompactionPicking
  import opened CompactionWork
  import opened Manifest
  import opened SortedEntries
  import opened InputLists
  import opened Store
  import opened Recovery
  import Merger
  import DbIter

  // One Put or Delete of a write batch.
  datatype Op = Op(user: UserKey, kind: ValueType, value: seq<byte>)

  // WriteBatch::Iterate numbers the operations from the batch's sequence number.
  function Entries(ops: seq<Op>, first: nat): (r: seq<Entry>)
    ensures |r| == |ops| && Numbered(r, first)
    ensures forall i {:trigger r[i]} :: 0 <= i < |r| ==> r[i].key.user == ops[i].user && r[i].key.kind == ops[i].kind && r[i].value == ops[i].value
  {
    seq(|ops|, i requires 0 <= i < |ops| => Entry(InternalKey(ops[i].user, first + i, ops[i].kind), ops[i].value))
  }

  // No operation from position i on names the user key.
  predicate Unnamed(ops: seq<Op>, i: nat, user: UserKey) {
    forall j {:trigger ops[j]} :: i <= j < |ops| ==> ops[j].user != user
  }

  // What is seen after a batch: where no operation names the user key, what was seen
  // before, and otherwise what the last one that does has left.
  ghost predicate Shows(ops: seq<Op>, user: UserKey, before: Option<seq<byte>>, after: Option<seq<byte>>) {
    && (Unnamed(ops, 0, user) ==> after == before)
    && forall i {:trigger ops[i]} :: 0 <= i < |ops| && ops[i].user == user && Unnamed(ops, i + 1, user) ==>
         after == if ops[i].kind == Value then Some(ops[i].value) else None
  }

  // A batch on top of a history shows what its operations say.
  lemma BatchShows(H: set<Entry>, ops: seq<Op>, last: nat, user: UserKey)
    requires Distinct(H) && AtMost(H, last)
    ensures Shows(ops, user, View(H, user, last), View(Elements(Entries(ops, last + 1)) + H, user, last + |ops|))
  {
    var es := Entries(ops, last + 1);
    if Unnamed(ops, 0, user) {
      OtherEntriesSeen(H, es, last, user);
    }
    forall i | 0 <= i < |ops| && ops[i].user == user && Unnamed(ops, i + 1, user)
      ensures View(Elements(es) + H, user, last + |ops|) == if ops[i].kind == Value then Some(ops[i].value) else None
    {
      assert forall j :: i < j < |es| ==> es[j].key.user == ops[j].user != user;
      LastEntrySeen(H, es, last, i);
    }
  }

  // MemTableInserter: add the entries one by one.
  method InsertInto(batch: seq<Entry>, mem0: seq<Entry>) returns (mem: seq<Entry>)
    requires Sorted(mem0) && Increasing(batch) && AllLater(Elements(batch), Elements(mem0))
    ensures Sorted(mem) && Elements(mem) == Elements(mem0) + Elements(batch)
  {
    mem := mem0;
    for i := 0 to |batch|
      invariant Sorted(mem) && Elements(mem) == Elements(mem0) + Elements(batch[..i])
    {
      forall x | x in Elements(mem) ensures Later(batch[i], x) {
        assert batch[i] in Elements(batch);
        if x !in Elements(mem0) {
          var j :| 0 <= j < i && batch[j] == x;
        }
      }
      InsertEntryIs(batch[i], mem);
      mem := InsertEntry(batch[i], mem);
      assert batch[..i + 1] == batch[..i] + [batch[i]];
    }
    assert batch[..|batch|] == batch;
  }

  // ---- What an edit does to the levels ----------------------------------

  lemma AddFileInstalls(v: Version, e: VersionEdit, w: Version, level: nat, f: File)
    requires Installs(v, e, w) && level < NUM_LEVELS && e.deletedFiles == {} && e.newFiles == [(level, f)]
    ensures Abs(w) == AddFile(Abs(v), level, f)
  {
    forall l | 0 <= l < NUM_LEVELS ensures Abs(w)[l] == AddFile(Abs(v), level, f)[l] {
      assert FileSet(w[l]) == Edited(FileSet(v[l]), e, l);
      assert AddedAt(e, l) == if l == level then {f} else {};
    }
  }

  lemma EmptyInstalls(v: Version, e: VersionEdit, w: Version)
    requires Installs(v, e, w) && e.deletedFiles == {} && e.newFiles == []
    ensures Abs(w) == Abs(v)
  {
    forall l | 0 <= l < NUM_LEVELS ensures Abs(w)[l] == Abs(v)[l] {
      assert FileSet(w[l]) == Edited(FileSet(v[l]), e, l);
      assert AddedAt(e, l) == {};
    }
  }

  // The edit deletes the inputs by level and number and adds out one level down.
  ghost predicate CompactionEdit(e: VersionEdit, c: Compaction, out: set<File>) {
    && (forall l, n {:trigger (l, n) in e.deletedFiles} :: (l, n) in e.deletedFiles <==>
          exists f: File :: f.number == n && ((l == c.level && f in c.upper) || (l == c.level + 1 && f in c.lower)))
    && (forall l, f {:trigger (l, f) in e.newFiles} :: (l, f) in e.newFiles <==> l == c.level + 1 && f in out)
  }

  lemma CompactionInstalls(v: Version, e: VersionEdit, w: Version, c: Compaction, out: set<File>)
    requires Installs(v, e, w) && UniqueNumbers(Abs(v)) && c.level + 1 < NUM_LEVELS
    requires c.upper <= FileSet(v[c.level]) && c.lower <= FileSet(v[c.level + 1]) && CompactionEdit(e, c, out)
    ensures Abs(w) == Install(Abs(v), c, out)
  {
    var a, x := Abs(v), Install(Abs(v), c, out);
    forall l | 0 <= l < NUM_LEVELS ensures Abs(w)[l] == x[l] {
      assert FileSet(w[l]) == Edited(FileSet(v[l]), e, l);
      forall f | f in a[l] ensures (l, f.number) in e.deletedFiles <==> (l == c.level && f in c.upper) || (l == c.level + 1 && f in c.lower) {
        assert Holds(a, l, f);
        if (l, f.number) in e.deletedFiles {
          var g: File :| g.number == f.number && ((l == c.level && g in c.upper) || (l == c.level + 1 && g in c.lower));
          assert Holds(a, l, g);
        }
      }
      forall f ensures f in Abs(w)[l] <==> f in x[l] {
        assert f in AddedAt(e, l) <==> l == c.level + 1 && f in out;
      }
    }
  }

  // ---- Reads ------------------------------------------------------------

  // Newest of memtable, immutable memtable and tables, in this order.
  lemma SearchInOrder(M: set<Entry>, I: set<Entry>, S: set<Entry>, user: UserKey, s: nat)
    requires Distinct(M) && Distinct(I) && Distinct(S) && AllLater(M, I) && AllLater(M, S) && AllLater(I, S)
    ensures Newest(M + I + S, user, s) ==
            if Newest(M, user, s).Some? then Newest(M, user, s)
            else if Newest(I, user, s).Some? then Newest(I, user, s)
            else Newest(S, user, s)
  {
    LaterIsNewer(I, S);
    NewestOfUnion(I, S, user, s);
    DistinctUnion(I, S);
    forall p, e | p in M && e in I + S ensures Later(p, e) {
      assert e in I || e in S;
    }
    LaterIsNewer(M, I + S);
    NewestOfUnion(M, I + S, user, s);
    assert M + I + S == M + (I + S);
  }

  // ---- The database -----------------------------------------------------

  // The fields that have to agree with the manifest, and the named files.
  datatype Books = Books(version: Version, manifest: seq<VersionEdit>, logNumber: nat, nextFile: nat, lastSequence: nat,
                         manifestNextFile: nat, manifestSequence: nat, U: set<File>)

  ghost predicate BooksAgree(b: Books) {
    && Describes(b.manifest, b.version)
    && LastSet(b.manifest, LogNumber) == Some(b.logNumber)
    && LastSet(b.manifest, NextFile) == Some(b.manifestNextFile)
    && LastSet(b.manifest, LastSequence) == Some(b.manifestSequence)
    && NumbersIdentify(b.U) && VersionWithin(b.version, b.U) && EditsWithin(b.manifest, b.U)
    && (forall f :: f in b.U ==> f.number < b.nextFile)
    && (forall f :: f in Named(b.manifest) ==> f.number < b.manifestNextFile) && b.manifestNextFile <= b.nextFile
    && b.lastSequence < MAX_SEQUENCE
  }

  // The files named in a manifest.
  ghost function Named(es: seq<VersionEdit>): (r: set<File>)
    ensures forall f {:trigger f in r} :: f in r <==> exists i, p :: 0 <= i < |es| && p in es[i].newFiles && p.1 == f
  {
    set i, p | 0 <= i < |es| && p in es[i].newFiles :: p.1
  }

  lemma NamedWithin(es: seq<VersionEdit>, U: set<File>)
    requires EditsWithin(es, U)
    ensures Named(es) <= U
  {
    forall f | f in Named(es) ensures f in U {
      var i, p :| 0 <= i < |es| && p in es[i].newFiles && p.1 == f;
      assert EditWithin(es[i], U);
    }
  }

  // The same, folded away: the solver opens it only where a lemma asks for it.
  ghost predicate OpenBooks(b: Books) {
    true
  }

  ghost predicate Consistent(b: Books) {
    forall x {:trigger OpenBooks(x)} :: OpenBooks(x) && x == b ==> BooksAgree(x)
  }

  lemma ConsistentIs(b: Books)
    ensures Consistent(b) <==> BooksAgree(b)
  {
    assert OpenBooks(b);
  }

  // The store's invariant, folded away in the same manner.
  ghost predicate Open(st: State) {
    true
  }

  ghost predicate Sound(st: State) {
    forall x {:trigger Open(x)} :: Open(x) && x == st ==> Inv(x)
  }

  lemma SoundIsInv(st: State)
    ensures Sound(st) <==> Inv(st)
  {
    assert Open(st);
  }

  lemma TablesFit(st: State, v: Version)
    requires Inv(st) && st.version == Abs(v) && st.lastSequence < MAX_SEQUENCE
    ensures SequencesFit(v)
  {
    forall l, f | 0 <= l < NUM_LEVELS && f in v[l] ensures f.largest.sequence <= MAX_SEQUENCE {
      assert Holds(st.version, l, f) && WfLevel(l, st.version[l]);
      var e := f.entries[|f.entries| - 1];
      assert e in f.entries && e in Stored(st.version) && e in st.flushed;
    }
  }

  ghost function Wrote(st: State, es: seq<Entry>, sync: bool): State
    requires st.logs != []
  {
    st.(mem := st.mem + Elements(es), logs := st.logs[|st.logs| - 1 := AppendRecord(st.logs[|st.logs| - 1], es, sync)],
        lastSequence := st.lastSequence + |es|)
  }

  lemma WriteIsStep(st: State, es: seq<Entry>, sync: bool)
    requires Sound(st) && st.logs != [] && Numbered(es, st.lastSequence + 1)
    ensures Next(st, Step.Write(es, sync), Wrote(st, es, sync))
  {
  }

  lemma WriteShows(st: State, ops: seq<Op>, sync: bool, w: State)
    requires Sound(st) && Next(st, Step.Write(Entries(ops, st.lastSequence + 1), sync), w)
    ensures forall user: UserKey {:trigger View(w.History(), user, w.lastSequence)} ::
              Shows(ops, user, View(st.History(), user, st.lastSequence), View(w.History(), user, w.lastSequence))
  {
    var es := Entries(ops, st.lastSequence + 1);
    assert w.History() == Elements(es) + st.History();
    HistoryFits(st);
    forall user: UserKey ensures Shows(ops, user, View(st.History(), user, st.lastSequence), View(w.History(), user, w.lastSequence)) {
      BatchShows(st.History(), ops, st.lastSequence, user);
    }
  }

  lemma HistoryFits(st: State)
    requires Sound(st)
    ensures Distinct(st.History()) && AtMost(st.History(), st.lastSequence)
  {
    SoundIsInv(st);
    HistoryDistinct(st);
  }

  lemma StepKeepsSound(st: State, step: Step, w: State)
    requires Sound(st) && Next(st, step, w)
    ensures Sound(w)
  {
    SoundIsInv(st);
    StepKeepsInv(st, step, w);
    SoundIsInv(w);
  }

  lemma StillConsistent(b: Books, nextFile: nat, lastSequence: nat)
    requires Consistent(b) && b.nextFile <= nextFile && lastSequence < MAX_SEQUENCE
    ensures Consistent(b.(nextFile := nextFile, lastSequence := lastSequence))
  {
    ConsistentIs(b);
    ConsistentIs(b.(nextFile := nextFile, lastSequence := lastSequence));
  }

  // After LogAndApply the manifest, continued or started anew, describes the new
  // version and counters.
  lemma LoggedConsistent(b: Books, base: seq<VersionEdit>, e: VersionEdit, w: Version, log: nat)
    requires Consistent(b) && Describes(base, b.version) && EditsWithin(base, b.U) && EditWithin(e, b.U) && Installs(b.version, e, w)
    requires e.logNumber == Some(log) && e.nextFile == Some(b.nextFile) && e.lastSequence == Some(b.lastSequence)
    ensures Consistent(Books(w, base + [e], log, b.nextFile, b.lastSequence, b.nextFile, b.lastSequence, b.U))
  {
    ConsistentIs(b);
    DescribesStep(base, b.version, e, w);
    assert (base + [e])[..|base|] == base;
    forall l, f | 0 <= l < NUM_LEVELS && f in w[l] ensures f in b.U {
      assert f in FileSet(w[l]) && f in Edited(FileSet(b.version[l]), e, l);
      assert f in AddedAt(e, l) ==> (l, f) in e.newFiles;
    }
    assert EditsWithin(base + [e], b.U);
    NamedWithin(base + [e], b.U);
    ConsistentIs(Books(w, base + [e], log, b.nextFile, b.lastSequence, b.nextFile, b.lastSequence, b.U));
  }

  lemma SnapshotWithin(v: Version, e: VersionEdit, U: set<File>)
    requires VersionWithin(v, U) && e.deletedFiles == {}
    requires forall l, f {:trigger (l, f) in e.newFiles} :: (l, f) in e.newFiles <==> 0 <= l < NUM_LEVELS && f in v[l]
    ensures EditWithin(e, U)
  {
    forall p | p in e.newFiles ensures p.0 < NUM_LEVELS && p.1 in U {
      assert (p.0, p.1) in e.newFiles;
    }
  }

  // Files with new numbers join the named files.
  lemma NamedConsistent(b: Books, fs: set<File>, nextFile: nat)
    requires Consistent(b) && NumbersIdentify(fs) && b.nextFile <= nextFile && forall f :: f in fs ==> b.nextFile <= f.number < nextFile
    ensures Consistent(b.(nextFile := nextFile, U := b.U + fs))
    ensures forall l, f :: 0 <= l < NUM_LEVELS && f in fs ==> f !in b.version[l]
  {
    ConsistentIs(b);
    forall i | 0 <= i < |b.manifest| ensures EditWithin(b.manifest[i], b.U + fs) {
      assert EditWithin(b.manifest[i], b.U);
    }
    ConsistentIs(b.(nextFile := nextFile, U := b.U + fs));
  }

  lemma NewDBConsistent()
    ensures Consistent(Books(EMPTY_VERSION, [VersionEdit(Some(0), Some(2), Some(0), {}, [])], 0, 4, 0, 2, 0, {}))
  {
    var e := VersionEdit(Some(0), Some(2), Some(0), {}, []);
    assert [e][..0] == [];
    forall l | 0 <= l < NUM_LEVELS ensures Ordered(EMPTY_VERSION[l]) && FileSet(EMPTY_VERSION[l]) == EditedAll({}, [e], l) {
      assert AddedAt(e, l) == {};
    }
    ConsistentIs(Books(EMPTY_VERSION, [e], 0, 4, 0, 2, 0, {}));
  }

  // The greatest number at or below the last sequence number and every live snapshot.
  ghost predicate IsSmallestSnapshot(m: nat, lastSequence: nat, snapshots: seq<nat>) {
    && NoSnapshotBelow(m, lastSequence, snapshots)
    && forall n: nat {:trigger NoSnapshotBelow(n, lastSequence, snapshots)} :: NoSnapshotBelow(n, lastSequence, snapshots) ==> n <= m
  }

  ghost predicate NoSnapshotBelow(m: nat, lastSequence: nat, snapshots: seq<nat>) {
    m <= lastSequence && forall i :: 0 <= i < |snapshots| ==> m <= snapshots[i]
  }

  // One more record at the end of the last log; syncing covers the whole file.
  ghost predicate RecordAdded(before: seq<LogFile>, after: seq<LogFile>, es: seq<Entry>, sync: bool) {
    && before != [] && |after| == |before| && after[..|before| - 1] == before[..|before| - 1]
    && var l, m := before[|before| - 1], after[|before| - 1];
    && m.number == l.number && m.records == l.records + [es] && (if sync then m.synced == |m.records| else m.synced == l.synced)
  }

  ghost function ElementsIn(imm: Option<seq<Entry>>): Option<set<Entry>> {
    if imm.Some? then Option.Some(Elements(imm.value)) else Option.None
  }

  class DBImpl {
    var mem: seq<Entry>
    var imm: Option<seq<Entry>>
    var version: Version
    var logs: seq<LogFile>
    var logNumber: nat
    var lastSequence: nat
    var nextFile: nat
    var manifest: seq<VersionEdit>
    var snapshots: seq<nat>
    ghost var manifestNextFile: nat
    ghost var manifestSequence: nat
    ghost var flushed: set<Entry>
    ghost var horizon: nat
    ghost var U: set<File>  // every table ever named in an edit

    ghost function State(): State
      reads this
    {
      Store.State.State(Abs(version), Elements(mem), ElementsIn(imm), logs, logNumber, lastSequence, nextFile,
                  manifestSequence, manifestNextFile, snapshots, flushed, horizon)
    }

    ghost function Ledger(): Books
      reads this
    {
      Books(version, manifest, logNumber, nextFile, lastSequence, manifestNextFile, manifestSequence, U)
    }

    ghost predicate Valid()
      reads this
    {
      && Sound(State()) && logs != [] && Sorted(mem) && (imm.Some? ==> Sorted(imm.value))
      && Consistent(Ledger())
    }

    // A new database: NewDB, then a first log.
    constructor ()
      ensures Valid() && Init(State())
    {
      mem, imm, version := [], None, EMPTY_VERSION;
      logs := [LogFile(3, [], 0)];
      logNumber, lastSequence, nextFile := 0, 0, 4;
      manifest := [VersionEdit(Some(0), Some(2), Some(0), {}, [])];
      snapshots, manifestNextFile, manifestSequence, flushed, horizon, U := [], 2, 0, {}, 0, {};
      NewDBConsistent();
      new;
      assert forall l :: 0 <= l < NUM_LEVELS ==> Abs(version)[l] == {};
      assert State().version == [{}, {}, {}, {}, {}, {}, {}];
      InitInv(State());
      SoundIsInv(State());
    }

    // The object at the start of DB::Open, after the manifest was replayed.
    constructor FromManifest(r: Recovered, manifest: seq<VersionEdit>, logs: seq<LogFile>, ghost disk: State, ghost U: set<File>)
      ensures this.version == r.version && this.logNumber == r.logNumber && this.lastSequence == r.lastSequence
      ensures this.nextFile == r.nextFile + 1 && this.manifest == manifest && this.logs == logs
      ensures this.mem == [] && this.imm == None && this.snapshots == [] && this.U == U
      ensures this.manifestNextFile == r.nextFile && this.manifestSequence == r.lastSequence
      ensures this.flushed == disk.flushed && this.horizon == disk.horizon
    {
      this.version, this.logNumber, this.lastSequence, this.nextFile := r.version, r.logNumber, r.lastSequence, r.nextFile + 1;
      this.manifest, this.logs, this.mem, this.imm, this.snapshots := manifest, logs, [], None, [];
      this.manifestNextFile, this.manifestSequence, this.U := r.nextFile, r.lastSequence, U;
      this.flushed, this.horizon := disk.flushed, disk.horizon;
    }

    lemma WfCurrent()
      requires Valid()
      ensures WfVersion(version) && SequencesFit(version) && horizon <= lastSequence
    {
      SoundIsInv(State());
      ConsistentIs(Ledger());
      TablesFit(State(), version);
      forall l | 0 <= l < NUM_LEVELS ensures Ordered(version[l]) {
        assert FileSet(version[l]) == EditedAll({}, manifest, l);
      }
    }

    // Look in the memtable, then in the immutable memtable, then in the tables.
    method Get(user: UserKey, snapshot: Option<nat>) returns (r: Option<seq<byte>>)
      requires Valid() && (snapshot.Some? ==> snapshot.value >= horizon)
      ensures r == View(State().History(), user, if snapshot.Some? then snapshot.value else lastSequence)
    {
      var s := if snapshot.Some? then snapshot.value else lastSequence;
      WfCurrent();
      ReadOrder(user, s);
      var e := SearchEntries(mem, user, s);
      if e.None? && imm.Some? {
        e := SearchEntries(imm.value, user, s);
      }
      if e.None? {
        e := VersionSet.Get(version, user, s);
      }
      r := Meaning(e);
    }

    lemma ReadOrder(user: UserKey, s: nat)
      requires Valid() && s >= horizon
      ensures SearchEntries(mem, user, s) == Newest(Elements(mem), user, s)
      ensures imm.Some? ==> SearchEntries(imm.value, user, s) == Newest(Elements(imm.value), user, s)
      ensures View(State().History(), user, s) ==
              Meaning(if Newest(Elements(mem), user, s).Some? then Newest(Elements(mem), user, s)
                      else if imm.Some? && Newest(Elements(imm.value), user, s).Some? then Newest(Elements(imm.value), user, s)
                      else Newest(Stored(Abs(version)), user, s))
    {
      var st := State();
      SoundIsInv(st);
      PendingSplit(st);
      SearchFindsNewest(mem, user, s);
      if imm.Some? {
        SearchFindsNewest(imm.value, user, s);
      }
      ReadsMatchHistory(st, user, s);
      SearchInOrder(st.mem, st.Imm(), Stored(st.version), user, s);
    }

    // ---- writes ----

    lemma BatchIsLater(batch: seq<Entry>)
      requires Valid() && Numbered(batch, lastSequence + 1)
      ensures Increasing(batch) && AllLater(Elements(batch), Elements(mem))
    {
      SoundIsInv(State());
      NumberedIncreasing(batch, lastSequence + 1);
      forall p, e | p in Elements(batch) && e in Elements(mem) ensures Later(p, e) {
        var i :| 0 <= i < |batch| && batch[i] == p;
        assert e in State().Pending();
      }
    }

    method Write(ops: seq<Op>, sync: bool) returns (ghost batch: seq<Entry>)
      requires Valid() && lastSequence + |ops| < MAX_SEQUENCE
      modifies this`mem, this`logs, this`lastSequence
      ensures batch == Entries(ops, old(lastSequence) + 1) && lastSequence == old(lastSequence) + |ops|
      ensures Valid() && Next(old(State()), Step.Write(batch, sync), State())
      ensures forall user: UserKey {:trigger View(State().History(), user, lastSequence)} ::
                Shows(ops, user, View(old(State().History()), user, old(lastSequence)), View(State().History(), user, lastSequence))
      ensures RecordAdded(old(logs), logs, batch, sync)
    {
      var es := Entries(ops, lastSequence + 1);
      batch := es;
      ghost var st := State();
      BatchIsLater(es);
      StillConsistent(Ledger(), nextFile, lastSequence + |ops|);
      WriteIsStep(st, es, sync);
      AddRecord(es, sync);
      mem := InsertInto(es, mem);
      lastSequence := lastSequence + |ops|;
      assert State() == Wrote(st, es, sync);
      StepKeepsSound(st, Step.Write(es, sync), State());
      WriteShows(st, ops, sync, State());
    }

    // log_->AddRecord and logfile_->Sync
    method AddRecord(es: seq<Entry>, sync: bool)
      requires logs != []
      modifies this`logs
      ensures logs == old(logs[|logs| - 1 := AppendRecord(logs[|logs| - 1], es, sync)])
      ensures RecordAdded(old(logs), logs, es, sync)
    {
      var k := |logs| - 1;
      logs := logs[k := LogFile(logs[k].number, logs[k].records + [es], if sync then |logs[k].records| + 1 else logs[k].synced)];
    }

    // The switch in MakeRoomForWrite.
    method SwitchMemTable()
      requires Valid() && imm == None
      modifies this`mem, this`imm, this`logs, this`nextFile
      ensures Valid() && Next(old(State()), Step.SwitchMemTable, State())
    {
      ghost var st := State();
      ConsistentIs(Ledger());
      StillConsistent(Ledger(), nextFile + 1, lastSequence);
      logs := logs + [LogFile(nextFile, [], 0)];
      nextFile := nextFile + 1;
      imm := Some(mem);
      mem := [];
      assert SwitchStep(st, State());
      StepKeepsSound(st, Step.SwitchMemTable, State());
    }

    // ---- snapshots ----

    method GetSnapshot() returns (s: nat)
      requires Valid()
      modifies this`snapshots
      ensures Valid() && s == lastSequence && Next(old(State()), Step.GetSnapshot, State())
    {
      ghost var st := State();
      s := lastSequence;
      snapshots := snapshots + [s];
      StepKeepsSound(st, Step.GetSnapshot, State());
    }

    method ReleaseSnapshot(i: nat)
      requires Valid() && i < |snapshots|
      modifies this`snapshots
      ensures Valid() && Next(old(State()), Step.ReleaseSnapshot(i), State())
    {
      ghost var st := State();
      snapshots := snapshots[..i] + snapshots[i + 1..];
      StepKeepsSound(st, Step.ReleaseSnapshot(i), State());
    }

    // ---- the manifest ----

    // What the next record of the manifest goes behind: all there is, or in a new file the current version alone.
    method ManifestBase(newManifest: bool) returns (base: seq<VersionEdit>)
      requires Consistent(Ledger())
      ensures if newManifest then |base| == 1 else base == manifest
      ensures Describes(base, version) && EditsWithin(base, U)
    {
      ConsistentIs(Ledger());
      base := manifest;
      if newManifest {
        AllCurrentOrdered();
        var snapshot := WriteSnapshot(version);
        SnapshotDescribes(version, snapshot);
        SnapshotWithin(version, snapshot, U);
        base := [snapshot];
      }
    }

    // The version an edit leads to.
    method Applied(e: VersionEdit) returns (w: Version)
      requires Consistent(Ledger()) && EditWithin(e, U) && AddsOnlyNewFiles(version, e)
      ensures Installs(version, e, w)
    {
      ConsistentIs(Ledger());
      AllCurrentOrdered();
      w := ApplyEdit(version, e, U);
    }

    // The state after an edit is logged and installed.
    twostate lemma LoggedState()
      requires unchanged(this`mem, this`imm, this`logs, this`lastSequence, this`nextFile, this`snapshots, this`flushed, this`horizon)
      requires manifestNextFile == nextFile && manifestSequence == lastSequence
      ensures State() == Recorded(old(State()).(version := Abs(version), logNumber := logNumber))
    {
    }

    // Record the edit, with the current counters, and install the version it gives.
    // The first call after opening may start a new manifest with a snapshot of the version.
    method LogAndApply(edit: VersionEdit, newManifest: bool) returns (ghost e: VersionEdit)
      requires Consistent(Ledger())
      requires EditWithin(edit, U) && AddsOnlyNewFiles(version, edit)
      modifies this`version, this`manifest, this`logNumber, this`manifestNextFile, this`manifestSequence
      ensures Consistent(Ledger())
      ensures e == VersionEdit(Some(logNumber), Some(nextFile), Some(lastSequence), edit.deletedFiles, edit.newFiles)
      ensures logNumber == if edit.logNumber.Some? then edit.logNumber.value else old(logNumber)
      ensures Installs(old(version), e, version)
      ensures !newManifest ==> manifest == old(manifest) + [e]
      ensures newManifest ==> |manifest| == 2 && manifest[1] == e && Describes(manifest[..1], old(version))
      ensures State() == Recorded(old(State()).(version := Abs(version), logNumber := logNumber))
    {
      var log := if edit.logNumber.Some? then edit.logNumber.value else logNumber;
      var full := VersionEdit(Some(log), Some(nextFile), Some(lastSequence), edit.deletedFiles, edit.newFiles);
      var w := Applied(full);
      var base := ManifestBase(newManifest);
      LoggedConsistent(Ledger(), base, full, w, log);
      e := full;
      manifest := base + [full];
      version, logNumber := w, log;
      manifestNextFile, manifestSequence := nextFile, lastSequence;
      LoggedState();
    }

    lemma AllCurrentOrdered()
      requires Describes(manifest, version)
      ensures AllOrdered(version)
    {
      forall l | 0 <= l < NUM_LEVELS ensures Ordered(version[l]) {
        assert FileSet(version[l]) == EditedAll({}, manifest, l);
      }
    }

    // ---- flush ----

    // Write a memtable's entries to a table with a new number; an empty one leaves
    // no table.  Without a base version the table goes to level 0.
    method WriteLevel0Table(es: seq<Entry>, base: Option<Version>, maxFileSize: nat, size: nat) returns (meta: Option<(nat, File)>)
      requires Consistent(Ledger()) && Sorted(es) && (base.Some? ==> WfVersion(base.value) && SequencesFit(base.value))
      modifies this`nextFile, this`U
      ensures Consistent(Ledger()) && nextFile == old(nextFile) + 1 && old(U) <= U
      ensures meta.None? <==> es == []
      ensures meta.Some? ==>
                && meta.value.1.number == old(nextFile) && meta.value.1.entries == es && WfFile(meta.value.1) && meta.value.1 in U
                && meta.value.0 < NUM_LEVELS && (base.None? ==> meta.value.0 == 0)
                && (forall l :: 0 <= l < NUM_LEVELS ==> meta.value.1 !in version[l])
      ensures meta.Some? && base.Some? ==> PlacedAt(base.value, meta.value.0, FileRange(meta.value.1), maxFileSize)
    {
      var number := nextFile;
      ghost var fs: set<File> := {};
      meta := None;
      if es != [] {
        var f := File(number, size, es[0].key, es[|es| - 1].key, es);
        var level := 0;
        if base.Some? {
          level := PickLevelForMemTableOutput(base.value, f.smallest.user, f.largest.user, maxFileSize);
        }
        meta, fs := Some((level, f)), {f};
      }
      NamedConsistent(Ledger(), fs, nextFile + 1);
      nextFile, U := nextFile + 1, U + fs;
    }

    // Write the immutable memtable as a table and log the edit that adds it.
    method RecordFlush(es: seq<Entry>, maxFileSize: nat, size: nat) returns (meta: Option<(nat, File)>, ghost e: VersionEdit)
      requires Consistent(Ledger()) && Sorted(es) && logs != [] && WfVersion(version) && SequencesFit(version)
      modifies this`nextFile, this`U, this`version, this`manifest, this`logNumber, this`manifestNextFile, this`manifestSequence
      ensures Consistent(Ledger())
      ensures State() == Recorded(old(State()).(version := Abs(version), logNumber := logs[|logs| - 1].number, nextFile := old(nextFile) + 1))
      ensures Installs(old(version), e, version) && e.deletedFiles == {} && e.newFiles == if meta.None? then [] else [meta.value]
      ensures meta.None? <==> es == []
      ensures meta.Some? ==>
                && meta.value.0 < NUM_LEVELS && meta.value.1.number == old(nextFile) && meta.value.1.entries == es && WfFile(meta.value.1)
                && PlacedAt(old(version), meta.value.0, FileRange(meta.value.1), maxFileSize)
    {
      meta := WriteLevel0Table(es, Some(version), maxFileSize, size);
      var edit := VersionEdit(Some(logs[|logs| - 1].number), None, None, {}, if meta.None? then [] else [meta.value]);
      e := LogAndApply(edit, false);
    }

    method CompactMemTable(maxFileSize: nat, size: nat) returns (ghost step: Step)
      requires Valid() && imm.Some?
      modifies this
      ensures Valid() && Next(old(State()), step, State())
      ensures imm == None && mem == old(mem) && logs == old(logs)
      ensures if old(imm.value) == [] then step == Step.FlushEmpty
              else step.Flush? && step.file.entries == old(imm.value) && PlacedAt(old(version), step.level, FileRange(step.file), maxFileSize)
    {
      ghost var st, v := State(), version;
      WfCurrent();
      var es := imm.value;
      var meta;
      ghost var e;
      meta, e := RecordFlush(es, maxFileSize, size);
      step := if meta.None? then Step.FlushEmpty else Step.Flush(meta.value.0, meta.value.1);
      imm := None;
      flushed := flushed + Elements(es);
      FlushIsSound(st, v, e, version, step, es, State());
    }

    // ---- compaction ----

    lemma NotYetBelow(level: nat, f: File)
      requires Valid() && level + 1 < NUM_LEVELS && f in version[level]
      ensures f !in version[level + 1] && f in U
    {
      SoundIsInv(State());
      ConsistentIs(Ledger());
      assert Holds(Abs(version), level, f);
      assert f in version[level + 1] ==> Holds(Abs(version), level + 1, f);
    }

    method MoveFile(level: nat, f: File)
      requires Valid() && GoodInputs(Abs(version), Compaction(level, {f}, {}))
      modifies this`version, this`manifest, this`logNumber, this`manifestNextFile, this`manifestSequence
      ensures Valid() && Next(old(State()), Step.TrivialMove(level, f), State())
    {
      ghost var st, v := State(), version;
      SoundIsInv(st);
      assert f in Compaction(level, {f}, {}).upper;
      NotYetBelow(level, f);
      var edit := ResultsEdit(level, [f], [], [f]);
      ResultsEditIs(level, [f], [], [f]);
      assert FileSet([f]) == {f} && FileSet([]) == {};
      ResultsEditWithin(edit, Compaction(level, {f}, {}), {f}, U);
      ghost var e := LogAndApply(edit, false);
      MoveIsStep(st, v, e, version, level, f, State());
      StepKeepsSound(st, Step.TrivialMove(level, f), State());
    }

    lemma SnapshotBounds(m: nat)
      requires Valid() && m == if snapshots == [] then lastSequence else snapshots[0]
      ensures IsSmallestSnapshot(m, lastSequence, snapshots)
    {
      SoundIsInv(State());
    }

    // Merge the inputs, drop what no reader can need and install the rest.  When
    // the selection left no deletion uncovered this is a step of the store.
    method CompactFiles(level: nat, upper: seq<File>, lower: seq<File>,
                        cutBefore: nat -> bool, cutAfter: nat -> bool, sizeOf: seq<Entry> -> nat)
        returns (ghost m: nat, ghost out: set<File>)
      requires Valid() && GoodInputs(Abs(version), Compaction(level, FileSet(upper), FileSet(lower)))
      requires Chained(lower) && if level == 0 then Ordered(upper) else Chained(upper)
      modifies this
      ensures mem == old(mem) && imm == old(imm) && snapshots == old(snapshots) && logs == old(logs)
      ensures IsSmallestSnapshot(m, old(lastSequence), snapshots)
      ensures Abs(version) == Install(Abs(old(version)), Compaction(level, FileSet(upper), FileSet(lower)), out)
      ensures EntriesOf(out) == Kept(Abs(old(version)), Compaction(level, FileSet(upper), FileSet(lower)), m)
      ensures Tight(Abs(old(version)), level, m, out)
      ensures NoResurrection(Abs(old(version)), Compaction(level, FileSet(upper), FileSet(lower)), m) ==>
                Valid() && Next(old(State()), Step.Compact(Compaction(level, FileSet(upper), FileSet(lower)), m, out), State())
    {
      ghost var st, v, c := State(), version, Compaction(level, FileSet(upper), FileSet(lower));
      WfCurrent();
      var smallestSnapshot := if snapshots == [] then lastSequence else snapshots[0];
      m := smallestSnapshot;
      SnapshotBounds(m);
      var outputs := CompactInputs(level, upper, lower, smallestSnapshot, cutBefore, cutAfter, sizeOf);
      out := FileSet(outputs);
      ghost var e := InstallCompactionResults(level, upper, lower, outputs, m);
      CompactIsSound(st, v, e, version, c, m, outputs, State());
    }

    // Flush a waiting memtable first; otherwise run one compaction.  An automatic
    // compaction of one file into nothing moves it, if few bytes overlap two levels down.
    method BackgroundCompaction(request: Request, maxFileSize: nat,
                                cutBefore: nat -> bool, cutAfter: nat -> bool, sizeOf: seq<Entry> -> nat)
        returns (ghost step: Option<Step>)
      requires Valid() && request.level + 1 < NUM_LEVELS && (request.Automatic? ==> request.index < |version[request.level]|)
      modifies this
      ensures step.None? ==> Valid() && State() == old(State())
      ensures old(imm).Some? ==> step.Some? && (step.value.Flush? || step.value.FlushEmpty?)
      ensures old(imm).None? && step.Some? ==> Answers(old(version), request, maxFileSize, step.value)
      ensures step.Some? && step.value.Compact? ==> IsSmallestSnapshot(step.value.m, old(lastSequence), snapshots)
      ensures step.Some? && (step.value.Compact? ==> NoResurrection(old(Abs(version)), step.value.c, step.value.m)) ==>
                Valid() && Next(old(State()), step.value, State())
      ensures step.None? <==> old(imm) == None && request.Manual? && forall f :: f in old(version)[request.level] ==> Outside(f, request.range)
    {
      if imm.Some? {
        ghost var flush := CompactMemTable(maxFileSize, if imm.value == [] then 0 else sizeOf(imm.value));
        return Some(flush);
      }
      WfCurrent();
      var level := request.level;
      var picked := ChooseInputs(version, request, maxFileSize);
      if picked.None? {
        return None;
      }
      var upper, lower := picked.value.0, picked.value.1;
      if request.Automatic? {
        var move := IsTrivialMove(version, level, upper, lower, maxFileSize);
        if move {
          var f := upper[0];
          assert StepFor(version, request, maxFileSize, upper, lower, Step.TrivialMove(level, f));
          assert upper == [f] && FileSet(upper) == {f} && FileSet(lower) == {};
          MoveFile(level, f);
          return Some(Step.TrivialMove(level, f));
        }
      }
      ghost var v := version;
      ghost var m, out := CompactFiles(level, upper, lower, cutBefore, cutAfter, sizeOf);
      step := Some(Step.Compact(Compaction(level, FileSet(upper), FileSet(lower)), m, out));
      assert StepFor(v, request, maxFileSize, upper, lower, step.value);
    }

    // Reads from below m are over from here on.
    method InstallCompactionResults(level: nat, upper: seq<File>, lower: seq<File>, outputs: seq<File>, ghost m: nat) returns (ghost e: VersionEdit)
      requires Consistent(Ledger())
      requires level + 1 < NUM_LEVELS && forall i :: 0 <= i < |outputs| ==> outputs[i].number == nextFile + i
      modifies this`version, this`manifest, this`logNumber, this`manifestNextFile, this`manifestSequence, this`nextFile, this`U, this`horizon
      ensures Consistent(Ledger())
      ensures CompactionEdit(e, Compaction(level, FileSet(upper), FileSet(lower)), FileSet(outputs)) && Installs(old(version), e, version)
      ensures State() == Recorded(old(State()).(version := Abs(version), nextFile := old(nextFile) + |outputs|,
                                                horizon := if old(horizon) < m then m else old(horizon)))
    {
      ghost var c, out := Compaction(level, FileSet(upper), FileSet(lower)), FileSet(outputs);
      NewNumbersIdentify(outputs, nextFile);
      NamedConsistent(Ledger(), out, nextFile + |outputs|);
      nextFile, U := nextFile + |outputs|, U + out;
      var edit := ResultsEdit(level, upper, lower, outputs);
      ResultsEditIs(level, upper, lower, outputs);
      ResultsEditWithin(edit, c, out, U);
      e := LogAndApply(edit, false);
      horizon := if horizon < m then m else horizon;
    }

    // ---- obsolete files ----

    // Logs older than the recorded log number go; the rest stay in order.
    method RemoveObsoleteLogs()
      requires Valid()
      modifies this`logs
      ensures Valid() && Next(old(State()), Step.RemoveObsoleteLogs, State())
      ensures forall l {:trigger l in logs} :: l in logs <==> l in old(logs) && l.number >= logNumber
    {
      ghost var st := State();
      LogsAscend();
      logs := LiveLogs(logs, logNumber);
      StepKeepsSound(st, Step.RemoveObsoleteLogs, State());
    }

    lemma LogsAscend()
      requires Valid()
      ensures Ascending(logs)
      ensures Live(logs, logNumber) != []
    {
      SoundIsInv(State());
      LastLive(State());
    }

    // Tables named by neither the current version nor a pending output may go, and only those.
    method ObsoleteTables(onDisk: seq<nat>, pendingOutputs: set<nat>) returns (gone: seq<nat>)
      requires Valid()
      ensures forall n :: n in gone <==> n in onDisk && n !in pendingOutputs && forall l, f {:trigger f in version[l]} ::
                0 <= l < NUM_LEVELS && f in version[l] ==> f.number != n
    {
      var live := pendingOutputs;
      for l := 0 to NUM_LEVELS
        invariant forall n :: n in live <==> n in pendingOutputs || exists k, f {:trigger f in version[k]} :: 0 <= k < l && f in version[k] && f.number == n
      {
        live := live + (set f | f in version[l] :: f.number);
      }
      gone := [];
      for i := 0 to |onDisk|
        invariant forall n :: n in gone <==> n in onDisk[..i] && n !in live
      {
        if onDisk[i] !in live {
          gone := gone + [onDisk[i]];
        }
      }
      assert onDisk[..|onDisk|] == onDisk;
    }

    // ---- iterators ----

    lemma HeldApart()
      requires Valid()
      ensures Elements(mem) !! State().Imm() && State().Imm() !! Stored(Abs(version)) && Elements(mem) !! Stored(Abs(version))
      ensures Distinct(State().Held())
      ensures imm.Some? ==> State().Imm() == Elements(imm.value)
    {
      var st := State();
      SoundIsInv(st);
      PendingSplit(st);
      LastLive(st);
      IncreasingIsDistinct(Stream(st.LiveLogs()));
      forall e | e in st.mem ensures e !in st.Imm() && e !in Stored(st.version) {
        assert e in st.Imm() || e in st.flushed ==> Later(e, e);
      }
      forall e | e in st.Imm() ensures e !in Stored(st.version) {
        assert e in st.flushed ==> Later(e, e);
      }
      forall p, e | p in st.Pending() && e in Stored(st.version) ensures Later(p, e) {
        assert e in st.flushed;
      }
      DistinctUnion(st.Pending(), Stored(st.version));
    }

    // The internal iterators of the memtables and of all tables.
    method ChildIterators() returns (lists: seq<seq<Entry>>)
      requires Valid()
      ensures Covering(lists, State().Held())
    {
      HeldApart();
      WfCurrent();
      ghost var S := Elements(mem);
      AddList([], {}, mem);
      assert {} + S == S && [] + [mem] == [mem];
      lists := [mem];
      if imm.Some? {
        AddList(lists, S, imm.value);
        lists := lists + [imm.value];
      }
      assert S + State().Imm() == State().Pending();
      lists := AddIterators(version, lists, State().Pending());
    }

    // A user iterator at a snapshot runs over exactly the map a reader sees there.
    method NewIterator(snapshot: Option<nat>) returns (it: DbIter.DBIter)
      requires Valid() && (snapshot.Some? ==> snapshot.value >= horizon)
      ensures it.Valid() && fresh(it) && fresh(it.iter) && !it.valid
      ensures it.sequence == if snapshot.Some? then snapshot.value else lastSequence
      ensures Elements(it.iter.all) == State().Held()
      ensures forall user: UserKey {:trigger View(State().History(), user, it.sequence)} :: View(State().History(), user, it.sequence).Some? <==>
                exists k {:trigger it.rows[k]} :: 0 <= k < |it.rows| && it.iter.all[it.rows[k]].key.user == user
      ensures forall k {:trigger it.rows[k]} :: 0 <= k < |it.rows| ==>
                View(State().History(), it.iter.all[it.rows[k]].key.user, it.sequence) == Some(it.iter.all[it.rows[k]].value)
    {
      var s := if snapshot.Some? then snapshot.value else lastSequence;
      WfCurrent();
      HeldApart();
      var lists := ChildIterators();
      ghost var all := UnionOf(lists, State().Held());
      var internal := new Merger.MergingIterator(lists, all);
      it := new DbIter.DBIter(internal, s);
      ghost var st := State();
      SoundIsInv(st);
      forall user: UserKey ensures View(st.History(), user, s) == View(Elements(all), user, s) {
        ReadsMatchHistory(st, user, s);
      }
      forall user: UserKey ensures View(st.History(), user, s).Some? <==> exists k {:trigger it.rows[k]} :: 0 <= k < |it.rows| && all[it.rows[k]].key.user == user {
        DbIter.RowsAreTheView(all, s, it.rows, user);
      }
      forall k | 0 <= k < |it.rows| ensures View(st.History(), all[it.rows[k]].key.user, s) == Some(all[it.rows[k]].value) {
        DbIter.RowsAreTheView(all, s, it.rows, all[it.rows[k]].key.user);
      }
    }

    method CompactInputs(level: nat, upper: seq<File>, lower: seq<File>, m: nat,
                         cutBefore: nat -> bool, cutAfter: nat -> bool, sizeOf: seq<Entry> -> nat)
        returns (outputs: seq<File>)
      requires Valid() && WfVersion(version) && m <= lastSequence
      requires GoodInputs(Abs(version), Compaction(level, FileSet(upper), FileSet(lower)))
      requires Chained(lower) && if level == 0 then Ordered(upper) else Chained(upper)
      ensures EntriesOf(FileSet(outputs)) == Kept(Abs(version), Compaction(level, FileSet(upper), FileSet(lower)), m)
      ensures (forall f :: f in outputs ==> WfFile(f)) && Chained(outputs)
      ensures forall i :: 0 <= i < |outputs| ==> outputs[i].number == nextFile + i
    {
      ghost var c := Compaction(level, FileSet(upper), FileSet(lower));
      ConsistentIs(Ledger());
      var lists := MakeInputIterator(version, level, upper, lower);
      InputsStored(Abs(version), c);
      ghost var all := UnionOf(lists, EntriesOf(c.Inputs()));
      var input := Merger.Merge(lists, all);
      var newNextFile;
      outputs, newNextFile := DoCompactionWork(version, level, c, input, m, nextFile, cutBefore, cutAfter, sizeOf);
    }
  }

  lemma LiveGrows(logs: seq<LogFile>, from: nat, i: nat)
    requires Ascending(logs) && i < |logs|
    ensures Live(logs[..i + 1], from) == Live(logs[..i], from) + (if logs[i].number >= from then [logs[i]] else [])
  {
    assert logs[..i + 1][..i] == logs[..i];
    if logs[i].number < from {
      forall j | 0 <= j < i ensures logs[..i][j].number < from {
        assert NumberBelow(logs[j], logs[i]);
      }
      OlderNotLive(logs[..i], from);
    }
  }

  method LiveLogs(logs: seq<LogFile>, from: nat) returns (kept: seq<LogFile>)
    requires Ascending(logs)
    ensures kept == Live(logs, from)
    ensures forall l {:trigger l in kept} :: l in kept <==> l in logs && l.number >= from
  {
    kept := [];
    for i := 0 to |logs|
      invariant kept == Live(logs[..i], from)
      invariant forall l {:trigger l in kept} :: l in kept <==> l in logs[..i] && l.number >= from
    {
      LiveGrows(logs, from, i);
      if logs[i].number >= from {
        kept := kept + [logs[i]];
      }
    }
    assert logs[..|logs|] == logs;
  }

  // A background compaction either follows from sizes and seeks, at a file of a
  // level, or was asked for by the user.
  datatype Request = Automatic(level: nat, index: nat) | Manual(level: nat, range: Range)

  // The files a request chooses.
  ghost predicate Chosen(v: Version, request: Request, maxFileSize: nat, upper: seq<File>, lower: seq<File>)
    requires request.level + 1 < NUM_LEVELS
  {
    exists start {:trigger Completed(v, request.level, start, maxFileSize, upper, lower)} ::
      Completed(v, request.level, start, maxFileSize, upper, lower)
      && match request
         case Automatic(level, index) => index < |v[level]| && StartsFromFile(v, level, v[level][index], start)
         case Manual(level, range) => StartsFromRange(v, level, range, maxFileSize, start)
  }

  // PickCompaction or CompactRange.
  method ChooseInputs(v: Version, request: Request, maxFileSize: nat) returns (picked: Option<(seq<File>, seq<File>)>)
    requires WfVersion(v) && request.level + 1 < NUM_LEVELS && (request.Automatic? ==> request.index < |v[request.level]|)
    ensures picked.None? <==> request.Manual? && forall f :: f in v[request.level] ==> Outside(f, request.range)
    ensures picked.Some? ==> Chosen(v, request, maxFileSize, picked.value.0, picked.value.1)
    ensures picked.Some? ==> GoodInputs(Abs(v), Compaction(request.level, FileSet(picked.value.0), FileSet(picked.value.1)))
    ensures picked.Some? ==> Chained(picked.value.1) && if request.level == 0 then Ordered(picked.value.0) else Chained(picked.value.0)
  {
    match request
    case Manual(level, range) =>
      picked := CompactionPicking.CompactRange(v, level, range, maxFileSize);
    case Automatic(level, index) =>
      var upper, lower := PickCompaction(v, level, index, maxFileSize);
      picked := Some((upper, lower));
  }

  ghost predicate StepFor(v: Version, request: Request, maxFileSize: nat, upper: seq<File>, lower: seq<File>, step: Step)
    requires request.level + 1 < NUM_LEVELS
  {
    && Chosen(v, request, maxFileSize, upper, lower)
    && if request.Automatic? && MovesWhole(v, request.level, upper, lower, maxFileSize) then step == Step.TrivialMove(request.level, upper[0])
       else step.Compact? && step.c == Compaction(request.level, FileSet(upper), FileSet(lower))
  }

  // The step is the one for the files the request chooses.
  ghost predicate Answers(v: Version, request: Request, maxFileSize: nat, step: Step)
    requires request.level + 1 < NUM_LEVELS
  {
    exists upper, lower {:trigger StepFor(v, request, maxFileSize, upper, lower, step)} :: StepFor(v, request, maxFileSize, upper, lower, step)
  }

  lemma InputsStored(v: Levels, c: Compaction)
    requires Distinct(Stored(v)) && GoodInputs(v, c)
    ensures Distinct(EntriesOf(c.Inputs()))
  {
    forall e | e in EntriesOf(c.Inputs()) ensures e in Stored(v) {
      var f :| f in c.Inputs() && e in f.entries;
      assert Holds(v, c.level, f) || Holds(v, c.level + 1, f);
    }
  }

  lemma NewNumbersIdentify(outputs: seq<File>, first: nat)
    requires forall i :: 0 <= i < |outputs| ==> outputs[i].number == first + i
    ensures NumbersIdentify(FileSet(outputs))
    ensures forall f :: f in FileSet(outputs) ==> first <= f.number < first + |outputs|
  {
    forall f | f in FileSet(outputs) ensures exists i :: 0 <= i < |outputs| && outputs[i] == f && f.number == first + i {
      var i :| 0 <= i < |outputs| && outputs[i] == f;
    }
  }

  // ---- compactions as steps ----

  lemma MoveIsStep(st: State, v: Version, e: VersionEdit, x: Version, level: nat, f: File, w: State)
    requires Inv(st) && st.version == Abs(v) && GoodInputs(Abs(v), Compaction(level, {f}, {}))
    requires CompactionEdit(e, Compaction(level, {f}, {}), {f}) && Installs(v, e, x)
    requires w == Recorded(st.(version := Abs(x)))
    ensures Next(st, Step.TrivialMove(level, f), w)
  {
    var c := Compaction(level, {f}, {});
    assert c.upper <= FileSet(v[level]) && c.lower <= FileSet(v[level + 1]);
    CompactionInstalls(v, e, x, c, {f});
  }

  lemma CompactIsStep(st: State, v: Version, e: VersionEdit, x: Version, c: Compaction, m: nat, outputs: seq<File>, w: State)
    requires Inv(st) && st.version == Abs(v) && WfVersion(v) && GoodInputs(Abs(v), c) && NoResurrection(Abs(v), c, m)
    requires CompactionEdit(e, c, FileSet(outputs)) && Installs(v, e, x)
    requires EntriesOf(FileSet(outputs)) == Kept(Abs(v), c, m)
    requires (forall f :: f in outputs ==> WfFile(f)) && Chained(outputs)
    requires forall i :: 0 <= i < |outputs| ==> outputs[i].number == st.nextFile + i
    requires m <= st.lastSequence && forall i :: 0 <= i < |st.snapshots| ==> m <= st.snapshots[i]
    requires w == Recorded(st.(version := Abs(x), nextFile := st.nextFile + |outputs|, horizon := if st.horizon < m then m else st.horizon))
    ensures Next(st, Step.Compact(c, m, FileSet(outputs)), w)
  {
    var out := FileSet(outputs);
    CompactionInstalls(v, e, x, c, out);
    OutputsAreGood(v, c, m, st.nextFile, outputs);
    forall f | f in out ensures f.number < w.nextFile {
      var i :| 0 <= i < |outputs| && outputs[i] == f;
    }
  }

  lemma CompactIsSound(st: State, v: Version, e: VersionEdit, x: Version, c: Compaction, m: nat, outputs: seq<File>, w: State)
    requires Sound(st) && st.version == Abs(v) && WfVersion(v) && GoodInputs(Abs(v), c)
    requires CompactionEdit(e, c, FileSet(outputs)) && Installs(v, e, x)
    requires EntriesOf(FileSet(outputs)) == Kept(Abs(v), c, m)
    requires (forall f :: f in outputs ==> WfFile(f)) && Chained(outputs)
    requires forall i :: 0 <= i < |outputs| ==> outputs[i].number == st.nextFile + i
    requires m <= st.lastSequence && forall i :: 0 <= i < |st.snapshots| ==> m <= st.snapshots[i]
    requires w == Recorded(st.(version := Abs(x), nextFile := st.nextFile + |outputs|, horizon := if st.horizon < m then m else st.horizon))
    ensures Abs(x) == Install(Abs(v), c, FileSet(outputs)) && Tight(Abs(v), c.level, m, FileSet(outputs))
    ensures NoResurrection(Abs(v), c, m) ==> Sound(w) && Next(st, Step.Compact(c, m, FileSet(outputs)), w)
  {
    SoundIsInv(st);
    CompactionInstalls(v, e, x, c, FileSet(outputs));
    InputsStored(Abs(v), c);
    KeptIsTight(Abs(v), c, m, FileSet(outputs));
    if NoResurrection(Abs(v), c, m) {
      CompactIsStep(st, v, e, x, c, m, outputs, w);
      StepKeepsSound(st, Step.Compact(c, m, FileSet(outputs)), w);
    }
  }

  // Compaction::AddInputDeletions and the outputs one level down.
  function ResultsEdit(level: nat, upper: seq<File>, lower: seq<File>, outputs: seq<File>): VersionEdit {
    VersionEdit(None, None, None,
                (set f | f in upper :: (level, f.number)) + (set f | f in lower :: (level + 1, f.number)),
                seq(|outputs|, i requires 0 <= i < |outputs| => (level + 1, outputs[i])))
  }

  lemma ResultsEditIs(level: nat, upper: seq<File>, lower: seq<File>, outputs: seq<File>)
    ensures CompactionEdit(ResultsEdit(level, upper, lower, outputs), Compaction(level, FileSet(upper), FileSet(lower)), FileSet(outputs))
  {
    var e := ResultsEdit(level, upper, lower, outputs);
    forall l: int, f: File ensures (l, f) in e.newFiles <==> l == level + 1 && f in outputs {
      if l == level + 1 && f in outputs {
        var i :| 0 <= i < |outputs| && outputs[i] == f;
        assert e.newFiles[i] == (l, f);
      }
    }
  }

  lemma ResultsEditWithin(e: VersionEdit, c: Compaction, out: set<File>, U: set<File>)
    requires CompactionEdit(e, c, out) && c.level + 1 < NUM_LEVELS && out <= U
    ensures EditWithin(e, U)
  {
    forall d | d in e.deletedFiles ensures d.0 < NUM_LEVELS {
      assert (d.0, d.1) in e.deletedFiles;
    }
    forall p | p in e.newFiles ensures p.0 < NUM_LEVELS && p.1 in U {
      assert (p.0, p.1) in e.newFiles;
    }
  }

  function FileRange(f: File): Range {
    Range(Some(f.smallest.user), Some(f.largest.user))
  }

  lemma FlushIsSound(st: State, v: Version, e: VersionEdit, x: Version, step: Step, es: seq<Entry>, w: State)
    requires Sound(st) && st.logs != [] && st.imm == Some(Elements(es)) && st.version == Abs(v)
    requires e.deletedFiles == {} && Installs(v, e, x)
    requires es == [] ==> step == Step.FlushEmpty && e.newFiles == []
    requires es != [] ==>
      && step.Flush? && step.level < NUM_LEVELS && step.file.number == st.nextFile && step.file.entries == es && WfFile(step.file)
      && e.newFiles == [(step.level, step.file)]
      && (step.level > 0 ==> ClearDownTo(v, step.level, FileRange(step.file)))
    requires w == Recorded(st.(version := Abs(x), imm := None, flushed := st.flushed + Elements(es),
                               logNumber := st.logs[|st.logs| - 1].number, nextFile := st.nextFile + 1))
    ensures Next(st, step, w) && Sound(w)
  {
    if es == [] {
      EmptyInstalls(v, e, x);
      assert Elements(es) == {} && st.flushed + Elements(es) == st.flushed;
    } else {
      AddFileInstalls(v, e, x, step.level, step.file);
    }
    StepKeepsSound(st, step, w);
  }
}
