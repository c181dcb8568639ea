// Runs of the store with the bytes of its write-ahead logs: what a crash leaves of a
// file decides what is recovered (db/db_impl.cc, db/log_writer.cc, db/log_reader.cc).

module DiskRuns {
  import opened DbFormat
  import opened Store
  import opened Recovery
  import opened DiskImage
  import Crc32c
  import LogFiles

  // A log file; the first synced bytes survive the loss of power.
  datatype DiskFile = DiskFile(bytes: seq<byte>, synced: nat)

  const EMPTY: DiskFile := DiskFile([], 0)

  // The file holds the records of the log, and enough of it is synced.
  ghost predicate Keeps(d: DiskFile, l: LogFile) {
    d.synced <= |d.bytes| && LogHolds(d.bytes, l.records) && l.synced <= |Records(d.bytes[..d.synced])|
  }

  // One file for each log; the last one is being written.
  ghost predicate OnDisk(disk: seq<DiskFile>, logs: seq<LogFile>) {
    && |disk| == |logs| > 0
    && (forall i {:trigger Keeps(disk[i], logs[i])} :: 0 <= i < |logs| ==> Keeps(disk[i], logs[i]))
    && Writable(disk[|disk| - 1].bytes)
  }

  // ---- What happens to the files ----------------------------------------

  function Written(d: DiskFile, r: seq<byte>, sync: bool): DiskFile {
    var bytes := d.bytes + Appending(d.bytes, r);
    DiskFile(bytes, if sync then |bytes| else d.synced)
  }

  // Bytes that stand for the group are appended to the last file.
  ghost predicate Writes(disk: seq<DiskFile>, batch: seq<Entry>, sync: bool, after: seq<DiskFile>) {
    && disk != []
    && exists r {:trigger StandsFor(r, batch)} :: StandsFor(r, batch) && after == disk[|disk| - 1 := Written(disk[|disk| - 1], r, sync)]
  }

  // A crash cuts each file off at any byte behind the synced ones.
  predicate Cuts(disk: seq<DiskFile>, cuts: seq<nat>) {
    |cuts| == |disk| && forall i {:trigger cuts[i]} :: 0 <= i < |disk| ==> disk[i].synced <= cuts[i] <= |disk[i].bytes|
  }

  function Left(disk: seq<DiskFile>, cuts: seq<nat>): (r: seq<DiskFile>)
    requires Cuts(disk, cuts)
    ensures |r| == |disk| && forall i {:trigger r[i]} :: 0 <= i < |r| ==> r[i] == DiskFile(disk[i].bytes[..cuts[i]], disk[i].synced)
  {
    seq(|disk|, i requires 0 <= i < |disk| => DiskFile(disk[i].bytes[..cuts[i]], disk[i].synced))
  }

  // How many records each file still holds.
  ghost function Kept(disk: seq<DiskFile>, cuts: seq<nat>): (r: seq<nat>)
    requires Cuts(disk, cuts)
    ensures |r| == |disk| && forall i {:trigger r[i]} :: 0 <= i < |r| ==> r[i] == |Records(disk[i].bytes[..cuts[i]])|
  {
    seq(|disk|, i requires 0 <= i < |disk| => |Records(disk[i].bytes[..cuts[i]])|)
  }

  // The crash is the one these cuts make, and recovery goes on with what they leave.
  ghost predicate Crashes(disk: seq<DiskFile>, c: Crash, after: seq<DiskFile>) {
    && disk != []
    && exists cuts {:trigger Cuts(disk, cuts)} :: Cuts(disk, cuts) && CutBy(disk, cuts, c)
         && after == Left(disk, cuts) + (if c.reuse then [] else [EMPTY])
  }

  ghost predicate CutBy(disk: seq<DiskFile>, cuts: seq<nat>, c: Crash)
    requires disk != [] && Cuts(disk, cuts)
  {
    c.keep == Kept(disk, cuts) && c.left == Left(disk, cuts)[|disk| - 1].bytes
  }

  // What an action of the store, which then has these logs, does to the files.
  ghost predicate DiskStep(disk: seq<DiskFile>, a: Action, logs: seq<LogFile>, after: seq<DiskFile>) {
    match a
    case Ordinary(Write(batch, sync)) => Writes(disk, batch, sync, after)
    case Ordinary(SwitchMemTable) => after == disk + [EMPTY]
    case Ordinary(RemoveObsoleteLogs) => |logs| <= |disk| && after == disk[|disk| - |logs|..]
    case Ordinary(_) => after == disk
    case CrashAndRecover(c) => Crashes(disk, c, after)
  }

  // ---- Each of them keeps the records -----------------------------------

  lemma WrittenKeeps(d: DiskFile, l: LogFile, r: seq<byte>, batch: seq<Entry>, sync: bool)
    requires Keeps(d, l) && Writable(d.bytes) && StandsFor(r, batch)
    ensures Keeps(Written(d, r, sync), Store.AppendRecord(l, batch, sync)) && Writable(Written(d, r, sync).bytes)
  {
    var w := Written(d, r, sync);
    DiskImage.AppendRecord(d.bytes, r);
    StandForMore(Records(d.bytes), l.records, r, batch);
    if sync {
      assert w.bytes[..w.synced] == w.bytes;
    } else {
      assert w.bytes[..w.synced] == d.bytes[..d.synced];
    }
  }

  // The last file and the last log replaced by others that agree.
  lemma LastKeeps(disk: seq<DiskFile>, logs: seq<LogFile>, d: DiskFile, l: LogFile)
    requires OnDisk(disk, logs) && logs != [] && Keeps(d, l) && Writable(d.bytes)
    ensures OnDisk(disk[|disk| - 1 := d], logs[|logs| - 1 := l])
  {
    var k := |disk| - 1;
    var after, more := disk[k := d], logs[k := l];
    forall i | 0 <= i < |more| ensures Keeps(after[i], more[i]) {
      assert Keeps(disk[i], logs[i]);
    }
  }

  lemma WriteKeepsFiles(logs: seq<LogFile>, batch: seq<Entry>, sync: bool, disk: seq<DiskFile>, after: seq<DiskFile>)
    requires logs != [] && OnDisk(disk, logs) && Writes(disk, batch, sync, after)
    ensures OnDisk(after, logs[|logs| - 1 := Store.AppendRecord(logs[|logs| - 1], batch, sync)])
  {
    var k := |disk| - 1;
    var r :| StandsFor(r, batch) && after == disk[k := Written(disk[k], r, sync)];
    assert Keeps(disk[k], logs[k]);
    WrittenKeeps(disk[k], logs[k], r, batch, sync);
    LastKeeps(disk, logs, Written(disk[k], r, sync), Store.AppendRecord(logs[k], batch, sync));
  }

  lemma WriteKeepsDisk(st: State, w: State, batch: seq<Entry>, sync: bool, disk: seq<DiskFile>, after: seq<DiskFile>)
    requires st.logs != [] && WriteStep(st, w, batch, sync) && OnDisk(disk, st.logs) && Writes(disk, batch, sync, after)
    ensures OnDisk(after, w.logs)
  {
    WriteKeepsFiles(st.logs, batch, sync, disk, after);
  }

  // An empty file is a log without records.
  lemma EmptyKeeps(d: DiskFile, l: LogFile)
    requires |d.bytes| == d.synced == 0 && |l.records| == l.synced == 0
    ensures Keeps(d, l) && Writable(d.bytes)
  {
    EmptyIsWritable(d.bytes);
    assert d.bytes[..d.synced] == d.bytes;
  }

  lemma NewLogKeepsDisk(disk: seq<DiskFile>, logs: seq<LogFile>, number: nat)
    requires |disk| == |logs| && forall i {:trigger Keeps(disk[i], logs[i])} :: 0 <= i < |logs| ==> Keeps(disk[i], logs[i])
    ensures OnDisk(disk + [EMPTY], logs + [LogFile(number, [], 0)])
  {
    var after, longer := disk + [EMPTY], logs + [LogFile(number, [], 0)];
    EmptyKeeps(EMPTY, LogFile(number, [], 0));
    forall i | 0 <= i < |longer| ensures Keeps(after[i], longer[i]) {
      assert i < |logs| ==> Keeps(disk[i], logs[i]);
    }
  }

  lemma RemoveKeepsDisk(st: State, w: State, disk: seq<DiskFile>)
    requires LogsMatch(st) && w.logs == Live(st.logs, st.logNumber) && OnDisk(disk, st.logs)
    ensures |w.logs| <= |disk| && OnDisk(disk[|disk| - |w.logs|..], w.logs)
  {
    LiveShape(st.logs, st.logNumber);
    var k := LiveIsTail(st.logs, st.logNumber);
    TailOnDisk(disk, st.logs, k);
  }

  lemma TailOnDisk(disk: seq<DiskFile>, logs: seq<LogFile>, k: nat)
    requires OnDisk(disk, logs) && k < |logs|
    ensures OnDisk(disk[k..], logs[k..])
  {
    forall i | 0 <= i < |logs| - k ensures Keeps(disk[k..][i], logs[k..][i]) {
      assert Keeps(disk[k + i], logs[k + i]);
    }
  }

  // ---- Crashes ----------------------------------------------------------

  lemma CutKeeps(d: DiskFile, l: LogFile, n: nat)
    requires Keeps(d, l) && d.synced <= n <= |d.bytes|
    ensures var k := |Records(d.bytes[..n])|;
            l.synced <= k <= |l.records| && Keeps(DiskFile(d.bytes[..n], d.synced), Truncate(l, k))
  {
    LogCut(d.bytes, l.records, n);
    LongerHoldsMore(d.bytes, d.synced, n);
    assert d.bytes[..n][..d.synced] == d.bytes[..d.synced];
  }

  // Wherever the files are cut off, the records they hold are a legal rest of the logs,
  // with everything that was synced, and reading the files gives just that.
  lemma CutsAreValid(disk: seq<DiskFile>, logs: seq<LogFile>, cuts: seq<nat>)
    requires OnDisk(disk, logs) && Cuts(disk, cuts)
    ensures ValidKeep(logs, Kept(disk, cuts))
    ensures forall i {:trigger Keeps(Left(disk, cuts)[i], Survive(logs, Kept(disk, cuts))[i])} ::
              0 <= i < |logs| ==> Keeps(Left(disk, cuts)[i], Survive(logs, Kept(disk, cuts))[i])
  {
    forall i | 0 <= i < |logs|
      ensures logs[i].synced <= Kept(disk, cuts)[i] <= |logs[i].records|
              && Keeps(Left(disk, cuts)[i], Truncate(logs[i], Kept(disk, cuts)[i]))
    {
      assert Keeps(disk[i], logs[i]) && cuts[i] <= |disk[i].bytes|;
      CutKeeps(disk[i], logs[i], cuts[i]);
    }
  }

  // So a recovery that reads the files finds what the model of a crash says it finds.
  lemma CutIsCrash(st: State, disk: seq<DiskFile>, cuts: seq<nat>, c: Crash)
    requires OnDisk(disk, st.logs) && Cuts(disk, cuts) && CutBy(disk, cuts, c)
    ensures LeftLog(st, c)
  {
    CutsAreValid(disk, st.logs, cuts);
    assert Keeps(Left(disk, cuts)[|disk| - 1], Survive(st.logs, c.keep)[|disk| - 1]);
  }

  // What recovery makes of the logs.
  lemma RecoveredLogsAre(st: State, c: Crash, w: State)
    requires RecoverStep(st, c, w) && ValidKeep(st.logs, c.keep)
    ensures var logs := Survive(st.logs, c.keep);
            if c.reuse then w.logs == logs && LogFiles.EndsCleanly(Crc32c.CRC32C, c.left)
            else |w.logs| == |logs| + 1 && w.logs == logs + [LogFile(w.logs[|logs|].number, [], 0)]
  {
  }

  lemma CrashKeepsFiles(logs: seq<LogFile>, cuts: seq<nat>, c: Crash, recovered: seq<LogFile>, disk: seq<DiskFile>)
    requires OnDisk(disk, logs) && disk != [] && Cuts(disk, cuts) && CutBy(disk, cuts, c) && ValidKeep(logs, c.keep)
    requires var rest := Survive(logs, c.keep);
             if c.reuse then recovered == rest && LogFiles.EndsCleanly(Crc32c.CRC32C, c.left)
             else |recovered| == |rest| + 1 && recovered == rest + [LogFile(recovered[|rest|].number, [], 0)]
    ensures OnDisk(Left(disk, cuts) + (if c.reuse then [] else [EMPTY]), recovered)
  {
    CutsAreValid(disk, logs, cuts);
    var left, rest := Left(disk, cuts), Survive(logs, c.keep);
    if c.reuse {
      assert left + [] == left;
      ReusedKeepsDisk(left, recovered, c.left);
    } else {
      NewLogKeepsDisk(left, rest, recovered[|rest|].number);
    }
  }

  lemma CrashKeepsDisk(st: State, c: Crash, w: State, disk: seq<DiskFile>, after: seq<DiskFile>)
    requires RecoverStep(st, c, w) && OnDisk(disk, st.logs) && Crashes(disk, c, after)
    ensures OnDisk(after, w.logs)
  {
    var cuts :| Cuts(disk, cuts) && CutBy(disk, cuts, c) && after == Left(disk, cuts) + (if c.reuse then [] else [EMPTY]);
    CutsAreValid(disk, st.logs, cuts);
    RecoveredLogsAre(st, c, w);
    CrashKeepsFiles(st.logs, cuts, c, w.logs, disk);
  }

  lemma ReusedKeepsDisk(left: seq<DiskFile>, logs: seq<LogFile>, last: seq<byte>)
    requires |left| == |logs| > 0 && forall i {:trigger Keeps(left[i], logs[i])} :: 0 <= i < |logs| ==> Keeps(left[i], logs[i])
    requires last == left[|left| - 1].bytes && LogFiles.EndsCleanly(Crc32c.CRC32C, last)
    ensures OnDisk(left, logs)
  {
    assert Keeps(left[|left| - 1], logs[|left| - 1]);
    CleanIsWritable(last);
  }

  // ---- Runs -------------------------------------------------------------

  lemma StepKeepsDisk(st: State, a: Action, w: State, disk: seq<DiskFile>, after: seq<DiskFile>)
    requires Inv(st) && Take(st, a, w) && OnDisk(disk, st.logs) && DiskStep(disk, a, w.logs, after)
    ensures OnDisk(after, w.logs)
  {
    match a
    case Ordinary(Write(batch, sync)) => WriteKeepsDisk(st, w, batch, sync, disk, after);
    case Ordinary(SwitchMemTable) => NewLogKeepsDisk(disk, st.logs, st.nextFile);
    case Ordinary(RemoveObsoleteLogs) => RemoveKeepsDisk(st, w, disk);
    case Ordinary(_) =>
    case CrashAndRecover(c) => CrashKeepsDisk(st, c, w, disk, after);
  }

  ghost predicate DiskStepAt(states: seq<State>, actions: seq<Action>, disks: seq<seq<DiskFile>>, i: nat)
    requires i < |actions| && i + 1 < |states| && |disks| == |states|
  {
    DiskStep(disks[i], actions[i], states[i + 1].logs, disks[i + 1])
  }

  // A run together with the files, which start with one empty log.
  ghost predicate IsDiskRun(states: seq<State>, actions: seq<Action>, disks: seq<seq<DiskFile>>) {
    && IsRun(states, actions) && |disks| == |states| && disks[0] == [EMPTY]
    && forall i {:trigger DiskStepAt(states, actions, disks, i)} :: 0 <= i < |actions| ==> DiskStepAt(states, actions, disks, i)
  }

  // In every state of every run the files on disk can be read without a report, and
  // what they hold are the records of the logs.
  lemma {:induction false} RunKeepsDisk(states: seq<State>, actions: seq<Action>, disks: seq<seq<DiskFile>>, n: nat)
    requires IsDiskRun(states, actions, disks) && n < |states|
    ensures OnDisk(disks[n], states[n].logs)
  {
    if n == 0 {
      InitOnDisk(states[0]);
    } else {
      RunKeepsDisk(states, actions, disks, n - 1);
      RunKeepsInv(states, actions, n - 1);
      NextOnDisk(states, actions, disks, n - 1);
    }
  }

  lemma InitOnDisk(st: State)
    requires Init(st)
    ensures OnDisk([EMPTY], st.logs)
  {
    var l := st.logs[0];
    EmptyKeeps(EMPTY, l);
    assert st.logs == [l] && l == LogFile(l.number, [], 0);
  }

  lemma NextOnDisk(states: seq<State>, actions: seq<Action>, disks: seq<seq<DiskFile>>, i: nat)
    requires IsDiskRun(states, actions, disks) && i < |actions| && Inv(states[i]) && OnDisk(disks[i], states[i].logs)
    ensures OnDisk(disks[i + 1], states[i + 1].logs)
  {
    assert StepAt(states, actions, i) && DiskStepAt(states, actions, disks, i);
    StepKeepsDisk(states[i], actions[i], states[i + 1], disks[i], disks[i + 1]);
  }

  // In every state of every run, wherever a crash cuts the files off behind their synced
  // bytes, every synced record of every log is still read, at its place.
  lemma SyncedRecordsAreRead(states: seq<State>, actions: seq<Action>, disks: seq<seq<DiskFile>>, n: nat, cuts: seq<nat>, i: nat, j: nat)
    requires IsDiskRun(states, actions, disks) && n < |states| && Cuts(disks[n], cuts)
    requires i < |states[n].logs| && j < states[n].logs[i].synced
    ensures i < |disks[n]|
    ensures var file := disks[n][i].bytes[..cuts[i]];
            Readable(file) && j < |Records(file)| && j < |states[n].logs[i].records| && StandsFor(Records(file)[j], states[n].logs[i].records[j])
  {
    RunKeepsDisk(states, actions, disks, n);
    var d, l := disks[n][i], states[n].logs[i];
    assert Keeps(d, l) && cuts[i] <= |d.bytes|;
    CutKeeps(d, l, cuts[i]);
    var rs := Records(d.bytes[..cuts[i]]);
    assert StandsFor(rs[j], Truncate(l, |rs|).records[j]);
  }
}
