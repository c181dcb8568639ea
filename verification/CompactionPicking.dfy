// Starting a compaction and placing a flushed memtable
// (db/version_set.cc, PickLevelForMemTableOutput, PickCompaction, CompactRange).

module CompactionPicking {
  import opened DbFormat
  import opened Levels
  import opened VersionSet
  import opened InputSelection
  import opened CompactionSafety

  const MAX_MEM_COMPACT_LEVEL := 2
  // MaxGrandParentOverlapBytes, in target file sizes.
  const GRANDPARENT_LIMIT_FILES := 10

  ghost predicate SequencesFit(v: Version) {
    forall l, f :: 0 <= l < NUM_LEVELS && f in v[l] ==> f.largest.sequence <= MAX_SEQUENCE
  }

  // No file at a level up to the given one overlaps the range.
  ghost predicate ClearDownTo(v: Version, level: nat, r: Range) {
    forall l, f {:trigger f in v[l]} :: 0 <= l <= level < NUM_LEVELS && f in v[l] ==> Outside(f, r)
  }

  // A table with this range may go one level below l: nothing overlaps it there, and
  // not too much does in the level after that.
  ghost predicate MayDescend(v: Version, l: nat, r: Range, maxFileSize: nat)
    requires l + 2 < NUM_LEVELS
  {
    (forall f {:trigger Outside(f, r)} :: f in v[l + 1] ==> Outside(f, r))
    && TotalFileSize(SelectOverlapping(v[l + 2], r)) <= GRANDPARENT_LIMIT_FILES * maxFileSize
  }

  // The deepest level a memtable may be written to: no file at that level or
  // above overlaps its range, and it goes as far down as it may.
  ghost predicate PlacedAt(v: Version, level: nat, r: Range, maxFileSize: nat) {
    && level <= MAX_MEM_COMPACT_LEVEL && (level > 0 ==> ClearDownTo(v, level, r))
    && (forall l {:trigger MayDescend(v, l, r, maxFileSize)} :: 0 <= l < level ==> MayDescend(v, l, r, maxFileSize))
    && (level < MAX_MEM_COMPACT_LEVEL ==> !MayDescend(v, level, r, maxFileSize) || (level == 0 && exists f :: f in v[0] && !Outside(f, r)))
  }

  method PickLevelForMemTableOutput(v: Version, smallest: UserKey, largest: UserKey, maxFileSize: nat) returns (level: nat)
    requires WfVersion(v) && SequencesFit(v)
    ensures PlacedAt(v, level, Range(Some(smallest), Some(largest)), maxFileSize)
  {
    level := 0;
    var r := Range(Some(smallest), Some(largest));
    assert WfLevel(0, Abs(v)[0]);
    forall f | f in v[0] ensures WfFile(f) { assert f in FileSet(v[0]); }
    var overlap := SomeFileOverlapsRange(false, v[0], r);
    if !overlap {
      while level < MAX_MEM_COMPACT_LEVEL
        invariant 0 <= level <= MAX_MEM_COMPACT_LEVEL
        invariant forall l, f :: 0 <= l <= level && f in v[l] ==> Outside(f, r)
        invariant forall l {:trigger MayDescend(v, l, r, maxFileSize)} :: 0 <= l < level ==> MayDescend(v, l, r, maxFileSize)
      {
        assert WfLevel(level + 1, Abs(v)[level + 1]);
        forall f | f in v[level + 1] ensures WfFile(f) { assert f in FileSet(v[level + 1]); }
        DeepLevelChained(level + 1, v[level + 1]);
        var next := SomeFileOverlapsRange(true, v[level + 1], r);
        if next {
          break;
        }
        if level + 2 < NUM_LEVELS {
          var overlaps;
          ghost var q;
          overlaps, q := GetOverlappingInputs(level + 2, v[level + 2], r);
          if TotalFileSize(overlaps) > GRANDPARENT_LIMIT_FILES * maxFileSize {
            break;
          }
        }
        level := level + 1;
      }
    }
  }

  // An automatic compaction starts from this file, at level 0 with all that overlap it.
  ghost predicate StartsFromFile(v: Version, level: nat, f: File, start: seq<File>)
    requires level < NUM_LEVELS
  {
    if level > 0 then start == [f]
    else exists r {:trigger Reaches(0, v[0], UserRange(f.smallest, f.largest), r)} ::
           Reaches(0, v[0], UserRange(f.smallest, f.largest), r) && start == SelectOverlapping(v[0], r)
  }

  // A manual one from the files that meet the range: at level 0 all of them and what they
  // overlap, deeper the first of them up to the one whose size passes the limit.
  ghost predicate StartsFromRange(v: Version, level: nat, request: Range, limit: nat, start: seq<File>)
    requires level < NUM_LEVELS
  {
    if level == 0 then
      exists r {:trigger Reaches(0, v[0], request, r)} :: Reaches(0, v[0], request, r) && start == SelectOverlapping(v[0], r)
    else
      FirstOf(SelectOverlapping(v[level], request), limit, start)
  }

  // The first files, all of them or until their size reaches the limit.
  ghost predicate FirstOf(all: seq<File>, limit: nat, start: seq<File>) {
    && start != [] && start <= all
    && (|start| < |all| ==> TotalFileSize(start) >= limit)
    && (|start| > 1 ==> TotalFileSize(start[..|start| - 1]) < limit)
  }

  // Start from one file (chosen by size or by seeks); at level 0 from
  // everything that overlaps it.
  method PickCompaction(v: Version, level: nat, index: nat, maxFileSize: nat) returns (upper: seq<File>, lower: seq<File>)
    requires WfVersion(v) && level + 1 < NUM_LEVELS && index < |v[level]|
    ensures v[level][index] in upper
    ensures GoodInputs(Abs(v), Compaction(level, FileSet(upper), FileSet(lower)))
    ensures Chained(lower) && (if level == 0 then Ordered(upper) else Chained(upper))
    ensures Gapless(FileSet(upper) + FileSet(lower))
    ensures exists start {:trigger StartsFromFile(v, level, v[level][index], start)} ::
              StartsFromFile(v, level, v[level][index], start) && Completed(v, level, start, maxFileSize, upper, lower)
  {
    var f := v[level][index];
    assert WfLevel(level, Abs(v)[level]) && f in FileSet(v[level]);
    var start := [f];
    if level == 0 {
      var smallest, largest := GetRange(start);
      ghost var r;
      start, r := GetOverlappingInputs(0, v[0], UserRange(smallest, largest));
      assert Reaches(0, v[0], UserRange(f.smallest, f.largest), r);
      SmallestNotAboveLargest(f);
      assert f in start;
      SelectionIsGood(v, 0, r);
      StartGapless(f, smallest, largest, start, v[0], r);
    } else {
      SingleFileOneSided(level, v[level], f);
      OneFileGapless(f);
    }
    ghost var firstLower;
    upper, lower, firstLower := SetupOtherInputs(v, level, start, maxFileSize);
    assert StartsFromFile(v, level, f, start);
  }

  // One file and nothing below that overlaps it, and not too much two levels down.
  ghost predicate MovesWhole(v: Version, level: nat, upper: seq<File>, lower: seq<File>, maxFileSize: nat) {
    && |upper| == 1 && lower == []
    && (level + 2 < NUM_LEVELS ==> exists r {:trigger Spans(upper, r)} ::
          Spans(upper, r) && TotalFileSize(SelectOverlapping(v[level + 2], r)) <= GRANDPARENT_LIMIT_FILES * maxFileSize)
  }

  method IsTrivialMove(v: Version, level: nat, upper: seq<File>, lower: seq<File>, maxFileSize: nat) returns (b: bool)
    ensures b <==> MovesWhole(v, level, upper, lower, maxFileSize)
  {
    b := |upper| == 1 && lower == [];
    if b && level + 2 < NUM_LEVELS {
      var smallest, largest := GetRange(upper);
      ghost var r;
      var grandparents;
      grandparents, r := GetOverlappingInputs(level + 2, v[level + 2], UserRange(smallest, largest));
      assert Spans(upper, UserRange(smallest, largest));
      forall q | Spans(upper, q) ensures q == UserRange(smallest, largest) {
        OneSpan(upper, q, smallest, largest);
      }
      b := TotalFileSize(grandparents) <= GRANDPARENT_LIMIT_FILES * maxFileSize;
    }
  }

  lemma OneFileGapless(f: File)
    ensures Gapless(FileSet([f]))
  {
    forall u | StartsBy(FileSet([f]), u) && EndsAfter(FileSet([f]), u) ensures Covered(FileSet([f]), u) {
      assert InUserRange(u, f);
    }
  }

  // At level 0 the files around one file cover all keys between their ends.
  lemma StartGapless(f: File, smallest: InternalKey, largest: InternalKey, start: seq<File>, files: seq<File>, r: Range)
    requires Covers(smallest, largest, [f]) && f in start && start == SelectOverlapping(files, r) && Closed(files, r)
    requires Wider(r, UserRange(smallest, largest))
    requires forall u {:trigger InRange(u, r)} :: InRange(u, r) ==> InRange(u, UserRange(smallest, largest)) || Covered(FileSet(start), u)
    ensures Gapless(FileSet(start))
  {
    OneFileGapless(f);
    assert f in FileSet([f]) && f.smallest == smallest && f.largest == largest;
    SelectionGapless(FileSet([f]), smallest, largest, start, r);
    assert FileSet([f]) + FileSet(start) == FileSet(start);
  }

  lemma SingleFileOneSided(level: nat, files: seq<File>, f: File)
    requires level > 0 && WfLevel(level, FileSet(files)) && f in files
    ensures OneSided(FileSet(files), FileSet([f]))
  {
    forall g | g in FileSet(files) && g !in FileSet([f]) ensures Left(g, FileSet([f])) || Right(g, FileSet([f])) {
      assert Before(g, f) || Before(f, g);
    }
  }

  // A manual compaction of a key range; deeper levels stop after enough bytes.
  method CompactRange(v: Version, level: nat, request: Range, maxFileSize: nat) returns (r: Option<(seq<File>, seq<File>)>)
    requires WfVersion(v) && level + 1 < NUM_LEVELS
    ensures r.None? <==> forall f :: f in v[level] ==> Outside(f, request)
    ensures r.Some? ==> r.value.0 != []
    ensures r.Some? ==> GoodInputs(Abs(v), Compaction(level, FileSet(r.value.0), FileSet(r.value.1)))
    ensures r.Some? ==> Chained(r.value.1) && (if level == 0 then Ordered(r.value.0) else Chained(r.value.0))
    ensures r.Some? && level == 0 ==> forall f :: f in v[0] && !Outside(f, request) ==> f in r.value.0
    ensures r.Some? ==> exists start {:trigger StartsFromRange(v, level, request, maxFileSize, start)} ::
              && StartsFromRange(v, level, request, maxFileSize, start) && (forall f :: f in start ==> f in r.value.0)
              && Completed(v, level, start, maxFileSize, r.value.0, r.value.1)
  {
    var inputs;
    ghost var q;
    inputs, q := GetOverlappingInputs(level, v[level], request);
    EmptySelection(level, v[level], request, q);
    if inputs == [] {
      return None;
    }
    SelectionIsGood(v, level, q);
    if level == 0 {
      assert Reaches(0, v[0], request, q);
    } else {
      inputs := CutToSize(v[level], inputs, maxFileSize);
    }
    assert StartsFromRange(v, level, request, maxFileSize, inputs);
    assert GoodStart(level, v[level], inputs);
    var upper, lower;
    ghost var firstLower;
    upper, lower, firstLower := SetupOtherInputs(v, level, inputs, maxFileSize);
    assert inputs[0] in upper;
    r := Some((upper, lower));
  }

  // Stop after enough bytes.
  method CutToSize(ghost files: seq<File>, selected: seq<File>, limit: nat) returns (inputs: seq<File>)
    requires selected != [] && FileSet(selected) <= FileSet(files) && Chained(selected) && OneSided(FileSet(files), FileSet(selected))
    ensures FirstOf(selected, limit, inputs)
    ensures FileSet(inputs) <= FileSet(files) && Chained(inputs) && OneSided(FileSet(files), FileSet(inputs))
  {
    var total := 0;
    for i := 0 to |selected|
      invariant total == TotalFileSize(selected[..i]) && (i > 0 ==> total < limit)
    {
      assert selected[..i + 1] == selected[..i] + [selected[i]];
      SizesAdd(selected[..i], [selected[i]]);
      SizesAdd([selected[i]], []);
      total := total + selected[i].size;
      if total >= limit {
        PrefixOneSided(files, selected, i + 1);
        PrefixChained(selected, i + 1);
        inputs := selected[..i + 1];
        assert inputs[..|inputs| - 1] == selected[..i];
        return;
      }
    }
    inputs := selected;
    assert selected == selected[..|selected|] == selected[..|selected| - 1] + [selected[|selected| - 1]];
    SizesAdd(selected[..|selected| - 1], [selected[|selected| - 1]]);
  }

  lemma PrefixChained(fs: seq<File>, n: nat)
    requires Chained(fs) && n <= |fs|
    ensures Chained(fs[..n])
  {
    forall i, j | 0 <= i < j < n ensures Before(fs[..n][i], fs[..n][j]) {
      assert Before(fs[i], fs[j]);
    }
  }

  // Growing the range cannot turn an empty selection into one with files.
  lemma EmptySelection(level: nat, files: seq<File>, request: Range, q: Range)
    requires level > 0 ==> q == request
    requires level == 0 ==> Wider(q, request) && (Closed(files, request) ==> Wider(request, q))
    ensures SelectOverlapping(files, q) == [] <==> forall f :: f in files ==> Outside(f, request)
  {
    if forall f :: f in files ==> Outside(f, request) {
      if SelectOverlapping(files, q) != [] {
        assert SelectOverlapping(files, q)[0] in SelectOverlapping(files, q);
      }
    } else {
      var f :| f in files && !Outside(f, request);
      assert f in SelectOverlapping(files, q);
    }
  }

  // A prefix of the selected files of a deeper level is one piece as well.
  lemma PrefixOneSided(files: seq<File>, selected: seq<File>, n: nat)
    requires 0 < n <= |selected| && Chained(selected)
    requires OneSided(FileSet(files), FileSet(selected))
    ensures FileSet(selected[..n]) <= FileSet(selected)
    ensures OneSided(FileSet(files), FileSet(selected[..n]))
  {
    var p := FileSet(selected[..n]);
    assert p <= FileSet(selected);
    forall g | g in FileSet(files) && g !in p ensures Left(g, p) || Right(g, p) {
      if g in FileSet(selected) {
        var j :| 0 <= j < |selected| && selected[j] == g;
        forall f | f in p ensures Before(f, g) {
          var i :| 0 <= i < n && selected[i] == f;
          assert j >= n && Before(selected[i], selected[j]);
        }
      } else if Left(g, FileSet(selected)) {
        forall f | f in p ensures Before(g, f) {
          assert f in FileSet(selected);
        }
      } else {
        forall f | f in p ensures Before(f, g) {
          assert f in FileSet(selected);
        }
      }
    }
  }

  // ---- The gap in the lower level ---------------------------------------

  // Level 1 holds user key 1; level 2 holds a file ending in a deletion of user
  // key 2 and a file that continues user key 2 with an older value.
  function GapEntry(user: UserKey, sequence: nat, kind: ValueType): Entry {
    Entry(InternalKey(user, sequence, kind), [])
  }

  function GapFile(number: nat, es: seq<Entry>): File
    requires es != []
  {
    File(number, 1, es[0].key, es[|es| - 1].key, es)
  }

  const GAP_UPPER := GapFile(12, [GapEntry(1.0, 9, Value)])
  const GAP_LOWER := GapFile(10, [GapEntry(1.0, 5, Value), GapEntry(2.0, 6, Deletion)])
  const GAP_LEFT := GapFile(11, [GapEntry(2.0, 4, Value)])
  const GAP_VERSION: Version := [[], [GAP_UPPER], [GAP_LOWER, GAP_LEFT], [], [], [], []]

  lemma GapFilesAreWf()
    ensures WfFile(GAP_UPPER) && WfFile(GAP_LOWER) && WfFile(GAP_LEFT)
    ensures Before(GAP_LOWER, GAP_LEFT) && Newer(GAP_UPPER, GAP_LOWER) && Newer(GAP_UPPER, GAP_LEFT)
  {
  }

  lemma GapHolds(l: int, f: File)
    requires Holds(Abs(GAP_VERSION), l, f)
    ensures (l == 1 && f == GAP_UPPER) || (l == 2 && (f == GAP_LOWER || f == GAP_LEFT))
  {
    assert f in GAP_VERSION[l];
  }

  lemma GapStored(e: Entry)
    requires e in Stored(Abs(GAP_VERSION))
    ensures e in [GapEntry(1.0, 9, Value), GapEntry(1.0, 5, Value), GapEntry(2.0, 6, Deletion), GapEntry(2.0, 4, Value)]
  {
    var l, f :| Holds(Abs(GAP_VERSION), l, f) && e in f.entries;
    GapHolds(l, f);
  }

  lemma GapVersionIsWf()
    ensures WfVersion(GAP_VERSION)
  {
    var a := Abs(GAP_VERSION);
    GapFilesAreWf();
    forall l | 0 <= l < NUM_LEVELS ensures WfLevel(l, a[l]) {
      forall f | f in a[l] ensures (l == 1 && f == GAP_UPPER) || (l == 2 && (f == GAP_LOWER || f == GAP_LEFT)) {
        assert Holds(a, l, f);
        GapHolds(l, f);
      }
    }
    forall i, j, f, g | Holds(a, i, f) && Holds(a, j, g)
      ensures (i < j ==> Newer(f, g)) && (f.number == g.number ==> i == j && f == g)
    {
      GapHolds(i, f);
      GapHolds(j, g);
    }
    forall x, y | x in Stored(a) && y in Stored(a) && SameVersion(x, y) ensures x == y {
      GapStored(x);
      GapStored(y);
    }
    forall l | 0 <= l < NUM_LEVELS ensures Ordered(GAP_VERSION[l]) {
      if l != 2 {
        assert |GAP_VERSION[l]| <= 1;
      }
    }
  }

  // SetupOtherInputs takes GAP_UPPER and GAP_LOWER and leaves GAP_LEFT: no file
  // of level 1 is a boundary file and only GAP_LOWER overlaps user key 1.
  lemma SelectionLeavesGap(m: nat)
    requires m >= 9
    ensures WfVersion(GAP_VERSION) && GoodStart(1, GAP_VERSION[1], [GAP_UPPER])
    ensures forall g :: g in GAP_VERSION[1] ==> !IsBoundary(g, GAP_UPPER.largest)
    ensures SelectOverlapping(GAP_VERSION[2], UserRange(GAP_UPPER.smallest, GAP_UPPER.largest)) == [GAP_LOWER]
    ensures !NoResurrection(Abs(GAP_VERSION), Compaction(1, {GAP_UPPER}, {GAP_LOWER}), m)
  {
    GapVersionIsWf();
    GapStart();
    GapLower();
    GapResurrects(m);
  }

  lemma GapStart()
    ensures GoodStart(1, GAP_VERSION[1], [GAP_UPPER])
    ensures forall g :: g in GAP_VERSION[1] ==> !IsBoundary(g, GAP_UPPER.largest)
  {
    assert GAP_VERSION[1] == [GAP_UPPER];
  }

  lemma GapLower()
    ensures SelectOverlapping(GAP_VERSION[2], UserRange(GAP_UPPER.smallest, GAP_UPPER.largest)) == [GAP_LOWER]
  {
    assert GAP_VERSION[2] == [GAP_LOWER, GAP_LEFT] && GAP_VERSION[2][..1] == [GAP_LOWER];
  }

  lemma GapResurrects(m: nat)
    requires m >= 9
    ensures !NoResurrection(Abs(GAP_VERSION), Compaction(1, {GAP_UPPER}, {GAP_LOWER}), m)
  {
    var a, c := Abs(GAP_VERSION), Compaction(1, {GAP_UPPER}, {GAP_LOWER});
    var t, covered := GapEntry(2.0, 6, Deletion), GapEntry(2.0, 4, Value);
    assert GAP_LOWER in c.Inputs() && t in GAP_LOWER.entries;
    forall l, f | Holds(a, l, f) ensures l < 3 {
      GapHolds(l, f);
    }
    assert Holds(a, 2, GAP_LOWER) && t in Stored(a);
    forall x | x in Stored(a) && Sees(x, 2.0, m) ensures x.key.sequence <= 6 {
      GapStored(x);
    }
    GapBelow(a, c);
    NewestIs(LeftBelow(a, c), 2.0, m, covered);
  }

  lemma GapBelow(a: Levels, c: Compaction)
    requires a == Abs(GAP_VERSION) && c == Compaction(1, {GAP_UPPER}, {GAP_LOWER})
    ensures LeftBelow(a, c) == {GapEntry(2.0, 4, Value)}
  {
    assert a[2] - c.lower == {GAP_LEFT};
    assert GAP_LEFT.entries == [GapEntry(2.0, 4, Value)];
  }
}
