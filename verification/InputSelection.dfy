// Choosing what a compaction reads and where a memtable is written
// (db/version_set.cc, SomeFileOverlapsRange through SetupOtherInputs).

module InputSelection {
  import opened DbFormat
  import opened Levels
  import opened VersionSet

  // A range of user keys; None is an open side (a null pointer in the source).
  datatype Range = Range(begin: Option<UserKey>, end: Option<UserKey>)

  predicate Outside(f: File, r: Range) {
    (r.begin.Some? && f.largest.user < r.begin.value) || (r.end.Some? && f.smallest.user > r.end.value)
  }

  predicate Inside(f: File, r: Range) {
    (r.begin.Some? ==> r.begin.value <= f.smallest.user) && (r.end.Some? ==> f.largest.user <= r.end.value)
  }

  predicate Wider(r: Range, q: Range) {
    && (r.begin.None? || (q.begin.Some? && r.begin.value <= q.begin.value))
    && (r.end.None? || (q.end.Some? && q.end.value <= r.end.value))
  }

  // ---- SomeFileOverlapsRange -------------------------------------------

  method SomeFileOverlapsRange(disjointSorted: bool, files: seq<File>, r: Range) returns (found: bool)
    requires forall f :: f in files ==> WfFile(f) && f.largest.sequence <= MAX_SEQUENCE
    requires disjointSorted ==> Chained(files)
    ensures found <==> exists f :: f in files && !Outside(f, r)
  {
    if !disjointSorted {
      for i := 0 to |files|
        invariant forall j :: 0 <= j < i ==> Outside(files[j], r)
      {
        if !Outside(files[i], r) {
          return true;
        }
      }
      return false;
    }
    var index := 0;
    if r.begin.Some? {
      index := FindFile(files, SeekKey(r.begin.value, MAX_SEQUENCE));
    }
    if index >= |files| {
      return false;
    }
    found := !(r.end.Some? && files[index].smallest.user > r.end.value);
    if found {
      assert !Outside(files[index], r);
    } else {
      forall i | 0 <= i < |files| ensures Outside(files[i], r) {
        assert i > index ==> Before(files[index], files[i]);
        SmallestNotAboveLargest(files[index]);
      }
    }
  }

  // ---- GetOverlappingInputs --------------------------------------------

  function SelectOverlapping(files: seq<File>, r: Range): (s: seq<File>)
    ensures forall f {:trigger f in s} :: f in s <==> f in files && !Outside(f, r)
    ensures |s| <= |files|
  {
    if files == [] then []
    else
      var rest, last := SelectOverlapping(files[..|files| - 1], r), files[|files| - 1];
      if Outside(last, r) then rest else rest + [last]
  }

  // A range no overlapping file reaches out of.
  ghost predicate Closed(files: seq<File>, r: Range) {
    forall f {:trigger Inside(f, r)} :: f in files && !Outside(f, r) ==> Inside(f, r)
  }

  // How many file ends still lie beyond the range.
  ghost function Beyond(files: seq<File>, r: Range): nat {
    if files == [] then 0
    else
      Beyond(files[1..], r)
      + (if r.begin.Some? && files[0].smallest.user < r.begin.value then 1 else 0)
      + (if r.end.Some? && files[0].largest.user > r.end.value then 1 else 0)
  }

  lemma {:induction false} BeyondShrinks(files: seq<File>, q: Range, r: Range)
    requires Wider(q, r) && (q.begin.Some? == r.begin.Some?) && (q.end.Some? == r.end.Some?)
    ensures Beyond(files, q) <= Beyond(files, r)
    ensures (exists f :: f in files && ((r.begin.Some? && q.begin.value <= f.smallest.user < r.begin.value)
                                        || (r.end.Some? && r.end.value < f.largest.user <= q.end.value)))
            ==> Beyond(files, q) < Beyond(files, r)
  {
    if files != [] {
      BeyondShrinks(files[1..], q, r);
    }
  }

  predicate InRange(user: UserKey, r: Range) {
    (r.begin.Some? ==> r.begin.value <= user) && (r.end.Some? ==> user <= r.end.value)
  }

  ghost predicate Covered(S: set<File>, user: UserKey) {
    exists f {:trigger InUserRange(user, f)} :: f in S && InUserRange(user, f)
  }

  // All files of a level that overlap a range.  Level-0 files may overlap each
  // other, so there the range grows until it is closed; the result range is the
  // least closed one that contains the request, and it grows only over keys some
  // selected file covers.
  method GetOverlappingInputs(level: nat, files: seq<File>, request: Range) returns (inputs: seq<File>, ghost r: Range)
    ensures inputs == SelectOverlapping(files, r)
    ensures level > 0 ==> r == request
    ensures level == 0 ==> Wider(r, request) && Closed(files, r)
    ensures level == 0 ==> forall q {:trigger Closed(files, q)} :: Wider(q, request) && Closed(files, q) ==> Wider(q, r)
    ensures forall u {:trigger InRange(u, r)} :: InRange(u, r) ==> InRange(u, request) || Covered(FileSet(inputs), u)
  {
    var range := request;
    inputs := [];
    var i := 0;
    while i < |files|
      invariant 0 <= i <= |files|
      invariant inputs == SelectOverlapping(files[..i], range)
      invariant level > 0 ==> range == request
      invariant Wider(range, request)
      invariant level == 0 ==> forall j :: 0 <= j < i && !Outside(files[j], range) ==> Inside(files[j], range)
      invariant level == 0 ==> forall q {:trigger Closed(files, q)} :: Wider(q, request) && Closed(files, q) ==> Wider(q, range)
      invariant GrownOver(files, request, range)
      decreases Beyond(files, range), |files| - i
    {
      var f := files[i];
      assert files[..i + 1][..i] == files[..i];
      i := i + 1;
      if !Outside(f, range) {
        inputs := inputs + [f];
        if level == 0 {
          ghost var was := range;
          if range.begin.Some? && f.smallest.user < range.begin.value {
            range := Range(Some(f.smallest.user), range.end);
            inputs := [];
            i := 0;
          } else if range.end.Some? && f.largest.user > range.end.value {
            range := Range(range.begin, Some(f.largest.user));
            inputs := [];
            i := 0;
          }
          BeyondShrinks(files, range, was);
          GrowsOver(files, request, was, range, f);
          forall q | Wider(q, request) && Closed(files, q) ensures Wider(q, range) {
            assert Wider(q, was) && Inside(f, q);
          }
        }
      }
    }
    assert files[..|files|] == files;
    r := range;
    forall u | InRange(u, r) && !InRange(u, request) ensures Covered(FileSet(inputs), u) {
      var f :| f in files && InUserRange(u, f);
      assert f in FileSet(inputs);
    }
  }

  // Every key of the range is in the request or in a file.
  ghost predicate GrownOver(files: seq<File>, request: Range, r: Range) {
    forall u {:trigger InRange(u, r)} :: InRange(u, r) ==> InRange(u, request) || exists f :: f in files && InUserRange(u, f)
  }

  lemma GrowsOver(files: seq<File>, request: Range, was: Range, r: Range, f: File)
    requires GrownOver(files, request, was) && f in files && !Outside(f, was)
    requires || r == was
             || (was.begin.Some? && r == Range(Some(f.smallest.user), was.end))
             || (was.end.Some? && r == Range(was.begin, Some(f.largest.user)))
    ensures GrownOver(files, request, r)
  {
    forall u | InRange(u, r) ensures InRange(u, request) || exists g :: g in files && InUserRange(u, g) {
      if !InRange(u, was) {
        assert InUserRange(u, f);
      }
    }
  }

  // Widening a request never drops a file, so an equal count means the same files.
  lemma {:induction false} SelectGrows(files: seq<File>, q: Range, r: Range)
    requires Wider(q, r)
    ensures |SelectOverlapping(files, r)| <= |SelectOverlapping(files, q)|
    ensures |SelectOverlapping(files, r)| == |SelectOverlapping(files, q)| ==>
              SelectOverlapping(files, r) == SelectOverlapping(files, q)
  {
    if files != [] {
      SelectGrows(files[..|files| - 1], q, r);
    }
  }

  lemma {:induction false} SelectChained(files: seq<File>, r: Range)
    requires Chained(files)
    ensures Chained(SelectOverlapping(files, r))
  {
    if files != [] {
      var front, last := files[..|files| - 1], files[|files| - 1];
      forall i, j | 0 <= i < j < |front| ensures Before(front[i], front[j]) {
        assert Before(files[i], files[j]);
      }
      SelectChained(front, r);
      var s := SelectOverlapping(front, r);
      forall i | 0 <= i < |s| ensures Before(s[i], last) {
        assert s[i] in s && s[i] in front;
        var k :| 0 <= k < |front| && front[k] == s[i];
        assert Before(files[k], files[|files| - 1]);
      }
    }
  }

  // ---- Ranges of file lists --------------------------------------------

  ghost predicate Covers(smallest: InternalKey, largest: InternalKey, fs: seq<File>) {
    && (forall f :: f in fs ==> !Less(f.smallest, smallest) && !Less(largest, f.largest))
    && (exists f :: f in fs && f.smallest == smallest)
    && (exists f :: f in fs && f.largest == largest)
  }

  // The minimal range that covers all files.
  method GetRange(inputs: seq<File>) returns (smallest: InternalKey, largest: InternalKey)
    requires inputs != []
    ensures Covers(smallest, largest, inputs)
  {
    smallest, largest := inputs[0].smallest, inputs[0].largest;
    for i := 1 to |inputs|
      invariant Covers(smallest, largest, inputs[..i])
    {
      var f := inputs[i];
      assert inputs[..i + 1] == inputs[..i] + [f];
      if Less(f.smallest, smallest) {
        smallest := f.smallest;
      }
      if Less(largest, f.largest) {
        largest := f.largest;
      }
    }
    assert inputs[..|inputs|] == inputs;
  }

  function UserRange(smallest: InternalKey, largest: InternalKey): Range {
    Range(Some(smallest.user), Some(largest.user))
  }

  // ---- Inputs without gaps ----------------------------------------------

  ghost predicate StartsBy(S: set<File>, user: UserKey) {
    exists f :: f in S && f.smallest.user <= user
  }

  ghost predicate EndsAfter(S: set<File>, user: UserKey) {
    exists f :: f in S && user <= f.largest.user
  }

  // Every key between the ends of the files is covered by one of them.
  ghost predicate Gapless(S: set<File>) {
    forall u {:trigger Covered(S, u)} :: StartsBy(S, u) && EndsAfter(S, u) ==> Covered(S, u)
  }

  // Files that reach into a gapless set leave it gapless.
  lemma GrowGapless(S: set<File>, T: set<File>)
    requires Gapless(S) && S <= T
    requires forall g {:trigger g in T} :: g in T && g !in S ==> StartsBy(S, g.largest.user) && EndsAfter(S, g.smallest.user)
    ensures Gapless(T)
  {
    forall u | StartsBy(T, u) && EndsAfter(T, u) ensures Covered(T, u) {
      var f :| f in T && f.smallest.user <= u;
      var g :| g in T && u <= g.largest.user;
      if StartsBy(S, u) && EndsAfter(S, u) {
        assert Covered(S, u);
        var h :| h in S && InUserRange(u, h);
        assert h in T;
      } else if !StartsBy(S, u) {
        assert f in T && f !in S && StartsBy(S, f.largest.user);
        assert InUserRange(u, f);
      } else {
        assert g in T && g !in S && EndsAfter(S, g.smallest.user);
        assert InUserRange(u, g);
      }
    }
  }

  // Selecting what overlaps the whole range of a gapless set keeps it gapless.
  lemma SelectionGapless(S: set<File>, smallest: InternalKey, largest: InternalKey, inputs: seq<File>, r: Range)
    requires Gapless(S) && StartsBy(S, smallest.user) && EndsAfter(S, largest.user)
    requires forall f :: f in S ==> Inside(f, r)
    requires forall f :: f in inputs ==> Inside(f, r)
    requires forall u {:trigger InRange(u, r)} :: InRange(u, r) ==> InRange(u, UserRange(smallest, largest)) || Covered(FileSet(inputs), u)
    ensures Gapless(S + FileSet(inputs))
  {
    var T := S + FileSet(inputs);
    forall u | StartsBy(T, u) && EndsAfter(T, u) ensures Covered(T, u) {
      assert InRange(u, r);
      if InRange(u, UserRange(smallest, largest)) {
        assert StartsBy(S, u) && EndsAfter(S, u) && Covered(S, u);
        var h :| h in S && InUserRange(u, h);
        assert h in T;
      } else {
        var h :| h in FileSet(inputs) && InUserRange(u, h);
        assert h in T;
      }
    }
  }

  // ---- Boundary files ---------------------------------------------------

  // g continues, further right, the user key that largest ends with.
  predicate IsBoundary(g: File, largest: InternalKey) {
    Less(largest, g.smallest) && g.smallest.user == largest.user
  }

  method FindSmallestBoundaryFile(levelFiles: seq<File>, largest: InternalKey) returns (b: Option<File>)
    ensures b.None? ==> forall g :: g in levelFiles ==> !IsBoundary(g, largest)
    ensures b.Some? ==> b.value in levelFiles && IsBoundary(b.value, largest)
    ensures b.Some? ==> forall g :: g in levelFiles && IsBoundary(g, largest) ==> !Less(g.smallest, b.value.smallest)
  {
    b := None;
    for i := 0 to |levelFiles|
      invariant b.None? ==> forall j :: 0 <= j < i ==> !IsBoundary(levelFiles[j], largest)
      invariant b.Some? ==> b.value in levelFiles && IsBoundary(b.value, largest)
      invariant b.Some? ==> forall j :: 0 <= j < i && IsBoundary(levelFiles[j], largest) ==> !Less(levelFiles[j].smallest, b.value.smallest)
    {
      var f := levelFiles[i];
      if Less(largest, f.smallest) && f.smallest.user == largest.user {
        if b.None? || Less(f.smallest, b.value.smallest) {
          b := Some(f);
        }
      }
    }
  }

  // Every other file of the level lies on one side of all chosen files.
  ghost predicate OneSided(files: set<File>, chosen: set<File>) {
    forall g {:trigger g in chosen} :: g in files && g !in chosen ==> Left(g, chosen) || Right(g, chosen)
  }

  ghost predicate Left(g: File, chosen: set<File>) {
    forall f {:trigger Before(g, f)} :: f in chosen ==> Before(g, f)
  }

  ghost predicate Right(g: File, chosen: set<File>) {
    forall f {:trigger Before(f, g)} :: f in chosen ==> Before(f, g)
  }

  ghost predicate IsLargest(largest: InternalKey, fs: seq<File>) {
    (exists f :: f in fs && f.largest == largest) && (forall f :: f in fs ==> !Less(largest, f.largest))
  }

  // Adding the nearest boundary file keeps the choice in one piece.
  lemma BoundaryKeepsOneSided(files: set<File>, fs: seq<File>, largest: InternalKey, b: File)
    requires WfLevel(1, files) && FileSet(fs) <= files && OneSided(files, FileSet(fs)) && IsLargest(largest, fs)
    requires b in files && IsBoundary(b, largest)
    requires forall g :: g in files && IsBoundary(g, largest) ==> !Less(g.smallest, b.smallest)
    ensures OneSided(files, FileSet(fs + [b])) && IsLargest(b.largest, fs + [b])
  {
    var top :| top in fs && top.largest == largest;
    SmallestNotAboveLargest(b);
    forall g | g in files && g !in FileSet(fs + [b]) ensures Left(g, FileSet(fs + [b])) || Right(g, FileSet(fs + [b])) {
      assert g !in FileSet(fs) && top in FileSet(fs);
      assert Before(g, b) || Before(b, g);
      SmallestNotAboveLargest(g);
      SmallestNotAboveLargest(top);
      if Left(g, FileSet(fs)) {
        assert Before(g, top);
      } else {
        assert Before(top, g);
        assert !IsBoundary(g, largest) || !Less(g.smallest, b.smallest);
      }
    }
  }

  ghost function FilesAhead(files: seq<File>, largest: InternalKey): set<File> {
    set g | g in files && Less(largest, g.smallest)
  }

  method FindLargestKey(files: seq<File>) returns (largestKey: InternalKey)
    requires files != []
    ensures IsLargest(largestKey, files)
  {
    largestKey := files[0].largest;
    for i := 1 to |files|
      invariant IsLargest(largestKey, files[..i])
    {
      assert files[..i + 1] == files[..i] + [files[i]];
      if Less(largestKey, files[i].largest) {
        largestKey := files[i].largest;
      }
    }
    assert files[..|files|] == files;
  }

  // The file at this place continues the user key the ones before it end with.
  ghost predicate ContinuesAt(fs: seq<File>, i: nat)
    requires i < |fs|
  {
    exists largest {:trigger IsLargest(largest, fs[..i])} :: IsLargest(largest, fs[..i]) && IsBoundary(fs[i], largest)
  }

  // The start, then boundary files one after the other, until none is left.
  ghost predicate ChainOf(files: seq<File>, start: seq<File>, fs: seq<File>) {
    && start <= fs && FileSet(fs) <= FileSet(files)
    && (forall i {:trigger ContinuesAt(fs, i)} :: |start| <= i < |fs| ==> ContinuesAt(fs, i))
    && forall largest, g {:trigger IsLargest(largest, fs), IsBoundary(g, largest)} :: IsLargest(largest, fs) && g in files ==> !IsBoundary(g, largest)
  }

  lemma ChainGrows(start: seq<File>, fs: seq<File>, largest: InternalKey, b: File)
    requires |start| <= |fs| && IsLargest(largest, fs) && IsBoundary(b, largest)
    requires forall i {:trigger ContinuesAt(fs, i)} :: |start| <= i < |fs| ==> ContinuesAt(fs, i)
    ensures forall i {:trigger ContinuesAt(fs + [b], i)} :: |start| <= i < |fs + [b]| ==> ContinuesAt(fs + [b], i)
  {
    forall i | |start| <= i < |fs + [b]| ensures ContinuesAt(fs + [b], i) {
      if i < |fs| {
        assert ContinuesAt(fs, i) && (fs + [b])[..i] == fs[..i];
      } else {
        assert (fs + [b])[..i] == fs;
      }
    }
  }

  // Extend the files with boundary files until none is left at the level.
  method AddBoundaryInputs(ghost level: nat, levelFiles: seq<File>, compactionFiles: seq<File>, ghost others: set<File>)
      returns (fs: seq<File>, ghost largest: InternalKey)
    requires compactionFiles != [] && FileSet(compactionFiles) <= FileSet(levelFiles)
    requires forall f :: f in levelFiles ==> WfFile(f)
    requires level > 0 ==> WfLevel(level, FileSet(levelFiles)) && OneSided(FileSet(levelFiles), FileSet(compactionFiles))
    requires level == 0 ==> forall f, g {:trigger RangesOverlap(f, g)} ::
               f in compactionFiles && g in levelFiles && g !in compactionFiles ==> !RangesOverlap(f, g)
    ensures compactionFiles <= fs && FileSet(fs) <= FileSet(levelFiles)
    ensures IsLargest(largest, fs)
    ensures forall g :: g in levelFiles ==> !IsBoundary(g, largest)
    ensures level > 0 ==> OneSided(FileSet(levelFiles), FileSet(fs))
    ensures level == 0 ==> fs == compactionFiles
    ensures Chained(compactionFiles) ==> Chained(fs)
    ensures Gapless(FileSet(compactionFiles) + others) ==> Gapless(FileSet(fs) + others)
    ensures ChainOf(levelFiles, compactionFiles, fs)
  {
    var largestKey := FindLargestKey(compactionFiles);
    fs := compactionFiles;
    var b := FindSmallestBoundaryFile(levelFiles, largestKey);
    while b.Some?
      invariant Extended(level, levelFiles, compactionFiles, fs, largestKey, others)
      invariant forall i {:trigger ContinuesAt(fs, i)} :: |compactionFiles| <= i < |fs| ==> ContinuesAt(fs, i)
      invariant b.None? ==> forall g :: g in levelFiles ==> !IsBoundary(g, largestKey)
      invariant b.Some? ==> b.value in levelFiles && IsBoundary(b.value, largestKey)
      invariant b.Some? ==> forall g :: g in levelFiles && IsBoundary(g, largestKey) ==> !Less(g.smallest, b.value.smallest)
      decreases FilesAhead(levelFiles, largestKey)
    {
      ghost var was := FilesAhead(levelFiles, largestKey);
      SmallestNotAboveLargest(b.value);
      ExtendByBoundary(level, levelFiles, compactionFiles, fs, largestKey, b.value, others);
      ChainGrows(compactionFiles, fs, largestKey, b.value);
      fs := fs + [b.value];
      largestKey := b.value.largest;
      assert b.value in was;
      b := FindSmallestBoundaryFile(levelFiles, largestKey);
    }
    largest := largestKey;
    OneLargest(fs, largest);
  }

  lemma OneLargest(fs: seq<File>, largest: InternalKey)
    requires IsLargest(largest, fs)
    ensures forall k {:trigger IsLargest(k, fs)} :: IsLargest(k, fs) ==> !Less(k, largest) && !Less(largest, k)
  {
  }

  // What adding boundary files keeps.
  ghost predicate Extended(level: nat, levelFiles: seq<File>, compactionFiles: seq<File>, fs: seq<File>, largest: InternalKey, others: set<File>) {
    && compactionFiles <= fs && FileSet(fs) <= FileSet(levelFiles) && IsLargest(largest, fs)
    && (level > 0 ==> OneSided(FileSet(levelFiles), FileSet(fs)))
    && (level == 0 ==> fs == compactionFiles)
    && (Chained(compactionFiles) ==> Chained(fs))
    && (Gapless(FileSet(compactionFiles) + others) ==> Gapless(FileSet(fs) + others))
  }

  lemma ExtendByBoundary(level: nat, levelFiles: seq<File>, compactionFiles: seq<File>, fs: seq<File>, largest: InternalKey, b: File, others: set<File>)
    requires Extended(level, levelFiles, compactionFiles, fs, largest, others)
    requires (forall f :: f in levelFiles ==> WfFile(f)) && (level > 0 ==> WfLevel(level, FileSet(levelFiles)))
    requires level == 0 ==> forall f, g {:trigger RangesOverlap(f, g)} ::
               f in compactionFiles && g in levelFiles && g !in compactionFiles ==> !RangesOverlap(f, g)
    requires b in levelFiles && IsBoundary(b, largest)
    requires forall g :: g in levelFiles && IsBoundary(g, largest) ==> !Less(g.smallest, b.smallest)
    ensures Extended(level, levelFiles, compactionFiles, fs + [b], b.largest, others)
  {
    Level0HasNoBoundary(level, levelFiles, fs, largest, b);
    BoundaryKeepsOneSided(FileSet(levelFiles), fs, largest, b);
    BoundaryKeepsChained(fs, largest, b);
    forall f | f in fs ensures WfFile(f) {
      assert f in FileSet(fs) && f in FileSet(levelFiles);
    }
    BoundaryKeepsGapless(fs, largest, b, others);
  }

  lemma BoundaryKeepsChained(fs: seq<File>, largest: InternalKey, b: File)
    requires IsLargest(largest, fs) && IsBoundary(b, largest)
    ensures Chained(fs) ==> Chained(fs + [b])
  {
    var r := fs + [b];
    if Chained(fs) {
      forall i, j | 0 <= i < j < |r| ensures Before(r[i], r[j]) {
        assert j < |fs| ==> Before(fs[i], fs[j]);
        assert fs[i] in fs;
      }
    }
  }

  lemma BoundaryKeepsGapless(fs: seq<File>, largest: InternalKey, b: File, others: set<File>)
    requires IsLargest(largest, fs) && IsBoundary(b, largest) && WfFile(b) && forall f :: f in fs ==> WfFile(f)
    ensures Gapless(FileSet(fs) + others) ==> Gapless(FileSet(fs + [b]) + others)
  {
    if Gapless(FileSet(fs) + others) {
      var S, T := FileSet(fs) + others, FileSet(fs + [b]) + others;
      var top :| top in fs && top.largest == largest;
      assert top in S;
      SmallestNotAboveLargest(b);
      SmallestNotAboveLargest(top);
      forall g | g in T && g !in S ensures StartsBy(S, g.largest.user) && EndsAfter(S, g.smallest.user) {
        assert g == b;
      }
      GrowGapless(S, T);
    }
  }

  lemma Level0HasNoBoundary(level: nat, levelFiles: seq<File>, fs: seq<File>, largest: InternalKey, b: File)
    requires forall f :: f in levelFiles ==> WfFile(f)
    requires FileSet(fs) <= FileSet(levelFiles) && IsLargest(largest, fs) && b in levelFiles && IsBoundary(b, largest)
    requires level == 0 ==> forall f, g {:trigger RangesOverlap(f, g)} ::
               f in fs && g in levelFiles && g !in fs ==> !RangesOverlap(f, g)
    ensures level > 0
  {
    var top :| top in fs && top.largest == largest;
    assert top in FileSet(fs);
    SmallestNotAboveLargest(b);
    SmallestNotAboveLargest(top);
    assert RangesOverlap(top, b);
    assert b !in fs;
  }

  lemma {:induction false} SelectOrdered(files: seq<File>, r: Range)
    requires Ordered(files)
    ensures Ordered(SelectOverlapping(files, r))
  {
    if files != [] {
      var n := |files| - 1;
      forall i, j | 0 <= i < j < n ensures BySmallest(files[..n][i], files[..n][j]) {
        assert BySmallest(files[i], files[j]);
      }
      SelectOrdered(files[..n], r);
      var t, s := SelectOverlapping(files[..n], r), SelectOverlapping(files, r);
      forall i, j | 0 <= i < j < |s| ensures BySmallest(s[i], s[j]) {
        if j < |t| {
          assert BySmallest(t[i], t[j]);
        } else {
          assert t[i] in t;
          var k :| 0 <= k < n && files[k] == t[i];
          assert BySmallest(files[k], files[n]);
        }
      }
    }
  }

  // ---- SetupOtherInputs -------------------------------------------------

  // ExpandedCompactionByteSizeLimit, in target file sizes.
  const EXPANDED_LIMIT_FILES := 25

  function TotalFileSize(fs: seq<File>): (n: nat)
  {
    if fs == [] then 0 else fs[0].size + TotalFileSize(fs[1..])
  }

  // The size of a list is that of its parts.
  lemma {:induction false} SizesAdd(a: seq<File>, b: seq<File>)
    ensures TotalFileSize(a + b) == TotalFileSize(a) + TotalFileSize(b) && (|a| == 1 ==> TotalFileSize(a) == a[0].size)
  {
    if a == [] {
      assert a + b == b;
    } else {
      assert (a + b)[1..] == a[1..] + b;
      SizesAdd(a[1..], b);
    }
  }

  // What the callers of SetupOtherInputs start from: at level 0 nothing outside
  // the choice overlaps it, deeper the choice is one piece of the level.
  ghost predicate GoodStart(level: nat, files: seq<File>, chosen: seq<File>) {
    && chosen != [] && FileSet(chosen) <= FileSet(files)
    && (level > 0 ==> Chained(chosen) && OneSided(FileSet(files), FileSet(chosen)))
    && (level == 0 ==> Ordered(chosen) && Isolated(files, chosen))
  }

  ghost predicate Isolated(files: seq<File>, chosen: seq<File>) {
    forall f, g {:trigger RangesOverlap(f, g)} :: f in chosen && g in files && g !in chosen ==> !RangesOverlap(f, g)
  }

  // Files selected by a closed range overlap nothing that was not selected.
  lemma ClosedSelectionIsolated(files: seq<File>, r: Range)
    requires Closed(files, r)
    ensures Isolated(files, SelectOverlapping(files, r))
  {
    var s := SelectOverlapping(files, r);
    forall f, g | f in s && g in files && g !in s ensures !RangesOverlap(f, g) {
      assert Inside(f, r);
    }
  }

  // In a deeper level the files that overlap a range are one piece.
  lemma SelectionOneSided(level: nat, files: seq<File>, r: Range)
    requires level > 0 && WfLevel(level, FileSet(files))
    ensures OneSided(FileSet(files), FileSet(SelectOverlapping(files, r)))
  {
    var s := FileSet(SelectOverlapping(files, r));
    forall g | g in FileSet(files) && g !in s ensures Left(g, s) || Right(g, s) {
      assert WfFile(g);
      SmallestNotAboveLargest(g);
      assert Outside(g, r);
      forall f | f in s ensures Before(f, g) || Before(g, f) {
        assert f in FileSet(files);
      }
      forall f | f in s ensures WfFile(f) && !Less(f.largest, f.smallest) {
        assert f in FileSet(files);
        SmallestNotAboveLargest(f);
      }
      if r.begin.Some? && g.largest.user < r.begin.value {
        assert Left(g, s);
      } else {
        assert Right(g, s);
      }
    }
  }

  // The first clause of GoodInputs: what stays in the upper level is newer.
  lemma StayersAreNewer(v: Version, level: nat, upper: seq<File>, largest: InternalKey, f: File, g: File)
    requires WfVersion(v) && level < NUM_LEVELS && FileSet(upper) <= FileSet(v[level])
    requires IsLargest(largest, upper) && forall h :: h in v[level] ==> !IsBoundary(h, largest)
    requires level > 0 ==> OneSided(FileSet(v[level]), FileSet(upper))
    requires level == 0 ==> Isolated(v[level], upper)
    requires f in upper && g in v[level] && g !in upper
    ensures Newer(g, f)
  {
    var a := Abs(v);
    assert f in FileSet(upper) && g !in FileSet(upper);
    assert Holds(a, level, f) && Holds(a, level, g) && WfLevel(level, a[level]);
    if level == 0 {
      assert !RangesOverlap(f, g);
      DisjointRangesAreNewer(f, g);
    } else if Left(g, FileSet(upper)) {
      assert Before(g, f);
      BeforeIsNewer(a, level, g, f);
    } else {
      var top :| top in upper && top.largest == largest;
      assert top in FileSet(upper);
      assert Right(g, FileSet(upper)) && Before(top, g) && Before(f, g);
      assert !IsBoundary(g, largest);
      SmallestNotAboveLargest(g);
      DisjointRangesAreNewer(f, g);
    }
  }

  // The other clauses: the lower inputs are all files that overlap the upper ones.
  lemma LowerStayersAreApart(v: Version, level: nat, upper: seq<File>, smallest: InternalKey, largest: InternalKey, g: File)
    requires WfVersion(v) && level + 1 < NUM_LEVELS && FileSet(upper) <= FileSet(v[level])
    requires Covers(smallest, largest, upper)
    requires g in v[level + 1] && Outside(g, UserRange(smallest, largest))
    ensures forall f :: f in upper ==> !RangesOverlap(f, g)
    ensures
      var all := FileSet(upper) + FileSet(SelectOverlapping(v[level + 1], UserRange(smallest, largest)));
      (forall f :: f in all ==> Before(g, f)) || (forall f :: f in all ==> Before(f, g))
  {
    var lower := SelectOverlapping(v[level + 1], UserRange(smallest, largest));
    assert g in FileSet(v[level + 1]) && WfLevel(level + 1, Abs(v)[level + 1]) && WfLevel(level, Abs(v)[level]);
    SmallestNotAboveLargest(g);
    SelectionOneSided(level + 1, v[level + 1], UserRange(smallest, largest));
    assert g !in FileSet(lower);
    forall f | f in upper ensures WfFile(f) && !Less(f.largest, f.smallest) {
      assert f in FileSet(upper);
      SmallestNotAboveLargest(f);
    }
    forall f | f in lower ensures WfFile(f) && !Less(f.largest, f.smallest) && (Before(f, g) || Before(g, f)) {
      assert f in FileSet(v[level + 1]);
      SmallestNotAboveLargest(f);
    }
  }

  lemma SelectedInputsAreGood(v: Version, level: nat, upper: seq<File>, top: InternalKey, smallest: InternalKey, largest: InternalKey)
    requires WfVersion(v) && level + 1 < NUM_LEVELS && upper != [] && FileSet(upper) <= FileSet(v[level])
    requires IsLargest(top, upper) && forall h :: h in v[level] ==> !IsBoundary(h, top)
    requires level > 0 ==> OneSided(FileSet(v[level]), FileSet(upper))
    requires level == 0 ==> Isolated(v[level], upper)
    requires Covers(smallest, largest, upper)
    ensures GoodInputs(Abs(v), Compaction(level, FileSet(upper), FileSet(SelectOverlapping(v[level + 1], UserRange(smallest, largest)))))
  {
    var c := Compaction(level, FileSet(upper), FileSet(SelectOverlapping(v[level + 1], UserRange(smallest, largest))));
    forall f, g | f in c.upper && g in Abs(v)[level] && g !in c.upper ensures Newer(g, f) {
      StayersAreNewer(v, level, upper, top, f, g);
    }
    forall g | g in Abs(v)[level + 1] && g !in c.lower
      ensures forall f :: f in c.upper ==> !RangesOverlap(f, g)
      ensures (forall f :: f in c.Inputs() ==> Before(g, f)) || (forall f :: f in c.Inputs() ==> Before(f, g))
    {
      LowerStayersAreApart(v, level, upper, smallest, largest, g);
    }
  }

  // ---- What is chosen ---------------------------------------------------

  // How far a request reaches at a level: at level 0 as far as files that overlap it do.
  ghost predicate Reaches(level: nat, files: seq<File>, request: Range, r: Range) {
    if level > 0 then r == request
    else
      && Wider(r, request) && Closed(files, r)
      && forall q {:trigger Closed(files, q)} :: Wider(q, request) && Closed(files, q) ==> Wider(q, r)
  }

  // From the least to the largest user key of the files.
  ghost predicate Spans(fs: seq<File>, r: Range) {
    exists smallest, largest {:trigger Covers(smallest, largest, fs)} :: Covers(smallest, largest, fs) && r == UserRange(smallest, largest)
  }

  // The upper files a compaction might grow to: all that meets its range, and boundary files.
  ghost predicate GrowsTo(v: Version, level: nat, inputs: seq<File>, expanded: seq<File>)
    requires level < NUM_LEVELS
  {
    exists all, r {:trigger Reaches(level, v[level], all, r)} ::
      Spans(inputs, all) && Reaches(level, v[level], all, r) && ChainOf(v[level], SelectOverlapping(v[level], r), expanded)
  }

  // Growing gives more upper files, few bytes in all and no more lower files.
  ghost predicate WorthGrowing(v: Version, level: nat, upper: seq<File>, lower: seq<File>, expanded: seq<File>, maxFileSize: nat)
    requires level + 1 < NUM_LEVELS
  {
    && |expanded| > |upper| && TotalFileSize(lower) + TotalFileSize(expanded) < EXPANDED_LIMIT_FILES * maxFileSize
    && exists r {:trigger Spans(expanded, r)} :: Spans(expanded, r) && |SelectOverlapping(v[level + 1], r)| == |lower|
  }

  // The start with its boundary files, everything of the next level that meets their range,
  // and more upper files if that is worth it.
  ghost predicate CompletedBy(v: Version, level: nat, start: seq<File>, maxFileSize: nat, upper: seq<File>, lower: seq<File>,
                              first: seq<File>, expanded: seq<File>)
    requires level + 1 < NUM_LEVELS
  {
    && ChainOf(v[level], start, first)
    && (exists r {:trigger Spans(first, r)} :: Spans(first, r) && lower == SelectOverlapping(v[level + 1], r))
    && if lower == [] then upper == first
       else GrowsTo(v, level, first + lower, expanded)
            && upper == if WorthGrowing(v, level, first, lower, expanded, maxFileSize) then expanded else first
  }

  ghost predicate Completed(v: Version, level: nat, start: seq<File>, maxFileSize: nat, upper: seq<File>, lower: seq<File>)
    requires level + 1 < NUM_LEVELS
  {
    exists first, expanded {:trigger CompletedBy(v, level, start, maxFileSize, upper, lower, first, expanded)} ::
      CompletedBy(v, level, start, maxFileSize, upper, lower, first, expanded)
  }

  lemma OneSpan(fs: seq<File>, r: Range, smallest: InternalKey, largest: InternalKey)
    requires Spans(fs, r) && Covers(smallest, largest, fs)
    ensures r == UserRange(smallest, largest)
  {
  }

  // Complete a compaction from its first upper files: close the upper level
  // under user-key boundaries, take every overlapping file below, then try to
  // grow the upper files without growing the lower ones.
  method SetupOtherInputs(v: Version, level: nat, start: seq<File>, maxFileSize: nat)
      returns (upper: seq<File>, lower: seq<File>, ghost firstLower: seq<File>)
    requires WfVersion(v) && level + 1 < NUM_LEVELS && GoodStart(level, v[level], start)
    ensures forall f :: f in start ==> f in upper
    ensures GoodInputs(Abs(v), Compaction(level, FileSet(upper), FileSet(lower)))
    ensures exists smallest, largest :: Covers(smallest, largest, upper)
              && lower == SelectOverlapping(v[level + 1], UserRange(smallest, largest))
    ensures lower == firstLower
    ensures Chained(lower) && (if level == 0 then Ordered(upper) else Chained(upper))
    ensures Gapless(FileSet(start)) ==> Gapless(FileSet(upper) + FileSet(lower))
    ensures Completed(v, level, start, maxFileSize, upper, lower)
  {
    assert WfLevel(level, Abs(v)[level]) && WfLevel(level + 1, Abs(v)[level + 1]);
    DeepLevelChained(level + 1, v[level + 1]);
    forall f | f in v[level] ensures WfFile(f) { assert f in FileSet(v[level]); }
    ghost var top;
    upper, top := AddBoundaryInputs(level, v[level], start, {});
    assert FileSet(start) + {} == FileSet(start) && FileSet(upper) + {} == FileSet(upper);
    assert start[0] in upper;
    var smallest, largest := GetRange(upper);
    ghost var r;
    lower, r := GetOverlappingInputs(level + 1, v[level + 1], UserRange(smallest, largest));
    firstLower := lower;
    SelectChained(v[level + 1], UserRange(smallest, largest));
    LowerGapless(upper, v[level + 1], smallest, largest);
    SelectedInputsAreGood(v, level, upper, top, smallest, largest);
    ghost var first, expanded := upper, upper;
    assert Spans(first, UserRange(smallest, largest));
    if lower != [] {
      upper, smallest, largest, expanded := ExpandInputs(v, level, upper, lower, smallest, largest, maxFileSize);
      assert forall f :: f in first ==> f in upper;
    }
    assert CompletedBy(v, level, start, maxFileSize, upper, lower, first, expanded);
  }

  lemma LowerGapless(upper: seq<File>, files: seq<File>, smallest: InternalKey, largest: InternalKey)
    requires Covers(smallest, largest, upper)
    ensures Gapless(FileSet(upper)) ==>
              Gapless(FileSet(upper) + FileSet(SelectOverlapping(files, UserRange(smallest, largest))))
  {
    if Gapless(FileSet(upper)) {
      var first :| first in upper && first.smallest == smallest;
      var last :| last in upper && last.largest == largest;
      assert first in FileSet(upper) && last in FileSet(upper);
      GrowGapless(FileSet(upper), FileSet(upper) + FileSet(SelectOverlapping(files, UserRange(smallest, largest))));
    }
  }

  lemma SelectedGapless(v: Version, level: nat, upper: seq<File>, lower: seq<File>, selected: seq<File>,
                        smallest: InternalKey, largest: InternalKey, r: Range)
    requires level < NUM_LEVELS && Covers(smallest, largest, upper + lower) && selected == SelectOverlapping(v[level], r)
    requires forall f :: f in upper ==> f in selected
    requires if level == 0 then Wider(r, UserRange(smallest, largest)) && Closed(v[0], r) else r == UserRange(smallest, largest)
    requires forall u {:trigger InRange(u, r)} :: InRange(u, r) ==> InRange(u, UserRange(smallest, largest)) || Covered(FileSet(selected), u)
    ensures Gapless(FileSet(upper) + FileSet(lower)) ==> Gapless(FileSet(selected) + FileSet(lower))
  {
    var S := FileSet(upper) + FileSet(lower);
    if Gapless(S) {
      var first :| first in upper + lower && first.smallest == smallest;
      var last :| last in upper + lower && last.largest == largest;
      assert first in S && last in S;
      assert S + FileSet(selected) == FileSet(selected) + FileSet(lower);
      if level == 0 {
        forall f | f in S ensures Inside(f, r) {
          assert f in upper + lower;
        }
        SelectionGapless(S, smallest, largest, selected, r);
      } else {
        GrowGapless(S, S + FileSet(selected));
      }
    }
  }

  // Take more upper files if the lower files stay the same and the total stays small.
  method ExpandInputs(v: Version, level: nat, upper0: seq<File>, lower: seq<File>, smallest0: InternalKey, largest0: InternalKey, maxFileSize: nat)
      returns (upper: seq<File>, smallest: InternalKey, largest: InternalKey, ghost expanded: seq<File>)
    requires WfVersion(v) && level + 1 < NUM_LEVELS && lower == SelectOverlapping(v[level + 1], UserRange(smallest0, largest0))
    requires upper0 != [] && lower != [] && FileSet(upper0) <= FileSet(v[level]) && Covers(smallest0, largest0, upper0)
    requires forall f :: f in v[level] ==> WfFile(f)
    requires GoodInputs(Abs(v), Compaction(level, FileSet(upper0), FileSet(lower)))
    requires if level == 0 then Ordered(upper0) else Chained(upper0)
    ensures forall f :: f in upper0 ==> f in upper
    ensures GoodInputs(Abs(v), Compaction(level, FileSet(upper), FileSet(lower)))
    ensures Covers(smallest, largest, upper) && lower == SelectOverlapping(v[level + 1], UserRange(smallest, largest))
    ensures if level == 0 then Ordered(upper) else Chained(upper)
    ensures Gapless(FileSet(upper0) + FileSet(lower)) ==> Gapless(FileSet(upper) + FileSet(lower))
    ensures GrowsTo(v, level, upper0 + lower, expanded)
    ensures upper == if WorthGrowing(v, level, upper0, lower, expanded, maxFileSize) then expanded else upper0
  {
    upper, smallest, largest := upper0, smallest0, largest0;
    var more;
    ghost var top;
    more, top := Expanded(v, level, upper0, lower);
    expanded := more;
    if |more| > |upper| && TotalFileSize(lower) + TotalFileSize(more) < EXPANDED_LIMIT_FILES * maxFileSize {
      var newStart, newLimit := GetRange(more);
      var expandedLower;
      ghost var r;
      expandedLower, r := GetOverlappingInputs(level + 1, v[level + 1], UserRange(newStart, newLimit));
      assert Spans(more, UserRange(newStart, newLimit));
      if |expandedLower| == |lower| {
        WiderFilesWiderRange(upper, smallest, largest, more, newStart, newLimit);
        SelectGrows(v[level + 1], UserRange(newStart, newLimit), UserRange(smallest, largest));
        SelectedInputsAreGood(v, level, more, top, newStart, newLimit);
        upper, smallest, largest := more, newStart, newLimit;
      } else {
        NotWorth(v, level, upper0, lower, more, maxFileSize, newStart, newLimit);
      }
    }
  }

  lemma NotWorth(v: Version, level: nat, upper: seq<File>, lower: seq<File>, expanded: seq<File>, maxFileSize: nat,
                 newStart: InternalKey, newLimit: InternalKey)
    requires level + 1 < NUM_LEVELS && Covers(newStart, newLimit, expanded)
    requires |SelectOverlapping(v[level + 1], UserRange(newStart, newLimit))| != |lower|
    ensures !WorthGrowing(v, level, upper, lower, expanded, maxFileSize)
  {
    forall r | Spans(expanded, r) ensures |SelectOverlapping(v[level + 1], r)| != |lower| {
      OneSpan(expanded, r, newStart, newLimit);
    }
  }

  // Everything of the upper level that overlaps the range of all inputs.
  method Expanded(v: Version, level: nat, upper: seq<File>, lower: seq<File>) returns (expanded: seq<File>, ghost top: InternalKey)
    requires WfVersion(v) && level + 1 < NUM_LEVELS && upper != [] && FileSet(upper) <= FileSet(v[level])
    requires forall f :: f in v[level] ==> WfFile(f)
    ensures forall f :: f in upper ==> f in expanded
    ensures FileSet(expanded) <= FileSet(v[level])
    ensures IsLargest(top, expanded) && forall h :: h in v[level] ==> !IsBoundary(h, top)
    ensures if level == 0 then Ordered(expanded) && Isolated(v[level], expanded)
            else Chained(expanded) && OneSided(FileSet(v[level]), FileSet(expanded))
    ensures Gapless(FileSet(upper) + FileSet(lower)) ==> Gapless(FileSet(expanded) + FileSet(lower))
    ensures GrowsTo(v, level, upper + lower, expanded)
  {
    var allStart, allLimit := GetRange(upper + lower);
    ghost var r;
    expanded, r := GetOverlappingInputs(level, v[level], UserRange(allStart, allLimit));
    UpperIsSelected(v[level], upper, lower, allStart, allLimit, r);
    assert upper[0] in expanded;
    SelectionIsGood(v, level, r);
    assert WfLevel(level, Abs(v)[level]);
    SelectedGapless(v, level, upper, lower, expanded, allStart, allLimit, r);
    assert Spans(upper + lower, UserRange(allStart, allLimit));
    assert Reaches(level, v[level], UserRange(allStart, allLimit), r);
    expanded, top := AddBoundaryInputs(level, v[level], expanded, FileSet(lower));
  }

  // What a range selects of a level is a good start.
  lemma SelectionIsGood(v: Version, level: nat, r: Range)
    requires WfVersion(v) && level < NUM_LEVELS && (level == 0 ==> Closed(v[level], r)) && SelectOverlapping(v[level], r) != []
    ensures GoodStart(level, v[level], SelectOverlapping(v[level], r))
  {
    var s := SelectOverlapping(v[level], r);
    assert FileSet(s) <= FileSet(v[level]);
    if level == 0 {
      SelectOrdered(v[level], r);
      ClosedSelectionIsolated(v[level], r);
    } else {
      assert WfLevel(level, Abs(v)[level]);
      DeepLevelChained(level, v[level]);
      SelectChained(v[level], r);
      SelectionOneSided(level, v[level], r);
    }
  }

  // The files already chosen are among those that overlap the whole range.
  lemma UpperIsSelected(files: seq<File>, upper: seq<File>, lower: seq<File>, allStart: InternalKey, allLimit: InternalKey, r: Range)
    requires FileSet(upper) <= FileSet(files) && (forall f :: f in files ==> WfFile(f))
    requires Covers(allStart, allLimit, upper + lower) && Wider(r, UserRange(allStart, allLimit))
    ensures forall f :: f in upper ==> f in SelectOverlapping(files, r)
  {
    forall f | f in upper ensures f in SelectOverlapping(files, r) {
      assert f in FileSet(upper) && f in upper + lower;
      SmallestNotAboveLargest(f);
    }
  }

  lemma WiderFilesWiderRange(fs: seq<File>, smallest: InternalKey, largest: InternalKey,
                             gs: seq<File>, newStart: InternalKey, newLimit: InternalKey)
    requires Covers(smallest, largest, fs) && Covers(newStart, newLimit, gs)
    requires forall f :: f in fs ==> f in gs
    ensures Wider(UserRange(newStart, newLimit), UserRange(smallest, largest))
  {
  }
}
