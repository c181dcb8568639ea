// A memtable may be flushed while a compaction is running
// (db/db_impl.cc, DoCompactionWork calls CompactMemTable inside its loop).

module Interleaving {
  import opened DbFormat
  import opened Levels
  import opened LevelSteps
  import opened CompactionSafety
  import opened VersionSet
  import opened InputSelection
  import opened CompactionPicking
  import opened SortedEntries

  // A file that has its place in a level, whatever its number and range.
  ghost predicate HasPlace(v: Levels, level: nat, f: File) {
    && level < NUM_LEVELS && WfFile(f)
    && (forall l, g {:trigger Holds(v, l, g)} :: Holds(v, l, g) ==>
          && g.number != f.number
          && (l < level ==> Newer(g, f)) && (l > level ==> Newer(f, g))
          && (l == level == 0 ==> g.number < f.number && Newer(f, g))
          && (l == level && level > 0 ==> Before(f, g) || Before(g, f)))
  }

  lemma PlacedKeepsLevels(v: Levels, level: nat, f: File)
    requires WfLevels(v) && HasPlace(v, level, f)
    ensures WfLevels(AddFile(v, level, f))
  {
    var w := AddFile(v, level, f);
    assert |w| == NUM_LEVELS;
    forall i, j, x, y | i < j && Holds(w, i, x) && Holds(w, j, y) ensures Newer(x, y) {
      FlushHolds(v, level, f, i, x);
      FlushHolds(v, level, f, j, y);
    }
    forall i, j, x, y | Holds(w, i, x) && Holds(w, j, y) && x.number == y.number ensures i == j && x == y {
      FlushHolds(v, level, f, i, x);
      FlushHolds(v, level, f, j, y);
    }
    forall l | 0 <= l < NUM_LEVELS ensures WfLevel(l, w[l]) {
      PlacedLevelWf(v, level, f, l);
    }
  }

  lemma PlacedLevelWf(v: Levels, level: nat, f: File, l: nat)
    requires WfLevels(v) && HasPlace(v, level, f) && l < NUM_LEVELS
    ensures WfLevel(l, AddFile(v, level, f)[l])
  {
    var w := AddFile(v, level, f);
    assert WfLevel(l, v[l]);
    if l == level {
      forall x, y | x in w[l] && y in w[l] && l == 0 && x.number > y.number ensures Newer(x, y) {
        assert (x != f ==> Holds(v, l, x)) && (y != f ==> Holds(v, l, y));
      }
      forall x, y | x in w[l] && y in w[l] && l > 0 && x != y ensures Before(x, y) || Before(y, x) {
        assert (x != f ==> Holds(v, l, x)) && (y != f ==> Holds(v, l, y));
      }
    }
  }

  // The flushed file was placed looking at the version the compaction started
  // from: newest of all, and below level 0 only where nothing overlaps it.
  ghost predicate FlushedDuring(v: Levels, c: Compaction, out: set<File>, level: nat, f: File) {
    GoodFlush(v, level, f) && forall o :: o in out ==> o.number != f.number
  }

  ghost predicate ApartFromOutputs(c: Compaction, out: set<File>, level: nat, f: File) {
    level == c.level + 1 ==> forall o {:trigger o in out} :: o in out ==> Before(o, f) || Before(f, o)
  }

  // The compaction's own files are untouched by the flush, so the two commute.
  lemma FlushCommutes(v: Levels, c: Compaction, out: set<File>, level: nat, f: File)
    requires c.level + 1 < NUM_LEVELS && c.upper <= v[c.level] && c.lower <= v[c.level + 1]
    requires FlushedDuring(v, c, out, level, f)
    ensures Install(AddFile(v, level, f), c, out) == AddFile(Install(v, c, out), level, f)
  {
    forall g | g in c.upper ensures g != f { assert Holds(v, c.level, g); }
    forall g | g in c.lower ensures g != f { assert Holds(v, c.level + 1, g); }
    forall l | 0 <= l < NUM_LEVELS ensures Install(AddFile(v, level, f), c, out)[l] == AddFile(Install(v, c, out), level, f)[l] {
    }
  }

  // Every output entry comes from an input whose range the flushed file avoids,
  // or lies above the inputs altogether.
  lemma FlushedAndOutput(v: Levels, c: Compaction, out: set<File>, level: nat, f: File, o: File)
    requires WfLevels(v) && GoodInputs(v, c) && GoodOutputs(v, c, out) && FlushedDuring(v, c, out, level, f) && o in out
    ensures Newer(f, o) && (level > c.level + 1 ==> Newer(o, f))
  {
    forall x, y | x in f.entries && y in o.entries ensures NewerEntry(x, y) && (level > c.level + 1 ==> NewerEntry(y, x)) {
      var g, k := OutputOrigin(v, c, out, o, y);
      assert Newer(f, g) && NewerEntry(x, y);
      if level > c.level + 1 {
        assert Holds(v, k, g) && !RangesOverlap(f, g) && WfFile(g);
        DisjointRangesAreNewer(f, g);
      }
    }
  }

  lemma FlushedHasPlace(v: Levels, c: Compaction, out: set<File>, level: nat, f: File)
    requires WfLevels(v) && GoodInputs(v, c) && GoodOutputs(v, c, out) && FlushedDuring(v, c, out, level, f)
    requires ApartFromOutputs(c, out, level, f)
    ensures HasPlace(Install(v, c, out), level, f)
  {
    var x := Install(v, c, out);
    forall l, g | Holds(x, l, g)
      ensures g.number != f.number && (l < level ==> Newer(g, f)) && (l > level ==> Newer(f, g))
      ensures (l == level == 0 ==> g.number < f.number && Newer(f, g)) && (l == level && level > 0 ==> Before(f, g) || Before(g, f))
    {
      InstallHolds(v, c, out, l, g);
      if l == c.level + 1 && g in out {
        FlushedAndOutput(v, c, out, level, f, g);
      } else {
        assert Holds(v, l, g) && WfFile(g);
        if level > 0 && l <= level {
          assert !RangesOverlap(f, g);
          DisjointRangesAreNewer(f, g);
          EntryBounds(f, f.entries[0]);
          EntryBounds(g, g.entries[0]);
        }
      }
    }
  }

  // Flushing while a compaction runs keeps the levels well formed exactly when
  // the flushed file, if it went to the output level, is apart from the outputs.
  lemma FlushDuringCompaction(v: Levels, c: Compaction, out: set<File>, level: nat, f: File)
    requires WfLevels(v) && GoodInputs(v, c) && GoodOutputs(v, c, out) && FlushedDuring(v, c, out, level, f)
    ensures WfLevels(Install(AddFile(v, level, f), c, out)) <==> ApartFromOutputs(c, out, level, f)
  {
    FlushCommutes(v, c, out, level, f);
    if ApartFromOutputs(c, out, level, f) {
      InstallKeepsLevels(v, c, out);
      FlushedHasPlace(v, c, out, level, f);
      PlacedKeepsLevels(Install(v, c, out), level, f);
    } else {
      var w := AddFile(Install(v, c, out), level, f);
      var o :| o in out && !Before(o, f) && !Before(f, o);
      assert o in w[level] && f in w[level] && o != f;
      assert !WfLevel(level, w[level]);
    }
  }

  // The same before there are outputs: what the compaction will keep lies on one
  // side of a file flushed to its output level.
  ghost predicate KeptOnOneSide(v: Levels, c: Compaction, m: nat, level: nat, f: File) {
    level == c.level + 1 ==>
      (forall e {:trigger e in Kept(v, c, m)} :: e in Kept(v, c, m) ==> e.key.user < f.smallest.user)
      || (forall e {:trigger e in Kept(v, c, m)} :: e in Kept(v, c, m) ==> f.largest.user < e.key.user)
  }

  // However the kept entries are cut into files.
  ghost predicate EveryCutKeepsLevels(v: Levels, c: Compaction, m: nat, level: nat, f: File)
    requires c.level + 1 < NUM_LEVELS
  {
    forall out {:trigger GoodOutputs(v, c, out)} ::
      GoodOutputs(v, c, out) && EntriesOf(out) == Kept(v, c, m) && FlushedDuring(v, c, out, level, f)
      ==> WfLevels(Install(AddFile(v, level, f), c, out))
  }

  lemma OneSideIsApart(v: Levels, c: Compaction, m: nat, out: set<File>, level: nat, f: File)
    requires WfLevels(v) && GoodInputs(v, c) && GoodOutputs(v, c, out) && EntriesOf(out) == Kept(v, c, m)
    requires FlushedDuring(v, c, out, level, f) && KeptOnOneSide(v, c, m, level, f)
    ensures ApartFromOutputs(c, out, level, f)
  {
    EntryBounds(f, f.entries[0]);
    forall o | o in out && level == c.level + 1 ensures Before(o, f) || Before(f, o) {
      assert WfFile(o) && o.entries[0] in Kept(v, c, m) && o.entries[|o.entries| - 1] in Kept(v, c, m);
    }
  }

  lemma KeptIsDistinct(v: Levels, c: Compaction, m: nat)
    requires WfStore(v) && GoodInputs(v, c)
    ensures Distinct(Kept(v, c, m))
  {
    StoredSplit(v, c, {});
    assert Kept(v, c, m) <= Stored(v);
    DistinctPart(Kept(v, c, m), Stored(v));
  }

  // A set of entries as one file.
  lemma AsFile(K: set<Entry>, number: nat) returns (o: File)
    requires Distinct(K) && K != {}
    ensures WfFile(o) && o.number == number && Elements(o.entries) == K
  {
    var es := SortSet(K);
    assert es == [] ==> K == {};
    o := File(number, 0, es[0].key, es[|es| - 1].key, es);
  }

  // All kept entries in one file.
  lemma OneOutput(v: Levels, c: Compaction, m: nat, level: nat, f: File, o: File)
    requires WfLevels(v) && GoodInputs(v, c) && GoodFlush(v, level, f)
    requires WfFile(o) && o.number == f.number + 1 && Elements(o.entries) == Kept(v, c, m)
    ensures EntriesOf({o}) == Kept(v, c, m) && GoodOutputs(v, c, {o}) && FlushedDuring(v, c, {o}, level, f)
  {
    forall e ensures e in EntriesOf({o}) <==> e in Kept(v, c, m) {
      assert o in {o};
    }
    forall l, g | Holds(Remaining(v, c), l, g) ensures o.number != g.number {
      assert Holds(v, l, g);
    }
  }

  lemma SpanningOutput(v: Levels, c: Compaction, m: nat, level: nat, f: File, o: File, a: Entry, b: Entry)
    requires WfLevels(v) && GoodInputs(v, c) && GoodOutputs(v, c, {o}) && FlushedDuring(v, c, {o}, level, f) && level == c.level + 1
    requires a in o.entries && b in o.entries && !(f.largest.user < a.key.user) && !(b.key.user < f.smallest.user)
    ensures !ApartFromOutputs(c, {o}, level, f)
  {
    assert o in {o} && WfFile(o);
    OutputAvoids(v, c, {o}, level, f, o, a);
    OutputAvoids(v, c, {o}, level, f, o, b);
    EntryBounds(o, a);
    EntryBounds(o, b);
  }

  // Before there are outputs: every way of cutting them keeps the levels well
  // formed exactly when the kept entries lie on one side of the flushed file.
  lemma FlushKeepsLevelsForEveryCut(v: Levels, c: Compaction, m: nat, level: nat, f: File)
    requires WfStore(v) && GoodInputs(v, c) && GoodFlush(v, level, f)
    ensures EveryCutKeepsLevels(v, c, m, level, f) <==> KeptOnOneSide(v, c, m, level, f)
  {
    if KeptOnOneSide(v, c, m, level, f) {
      forall out | GoodOutputs(v, c, out) && EntriesOf(out) == Kept(v, c, m) && FlushedDuring(v, c, out, level, f)
        ensures WfLevels(Install(AddFile(v, level, f), c, out))
      {
        OneSideIsApart(v, c, m, out, level, f);
        FlushDuringCompaction(v, c, out, level, f);
      }
    } else {
      var o := SpoilingCut(v, c, m, level, f);
      FlushDuringCompaction(v, c, {o}, level, f);
    }
  }

  lemma SpoilingCut(v: Levels, c: Compaction, m: nat, level: nat, f: File) returns (o: File)
    requires WfStore(v) && GoodInputs(v, c) && GoodFlush(v, level, f) && !KeptOnOneSide(v, c, m, level, f)
    ensures GoodOutputs(v, c, {o}) && EntriesOf({o}) == Kept(v, c, m) && FlushedDuring(v, c, {o}, level, f)
    ensures !ApartFromOutputs(c, {o}, level, f)
  {
    var K := Kept(v, c, m);
    var a :| a in K && !(f.largest.user < a.key.user);
    var b :| b in K && !(b.key.user < f.smallest.user);
    KeptIsDistinct(v, c, m);
    o := AsFile(K, f.number + 1);
    assert a in Elements(o.entries) && b in Elements(o.entries);
    OneOutput(v, c, m, level, f, o);
    SpanningOutput(v, c, m, level, f, o, a, b);
  }

  // What is stored keeps its meaning either way: the flushed entries are newer
  // than everything the compaction touched.  Whether a search still finds them is
  // the next question.
  lemma FlushDuringCompactionStored(v: Levels, c: Compaction, m: nat, out: set<File>, level: nat, f: File, user: UserKey, s: nat)
    requires WfStore(v) && GoodInputs(v, c) && NoResurrection(v, c, m) && EntriesOf(out) == Kept(v, c, m)
    requires FlushedDuring(v, c, out, level, f) && Distinct(Elements(f.entries)) && s >= m
    ensures View(Stored(Install(AddFile(v, level, f), c, out)), user, s) == View(Stored(AddFile(v, level, f)), user, s)
  {
    FlushCommutes(v, c, out, level, f);
    FlushStored(v, level, f);
    FlushStored(Install(v, c, out), level, f);
    CompactionPreservesReads(v, c, m, out);
    StoredSplit(v, c, out);
    var A, S, T := Elements(f.entries), Stored(v), Stored(Install(v, c, out));
    forall x, y | x in A && y in S ensures NewerEntry(x, y) {
      var l, g :| Holds(v, l, g) && y in g.entries;
      assert Newer(f, g);
    }
    assert T <= S;
    DistinctPart(T, S);
    assert NewerSet(A, S) && NewerSet(A, T);
    NewestOfUnion(A, S, user, s);
    NewestOfUnion(A, T, user, s);
    assert View(T, user, s) == View(S, user, s);
  }

  // ---- What a search finds afterwards -----------------------------------

  // The version after the flush and the install, its levels listed in order.
  ghost predicate Installed(v: Levels, c: Compaction, out: set<File>, level: nat, f: File, w: Version) {
    && WfStore(v) && GoodInputs(v, c) && GoodOutputs(v, c, out) && FlushedDuring(v, c, out, level, f)
    && Distinct(Elements(f.entries)) && Abs(w) == Install(AddFile(v, level, f), c, out)
    && forall l :: 0 <= l < NUM_LEVELS ==> Ordered(w[l])
  }

  // Every lookup from the smallest snapshot on finds the newest stored entry.
  ghost predicate FindsNewest(w: Version, m: nat) {
    forall user: UserKey, s: nat {:trigger Search(w, user, s)} :: s >= m ==> Search(w, user, s) == Newest(Stored(Abs(w)), user, s)
  }

  lemma FlushedIsElsewhere(v: Levels, c: Compaction, out: set<File>, level: nat, f: File, w: Version, l: int, g: File)
    requires Installed(v, c, out, level, f, w) && 0 <= l < NUM_LEVELS && g in w[l]
    ensures g != f ==> Newer(f, g)
    ensures g == f ==> l == level
    ensures g != f && g !in out ==> Holds(v, l, g)
    ensures g in out && !Holds(v, l, g) ==> l == c.level + 1
  {
    FlushCommutes(v, c, out, level, f);
    assert Holds(AddFile(Install(v, c, out), level, f), l, g);
    FlushHolds(Install(v, c, out), level, f, l, g);
    if !(g == f && l == level) {
      InstallHolds(v, c, out, l, g);
      if g in out {
        FlushedAndOutput(v, c, out, level, f, g);
      }
    }
  }

  // A flushed file that is not apart lies strictly inside one output.
  lemma Nested(v: Levels, c: Compaction, out: set<File>, level: nat, f: File, o: File)
    requires WfLevels(v) && GoodInputs(v, c) && GoodOutputs(v, c, out) && FlushedDuring(v, c, out, level, f)
    requires level == c.level + 1 && o in out && !Before(o, f) && !Before(f, o)
    ensures o.smallest.user < f.smallest.user && f.largest.user < o.largest.user
    ensures forall x :: x in o.entries ==> !InUserRange(x.key.user, f)
  {
    assert WfFile(o) && WfFile(f);
    forall x | x in o.entries ensures !InUserRange(x.key.user, f) {
      OutputAvoids(v, c, out, level, f, o, x);
    }
    assert !InUserRange(o.entries[0].key.user, f) && !InUserRange(o.entries[|o.entries| - 1].key.user, f);
    EntryBounds(f, f.entries[0]);
    EntryBounds(o, o.entries[0]);
  }

  lemma OutputAvoids(v: Levels, c: Compaction, out: set<File>, level: nat, f: File, o: File, x: Entry)
    requires WfLevels(v) && GoodInputs(v, c) && GoodOutputs(v, c, out) && FlushedDuring(v, c, out, level, f)
    requires level > c.level && o in out && x in o.entries
    ensures !InUserRange(x.key.user, f) && forall e :: e in f.entries ==> e.key.user != x.key.user
  {
    var g, k := OutputOrigin(v, c, out, o, x);
    FlushedElsewhere(v, c, level, f, g, x);
  }

  // Files of the output level other than the two lie on either side of the output.
  lemma OthersApart(v: Levels, c: Compaction, out: set<File>, level: nat, f: File, w: Version, o: File, g: File)
    requires Installed(v, c, out, level, f, w) && level == c.level + 1 && o in out && g in w[level] && g != f && g != o
    ensures WfFile(g) && !Less(g.largest, g.smallest) && (Before(g, o) || Before(o, g))
  {
    FlushedIsElsewhere(v, c, out, level, f, w, level, g);
    InstallKeepsLevels(v, c, out);
    FlushCommutes(v, c, out, level, f);
    assert g in Abs(w)[level] && g in Install(v, c, out)[level] && o in Install(v, c, out)[level];
    assert WfLevel(level, Install(v, c, out)[level]);
    SmallestNotAboveLargest(g);
  }

  // Then the binary search of that level lands on the output for every entry of the file.
  lemma SearchLandsOnOutput(v: Levels, c: Compaction, out: set<File>, level: nat, f: File, w: Version, o: File, e: Entry, s: nat) returns (p: nat)
    requires Installed(v, c, out, level, f, w) && level == c.level + 1 && o in out && !Before(o, f) && !Before(f, o)
    requires e in f.entries && s >= e.key.sequence
    ensures p < |w[level]| && w[level][p] == o && SearchFrom(w[level], SeekKey(e.key.user, s), 0, |w[level]|) == p
  {
    var files, key := w[level], SeekKey(e.key.user, s);
    assert o in Abs(w)[level];
    p :| 0 <= p < |files| && files[p] == o;
    Nested(v, c, out, level, f, o);
    EntryBounds(f, e);
    SmallestNotAboveLargest(o);
    assert Less(o.smallest, key) && Less(key, o.largest) && !Less(f.largest, key);
    forall i | 0 <= i < |files| ensures if i < p then Less(files[i].largest, key) else !Less(files[i].largest, key) {
      var g := files[i];
      if i < p {
        assert BySmallest(g, o);
      } else if i > p {
        assert BySmallest(o, g);
      }
      if i != p && g != f && g != o {
        OthersApart(v, c, out, level, f, w, o, g);
      }
    }
    SearchIsFirst(files, key, 0, |files|, p);
  }

  lemma {:induction false} FoundInFiles(fs: seq<File>, user: UserKey, s: nat) returns (g: File)
    requires SearchFiles(fs, user, s).Some?
    ensures g in fs && SearchFiles(fs, user, s).value in g.entries && SearchFiles(fs, user, s).value.key.user == user
  {
    if SearchEntries(fs[0].entries, user, s).Some? {
      g := fs[0];
    } else {
      g := FoundInFiles(fs[1..], user, s);
    }
  }

  lemma {:induction false} FoundDeeper(v: Version, l: nat, user: UserKey, s: nat) returns (k: nat, g: File)
    requires l <= NUM_LEVELS && SearchDeeper(v, l, user, s).Some?
    ensures var x := SearchDeeper(v, l, user, s).value;
            l <= k < NUM_LEVELS && SearchLevel(v[k], user, s) == Some(x) && g in v[k] && x in g.entries && x.key.user == user
    decreases NUM_LEVELS - l
  {
    if SearchLevel(v[l], user, s).Some? {
      k, g := l, v[l][SearchFrom(v[l], SeekKey(user, s), 0, |v[l]|)];
    } else {
      k, g := FoundDeeper(v, l + 1, user, s);
    }
  }

  // Whatever a search finds is in a file of some level, on which that level's search landed.
  lemma FoundSomewhere(v: Version, user: UserKey, s: nat) returns (k: nat, g: File)
    requires Search(v, user, s).Some?
    ensures var x := Search(v, user, s).value;
            k < NUM_LEVELS && g in v[k] && x in g.entries && x.key.user == user && (k > 0 ==> SearchLevel(v[k], user, s) == Some(x))
  {
    CandidatesAre(v[0], user);
    if SearchFiles(CandidatesOf(v[0], user), user, s).Some? {
      k := 0;
      g := FoundInFiles(CandidatesOf(v[0], user), user, s);
    } else {
      k, g := FoundDeeper(v, 1, user, s);
    }
  }

  // Every entry of a flushed file that is not apart is lost to readers: it is the
  // newest stored one at its snapshot, and no search returns it.
  lemma FlushedIsLost(v: Levels, c: Compaction, out: set<File>, level: nat, f: File, w: Version, e: Entry, s: nat)
    requires Installed(v, c, out, level, f, w) && !ApartFromOutputs(c, out, level, f)
    requires e in f.entries && s >= e.key.sequence
    ensures Newest(Stored(Abs(w)), e.key.user, s).Some? && Newest(Stored(Abs(w)), e.key.user, s).value in f.entries
    ensures Search(w, e.key.user, s) != Newest(Stored(Abs(w)), e.key.user, s)
  {
    var user := e.key.user;
    var o :| o in out && !Before(o, f) && !Before(f, o);
    var p := SearchLandsOnOutput(v, c, out, level, f, w, o, e, s);
    forall x | x in o.entries ensures x.key.user != user {
      OutputAvoids(v, c, out, level, f, o, x);
    }
    assert SearchLevel(w[level], user, s) == None;
    NewestIsFlushed(v, c, out, level, f, w, e, s);
    if Search(w, user, s).Some? {
      var k, g := FoundSomewhere(w, user, s);
      FlushedIsElsewhere(v, c, out, level, f, w, k, g);
      assert NewerEntry(e, Search(w, user, s).value);
    }
  }

  lemma NewestIsFlushed(v: Levels, c: Compaction, out: set<File>, level: nat, f: File, w: Version, e: Entry, s: nat)
    requires Installed(v, c, out, level, f, w) && e in f.entries && s >= e.key.sequence
    ensures var newest := Newest(Stored(Abs(w)), e.key.user, s);
            newest.Some? && newest.value in f.entries && newest.value.key.sequence >= e.key.sequence
  {
    FlushCommutes(v, c, out, level, f);
    FlushStored(Install(v, c, out), level, f);
    assert e in Stored(Abs(w)) && Sees(e, e.key.user, s);
    var newest := Newest(Stored(Abs(w)), e.key.user, s);
    var l, h :| Holds(Abs(w), l, h) && newest.value in h.entries;
    FlushedIsElsewhere(v, c, out, level, f, w, l, h);
    assert h != f ==> NewerEntry(e, newest.value);
  }

  lemma InstalledIsWf(v: Levels, c: Compaction, out: set<File>, level: nat, f: File, w: Version)
    requires Installed(v, c, out, level, f, w) && ApartFromOutputs(c, out, level, f)
    ensures WfVersion(w)
  {
    FlushDuringCompaction(v, c, out, level, f);
    FlushCommutes(v, c, out, level, f);
    InstallKeepsStore(v, c, out);
    FlushStored(Install(v, c, out), level, f);
    forall x, y | x in Stored(Abs(w)) && y in Stored(Abs(w)) && SameVersion(x, y) ensures x == y {
      if x in f.entries && y !in f.entries {
        FlushedNewer(v, c, out, level, f, w, x, y);
      } else if y in f.entries && x !in f.entries {
        FlushedNewer(v, c, out, level, f, w, y, x);
      }
    }
  }

  lemma FlushedNewer(v: Levels, c: Compaction, out: set<File>, level: nat, f: File, w: Version, x: Entry, y: Entry)
    requires Installed(v, c, out, level, f, w) && x in f.entries && y !in f.entries && y in Stored(Abs(w))
    ensures NewerEntry(x, y)
  {
    var l, g :| Holds(Abs(w), l, g) && y in g.entries;
    FlushedIsElsewhere(v, c, out, level, f, w, l, g);
  }

  // After a flush in the middle of a compaction, lookups find the newest stored
  // entries exactly when the flushed file is apart from the outputs of its level.
  lemma FlushDuringCompactionSearch(v: Levels, c: Compaction, out: set<File>, level: nat, f: File, w: Version, m: nat)
    requires Installed(v, c, out, level, f, w)
    ensures FindsNewest(w, m) <==> ApartFromOutputs(c, out, level, f)
  {
    if ApartFromOutputs(c, out, level, f) {
      InstalledIsWf(v, c, out, level, f, w);
      forall user: UserKey, s: nat | s >= m ensures Search(w, user, s) == Newest(Stored(Abs(w)), user, s) {
        SearchIsNewest(w, user, s);
      }
    } else {
      var e := f.entries[0];
      var s := if m < e.key.sequence then e.key.sequence else m;
      FlushedIsLost(v, c, out, level, f, w, e, s);
    }
  }

  // ---- Automatic compactions are always safe ----------------------------

  // Inputs without gaps leave no room for a flushed file between them.
  lemma GaplessKeepsApart(v: Levels, c: Compaction, out: set<File>, level: nat, f: File)
    requires WfLevels(v) && GoodInputs(v, c) && GoodOutputs(v, c, out) && FlushedDuring(v, c, out, level, f)
    requires Gapless(c.Inputs())
    ensures ApartFromOutputs(c, out, level, f)
  {
    if level == c.level + 1 {
      forall o | o in out ensures Before(o, f) || Before(f, o) {
        EntryBounds(f, f.entries[0]);
        var first, last := o.entries[0], o.entries[|o.entries| - 1];
        var g, i := OutputOrigin(v, c, out, o, first);
        var h, j := OutputOrigin(v, c, out, o, last);
        assert WfFile(g) && WfFile(h) && WfFile(o);
        EntryBounds(g, first);
        EntryBounds(h, last);
        EntryBounds(o, first);
        if f.smallest.user <= o.largest.user && o.smallest.user <= f.largest.user {
          var u := if f.smallest.user >= o.smallest.user then f.smallest.user else o.smallest.user;
          assert StartsBy(c.Inputs(), u) && EndsAfter(c.Inputs(), u);
          assert Covered(c.Inputs(), u);
          var x :| x in c.Inputs() && InUserRange(u, x);
          assert Holds(v, c.level, x) || Holds(v, c.level + 1, x);
          assert RangesOverlap(f, x);
        }
      }
    }
  }

  // The flushed file lies on one side of gapless inputs.
  lemma OnOneSide(v: Levels, c: Compaction, level: nat, f: File)
    requires WfLevels(v) && c.level + 1 < NUM_LEVELS && c.upper <= v[c.level] && c.lower <= v[c.level + 1]
    requires GoodFlush(v, level, f) && level == c.level + 1 && Gapless(c.Inputs())
    ensures (forall x :: x in c.Inputs() ==> Before(f, x)) || (forall x :: x in c.Inputs() ==> Before(x, f))
  {
    EntryBounds(f, f.entries[0]);
    forall x | x in c.Inputs() ensures WfFile(x) && x.smallest.user <= x.largest.user && !RangesOverlap(f, x) {
      assert Holds(v, c.level, x) || Holds(v, c.level + 1, x);
      assert WfLevel(c.level, v[c.level]) && WfLevel(c.level + 1, v[c.level + 1]);
      EntryBounds(x, x.entries[0]);
    }
    if x, y :| x in c.Inputs() && y in c.Inputs() && !Before(f, x) && !Before(y, f) {
      var u := f.smallest.user;
      assert StartsBy(c.Inputs(), u) && EndsAfter(c.Inputs(), u) && Covered(c.Inputs(), u);
      var z :| z in c.Inputs() && InUserRange(u, z);
      assert RangesOverlap(f, z);
    }
  }

  lemma FlushKeepsInputs(v: Levels, c: Compaction, level: nat, f: File)
    requires WfLevels(v) && GoodInputs(v, c) && GoodFlush(v, level, f) && Gapless(c.Inputs())
    ensures GoodInputs(AddFile(v, level, f), c)
  {
    var w := AddFile(v, level, f);
    forall x, g | x in c.upper && g in w[c.level] && g !in c.upper ensures Newer(g, x) {
      assert Holds(v, c.level, x);
      assert g == f ==> Newer(f, x);
    }
    forall x, g | x in c.upper && g in w[c.level + 1] && g !in c.lower ensures !RangesOverlap(x, g) {
      assert Holds(v, c.level, x);
      assert g == f && g !in v[c.level + 1] ==> !RangesOverlap(f, x);
    }
    if level == c.level + 1 {
      OnOneSide(v, c, level, f);
    }
  }

  // No input entry shares its user key with a file flushed to a deeper level.
  lemma FlushedElsewhere(v: Levels, c: Compaction, level: nat, f: File, x: File, t: Entry)
    requires WfLevels(v) && GoodInputs(v, c) && GoodFlush(v, level, f) && level > c.level
    requires x in c.Inputs() && t in x.entries
    ensures !InUserRange(t.key.user, f)
    ensures forall e :: e in f.entries ==> e.key.user != t.key.user
  {
    assert Holds(v, c.level, x) || Holds(v, c.level + 1, x);
    assert WfLevel(c.level, v[c.level]) && WfLevel(c.level + 1, v[c.level + 1]);
    EntryBounds(x, t);
    if level == c.level + 1 || x in c.upper || x in c.lower {
      assert !RangesOverlap(f, x);
    }
    forall e | e in f.entries ensures e.key.user != t.key.user {
      EntryBounds(f, e);
    }
  }

  lemma FlushKeepsObsolete(v: Levels, c: Compaction, m: nat, level: nat, f: File, x: File, t: Entry)
    requires WfLevels(v) && GoodInputs(v, c) && GoodFlush(v, level, f) && x in c.Inputs() && t in x.entries
    ensures Obsolete(AddFile(v, level, f), c.level, t, m) <==> Obsolete(v, c.level, t, m)
  {
    var w := AddFile(v, level, f);
    if level >= c.level + 2 {
      FlushedElsewhere(v, c, level, f, x, t);
    }
    forall l, g | l >= c.level + 2 && Holds(w, l, g) && InUserRange(t.key.user, g) ensures Holds(v, l, g) {
      FlushHolds(v, level, f, l, g);
    }
    forall l, g | l >= c.level + 2 && Holds(v, l, g) ensures Holds(w, l, g) {
    }
  }

  lemma FlushKeepsKept(v: Levels, c: Compaction, m: nat, level: nat, f: File)
    requires WfLevels(v) && GoodInputs(v, c) && GoodFlush(v, level, f)
    ensures Kept(AddFile(v, level, f), c, m) == Kept(v, c, m)
  {
    forall t | t in EntriesOf(c.Inputs()) ensures t in Kept(AddFile(v, level, f), c, m) <==> t in Kept(v, c, m) {
      var x :| x in c.Inputs() && t in x.entries;
      FlushKeepsObsolete(v, c, m, level, f, x, t);
    }
  }

  lemma FlushKeepsNoResurrection(v: Levels, c: Compaction, m: nat, level: nat, f: File)
    requires WfStore(v) && GoodInputs(v, c) && GoodFlush(v, level, f) && NoResurrection(v, c, m)
    ensures NoResurrection(AddFile(v, level, f), c, m)
  {
    var w := AddFile(v, level, f);
    FlushStored(v, level, f);
    forall t | t in EntriesOf(c.Inputs()) && Obsolete(w, c.level, t, m) && IsNewest(Stored(w), t.key.user, m, t)
      ensures View(LeftBelow(w, c), t.key.user, m).None?
    {
      var x :| x in c.Inputs() && t in x.entries;
      FlushKeepsObsolete(v, c, m, level, f, x, t);
      assert t in Stored(v) by {
        assert Holds(v, c.level, x) || Holds(v, c.level + 1, x);
      }
      assert IsNewest(Stored(v), t.key.user, m, t);
      LeftBelowSame(v, c, level, f, x, t, m);
    }
  }

  lemma LeftBelowSame(v: Levels, c: Compaction, level: nat, f: File, x: File, t: Entry, m: nat)
    requires WfStore(v) && GoodInputs(v, c) && GoodFlush(v, level, f) && x in c.Inputs() && t in x.entries
    requires View(LeftBelow(v, c), t.key.user, m).None?
    ensures View(LeftBelow(AddFile(v, level, f), c), t.key.user, m).None?
  {
    var A, B, user := LeftBelow(v, c), LeftBelow(AddFile(v, level, f), c), t.key.user;
    var r := Newest(B, user, m);
    if r.Some? {
      StaysLeftBelow(v, c, level, f, x, t, r.value);
      PartBelow(v, c, level, f);
      NewestOfPart(A, B, user, m, r.value);
    }
  }

  lemma PartBelow(v: Levels, c: Compaction, level: nat, f: File)
    requires WfStore(v) && c.level + 1 < NUM_LEVELS && level < NUM_LEVELS
    ensures Distinct(LeftBelow(v, c)) && LeftBelow(v, c) <= LeftBelow(AddFile(v, level, f), c)
  {
    LeftBelowStored(v, c);
    DistinctPart(LeftBelow(v, c), Stored(v));
    assert v[c.level + 1] - c.lower <= AddFile(v, level, f)[c.level + 1] - c.lower;
  }

  // What the flushed file adds below is of another user key.
  lemma StaysLeftBelow(v: Levels, c: Compaction, level: nat, f: File, x: File, t: Entry, e: Entry)
    requires WfStore(v) && GoodInputs(v, c) && GoodFlush(v, level, f) && x in c.Inputs() && t in x.entries
    requires e in LeftBelow(AddFile(v, level, f), c) && e.key.user == t.key.user
    ensures e in LeftBelow(v, c)
  {
    var w := AddFile(v, level, f);
    var g :| g in w[c.level + 1] - c.lower && e in g.entries;
    if level == c.level + 1 {
      FlushedElsewhere(v, c, level, f, x, t);
    }
    assert g in v[c.level + 1] - c.lower;
  }

  lemma NewestOfPart(A: set<Entry>, B: set<Entry>, user: UserKey, m: nat, e: Entry)
    requires Distinct(A) && A <= B && e in A && IsNewest(B, user, m, e)
    ensures Newest(A, user, m) == Some(e)
  {
    assert IsNewest(A, user, m, e);
    NewestIs(A, user, m, e);
  }

  lemma LeftBelowStored(v: Levels, c: Compaction)
    requires c.level + 1 < NUM_LEVELS
    ensures LeftBelow(v, c) <= Stored(v)
  {
    forall e | e in LeftBelow(v, c) ensures e in Stored(v) {
      var g :| g in v[c.level + 1] - c.lower && e in g.entries;
      assert Holds(v, c.level + 1, g);
    }
  }

  // An automatic compaction computed against an older version is still a legal
  // compaction of the version a flush has replaced it with, with the same result.
  lemma FlushKeepsCompaction(v: Levels, c: Compaction, m: nat, out: set<File>, level: nat, f: File)
    requires WfStore(v) && GoodInputs(v, c) && Gapless(c.Inputs()) && GoodOutputs(v, c, out) && EntriesOf(out) == Kept(v, c, m)
    requires NoResurrection(v, c, m) && FlushedDuring(v, c, out, level, f)
    ensures GoodInputs(AddFile(v, level, f), c) && GoodOutputs(AddFile(v, level, f), c, out)
    ensures EntriesOf(out) == Kept(AddFile(v, level, f), c, m) && NoResurrection(AddFile(v, level, f), c, m)
  {
    FlushKeepsInputs(v, c, level, f);
    FlushKeepsKept(v, c, m, level, f);
    FlushKeepsNoResurrection(v, c, m, level, f);
    FlushKeepsOutputs(v, c, out, level, f);
  }

  lemma FlushKeepsOutputs(v: Levels, c: Compaction, out: set<File>, level: nat, f: File)
    requires WfLevels(v) && GoodInputs(v, c) && GoodOutputs(v, c, out) && FlushedDuring(v, c, out, level, f)
    ensures GoodOutputs(AddFile(v, level, f), c, out)
  {
    var w := AddFile(v, level, f);
    forall o, l, g | o in out && Holds(Remaining(w, c), l, g) ensures o.number != g.number {
      assert Holds(w, l, g);
      FlushHolds(v, level, f, l, g);
      if g != f {
        assert Holds(Remaining(v, c), l, g);
      }
    }
  }

  // ---- Manual compactions are not ---------------------------------------

  // Level 1 holds user keys 1 and 5 in two files; a memtable with user key 3
  // is flushed to level 2 while a manual compaction merges the two.
  const ROOM_LEFT := GapFile(10, [GapEntry(1.0, 5, Value)])
  const ROOM_RIGHT := GapFile(11, [GapEntry(5.0, 6, Value)])
  const ROOM_VERSION: Version := [[], [ROOM_LEFT, ROOM_RIGHT], [], [], [], [], []]
  const ROOM_OUTPUT := GapFile(12, [GapEntry(1.0, 5, Value), GapEntry(5.0, 6, Value)])
  const ROOM_FLUSHED := GapFile(13, [GapEntry(3.0, 9, Value)])
  const ROOM_COMPACTION := Compaction(1, {ROOM_LEFT, ROOM_RIGHT}, {})

  lemma RoomHolds(l: int, f: File)
    requires Holds(Abs(ROOM_VERSION), l, f)
    ensures l == 1 && (f == ROOM_LEFT || f == ROOM_RIGHT)
  {
    assert f in ROOM_VERSION[l];
  }

  lemma RoomFilesAreWf()
    ensures WfFile(ROOM_LEFT) && WfFile(ROOM_RIGHT) && WfFile(ROOM_OUTPUT) && WfFile(ROOM_FLUSHED)
    ensures Before(ROOM_LEFT, ROOM_RIGHT)
  {
    var es := ROOM_OUTPUT.entries;
    forall i, j | 0 <= i < j < |es| ensures Less(es[i].key, es[j].key) {
      assert i == 0 && j == 1;
    }
  }

  lemma RoomLevelsAreWf()
    ensures WfLevels(Abs(ROOM_VERSION))
  {
    var a := Abs(ROOM_VERSION);
    RoomFilesAreWf();
    forall l | 0 <= l < NUM_LEVELS ensures WfLevel(l, a[l]) {
      forall f | f in a[l] ensures l == 1 && (f == ROOM_LEFT || f == ROOM_RIGHT) {
        assert Holds(a, l, f);
        RoomHolds(l, f);
      }
    }
    forall i, j, f, g | Holds(a, i, f) && Holds(a, j, g) ensures i == j && (f.number == g.number ==> f == g) {
      RoomHolds(i, f);
      RoomHolds(j, g);
    }
  }

  lemma RoomInputsAreGood()
    ensures GoodInputs(Abs(ROOM_VERSION), ROOM_COMPACTION) && !Gapless(ROOM_COMPACTION.Inputs())
    ensures GoodOutputs(Abs(ROOM_VERSION), ROOM_COMPACTION, {ROOM_OUTPUT})
  {
    var a, c := Abs(ROOM_VERSION), ROOM_COMPACTION;
    assert FileSet(ROOM_VERSION[1]) == {ROOM_LEFT, ROOM_RIGHT} && FileSet(ROOM_VERSION[2]) == {};
    RoomFilesAreWf();
    assert ROOM_LEFT in c.Inputs() && ROOM_RIGHT in c.Inputs();
    assert StartsBy(c.Inputs(), 3.0) && EndsAfter(c.Inputs(), 3.0) && !Covered(c.Inputs(), 3.0);
    forall e | e in EntriesOf({ROOM_OUTPUT}) ensures e in EntriesOf(c.Inputs()) {
      assert ROOM_LEFT.entries == [GapEntry(1.0, 5, Value)] && ROOM_RIGHT.entries == [GapEntry(5.0, 6, Value)];
      assert e == ROOM_LEFT.entries[0] || e == ROOM_RIGHT.entries[0];
    }
    forall l, g ensures !Holds(Remaining(a, c), l, g) {
      if Holds(a, l, g) {
        RoomHolds(l, g);
      }
    }
  }

  lemma RoomFlushIsGood()
    ensures FlushedDuring(Abs(ROOM_VERSION), ROOM_COMPACTION, {ROOM_OUTPUT}, 2, ROOM_FLUSHED)
  {
    RoomFilesAreWf();
    forall l, g | Holds(Abs(ROOM_VERSION), l, g)
      ensures g.number < 13 && Newer(ROOM_FLUSHED, g) && !RangesOverlap(ROOM_FLUSHED, g)
    {
      RoomHolds(l, g);
    }
  }

  lemma RoomSelected()
    ensures SelectOverlapping(ROOM_VERSION[1], Range(None, None)) == [ROOM_LEFT, ROOM_RIGHT]
  {
    assert ROOM_VERSION[1] == [ROOM_LEFT, ROOM_RIGHT] && ROOM_VERSION[1][..1] == [ROOM_LEFT] && ROOM_VERSION[1][..1][..0] == [];
  }

  lemma RoomClear()
    ensures ClearDownTo(ROOM_VERSION, 2, UserRange(ROOM_FLUSHED.smallest, ROOM_FLUSHED.largest))
  {
    forall l, f | 0 <= l <= 2 && f in ROOM_VERSION[l] ensures Outside(f, UserRange(ROOM_FLUSHED.smallest, ROOM_FLUSHED.largest)) {
      assert Holds(Abs(ROOM_VERSION), l, f);
      RoomHolds(l, f);
    }
  }

  // A manual compaction of everything selects both files, the memtable may go to
  // level 2, and the result is a level with overlapping files.
  lemma ManualCompactionLeavesRoom()
    ensures WfLevels(Abs(ROOM_VERSION))
    ensures SelectOverlapping(ROOM_VERSION[1], Range(None, None)) == [ROOM_LEFT, ROOM_RIGHT]
    ensures GoodInputs(Abs(ROOM_VERSION), ROOM_COMPACTION)
    ensures GoodOutputs(Abs(ROOM_VERSION), ROOM_COMPACTION, {ROOM_OUTPUT})
    ensures ClearDownTo(ROOM_VERSION, 2, UserRange(ROOM_FLUSHED.smallest, ROOM_FLUSHED.largest))
    ensures !WfLevels(Install(AddFile(Abs(ROOM_VERSION), 2, ROOM_FLUSHED), ROOM_COMPACTION, {ROOM_OUTPUT}))
  {
    RoomLevelsAreWf();
    RoomInputsAreGood();
    RoomFlushIsGood();
    RoomSelected();
    RoomClear();
    FlushDuringCompaction(Abs(ROOM_VERSION), ROOM_COMPACTION, {ROOM_OUTPUT}, 2, ROOM_FLUSHED);
    assert ROOM_OUTPUT in {ROOM_OUTPUT} && !Before(ROOM_OUTPUT, ROOM_FLUSHED) && !Before(ROOM_FLUSHED, ROOM_OUTPUT);
  }

  // The version that results, and what is looked up in it: the flushed write is
  // lost, and so is the write that ends the output, which the search passes by.
  const ROOM_RESULT: Version := [[], [], [ROOM_OUTPUT, ROOM_FLUSHED], [], [], [], []]

  lemma RoomResult()
    ensures Abs(ROOM_RESULT) == Install(AddFile(Abs(ROOM_VERSION), 2, ROOM_FLUSHED), ROOM_COMPACTION, {ROOM_OUTPUT})
    ensures ROOM_OUTPUT != ROOM_FLUSHED && forall l :: 0 <= l < NUM_LEVELS ==> Ordered(ROOM_RESULT[l])
  {
    var a, b := Abs(ROOM_RESULT), Install(AddFile(Abs(ROOM_VERSION), 2, ROOM_FLUSHED), ROOM_COMPACTION, {ROOM_OUTPUT});
    assert FileSet(ROOM_VERSION[1]) == {ROOM_LEFT, ROOM_RIGHT} && FileSet(ROOM_VERSION[2]) == {};
    forall l | 0 <= l < NUM_LEVELS ensures a[l] == b[l] && Ordered(ROOM_RESULT[l]) {
      if l == 2 {
        assert BySmallest(ROOM_OUTPUT, ROOM_FLUSHED);
      }
    }
  }

  lemma RoomSearch(user: UserKey, s: nat)
    requires user == 3.0 || user == 5.0
    ensures Search(ROOM_RESULT, user, s) == None
  {
    var files, key := [ROOM_OUTPUT, ROOM_FLUSHED], SeekKey(user, s);
    assert ROOM_RESULT[2] == files && ROOM_RESULT[0] == [];
    assert SearchFrom(files, key, 0, 2) == if Less(ROOM_FLUSHED.largest, key) then 2 else 0;
    assert ROOM_OUTPUT.entries[1..][1..] == [] && ROOM_OUTPUT.entries[1..][0] == GapEntry(5.0, 6, Value);
    assert SearchLevel(files, user, s) == None;
    forall l: nat | l < NUM_LEVELS ensures SearchLevel(ROOM_RESULT[l], user, s) == None {
    }
    RoomDeeper(1, user, s);
  }

  lemma {:induction false} RoomDeeper(l: nat, user: UserKey, s: nat)
    requires l <= NUM_LEVELS && forall k: nat :: k < NUM_LEVELS ==> SearchLevel(ROOM_RESULT[k], user, s) == None
    ensures SearchDeeper(ROOM_RESULT, l, user, s) == None
    decreases NUM_LEVELS - l
  {
    if l < NUM_LEVELS {
      RoomDeeper(l + 1, user, s);
    }
  }

  lemma WritesAreLost()
    ensures Abs(ROOM_RESULT) == Install(AddFile(Abs(ROOM_VERSION), 2, ROOM_FLUSHED), ROOM_COMPACTION, {ROOM_OUTPUT})
    ensures Search(ROOM_RESULT, 3.0, 9) == None && Newest(Stored(Abs(ROOM_RESULT)), 3.0, 9) == Some(GapEntry(3.0, 9, Value))
    ensures Search(ROOM_RESULT, 5.0, 9) == None && Newest(Stored(Abs(ROOM_RESULT)), 5.0, 9) == Some(GapEntry(5.0, 6, Value))
  {
    RoomResult();
    RoomSearch(3.0, 9);
    RoomSearch(5.0, 9);
    RoomNewest(GapEntry(3.0, 9, Value));
    RoomNewest(GapEntry(5.0, 6, Value));
  }

  lemma RoomStored(e: Entry)
    ensures e in Stored(Abs(ROOM_RESULT)) <==> e in [GapEntry(1.0, 5, Value), GapEntry(5.0, 6, Value), GapEntry(3.0, 9, Value)]
  {
    var a := Abs(ROOM_RESULT);
    assert ROOM_OUTPUT.entries == [GapEntry(1.0, 5, Value), GapEntry(5.0, 6, Value)] && ROOM_FLUSHED.entries == [GapEntry(3.0, 9, Value)];
    assert Holds(a, 2, ROOM_OUTPUT) && Holds(a, 2, ROOM_FLUSHED);
    assert ROOM_OUTPUT.entries[0] in Stored(a) && ROOM_OUTPUT.entries[1] in Stored(a) && ROOM_FLUSHED.entries[0] in Stored(a);
    if e in Stored(a) {
      var l, g :| Holds(a, l, g) && e in g.entries;
      assert g in ROOM_RESULT[l];
    }
  }

  lemma RoomNewest(e: Entry)
    requires e == GapEntry(3.0, 9, Value) || e == GapEntry(5.0, 6, Value)
    ensures Newest(Stored(Abs(ROOM_RESULT)), e.key.user, 9) == Some(e)
  {
    var S := Stored(Abs(ROOM_RESULT));
    RoomStored(e);
    var r := Newest(S, e.key.user, 9);
    assert Sees(e, e.key.user, 9);
    RoomStored(r.value);
  }
}
