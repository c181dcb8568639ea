// Each step on the levels keeps them well formed: upper data newer, deeper
// levels disjoint (db/version_set.cc, db/db_impl.cc).

module LevelSteps {
  import opened DbFormat
  import opened Levels

  // ---- Compaction -------------------------------------------------------

  lemma InstallHolds(v: Levels, c: Compaction, out: set<File>, l: int, f: File)
    requires c.level + 1 < NUM_LEVELS
    requires Holds(Install(v, c, out), l, f)
    ensures (l == c.level + 1 && f in out) || (Holds(v, l, f) && Holds(Remaining(v, c), l, f))
  {
  }

  // An entry written back comes from an input file.
  lemma OutputOrigin(v: Levels, c: Compaction, out: set<File>, o: File, x: Entry) returns (f: File, k: int)
    requires c.level + 1 < NUM_LEVELS && c.upper <= v[c.level] && c.lower <= v[c.level + 1]
    requires EntriesOf(out) <= EntriesOf(c.Inputs()) && o in out && x in o.entries
    ensures f in c.Inputs() && x in f.entries && Holds(v, k, f) && k == (if f in c.upper then c.level else c.level + 1)
  {
    assert x in EntriesOf(out);
    assert x in EntriesOf(c.Inputs());
    f :| f in c.Inputs() && x in f.entries;
    k := if f in c.upper then c.level else c.level + 1;
  }

  lemma OutputOlderThanUpper(v: Levels, c: Compaction, out: set<File>, o: File, l: int, g: File)
    requires WfLevels(v) && GoodInputs(v, c) && EntriesOf(out) <= EntriesOf(c.Inputs()) && o in out
    requires Holds(Remaining(v, c), l, g) && l <= c.level
    ensures Newer(g, o)
  {
    forall y, x | y in g.entries && x in o.entries ensures NewerEntry(y, x) {
      var f, k := OutputOrigin(v, c, out, o, x);
      assert Holds(v, l, g);
      assert Newer(g, f);
      assert NewerEntry(y, x);
    }
  }

  lemma OutputNewerThanLower(v: Levels, c: Compaction, out: set<File>, o: File, l: int, g: File)
    requires WfLevels(v) && GoodInputs(v, c) && EntriesOf(out) <= EntriesOf(c.Inputs()) && o in out
    requires Holds(v, l, g) && l > c.level + 1
    ensures Newer(o, g)
  {
    forall x, y | x in o.entries && y in g.entries ensures NewerEntry(x, y) {
      var f, k := OutputOrigin(v, c, out, o, x);
      assert Newer(f, g);
      assert NewerEntry(x, y);
    }
  }

  lemma OutputApart(v: Levels, c: Compaction, out: set<File>, o: File, g: File)
    requires WfLevels(v) && GoodInputs(v, c) && EntriesOf(out) <= EntriesOf(c.Inputs()) && o in out && WfFile(o)
    requires g in v[c.level + 1] && g !in c.lower
    ensures Before(o, g) || Before(g, o)
  {
    var first, last := o.entries[0], o.entries[|o.entries| - 1];
    var f0, k0 := OutputOrigin(v, c, out, o, first);
    var f1, k1 := OutputOrigin(v, c, out, o, last);
    assert WfFile(f0) && WfFile(f1);
    EntryBounds(f0, first);
    EntryBounds(f1, last);
    EntryBounds(o, first);
    assert !Less(o.largest, o.smallest);
  }

  // The level written to stays disjoint, every other relation between the
  // levels is kept.
  lemma InstallKeepsLevels(v: Levels, c: Compaction, out: set<File>)
    requires WfLevels(v) && GoodInputs(v, c) && GoodOutputs(v, c, out)
    ensures WfLevels(Install(v, c, out))
  {
    var w := Install(v, c, out);
    assert |w| == NUM_LEVELS;
    forall i, j, f, g | i < j && Holds(w, i, f) && Holds(w, j, g) ensures Newer(f, g) {
      InstallHolds(v, c, out, i, f);
      InstallHolds(v, c, out, j, g);
      if i == c.level + 1 && f in out {
        OutputNewerThanLower(v, c, out, f, j, g);
      } else if j == c.level + 1 && g in out {
        OutputOlderThanUpper(v, c, out, g, i, f);
      }
    }
    forall i, j, f, g | Holds(w, i, f) && Holds(w, j, g) && f.number == g.number ensures i == j && f == g {
      InstallHolds(v, c, out, i, f);
      InstallHolds(v, c, out, j, g);
    }
    forall l | 0 <= l < NUM_LEVELS ensures WfLevel(l, w[l]) {
      if l == c.level + 1 {
        OutputLevelWf(v, c, out);
      } else {
        assert WfLevel(l, v[l]) && w[l] <= v[l];
      }
    }
  }

  lemma OutputLevelWf(v: Levels, c: Compaction, out: set<File>)
    requires WfLevels(v) && GoodInputs(v, c) && GoodOutputs(v, c, out)
    ensures WfLevel(c.level + 1, Install(v, c, out)[c.level + 1])
  {
    var l, files := c.level + 1, v[c.level + 1] - c.lower + out;
    assert WfLevel(l, v[l]);
    forall f, g | f in files && g in files && f != g ensures Before(f, g) || Before(g, f) {
      if f in out && g !in out {
        OutputApart(v, c, out, f, g);
      } else if f !in out && g in out {
        OutputApart(v, c, out, g, f);
      }
    }
  }

  lemma InstallKeepsStore(v: Levels, c: Compaction, out: set<File>)
    requires WfStore(v) && GoodInputs(v, c) && GoodOutputs(v, c, out)
    ensures WfStore(Install(v, c, out))
    ensures Stored(Install(v, c, out)) <= Stored(v)
  {
    InstallKeepsLevels(v, c, out);
    StoredSplit(v, c, out);
    DistinctPart(Stored(Install(v, c, out)), Stored(v));
  }

  lemma DistinctPart(S: set<Entry>, T: set<Entry>)
    requires Distinct(T) && S <= T
    ensures Distinct(S)
  {
  }

  // A trivial move is an install of the one input, unread, one level down.
  lemma MoveIsInstall(v: Levels, level: nat, f: File)
    requires WfStore(v) && GoodInputs(v, Compaction(level, {f}, {}))
    ensures WfStore(Install(v, Compaction(level, {f}, {}), {f}))
    ensures Stored(Install(v, Compaction(level, {f}, {}), {f})) == Stored(v)
  {
    var c := Compaction(level, {f}, {});
    assert f in c.upper && f in v[level] && Holds(v, level, f);
    assert c.Inputs() == {f};
    forall l, g | Holds(Remaining(v, c), l, g) ensures g.number != f.number {
      assert Holds(v, l, g);
    }
    StoredSplit(v, c, {f});
    InstallKeepsStore(v, c, {f});
  }

  // ---- Flush ------------------------------------------------------------

  ghost function AddFile(v: Levels, level: nat, f: File): Levels
    requires level < NUM_LEVELS
  {
    v[level := v[level] + {f}]
  }

  // A memtable may be written to a level when no file at that level or above
  // overlaps it (level 0 takes any file with a higher number).
  ghost predicate GoodFlush(v: Levels, level: nat, f: File) {
    && level < NUM_LEVELS && WfFile(f)
    && (forall l, g {:trigger Holds(v, l, g)} :: Holds(v, l, g) ==> g.number < f.number && Newer(f, g))
    && (level > 0 ==> forall l, g {:trigger Holds(v, l, g), RangesOverlap(f, g)} ::
          Holds(v, l, g) && l <= level ==> !RangesOverlap(f, g))
  }

  lemma FlushHolds(v: Levels, level: nat, f: File, l: int, g: File)
    requires level < NUM_LEVELS && Holds(AddFile(v, level, f), l, g)
    ensures Holds(v, l, g) || (g == f && l == level)
  {
  }

  lemma FlushKeepsLevels(v: Levels, level: nat, f: File)
    requires WfLevels(v) && GoodFlush(v, level, f)
    ensures WfLevels(AddFile(v, level, f))
  {
    var w := AddFile(v, level, f);
    assert |w| == NUM_LEVELS;
    forall i, j, x, y | i < j && Holds(w, i, x) && Holds(w, j, y) ensures Newer(x, y) {
      FlushHolds(v, level, f, i, x);
      FlushHolds(v, level, f, j, y);
      if Holds(v, i, x) && Holds(v, j, y) {
        assert Newer(x, y);
      } else if Holds(v, i, x) {
        assert WfFile(x) && !RangesOverlap(f, x);
        DisjointRangesAreNewer(f, x);
      }
    }
    forall i, j, x, y | Holds(w, i, x) && Holds(w, j, y) && x.number == y.number ensures i == j && x == y {
      FlushHolds(v, level, f, i, x);
      FlushHolds(v, level, f, j, y);
    }
    forall l | 0 <= l < NUM_LEVELS ensures WfLevel(l, w[l]) {
      FlushLevelWf(v, level, f, l);
    }
  }

  lemma FlushLevelWf(v: Levels, level: nat, f: File, l: int)
    requires WfLevels(v) && GoodFlush(v, level, f) && 0 <= l < NUM_LEVELS
    ensures WfLevel(l, AddFile(v, level, f)[l])
  {
    var w := AddFile(v, level, f);
    assert WfLevel(l, v[l]);
    if l == level {
      forall x, y | x in w[l] && y in w[l] && l == 0 && x.number > y.number ensures Newer(x, y) {
        FlushHolds(v, level, f, l, x);
        FlushHolds(v, level, f, l, y);
      }
      forall x, y | x in w[l] && y in w[l] && l > 0 && x != y ensures Before(x, y) || Before(y, x) {
        FlushHolds(v, level, f, l, x);
        FlushHolds(v, level, f, l, y);
        assert x != f ==> !RangesOverlap(f, x);
        assert y != f ==> !RangesOverlap(f, y);
      }
    }
  }

  lemma FlushStored(v: Levels, level: nat, f: File)
    requires level < NUM_LEVELS
    ensures Stored(AddFile(v, level, f)) == Elements(f.entries) + Stored(v)
  {
    var w := AddFile(v, level, f);
    forall e | e in Stored(v) ensures e in Stored(w) {
      var l, g :| Holds(v, l, g) && e in g.entries;
      assert Holds(w, l, g);
    }
    forall e | e in f.entries ensures e in Stored(w) {
      assert Holds(w, level, f);
    }
    forall e | e in Stored(w) ensures e in Elements(f.entries) + Stored(v) {
      var l, g :| Holds(w, l, g) && e in g.entries;
      FlushHolds(v, level, f, l, g);
    }
  }
}
