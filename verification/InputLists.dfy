// The child iterators of a read and of a compaction: level-0 tables one by one,
// a deeper level as one concatenation (db/version_set.cc, AddIterators, MakeInputIterator).

module InputLists {
  import opened DbFormat
  import opened Levels
  import opened VersionSet
  import opened SortedEntries

  // What a two-level iterator over the files of one deeper level visits.
  function Concat(files: seq<File>): seq<Entry> {
    if files == [] then [] else Concat(files[..|files| - 1]) + files[|files| - 1].entries
  }

  lemma {:induction false} ConcatIs(files: seq<File>)
    requires Chained(files) && forall f {:trigger WfFile(f)} :: f in files ==> WfFile(f)
    ensures Sorted(Concat(files)) && Elements(Concat(files)) == EntriesOf(FileSet(files))
    ensures forall e {:trigger e in Elements(Concat(files))} :: e in Elements(Concat(files)) ==> exists f :: f in files && e in f.entries
  {
    if files != [] {
      var front, last := files[..|files| - 1], files[|files| - 1];
      forall i, j | 0 <= i < j < |front| ensures Before(front[i], front[j]) {
        assert Before(files[i], files[j]);
      }
      ConcatIs(front);
      assert WfFile(last);
      forall x, y | x in Elements(Concat(front)) && y in last.entries ensures Less(x.key, y.key) {
        var f :| f in front && x in f.entries;
        var i :| 0 <= i < |front| && front[i] == f;
        assert Before(files[i], files[|files| - 1]) && WfFile(f);
        EntryBounds(f, x);
        EntryBounds(last, y);
      }
      JoinSorted(Concat(front), last.entries);
      FilesSplit(files);
    }
  }

  lemma JoinSorted(a: seq<Entry>, b: seq<Entry>)
    requires Sorted(a) && Sorted(b)
    requires forall x, y {:trigger Less(x.key, y.key)} :: x in Elements(a) && y in b ==> Less(x.key, y.key)
    ensures Sorted(a + b) && Elements(a + b) == Elements(a) + Elements(b)
  {
    var r := a + b;
    forall i, j | 0 <= i < j < |r| ensures Less(r[i].key, r[j].key) {
      if j < |a| {
        assert Less(a[i].key, a[j].key);
      } else if i >= |a| {
        assert Less(b[i - |a|].key, b[j - |a|].key);
      } else {
        assert r[i] in Elements(a) && r[j] in b;
      }
    }
  }

  lemma FilesSplit(files: seq<File>)
    requires files != []
    ensures EntriesOf(FileSet(files)) == EntriesOf(FileSet(files[..|files| - 1])) + Elements(files[|files| - 1].entries)
  {
    var front, last := files[..|files| - 1], files[|files| - 1];
    assert files == front + [last];
    forall e | e in EntriesOf(FileSet(files)) ensures e in EntriesOf(FileSet(front)) || e in last.entries {
      var f :| f in FileSet(files) && e in f.entries;
      assert f in front ==> f in FileSet(front);
    }
    forall e | e in EntriesOf(FileSet(front)) ensures e in EntriesOf(FileSet(files)) {
      var f :| f in FileSet(front) && e in f.entries;
      assert f in FileSet(files);
    }
    assert last in FileSet(files);
  }

  // Two files of a well-formed store share no entry.
  lemma FilesApart(v: Levels, l: int, f: File, k: int, g: File)
    requires WfLevels(v) && Holds(v, l, f) && Holds(v, k, g) && (l != k || f != g)
    ensures forall e {:trigger e in f.entries} {:trigger e in g.entries} :: e in f.entries ==> e !in g.entries
  {
    forall e | e in f.entries ensures e !in g.entries {
      assert WfLevel(l, v[l]) && WfLevel(k, v[k]);
      if l < k {
        assert Newer(f, g);
        assert e in g.entries ==> NewerEntry(e, e);
      } else if k < l {
        assert Newer(g, f);
        assert e in g.entries ==> NewerEntry(e, e);
      } else if l == 0 {
        assert f.number != g.number;
        assert if f.number > g.number then Newer(f, g) else Newer(g, f);
        assert e in g.entries ==> NewerEntry(e, e);
      } else if e in g.entries {
        assert Before(f, g) || Before(g, f);
        EntryBounds(f, e);
        EntryBounds(g, e);
      }
    }
  }

  lemma NextFileApart(v: Version, files: seq<File>, i: nat, S: set<Entry>)
    requires WfVersion(v) && FileSet(files) <= FileSet(v[0]) && Ordered(files) && i < |files|
    requires EntriesOf(FileSet(files)) !! S
    ensures Sorted(files[i].entries) && Elements(files[i].entries) !! S + EntriesOf(FileSet(files[..i]))
  {
    var f, a := files[i], Abs(v);
    assert f in FileSet(files) && Holds(a, 0, f) && WfLevel(0, a[0]);
    forall e | e in f.entries ensures e !in S && e !in EntriesOf(FileSet(files[..i])) {
      assert e in EntriesOf(FileSet(files));
      if e in EntriesOf(FileSet(files[..i])) {
        var g :| g in FileSet(files[..i]) && e in g.entries;
        var j :| 0 <= j < i && files[j] == g;
        assert BySmallest(files[j], files[i]) && g in FileSet(files) && Holds(a, 0, g);
        FilesApart(a, 0, f, 0, g);
      }
    }
  }

  // Add the lists of one level's files, some or all of them.
  method AddLevel(v: Version, l: nat, files: seq<File>, lists0: seq<seq<Entry>>, ghost S: set<Entry>) returns (lists: seq<seq<Entry>>)
    requires WfVersion(v) && l < NUM_LEVELS && FileSet(files) <= FileSet(v[l])
    requires if l == 0 then Ordered(files) else Chained(files)
    requires Covering(lists0, S) && EntriesOf(FileSet(files)) !! S
    ensures Covering(lists, S + EntriesOf(FileSet(files)))
  {
    lists := lists0;
    if l == 0 {
      for i := 0 to |files|
        invariant Covering(lists, S + EntriesOf(FileSet(files[..i])))
      {
        assert files[..i + 1][..i] == files[..i];
        FilesSplit(files[..i + 1]);
        NextFileApart(v, files, i, S);
        AddList(lists, S + EntriesOf(FileSet(files[..i])), files[i].entries);
        lists := lists + [files[i].entries];
        assert S + EntriesOf(FileSet(files[..i])) + Elements(files[i].entries) == S + EntriesOf(FileSet(files[..i + 1]));
      }
      assert files[..|files|] == files;
    } else {
      forall f | f in files ensures WfFile(f) {
        assert f in FileSet(files) && f in FileSet(v[l]) && WfLevel(l, Abs(v)[l]);
      }
      ConcatIs(files);
      if files != [] {
        AddList(lists, S, Concat(files));
        lists := lists + [Concat(files)];
      } else {
        assert S + EntriesOf(FileSet(files)) == S;
      }
    }
  }

  lemma LevelsApart(v: Levels, l: nat, A: set<File>, k: nat, B: set<File>)
    requires WfLevels(v) && l < NUM_LEVELS && k < NUM_LEVELS && l != k && A <= v[l] && B <= v[k]
    ensures EntriesOf(A) !! EntriesOf(B)
  {
    forall e | e in EntriesOf(A) ensures e !in EntriesOf(B) {
      var f :| f in A && e in f.entries;
      assert Holds(v, l, f);
      forall g | g in B ensures e !in g.entries {
        assert Holds(v, k, g);
        FilesApart(v, l, f, k, g);
      }
    }
  }

  // MakeInputIterator: the inputs of a compaction.
  method MakeInputIterator(v: Version, level: nat, upper: seq<File>, lower: seq<File>) returns (lists: seq<seq<Entry>>)
    requires WfVersion(v) && level + 1 < NUM_LEVELS && FileSet(upper) <= FileSet(v[level]) && FileSet(lower) <= FileSet(v[level + 1])
    requires Chained(lower) && if level == 0 then Ordered(upper) else Chained(upper)
    ensures Covering(lists, EntriesOf(FileSet(upper) + FileSet(lower)))
  {
    LevelsApart(Abs(v), level, FileSet(upper), level + 1, FileSet(lower));
    lists := AddLevel(v, level, upper, [], {});
    assert {} + EntriesOf(FileSet(upper)) == EntriesOf(FileSet(upper));
    lists := AddLevel(v, level + 1, lower, lists, EntriesOf(FileSet(upper)));
    EntriesOfUnion(FileSet(upper), FileSet(lower));
  }

  lemma EntriesOfUnion(A: set<File>, B: set<File>)
    ensures EntriesOf(A + B) == EntriesOf(A) + EntriesOf(B)
  {
  }

  ghost function StoredAbove(v: Levels, n: nat): (r: set<Entry>)
    requires n <= NUM_LEVELS
    ensures forall e {:trigger e in r} :: e in r <==> exists l, f :: l < n && Holds(v, l, f) && e in f.entries
  {
    set l, f, e | 0 <= l < n && f in v[l] && Holds(v, l, f) && e in f.entries :: e
  }

  lemma StoredAboveStep(v: Levels, n: nat)
    requires WfLevels(v) && n < NUM_LEVELS
    ensures StoredAbove(v, n + 1) == StoredAbove(v, n) + EntriesOf(v[n])
    ensures StoredAbove(v, n) !! EntriesOf(v[n])
  {
    forall e | e in EntriesOf(v[n]) ensures e in StoredAbove(v, n + 1) && e !in StoredAbove(v, n) {
      var f :| f in v[n] && e in f.entries;
      assert Holds(v, n, f);
      forall l, g | l < n && Holds(v, l, g) ensures e !in g.entries {
        FilesApart(v, l, g, n, f);
      }
    }
    forall e | e in StoredAbove(v, n + 1) ensures e in StoredAbove(v, n) || e in EntriesOf(v[n]) {
      var l, f :| l < n + 1 && Holds(v, l, f) && e in f.entries;
    }
    forall e | e in StoredAbove(v, n) ensures e in StoredAbove(v, n + 1) {
      var l, f :| l < n && Holds(v, l, f) && e in f.entries;
      assert l < n + 1;
    }
  }

  // AddIterators: every table of a version.
  method AddIterators(v: Version, lists0: seq<seq<Entry>>, ghost S: set<Entry>) returns (lists: seq<seq<Entry>>)
    requires WfVersion(v) && Covering(lists0, S) && Stored(Abs(v)) !! S
    ensures Covering(lists, S + Stored(Abs(v)))
  {
    lists := lists0;
    ghost var a := Abs(v);
    assert S + StoredAbove(a, 0) == S;
    for l := 0 to NUM_LEVELS
      invariant Covering(lists, S + StoredAbove(a, l))
    {
      StoredAboveStep(a, l);
      assert WfLevel(l, a[l]);
      if l > 0 {
        DeepLevelChained(l, v[l]);
      }
      LevelOutside(a, l, S);
      lists := AddLevel(v, l, v[l], lists, S + StoredAbove(a, l));
      assert S + StoredAbove(a, l) + EntriesOf(a[l]) == S + StoredAbove(a, l + 1);
    }
    assert StoredAbove(a, NUM_LEVELS) == Stored(a);
  }

  lemma LevelOutside(v: Levels, l: nat, S: set<Entry>)
    requires l < NUM_LEVELS && Stored(v) !! S
    ensures EntriesOf(v[l]) !! S
  {
    forall e | e in EntriesOf(v[l]) ensures e in Stored(v) {
      var f :| f in v[l] && e in f.entries;
      assert Holds(v, l, f);
    }
  }
}
