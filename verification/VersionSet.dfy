// The concrete version: sorted file lists, searched by key
// (db/version_set.cc).

module VersionSet {
  import opened DbFormat
  import opened Levels

  type Version = v: seq<seq<File>> | |v| == NUM_LEVELS witness [[], [], [], [], [], [], []]

  ghost function FileSet(files: seq<File>): (r: set<File>)
    ensures forall f {:trigger f in r} :: f in r <==> f in files
  {
    set f | f in files
  }

  ghost function Abs(v: Version): (r: Levels)
    ensures forall l :: 0 <= l < NUM_LEVELS ==> r[l] == FileSet(v[l])
  {
    seq(NUM_LEVELS, l requires 0 <= l < NUM_LEVELS => FileSet(v[l]))
  }

  // BySmallestKey: by smallest key, ties broken by file number.
  predicate BySmallest(f: File, g: File) {
    Less(f.smallest, g.smallest) || (!Less(g.smallest, f.smallest) && f.number < g.number)
  }

  ghost predicate Ordered(files: seq<File>) {
    forall i, j {:trigger BySmallest(files[i], files[j])} :: 0 <= i < j < |files| ==> BySmallest(files[i], files[j])
  }

  ghost predicate WfVersion(v: Version) {
    WfStore(Abs(v)) && forall l :: 0 <= l < NUM_LEVELS ==> Ordered(v[l])
  }

  // In a deeper level each file ends before the next one starts.
  ghost predicate Chained(files: seq<File>) {
    forall i, j {:trigger Before(files[i], files[j])} :: 0 <= i < j < |files| ==> Before(files[i], files[j])
  }

  lemma DeepLevelChained(l: int, files: seq<File>)
    requires l > 0 && WfLevel(l, FileSet(files)) && Ordered(files)
    ensures Chained(files)
  {
    forall i, j | 0 <= i < j < |files| ensures Before(files[i], files[j]) {
      var f, g := files[i], files[j];
      assert BySmallest(f, g) && f in FileSet(files) && g in FileSet(files);
      SmallestNotAboveLargest(f);
      SmallestNotAboveLargest(g);
      assert Before(f, g) || Before(g, f) || f == g;
    }
  }

  lemma SmallestNotAboveLargest(f: File)
    requires WfFile(f)
    ensures !Less(f.largest, f.smallest)
  {
    EntryBounds(f, f.entries[0]);
  }

  // Binary search for a file whose largest key is at or after key, on any list.
  function SearchFrom(files: seq<File>, key: InternalKey, left: nat, right: nat): (r: nat)
    requires left <= right <= |files|
    ensures left <= r <= right
    decreases right - left
  {
    if left == right then left
    else
      var mid := (left + right) / 2;
      if Less(files[mid].largest, key) then SearchFrom(files, key, mid + 1, right) else SearchFrom(files, key, left, mid)
  }

  // When the files that end before the key come first, the search finds the first of the others.
  lemma {:induction false} SearchIsFirst(files: seq<File>, key: InternalKey, left: nat, right: nat, p: nat)
    requires left <= p <= right <= |files|
    requires forall i :: left <= i < p ==> Less(files[i].largest, key)
    requires forall i :: p <= i < right ==> !Less(files[i].largest, key)
    ensures SearchFrom(files, key, left, right) == p
    decreases right - left
  {
    if left < right {
      var mid := (left + right) / 2;
      if mid < p {
        SearchIsFirst(files, key, mid + 1, right, p);
      } else {
        SearchIsFirst(files, key, left, mid, p);
      }
    }
  }

  lemma ChainedSearch(files: seq<File>, key: InternalKey)
    requires Chained(files) && forall f :: f in files ==> WfFile(f)
    ensures var p := SearchFrom(files, key, 0, |files|);
            (forall i :: 0 <= i < p ==> Less(files[i].largest, key)) && (p < |files| ==> !Less(files[p].largest, key))
  {
    var p := 0;
    while p < |files| && Less(files[p].largest, key)
      invariant p <= |files| && forall i :: 0 <= i < p ==> Less(files[i].largest, key)
    {
      p := p + 1;
    }
    forall i | p <= i < |files| ensures !Less(files[i].largest, key) {
      if i > p {
        assert Before(files[p], files[i]);
        SmallestNotAboveLargest(files[i]);
      }
    }
    SearchIsFirst(files, key, 0, |files|, p);
  }

  // On disjoint files the loop finds the first file whose largest key is at or after key.
  method FindFile(files: seq<File>, key: InternalKey) returns (right: nat)
    ensures right == SearchFrom(files, key, 0, |files|)
    ensures Chained(files) && (forall f :: f in files ==> WfFile(f)) ==>
              (forall i :: 0 <= i < right ==> Less(files[i].largest, key)) && (right < |files| ==> !Less(files[right].largest, key))
  {
    var left := 0;
    right := |files|;
    while left < right
      invariant left <= right <= |files|
      invariant SearchFrom(files, key, left, right) == SearchFrom(files, key, 0, |files|)
    {
      var mid := (left + right) / 2;
      if Less(files[mid].largest, key) {
        left := mid + 1;
      } else {
        right := mid;
      }
    }
    if Chained(files) && forall f :: f in files ==> WfFile(f) {
      ChainedSearch(files, key);
    }
  }

  // The position a table lookup lands on (Table::InternalGet over the entries).
  function LowerBound(es: seq<Entry>, target: InternalKey): (i: nat)
    ensures i <= |es|
  {
    if es == [] || !Less(es[0].key, target) then 0 else 1 + LowerBound(es[1..], target)
  }

  lemma {:induction false} LowerBoundIs(es: seq<Entry>, target: InternalKey)
    requires Sorted(es)
    ensures IsLowerBound(es, target, LowerBound(es, target))
  {
    if es != [] {
      if Less(es[0].key, target) {
        var rest := es[1..];
        forall i, j | 0 <= i < j < |rest| ensures Less(rest[i].key, rest[j].key) {
          assert Less(es[i + 1].key, es[j + 1].key);
        }
        LowerBoundIs(rest, target);
        var k := LowerBound(rest, target);
        forall j | 0 <= j < k + 1 ensures Less(es[j].key, target) {
          assert j > 0 ==> es[j] == rest[j - 1];
        }
        forall j | k + 1 <= j < |es| ensures !Less(es[j].key, target) {
          assert es[j] == rest[j - 1];
        }
      } else {
        forall j | 0 <= j < |es| ensures !Less(es[j].key, target) {
          assert j > 0 ==> Less(es[0].key, es[j].key);
        }
      }
    }
  }

  // TableCache::Get with SaveValue: the entry found, if it belongs to the user key.
  function SearchEntries(es: seq<Entry>, user: UserKey, s: nat): Option<Entry> {
    var i := LowerBound(es, SeekKey(user, s));
    if i < |es| && es[i].key.user == user then Some(es[i]) else None
  }

  lemma SearchFindsNewest(es: seq<Entry>, user: UserKey, s: nat)
    requires Sorted(es) && Distinct(Elements(es))
    ensures SearchEntries(es, user, s) == Newest(Elements(es), user, s)
  {
    LowerBoundIs(es, SeekKey(user, s));
    LowerBoundIsNewest(es, user, s, LowerBound(es, SeekKey(user, s)));
  }

  lemma FileSearch(v: Levels, l: int, f: File, user: UserKey, s: nat)
    requires WfStore(v) && Holds(v, l, f)
    ensures SearchEntries(f.entries, user, s) == Newest(Elements(f.entries), user, s)
  {
    assert WfLevel(l, v[l]);
    assert Elements(f.entries) <= Stored(v);
    SearchFindsNewest(f.entries, user, s);
  }

  // ---- Version::Get -----------------------------------------------------

  ghost predicate NoneSeen(f: File, user: UserKey, s: nat) {
    forall x {:trigger x in f.entries} :: x in f.entries ==> !Sees(x, user, s)
  }

  // A hit in f is the answer when the files that could hold something newer have nothing.
  lemma HitIsNewest(v: Levels, l: int, f: File, user: UserKey, s: nat, e: Entry)
    requires WfStore(v) && Holds(v, l, f)
    requires SearchEntries(f.entries, user, s) == Some(e)
    requires forall k, g {:trigger Holds(v, k, g)} :: Holds(v, k, g) ==> NoneSeen(g, user, s) || g == f || Newer(f, g)
    ensures Newest(Stored(v), user, s) == Some(e)
  {
    FileSearch(v, l, f, user, s);
    forall x | x in Stored(v) && Sees(x, user, s) ensures x.key.sequence <= e.key.sequence {
      var k, g :| Holds(v, k, g) && x in g.entries;
      assert NewerEntry(e, x) || x in f.entries;
    }
    NewestIs(Stored(v), user, s, e);
  }

  // Searching one deeper level: only the file FindFile lands on can hold a visible entry first.
  lemma DeepLevelSearch(v: Version, l: int, index: nat, user: UserKey, s: nat, g: File)
    requires WfVersion(v) && 0 < l < NUM_LEVELS
    requires index <= |v[l]|
    requires forall i :: 0 <= i < index ==> Less(v[l][i].largest, SeekKey(user, s))
    requires index < |v[l]| ==> !Less(v[l][index].largest, SeekKey(user, s))
    requires g in v[l] && (index < |v[l]| ==> g != v[l][index])
    requires index < |v[l]| && v[l][index].smallest.user <= user ==> NoneSeen(v[l][index], user, s)
    ensures NoneSeen(g, user, s)
  {
    assert WfLevel(l, Abs(v)[l]);
    DeepLevelChained(l, v[l]);
    var i :| 0 <= i < |v[l]| && v[l][i] == g;
    forall x | x in g.entries ensures !Sees(x, user, s) {
      EntryBounds(g, x);
      if i > index {
        var f := v[l][index];
        assert Before(f, g) && WfFile(f);
        var last := f.entries[|f.entries| - 1];
        EntryBounds(f, last);
        assert !Sees(last, user, s) || f.smallest.user > user;
      }
    }
  }

  // Level-0 files that may hold the key, to be searched newest first.
  function InsertNewestFirst(f: File, fs: seq<File>): (r: seq<File>)
    ensures forall g :: g in r <==> g == f || g in fs
  {
    if fs == [] || f.number > fs[0].number then [f] + fs
    else [fs[0]] + InsertNewestFirst(f, fs[1..])
  }

  ghost predicate NewestFirst(fs: seq<File>) {
    forall i, j :: 0 <= i < j < |fs| ==> fs[i].number >= fs[j].number
  }

  lemma {:induction false} InsertKeepsNewestFirst(f: File, fs: seq<File>)
    requires NewestFirst(fs)
    ensures NewestFirst(InsertNewestFirst(f, fs))
  {
    if fs != [] && f.number <= fs[0].number {
      InsertKeepsNewestFirst(f, fs[1..]);
      var r := InsertNewestFirst(f, fs[1..]);
      forall j | 0 <= j < |r| ensures fs[0].number >= r[j].number {
        assert r[j] in r;
      }
    }
  }

  ghost predicate Candidates(v: Version, user: UserKey, tmp: seq<File>) {
    NewestFirst(tmp) && forall f :: f in tmp <==> f in v[0] && InUserRange(user, f)
  }

  lemma OutOfRangeNotSeen(f: File, user: UserKey, s: nat)
    requires WfFile(f) && !InUserRange(user, f)
    ensures NoneSeen(f, user, s)
  {
    forall x | x in f.entries ensures !Sees(x, user, s) {
      EntryBounds(f, x);
    }
  }

  lemma Level0Hit(v: Version, tmp: seq<File>, i: nat, user: UserKey, s: nat, e: Entry)
    requires WfVersion(v) && Candidates(v, user, tmp) && i < |tmp|
    requires forall j :: 0 <= j < i ==> NoneSeen(tmp[j], user, s)
    requires SearchEntries(tmp[i].entries, user, s) == Some(e)
    ensures Newest(Stored(Abs(v)), user, s) == Some(e)
  {
    var a, f := Abs(v), tmp[i];
    assert f in tmp && Holds(a, 0, f);
    forall k, g | Holds(a, k, g) ensures NoneSeen(g, user, s) || g == f || Newer(f, g) {
      assert WfLevel(k, a[k]);
      if k > 0 {
        assert Newer(f, g);
      } else if InUserRange(user, g) {
        var j :| 0 <= j < |tmp| && tmp[j] == g;
        assert j > i && f.number > g.number ==> Newer(f, g);
      } else {
        OutOfRangeNotSeen(g, user, s);
      }
    }
    HitIsNewest(a, 0, f, user, s, e);
  }

  lemma Level0Miss(v: Version, tmp: seq<File>, user: UserKey, s: nat)
    requires WfVersion(v) && Candidates(v, user, tmp)
    requires forall j :: 0 <= j < |tmp| ==> NoneSeen(tmp[j], user, s)
    ensures forall g :: g in v[0] ==> NoneSeen(g, user, s)
  {
    assert WfLevel(0, Abs(v)[0]);
    forall g | g in v[0] ensures NoneSeen(g, user, s) {
      assert g in FileSet(v[0]);
      if !InUserRange(user, g) {
        OutOfRangeNotSeen(g, user, s);
      }
    }
  }

  // An earlier file of one deep level holds the newer entries of a shared user key.
  lemma BeforeIsNewer(v: Levels, l: int, f: File, g: File)
    requires WfStore(v) && Holds(v, l, f) && Holds(v, l, g) && Before(f, g)
    ensures Newer(f, g)
  {
    assert WfLevel(l, v[l]);
    forall x, y | x in f.entries && y in g.entries ensures NewerEntry(x, y) {
      EntryBounds(f, x);
      EntryBounds(g, y);
      assert SameVersion(x, y) ==> x == y;
    }
  }

  lemma DeepLevelHit(v: Version, l: int, index: nat, user: UserKey, s: nat, e: Entry)
    requires WfVersion(v) && 0 < l < NUM_LEVELS && index < |v[l]|
    requires forall i :: 0 <= i < index ==> Less(v[l][i].largest, SeekKey(user, s))
    requires forall k, g {:trigger Holds(Abs(v), k, g)} :: Holds(Abs(v), k, g) && k < l ==> NoneSeen(g, user, s)
    requires SearchEntries(v[l][index].entries, user, s) == Some(e)
    ensures Newest(Stored(Abs(v)), user, s) == Some(e)
  {
    var a, f := Abs(v), v[l][index];
    assert Holds(a, l, f) && WfLevel(l, a[l]);
    DeepLevelChained(l, v[l]);
    forall k, g | Holds(a, k, g) ensures NoneSeen(g, user, s) || g == f || Newer(f, g) {
      if k > l {
        assert Newer(f, g);
      } else if k == l {
        var i :| 0 <= i < |v[l]| && v[l][i] == g;
        if i < index {
          forall x | x in g.entries ensures !Sees(x, user, s) {
            EntryBounds(g, x);
          }
        } else if i > index {
          assert Before(f, g);
          BeforeIsNewer(a, l, f, g);
        }
      }
    }
    HitIsNewest(a, l, f, user, s, e);
  }

  // ---- The search itself, on any version --------------------------------

  // Level-0 files that may hold the key, newest first.
  function CandidatesOf(files: seq<File>, user: UserKey): seq<File> {
    if files == [] then []
    else
      var f, rest := files[|files| - 1], CandidatesOf(files[..|files| - 1], user);
      if InUserRange(user, f) then InsertNewestFirst(f, rest) else rest
  }

  function SearchFiles(fs: seq<File>, user: UserKey, s: nat): Option<Entry> {
    if fs == [] then None
    else
      var r := SearchEntries(fs[0].entries, user, s);
      if r.Some? then r else SearchFiles(fs[1..], user, s)
  }

  // One deeper level: only the file the binary search lands on is opened.
  function SearchLevel(files: seq<File>, user: UserKey, s: nat): Option<Entry> {
    var index := SearchFrom(files, SeekKey(user, s), 0, |files|);
    if index < |files| && files[index].smallest.user <= user then SearchEntries(files[index].entries, user, s) else None
  }

  function SearchDeeper(v: Version, l: nat, user: UserKey, s: nat): Option<Entry>
    requires l <= NUM_LEVELS
    decreases NUM_LEVELS - l
  {
    if l == NUM_LEVELS then None
    else
      var r := SearchLevel(v[l], user, s);
      if r.Some? then r else SearchDeeper(v, l + 1, user, s)
  }

  function Search(v: Version, user: UserKey, s: nat): Option<Entry> {
    var r := SearchFiles(CandidatesOf(v[0], user), user, s);
    if r.Some? then r else SearchDeeper(v, 1, user, s)
  }

  lemma {:induction false} CandidatesAre(files: seq<File>, user: UserKey)
    ensures NewestFirst(CandidatesOf(files, user))
    ensures forall f :: f in CandidatesOf(files, user) <==> f in files && InUserRange(user, f)
  {
    if files != [] {
      var n := |files| - 1;
      CandidatesAre(files[..n], user);
      InsertKeepsNewestFirst(files[n], CandidatesOf(files[..n], user));
      assert files == files[..n] + [files[n]];
    }
  }

  // The files of level 0 are searched until one holds a visible entry.
  lemma {:induction false} FilesSearched(v: Version, tmp: seq<File>, i: nat, user: UserKey, s: nat)
    requires WfVersion(v) && Candidates(v, user, tmp) && i <= |tmp|
    requires forall j :: 0 <= j < i ==> NoneSeen(tmp[j], user, s)
    ensures var r := SearchFiles(tmp[i..], user, s);
            if r.Some? then Newest(Stored(Abs(v)), user, s) == r else forall g :: g in v[0] ==> NoneSeen(g, user, s)
    decreases |tmp| - i
  {
    if i == |tmp| {
      Level0Miss(v, tmp, user, s);
    } else {
      assert tmp[i..][0] == tmp[i] && tmp[i..][1..] == tmp[i + 1..];
      assert tmp[i] in tmp && Holds(Abs(v), 0, tmp[i]);
      FileSearch(Abs(v), 0, tmp[i], user, s);
      var r := SearchEntries(tmp[i].entries, user, s);
      if r.Some? {
        Level0Hit(v, tmp, i, user, s, r.value);
      } else {
        FilesSearched(v, tmp, i + 1, user, s);
      }
    }
  }

  lemma LevelSearched(v: Version, l: nat, user: UserKey, s: nat)
    requires WfVersion(v) && 0 < l < NUM_LEVELS
    requires forall k, g {:trigger Holds(Abs(v), k, g)} :: Holds(Abs(v), k, g) && k < l ==> NoneSeen(g, user, s)
    ensures var r := SearchLevel(v[l], user, s);
            if r.Some? then Newest(Stored(Abs(v)), user, s) == r else forall g :: g in v[l] ==> NoneSeen(g, user, s)
  {
    var a := Abs(v);
    assert WfLevel(l, a[l]);
    DeepLevelChained(l, v[l]);
    forall f | f in v[l] ensures WfFile(f) { assert f in a[l]; }
    ChainedSearch(v[l], SeekKey(user, s));
    var index := SearchFrom(v[l], SeekKey(user, s), 0, |v[l]|);
    if index < |v[l]| && v[l][index].smallest.user <= user {
      var f := v[l][index];
      assert Holds(a, l, f);
      FileSearch(a, l, f, user, s);
      var r := SearchEntries(f.entries, user, s);
      if r.Some? {
        DeepLevelHit(v, l, index, user, s, r.value);
        return;
      }
    }
    forall g | g in v[l] ensures NoneSeen(g, user, s) {
      if index == |v[l]| || g != v[l][index] {
        DeepLevelSearch(v, l, index, user, s, g);
      } else if v[l][index].smallest.user > user {
        OutOfRangeNotSeen(g, user, s);
      }
    }
  }

  lemma {:induction false} DeeperSearched(v: Version, l: nat, user: UserKey, s: nat)
    requires WfVersion(v) && 0 < l <= NUM_LEVELS
    requires forall k, g {:trigger Holds(Abs(v), k, g)} :: Holds(Abs(v), k, g) && k < l ==> NoneSeen(g, user, s)
    ensures SearchDeeper(v, l, user, s) == Newest(Stored(Abs(v)), user, s)
    decreases NUM_LEVELS - l
  {
    if l == NUM_LEVELS {
      forall x | x in Stored(Abs(v)) ensures !Sees(x, user, s) {
        var k, g :| Holds(Abs(v), k, g) && x in g.entries;
      }
    } else {
      LevelSearched(v, l, user, s);
      if SearchLevel(v[l], user, s).None? {
        DeeperSearched(v, l + 1, user, s);
      }
    }
  }

  // On well-formed levels the first hit is the newest stored entry.
  lemma SearchIsNewest(v: Version, user: UserKey, s: nat)
    requires WfVersion(v)
    ensures Search(v, user, s) == Newest(Stored(Abs(v)), user, s)
  {
    var tmp := CandidatesOf(v[0], user);
    CandidatesAre(v[0], user);
    FilesSearched(v, tmp, 0, user, s);
    assert tmp[0..] == tmp;
    if SearchFiles(tmp, user, s).None? {
      DeeperSearched(v, 1, user, s);
    }
  }

  // Search level 0 from newest to oldest, then one file per deeper level; stop
  // at the first hit.
  method Get(v: Version, user: UserKey, s: nat) returns (r: Option<Entry>)
    ensures r == Search(v, user, s)
    ensures WfVersion(v) ==> r == Newest(Stored(Abs(v)), user, s)
  {
    if WfVersion(v) {
      SearchIsNewest(v, user, s);
    }
    var tmp: seq<File> := [];
    for i := 0 to |v[0]|
      invariant tmp == CandidatesOf(v[0][..i], user)
    {
      var f := v[0][i];
      assert v[0][..i + 1][..i] == v[0][..i];
      if f.smallest.user <= user && user <= f.largest.user {
        tmp := InsertNewestFirst(f, tmp);
      }
    }
    assert v[0][..|v[0]|] == v[0];
    assert tmp[0..] == tmp;
    for i := 0 to |tmp|
      invariant SearchFiles(tmp[i..], user, s) == SearchFiles(tmp, user, s)
    {
      assert tmp[i..][1..] == tmp[i + 1..];
      r := SearchEntries(tmp[i].entries, user, s);
      if r.Some? {
        return;
      }
    }
    for l := 1 to NUM_LEVELS
      invariant SearchDeeper(v, l, user, s) == SearchDeeper(v, 1, user, s)
    {
      var index := FindFile(v[l], SeekKey(user, s));
      if index < |v[l]| && v[l][index].smallest.user <= user {
        r := SearchEntries(v[l][index].entries, user, s);
        if r.Some? {
          return;
        }
      }
    }
    r := None;
  }
}
