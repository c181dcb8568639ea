// The levels of table files and what a compaction does to their meaning
// (db/version_set.cc, db/db_impl.cc).

module Levels {
  import opened DbFormat

  // FileMetaData together with the table's entries.
  datatype File = File(number: nat, size: nat, smallest: InternalKey, largest: InternalKey, entries: seq<Entry>)

  type Levels = v: seq<set<File>> | |v| == NUM_LEVELS witness [{}, {}, {}, {}, {}, {}, {}]

  ghost predicate WfFile(f: File) {
    && f.entries != []
    && Sorted(f.entries)
    && f.smallest == f.entries[0].key
    && f.largest == f.entries[|f.entries| - 1].key
  }

  predicate InUserRange(user: UserKey, f: File) {
    f.smallest.user <= user <= f.largest.user
  }

  predicate RangesOverlap(f: File, g: File) {
    f.smallest.user <= g.largest.user && g.smallest.user <= f.largest.user
  }

  predicate Before(f: File, g: File) {
    Less(f.largest, g.smallest)
  }

  // Every entry of f is newer than every entry of g for the same user key.
  ghost predicate Newer(f: File, g: File) {
    forall x, y {:trigger NewerEntry(x, y)} :: x in f.entries && y in g.entries ==> NewerEntry(x, y)
  }

  lemma EntryBounds(f: File, e: Entry)
    requires WfFile(f) && e in f.entries
    ensures !Less(e.key, f.smallest) && !Less(f.largest, e.key)
    ensures InUserRange(e.key.user, f)
  {
    var i :| 0 <= i < |f.entries| && f.entries[i] == e;
    if i > 0 {
      assert Less(f.entries[0].key, f.entries[i].key);
    }
    if i < |f.entries| - 1 {
      assert Less(f.entries[i].key, f.entries[|f.entries| - 1].key);
    }
  }

  lemma DisjointRangesAreNewer(f: File, g: File)
    requires WfFile(f) && WfFile(g) && !RangesOverlap(f, g)
    ensures Newer(f, g) && Newer(g, f)
  {
    forall x, y | x in f.entries && y in g.entries
      ensures x.key.user != y.key.user
    {
      EntryBounds(f, x);
      EntryBounds(g, y);
    }
  }

  ghost function EntriesOf(S: set<File>): (r: set<Entry>)
    ensures forall e {:trigger e in r} :: e in r <==> exists f :: f in S && e in f.entries
  {
    set f, e | f in S && e in f.entries :: e
  }

  ghost predicate Holds(v: Levels, l: int, f: File) {
    0 <= l < NUM_LEVELS && f in v[l]
  }

  // All table entries of a version.
  ghost function Stored(v: Levels): (r: set<Entry>)
    ensures forall e {:trigger e in r} :: e in r <==> exists l, f :: Holds(v, l, f) && e in f.entries
  {
    set l, f, e | 0 <= l < NUM_LEVELS && f in v[l] && Holds(v, l, f) && e in f.entries :: e
  }

  // One level: a deeper level has disjoint files, level 0 is ordered by file number.
  ghost predicate WfLevel(l: int, files: set<File>) {
    && (forall f :: f in files ==> WfFile(f))
    && (l == 0 ==> forall f, g {:trigger Newer(f, g)} :: f in files && g in files && f.number > g.number ==> Newer(f, g))
    && (l > 0 ==> forall f, g {:trigger Before(f, g)} :: f in files && g in files && f != g ==> Before(f, g) || Before(g, f))
  }

  // Upper levels are newer.
  ghost predicate LevelsFresh(v: Levels) {
    forall i, j, f, g {:trigger Holds(v, i, f), Holds(v, j, g), Newer(f, g)} ::
      i < j && Holds(v, i, f) && Holds(v, j, g) ==> Newer(f, g)
  }

  // A file number names one file.
  ghost predicate UniqueNumbers(v: Levels) {
    forall i, j, f, g {:trigger Holds(v, i, f), Holds(v, j, g), f.number, g.number} ::
      Holds(v, i, f) && Holds(v, j, g) && f.number == g.number ==> i == j && f == g
  }

  ghost predicate WfLevels(v: Levels) {
    && (forall l :: 0 <= l < NUM_LEVELS ==> WfLevel(l, v[l]))
    && LevelsFresh(v)
    && UniqueNumbers(v)
  }

  // The whole store: well-formed levels whose entries never share a user key
  // and a sequence number.
  ghost predicate WfStore(v: Levels) {
    WfLevels(v) && Distinct(Stored(v))
  }

  // ---- Compaction -------------------------------------------------------

  // A compaction of level and level + 1 (class Compaction).
  datatype Compaction = Compaction(level: nat, upper: set<File>, lower: set<File>) {
    ghost function Inputs(): set<File> { upper + lower }
  }

  // What the input selection must establish; SetupOtherInputs does.
  ghost predicate GoodInputs(v: Levels, c: Compaction) {
    && c.level + 1 < NUM_LEVELS
    && c.upper <= v[c.level] && c.lower <= v[c.level + 1]
    // what stays in the upper level is newer
    && (forall f, g {:trigger Newer(g, f)} :: f in c.upper && g in v[c.level] && g !in c.upper ==> Newer(g, f))
    // what stays in the lower level shares no user key with the upper inputs
    && (forall f, g {:trigger RangesOverlap(f, g)} :: f in c.upper && g in v[c.level + 1] && g !in c.lower ==> !RangesOverlap(f, g))
    // and lies on one side of all inputs
    && (forall g :: g in v[c.level + 1] && g !in c.lower ==>
          (forall f :: f in c.Inputs() ==> Before(g, f)) || (forall f :: f in c.Inputs() ==> Before(f, g)))
  }

  // Rule (A): a newer entry of the same user key at or below the smallest snapshot hides e.
  ghost predicate Hidden(In: set<Entry>, e: Entry, m: nat) {
    exists f :: f in In && f.key.user == e.key.user && e.key.sequence < f.key.sequence <= m
  }

  // No file below the output level covers the user key.
  ghost predicate IsBaseLevel(v: Levels, level: nat, user: UserKey) {
    forall l, g {:trigger Holds(v, l, g), InUserRange(user, g)} :: l >= level + 2 && Holds(v, l, g) ==> !InUserRange(user, g)
  }

  // The deletion markers the second rule throws away.
  ghost predicate Obsolete(v: Levels, level: nat, e: Entry, m: nat) {
    e.key.kind == Deletion && e.key.sequence <= m && IsBaseLevel(v, level, e.key.user)
  }

  ghost function Kept(v: Levels, c: Compaction, m: nat): (r: set<Entry>)
    ensures forall e {:trigger e in r} :: e in r <==>
      e in EntriesOf(c.Inputs()) && !Hidden(EntriesOf(c.Inputs()), e, m) && !Obsolete(v, c.level, e, m)
  {
    set e | e in EntriesOf(c.Inputs()) && !Hidden(EntriesOf(c.Inputs()), e, m) && !Obsolete(v, c.level, e, m)
  }

  // The files a compaction leaves alone.
  ghost function Remaining(v: Levels, c: Compaction): Levels
    requires c.level + 1 < NUM_LEVELS
  {
    v[c.level := v[c.level] - c.upper][c.level + 1 := v[c.level + 1] - c.lower]
  }

  // Files that may replace the inputs: disjoint, made of input entries, with
  // numbers no other remaining file carries.
  ghost predicate GoodOutputs(v: Levels, c: Compaction, out: set<File>)
    requires c.level + 1 < NUM_LEVELS
  {
    && EntriesOf(out) <= EntriesOf(c.Inputs())
    && WfLevel(1, out)
    && (forall f, g {:trigger f.number, g.number} :: f in out && g in out && f.number == g.number ==> f == g)
    && (forall f, l, g {:trigger Holds(Remaining(v, c), l, g), f.number} ::
          f in out && Holds(Remaining(v, c), l, g) ==> f.number != g.number)
  }

  ghost function Install(v: Levels, c: Compaction, out: set<File>): Levels
    requires c.level + 1 < NUM_LEVELS
  {
    var r := Remaining(v, c);
    r[c.level + 1 := r[c.level + 1] + out]
  }

  lemma StoredSplit(v: Levels, c: Compaction, out: set<File>)
    requires c.level + 1 < NUM_LEVELS && c.upper <= v[c.level] && c.lower <= v[c.level + 1]
    ensures Stored(v) == Stored(Remaining(v, c)) + EntriesOf(c.Inputs())
    ensures Stored(Install(v, c, out)) == Stored(Remaining(v, c)) + EntriesOf(out)
  {
    var r, w := Remaining(v, c), Install(v, c, out);
    forall e | e in Stored(v) ensures e in Stored(r) + EntriesOf(c.Inputs()) {
      var l, f :| Holds(v, l, f) && e in f.entries;
      if f !in c.Inputs() { assert Holds(r, l, f); }
    }
    forall e | e in Stored(r) ensures e in Stored(v) && e in Stored(w) {
      var l, f :| Holds(r, l, f) && e in f.entries;
      assert Holds(v, l, f) && Holds(w, l, f);
    }
    forall e | e in EntriesOf(c.Inputs()) ensures e in Stored(v) {
      var f :| f in c.Inputs() && e in f.entries;
      assert Holds(v, c.level, f) || Holds(v, c.level + 1, f);
    }
    forall e | e in EntriesOf(out) ensures e in Stored(w) {
      var f :| f in out && e in f.entries;
      assert Holds(w, c.level + 1, f);
    }
    forall e | e in Stored(w) ensures e in Stored(r) + EntriesOf(out) {
      var l, f :| Holds(w, l, f) && e in f.entries;
      if f !in out || l != c.level + 1 { assert Holds(r, l, f); }
    }
  }
}
