// A compaction throws entries away; this module proves exactly when no reader
// can tell (db/db_impl.cc, DoCompactionWork).

module CompactionSafety {
  import opened DbFormat
  import opened Levels

  // ---- The drop rules on sets of entries --------------------------------
  //
  // In is what a compaction reads, Rest everything else that is stored, Gone
  // the deletion markers rule (B) throws away.

  ghost function Survivors(In: set<Entry>, Gone: set<Entry>, m: nat): (r: set<Entry>)
    ensures forall e {:trigger e in r} :: e in r <==> e in In && e !in Gone && !Hidden(In, e, m)
  {
    set e | e in In && e !in Gone && !Hidden(In, e, m)
  }

  ghost predicate Markers(In: set<Entry>, Gone: set<Entry>, m: nat) {
    Gone <= In && forall t :: t in Gone ==> t.key.kind == Deletion && t.key.sequence <= m
  }

  // What Rest holds of the marker's user key and is older than the marker lies in Below.
  ghost predicate CoversOnly(Gone: set<Entry>, Rest: set<Entry>, Below: set<Entry>) {
    Below <= Rest &&
    forall t, x {:trigger NewerEntry(t, x)} ::
      t in Gone && x in Rest && t.key.user == x.key.user && NewerEntry(t, x) ==> x in Below
  }

  // The newest visible entry is never hidden, so only rule (B) can drop it.
  lemma NewestDroppedIsMarker(In: set<Entry>, Rest: set<Entry>, Gone: set<Entry>, m: nat, s: nat, t: Entry)
    requires m <= s && t in In && t !in Survivors(In, Gone, m)
    requires IsNewest(In + Rest, t.key.user, s, t)
    ensures t in Gone
  {
    forall f | f in In && f.key.user == t.key.user && f.key.sequence <= m
      ensures f.key.sequence <= t.key.sequence
    {
      assert f in In + Rest && Sees(f, t.key.user, s);
    }
  }

  // When the newest visible entry is a marker that is thrown away, whatever
  // becomes visible is the newest entry of Below.
  lemma Uncovered(In: set<Entry>, Rest: set<Entry>, Gone: set<Entry>, Below: set<Entry>, m: nat, s: nat, t: Entry, x: Entry)
    requires Distinct(In + Rest) && In !! Rest && m <= s
    requires Markers(In, Gone, m) && CoversOnly(Gone, Rest, Below) && t in Gone
    requires IsNewest(In + Rest, t.key.user, s, t)
    requires IsNewest(Survivors(In, Gone, m) + Rest, t.key.user, s, x)
    ensures IsNewest(Below, t.key.user, m, x)
  {
    assert SameVersion(t, x) ==> t == x;
    assert NewerEntry(t, x) ==> Hidden(In, x, m);
    assert NewerEntry(t, x) && x in Below;
    forall y | y in Below && Sees(y, t.key.user, m) ensures y.key.sequence <= x.key.sequence {
      assert y in Survivors(In, Gone, m) + Rest && Sees(y, t.key.user, s);
    }
  }

  lemma SurvivorsAnswer(In: set<Entry>, Rest: set<Entry>, Gone: set<Entry>, Below: set<Entry>, m: nat, s: nat, user: UserKey)
    requires Distinct(In + Rest) && In !! Rest && m <= s
    requires Markers(In, Gone, m) && CoversOnly(Gone, Rest, Below)
    requires forall t :: t in Gone && IsNewest(In + Rest, t.key.user, m, t) ==> View(Below, t.key.user, m).None?
    ensures View(Survivors(In, Gone, m) + Rest, user, s) == View(In + Rest, user, s)
  {
    var All, Left := In + Rest, Survivors(In, Gone, m) + Rest;
    var before, after := Newest(All, user, s), Newest(Left, user, s);
    if before.Some? && before.value in Left {
      NewestIs(Left, user, s, before.value);
    } else if before.Some? {
      var t := before.value;
      NewestDroppedIsMarker(In, Rest, Gone, m, s, t);
      assert IsNewest(All, user, m, t);
      if after.Some? {
        Uncovered(In, Rest, Gone, Below, m, s, t, after.value);
        NewestIs(Below, user, m, after.value);
      }
    }
  }

  // The failing family: reading at the smallest snapshot finds a value that a
  // discarded marker had covered.
  lemma SurvivorsResurrect(In: set<Entry>, Rest: set<Entry>, Gone: set<Entry>, Below: set<Entry>, m: nat, t: Entry)
    requires Distinct(In + Rest) && In !! Rest
    requires Markers(In, Gone, m) && CoversOnly(Gone, Rest, Below)
    requires t in Gone && IsNewest(In + Rest, t.key.user, m, t) && View(Below, t.key.user, m).Some?
    ensures View(In + Rest, t.key.user, m).None?
    ensures View(Survivors(In, Gone, m) + Rest, t.key.user, m) == View(Below, t.key.user, m)
  {
    var user := t.key.user;
    NewestIs(In + Rest, user, m, t);
    var after := Newest(Survivors(In, Gone, m) + Rest, user, m);
    assert Newest(Below, user, m).value in Survivors(In, Gone, m) + Rest;
    Uncovered(In, Rest, Gone, Below, m, m, t, after.value);
    NewestIs(Below, user, m, after.value);
  }

  // ---- On the levels ----------------------------------------------------

  // Every read at or above the smallest snapshot is unchanged.
  ghost predicate PreservesReads(v: Levels, w: Levels, m: nat) {
    forall user: UserKey, s: nat {:trigger View(Stored(w), user, s)} :: s >= m ==> View(Stored(w), user, s) == View(Stored(v), user, s)
  }

  // The entries of the output level that the compaction does not read.
  ghost function LeftBelow(v: Levels, c: Compaction): set<Entry>
    requires c.level + 1 < NUM_LEVELS
  {
    EntriesOf(v[c.level + 1] - c.lower)
  }

  // A deletion marker that rule (B) throws away must not uncover a value left
  // in the output level.
  ghost predicate NoResurrection(v: Levels, c: Compaction, m: nat)
    requires c.level + 1 < NUM_LEVELS
  {
    forall t :: t in EntriesOf(c.Inputs()) && Obsolete(v, c.level, t, m) && IsNewest(Stored(v), t.key.user, m, t)
      ==> View(LeftBelow(v, c), t.key.user, m).None?
  }

  ghost function Discarded(v: Levels, c: Compaction, m: nat): (r: set<Entry>)
    ensures forall e {:trigger e in r} :: e in r <==> e in EntriesOf(c.Inputs()) && Obsolete(v, c.level, e, m)
  {
    set e | e in EntriesOf(c.Inputs()) && Obsolete(v, c.level, e, m)
  }

  // A file that stays at or above the compacted level is newer than the input.
  lemma UpperRemainderIsNewer(v: Levels, c: Compaction, f: File, l: int, g: File)
    requires LevelsFresh(v) && GoodInputs(v, c)
    requires f in c.Inputs() && Holds(Remaining(v, c), l, g) && l <= c.level
    ensures Newer(g, f)
  {
    var k := if f in c.upper then c.level else c.level + 1;
    assert Holds(v, k, f) && Holds(v, l, g);
  }

  // Whatever is older than an input of a base-level user key and is not itself
  // an input was left in the output level.
  lemma OlderIsBelow(v: Levels, c: Compaction, f: File, t: Entry, l: int, g: File, x: Entry)
    requires WfLevels(v) && GoodInputs(v, c)
    requires f in c.Inputs() && t in f.entries && IsBaseLevel(v, c.level, t.key.user)
    requires Holds(Remaining(v, c), l, g) && x in g.entries
    requires x.key.user == t.key.user && x.key.sequence < t.key.sequence
    ensures g in v[c.level + 1] - c.lower
  {
    assert Holds(v, l, g);
    EntryBounds(g, x);
    assert !NewerEntry(x, t);
    if l <= c.level {
      UpperRemainderIsNewer(v, c, f, l, g);
    }
  }

  lemma DiscardedCoversOnlyBelow(v: Levels, c: Compaction, m: nat)
    requires WfLevels(v) && GoodInputs(v, c)
    ensures CoversOnly(Discarded(v, c, m), Stored(Remaining(v, c)), LeftBelow(v, c))
  {
    forall x | x in LeftBelow(v, c) ensures x in Stored(Remaining(v, c)) {
      var g :| g in v[c.level + 1] - c.lower && x in g.entries;
      assert Holds(Remaining(v, c), c.level + 1, g);
    }
    forall t, x | t in Discarded(v, c, m) && x in Stored(Remaining(v, c)) && t.key.user == x.key.user && NewerEntry(t, x)
      ensures x in LeftBelow(v, c)
    {
      var f :| f in c.Inputs() && t in f.entries;
      var l, g :| Holds(Remaining(v, c), l, g) && x in g.entries;
      OlderIsBelow(v, c, f, t, l, g, x);
    }
  }

  // An input file and a remaining file never hold the same entry.
  lemma InputNotRemaining(v: Levels, c: Compaction, f: File, t: Entry, l: int, g: File)
    requires WfLevels(v) && GoodInputs(v, c)
    requires f in c.Inputs() && t in f.entries && Holds(Remaining(v, c), l, g)
    ensures t !in g.entries
  {
    var k := if f in c.upper then c.level else c.level + 1;
    assert Holds(v, k, f) && Holds(v, l, g);
    assert !NewerEntry(t, t);
    EntryBounds(f, t);
    if l <= c.level {
      UpperRemainderIsNewer(v, c, f, l, g);
    } else if l == k {
      assert Before(f, g) || Before(g, f);
      if t in g.entries {
        EntryBounds(g, t);
      }
    } else {
      assert k < l ==> Newer(f, g);
      assert l < k ==> Newer(g, f);
    }
  }

  lemma InputsDisjoint(v: Levels, c: Compaction)
    requires WfLevels(v) && GoodInputs(v, c)
    ensures EntriesOf(c.Inputs()) !! Stored(Remaining(v, c))
  {
    forall t | t in EntriesOf(c.Inputs()) ensures t !in Stored(Remaining(v, c)) {
      var f :| f in c.Inputs() && t in f.entries;
      forall l, g | Holds(Remaining(v, c), l, g) ensures t !in g.entries {
        InputNotRemaining(v, c, f, t, l, g);
      }
    }
  }

  // Reads survive a compaction if and only if no deletion marker it throws
  // away covers a value left behind in the output level.
  lemma CompactionPreservesReads(v: Levels, c: Compaction, m: nat, out: set<File>)
    requires WfStore(v) && GoodInputs(v, c) && EntriesOf(out) == Kept(v, c, m)
    ensures PreservesReads(v, Install(v, c, out), m) <==> NoResurrection(v, c, m)
  {
    var w, In, Rest, Gone, Below := Install(v, c, out), EntriesOf(c.Inputs()), Stored(Remaining(v, c)), Discarded(v, c, m), LeftBelow(v, c);
    StoredSplit(v, c, out);
    InputsDisjoint(v, c);
    DiscardedCoversOnlyBelow(v, c, m);
    assert Survivors(In, Gone, m) == Kept(v, c, m);
    assert Stored(v) == In + Rest && Stored(w) == Survivors(In, Gone, m) + Rest;
    SafeIff(v, c, m, w, In, Rest, Gone, Below);
  }

  lemma SafeIff(v: Levels, c: Compaction, m: nat, w: Levels, In: set<Entry>, Rest: set<Entry>, Gone: set<Entry>, Below: set<Entry>)
    requires c.level + 1 < NUM_LEVELS
    requires In == EntriesOf(c.Inputs()) && Gone == Discarded(v, c, m) && Below == LeftBelow(v, c)
    requires Distinct(In + Rest) && In !! Rest && CoversOnly(Gone, Rest, Below)
    requires Stored(v) == In + Rest && Stored(w) == Survivors(In, Gone, m) + Rest
    ensures PreservesReads(v, w, m) <==> NoResurrection(v, c, m)
  {
    if NoResurrection(v, c, m) {
      forall user: UserKey, s: nat | s >= m
        ensures View(Stored(w), user, s) == View(Stored(v), user, s)
      {
        SurvivorsAnswer(In, Rest, Gone, Below, m, s, user);
      }
    }
    forall t | t in Gone && IsNewest(In + Rest, t.key.user, m, t) && View(Below, t.key.user, m).Some?
      ensures !PreservesReads(v, w, m)
    {
      SurvivorsResurrect(In, Rest, Gone, Below, m, t);
      assert View(Stored(w), t.key.user, m) != View(Stored(v), t.key.user, m);
    }
  }

  // ---- Nothing is kept that can be thrown away --------------------------

  // Of the versions of a user key that the smallest snapshot sees, at most one is kept.
  lemma OneVersionKept(v: Levels, c: Compaction, m: nat, x: Entry, y: Entry)
    requires Distinct(EntriesOf(c.Inputs())) && x in Kept(v, c, m) && y in Kept(v, c, m)
    requires x.key.user == y.key.user && x.key.sequence <= m && y.key.sequence <= m
    ensures x == y
  {
    assert x.key.sequence == y.key.sequence ==> SameVersion(x, y);
  }

  // A marker that every snapshot sees is kept only if a deeper level may hold its user key.
  lemma KeptMarkerHides(v: Levels, c: Compaction, m: nat, t: Entry) returns (l: int, g: File)
    requires t in Kept(v, c, m) && t.key.kind == Deletion && t.key.sequence <= m
    ensures l > c.level + 1 && Holds(v, l, g) && InUserRange(t.key.user, g)
  {
    l, g :| l >= c.level + 2 && Holds(v, l, g) && InUserRange(t.key.user, g);
  }

  // What every entry newer than the smallest snapshot is kept.
  lemma NewerKept(v: Levels, c: Compaction, m: nat, x: Entry)
    requires x in EntriesOf(c.Inputs()) && x.key.sequence > m
    ensures x in Kept(v, c, m)
  {
  }

  // What the two rules come to for files that replace the inputs.
  ghost predicate Tight(v: Levels, level: nat, m: nat, out: set<File>) {
    && (forall x, y {:trigger SameUser(x, y)} ::
          x in EntriesOf(out) && y in EntriesOf(out) && SameUser(x, y) && x.key.sequence <= m && y.key.sequence <= m ==> x == y)
    && forall t {:trigger t in EntriesOf(out)} :: t in EntriesOf(out) && t.key.kind == Deletion && t.key.sequence <= m ==>
         !IsBaseLevel(v, level, t.key.user)
  }

  predicate SameUser(x: Entry, y: Entry) {
    x.key.user == y.key.user
  }

  lemma KeptIsTight(v: Levels, c: Compaction, m: nat, out: set<File>)
    requires Distinct(EntriesOf(c.Inputs())) && EntriesOf(out) == Kept(v, c, m)
    ensures Tight(v, c.level, m, out)
  {
    forall x, y | x in EntriesOf(out) && y in EntriesOf(out) && SameUser(x, y) && x.key.sequence <= m && y.key.sequence <= m
      ensures x == y
    {
      OneVersionKept(v, c, m, x, y);
    }
    forall t | t in EntriesOf(out) && t.key.kind == Deletion && t.key.sequence <= m ensures !IsBaseLevel(v, c.level, t.key.user) {
      var l, g := KeptMarkerHides(v, c, m, t);
    }
  }

  // What a caller can look for: no remaining file of the output level continues
  // a user key of the lower inputs.
  ghost predicate LowerBoundaryClosed(v: Levels, c: Compaction)
    requires c.level + 1 < NUM_LEVELS
  {
    forall f, g {:trigger RangesOverlap(f, g)} :: f in c.lower && g in v[c.level + 1] && g !in c.lower ==> !RangesOverlap(f, g)
  }

  lemma ClosedBoundaryIsSafe(v: Levels, c: Compaction, m: nat)
    requires WfLevels(v) && GoodInputs(v, c) && LowerBoundaryClosed(v, c)
    ensures NoResurrection(v, c, m)
  {
    forall f, t | f in c.Inputs() && t in f.entries
      ensures Newest(LeftBelow(v, c), t.key.user, m).None?
    {
      ClosedBoundaryLeavesNothing(v, c, f, t, m);
    }
  }

  lemma ClosedBoundaryLeavesNothing(v: Levels, c: Compaction, f: File, t: Entry, m: nat)
    requires WfLevels(v) && GoodInputs(v, c) && LowerBoundaryClosed(v, c)
    requires f in c.Inputs() && t in f.entries
    ensures Newest(LeftBelow(v, c), t.key.user, m).None?
  {
    var others := v[c.level + 1] - c.lower;
    InputIsWf(v, c, f);
    forall g | g in others ensures ClearOf(f, g) {
      InputIsClear(v, c, f, g);
    }
    NoSharedKey(f, others, t, m);
  }

  lemma InputIsWf(v: Levels, c: Compaction, f: File)
    requires WfLevels(v) && GoodInputs(v, c) && f in c.Inputs()
    ensures WfFile(f)
  {
    assert WfLevel(c.level, v[c.level]) && WfLevel(c.level + 1, v[c.level + 1]);
  }

  lemma InputIsClear(v: Levels, c: Compaction, f: File, g: File)
    requires WfLevels(v) && GoodInputs(v, c) && LowerBoundaryClosed(v, c)
    requires f in c.Inputs() && g in v[c.level + 1] - c.lower
    ensures ClearOf(f, g)
  {
    InputIsWf(v, c, f);
    assert WfLevel(c.level + 1, v[c.level + 1]);
    if f in c.upper {
      assert !RangesOverlap(f, g);
    } else {
      assert f in c.lower && !RangesOverlap(f, g);
    }
  }

  ghost predicate ClearOf(f: File, g: File) {
    WfFile(f) && WfFile(g) && !RangesOverlap(f, g)
  }

  lemma NoSharedKey(f: File, others: set<File>, t: Entry, m: nat)
    requires WfFile(f) && t in f.entries
    requires forall g {:trigger ClearOf(f, g)} :: g in others ==> ClearOf(f, g)
    ensures Newest(EntriesOf(others), t.key.user, m).None?
  {
    EntryBounds(f, t);
    forall g, x | g in others && x in g.entries ensures x.key.user != t.key.user {
      assert ClearOf(f, g);
      EntryBounds(g, x);
    }
  }
}
