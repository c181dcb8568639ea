// Version edits, the builder that applies them and the replay of a manifest
// (db/version_edit.h; db/version_set.cc, Builder, LogAndApply, Recover, WriteSnapshot).

module Manifest {
  import opened DbFormat
  import opened Levels
  import opened VersionSet

  datatype VersionEdit = VersionEdit(
    logNumber: Option<nat>,
    nextFile: Option<nat>,
    lastSequence: Option<nat>,
    deletedFiles: set<(nat, nat)>,   // level, number
    newFiles: seq<(nat, File)>)      // level, file

  const EMPTY_VERSION: Version := [[], [], [], [], [], [], []]

  // A file number stands for one file.
  ghost predicate NumbersIdentify(U: set<File>) {
    forall f, g {:trigger f.number, g.number} :: f in U && g in U && f.number == g.number ==> f == g
  }

  ghost function AddedAt(e: VersionEdit, l: nat): (r: set<File>)
    ensures forall f {:trigger f in r} :: f in r <==> (l, f) in e.newFiles
  {
    set p | p in e.newFiles && p.0 == l :: p.1
  }

  // What an edit does to the files of one level: deletions first, then additions.
  ghost function Edited(S: set<File>, e: VersionEdit, l: nat): (r: set<File>)
    ensures forall f {:trigger f in r} :: f in r <==> (f in S && (l, f.number) !in e.deletedFiles) || f in AddedAt(e, l)
  {
    (set f | f in S && (l, f.number) !in e.deletedFiles) + AddedAt(e, l)
  }

  ghost predicate EditWithin(e: VersionEdit, U: set<File>) {
    && (forall d {:trigger d in e.deletedFiles} :: d in e.deletedFiles ==> d.0 < NUM_LEVELS)
    && (forall p {:trigger p in e.newFiles} :: p in e.newFiles ==> p.0 < NUM_LEVELS && p.1 in U)
  }

  ghost predicate VersionWithin(v: Version, U: set<File>) {
    forall l, f {:trigger f in v[l]} :: 0 <= l < NUM_LEVELS && f in v[l] ==> f in U
  }

  // ---- Order of files in a level ----------------------------------------

  predicate NotAfter(f: File, g: File) {
    !BySmallest(g, f)
  }

  lemma BySmallestIsTotal(f: File, g: File, U: set<File>)
    requires NumbersIdentify(U) && f in U && g in U
    ensures f == g || BySmallest(f, g) || BySmallest(g, f)
  {
  }

  // Sorted, with room for the same file twice.
  ghost predicate WeaklyOrdered(fs: seq<File>) {
    forall i, j {:trigger NotAfter(fs[i], fs[j])} :: 0 <= i < j < |fs| ==> NotAfter(fs[i], fs[j])
  }

  lemma {:induction false} OrderedListsEqual(a: seq<File>, b: seq<File>)
    requires Ordered(a) && Ordered(b) && FileSet(a) == FileSet(b)
    ensures a == b
  {
    assert (a != [] ==> a[0] in FileSet(a)) && (b != [] ==> b[0] in FileSet(b));
    if a != [] {
      assert a[0] in FileSet(b);
      assert b != [] && b[0] in FileSet(a);
      var i :| 0 <= i < |b| && b[i] == a[0];
      var j :| 0 <= j < |a| && a[j] == b[0];
      assert (i > 0 ==> BySmallest(b[0], b[i])) && (j > 0 ==> BySmallest(a[0], a[j]));
      OrderedTail(a);
      OrderedTail(b);
      OrderedListsEqual(a[1..], b[1..]);
    }
  }

  lemma OrderedTail(a: seq<File>)
    requires Ordered(a) && a != []
    ensures Ordered(a[1..]) && FileSet(a[1..]) == FileSet(a) - {a[0]}
  {
    var t := a[1..];
    forall i, j | 0 <= i < j < |t| ensures BySmallest(t[i], t[j]) {
      assert BySmallest(a[i + 1], a[j + 1]);
    }
    forall f | f in FileSet(t) ensures f in FileSet(a) && f != a[0] {
      var i :| 0 <= i < |t| && t[i] == f;
      assert BySmallest(a[0], a[i + 1]);
    }
    forall f | f in FileSet(a) - {a[0]} ensures f in FileSet(t) {
      var i :| 0 <= i < |a| && a[i] == f;
      assert t[i - 1] == f;
    }
  }

  // std::set::insert with BySmallestKey.
  function InsertFile(f: File, fs: seq<File>): seq<File> {
    if fs == [] || BySmallest(f, fs[0]) then [f] + fs
    else if BySmallest(fs[0], f) then [fs[0]] + InsertFile(f, fs[1..])
    else fs
  }

  lemma PrependFile(f: File, fs: seq<File>)
    requires Ordered(fs) && forall g {:trigger g in FileSet(fs)} :: g in FileSet(fs) ==> BySmallest(f, g)
    ensures Ordered([f] + fs) && FileSet([f] + fs) == {f} + FileSet(fs)
  {
    var r := [f] + fs;
    forall i, j | 0 <= i < j < |r| ensures BySmallest(r[i], r[j]) {
      assert r[j] == fs[j - 1] && fs[j - 1] in FileSet(fs);
      assert i > 0 ==> BySmallest(fs[i - 1], fs[j - 1]);
    }
  }

  lemma {:induction false} InsertFileIs(f: File, fs: seq<File>, U: set<File>)
    requires NumbersIdentify(U) && f in U && FileSet(fs) <= U && Ordered(fs)
    ensures FileSet(InsertFile(f, fs)) == FileSet(fs) + {f} && Ordered(InsertFile(f, fs))
  {
    if fs != [] {
      OrderedTail(fs);
      FirstIsBefore(fs);
      assert fs[0] in FileSet(fs);
      BySmallestIsTotal(f, fs[0], U);
      if BySmallest(f, fs[0]) {
        PrependFile(f, fs);
      } else if BySmallest(fs[0], f) {
        InsertFileIs(f, fs[1..], U);
        PrependFile(fs[0], InsertFile(f, fs[1..]));
      }
    }
  }

  lemma FirstIsBefore(fs: seq<File>)
    requires Ordered(fs) && fs != []
    ensures forall g {:trigger g in FileSet(fs[1..])} :: g in FileSet(fs[1..]) ==> BySmallest(fs[0], g)
    ensures forall g {:trigger g in FileSet(fs)} :: g in FileSet(fs) ==> g == fs[0] || BySmallest(fs[0], g)
  {
    forall g | g in FileSet(fs) ensures g == fs[0] || BySmallest(fs[0], g) {
      var i :| 0 <= i < |fs| && fs[i] == g;
    }
    forall g | g in FileSet(fs[1..]) ensures BySmallest(fs[0], g) {
      var i :| 0 <= i < |fs[1..]| && fs[1..][i] == g;
      assert BySmallest(fs[0], fs[i + 1]);
    }
  }

  // ---- The files kept ---------------------------------------------------

  ghost function KeptFiles(fs: seq<File>, gone: set<nat>): seq<File> {
    if fs == [] then []
    else KeptFiles(fs[..|fs| - 1], gone) + (if fs[|fs| - 1].number in gone then [] else [fs[|fs| - 1]])
  }

  lemma KeptStep(fs: seq<File>, gone: set<nat>, i: nat)
    requires i < |fs|
    ensures KeptFiles(fs[..i + 1], gone) == KeptFiles(fs[..i], gone) + (if fs[i].number in gone then [] else [fs[i]])
  {
    assert fs[..i + 1][..i] == fs[..i];
  }

  // A kept file is kept once.
  lemma {:induction false} KeptCount(fs: seq<File>, gone: set<nat>, f: File)
    requires Ordered(fs)
    ensures multiset(KeptFiles(fs, gone))[f] == if f in fs && f.number !in gone then 1 else 0
  {
    if fs != [] {
      var front, last := fs[..|fs| - 1], fs[|fs| - 1];
      forall i, j | 0 <= i < j < |front| ensures BySmallest(front[i], front[j]) {
        assert BySmallest(fs[i], fs[j]);
      }
      KeptCount(front, gone, f);
      forall i | 0 <= i < |front| ensures front[i] != last {
        assert BySmallest(fs[i], fs[|fs| - 1]);
      }
      assert f in fs <==> f in front || f == last;
    }
  }

  // A file that occurs twice stands at two places that cannot be in order.
  lemma OrderedCount(out: seq<File>, f: File)
    requires Ordered(out)
    ensures multiset(out)[f] <= 1
  {
    KeptCount(out, {}, f);
    KeptAll(out);
  }

  lemma {:induction false} KeptAll(fs: seq<File>)
    ensures KeptFiles(fs, {}) == fs
  {
    if fs != [] {
      KeptAll(fs[..|fs| - 1]);
    }
  }

  // Weak order without a repeated file is order.
  lemma WeakOrderIsOrder(out: seq<File>, U: set<File>)
    requires NumbersIdentify(U) && FileSet(out) <= U && WeaklyOrdered(out)
    requires forall f :: multiset(out)[f] <= 1
    ensures Ordered(out)
  {
    forall i, j | 0 <= i < j < |out| ensures BySmallest(out[i], out[j]) {
      assert out[i] in FileSet(out) && out[j] in FileSet(out) && NotAfter(out[i], out[j]);
      BySmallestIsTotal(out[i], out[j], U);
      RepeatedFile(out, i, j);
    }
  }

  lemma RepeatedFile(out: seq<File>, i: nat, j: nat)
    requires i < j < |out|
    ensures out[i] == out[j] ==> multiset(out)[out[i]] >= 2
  {
    assert out == out[..j] + out[j..];
    assert out[i] in out[..j] && out[j] in out[j..];
  }

  // Everything in out may stand before what is left of rest.
  ghost predicate FrontOf(out: seq<File>, rest: seq<File>, k: nat) {
    forall a, m {:trigger NotAfter(out[a], rest[m])} :: 0 <= a < |out| && k <= m < |rest| ==> NotAfter(out[a], rest[m])
  }

  function MaybeAddFile(out: seq<File>, gone: set<nat>, f: File): seq<File> {
    if f.number in gone then out else out + [f]
  }

  // Taking the next file of one list when it is not after the next of the other.
  lemma TakeFile(out: seq<File>, gone: set<nat>, rest: seq<File>, i: nat, others: seq<File>, j: nat)
    requires i < |rest| && Ordered(rest) && Ordered(others) && WeaklyOrdered(out)
    requires FrontOf(out, rest, i) && FrontOf(out, others, j) && (j < |others| ==> NotAfter(rest[i], others[j]))
    ensures WeaklyOrdered(MaybeAddFile(out, gone, rest[i]))
    ensures FrontOf(MaybeAddFile(out, gone, rest[i]), rest, i + 1) && FrontOf(MaybeAddFile(out, gone, rest[i]), others, j)
  {
    var r := MaybeAddFile(out, gone, rest[i]);
    forall a, b | 0 <= a < b < |r| ensures NotAfter(r[a], r[b]) {
      assert b == |out| ==> NotAfter(out[a], rest[i]);
      assert b < |out| ==> NotAfter(out[a], out[b]);
    }
    forall a, m | 0 <= a < |r| && i + 1 <= m < |rest| ensures NotAfter(r[a], rest[m]) {
      assert BySmallest(rest[i], rest[m]);
      assert a < |out| ==> NotAfter(out[a], rest[m]);
    }
    forall a, m | 0 <= a < |r| && j <= m < |others| ensures NotAfter(r[a], others[m]) {
      assert m > j ==> BySmallest(others[j], others[m]);
      assert a < |out| ==> NotAfter(out[a], others[m]);
    }
  }

  // out holds the first i base files and the first j added files that are not gone.
  ghost predicate Merged(out: seq<File>, base: seq<File>, i: nat, added: seq<File>, j: nat, gone: set<nat>)
    requires i <= |base| && j <= |added|
  {
    multiset(out) == multiset(KeptFiles(base[..i], gone)) + multiset(KeptFiles(added[..j], gone))
  }

  // The merge loop stands before base file i and added file j.
  ghost predicate Merging(out: seq<File>, base: seq<File>, i: nat, added: seq<File>, j: nat, gone: set<nat>) {
    && i <= |base| && j <= |added| && WeaklyOrdered(out) && FrontOf(out, base, i) && FrontOf(out, added, j)
    && Merged(out, base, i, added, j, gone)
  }

  lemma MergeBase(out: seq<File>, base: seq<File>, i: nat, added: seq<File>, j: nat, gone: set<nat>)
    requires Ordered(base) && Ordered(added) && Merging(out, base, i, added, j, gone)
    requires i < |base| && (j < |added| ==> NotAfter(base[i], added[j]))
    ensures Merging(MaybeAddFile(out, gone, base[i]), base, i + 1, added, j, gone)
  {
    TakeFile(out, gone, base, i, added, j);
    KeptStep(base, gone, i);
  }

  lemma MergeAdded(out: seq<File>, base: seq<File>, i: nat, added: seq<File>, j: nat, gone: set<nat>)
    requires Ordered(base) && Ordered(added) && Merging(out, base, i, added, j, gone)
    requires j < |added| && (i < |base| ==> NotAfter(added[j], base[i]))
    ensures Merging(MaybeAddFile(out, gone, added[j]), base, i, added, j + 1, gone)
  {
    TakeFile(out, gone, added, j, base, i);
    KeptStep(added, gone, j);
  }

  // Add the base files up to std::upper_bound of an added file (all of them when there is none).
  method AddSmallerFiles(base: seq<File>, i0: nat, ghost added: seq<File>, ghost j: nat, next: Option<File>, gone: set<nat>, out0: seq<File>)
      returns (out: seq<File>, i: nat)
    requires Ordered(base) && Ordered(added) && Merging(out0, base, i0, added, j, gone)
    requires next == if j < |added| then Some(added[j]) else None
    ensures Merging(out, base, i, added, j, gone)
    ensures i < |base| ==> next.Some? && BySmallest(next.value, base[i])
  {
    out, i := out0, i0;
    while i < |base| && (next.None? || !BySmallest(next.value, base[i]))
      invariant Merging(out, base, i, added, j, gone)
      decreases |base| - i
    {
      MergeBase(out, base, i, added, j, gone);
      out := MaybeAddFile(out, gone, base[i]);
      i := i + 1;
    }
  }

  // Merge the added files into the sorted files of one base level.
  method SaveLevel(base: seq<File>, added: seq<File>, gone: set<nat>) returns (out: seq<File>)
    requires Ordered(base) && Ordered(added)
    ensures WeaklyOrdered(out)
    ensures Merged(out, base, |base|, added, |added|, gone)
  {
    out := [];
    var i := 0;
    for j := 0 to |added|
      invariant Merging(out, base, i, added, j, gone)
    {
      out, i := AddSmallerFiles(base, i, added, j, Some(added[j]), gone, out);
      MergeAdded(out, base, i, added, j, gone);
      out := MaybeAddFile(out, gone, added[j]);
    }
    out, i := AddSmallerFiles(base, i, added, |added|, None, gone, out);
  }

  ghost predicate Remains(f: File, base: seq<File>, added: seq<File>, gone: set<nat>) {
    (f in base || f in added) && f.number !in gone
  }

  lemma MergedCount(out: seq<File>, base: seq<File>, added: seq<File>, gone: set<nat>, f: File)
    requires Ordered(base) && Ordered(added) && Merged(out, base, |base|, added, |added|, gone)
    ensures f in out <==> Remains(f, base, added, gone)
    ensures multiset(out)[f] > 1 <==> Remains(f, base, added, gone) && f in base && f in added
  {
    assert base[..|base|] == base && added[..|added|] == added;
    KeptCount(base, gone, f);
    KeptCount(added, gone, f);
    assert f in out <==> multiset(out)[f] > 0;
  }

  // A merged level is strictly sorted unless a kept base file was added once more.
  lemma MergedIsOrdered(out: seq<File>, base: seq<File>, added: seq<File>, gone: set<nat>, U: set<File>)
    requires NumbersIdentify(U) && FileSet(out) <= U && WeaklyOrdered(out)
    requires Ordered(base) && Ordered(added) && Merged(out, base, |base|, added, |added|, gone)
    ensures Ordered(out) <==> forall f :: Remains(f, base, added, gone) ==> !(f in base && f in added)
  {
    if Ordered(out) {
      forall f | Remains(f, base, added, gone) ensures !(f in base && f in added) {
        OrderedCount(out, f);
        MergedCount(out, base, added, gone, f);
      }
    }
    if forall f :: Remains(f, base, added, gone) ==> !(f in base && f in added) {
      forall f ensures multiset(out)[f] <= 1 {
        MergedCount(out, base, added, gone, f);
      }
      WeakOrderIsOrder(out, U);
    }
  }

  // ---- The builder ------------------------------------------------------

  class Builder {
    const base: Version
    var deleted: seq<set<nat>>
    var added: seq<seq<File>>
    ghost const U: set<File>

    ghost predicate Valid()
      reads this
    {
      && NumbersIdentify(U) && VersionWithin(base, U)
      && |deleted| == NUM_LEVELS && |added| == NUM_LEVELS
      && (forall l {:trigger base[l]} :: 0 <= l < NUM_LEVELS ==> Ordered(base[l]))
      && (forall l {:trigger added[l]} :: 0 <= l < NUM_LEVELS ==> Ordered(added[l]) && FileSet(added[l]) <= U)
    }

    // The files a level would have if saved now.
    ghost function Contents(l: nat): (r: set<File>)
      requires l < NUM_LEVELS && |deleted| == NUM_LEVELS && |added| == NUM_LEVELS
      reads this
    {
      set f | f in FileSet(base[l]) + FileSet(added[l]) && f.number !in deleted[l]
    }

    constructor (base: Version, ghost U: set<File>)
      requires NumbersIdentify(U) && VersionWithin(base, U) && forall l :: 0 <= l < NUM_LEVELS ==> Ordered(base[l])
      ensures Valid() && this.base == base && this.U == U
      ensures added == EMPTY_VERSION
      ensures forall l :: 0 <= l < NUM_LEVELS ==> Contents(l) == FileSet(base[l])
    {
      this.base, this.U := base, U;
      deleted, added := [{}, {}, {}, {}, {}, {}, {}], EMPTY_VERSION;
    }

    method DeleteFiles(e: VersionEdit)
      requires Valid() && EditWithin(e, U)
      modifies this`deleted
      ensures Valid() && forall l, n :: 0 <= l < NUM_LEVELS ==> (n in deleted[l] <==> n in old(deleted)[l] || (l, n) in e.deletedFiles)
    {
      var todo := e.deletedFiles;
      while todo != {}
        invariant Valid() && todo <= e.deletedFiles
        invariant forall l, n :: 0 <= l < NUM_LEVELS ==>
                    (n in deleted[l] <==> n in old(deleted)[l] || ((l, n) in e.deletedFiles && (l, n) !in todo))
        decreases todo
      {
        var d :| d in todo;
        deleted := deleted[d.0 := deleted[d.0] + {d.1}];
        todo := todo - {d};
      }
    }

    method AddNewFile(level: nat, f: File)
      requires Valid() && level < NUM_LEVELS && f in U
      modifies this
      ensures Valid()
      ensures deleted == old(deleted)[level := old(deleted)[level] - {f.number}]
      ensures forall l, g {:trigger g in added[l]} :: 0 <= l < NUM_LEVELS ==> (g in added[l] <==> g in old(added)[l] || (l == level && g == f))
    {
      InsertFileIs(f, added[level], U);
      assert forall g :: g in FileSet(InsertFile(f, added[level])) <==> g in added[level] || g == f;
      deleted := deleted[level := deleted[level] - {f.number}];
      added := added[level := InsertFile(f, added[level])];
    }

    method AddNewFiles(e: VersionEdit)
      requires Valid() && EditWithin(e, U)
      modifies this
      ensures Valid()
      ensures forall l :: 0 <= l < NUM_LEVELS ==> FileSet(added[l]) == FileSet(old(added)[l]) + AddedAt(e, l)
      ensures forall l, n :: 0 <= l < NUM_LEVELS ==>
                (n in deleted[l] <==> n in old(deleted)[l] && !Names(e.newFiles, l, n))
    {
      for i := 0 to |e.newFiles|
        invariant Valid()
        invariant forall l, f {:trigger f in added[l]} :: 0 <= l < NUM_LEVELS ==> (f in added[l] <==> f in old(added)[l] || (l, f) in e.newFiles[..i])
        invariant forall l, n :: 0 <= l < NUM_LEVELS ==>
                    (n in deleted[l] <==> n in old(deleted)[l] && !Names(e.newFiles[..i], l, n))
      {
        var p := e.newFiles[i];
        assert p in e.newFiles;
        AddNewFile(p.0, p.1);
        AddedOneMore(e.newFiles, i);
      }
      assert e.newFiles[..|e.newFiles|] == e.newFiles;
    }

    method Apply(e: VersionEdit)
      requires Valid() && EditWithin(e, U)
      modifies this
      ensures Valid() && forall l :: 0 <= l < NUM_LEVELS ==> Contents(l) == Edited(old(Contents(l)), e, l)
      ensures forall l :: 0 <= l < NUM_LEVELS ==> FileSet(added[l]) == FileSet(old(added)[l]) + AddedAt(e, l)
      ensures forall l, f :: 0 <= l < NUM_LEVELS && f in AddedAt(e, l) ==> f.number !in deleted[l]
    {
      ghost var was := deleted;
      DeleteFiles(e);
      AddNewFiles(e);
      forall l | 0 <= l < NUM_LEVELS ensures Contents(l) == Edited(old(Contents(l)), e, l) {
        forall f | f in U ensures f in Contents(l) <==> f in Edited(old(Contents(l)), e, l) {
          if g :| (l, g) in e.newFiles && g.number == f.number {
            assert g in U && f == g;
          }
        }
        assert Contents(l) <= U && Edited(old(Contents(l)), e, l) <= U;
      }
    }

    // A saved level holds exactly the current contents; it is strictly sorted
    // unless a kept base file was added once more.
    method SaveTo() returns (v: Version)
      requires Valid()
      ensures forall l {:trigger v[l]} :: 0 <= l < NUM_LEVELS ==> FileSet(v[l]) == Contents(l)
      ensures forall l {:trigger v[l]} :: 0 <= l < NUM_LEVELS ==>
                (Ordered(v[l]) <==> forall f {:trigger f in Contents(l)} :: f in Contents(l) ==> !(f in base[l] && f in added[l]))
    {
      v := EMPTY_VERSION;
      for l := 0 to NUM_LEVELS
        invariant forall k {:trigger v[k]} :: 0 <= k < l ==> FileSet(v[k]) == Contents(k)
        invariant forall k {:trigger v[k]} :: 0 <= k < l ==>
                    (Ordered(v[k]) <==> forall f {:trigger f in Contents(k)} :: f in Contents(k) ==> !(f in base[k] && f in added[k]))
      {
        var out := SaveLevel(base[l], added[l], deleted[l]);
        forall f ensures f in out <==> f in Contents(l) {
          MergedCount(out, base[l], added[l], deleted[l], f);
        }
        MergedIsOrdered(out, base[l], added[l], deleted[l], U);
        assert forall f :: f in Contents(l) <==> Remains(f, base[l], added[l], deleted[l]);
        v := v[l := out];
      }
    }
  }

  lemma AddedOneMore(fs: seq<(nat, File)>, i: nat)
    requires i < |fs|
    ensures forall p {:trigger p in fs[..i + 1]} :: p in fs[..i + 1] <==> p in fs[..i] || p == fs[i]
    ensures forall l, n {:trigger Names(fs[..i + 1], l, n)} ::
              Names(fs[..i + 1], l, n) <==> Names(fs[..i], l, n) || (l == fs[i].0 && n == fs[i].1.number)
  {
    assert fs[..i + 1] == fs[..i] + [fs[i]];
    forall l, n ensures Names(fs[..i + 1], l, n) <==> Names(fs[..i], l, n) || (l == fs[i].0 && n == fs[i].1.number) {
      if l == fs[i].0 && n == fs[i].1.number {
        assert (l, fs[i].1) in fs[..i + 1];
      }
      if f :| (l, f) in fs[..i] && f.number == n {
        assert (l, f) in fs[..i + 1];
      }
      if f :| (l, f) in fs[..i + 1] && f.number == n {
        assert (l, f) in fs[..i] || (l, f) == fs[i];
      }
    }
  }

  ghost predicate Names(fs: seq<(nat, File)>, l: nat, n: nat) {
    exists f {:trigger (l, f) in fs} :: (l, f) in fs && f.number == n
  }

  // ---- Installing one edit, replaying all of them -----------------------

  // One edit turns v into w.
  ghost predicate Installs(v: Version, e: VersionEdit, w: Version) {
    forall l {:trigger w[l]} :: 0 <= l < NUM_LEVELS ==> Ordered(w[l]) && FileSet(w[l]) == Edited(FileSet(v[l]), e, l)
  }

  // No file is added to a level that already has it.
  ghost predicate AddsOnlyNewFiles(v: Version, e: VersionEdit) {
    forall l, f {:trigger (l, f) in e.newFiles} :: 0 <= l < NUM_LEVELS && (l, f) in e.newFiles ==> f !in v[l]
  }

  ghost predicate AllOrdered(v: Version) {
    forall l {:trigger v[l]} :: 0 <= l < NUM_LEVELS ==> Ordered(v[l])
  }

  // The version part of LogAndApply.  The new version is well sorted exactly
  // when the edit adds no file its level already has, not even one it deletes.
  method ApplyEdit(v: Version, e: VersionEdit, ghost U: set<File>) returns (w: Version)
    requires NumbersIdentify(U) && VersionWithin(v, U) && EditWithin(e, U) && AllOrdered(v)
    ensures forall l {:trigger w[l]} :: 0 <= l < NUM_LEVELS ==> FileSet(w[l]) == Edited(FileSet(v[l]), e, l)
    ensures AllOrdered(w) <==> AddsOnlyNewFiles(v, e)
    ensures Installs(v, e, w) <==> AddsOnlyNewFiles(v, e)
  {
    var b := new Builder(v, U);
    b.Apply(e);
    w := b.SaveTo();
    forall l | 0 <= l < NUM_LEVELS ensures Ordered(w[l]) <==> forall f :: (l, f) in e.newFiles ==> f !in v[l] {
      assert forall f :: f in b.added[l] <==> f in FileSet(b.added[l]);
      forall f ensures f in b.added[l] <==> (l, f) in e.newFiles {
        assert f in FileSet(b.added[l]) <==> f in AddedAt(e, l);
      }
      forall f | (l, f) in e.newFiles ensures f in b.Contents(l) {
        assert f in AddedAt(e, l);
      }
    }
  }

  ghost function EditedAll(S: set<File>, es: seq<VersionEdit>, l: nat): set<File> {
    if es == [] then S else Edited(EditedAll(S, es[..|es| - 1], l), es[|es| - 1], l)
  }

  ghost predicate EditsWithin(es: seq<VersionEdit>, U: set<File>) {
    forall i {:trigger es[i]} :: 0 <= i < |es| ==> EditWithin(es[i], U)
  }

  // v is what the edits describe, starting from nothing.
  ghost predicate Describes(es: seq<VersionEdit>, v: Version) {
    forall l {:trigger v[l]} :: 0 <= l < NUM_LEVELS ==> Ordered(v[l]) && FileSet(v[l]) == EditedAll({}, es, l)
  }

  lemma DescribedOnce(es: seq<VersionEdit>, v: Version, w: Version)
    requires Describes(es, v) && Describes(es, w)
    ensures v == w
  {
    forall l | 0 <= l < NUM_LEVELS ensures v[l] == w[l] {
      OrderedListsEqual(v[l], w[l]);
    }
  }

  lemma DescribesStep(es: seq<VersionEdit>, v: Version, e: VersionEdit, w: Version)
    requires Describes(es, v) && Installs(v, e, w)
    ensures Describes(es + [e], w)
  {
    assert (es + [e])[..|es|] == es;
    assert forall l :: 0 <= l < NUM_LEVELS ==> FileSet(v[l]) == EditedAll({}, es, l);
  }

  // The versions live code went through, one edit at a time.
  ghost predicate IsHistory(es: seq<VersionEdit>, vs: seq<Version>) {
    && |vs| == |es| + 1 && vs[0] == EMPTY_VERSION
    && forall i {:trigger es[i]} :: 0 <= i < |es| ==> Installs(vs[i], es[i], vs[i + 1])
  }

  lemma {:induction false} HistoryDescribes(es: seq<VersionEdit>, vs: seq<Version>)
    requires IsHistory(es, vs)
    ensures Describes(es, vs[|es|])
  {
    if es != [] {
      var n := |es| - 1;
      HistoryDescribes(es[..n], vs[..n + 1]);
      DescribesStep(es[..n], vs[n], es[n], vs[n + 1]);
      assert es[..n] + [es[n]] == es;
    }
  }

  datatype Counter = LogNumber | NextFile | LastSequence

  function CounterOf(e: VersionEdit, c: Counter): Option<nat> {
    match c
    case LogNumber => e.logNumber
    case NextFile => e.nextFile
    case LastSequence => e.lastSequence
  }

  // The last value any edit recorded for a counter.
  ghost function LastSet(es: seq<VersionEdit>, c: Counter): Option<nat> {
    if es == [] then None
    else if CounterOf(es[|es| - 1], c).Some? then CounterOf(es[|es| - 1], c)
    else LastSet(es[..|es| - 1], c)
  }

  datatype Recovered = Recovered(version: Version, logNumber: nat, nextFile: nat, lastSequence: nat)

  // Replay every record of a manifest with one builder over the empty version;
  // recovery fails when one of the three counters was never recorded.
  method RecoverManifest(es: seq<VersionEdit>, ghost U: set<File>) returns (r: Option<Recovered>)
    requires NumbersIdentify(U) && EditsWithin(es, U)
    ensures r.None? <==> LastSet(es, LogNumber) == None || LastSet(es, NextFile) == None || LastSet(es, LastSequence) == None
    ensures r.Some? ==> Describes(es, r.value.version)
    ensures r.Some? ==> && LastSet(es, LogNumber) == Some(r.value.logNumber)
                        && LastSet(es, NextFile) == Some(r.value.nextFile)
                        && LastSet(es, LastSequence) == Some(r.value.lastSequence)
  {
    var b := new Builder(EMPTY_VERSION, U);
    var logNumber: Option<nat>, nextFile: Option<nat>, lastSequence: Option<nat> := None, None, None;
    for i := 0 to |es|
      invariant b.Valid() && b.U == U && b.base == EMPTY_VERSION && fresh(b)
      invariant forall l :: 0 <= l < NUM_LEVELS ==> b.Contents(l) == EditedAll({}, es[..i], l)
      invariant logNumber == LastSet(es[..i], LogNumber) && nextFile == LastSet(es[..i], NextFile)
      invariant lastSequence == LastSet(es[..i], LastSequence)
    {
      var e := es[i];
      assert es[..i + 1][..i] == es[..i];
      b.Apply(e);
      logNumber := if e.logNumber.Some? then e.logNumber else logNumber;
      nextFile := if e.nextFile.Some? then e.nextFile else nextFile;
      lastSequence := if e.lastSequence.Some? then e.lastSequence else lastSequence;
    }
    assert es[..|es|] == es;
    if logNumber.None? || nextFile.None? || lastSequence.None? {
      return None;
    }
    var v := b.SaveTo();
    r := Some(Recovered(v, logNumber.value, nextFile.value, lastSequence.value));
  }

  // One builder over all edits gives, level by level, the same sorted list as
  // installing the edits one at a time.
  lemma ReplayIsLive(es: seq<VersionEdit>, vs: seq<Version>, v: Version)
    requires IsHistory(es, vs) && Describes(es, v)
    ensures v == vs[|es|]
  {
    HistoryDescribes(es, vs);
    DescribedOnce(es, v, vs[|es|]);
  }

  // ---- A new manifest starts with a snapshot of the current version -----

  method WriteSnapshot(v: Version) returns (e: VersionEdit)
    ensures e.logNumber == None && e.nextFile == None && e.lastSequence == None && e.deletedFiles == {}
    ensures forall l, f {:trigger (l, f) in e.newFiles} :: (l, f) in e.newFiles <==> 0 <= l < NUM_LEVELS && f in v[l]
  {
    var fs: seq<(nat, File)> := [];
    for l := 0 to NUM_LEVELS
      invariant forall k, f {:trigger (k, f) in fs} :: (k, f) in fs <==> 0 <= k < l && f in v[k]
    {
      for i := 0 to |v[l]|
        invariant forall k, f {:trigger (k, f) in fs} :: (k, f) in fs <==> (0 <= k < l && f in v[k]) || (k == l && f in v[l][..i])
      {
        fs := fs + [(l, v[l][i])];
      }
      assert v[l][..|v[l]|] == v[l];
    }
    e := VersionEdit(None, None, None, {}, fs);
  }

  // Replaying a new manifest gives the version it was started from.
  lemma SnapshotDescribes(v: Version, e: VersionEdit)
    requires AllOrdered(v) && e.deletedFiles == {}
    requires forall l, f {:trigger (l, f) in e.newFiles} :: (l, f) in e.newFiles <==> 0 <= l < NUM_LEVELS && f in v[l]
    ensures Describes([e], v)
  {
    forall l | 0 <= l < NUM_LEVELS ensures FileSet(v[l]) == EditedAll({}, [e], l) {
      assert [e][..0] == [] && EditedAll({}, [], l) == {};
      assert forall f :: f in AddedAt(e, l) <==> f in v[l];
    }
  }
}
