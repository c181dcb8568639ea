// The compaction loop and its drop rules
// (db/db_impl.cc, DoCompactionWork; db/version_set.cc, IsBaseLevelForKey).

module CompactionWork {
  import opened DbFormat
  import opened Levels
  import opened VersionSet

  // The part of class Compaction that remembers, for each deeper level, how far
  // earlier keys have moved past its files.
  class LevelPointers {
    const v: Version
    const level: nat
    var levelPtrs: array<nat>
    ghost var last: Option<UserKey>

    ghost predicate Valid()
      reads this, levelPtrs
    {
      && WfVersion(v) && level + 1 < NUM_LEVELS
      && levelPtrs.Length == NUM_LEVELS
      && (forall l :: level + 2 <= l < NUM_LEVELS ==> levelPtrs[l] <= |v[l]|)
      && (forall l, i :: level + 2 <= l < NUM_LEVELS && 0 <= i < levelPtrs[l] ==>
            last.Some? && v[l][i].largest.user < last.value)
    }

    constructor (v: Version, level: nat)
      requires WfVersion(v) && level + 1 < NUM_LEVELS
      ensures Valid() && last == None && this.v == v && this.level == level && fresh(levelPtrs)
    {
      this.v, this.level := v, level;
      levelPtrs := new nat[NUM_LEVELS](i => 0);
      last := None;
    }

    // For keys asked in non-decreasing order the moving pointers give the same
    // answer as checking every file of every deeper level.
    method IsBaseLevelForKey(user: UserKey) returns (base: bool)
      requires Valid() && (last.Some? ==> last.value <= user)
      modifies this`last, levelPtrs
      ensures Valid() && last == Some(user)
      ensures base <==> IsBaseLevel(Abs(v), level, user)
    {
      last := Some(user);
      for l := level + 2 to NUM_LEVELS
        invariant Valid() && last == Some(user)
        invariant forall k, g {:trigger Holds(Abs(v), k, g)} :: level + 2 <= k < l && Holds(Abs(v), k, g) ==> !InUserRange(user, g)
      {
        while levelPtrs[l] < |v[l]|
          invariant Valid() && last == Some(user)
          invariant levelPtrs[l] <= |v[l]|
          decreases |v[l]| - levelPtrs[l]
        {
          var f := v[l][levelPtrs[l]];
          if user <= f.largest.user {
            if user >= f.smallest.user {
              assert Holds(Abs(v), l, f) && InUserRange(user, f);
              return false;
            }
            break;
          }
          levelPtrs[l] := levelPtrs[l] + 1;
        }
        PassedLevel(v, l, levelPtrs[l], user);
      }
      base := true;
    }
  }

  lemma PassedLevel(v: Version, l: int, p: nat, user: UserKey)
    requires WfVersion(v) && 0 < l < NUM_LEVELS && p <= |v[l]|
    requires forall i :: 0 <= i < p ==> v[l][i].largest.user < user
    requires p < |v[l]| ==> user < v[l][p].smallest.user
    ensures forall g :: g in v[l] ==> !InUserRange(user, g)
  {
    assert WfLevel(l, Abs(v)[l]);
    DeepLevelChained(l, v[l]);
    forall i | p < i < |v[l]| ensures user < v[l][i].smallest.user {
      assert Before(v[l][p], v[l][i]);
      assert v[l][p] in FileSet(v[l]);
      SmallestNotAboveLargest(v[l][p]);
    }
  }

  // Rule (A) looks only at the previous entry; in sorted order that is enough.
  lemma HiddenByPrevious(input: seq<Entry>, i: nat, m: nat)
    requires Sorted(input) && Distinct(Elements(input)) && i < |input|
    ensures Hidden(Elements(input), input[i], m) <==>
            i > 0 && input[i - 1].key.user == input[i].key.user && input[i - 1].key.sequence <= m
  {
    var e := input[i];
    if i > 0 && input[i - 1].key.user == e.key.user && input[i - 1].key.sequence <= m {
      assert Less(input[i - 1].key, input[i].key);
      assert !SameVersion(input[i - 1], e);
      assert input[i - 1] in Elements(input);
    }
    if Hidden(Elements(input), e, m) {
      var f :| f in Elements(input) && f.key.user == e.key.user && e.key.sequence < f.key.sequence <= m;
      var j :| 0 <= j < |input| && input[j] == f;
      assert j > i ==> Less(input[i].key, input[j].key);
      assert j < i - 1 ==> Less(input[j].key, input[i - 1].key);
      assert i > 0 ==> Less(input[i - 1].key, input[i].key);
    }
  }

  ghost predicate KeptEntry(v: Version, level: nat, In: set<Entry>, m: nat, e: Entry) {
    !Hidden(In, e, m) && !Obsolete(Abs(v), level, e, m)
  }

  // K is what the drop rules keep of In.
  ghost predicate KeptIs(v: Version, level: nat, In: set<Entry>, m: nat, K: set<Entry>) {
    forall e {:trigger KeptEntry(v, level, In, m, e)} :: e in K <==> e in In && KeptEntry(v, level, In, m, e)
  }

  // Finished output files and the file being built are in key order, none past last.
  ghost predicate InOrder(outputs: seq<File>, builder: seq<Entry>, last: Option<InternalKey>) {
    && (forall f {:trigger WfFile(f)} :: f in outputs ==> WfFile(f))
    && (forall f {:trigger f.largest} :: f in outputs ==> last.Some? && !Less(last.value, f.largest))
    && Chained(outputs)
    && Sorted(builder)
    && (builder != [] ==> last == Some(builder[|builder| - 1].key))
    && (builder != [] ==> forall f {:trigger f.largest} :: f in outputs ==> Less(f.largest, builder[0].key))
  }

  ghost function Written(outputs: seq<File>, builder: seq<Entry>): set<Entry> {
    EntriesOf(FileSet(outputs)) + Elements(builder)
  }

  function FinishFile(number: nat, es: seq<Entry>, sizeOf: seq<Entry> -> nat): File
    requires es != []
  {
    File(number, sizeOf(es), es[0].key, es[|es| - 1].key, es)
  }

  lemma CloseKeepsOrder(outputs: seq<File>, builder: seq<Entry>, last: Option<InternalKey>, f: File)
    requires InOrder(outputs, builder, last) && builder != [] && f.entries == builder
    requires f.smallest == builder[0].key && f.largest == builder[|builder| - 1].key
    ensures InOrder(outputs + [f], [], last)
    ensures Written(outputs + [f], []) == Written(outputs, builder)
  {
    var fs := outputs + [f];
    forall i, j | 0 <= i < j < |fs| ensures Before(fs[i], fs[j]) {
      if j < |outputs| {
        assert Before(outputs[i], outputs[j]);
      }
    }
    forall e | e in Written(outputs, builder) ensures e in Written(fs, []) {
      if e in EntriesOf(FileSet(outputs)) {
        var g :| g in FileSet(outputs) && e in g.entries;
        assert g in FileSet(fs);
      } else {
        assert f in FileSet(fs);
      }
    }
  }

  lemma AddKeepsOrder(outputs: seq<File>, builder: seq<Entry>, last: Option<InternalKey>, e: Entry)
    requires InOrder(outputs, builder, last) && (last.Some? ==> Less(last.value, e.key))
    ensures InOrder(outputs, builder + [e], Some(e.key))
    ensures Written(outputs, builder + [e]) == Written(outputs, builder) + {e}
  {
    var b := builder + [e];
    forall i, j | 0 <= i < j < |b| ensures Less(b[i].key, b[j].key) {
      if j < |builder| {
        assert Less(builder[i].key, builder[j].key);
      } else if i < |builder| - 1 {
        assert Less(builder[i].key, builder[|builder| - 1].key);
      }
    }
  }

  // struct CompactionState: the finished outputs and the table being built.
  class CompactionState {
    const firstFile: nat
    var outputs: seq<File>
    var builder: seq<Entry>
    var nextFile: nat
    ghost var last: Option<InternalKey>
    ghost var written: set<Entry>

    ghost predicate Valid()
      reads this
    {
      && InOrder(outputs, builder, last)
      && written == Written(outputs, builder)
      && nextFile == firstFile + |outputs| + (if builder == [] then 0 else 1)
      && forall j :: 0 <= j < |outputs| ==> outputs[j].number == firstFile + j
    }

    constructor (firstFile: nat)
      ensures Valid() && written == {} && last == None && this.firstFile == firstFile && builder == []
    {
      this.firstFile, outputs, builder, nextFile := firstFile, [], [], firstFile;
      last, written := None, {};
    }

    method FinishCompactionOutputFile(sizeOf: seq<Entry> -> nat)
      requires Valid() && builder != []
      modifies this
      ensures Valid() && builder == [] && written == old(written) && last == old(last)
    {
      var f := FinishFile(nextFile - 1, builder, sizeOf);
      CloseKeepsOrder(outputs, builder, last, f);
      outputs, builder := outputs + [f], [];
    }

    // Opens an output file when none is open.
    method Add(e: Entry)
      requires Valid() && (last.Some? ==> Less(last.value, e.key))
      modifies this
      ensures Valid() && builder != [] && written == old(written) + {e} && last == Some(e.key)
    {
      AddKeepsOrder(outputs, builder, last, e);
      if builder == [] {
        nextFile := nextFile + 1;
      }
      builder := builder + [e];
      last, written := Some(e.key), written + {e};
    }
  }

  // One turn of the output side of the loop: close the file if the grandparents
  // ask for it, write the entry unless it is dropped, close the file if it is big enough.
  method WriteEntry(compact: CompactionState, e: Entry, drop: bool, stopBefore: bool, bigEnough: bool, sizeOf: seq<Entry> -> nat)
    requires compact.Valid() && (compact.last.Some? ==> Less(compact.last.value, e.key))
    modifies compact
    ensures compact.Valid()
    ensures compact.written == if drop then old(compact.written) else old(compact.written) + {e}
    ensures compact.last == if drop then old(compact.last) else Some(e.key)
  {
    if stopBefore && compact.builder != [] {
      compact.FinishCompactionOutputFile(sizeOf);
    }
    if !drop {
      compact.Add(e);
      if bigEnough {
        compact.FinishCompactionOutputFile(sizeOf);
      }
    }
  }

  // The two drop rules for the next entry, given what is remembered of the
  // previous one.
  method ShouldDrop(pointers: LevelPointers, ghost K: set<Entry>, ghost input: seq<Entry>, ghost i: nat, e: Entry, m: nat,
                    currentUserKey: Option<UserKey>, lastSequence: nat)
      returns (drop: bool, newUserKey: Option<UserKey>, newLastSequence: nat)
    requires Sorted(input) && Distinct(Elements(input)) && i < |input| && e == input[i] && m < MAX_SEQUENCE
    requires KeptIs(pointers.v, pointers.level, Elements(input), m, K)
    requires pointers.Valid() && (pointers.last.Some? ==> i > 0 && pointers.last.value <= input[i - 1].key.user)
    requires i == 0 ==> currentUserKey == None && lastSequence == MAX_SEQUENCE
    requires i > 0 ==> currentUserKey == Some(input[i - 1].key.user) && lastSequence == input[i - 1].key.sequence
    modifies pointers`last, pointers.levelPtrs
    ensures pointers.Valid() && (pointers.last.Some? ==> pointers.last.value <= e.key.user)
    ensures drop <==> e !in K
    ensures newUserKey == Some(e.key.user) && newLastSequence == e.key.sequence
  {
    HiddenByPrevious(input, i, m);
    assert i > 0 ==> Less(input[i - 1].key, input[i].key);
    var last := if currentUserKey != Some(e.key.user) then MAX_SEQUENCE else lastSequence;
    drop := false;
    if last <= m {
      drop := true;  // (A) hidden by a newer entry for the same user key
    } else if e.key.kind == Deletion && e.key.sequence <= m {
      drop := pointers.IsBaseLevelForKey(e.key.user);  // (B) obsolete marker
    }
    newUserKey, newLastSequence := Some(e.key.user), e.key.sequence;
    assert drop <==> !KeptEntry(pointers.v, pointers.level, Elements(input), m, e);
  }

  // Read the merged inputs in order, drop what the two rules allow and write the
  // rest to new files.  Where a file is cut (grandparent overlap, file size) is
  // left to the two cut functions; the numbers come from a counter.
  method DoCompactionWork(v: Version, level: nat, ghost c: Compaction, input: seq<Entry>, m: nat, nextFile: nat,
                          cutBefore: nat -> bool, cutAfter: nat -> bool, sizeOf: seq<Entry> -> nat)
      returns (outputs: seq<File>, newNextFile: nat)
    requires WfVersion(v) && c.level == level && level + 1 < NUM_LEVELS && m < MAX_SEQUENCE
    requires Sorted(input) && Distinct(Elements(input)) && Elements(input) == EntriesOf(c.Inputs())
    ensures EntriesOf(FileSet(outputs)) == Kept(Abs(v), c, m)
    ensures (forall f :: f in outputs ==> WfFile(f)) && Chained(outputs)
    ensures newNextFile == nextFile + |outputs| && forall i :: 0 <= i < |outputs| ==> outputs[i].number == nextFile + i
  {
    ghost var K := Kept(Abs(v), c, m);
    assert KeptIs(v, c.level, Elements(input), m, K);
    var compact := WriteKept(v, level, input, K, m, nextFile, cutBefore, cutAfter, sizeOf);
    outputs, newNextFile := compact.outputs, compact.nextFile;
    assert K * Elements(input) == K;
  }

  method WriteKept(v: Version, level: nat, input: seq<Entry>, ghost K: set<Entry>, m: nat, nextFile: nat,
                   cutBefore: nat -> bool, cutAfter: nat -> bool, sizeOf: seq<Entry> -> nat)
      returns (compact: CompactionState)
    requires WfVersion(v) && level + 1 < NUM_LEVELS && m < MAX_SEQUENCE
    requires Sorted(input) && Distinct(Elements(input)) && KeptIs(v, level, Elements(input), m, K)
    ensures compact.Valid() && compact.builder == [] && compact.firstFile == nextFile
    ensures compact.written == K * Elements(input)
  {
    var pointers := new LevelPointers(v, level);
    compact := new CompactionState(nextFile);
    var currentUserKey: Option<UserKey>, lastSequence, drop := None, MAX_SEQUENCE, false;
    var i := 0;
    while i < |input|
      invariant 0 <= i <= |input|
      invariant fresh(pointers) && fresh(pointers.levelPtrs) && fresh(compact)
      invariant pointers.Valid() && pointers.v == v && pointers.level == level
      invariant pointers.last.Some? ==> i > 0 && pointers.last.value <= input[i - 1].key.user
      invariant i == 0 ==> currentUserKey == None && lastSequence == MAX_SEQUENCE
      invariant i > 0 ==> currentUserKey == Some(input[i - 1].key.user) && lastSequence == input[i - 1].key.sequence
      invariant compact.Valid() && compact.firstFile == nextFile
      invariant compact.last.Some? ==> i > 0 && !Less(input[i - 1].key, compact.last.value)
      invariant compact.written == K * Elements(input[..i])
    {
      assert i > 0 ==> Less(input[i - 1].key, input[i].key);
      assert Elements(input[..i + 1]) == Elements(input[..i]) + {input[i]};
      drop, currentUserKey, lastSequence := ShouldDrop(pointers, K, input, i, input[i], m, currentUserKey, lastSequence);
      WriteEntry(compact, input[i], drop, cutBefore(i), cutAfter(i), sizeOf);
      i := i + 1;
    }
    if compact.builder != [] {
      compact.FinishCompactionOutputFile(sizeOf);
    }
    assert input[..i] == input;
  }

  // The files written are a legal replacement for the inputs.
  lemma OutputsAreGood(v: Version, c: Compaction, m: nat, nextFile: nat, outputs: seq<File>)
    requires WfVersion(v) && c.level + 1 < NUM_LEVELS
    requires forall l, g {:trigger Holds(Abs(v), l, g)} :: Holds(Abs(v), l, g) ==> g.number < nextFile
    requires EntriesOf(FileSet(outputs)) == Kept(Abs(v), c, m)
    requires (forall f :: f in outputs ==> WfFile(f)) && Chained(outputs)
    requires forall i :: 0 <= i < |outputs| ==> outputs[i].number == nextFile + i
    ensures GoodOutputs(Abs(v), c, FileSet(outputs))
  {
    var out := FileSet(outputs);
    forall f, g | f in out && g in out && f != g ensures Before(f, g) || Before(g, f) {
      var i :| 0 <= i < |outputs| && outputs[i] == f;
      var j :| 0 <= j < |outputs| && outputs[j] == g;
      assert i < j ==> Before(outputs[i], outputs[j]);
      assert j < i ==> Before(outputs[j], outputs[i]);
    }
    forall f, l, g | f in out && Holds(Remaining(Abs(v), c), l, g) ensures f.number != g.number {
      assert Holds(Abs(v), l, g);
    }
  }
}
