// The manifest records: a version edit as bytes (db/version_edit.cc).

module EditCodec {
  import opened DbFormat
  import opened Coding

  // Internal keys are byte strings here, never empty.
  datatype FileMeta = FileMeta(number: nat, size: nat, smallest: seq<byte>, largest: seq<byte>)

  datatype Edit = Edit(
    comparator: Option<seq<byte>>,
    logNumber: Option<nat>,
    prevLogNumber: Option<nat>,
    nextFile: Option<nat>,
    lastSequence: Option<nat>,
    compactPointers: seq<(nat, seq<byte>)>,
    deletedFiles: seq<(nat, nat)>,       // a std::set, in its order
    newFiles: seq<(nat, FileMeta)>)

  const CLEARED: Edit := Edit(None, None, None, None, None, [], [], [])

  // One tagged item of a record.
  datatype Field =
    | Comparator(name: seq<byte>)
    | LogNumber(number: nat)
    | PrevLogNumber(number: nat)
    | NextFileNumber(number: nat)
    | LastSequence(sequence: nat)
    | CompactPointer(level: nat, key: seq<byte>)
    | DeletedFile(level: nat, number: nat)
    | NewFile(level: nat, file: FileMeta)

  const COMPARATOR_TAG: nat := 1
  const LOG_NUMBER_TAG: nat := 2
  const NEXT_FILE_TAG: nat := 3
  const LAST_SEQUENCE_TAG: nat := 4
  const COMPACT_POINTER_TAG: nat := 5
  const DELETED_FILE_TAG: nat := 6
  const NEW_FILE_TAG: nat := 7
  // 8 was used for large value references
  const PREV_LOG_NUMBER_TAG: nat := 9

  predicate WfKey(key: seq<byte>) {
    0 < |key| < TWO_32
  }

  predicate WfField(f: Field) {
    match f
    case Comparator(name) => |name| < TWO_32
    case LogNumber(n) => n < TWO_64
    case PrevLogNumber(n) => n < TWO_64
    case NextFileNumber(n) => n < TWO_64
    case LastSequence(n) => n < TWO_64
    case CompactPointer(level, key) => level < NUM_LEVELS && WfKey(key)
    case DeletedFile(level, n) => level < NUM_LEVELS && n < TWO_64
    case NewFile(level, file) => level < NUM_LEVELS && file.number < TWO_64 && file.size < TWO_64 && WfKey(file.smallest) && WfKey(file.largest)
  }

  function Tag(f: Field): nat {
    match f
    case Comparator(_) => COMPARATOR_TAG
    case LogNumber(_) => LOG_NUMBER_TAG
    case PrevLogNumber(_) => PREV_LOG_NUMBER_TAG
    case NextFileNumber(_) => NEXT_FILE_TAG
    case LastSequence(_) => LAST_SEQUENCE_TAG
    case CompactPointer(_, _) => COMPACT_POINTER_TAG
    case DeletedFile(_, _) => DELETED_FILE_TAG
    case NewFile(_, _) => NEW_FILE_TAG
  }

  function Payload(f: Field): seq<byte> {
    match f
    case Comparator(name) => LengthPrefixed(name)
    case LogNumber(n) => Varint(n)
    case PrevLogNumber(n) => Varint(n)
    case NextFileNumber(n) => Varint(n)
    case LastSequence(n) => Varint(n)
    case CompactPointer(level, key) => Varint(level) + LengthPrefixed(key)
    case DeletedFile(level, n) => Varint(level) + Varint(n)
    case NewFile(level, file) => Varint(level) + MetaBytes(file)
  }

  function MetaBytes(f: FileMeta): seq<byte> {
    Varint(f.number) + (Varint(f.size) + KeysBytes(f))
  }

  function KeysBytes(f: FileMeta): seq<byte> {
    LengthPrefixed(f.smallest) + LengthPrefixed(f.largest)
  }

  function EncodeField(f: Field): seq<byte> {
    Varint(Tag(f)) + Payload(f)
  }

  function EncodeFields(fs: seq<Field>): seq<byte> {
    if fs == [] then [] else EncodeFields(fs[..|fs| - 1]) + EncodeField(fs[|fs| - 1])
  }

  // The items of an edit in the order they are written.
  function Counters(e: Edit): seq<Field> {
    (if e.comparator.Some? then [Comparator(e.comparator.value)] else [])
    + (if e.logNumber.Some? then [LogNumber(e.logNumber.value)] else [])
    + (if e.prevLogNumber.Some? then [PrevLogNumber(e.prevLogNumber.value)] else [])
    + (if e.nextFile.Some? then [NextFileNumber(e.nextFile.value)] else [])
    + (if e.lastSequence.Some? then [LastSequence(e.lastSequence.value)] else [])
  }

  function Pointers(ps: seq<(nat, seq<byte>)>): (fs: seq<Field>)
    ensures |fs| == |ps| && forall i :: 0 <= i < |ps| ==> fs[i] == CompactPointer(ps[i].0, ps[i].1)
  {
    seq(|ps|, i requires 0 <= i < |ps| => CompactPointer(ps[i].0, ps[i].1))
  }

  function Deletions(ds: seq<(nat, nat)>): (fs: seq<Field>)
    ensures |fs| == |ds| && forall i :: 0 <= i < |ds| ==> fs[i] == DeletedFile(ds[i].0, ds[i].1)
  {
    seq(|ds|, i requires 0 <= i < |ds| => DeletedFile(ds[i].0, ds[i].1))
  }

  function Additions(ns: seq<(nat, FileMeta)>): (fs: seq<Field>)
    ensures |fs| == |ns| && forall i :: 0 <= i < |ns| ==> fs[i] == NewFile(ns[i].0, ns[i].1)
  {
    seq(|ns|, i requires 0 <= i < |ns| => NewFile(ns[i].0, ns[i].1))
  }

  function FieldsOf(e: Edit): seq<Field> {
    Counters(e) + Pointers(e.compactPointers) + Deletions(e.deletedFiles) + Additions(e.newFiles)
  }

  predicate PairLess(a: (nat, nat), b: (nat, nat)) {
    a.0 < b.0 || (a.0 == b.0 && a.1 < b.1)
  }

  ghost predicate PairsAscend(ds: seq<(nat, nat)>) {
    forall i, j {:trigger PairLess(ds[i], ds[j])} :: 0 <= i < j < |ds| ==> PairLess(ds[i], ds[j])
  }

  // std::set::insert.
  function InsertPair(d: (nat, nat), ds: seq<(nat, nat)>): seq<(nat, nat)> {
    if ds == [] || PairLess(d, ds[0]) then [d] + ds
    else if d == ds[0] then ds
    else [ds[0]] + InsertPair(d, ds[1..])
  }

  ghost predicate WfEdit(e: Edit) {
    PairsAscend(e.deletedFiles) && forall f {:trigger WfField(f)} :: f in FieldsOf(e) ==> WfField(f)
  }

  // ---- encoding ---------------------------------------------------------

  lemma EncodeSnoc(fs: seq<Field>, f: Field)
    ensures EncodeFields(fs + [f]) == EncodeFields(fs) + EncodeField(f)
  {
    assert (fs + [f])[..|fs|] == fs;
  }

  // PutVarint32 of the tag, then the payload.
  method PutField(dst0: seq<byte>, f: Field) returns (dst: seq<byte>)
    ensures dst == dst0 + EncodeField(f)
  {
    dst := dst0 + Varint(Tag(f));
    Reassociate(dst0, Varint(Tag(f)), Payload(f));
    match f
    case Comparator(name) => dst := dst + LengthPrefixed(name);
    case LogNumber(n) => dst := dst + Varint(n);
    case PrevLogNumber(n) => dst := dst + Varint(n);
    case NextFileNumber(n) => dst := dst + Varint(n);
    case LastSequence(n) => dst := dst + Varint(n);
    case CompactPointer(level, key) => dst := dst + (Varint(level) + LengthPrefixed(key));
    case DeletedFile(level, n) => dst := dst + (Varint(level) + Varint(n));
    case NewFile(level, file) => dst := dst + (Varint(level) + MetaBytes(file));
  }

  method PutFields(dst0: seq<byte>, ghost before: seq<Field>, fs: seq<Field>) returns (dst: seq<byte>)
    requires dst0 == EncodeFields(before)
    ensures dst == EncodeFields(before + fs)
  {
    dst := dst0;
    ghost var done := before;
    assert before + fs[..0] == before;
    for i := 0 to |fs|
      invariant dst == EncodeFields(done) && done == before + fs[..i]
    {
      EncodeSnoc(done, fs[i]);
      dst := PutField(dst, fs[i]);
      done := done + [fs[i]];
      Snoc(before, fs, i);
    }
    assert fs[..|fs|] == fs;
  }

  lemma Snoc(before: seq<Field>, fs: seq<Field>, i: nat)
    requires i < |fs|
    ensures before + fs[..i + 1] == before + fs[..i] + [fs[i]]
  {
  }

  method EncodeTo(e: Edit) returns (dst: seq<byte>)
    ensures dst == EncodeFields(FieldsOf(e))
  {
    dst := [];
    dst := PutFields(dst, [], Counters(e));
    assert [] + Counters(e) == Counters(e);
    dst := PutFields(dst, Counters(e), Pointers(e.compactPointers));
    dst := PutFields(dst, Counters(e) + Pointers(e.compactPointers), Deletions(e.deletedFiles));
    dst := PutFields(dst, Counters(e) + Pointers(e.compactPointers) + Deletions(e.deletedFiles), Additions(e.newFiles));
  }

  // ---- decoding ---------------------------------------------------------

  function GetLevel(input: seq<byte>): (r: Option<(nat, seq<byte>)>)
    ensures r.Some? ==> |r.value.1| < |input|
  {
    var v := GetVarint32(input);
    if v.Some? && v.value.0 < NUM_LEVELS then v else None
  }

  // InternalKey::DecodeFrom refuses the empty key.
  function GetInternalKey(input: seq<byte>): (r: Option<(seq<byte>, seq<byte>)>)
    ensures r.Some? ==> |r.value.1| < |input|
  {
    var s := GetLengthPrefixed(input);
    if s.Some? && s.value.0 != [] then s else None
  }

  // The payload of a tag.
  function GetField(tag: nat, input: seq<byte>): (r: Option<(Field, seq<byte>)>)
    ensures r.Some? ==> |r.value.1| < |input|
  {
    if tag == COMPACT_POINTER_TAG then GetCompactPointer(input)
    else if tag == DELETED_FILE_TAG then GetDeletedFile(input)
    else if tag == NEW_FILE_TAG then GetNewFile(input)
    else GetCounter(tag, input)
  }

  function GetCounter(tag: nat, input: seq<byte>): (r: Option<(Field, seq<byte>)>)
    ensures r.Some? ==> |r.value.1| < |input|
  {
    if tag == COMPARATOR_TAG then
      var s := GetLengthPrefixed(input);
      if s.None? then None else Some((Comparator(s.value.0), s.value.1))
    else if tag == LOG_NUMBER_TAG then
      var v := GetVarint64(input);
      if v.None? then None else Some((LogNumber(v.value.0), v.value.1))
    else if tag == PREV_LOG_NUMBER_TAG then
      var v := GetVarint64(input);
      if v.None? then None else Some((PrevLogNumber(v.value.0), v.value.1))
    else if tag == NEXT_FILE_TAG then
      var v := GetVarint64(input);
      if v.None? then None else Some((NextFileNumber(v.value.0), v.value.1))
    else if tag == LAST_SEQUENCE_TAG then
      var v := GetVarint64(input);
      if v.None? then None else Some((LastSequence(v.value.0), v.value.1))
    else None
  }

  function GetCompactPointer(input: seq<byte>): (r: Option<(Field, seq<byte>)>)
    ensures r.Some? ==> |r.value.1| < |input|
  {
    var l := GetLevel(input);
    if l.None? then None
    else
      var k := GetInternalKey(l.value.1);
      if k.None? then None else Some((CompactPointer(l.value.0, k.value.0), k.value.1))
  }

  function GetDeletedFile(input: seq<byte>): (r: Option<(Field, seq<byte>)>)
    ensures r.Some? ==> |r.value.1| < |input|
  {
    var l := GetLevel(input);
    if l.None? then None
    else
      var v := GetVarint64(l.value.1);
      if v.None? then None else Some((DeletedFile(l.value.0, v.value.0), v.value.1))
  }

  function GetNewFile(input: seq<byte>): (r: Option<(Field, seq<byte>)>)
    ensures r.Some? ==> |r.value.1| < |input|
  {
    var l := GetLevel(input);
    if l.None? then None
    else
      var f := GetFileMeta(l.value.1);
      if f.None? then None else Some((NewFile(l.value.0, f.value.0), f.value.1))
  }

  function GetFileMeta(input: seq<byte>): (r: Option<(FileMeta, seq<byte>)>)
    ensures r.Some? ==> |r.value.1| < |input|
  {
    var number := GetVarint64(input);
    if number.None? then None
    else
      var size := GetVarint64(number.value.1);
      if size.None? then None else GetKeys(number.value.0, size.value.0, size.value.1)
  }

  function GetKeys(number: nat, size: nat, input: seq<byte>): (r: Option<(FileMeta, seq<byte>)>)
    ensures r.Some? ==> |r.value.1| < |input|
  {
    var smallest := GetInternalKey(input);
    if smallest.None? then None
    else
      var largest := GetInternalKey(smallest.value.1);
      if largest.None? then None
      else Some((FileMeta(number, size, smallest.value.0, largest.value.0), largest.value.1))
  }

  function SetField(e: Edit, f: Field): Edit {
    match f
    case Comparator(name) => e.(comparator := Some(name))
    case LogNumber(n) => e.(logNumber := Some(n))
    case PrevLogNumber(n) => e.(prevLogNumber := Some(n))
    case NextFileNumber(n) => e.(nextFile := Some(n))
    case LastSequence(n) => e.(lastSequence := Some(n))
    case CompactPointer(level, key) => e.(compactPointers := e.compactPointers + [(level, key)])
    case DeletedFile(level, n) => e.(deletedFiles := InsertPair((level, n), e.deletedFiles))
    case NewFile(level, file) => e.(newFiles := e.newFiles + [(level, file)])
  }

  // The edit a record stands for, or None for a corrupt one.
  function Decode(input: seq<byte>, e: Edit): Option<Edit>
    decreases |input|
  {
    var tag := GetVarint32(input);
    if tag.None? then (if input == [] then Some(e) else None)
    else
      var f := GetField(tag.value.0, tag.value.1);
      if f.None? then None else Decode(f.value.1, SetField(e, f.value.0))
  }

  method DecodeFrom(src: seq<byte>) returns (r: Option<Edit>)
    ensures r == Decode(src, CLEARED)
  {
    var e, input := CLEARED, src;
    while true
      invariant Decode(input, e) == Decode(src, CLEARED)
      decreases |input|
    {
      var tag := GetVarintPtr(input, 28, TWO_32);
      if tag.None? {
        break;
      }
      var f := GetField(tag.value.0, tag.value.1);
      if f.None? {
        return None;
      }
      e, input := SetField(e, f.value.0), f.value.1;
    }
    r := if input == [] then Some(e) else None;
  }

  // ---- round trip -------------------------------------------------------

  lemma LevelRoundTrip(level: nat, rest: seq<byte>)
    requires level < NUM_LEVELS
    ensures GetLevel(Varint(level) + rest) == Some((level, rest))
  {
    Varint32RoundTrip(level, rest);
  }

  lemma KeyRoundTrip(key: seq<byte>, rest: seq<byte>)
    requires WfKey(key)
    ensures GetInternalKey(LengthPrefixed(key) + rest) == Some((key, rest))
  {
    LengthPrefixedRoundTrip(key, rest);
  }

  lemma KeysRoundTrip(f: FileMeta, rest: seq<byte>)
    requires WfKey(f.smallest) && WfKey(f.largest)
    ensures GetKeys(f.number, f.size, KeysBytes(f) + rest) == Some((f, rest))
  {
    Reassociate(LengthPrefixed(f.smallest), LengthPrefixed(f.largest), rest);
    KeyRoundTrip(f.smallest, LengthPrefixed(f.largest) + rest);
    KeyRoundTrip(f.largest, rest);
  }

  lemma FileMetaRoundTrip(f: FileMeta, rest: seq<byte>)
    requires f.number < TWO_64 && f.size < TWO_64 && WfKey(f.smallest) && WfKey(f.largest)
    ensures GetFileMeta(MetaBytes(f) + rest) == Some((f, rest))
  {
    Reassociate(Varint(f.number), Varint(f.size) + KeysBytes(f), rest);
    Reassociate(Varint(f.size), KeysBytes(f), rest);
    Varint64RoundTrip(f.number, Varint(f.size) + (KeysBytes(f) + rest));
    Varint64RoundTrip(f.size, KeysBytes(f) + rest);
    KeysRoundTrip(f, rest);
  }

  lemma LeveledRoundTrip(level: nat, payload: seq<byte>, rest: seq<byte>)
    requires level < NUM_LEVELS
    ensures GetLevel(Varint(level) + payload + rest) == Some((level, payload + rest))
  {
    Reassociate(Varint(level), payload, rest);
    LevelRoundTrip(level, payload + rest);
  }

  lemma CounterRoundTrip(f: Field, rest: seq<byte>)
    requires WfField(f) && !f.CompactPointer? && !f.DeletedFile? && !f.NewFile?
    ensures GetCounter(Tag(f), Payload(f) + rest) == Some((f, rest))
  {
    match f
    case Comparator(name) => LengthPrefixedRoundTrip(name, rest);
    case LogNumber(n) => Varint64RoundTrip(n, rest);
    case PrevLogNumber(n) => Varint64RoundTrip(n, rest);
    case NextFileNumber(n) => Varint64RoundTrip(n, rest);
    case LastSequence(n) => Varint64RoundTrip(n, rest);
  }

  lemma PointerRoundTrip(level: nat, key: seq<byte>, rest: seq<byte>)
    requires level < NUM_LEVELS && WfKey(key)
    ensures GetCompactPointer(Varint(level) + LengthPrefixed(key) + rest) == Some((CompactPointer(level, key), rest))
  {
    LeveledRoundTrip(level, LengthPrefixed(key), rest);
    KeyRoundTrip(key, rest);
  }

  lemma DeletedRoundTrip(level: nat, n: nat, rest: seq<byte>)
    requires level < NUM_LEVELS && n < TWO_64
    ensures GetDeletedFile(Varint(level) + Varint(n) + rest) == Some((DeletedFile(level, n), rest))
  {
    LeveledRoundTrip(level, Varint(n), rest);
    Varint64RoundTrip(n, rest);
  }

  lemma NewFileRoundTrip(level: nat, f: FileMeta, rest: seq<byte>)
    requires level < NUM_LEVELS && f.number < TWO_64 && f.size < TWO_64 && WfKey(f.smallest) && WfKey(f.largest)
    ensures GetNewFile(Varint(level) + MetaBytes(f) + rest) == Some((NewFile(level, f), rest))
  {
    LeveledRoundTrip(level, MetaBytes(f), rest);
    FileMetaRoundTrip(f, rest);
  }

  // What is read for each tag.
  lemma ReadByTag(f: Field, s: seq<byte>)
    ensures GetField(Tag(f), s) ==
            if f.CompactPointer? then GetCompactPointer(s)
            else if f.DeletedFile? then GetDeletedFile(s)
            else if f.NewFile? then GetNewFile(s)
            else GetCounter(Tag(f), s)
  {
  }

  lemma PayloadRoundTrip(f: Field, rest: seq<byte>)
    requires WfField(f)
    ensures GetField(Tag(f), Payload(f) + rest) == Some((f, rest))
  {
    var s := Payload(f) + rest;
    ReadByTag(f, s);
    if f.CompactPointer? {
      PointerRoundTrip(f.level, f.key, rest);
    } else if f.DeletedFile? {
      DeletedRoundTrip(f.level, f.number, rest);
    } else if f.NewFile? {
      NewFileRoundTrip(f.level, f.file, rest);
    } else {
      CounterRoundTrip(f, rest);
    }
  }

  lemma FieldRoundTrip(f: Field, rest: seq<byte>, e: Edit)
    requires WfField(f)
    ensures Decode(EncodeField(f) + rest, e) == Decode(rest, SetField(e, f))
  {
    Reassociate(Varint(Tag(f)), Payload(f), rest);
    Varint32RoundTrip(Tag(f), Payload(f) + rest);
    PayloadRoundTrip(f, rest);
  }

  function SetFields(e: Edit, fs: seq<Field>): Edit {
    if fs == [] then e else SetField(SetFields(e, fs[..|fs| - 1]), fs[|fs| - 1])
  }

  lemma {:induction false} FieldsRoundTrip(fs: seq<Field>, rest: seq<byte>, e: Edit)
    requires forall f {:trigger WfField(f)} :: f in fs ==> WfField(f)
    ensures Decode(EncodeFields(fs) + rest, e) == Decode(rest, SetFields(e, fs))
    decreases fs
  {
    if fs == [] {
      assert EncodeFields(fs) + rest == rest;
    } else {
      var front, last := fs[..|fs| - 1], fs[|fs| - 1];
      assert EncodeFields(fs) + rest == EncodeFields(front) + (EncodeField(last) + rest);
      FieldsRoundTrip(front, EncodeField(last) + rest, e);
      assert last in fs && WfField(last);
      FieldRoundTrip(last, rest, SetFields(e, front));
    }
  }

  // Setting the items of an edit on a cleared one gives the edit back.
  lemma SetCounters(e: Edit)
    ensures SetFields(CLEARED, Counters(e)) == e.(compactPointers := [], deletedFiles := [], newFiles := [])
  {
    var a := if e.comparator.Some? then [Comparator(e.comparator.value)] else [];
    var b := if e.logNumber.Some? then [LogNumber(e.logNumber.value)] else [];
    var c := if e.prevLogNumber.Some? then [PrevLogNumber(e.prevLogNumber.value)] else [];
    var d := if e.nextFile.Some? then [NextFileNumber(e.nextFile.value)] else [];
    var f := if e.lastSequence.Some? then [LastSequence(e.lastSequence.value)] else [];
    SetFive(CLEARED, a, b, c, d, f);
    assert Counters(e) == a + b + c + d + f;
  }

  function SetMaybe(e: Edit, o: seq<Field>): Edit {
    if o == [] then e else SetField(e, o[0])
  }

  lemma SetFive(e: Edit, a: seq<Field>, b: seq<Field>, c: seq<Field>, d: seq<Field>, f: seq<Field>)
    requires |a| <= 1 && |b| <= 1 && |c| <= 1 && |d| <= 1 && |f| <= 1
    ensures SetFields(e, a + b + c + d + f) == SetMaybe(SetMaybe(SetMaybe(SetMaybe(SetMaybe(e, a), b), c), d), f)
  {
    SetOne(e, [], a);
    assert [] + a == a;
    SetOne(e, a, b);
    SetOne(e, a + b, c);
    SetOne(e, a + b + c, d);
    SetOne(e, a + b + c + d, f);
  }

  lemma SetOne(e: Edit, fs: seq<Field>, o: seq<Field>)
    requires |o| <= 1
    ensures SetFields(e, fs + o) == if o == [] then SetFields(e, fs) else SetField(SetFields(e, fs), o[0])
  {
    if o == [] {
      assert fs + o == fs;
    } else {
      assert (fs + o)[..|fs + o| - 1] == fs;
    }
  }

  lemma {:induction false} SetSplit(e: Edit, a: seq<Field>, b: seq<Field>)
    ensures SetFields(e, a + b) == SetFields(SetFields(e, a), b)
    decreases b
  {
    if b == [] {
      assert a + b == a;
    } else {
      var n := |b| - 1;
      assert (a + b)[..|a + b| - 1] == a + b[..n];
      SetSplit(e, a, b[..n]);
    }
  }

  lemma {:induction false} SetPointers(e: Edit, ps: seq<(nat, seq<byte>)>)
    ensures SetFields(e, Pointers(ps)) == e.(compactPointers := e.compactPointers + ps)
    decreases ps
  {
    if ps == [] {
      assert e.compactPointers + ps == e.compactPointers;
    } else {
      var n := |ps| - 1;
      SetPointers(e, ps[..n]);
      assert Pointers(ps)[..n] == Pointers(ps[..n]);
      assert e.compactPointers + ps == e.compactPointers + ps[..n] + [ps[n]];
    }
  }

  lemma {:induction false} SetAdditions(e: Edit, ns: seq<(nat, FileMeta)>)
    ensures SetFields(e, Additions(ns)) == e.(newFiles := e.newFiles + ns)
    decreases ns
  {
    if ns == [] {
      assert e.newFiles + ns == e.newFiles;
    } else {
      var n := |ns| - 1;
      SetAdditions(e, ns[..n]);
      assert Additions(ns)[..n] == Additions(ns[..n]);
      assert e.newFiles + ns == e.newFiles + ns[..n] + [ns[n]];
    }
  }

  // Inserting a larger pair appends it.
  lemma {:induction false} InsertLast(d: (nat, nat), ds: seq<(nat, nat)>)
    requires forall i :: 0 <= i < |ds| ==> PairLess(ds[i], d)
    ensures InsertPair(d, ds) == ds + [d]
  {
    if ds != [] {
      assert PairLess(ds[0], d);
      InsertLast(d, ds[1..]);
    }
  }

  lemma {:induction false} SetDeletions(e: Edit, ds: seq<(nat, nat)>)
    requires PairsAscend(ds) && e.deletedFiles == []
    ensures SetFields(e, Deletions(ds)) == e.(deletedFiles := ds)
    decreases ds
  {
    if ds != [] {
      var n := |ds| - 1;
      var front := ds[..n];
      forall i, j | 0 <= i < j < n ensures PairLess(front[i], front[j]) {
        assert PairLess(ds[i], ds[j]);
      }
      SetDeletions(e, front);
      assert Deletions(ds)[..n] == Deletions(front);
      forall i | 0 <= i < n ensures PairLess(front[i], ds[n]) {
        assert PairLess(ds[i], ds[n]);
      }
      SetLastDeletion(e.(deletedFiles := front), ds[n], front);
      assert ds == front + [ds[n]];
    }
  }

  lemma SetLastDeletion(e: Edit, d: (nat, nat), ds: seq<(nat, nat)>)
    requires e.deletedFiles == ds && forall i :: 0 <= i < |ds| ==> PairLess(ds[i], d)
    ensures SetField(e, DeletedFile(d.0, d.1)) == e.(deletedFiles := ds + [d])
  {
    InsertLast(d, ds);
  }

  lemma SetInParts(e: Edit, a: seq<Field>, b: seq<Field>, c: seq<Field>, d: seq<Field>)
    ensures SetFields(e, a + b + c + d) == SetFields(SetFields(SetFields(SetFields(e, a), b), c), d)
  {
    SetSplit(e, a, b);
    SetSplit(e, a + b, c);
    SetSplit(e, a + b + c, d);
  }

  lemma FieldsMakeEdit(e: Edit)
    requires PairsAscend(e.deletedFiles)
    ensures SetFields(CLEARED, FieldsOf(e)) == e
  {
    SetInParts(CLEARED, Counters(e), Pointers(e.compactPointers), Deletions(e.deletedFiles), Additions(e.newFiles));
    SetCounters(e);
    var x := e.(compactPointers := [], deletedFiles := [], newFiles := []);
    SetPointers(x, e.compactPointers);
    var y := x.(compactPointers := [] + e.compactPointers);
    SetDeletions(y, e.deletedFiles);
    var z := y.(deletedFiles := e.deletedFiles);
    SetAdditions(z, e.newFiles);
    assert [] + e.compactPointers == e.compactPointers && [] + e.newFiles == e.newFiles;
  }

  // Decoding an encoded edit gives the edit.
  lemma EditRoundTrip(e: Edit)
    requires WfEdit(e)
    ensures Decode(EncodeFields(FieldsOf(e)), CLEARED) == Some(e)
  {
    var fs := FieldsOf(e);
    FieldsMakeEdit(e);
    FieldsRoundTrip(fs, [], CLEARED);
    assert EncodeFields(fs) + [] == EncodeFields(fs);
  }
}
