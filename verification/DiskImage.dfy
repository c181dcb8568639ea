// What the bytes on disk stand for: a write-ahead log for groups of entries, the
// manifest for version edits (db/write_batch.cc, db/version_edit.cc, db/dbformat.h).

module DiskImage {
  import opened DbFormat
  import opened Coding
  import opened Crc32c
  import opened Levels
  import opened LogFormat
  import opened LogReader
  import opened LogReopen
  import opened LogFiles
  import opened Comparator
  import EditCodec
  import Manifest
  import WriteBatch
  import LogRecords
  import Store

  // ---- Batches and entries ----------------------------------------------

  function EntryOf(op: WriteBatch.Op, sequence: nat): Entry {
    match op
    case Put(key, value) => Entry(InternalKey(AsReal(key), sequence, Value), value)
    case Delete(key) => Entry(InternalKey(AsReal(key), sequence, Deletion), [])
  }

  // The operations of a batch under consecutive numbers.
  function EntriesOf(b: LogRecords.Batch): (es: seq<Entry>)
    ensures |es| == |b.ops| && forall i {:trigger es[i]} :: 0 <= i < |es| ==> es[i] == EntryOf(b.ops[i], b.sequence + i)
  {
    seq(|b.ops|, i requires 0 <= i < |b.ops| => EntryOf(b.ops[i], b.sequence + i))
  }

  // No operation from position i on names the key.
  predicate Unnamed(ops: seq<WriteBatch.Op>, i: nat, key: seq<byte>) {
    forall j {:trigger ops[j]} :: i <= j < |ops| ==> ops[j].key != key
  }

  // What is seen of a key after the batch: the value the last operation on it put, nothing
  // if that was a deletion, and without one what was seen before.
  ghost predicate Shows(ops: seq<WriteBatch.Op>, key: seq<byte>, before: Option<seq<byte>>, after: Option<seq<byte>>) {
    && (Unnamed(ops, 0, key) ==> after == before)
    && forall i {:trigger ops[i]} :: 0 <= i < |ops| && ops[i].key == key && Unnamed(ops, i + 1, key) ==>
         after == match ops[i] case Put(_, value) => Some(value) case Delete(_) => None
  }

  lemma KeysNamed(b: LogRecords.Batch, key: seq<byte>)
    ensures forall j {:trigger EntriesOf(b)[j]} {:trigger b.ops[j]} :: 0 <= j < |b.ops| ==> (EntriesOf(b)[j].key.user == AsReal(key) <==> b.ops[j].key == key)
  {
    forall j | 0 <= j < |b.ops| ensures EntriesOf(b)[j].key.user == AsReal(key) <==> b.ops[j].key == key {
      OrderEmbeds(b.ops[j].key, key);
    }
  }

  // The bytes of keys in a batch name user keys of the store.
  lemma BatchShows(H: set<Entry>, b: LogRecords.Batch, key: seq<byte>)
    requires b.sequence > 0 && Distinct(H) && Store.AtMost(H, b.sequence - 1)
    ensures Shows(b.ops, key, View(H, AsReal(key), b.sequence - 1), View(Elements(EntriesOf(b)) + H, AsReal(key), b.sequence - 1 + |b.ops|))
  {
    KeysNamed(b, key);
    EntriesShow(H, b.ops, EntriesOf(b), b.sequence - 1, key, AsReal(key));
  }

  lemma EntriesShow(H: set<Entry>, ops: seq<WriteBatch.Op>, es: seq<Entry>, last: nat, key: seq<byte>, user: UserKey)
    requires Distinct(H) && Store.AtMost(H, last) && |es| == |ops| && Store.Numbered(es, last + 1)
    requires forall j {:trigger es[j]} {:trigger ops[j]} :: 0 <= j < |ops| ==>
               (es[j].key.user == user <==> ops[j].key == key)
               && Meaning(Some(es[j])) == match ops[j] case Put(_, value) => Some(value) case Delete(_) => None
    ensures Shows(ops, key, View(H, user, last), View(Elements(es) + H, user, last + |ops|))
  {
    if Unnamed(ops, 0, key) {
      Store.OtherEntriesSeen(H, es, last, user);
    }
    forall i | 0 <= i < |ops| && ops[i].key == key && Unnamed(ops, i + 1, key)
      ensures View(Elements(es) + H, user, last + |ops|) == match ops[i] case Put(_, value) => Some(value) case Delete(_) => None
    {
      assert forall j :: i < j < |es| ==> ops[j].key != key;
      Store.LastEntrySeen(H, es, last, i);
    }
  }

  // A log record stands for these entries.
  ghost predicate StandsFor(r: seq<byte>, es: seq<Entry>) {
    exists b: LogRecords.Batch {:trigger LogRecords.HoldsBatch(r, b)} :: LogRecords.HoldsBatch(r, b) && es == EntriesOf(b)
  }

  // What a record stands for is fixed by its bytes.
  lemma OneMeaning(r: seq<byte>, es: seq<Entry>, fs: seq<Entry>)
    requires StandsFor(r, es) && StandsFor(r, fs)
    ensures es == fs
  {
    var b: LogRecords.Batch :| LogRecords.HoldsBatch(r, b) && es == EntriesOf(b);
    var c: LogRecords.Batch :| LogRecords.HoldsBatch(r, c) && fs == EntriesOf(c);
    assert b == c;
  }

  // What is written for a group of operations stands for their entries.
  lemma WrittenStandsFor(b: LogRecords.Batch)
    requires LogRecords.WfBatch(b)
    ensures StandsFor(LogRecords.BatchRecord(b), EntriesOf(b))
  {
    WriteBatch.BatchRoundTrip(b.sequence, b.ops);
    assert LogRecords.HoldsBatch(LogRecords.BatchRecord(b), b);
  }

  ghost predicate StandForAll(rs: seq<seq<byte>>, groups: seq<seq<Entry>>) {
    |rs| == |groups| && forall i {:trigger StandsFor(rs[i], groups[i])} :: 0 <= i < |rs| ==> StandsFor(rs[i], groups[i])
  }

  lemma StandForFront(rs: seq<seq<byte>>, groups: seq<seq<Entry>>, k: nat)
    requires StandForAll(rs, groups) && k <= |rs|
    ensures StandForAll(rs[..k], groups[..k])
  {
    forall i | 0 <= i < k ensures StandsFor(rs[..k][i], groups[..k][i]) {
      assert StandsFor(rs[i], groups[i]);
    }
  }

  lemma StandForMore(rs: seq<seq<byte>>, groups: seq<seq<Entry>>, r: seq<byte>, es: seq<Entry>)
    requires StandForAll(rs, groups) && StandsFor(r, es)
    ensures StandForAll(rs + [r], groups + [es])
  {
    forall i | 0 <= i < |rs| + 1 ensures StandsFor((rs + [r])[i], (groups + [es])[i]) {
      assert i < |rs| ==> StandsFor(rs[i], groups[i]);
    }
  }

  // ---- Log files --------------------------------------------------------

  // The file can be read without a report, with the checksum of the source.
  ghost predicate Readable(file: seq<byte>) {
    exists rs {:trigger HoldsFrom(CRC32C, file, 0, rs)} :: HoldsFrom(CRC32C, file, 0, rs)
  }

  // The records that are read then.
  ghost function Records(file: seq<byte>): seq<seq<byte>> {
    if Readable(file) then
      var rs :| HoldsFrom(CRC32C, file, 0, rs);
      rs
    else []
  }

  lemma ReadingIs(file: seq<byte>)
    ensures Readable(file) <==> ReadAll(CRC32C, file, 0).1 == 0
    ensures Readable(file) ==> Records(file) == ReadAll(CRC32C, file, 0).0
  {
    var r := ReadAll(CRC32C, file, 0);
    HoldsIs(CRC32C, file, 0, r.0);
    if Readable(file) {
      HoldsIs(CRC32C, file, 0, Records(file));
    }
  }

  // The file can be read without a report, and its records stand for these groups.
  ghost predicate LogHolds(file: seq<byte>, groups: seq<seq<Entry>>) {
    Readable(file) && StandForAll(Records(file), groups)
  }

  lemma RecordsHeld(file: seq<byte>)
    requires Readable(file)
    ensures HoldsFrom(CRC32C, file, 0, Records(file))
  {
  }

  lemma HeldRecords(file: seq<byte>, rs: seq<seq<byte>>)
    requires HoldsFrom(CRC32C, file, 0, rs)
    ensures Readable(file) && Records(file) == rs
  {
    HoldsIs(CRC32C, file, 0, rs);
    HoldsIs(CRC32C, file, 0, Records(file));
  }

  // A shorter file holds the front of the records.
  lemma CutRecords(file: seq<byte>, n: nat)
    requires Readable(file) && n <= |file|
    ensures Readable(file[..n]) && Records(file[..n]) <= Records(file)
    ensures n == |file| ==> Records(file[..n]) == Records(file)
  {
    RecordsHeld(file);
    var k := CutHolds(CRC32C, file, n, 0, Records(file));
    HeldRecords(file[..n], Records(file)[..k]);
    assert Records(file)[..|Records(file)|] == Records(file);
  }

  lemma LogCut(file: seq<byte>, groups: seq<seq<Entry>>, n: nat)
    requires LogHolds(file, groups) && n <= |file|
    ensures |Records(file[..n])| <= |groups| && LogHolds(file[..n], groups[..|Records(file[..n])|])
  {
    CutRecords(file, n);
    StandForFront(Records(file), groups, |Records(file[..n])|);
    assert Records(file[..n]) == Records(file)[..|Records(file[..n])|];
  }

  // Less is cut off, more is left.
  lemma LongerHoldsMore(file: seq<byte>, m: nat, n: nat)
    requires Readable(file) && m <= n <= |file|
    ensures |Records(file[..m])| <= |Records(file[..n])|
  {
    CutRecords(file, n);
    CutRecords(file[..n], m);
    assert file[..n][..m] == file[..m];
  }

  // ---- Appending --------------------------------------------------------

  // Whatever is appended will be read back behind what is there.
  ghost predicate Writable(file: seq<byte>) {
    forall more {:trigger ContinuesWith(CRC32C, file, Records(file), more)} :: ContinuesWith(CRC32C, file, Records(file), more)
  }

  // The bytes of one more record at the end of a file.
  function Appending(file: seq<byte>, r: seq<byte>): seq<byte> {
    Fragments(CRC32C, |file|, r, true)
  }

  lemma EncodeOne(layout: Layout, pos: nat, r: seq<byte>)
    ensures Encode(layout, pos, [r]) == layout(pos, r)
  {
    assert [r][1..] == [];
    assert layout(pos, r) + [] == layout(pos, r);
  }

  lemma EmptyIsWritable(file: seq<byte>)
    requires |file| == 0
    ensures Readable(file) && Records(file) == [] && Writable(file)
  {
    NothingLeft(CRC32C, file, false, []);
    HoldsNone(CRC32C, file, 0);
    HeldRecords(file, []);
    CleanIsWritable(file);
  }

  lemma CleanIsWritable(file: seq<byte>)
    requires Readable(file) && EndsCleanly(CRC32C, file)
    ensures Writable(file)
  {
    RecordsHeld(file);
    forall more ensures ContinuesWith(CRC32C, file, Records(file), more) {
      CleanEndContinues(CRC32C, file, Records(file), more);
    }
  }

  // A record appended to a writable file is there, and the file stays writable.
  lemma AppendRecord(file: seq<byte>, r: seq<byte>)
    requires Writable(file)
    ensures var longer := file + Appending(file, r);
            Readable(longer) && Records(longer) == Records(file) + [r] && Writable(longer)
  {
    var layout, rs, longer := FragmentLayout(CRC32C), Records(file), file + Appending(file, r);
    assert layout(|file|, r) == Appending(file, r);
    EncodeOne(layout, |file|, r);
    assert ContinuesWith(CRC32C, file, rs, [r]);
    HeldRecords(longer, rs + [r]);
    forall more ensures ContinuesWith(CRC32C, longer, rs + [r], more) {
      assert ContinuesWith(CRC32C, file, rs, [r] + more);
      AppendTwice(CRC32C, layout, file, rs, r, more);
    }
  }

  lemma AppendTwice(crc: Crc, layout: Layout, file: seq<byte>, rs: seq<seq<byte>>, r: seq<byte>, more: seq<seq<byte>>)
    requires layout == FragmentLayout(crc) && ContinuesWith(crc, file, rs, [r] + more)
    ensures ContinuesWith(crc, file + layout(|file|, r), rs + [r], more)
  {
    var first, pos := layout(|file|, r), |file|;
    var next := pos + |first|;
    EncodeMore(layout, pos, r, more);
    Reassociate(file, first, Encode(layout, next, more));
    Reassociate(rs, [r], more);
    Regroup(crc, layout, file + Encode(layout, pos, [r] + more), file + first, next, rs + [r], more);
  }

  lemma Regroup(crc: Crc, layout: Layout, file: seq<byte>, front: seq<byte>, next: nat, rs: seq<seq<byte>>, more: seq<seq<byte>>)
    requires layout == FragmentLayout(crc) && next == |front| && file == front + Encode(layout, next, more) && HoldsFrom(crc, file, 0, rs + more)
    ensures ContinuesWith(crc, front, rs, more)
  {
  }

  // ---- The manifest -----------------------------------------------------

  // An internal key as stored.
  ghost predicate StandsForKey(s: seq<byte>, key: InternalKey) {
    |s| >= 8 && AsReal(s[..|s| - 8]) == key.user && DecodeFixed64(s[|s| - 8..]) == Tag(key)
  }

  // A file as the manifest describes it; its entries are in the table of that number.
  ghost predicate Describes(m: EditCodec.FileMeta, f: File) {
    m.number == f.number && m.size == f.size && StandsForKey(m.smallest, f.smallest) && StandsForKey(m.largest, f.largest)
  }

  // An edit as the manifest records it.
  ghost predicate RecordsEdit(b: EditCodec.Edit, e: Manifest.VersionEdit) {
    && b.logNumber == e.logNumber && b.nextFile == e.nextFile && b.lastSequence == e.lastSequence
    && (forall d {:trigger d in e.deletedFiles} :: d in e.deletedFiles <==> d in b.deletedFiles)
    && |b.newFiles| == |e.newFiles|
    && forall i {:trigger b.newFiles[i]} :: 0 <= i < |b.newFiles| ==>
         b.newFiles[i].0 == e.newFiles[i].0 && Describes(b.newFiles[i].1, e.newFiles[i].1)
  }

  ghost predicate StandsForEdit(r: seq<byte>, e: Manifest.VersionEdit) {
    var b := EditCodec.Decode(r, EditCodec.CLEARED);
    b.Some? && RecordsEdit(b.value, e)
  }

  // What LogAndApply writes for an edit stands for it.
  lemma WrittenStandsForEdit(b: EditCodec.Edit, e: Manifest.VersionEdit)
    requires EditCodec.WfEdit(b) && RecordsEdit(b, e)
    ensures StandsForEdit(EditCodec.EncodeFields(EditCodec.FieldsOf(b)), e)
  {
    EditCodec.EditRoundTrip(b);
  }

  ghost predicate ManifestHolds(file: seq<byte>, edits: seq<Manifest.VersionEdit>) {
    && Readable(file) && |Records(file)| == |edits|
    && forall i {:trigger StandsForEdit(Records(file)[i], edits[i])} :: 0 <= i < |edits| ==> StandsForEdit(Records(file)[i], edits[i])
  }

  // Every edit is synced before it is installed, so a crash cuts off no more than
  // part of one that was not.
  lemma ManifestSurvives(file: seq<byte>, edits: seq<Manifest.VersionEdit>, synced: nat, n: nat)
    requires synced <= n <= |file| && ManifestHolds(file, edits) && |Records(file[..synced])| == |edits|
    ensures ManifestHolds(file[..n], edits)
  {
    CutRecords(file, n);
    LongerHoldsMore(file, synced, n);
    assert Records(file[..n]) == Records(file);
  }

  // What is left of a manifest that ends cleanly takes the next edit.
  lemma ManifestContinues(left: seq<byte>, edits: seq<Manifest.VersionEdit>, r: seq<byte>, e: Manifest.VersionEdit)
    requires ManifestHolds(left, edits) && Writable(left) && StandsForEdit(r, e)
    ensures ManifestHolds(left + Appending(left, r), edits + [e]) && Writable(left + Appending(left, r))
  {
    AppendRecord(left, r);
    var longer := left + Appending(left, r);
    forall i | 0 <= i < |edits| + 1 ensures StandsForEdit(Records(longer)[i], (edits + [e])[i]) {
      assert i < |edits| ==> StandsForEdit(Records(left)[i], edits[i]);
    }
  }
}
