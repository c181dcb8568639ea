# LevelDB and nanopb, modelled and proved

The iOS application vendors two libraries that do real work: LevelDB, a
log-structured merge-tree store (`ios/Pods/leveldb-library`), and nanopb, a
Protocol Buffers codec driven by field descriptors (`ios/Pods/nanopb`). This
project models both in Dafny 4.11 and proves what they are for. `dafny verify
dfyconfig.toml` checks everything.

## What is proved

**The store as a state machine** (`Levels`, `CompactionSafety`, `LevelSteps`,
`Store`, `Recovery`). A state is memtable, immutable memtable, levels 0 to 6 of
table files, logs with their synced part, snapshots, log number, manifest
counters and the last sequence number. Steps are write, memtable switch, flush,
trivial move, compaction, snapshot get and release, log removal, and crash with
recovery. The meaning of a set of entries is the newest entry at or below a
snapshot. A run takes any of these steps under two conditions that the code does not
look at, and each of which is proved to be exactly what is needed: no compaction drops
a marker that uncovers a value (below), and no log or manifest is appended to whose last
bytes would get in the way (`LogFiles.EndsCleanly`). In every state of every such run, whatever a reader
asks at a live snapshot is what the full history of writes shows
(`Recovery.EveryReadIsRight`); a held snapshot never changes
(`Recovery.HeldSnapshotIsStable`); synced writes survive every crash
(`Recovery.SyncedWritesSurvive`). A flush in the middle of a compaction is a step of a
run as far as it could as well have come before the compaction, which is a question of
its own (`Interleaving`).

**Compaction.** Entries are thrown away by two rules. `CompactionSafety.CompactionPreservesReads`
says exactly when no reader can tell: no deletion marker that is dropped because
no deeper level holds its key may cover a value in an output-level file that the
compaction does not read. Input selection closes only the upper level under user
keys, so the condition can fail; `CompactionPicking.SelectionLeavesGap` is a
version where it does. It holds whenever the files left out share no user key
with those read (`CompactionSafety.ClosedBoundaryIsSafe`). Of what may be thrown away
nothing is kept: the outputs hold one version of a user key at or below the smallest
snapshot, and no marker there that hides nothing (`CompactionSafety.OneVersionKept`,
`CompactionSafety.KeptMarkerHides`). Which files are chosen is fixed from the file or the
range a compaction starts from, through the boundary files, the output level and the
attempt to grow (`InputSelection.SetupOtherInputs`, `CompactionPicking.CompactRange`).

**A flush in the middle of a compaction** (`Interleaving`). The compaction loop
calls `CompactMemTable`. Afterwards the levels are disjoint, and lookups find what is
stored, if and only if the flushed table lies apart from the outputs of its own level.
For automatic compactions this always holds, because their inputs leave no gap; a manual
compaction can leave one. Then the binary search of the level opens the wrong file, and
every entry of the flushed table is lost to readers (`Interleaving.FlushedIsLost`);
`Interleaving.WritesAreLost` is a state in which two writes are.

**Appending to a log after a crash** (`LogReopen`, `LogFiles`). With `reuse_logs` the
last log and the manifest are opened at their length in bytes and appended to, without
looking at what their last bytes are. Whatever is appended is read back if and only if
the cut ends a record, lies in the padding behind one, ends an empty first fragment, or
tears the last header of a block where the padding that follows will complete it to one
without type and length, which the reader skips (`LogReopen.AppendableIffClean`). This
holds for every checksum function, all records and every cut. `LogFiles.EndsCleanly` is
the same condition read off the bytes of the file alone (`LogFiles.EndsCleanlyIffClean`),
and enough on a file of any bytes (`LogFiles.CleanEndContinues`). Behind a torn payload,
synced records vanish without a report (`LogReopen.TornPayloadSwallows`).

**The store on its log files** (`LogRecords`, `DiskImage`, `DiskRuns`). A log record stands
for the entries of the batch whose bytes it holds. Runs of the store are paired with the
bytes of their log files: writes append, a crash cuts every file at any byte behind the
synced ones, recovery reads what is left. In every state of every run the files read back
as the records of the logs (`DiskRuns.RunKeepsDisk`), so a crash at any byte is a crash
of the model, and every synced record is read (`DiskRuns.SyncedRecordsAreRead`).

**The database object** (`Manifest`, `InputLists`, `Db`, `DbOpen`). Each method of
class `DBImpl` is proved to be a step of the state machine, `Get` and the iterators
to answer like the full history, and `Open` on what a crash left behind to be a
recovery step under the condition on the last bytes given above. Replaying a manifest
gives the live version, file list by file list. Groups committed by the queue of writers
are writes of the store (`WriterQueue`, `GroupCommit`).

**Cursors** (`Merger`, `DbIter`, `TwoLevel`, `BlockIter`, `SkipList`). Each iterator
is a class with the source's fields whose ghost index is one cursor over one sorted
sequence; every seek and move, across direction switches, moves that index as an
integer cursor would.

**Structures** (`SkipList`, `CacheTable`, `CacheSpec`, `CacheRuns`, `Cache`, `Rings`, `Snapshots`,
`Bloom`, `FilterBlock`, `Table`). The skip list is a sorted list, also between the
link writes of an insertion with a search running. The cache is a map with an
eviction order and reference counts whose deleters run exactly once; in every run what
it evicts was released longest ago (`CacheRuns.EvictsLeastRecent`). Table lookup
with shortened index keys and Bloom filters agrees with a linear search.

**Codecs** (`Coding`, `Crc32c`, `LogFormat`, `LogWriter`, `LogReader`, `LogGroups`, `LogRoundTrip`,
`EditCodec`, `WriteBatch`, `CodecErrors`, `BlockFormat`, `Block`, `Protobuf`, `ProtobufRoundTrip`,
`ProtobufUnknown`, `ProtobufTyped`, `ProtobufRefused`, `NanopbEncode`, `NanopbDecode`, `KnownBytes`).
A log cut at any byte reads back as exactly the records that survived whole, and in any
file each record read is one whole group of fragments (`LogGroups.RecordIsGroup`).
Blocks, edits, batches and messages read back as written; edits and batches cut off or
with unknown tags are refused (`CodecErrors`). A message written with another descriptor
decodes to the fields that are known (`ProtobufUnknown.OtherDescriptor`), and any bytes
that decode give a message that fits (`ProtobufTyped.DecodedTyped`). A nanopb submessage
has in its writing pass the size its sizing pass found. `KnownBytes` fixes checksums,
tags and type bytes by known encodings.
The wire format is that of the Protocol Buffers "Encoding" specification, sections
"Base 128 Varints", "Signed Integers", "Length-Delimited Records" and "Packed
Repeated Fields"; the checksum is CRC32C of section 12.1 of RFC 3720.

**The writer queue** (`WriterQueue`). In every run each batch acknowledged OK is
logged and inserted exactly once, in queue order, under sequence numbers of its own;
sync writers are released only after their record is synced; a group is seen whole or
not at all.

## How to read it

User keys are real numbers in the modules about the store, since only their order
matters there; `Comparator.OrderEmbeds` and `Comparator.StoredOrder` show that byte
strings under the bytewise comparator, and packed internal keys, have that order.
Methods that change state are proved against specification functions on values, and
lemmas state what those functions promise. Large predicates are sometimes folded
behind a trigger, with an `...Is` lemma that unfolds them, so that proofs stay quick.
`horizon` is the largest smallest-snapshot any compaction has worked with: reads are
promised from there on, and every live snapshot lies at or above it.

## Model

| member | source | states |
|---|---|---|
| DbFormat.NewestOfUnion | ios/Pods/leveldb-library/db/db_impl.cc:1134-1146 | searching a newer set of entries first and an older one only on a miss finds exactly the newest visible entry of both together |
| DbFormat.LowerBoundIsNewest | ios/Pods/leveldb-library/db/memtable.cc:101-133 | in a list in internal-key order, a memtable for one, the entry a seek to (user key, snapshot) lands on is the newest one visible at that snapshot, or of another user key exactly when there is none |
| Levels.StoredSplit | ios/Pods/leveldb-library/db/db_impl.cc:869-885 | what is stored is the entries a compaction reads plus the rest, and after installing its outputs those outputs plus the same rest |
| CompactionSafety.NewestDroppedIsMarker | ios/Pods/leveldb-library/db/db_impl.cc:956-970 | at any snapshot from the smallest on, an answer the drop rules throw away can only be a deletion marker dropped by the second rule |
| CompactionSafety.SurvivorsAnswer | ios/Pods/leveldb-library/db/db_impl.cc:946-973 | the drop rules change no visible value for any user key and any snapshot at or above the smallest one, when no dropped marker covers a value outside the inputs |
| CompactionSafety.SurvivorsResurrect | ios/Pods/leveldb-library/db/db_impl.cc:956-970 | and when one does, the covered value is what a reader sees afterwards |
| CompactionSafety.DiscardedCoversOnlyBelow | ios/Pods/leveldb-library/db/version_set.cc:1510-1529 | a marker dropped because deeper levels cannot hold its key covers, among what the compaction leaves, only entries of the output level |
| CompactionSafety.OneVersionKept | ios/Pods/leveldb-library/db/db_impl.cc:956-958 | of the versions of one user key at or below the smallest snapshot at most one is kept |
| CompactionSafety.KeptMarkerHides | ios/Pods/leveldb-library/db/db_impl.cc:959-970 | a deletion marker at or below it is kept only if a deeper level may hold its user key |
| CompactionSafety.NewerKept | ios/Pods/leveldb-library/db/db_impl.cc:946-973 | everything newer is kept |
| CompactionSafety.CompactionPreservesReads | ios/Pods/leveldb-library/db/db_impl.cc:887-1046 | a compaction preserves every read at every snapshot from the smallest on if and only if no dropped newest marker has an older value among the output-level files that were not read |
| CompactionSafety.ClosedBoundaryIsSafe | ios/Pods/leveldb-library/db/version_set.cc:1380-1439 | that condition holds whenever no output-level file left out shares a user key with one that was read |
| LevelSteps.InstallKeepsLevels | ios/Pods/leveldb-library/db/db_impl.cc:869-885 | installing compaction outputs keeps upper data newer than lower data for every user key and keeps deeper levels disjoint |
| LevelSteps.InstallKeepsStore | ios/Pods/leveldb-library/db/db_impl.cc:869-885 | and keeps stored internal keys distinct, adding no entry |
| LevelSteps.MoveIsInstall | ios/Pods/leveldb-library/db/db_impl.cc:727-742 | a trivial move keeps the level invariants and stores exactly the same entries |
| LevelSteps.FlushKeepsLevels | ios/Pods/leveldb-library/db/db_impl.cc:500-542 | adding a flushed table keeps the level invariants when it overlaps nothing down to its level |
| LevelSteps.FlushStored | ios/Pods/leveldb-library/db/db_impl.cc:500-542 | and stores exactly its entries in addition |
| VersionSet.FindFile | ios/Pods/leveldb-library/db/version_set.cc:87-105 | on any list the loop is the binary search of the specification; on disjoint files it returns the first one whose largest key is at or past the key |
| VersionSet.SearchFindsNewest | ios/Pods/leveldb-library/db/version_set.cc:262-275 | seeking in one table finds the newest visible entry of the user key in that table |
| VersionSet.Level0Hit | ios/Pods/leveldb-library/db/version_set.cc:281-322 | the first hit among overlapping level-0 files taken by descending number is the newest visible entry of the whole version |
| VersionSet.DeepLevelHit | ios/Pods/leveldb-library/db/version_set.cc:281-322 | a hit in the one candidate file of a deeper level, with nothing seen above, is the newest visible entry of the whole version |
| VersionSet.DeepLevelSearch | ios/Pods/leveldb-library/db/version_set.cc:281-322 | no other file of a deeper level can hold a visible entry of the key |
| VersionSet.SearchIsNewest | ios/Pods/leveldb-library/db/version_set.cc:281-322 | on well-formed levels the first hit, level by level and one file per deeper level, is the globally newest stored entry at or below the snapshot |
| VersionSet.Get | ios/Pods/leveldb-library/db/version_set.cc:324-400 | the search loops are the search of the specification on any version, and on well-formed levels find exactly the globally newest stored entry at or below the snapshot |
| InputSelection.SomeFileOverlapsRange | ios/Pods/leveldb-library/db/version_set.cc:121-156 | true if and only if some file of the level meets the user-key range, for open ends and both kinds of level |
| InputSelection.GetOverlappingInputs | ios/Pods/leveldb-library/db/version_set.cc:498-538 | terminates; below level 0 returns the files meeting the range; at level 0 those meeting the least range that contains the request and every file it meets |
| InputSelection.GetRange | ios/Pods/leveldb-library/db/version_set.cc:1182-1201 | the smallest and largest internal keys are bounds of all the files and attained by them |
| InputSelection.FindLargestKey | ios/Pods/leveldb-library/db/version_set.cc:1303-1317 | the largest key is attained and no file goes past it |
| InputSelection.FindSmallestBoundaryFile | ios/Pods/leveldb-library/db/version_set.cc:1321-1339 | finds the least file that continues the user key ending the inputs, and none only if there is none |
| InputSelection.AddBoundaryInputs | ios/Pods/leveldb-library/db/version_set.cc:1355-1378 | adds exactly the chain of boundary files, each the least that continues the user key the inputs end with, until the level has none left; none at level 0, and a level's remaining files stay on the newer side |
| InputSelection.StayersAreNewer | ios/Pods/leveldb-library/db/version_set.cc:1355-1378 | after boundary files are added, what stays in the level is newer than what leaves it |
| InputSelection.SelectedInputsAreGood | ios/Pods/leveldb-library/db/version_set.cc:1384-1399 | boundary-closed upper inputs and the output-level files they overlap meet every demand on compaction inputs |
| InputSelection.SelectGrows | ios/Pods/leveldb-library/db/version_set.cc:1400-1424 | a wider range selects at least as many files, and as many only if the very same ones |
| InputSelection.ExpandInputs | ios/Pods/leveldb-library/db/version_set.cc:1400-1424 | the upper inputs grow to all files meeting the whole range exactly when that is more files, their bytes stay below the limit and the output-level inputs remain the same; every demand is kept |
| InputSelection.SetupOtherInputs | ios/Pods/leveldb-library/db/version_set.cc:1380-1439 | the inputs finally chosen are exactly the start closed at its boundary, the output-level files meeting its range, and the growth of the upper ones if it is allowed and worth it; they meet every demand |
| CompactionPicking.PickLevelForMemTableOutput | ios/Pods/leveldb-library/db/version_set.cc:470-495 | a memtable is placed at most at level 2, below level 0 only where it overlaps no file down to that level, and exactly as deep as neither overlap there nor too many bytes in the level after that forbid |
| CompactionPicking.PickCompaction | ios/Pods/leveldb-library/db/version_set.cc:1247-1299 | from any file of any level the picked inputs are those that follow from this file alone, or at level 0 from every file that meets its range; they contain it, meet every demand and leave no gap between them |
| CompactionPicking.CompactRange | ios/Pods/leveldb-library/db/version_set.cc:1441-1472 | nothing is compacted if and only if no file meets the range; at level 0 every file that meets it is an input; below, the inputs follow from the first files that meet it, all of them or as few as reach the size limit; they meet every demand |
| CompactionPicking.SelectionLeavesGap | ios/Pods/leveldb-library/db/version_set.cc:1384-1399 | a well-formed version whose selected inputs let a dropped marker uncover a value, because only the upper level is closed under user keys |
| CompactionWork.LevelPointers.constructor | ios/Pods/leveldb-library/db/version_set.cc:1474-1490 | the per-level pointers start valid for any first key |
| CompactionWork.LevelPointers.IsBaseLevelForKey | ios/Pods/leveldb-library/db/version_set.cc:1510-1529 | for user keys asked in non-decreasing order the advancing pointers answer exactly as a fresh range check of all deeper levels |
| CompactionWork.HiddenByPrevious | ios/Pods/leveldb-library/db/db_impl.cc:947-958 | comparing with the previous entry of the sorted input decides exactly whether a newer entry at or below the smallest snapshot hides this one |
| CompactionWork.ShouldDrop | ios/Pods/leveldb-library/db/db_impl.cc:940-973 | an entry is dropped if and only if the declarative drop rules do not keep it, and the loop variables follow the input |
| CompactionWork.CompactionState.FinishCompactionOutputFile | ios/Pods/leveldb-library/db/db_impl.cc:820-867 | closing an output keeps outputs in order and loses no entry |
| CompactionWork.CompactionState.Add | ios/Pods/leveldb-library/db/db_impl.cc:984-997 | adds exactly this entry, after all that were written |
| CompactionWork.DoCompactionWork | ios/Pods/leveldb-library/db/db_impl.cc:887-1046 | wherever files are cut, the outputs hold exactly the kept entries, are well formed, in order and numbered consecutively |
| CompactionWork.OutputsAreGood | ios/Pods/leveldb-library/db/db_impl.cc:869-885 | such outputs are fit to be installed |
| Store.ReadsMatchHistory | ios/Pods/leveldb-library/db/db_impl.cc:1110-1155 | in every state of the invariant, what memtables and levels hold answers every read from the horizon on like the full history of writes |
| Store.WriteKeepsInv | ios/Pods/leveldb-library/db/db_impl.cc:1195-1266 | a logged and inserted group extends the history by exactly its entries |
| Store.LastEntrySeen | ios/Pods/leveldb-library/db/write_batch.cc:116-137 | of several entries of a batch for one user key the last is what is seen afterwards |
| Store.OtherEntriesSeen | ios/Pods/leveldb-library/db/write_batch.cc:116-137 | and a user key without one shows what it did |
| Store.SwitchKeepsInv | ios/Pods/leveldb-library/db/db_impl.cc:1355-1377 | switching memtable and log changes no history and keeps logs and memtables matched |
| Store.FlushKeepsInv | ios/Pods/leveldb-library/db/db_impl.cc:544-575 | flushing the immutable memtable and moving the log number on keeps the invariant and the history |
| Store.FlushEmptyKeepsInv | ios/Pods/leveldb-library/db/db_impl.cc:517-535 | so does flushing an empty one, which writes no table |
| Store.MoveKeepsInv | ios/Pods/leveldb-library/db/db_impl.cc:727-742 | so does a trivial move |
| Store.CompactKeepsInv | ios/Pods/leveldb-library/db/db_impl.cc:887-1046 | so does a compaction whose dropped markers uncover no value, which moves the horizon to its smallest snapshot |
| Store.RemoveLogsKeepsInv | ios/Pods/leveldb-library/db/db_impl.cc:222-287 | so does removing logs older than the log number |
| Store.StepKeepsInv | ios/Pods/leveldb-library/db/db_impl.cc:697-776 | every step keeps the whole invariant, and only writes change the history; compaction steps are those on good inputs whose dropped markers uncover no value |
| Recovery.TablesAdded | ios/Pods/leveldb-library/db/db_impl.cc:450-495 | tables written for consecutive stretches of replayed entries keep the levels well formed and answer like replayed entries over the old contents |
| Recovery.RecoverKeepsInv | ios/Pods/leveldb-library/db/db_impl.cc:289-378 | after a crash that cuts each log at or after its synced part, recovery that appends only to files that end cleanly re-establishes the invariant, with the flushed entries and surviving records as history |
| Recovery.SyncedWritesSurvive | ios/Pods/leveldb-library/db/db_impl.cc:1224-1235 | then every synced live record and everything flushed is in the recovered history, with its sequence numbers |
| Recovery.WholeLogsLoseNothing | ios/Pods/leveldb-library/db/db_impl.cc:289-378 | then, when no log lost a record, the recovered history is the old one |
| Recovery.RecoveredReads | ios/Pods/leveldb-library/db/db_impl.cc:289-378 | reads after recovery answer like the flushed entries and surviving records |
| Recovery.InitInv | ios/Pods/leveldb-library/db/db_impl.cc:181-211 | a new database satisfies the invariant |
| Recovery.RunKeepsInv | ios/Pods/leveldb-library/db/db_impl.cc:697-776 | every state of every run of such steps, crashes and recoveries satisfies the invariant: no compaction uncovers a value, and only files that end cleanly are appended to |
| Recovery.EveryReadIsRight | ios/Pods/leveldb-library/db/db_impl.cc:1110-1155 | in every state of every such run, for every user key, at every live snapshot and at the last sequence number, the store answers like the full history |
| Recovery.OldSnapshotsUnchanged | ios/Pods/leveldb-library/db/db_impl.cc:1176-1184 | no step changes what the history shows at sequence numbers already given out |
| Recovery.HeldSnapshotIsStable | ios/Pods/leveldb-library/db/db_impl.cc:1176-1184 | between crashes a snapshot held throughout reads the same at both ends of any stretch of a run |
| Merger.MergingIterator.constructor | ios/Pods/leveldb-library/table/merger.cc:16-25 | starts invalid over the sorted union of the children |
| Merger.MergingIterator.FindSmallest | ios/Pods/leveldb-library/table/merger.cc:148-161 | with every child at its first entry from a place on, the cursor is at that place |
| Merger.MergingIterator.FindLargest | ios/Pods/leveldb-library/table/merger.cc:163-176 | with every child at its last entry up to a place, the cursor is at that place |
| Merger.MergingIterator.SeekToFirst | ios/Pods/leveldb-library/table/merger.cc:31-37 | the cursor is at the first entry of the union |
| Merger.MergingIterator.SeekToLast | ios/Pods/leveldb-library/table/merger.cc:39-45 | the cursor is at the last entry of the union |
| Merger.MergingIterator.Seek | ios/Pods/leveldb-library/table/merger.cc:47-53 | the cursor is at the first entry of the union not before the target |
| Merger.MergingIterator.TurnForward | ios/Pods/leveldb-library/table/merger.cc:58-75 | repositioning the other children for a forward move leaves the cursor where it was |
| Merger.MergingIterator.TurnBackward | ios/Pods/leveldb-library/table/merger.cc:84-104 | repositioning the other children for a backward move leaves the cursor where it was |
| Merger.MergingIterator.Next | ios/Pods/leveldb-library/table/merger.cc:55-79 | from either direction the cursor moves one entry on in the union |
| Merger.MergingIterator.Prev | ios/Pods/leveldb-library/table/merger.cc:81-108 | from either direction the cursor moves one entry back, or past the end from the first |
| Merger.Merge | ios/Pods/leveldb-library/table/merger.cc:31-79 | iterating from the first entry yields exactly the sorted union |
| DbIter.RowsAreTheView | ios/Pods/leveldb-library/db/db_iter.cc:141-308 | the rows the iterator may stand on are exactly the user keys with a value at the snapshot, each with that value |
| DbIter.DBIter.constructor | ios/Pods/leveldb-library/db/db_iter.cc:48-57 | starts invalid, with the rows of its snapshot |
| DbIter.DBIter.FindNextUserEntry | ios/Pods/leveldb-library/db/db_iter.cc:177-207 | skipping hidden, deleted and invisible entries forwards stops at exactly the next row |
| DbIter.DBIter.FindPrevUserEntry | ios/Pods/leveldb-library/db/db_iter.cc:236-276 | scanning backwards stops behind exactly the previous row with its key and value saved |
| DbIter.DBIter.Next | ios/Pods/leveldb-library/db/db_iter.cc:141-175 | one row on, also after moving backwards |
| DbIter.DBIter.Prev | ios/Pods/leveldb-library/db/db_iter.cc:209-234 | one row back, also after moving forwards, and invalid before the first |
| DbIter.DBIter.Seek | ios/Pods/leveldb-library/db/db_iter.cc:278-290 | the first row whose user key is at or past the target |
| DbIter.DBIter.SeekToFirst | ios/Pods/leveldb-library/db/db_iter.cc:292-301 | the first row |
| DbIter.DBIter.SeekToLast | ios/Pods/leveldb-library/db/db_iter.cc:303-308 | the last row |
| DbIter.DBIter.Key | ios/Pods/leveldb-library/db/db_iter.cc:64-67 | in both directions the key shown is that of the row |
| DbIter.DBIter.GetValue | ios/Pods/leveldb-library/db/db_iter.cc:68-71 | in both directions the value shown is that of the row |
| Manifest.Builder.constructor | ios/Pods/leveldb-library/db/version_set.cc:598-605 | starts with the contents of the base version |
| Manifest.Builder.Apply | ios/Pods/leveldb-library/db/version_set.cc:629-669 | an edit removes its deleted numbers and then adds its new files at each level, re-adding a file cancelling its deletion |
| Manifest.SaveLevel | ios/Pods/leveldb-library/db/version_set.cc:672-715 | merging base and added files writes the not deleted ones in key order, each as often as the two lists hold it |
| Manifest.MergedIsOrdered | ios/Pods/leveldb-library/db/version_set.cc:672-730 | the result is a proper sorted list if and only if no remaining file is both in the base and added |
| Manifest.Builder.SaveTo | ios/Pods/leveldb-library/db/version_set.cc:672-715 | every level holds exactly base plus added minus deleted, and is properly sorted if and only if no remaining file was added twice |
| Manifest.ApplyEdit | ios/Pods/leveldb-library/db/version_set.cc:792-797 | the version after one edit has exactly the edited contents, and is well ordered if and only if the edit adds only files the level does not have |
| Manifest.HistoryDescribes | ios/Pods/leveldb-library/db/version_set.cc:777-860 | installing edits one at a time yields at each point the version the edits describe |
| Manifest.RecoverManifest | ios/Pods/leveldb-library/db/version_set.cc:862-987 | one builder applying all edits from an empty base yields the version they describe and the last recorded counters, and fails if and only if a counter was never recorded |
| Manifest.ReplayIsLive | ios/Pods/leveldb-library/db/version_set.cc:862-987 | the replayed version is, list by list, the live one |
| Manifest.WriteSnapshot | ios/Pods/leveldb-library/db/version_set.cc:1064-1092 | the snapshot edit names exactly the files of the version and no counters |
| Manifest.SnapshotDescribes | ios/Pods/leveldb-library/db/version_set.cc:1064-1092 | that edit alone describes the version |
| InputLists.ConcatIs | ios/Pods/leveldb-library/db/version_set.cc:1214-1245 | the tables of a deeper level one after the other are one sorted list of all their entries |
| InputLists.AddIterators | ios/Pods/leveldb-library/db/version_set.cc:229-245 | the child lists cover exactly what the version stores, without repetition |
| InputLists.MakeInputIterator | ios/Pods/leveldb-library/db/version_set.cc:1214-1245 | the child lists cover exactly the entries of the compaction inputs |
| SortedEntries.UnionOf | ios/Pods/leveldb-library/table/merger.cc:14-29 | lists that cover a set of distinct internal keys have one sorted union, with exactly these entries |
| Db.InsertInto | ios/Pods/leveldb-library/db/write_batch.cc:116-137 | inserting a batch into a sorted memtable keeps it sorted and adds exactly the batch |
| Db.DBImpl.constructor | ios/Pods/leveldb-library/db/db_impl.cc:181-211 | a new database is an initial state of the state machine |
| Db.DBImpl.Get | ios/Pods/leveldb-library/db/db_impl.cc:1110-1155 | memtable, immutable memtable and tables in this order answer what the full history shows at the snapshot |
| Db.DBImpl.Write | ios/Pods/leveldb-library/db/db_impl.cc:1195-1266 | exactly the write step under the next sequence numbers; afterwards every user key shows the value of the last operation on it, nothing if that deletes it, and what it showed before if none names it; one record goes to the end of the last log, which is synced if asked |
| Db.WriteShows | ios/Pods/leveldb-library/db/write_batch.cc:116-137 | what a write step does to what is seen of any user key: the last operation on it decides, and without one nothing changes |
| Db.DBImpl.AddRecord | ios/Pods/leveldb-library/db/db_impl.cc:1224-1232 | appends one record to the last log, syncs all of it if asked, and changes no other log |
| Db.DBImpl.SwitchMemTable | ios/Pods/leveldb-library/db/db_impl.cc:1355-1377 | exactly the memtable-switch step |
| Db.DBImpl.GetSnapshot | ios/Pods/leveldb-library/db/db_impl.cc:1176-1179 | returns the last sequence number, exactly the snapshot step |
| Db.DBImpl.ReleaseSnapshot | ios/Pods/leveldb-library/db/db_impl.cc:1181-1184 | exactly the release step |
| Db.DBImpl.LogAndApply | ios/Pods/leveldb-library/db/version_set.cc:777-860 | installs the edit and appends it with the current counters to the manifest, or to a new one behind an edit that describes the version; nothing else of the state changes, and the manifest describes the installed version |
| Db.DBImpl.WriteLevel0Table | ios/Pods/leveldb-library/db/db_impl.cc:500-542 | writes a table with exactly the given entries under a new number, none for an empty list, at exactly the level the overlaps of the base version allow, and at level 0 without one |
| Db.DBImpl.CompactMemTable | ios/Pods/leveldb-library/db/db_impl.cc:544-575 | exactly a flush step, with a table of exactly the immutable memtable at exactly the level the overlaps allow, leaving memtable and logs alone |
| Db.DBImpl.MoveFile | ios/Pods/leveldb-library/db/db_impl.cc:727-742 | exactly the trivial-move step |
| Db.DBImpl.CompactFiles | ios/Pods/leveldb-library/db/db_impl.cc:887-1046 | works with the greatest number that neither the last sequence number nor a live snapshot lies below; replaces exactly the inputs by outputs that hold exactly what the rules keep: of the versions of a user key at or below that number at most one, and of markers there only those whose key a deeper level may hold; it is a compaction step if no dropped marker uncovers a value |
| Db.DBImpl.InstallCompactionResults | ios/Pods/leveldb-library/db/db_impl.cc:869-885 | the edit removes exactly the inputs, adds exactly the outputs, and the manifest still describes the version |
| Db.ChooseInputs | ios/Pods/leveldb-library/db/db_impl.cc:708-726 | an automatic request chooses the inputs that follow from its file, a manual one those that follow from its range, and none if and only if no file meets it |
| Db.DBImpl.BackgroundCompaction | ios/Pods/leveldb-library/db/db_impl.cc:697-776 | an immutable memtable is flushed first; otherwise the step is the one for the files the request chooses: nothing only for a manual range that meets no file, a move of one file without overlap and without too much overlap further down if the request is automatic, else a compaction, with the smallest snapshot there is; a compaction is a step if no dropped marker uncovers a value |
| Db.DBImpl.RemoveObsoleteLogs | ios/Pods/leveldb-library/db/db_impl.cc:222-287 | exactly the log-removal step: the logs left are exactly those from the log number on |
| Db.DBImpl.ObsoleteTables | ios/Pods/leveldb-library/db/db_impl.cc:222-287 | a table number on disk is obsolete if and only if it is neither pending nor in the version |
| Db.LiveLogs | ios/Pods/leveldb-library/db/db_impl.cc:341-350 | keeps exactly the logs numbered from the manifest's log number on, in order |
| Db.DBImpl.ChildIterators | ios/Pods/leveldb-library/db/db_impl.cc:1072-1085 | memtables and tables together cover exactly what the database holds, without repetition |
| Db.DBImpl.NewIterator | ios/Pods/leveldb-library/db/db_impl.cc:1157-1167 | the iterator's rows are exactly the user keys with a value in the full history at the snapshot, with those values |
| DbOpen.RecoverLogFile | ios/Pods/leveldb-library/db/db_impl.cc:380-498 | the replayed whole records of one log end up in tables in order or, when it is reused, all in the memtable, and the largest sequence number is found; it is reused if and only if it is the last one, reuse is asked for and its records never make a memtable overflow |
| DbOpen.WriteReplayed | ios/Pods/leveldb-library/db/db_impl.cc:450-461 | a replayed memtable becomes a level-0 table with exactly its entries |
| DbOpen.MarkFileNumberUsed | ios/Pods/leveldb-library/db/version_set.cc:1020-1024 | the next file number ends up past the marked one and never goes back |
| DbOpen.RecoverLogFiles | ios/Pods/leveldb-library/db/db_impl.cc:358-371 | all logs replayed in ascending order: tables, memtable and largest sequence number account for all records, and the outcome has to be saved if and only if some log has records that did not stay in the reused memtable |
| DbOpen.ReadManifest | ios/Pods/leveldb-library/db/version_set.cc:862-987 | the recovered version, log number and counters are those the closed database had recorded |
| DbOpen.ReplayAll | ios/Pods/leveldb-library/db/db_impl.cc:358-375 | the last sequence number is the largest of those recorded and replayed, and every record is in a table or in the reused memtable |
| DbOpen.StartLog | ios/Pods/leveldb-library/db/db_impl.cc:1487-1501 | a new empty log with a new number unless the last one is reused |
| DbOpen.SaveManifest | ios/Pods/leveldb-library/db/db_impl.cc:1502-1506 | records the new tables and log number, or changes nothing when nothing need be saved |
| DbOpen.RecordOutcome | ios/Pods/leveldb-library/db/db_impl.cc:1487-1506 | the opened database has the logs, tables, numbers and recorded counters that follow from what was replayed, whether or not the log is reused and the outcome saved |
| DbOpen.Open | ios/Pods/leveldb-library/db/db_impl.cc:1478-1519 | opening what any valid database left on disk, with every log cut at or after its synced part and the bytes of the last log and the manifest holding what is left of them, restores all that was left; it is a recovery step to a valid database unless a file that does not end cleanly is appended to; the last log is gone on with exactly when that is asked for and its records fit into one memtable, and a record of the outcome is saved exactly when the manifest is not reused or something was written out |
| Interleaving.FlushCommutes | ios/Pods/leveldb-library/db/db_impl.cc:918-928 | a flush while a compaction runs and the compaction's install can be done in either order |
| Interleaving.FlushDuringCompaction | ios/Pods/leveldb-library/db/db_impl.cc:918-928 | the levels stay well formed if and only if the flushed table lies apart from outputs at its own level |
| Interleaving.FlushKeepsLevelsForEveryCut | ios/Pods/leveldb-library/db/db_impl.cc:918-928 | before there are outputs: every way of cutting them keeps the levels well formed if and only if the kept entries lie on one side of a table flushed to the output level |
| Interleaving.FlushDuringCompactionStored | ios/Pods/leveldb-library/db/db_impl.cc:918-928 | the stored set keeps its meaning at snapshots from the smallest on, whether or not a search still finds it |
| Interleaving.FlushDuringCompactionSearch | ios/Pods/leveldb-library/db/version_set.cc:281-322 | after the flush and the install, every search from the smallest snapshot on finds the newest stored entry if and only if the flushed table lies apart from outputs at its own level |
| Interleaving.FlushedIsLost | ios/Pods/leveldb-library/db/version_set.cc:281-322 | otherwise every entry of the flushed table is lost to searches: it is the newest stored one and is not what the search returns |
| Interleaving.GaplessKeepsApart | ios/Pods/leveldb-library/db/version_set.cc:470-495 | inputs without a gap, as automatic compactions have, always keep a flushed table apart |
| Interleaving.FlushKeepsCompaction | ios/Pods/leveldb-library/db/db_impl.cc:918-928 | a flush leaves such a running compaction's inputs, kept entries and outputs exactly as demanded |
| Interleaving.ManualCompactionLeavesRoom | ios/Pods/leveldb-library/db/db_impl.cc:697-728 | a manual compaction of a range whose inputs have a gap and a flush into that gap give overlapping files at one level |
| Interleaving.WritesAreLost | ios/Pods/leveldb-library/db/version_set.cc:87-105 | in that state the flushed write is not found, nor is the write that ends the output, which the binary search passes by |
| Coding.Fixed32RoundTrip | ios/Pods/leveldb-library/util/coding.cc:9-13 | four bytes decode to the encoded number, whatever follows |
| Coding.Fixed32Unique | ios/Pods/leveldb-library/util/coding.cc:9-13 | and any four bytes are the encoding of what they decode to |
| Coding.Fixed64RoundTrip | ios/Pods/leveldb-library/util/coding.cc:15-19 | eight bytes decode to the encoded number, whatever follows |
| Coding.EncodeVarint32 | ios/Pods/leveldb-library/util/coding.cc:21-47 | the unrolled branches write the base-128 varint, at most five bytes |
| Coding.EncodeVarint64 | ios/Pods/leveldb-library/util/coding.cc:55-64 | the loop writes the base-128 varint, at most ten bytes |
| Coding.GetVarintPtr | ios/Pods/leveldb-library/util/coding.cc:86-102 | the decoding loop is the recursive reader, on any bytes |
| Coding.Varint32RoundTrip | ios/Pods/leveldb-library/util/coding.cc:86-114 | reading back gives every 32-bit number and the bytes after it |
| Coding.Varint64RoundTrip | ios/Pods/leveldb-library/util/coding.cc:116-142 | reading back gives every 64-bit number and the bytes after it |
| Coding.CutVarint | ios/Pods/leveldb-library/util/coding.cc:86-102 | a varint cut short is never read as a number |
| Coding.LengthPrefixedRoundTrip | ios/Pods/leveldb-library/util/coding.cc:155-164 | a length-prefixed string reads back, whatever follows |
| KnownBytes.NumbersWritten | ios/Pods/leveldb-library/util/coding.cc:9-64 | known fixed and varint encodings |
| CodecErrors.VarintMeans | ios/Pods/leveldb-library/util/coding.cc:86-142 | any bytes, of whatever length and form: the number read is made of the groups of seven bits up to the first byte below 128, modulo the word, and there is none if that byte is missing or comes too late |
| Crc32c.ExtendValue | ios/Pods/leveldb-library/util/crc32c.cc:276-377 | extending the checksum of one string by another gives the checksum of both together |
| Crc32c.UnmaskMask | ios/Pods/leveldb-library/util/crc32c.h:29-38 | unmasking a masked checksum gives it back |
| Crc32c.MaskUnmask | ios/Pods/leveldb-library/util/crc32c.h:29-38 | and masking an unmasked one gives it back, so a stored checksum is the mask of one value only |
| Crc32c.Crc32cIsLawful | ios/Pods/leveldb-library/util/crc32c.cc:276-377 | CRC32C has all the laws the log relies on |
| KnownBytes.TableEntries | ios/Pods/leveldb-library/util/crc32c.cc:20-63 | the entries of the byte table at the powers of two are eight bits shifted out |
| KnownBytes.LetterChecked | ios/Pods/leveldb-library/util/crc32c.cc:276-377 | the CRC-32C of the letter a, alone and behind a type byte |
| KnownBytes.LetterLogged | ios/Pods/leveldb-library/db/log_writer.cc:82-108 | the eight bytes of a log record with that payload: masked checksum, length, type, payload |
| LogFormat.RecordParts | ios/Pods/leveldb-library/db/log_format.h:14-30 | length, type, payload and checksum of a physical record read back from its bytes |
| LogFormat.EncodeSplit | ios/Pods/leveldb-library/db/log_writer.cc:34-80 | a log written in two sittings is the log of all records together |
| LogWriter.Writer.constructor | ios/Pods/leveldb-library/db/log_writer.cc:23-30 | a writer opened on a file of any length knows its place in the block |
| LogWriter.Writer.EmitPhysicalRecord | ios/Pods/leveldb-library/db/log_writer.cc:82-108 | appends exactly the physical record with its checksum |
| LogWriter.Writer.AddFragment | ios/Pods/leveldb-library/db/log_writer.cc:43-77 | one turn of the loop pads a block without room for a header and appends the fragment with the right type |
| LogWriter.Writer.AddRecord | ios/Pods/leveldb-library/db/log_writer.cc:34-80 | the loop terminates and appends exactly the fragments of the record, also of an empty one |
| LogWriter.WriteAll | ios/Pods/leveldb-library/db/log_writer.cc:23-80 | a reopened log continues to exactly the file of all records |
| LogReader.Reader.constructor | ios/Pods/leveldb-library/db/log_reader.cc:18-29 | starts at offset 0 with nothing reported |
| LogReader.Reader.ReadPhysicalRecord | ios/Pods/leveldb-library/db/log_reader.cc:189-271 | over its block buffer the reader returns the physical record at its place in the file, on any bytes, with as many reports |
| LogReader.Reader.ReadRecord | ios/Pods/leveldb-library/db/log_reader.cc:56-174 | returns the next whole record of the file as LogGroups.RecordIsGroup describes it, on any bytes, with as many reports |
| LogReader.ReadLog | ios/Pods/leveldb-library/db/log_reader.cc:56-174 | reading to the end returns all records of any file |
| LogGroups.RecordIsGroup | ios/Pods/leveldb-library/db/log_reader.cc:56-187 | in any file each record returned is the payload of one FULL physical record, or the payloads of consecutive FIRST, MIDDLE and LAST ones and nothing else; everything passed over before it adds a report, but for zeroed blocks and pieces without bytes |
| LogGroups.FragmentStands | ios/Pods/leveldb-library/db/log_reader.cc:189-271 | what is read as a fragment stands there in the bytes: behind the trailer of its block and within it, with its length, type and checksum |
| LogGroups.StandingIsRead | ios/Pods/leveldb-library/db/log_reader.cc:189-271 | and every fragment that stands there is read |
| LogGroups.OtherParse | ios/Pods/leveldb-library/db/log_reader.cc:189-271 | anything else is the end of the file, or drops the rest of its block with a report unless type and length are zero |
| LogRoundTrip.WholeLog | ios/Pods/leveldb-library/db/log_reader.cc:56-271 | a written log reads back as exactly its records without a report, for records of any lengths |
| LogRoundTrip.CutLog | ios/Pods/leveldb-library/db/log_reader.cc:144-151 | a log cut at any byte reads back as exactly the records whose last byte survives, without a report |
| LogRoundTrip.CompleteIsPrefix | ios/Pods/leveldb-library/db/log_reader.cc:189-233 | those records are the longest prefix that fits what is left |
| LogRoundTrip.PhysicalAt | ios/Pods/leveldb-library/db/log_reader.cc:189-271 | a physical record inside a cut file is read whole or taken for the end of the file |
| KnownBytes.FragmentTypes | ios/Pods/leveldb-library/db/log_format.h:14-24 | the type bytes of a record that takes one, two or three blocks, at their places in the file |
| LogReopen.TornTail | ios/Pods/leveldb-library/db/log_reader.cc:189-233 | whatever lies behind a cut, when the torn physical record reads as the end of the file all of it is lost without a report, and when it reads as bad that is reported |
| LogReopen.TornPayloadSwallows | ios/Pods/leveldb-library/db/db_impl.cc:467-475 | appended and synced bytes behind a torn payload are all lost without a report as long as they do not reach the length the torn header claims, whatever the checksum |
| LogReopen.TornPayloadReports | ios/Pods/leveldb-library/db/log_reader.cc:235-251 | when they reach that far, a wrong checksum is reported |
| LogReopen.SyncedRecordVanishes | ios/Pods/leveldb-library/db/db_impl.cc:467-475 | a ten-byte record appended to a log that was cut in a thousand-byte one is never read again |
| LogReopen.ReopenContinues | ios/Pods/leveldb-library/db/log_writer.cc:27-30 | appending behind a cut that ends a record or lies in the padding behind one gives exactly the log of the whole records and those appended |
| LogReopen.CleanRereads | ios/Pods/leveldb-library/db/log_writer.cc:27-30 | behind every clean cut, a skipped header included, everything appended is read back after the whole records, without a report |
| LogReopen.SkippedRereads | ios/Pods/leveldb-library/db/log_reader.cc:235-241 | a header torn at the end of a block, before its length or with length zero, is completed by the padding to one the reader skips, and everything appended is read back |
| LogReopen.LastHeaderLoses | ios/Pods/leveldb-library/db/log_reader.cc:235-260 | where just one more header fits behind a torn one, an empty record and a long one cannot both be read back, since the torn bytes fix the type any matching checksum allows |
| LogReopen.HeaderLoses | ios/Pods/leveldb-library/db/log_reader.cc:235-260 | behind any cut inside a header that will not be skipped some record is not read back as appended, whatever the checksum |
| LogReopen.AppendableIffClean | ios/Pods/leveldb-library/db/version_set.cc:989-1017 | for every cut of every log and every checksum function: whatever is appended is read back without a report if and only if the cut ends a record, lies in the padding behind one, ends an empty first fragment, or tears the last header of a block before its length or with length zero |
| LogFiles.CutHolds | ios/Pods/leveldb-library/db/log_reader.cc:189-271 | any file that reads as some records without a report reads, cut at any byte, as a front of them without a report |
| LogFiles.HeldExtends | ios/Pods/leveldb-library/db/log_reader.cc:56-187 | whatever is put behind such a file, its records are read first and reading goes on where the last one ends |
| LogFiles.CleanEndContinues | ios/Pods/leveldb-library/db/db_impl.cc:467-475 | any file that ends cleanly, judged by its bytes alone, reads as its records and those appended, without a report |
| LogFiles.EndsCleanlyIffClean | ios/Pods/leveldb-library/db/db_impl.cc:467-475 | on a log that was cut off, ending cleanly is the exact condition for appending |
| LogRecords.EditsHold | ios/Pods/leveldb-library/db/version_set.cc:1064-1092 | the records of encoded edits decode to those edits |
| LogRecords.BatchesHold | ios/Pods/leveldb-library/db/db_impl.cc:433-448 | the records of encoded batches iterate to their operations under their sequence numbers |
| LogRecords.EditsSurvive | ios/Pods/leveldb-library/db/version_set.cc:862-987 | a manifest file cut at any byte replays to exactly the edits it still holds whole |
| LogRecords.BatchesSurvive | ios/Pods/leveldb-library/db/db_impl.cc:380-498 | a write-ahead log file cut at any byte replays to exactly the batches it still holds whole |
| LogRecords.EditsContinue | ios/Pods/leveldb-library/db/version_set.cc:989-1017 | a manifest file with a clean cut that is appended to replays to the edits before the cut and those appended |
| LogRecords.BatchesContinue | ios/Pods/leveldb-library/db/db_impl.cc:467-475 | and so does a write-ahead log file |
| DiskImage.ReadingIs | ios/Pods/leveldb-library/db/log_reader.cc:56-187 | the records a file is said to hold are exactly those the reader returns for it, when it reports nothing |
| DiskImage.OneMeaning | ios/Pods/leveldb-library/db/write_batch.cc:116-136 | the bytes of a log record fix the entries they stand for |
| DiskImage.WrittenStandsFor | ios/Pods/leveldb-library/db/write_batch.cc:116-136 | the bytes written for a batch stand for the entries it inserts, under consecutive sequence numbers |
| DiskImage.WrittenStandsForEdit | ios/Pods/leveldb-library/db/version_edit.cc:41-85 | the bytes written for an edit stand for the edit of whole files it describes |
| DiskImage.BatchShows | ios/Pods/leveldb-library/db/write_batch.cc:116-136 | and the entries an encoded batch stands for show, for the bytes of any key, the value its last operation on the key put, nothing if it deleted it, and otherwise what was seen before |
| DiskImage.LogCut | ios/Pods/leveldb-library/db/db_impl.cc:380-448 | a log file cut at any byte holds a front of its groups of entries |
| DiskImage.AppendRecord | ios/Pods/leveldb-library/db/log_writer.cc:36-84 | a record appended to a writable file is read back last, and the file stays writable |
| DiskImage.ManifestSurvives | ios/Pods/leveldb-library/db/version_set.cc:821-829 | a manifest whose edits are all synced holds exactly these edits after any crash |
| DiskImage.ManifestContinues | ios/Pods/leveldb-library/db/version_set.cc:989-1017 | a writable manifest takes the next edit behind those it holds |
| DiskRuns.CutsAreValid | ios/Pods/leveldb-library/db/db_impl.cc:358-371 | wherever files are cut behind their synced bytes, what they hold is a legal rest of the logs with everything synced |
| DiskRuns.CutIsCrash | ios/Pods/leveldb-library/db/db_impl.cc:380-498 | so reading the files after such a cut finds what the model of a crash says |
| DiskRuns.StepKeepsDisk | ios/Pods/leveldb-library/db/db_impl.cc:1195-1266 | every step of the store, with what it does to the bytes, keeps the files in agreement with the logs and the last one writable |
| DiskRuns.RunKeepsDisk | ios/Pods/leveldb-library/db/db_impl.cc:1478-1519 | in every state of every run, crashes and reopened logs included, the log files read back as the records of the logs, without a report |
| DiskRuns.SyncedRecordsAreRead | ios/Pods/leveldb-library/db/db_impl.cc:1224-1235 | in every state of every run a crash at any byte behind the synced ones leaves every synced record of every log readable at its place |
| EditCodec.EncodeTo | ios/Pods/leveldb-library/db/version_edit.cc:41-84 | writes the edit's fields in the source's order |
| EditCodec.DecodeFrom | ios/Pods/leveldb-library/db/version_edit.cc:105-203 | the loop is the recursive field reader, on any bytes |
| EditCodec.PayloadRoundTrip | ios/Pods/leveldb-library/db/version_edit.cc:105-203 | each kind of field reads back under its tag, whatever follows |
| EditCodec.EditRoundTrip | ios/Pods/leveldb-library/db/version_edit.cc:41-203 | decoding an encoded edit gives the edit back |
| KnownBytes.FieldsWritten | ios/Pods/leveldb-library/db/version_edit.cc:12-24 | the bytes of one field of each kind |
| CodecErrors.TornEdit | ios/Pods/leveldb-library/db/version_edit.cc:105-203 | a record that breaks off inside a field is no edit |
| CodecErrors.UnknownTagRefused | ios/Pods/leveldb-library/db/version_edit.cc:188-192 | nor is one with an unknown tag behind any fields |
| CodecErrors.AcceptedIsFields | ios/Pods/leveldb-library/db/version_edit.cc:105-203 | any bytes that are accepted mean what some well-formed fields, set one after the other, mean |
| WriteBatch.WriteBatch.constructor | ios/Pods/leveldb-library/db/write_batch.cc:29-38 | an empty batch with sequence 0 |
| WriteBatch.WriteBatch.Count | ios/Pods/leveldb-library/db/write_batch.cc:82-84 | the header count is the number of operations |
| WriteBatch.WriteBatch.SetSequence | ios/Pods/leveldb-library/db/write_batch.cc:94-96 | patches the sequence and leaves the operations |
| WriteBatch.WriteBatch.PutOp | ios/Pods/leveldb-library/db/write_batch.cc:98-103 | appends one put and patches the count in place |
| WriteBatch.WriteBatch.DeleteOp | ios/Pods/leveldb-library/db/write_batch.cc:105-109 | appends one deletion and patches the count in place |
| WriteBatch.WriteBatch.Append | ios/Pods/leveldb-library/db/write_batch.cc:144-148 | appends the operations of another batch, also of itself |
| WriteBatch.WriteBatch.IterateOps | ios/Pods/leveldb-library/db/write_batch.cc:42-80 | makes exactly the calls the bytes spell, on any bytes, and reports malformed ones and wrong counts |
| WriteBatch.WriteBatch.InsertInto | ios/Pods/leveldb-library/db/write_batch.cc:132-137 | numbers the operations consecutively from the sequence in the header, for any contents up to the first malformed operation, and succeeds on every batch built by the methods |
| WriteBatch.BatchRoundTrip | ios/Pods/leveldb-library/db/write_batch.cc:42-80 | iterating an encoded batch gives its operations back |
| KnownBytes.BatchWritten | ios/Pods/leveldb-library/db/write_batch.cc:5-14 | the bytes of a batch with a put and a deletion |
| CodecErrors.CutBatch | ios/Pods/leveldb-library/db/write_batch.cc:42-80 | a batch cut off anywhere behind its header is found corrupt, after exactly the operations that are whole |
| CodecErrors.WrongBatch | ios/Pods/leveldb-library/db/write_batch.cc:42-80 | so is one with a wrong count or with an unknown type byte behind any operations |
| WriterQueue.BuildBatchGroup | ios/Pods/leveldb-library/db/db_impl.cc:1270-1316 | takes the longest front of the queue that may be one group and concatenates its batches in order |
| WriterQueue.GroupIsLongest | ios/Pods/leveldb-library/db/db_impl.cc:1277-1316 | the group is the longest there may be: each member may join those before it, and the writer after the last asks for a sync the group does not do, or would make it too big |
| WriterQueue.GroupFits | ios/Pods/leveldb-library/db/db_impl.cc:1277-1303 | the group stays within the size limit set by its first batch |
| WriterQueue.SyncWritersJoinSync | ios/Pods/leveldb-library/db/db_impl.cc:1290-1295 | a writer asking for sync only joins a group that syncs |
| WriterQueue.StepKeepsInv | ios/Pods/leveldb-library/db/db_impl.cc:1195-1266 | every step of the queue, failures included, keeps the invariant |
| WriterQueue.RunKeepsInv | ios/Pods/leveldb-library/db/db_impl.cc:1195-1266 | every state of every run satisfies it |
| WriterQueue.LoggedOnce | ios/Pods/leveldb-library/db/db_impl.cc:1195-1266 | no writer is in two log records |
| WriterQueue.AcknowledgedOnce | ios/Pods/leveldb-library/db/db_impl.cc:1195-1266 | every batch acknowledged OK is in exactly one record, that record is inserted, and synced if its writer asked for it |
| WriterQueue.ReleasedInOrder | ios/Pods/leveldb-library/db/db_impl.cc:1195-1266 | records follow the queue order with disjoint ascending sequence numbers, and writers are released in the order they joined |
| WriterQueue.GroupsSeenWhole | ios/Pods/leveldb-library/db/db_impl.cc:1212-1247 | in every state of every run a group is visible at the published last sequence number as a whole or not at all |
| WriterQueue.NumbersAscend | ios/Pods/leveldb-library/db/db_impl.cc:1212-1217 | in every state of every run the operations in the memtable carry strictly ascending sequence numbers, so no two share one |
| GroupCommit.StepIsWrite | ios/Pods/leveldb-library/db/db_impl.cc:1212-1247 | a finished group is one write of the store under its sequence numbers and sync flag, and every other step of the queue is none |
| GroupCommit.RunIsWrites | ios/Pods/leveldb-library/db/db_impl.cc:1195-1266 | along every run of the queue in which the log does its work the store follows with these writes, and its history is the old one and what readers of the memtable see at the last sequence number |
| SkipList.ReadKeepsInv | ios/Pods/leveldb-library/db/skiplist.h:262-281 | one turn of a search keeps the invariant, and a search that ends has read the first node at or after its key in the list as it is then |
| SkipList.PublishKeepsNested | ios/Pods/leveldb-library/db/skiplist.h:361-367 | linking a node in at one level changes no other level and keeps every level a part of the one below |
| SkipList.StepKeepsInv | ios/Pods/leveldb-library/db/skiplist.h:336-368 | every step of a search or insertion, interleaved, keeps every level sorted and nested |
| SkipList.RunKeepsInv | ios/Pods/leveldb-library/db/skiplist.h:336-368 | so does every run |
| SkipList.SearchLinearizes | ios/Pods/leveldb-library/db/skiplist.h:262-281 | a search running beside an insertion answers for the list at the moment of its last level-0 read |
| SkipList.List.constructor | ios/Pods/leveldb-library/db/skiplist.h:325-334 | an empty list |
| SkipList.List.FindGreaterOrEqual | ios/Pods/leveldb-library/db/skiplist.h:262-281 | finds the first node at or after the key and, on each level, the node before that place |
| SkipList.List.FindLessThan | ios/Pods/leveldb-library/db/skiplist.h:285-302 | finds the last node before the key |
| SkipList.List.FindLast | ios/Pods/leveldb-library/db/skiplist.h:305-322 | finds the last node |
| SkipList.List.Contains | ios/Pods/leveldb-library/db/skiplist.h:371-378 | true if and only if the key is in the list |
| SkipList.List.Insert | ios/Pods/leveldb-library/db/skiplist.h:337-368 | inserts the key at its place in the sorted contents, on exactly the levels of its height |
| SkipList.List.ContentsAscend | ios/Pods/leveldb-library/db/skiplist.h:361-367 | the contents are strictly ascending |
| SkipList.Iterator.constructor | ios/Pods/leveldb-library/db/skiplist.h:189-193 | starts invalid |
| SkipList.Iterator.Next | ios/Pods/leveldb-library/db/skiplist.h:207-210 | one place on |
| SkipList.Iterator.Prev | ios/Pods/leveldb-library/db/skiplist.h:213-221 | one place back, invalid before the first |
| SkipList.Iterator.Seek | ios/Pods/leveldb-library/db/skiplist.h:224-226 | the first key at or after the target |
| SkipList.Iterator.SeekToFirst | ios/Pods/leveldb-library/db/skiplist.h:229-231 | the first key |
| SkipList.Iterator.SeekToLast | ios/Pods/leveldb-library/db/skiplist.h:234-239 | the last key |
| CacheTable.HandleTable.constructor | ios/Pods/leveldb-library/util/cache.cc:72-72 | an empty table |
| CacheTable.HandleTable.FindPointer | ios/Pods/leveldb-library/util/cache.cc:115-121 | the slot that points to the entry with this key and hash, or the end of its chain |
| CacheTable.HandleTable.Lookup | ios/Pods/leveldb-library/util/cache.cc:75-77 | finds the entry of the key if and only if the table holds one |
| CacheTable.HandleTable.Insert | ios/Pods/leveldb-library/util/cache.cc:79-93 | the table holds the new entry and all others but one of equal key, which is returned |
| CacheTable.HandleTable.Remove | ios/Pods/leveldb-library/util/cache.cc:95-103 | the table holds all but the entry of the key, which is returned |
| CacheTable.HandleTable.Resize | ios/Pods/leveldb-library/util/cache.cc:123-147 | relinking every node into the new buckets leaves the table holding exactly the same entries |
| Rings.Removed | ios/Pods/leveldb-library/util/cache.cc:240-243 | unlinking a node leaves a ring of the others in the same order |
| Rings.Appended | ios/Pods/leveldb-library/util/cache.cc:245-251 | linking a node before the head puts it last |
| Cache.LRUCache.constructor | ios/Pods/leveldb-library/util/cache.cc:198-204 | an empty cache |
| Cache.LRUCache.LRURemove | ios/Pods/leveldb-library/util/cache.cc:240-243 | takes an entry off its list and leaves both lists in order |
| Cache.LRUCache.LRUAppend | ios/Pods/leveldb-library/util/cache.cc:245-251 | puts an entry last on one list and leaves the other |
| Cache.LRUCache.Ref | ios/Pods/leveldb-library/util/cache.cc:218-224 | one more reference; an unused cached entry moves to the in-use list |
| Cache.LRUCache.Unref | ios/Pods/leveldb-library/util/cache.cc:226-238 | one reference less; at none the deleter runs, at the cache's own the entry becomes the newest unused one |
| Cache.LRUCache.Lookup | ios/Pods/leveldb-library/util/cache.cc:253-260 | returns a referenced handle of the cached entry of the key, or nothing if and only if none is cached |
| Cache.LRUCache.Release | ios/Pods/leveldb-library/util/cache.cc:262-265 | gives one reference back |
| Cache.LRUCache.Insert | ios/Pods/leveldb-library/util/cache.cc:267-304 | the cache after inserting is that of the specification, for every capacity including none |
| Cache.LRUCache.FinishErase | ios/Pods/leveldb-library/util/cache.cc:308-317 | takes an entry out of list, count and usage and gives the cache's reference back |
| Cache.LRUCache.Erase | ios/Pods/leveldb-library/util/cache.cc:319-322 | uncaches the entry of the key, if there is one |
| Cache.LRUCache.Prune | ios/Pods/leveldb-library/util/cache.cc:324-334 | uncaches exactly the unused entries |
| Cache.LRUCache.Destroy | ios/Pods/leveldb-library/util/cache.cc:206-216 | with no handle outstanding, afterwards every entry's deleter has run exactly once |
| CacheSpec.RefKeeps | ios/Pods/leveldb-library/util/cache.cc:218-224 | taking a reference keeps the cache invariant: counts are handles plus one if cached, lists are as the counts say, usage is the sum of cached charges |
| CacheSpec.UnrefKeeps | ios/Pods/leveldb-library/util/cache.cc:226-238 | so does giving one back |
| CacheSpec.FinishEraseKeeps | ios/Pods/leveldb-library/util/cache.cc:308-317 | so does uncaching, and the deleter runs at once if and only if no handle is outstanding |
| CacheSpec.EvictMeans | ios/Pods/leveldb-library/util/cache.cc:294-301 | eviction uncaches the oldest unused entries, no more than needed, until usage fits or none is unused |
| CacheSpec.InsertMeans | ios/Pods/leveldb-library/util/cache.cc:267-304 | the new entry replaces its key's old one; usage fits the capacity or no entry is unused; entries evicted are the oldest unused ones and no more than needed; entries in use stay |
| CacheSpec.PruneMeans | ios/Pods/leveldb-library/util/cache.cc:324-334 | pruning leaves exactly the entries in use |
| CacheSpec.DeletedOnceUnreachable | ios/Pods/leveldb-library/util/cache.cc:226-238 | an entry's deleter has run exactly once if it is neither cached nor held, and otherwise not at all |
| CacheRuns.MoveKeepsOrder | ios/Pods/leveldb-library/util/cache.cc:226-238 | every move of a client keeps the unused entries in the order of their last release |
| CacheRuns.RunKeepsOrder | ios/Pods/leveldb-library/util/cache.cc:226-334 | in every run of lookups, releases, insertions, erasures and prunings they lie in that order |
| CacheRuns.EvictsLeastRecent | ios/Pods/leveldb-library/util/cache.cc:294-301 | so what eviction takes was last released before anything unused that it leaves |
| Snapshots.SnapshotList.constructor | ios/Pods/leveldb-library/db/snapshot.h:41-44 | an empty list |
| Snapshots.SnapshotList.EmptyMeans | ios/Pods/leveldb-library/db/snapshot.h:46-46 | the head pointing to itself means there is no snapshot |
| Snapshots.SnapshotList.Oldest | ios/Pods/leveldb-library/db/snapshot.h:47-50 | the smallest live sequence number |
| Snapshots.SnapshotList.Newest | ios/Pods/leveldb-library/db/snapshot.h:51-54 | the largest live sequence number |
| Snapshots.SnapshotList.New | ios/Pods/leveldb-library/db/snapshot.h:57-70 | adds a snapshot at the end of the ordered list |
| Snapshots.SnapshotList.Delete | ios/Pods/leveldb-library/db/snapshot.h:79-86 | removes exactly this snapshot, in any order of release |
| Comparator.OrderEmbeds | ios/Pods/leveldb-library/util/comparator.cc:27-29 | bytewise order of strings is the order of the reals that stand for user keys elsewhere |
| Comparator.KeyOrder | ios/Pods/leveldb-library/db/dbformat.cc:47-63 | the internal key comparator is a strict total order |
| Comparator.StoredOrder | ios/Pods/leveldb-library/db/dbformat.cc:47-63 | on packed tags it orders user keys ascending and sequence numbers descending, as the rest of the model does |
| Comparator.FindShortestSeparator | ios/Pods/leveldb-library/util/comparator.cc:31-52 | between strings that differ at a byte with room for another, the separator is the common front and that byte plus one, and otherwise the start itself; so it is no longer than the start, at or after it, and before the limit if the start is |
| Comparator.FindShortSuccessor | ios/Pods/leveldb-library/util/comparator.cc:54-66 | the successor is the front up to the first byte that is not 0xff, plus one, and the key itself if there is none; so it is no longer, at or after the key, and strictly after it if and only if some byte is not 0xff |
| Comparator.FindShortestKeySeparator | ios/Pods/leveldb-library/db/dbformat.cc:65-82 | the internal separator is the shortened user key with the largest tag exactly if that is shorter and larger; it lies from start to before limit |
| Comparator.FindShortKeySuccessor | ios/Pods/leveldb-library/db/dbformat.cc:84-97 | and so for the internal successor, which is at or after the key |
| BlockFormat.FastPathAgrees | ios/Pods/leveldb-library/table/block.cc:55-75 | on any bytes the one-byte fast path and the varint path decode the same entry header |
| BlockFormat.RecordRoundTrip | ios/Pods/leveldb-library/table/block_builder.cc:71-105 | an entry's header and bytes read back, whatever follows |
| BlockFormat.ContentsOpen | ios/Pods/leveldb-library/table/block.cc:20-40 | the restart count, offset and every restart point read back from a finished block |
| KnownBytes.BlockWritten | ios/Pods/leveldb-library/table/block_builder.cc:55-105 | the bytes of a block of two keys that share one |
| Block.BlockBuilder.constructor | ios/Pods/leveldb-library/table/block_builder.cc:40-44 | an empty block |
| Block.BlockBuilder.Reset | ios/Pods/leveldb-library/table/block_builder.cc:46-53 | empty again |
| Block.BlockBuilder.Add | ios/Pods/leveldb-library/table/block_builder.cc:71-105 | appends the entry; every so many entries one is stored whole as a restart, and every other shares all it can with the key before |
| Block.AddKeeps | ios/Pods/leveldb-library/table/block_builder.cc:71-105 | an entry put in like that keeps the layout in order, its restarts at even distances and nothing stored twice between them |
| Block.BlockBuilder.Finish | ios/Pods/leveldb-library/table/block_builder.cc:55-69 | the contents are the laid-out entries and the restart array, and as long as the size estimate said |
| BlockIter.Iter.constructor | ios/Pods/leveldb-library/table/block.cc:116-125 | starts invalid |
| BlockIter.Iter.SeekToRestartPoint | ios/Pods/leveldb-library/table/block.cc:105-113 | the next entry to parse is the whole one at the restart |
| BlockIter.Iter.ParseNextKey | ios/Pods/leveldb-library/table/block.cc:225-252 | rebuilds the next entry's key and value, or ends |
| BlockIter.Iter.Next | ios/Pods/leveldb-library/table/block.cc:138-141 | one entry on in the list the block was built from |
| BlockIter.Iter.Prev | ios/Pods/leveldb-library/table/block.cc:143-162 | one entry back, by rescanning from a restart, invalid before the first |
| BlockIter.Iter.Seek | ios/Pods/leveldb-library/table/block.cc:164-202 | binary search over restarts and a scan land on the first entry at or after the target, from any position |
| BlockIter.Iter.SeekToFirst | ios/Pods/leveldb-library/table/block.cc:204-207 | the first entry |
| BlockIter.Iter.SeekToLast | ios/Pods/leveldb-library/table/block.cc:209-214 | the last entry |
| BlockIter.ReadAll | ios/Pods/leveldb-library/table/block.cc:204-252 | a built block iterates back to exactly the list it was built from |
| TwoLevel.SeekLands | ios/Pods/leveldb-library/table/two_level_iterator.cc:82-87 | the index seek followed by a seek in that block is a seek in the concatenation |
| TwoLevel.TwoLevelIterator.constructor | ios/Pods/leveldb-library/table/two_level_iterator.cc:71-78 | starts invalid |
| TwoLevel.TwoLevelIterator.InitDataBlock | ios/Pods/leveldb-library/table/two_level_iterator.cc:146-161 | the data iterator is on the index entry's block, reused when the handle is the same |
| TwoLevel.TwoLevelIterator.SkipEmptyDataBlocksForward | ios/Pods/leveldb-library/table/two_level_iterator.cc:115-126 | stepping over empty blocks reaches the next item of the concatenation |
| TwoLevel.TwoLevelIterator.SkipEmptyDataBlocksBackward | ios/Pods/leveldb-library/table/two_level_iterator.cc:128-139 | stepping back over empty blocks reaches the previous item |
| TwoLevel.TwoLevelIterator.Seek | ios/Pods/leveldb-library/table/two_level_iterator.cc:82-87 | the first item of the concatenation at or after the target |
| TwoLevel.TwoLevelIterator.SeekToFirst | ios/Pods/leveldb-library/table/two_level_iterator.cc:89-94 | the first item, past empty blocks |
| TwoLevel.TwoLevelIterator.SeekToLast | ios/Pods/leveldb-library/table/two_level_iterator.cc:96-101 | the last item, past empty blocks |
| TwoLevel.TwoLevelIterator.Next | ios/Pods/leveldb-library/table/two_level_iterator.cc:103-107 | one item on |
| TwoLevel.TwoLevelIterator.Prev | ios/Pods/leveldb-library/table/two_level_iterator.cc:109-113 | one item back, invalid before the first |
| TwoLevel.TwoLevelIterator.Current | ios/Pods/leveldb-library/table/two_level_iterator.cc:32-39 | the entry shown is the one of the whole table at the cursor |
| Bloom.BloomFilterPolicy.constructor | ios/Pods/leveldb-library/util/bloom.cc:19-24 | the number of probes is 0.69 for each bit per key, rounded down, but at least 1 and at most 30 |
| Bloom.WithBitMeans | ios/Pods/leveldb-library/util/bloom.cc:45-52 | setting one bit of the array changes no other bit |
| Bloom.ProbesProgress | ios/Pods/leveldb-library/util/bloom.cc:42-52 | the probes of a key are an arithmetic progression in 32 bits from its hash |
| Bloom.StepIsRotation | ios/Pods/leveldb-library/util/bloom.cc:47 | whose step is the hash turned left by 15 bits |
| Bloom.BloomFilterPolicy.CreateFilter | ios/Pods/leveldb-library/util/bloom.cc:28-54 | appends a filter of the least number of bytes for its keys, but at least eight, whose set bits are exactly the probes of the keys |
| Bloom.BloomFilterPolicy.KeyMayMatch | ios/Pods/leveldb-library/util/bloom.cc:56-80 | true if and only if all probed bits are set or the filter uses a reserved or short encoding as the source says |
| Bloom.FilterAnswers | ios/Pods/leveldb-library/util/bloom.cc:28-80 | no key put in is ever missed, and a match means exactly that every probe was hit by some key |
| FilterBlock.BloomNeverMisses | ios/Pods/leveldb-library/util/bloom.cc:28-80 | Bloom filters have no false negatives, for any hash function |
| FilterBlock.FilterBlockBuilder.constructor | ios/Pods/leveldb-library/table/filter_block.cc:18-19 | no filters, no pending keys |
| FilterBlock.FilterBlockBuilder.StartBlock | ios/Pods/leveldb-library/table/filter_block.cc:21-27 | pending keys get their filter and empty ones follow until the one of the block's offset is next |
| FilterBlock.FilterBlockBuilder.AddKey | ios/Pods/leveldb-library/table/filter_block.cc:29-33 | one more pending key |
| FilterBlock.FilterBlockBuilder.GenerateFilter | ios/Pods/leveldb-library/table/filter_block.cc:51-75 | the pending keys' filter is appended and none are pending |
| FilterBlock.FilterBlockBuilder.CollectKeys | ios/Pods/leveldb-library/table/filter_block.cc:60-67 | the keys cut out of the flattened buffer are the keys added |
| FilterBlock.FilterBlockBuilder.Finish | ios/Pods/leveldb-library/table/filter_block.cc:35-49 | the contents hold each group's filter, the offset array, its place and the base |
| FilterBlock.FilterBlockReader.constructor | ios/Pods/leveldb-library/table/filter_block.cc:77-88 | reads the offset array's place, count and base, or takes malformed contents as having no filters |
| FilterBlock.FilterBlockReader.KeyMayMatch | ios/Pods/leveldb-library/table/filter_block.cc:90-104 | on any contents, denies a key only by a filter that does not match or an empty one out of place, errors counting as matches; on finished contents asks exactly the filter of the group the block offset falls in, and says yes beyond the last |
| FilterBlock.WrittenAnswers | ios/Pods/leveldb-library/table/filter_block.cc:90-104 | on finished contents the offset arithmetic finds exactly the filter of the group |
| FilterBlock.AnswerFindsKeys | ios/Pods/leveldb-library/table/filter_block.cc:90-104 | a key added while the block's group was open is never denied |
| Table.BuiltSeparated | ios/Pods/leveldb-library/table/table_builder.cc:94-123 | every index key separates its block from the next |
| Table.TableBuilder.constructor | ios/Pods/leveldb-library/table/table_builder.cc:65-70 | an empty table |
| Table.TableBuilder.Add | ios/Pods/leveldb-library/table/table_builder.cc:94-123 | appends the item to the open block, which is flushed exactly when it is full; a pending index entry gets a key between the last and this one |
| Table.TableBuilder.Flush | ios/Pods/leveldb-library/table/table_builder.cc:125-139 | the open block gets a handle and an index entry, and the filter is told where the next block starts |
| Table.TableBuilder.Finish | ios/Pods/leveldb-library/table/table_builder.cc:198-253 | the blocks in index order hold exactly the items added, and the filter block knows every key at its block's offset |
| Table.Table.InternalGet | ios/Pods/leveldb-library/table/table.cc:214-242 | the answer is the first item at or after the key, or nothing only when that item is absent or has another user key, with or without filters |
| Table.Table.NewIterator | ios/Pods/leveldb-library/table/table.cc:208-212 | iterates over exactly the items added |
| NanopbDecode.FieldIter.constructor | ios/Pods/nanopb/pb_common.c:8-27 | starts at the first field |
| NanopbDecode.FieldIter.Next | ios/Pods/nanopb/pb_common.c:29-85 | one field on, wrapping around to the first |
| NanopbDecode.FieldIter.FindField | ios/Pods/nanopb/pb_common.c:87-104 | the wrap-around search terminates, at the field of the tag if it is found and where it started if not |
| ProtobufRoundTrip.FindMeans | ios/Pods/nanopb/pb_common.c:87-104 | from any starting field the tag is not found if and only if no field has it |
| NanopbDecode.IStream.Read | ios/Pods/nanopb/pb_decode.c:102-137 | takes exactly the bytes asked for, or none and fails |
| NanopbDecode.IStream.DecodeVarint32 | ios/Pods/nanopb/pb_decode.c:187-247 | reads the 32-bit varint, sign-extended ones included, and fails exactly when it overflows or is cut |
| NanopbDecode.IStream.DecodeVarint | ios/Pods/nanopb/pb_decode.c:255-275 | reads the 64-bit varint and fails exactly when it is too long or cut |
| NanopbDecode.IStream.MakeSubstream | ios/Pods/nanopb/pb_decode.c:372-400 | the length-delimited bytes become a stream of their own and the rest stays |
| NanopbDecode.IStream.SkipField | ios/Pods/nanopb/pb_decode.c:321-331 | skips an unknown field of any wire type, by exactly the bytes ProtobufUnknown.ValueSkipped says, and fails on unknown types and cut fields |
| NanopbDecode.DecodePacked | ios/Pods/nanopb/pb_decode.c:425-453 | fills the array from a packed substream and fails when it overflows |
| NanopbDecode.DecodeStaticField | ios/Pods/nanopb/pb_decode.c:406-483 | required, optional and repeated fields are stored as their rule says |
| NanopbDecode.CheckRequired | ios/Pods/nanopb/pb_decode.c:1040-1078 | passes if and only if all required fields up to the limit were seen |
| NanopbDecode.DecodeNoinit | ios/Pods/nanopb/pb_decode.c:934-1082 | the decoding loop with its iterator is the recursive reader, on any bytes |
| NanopbDecode.Decode | ios/Pods/nanopb/pb_decode.c:1084-1096 | decodes from default values |
| NanopbEncode.VarintBytes | ios/Pods/nanopb/pb_encode.c:608-628 | the buffer loop writes the base-128 varint |
| NanopbEncode.OStream.Write | ios/Pods/nanopb/pb_encode.c:103-124 | writes or only counts, and fails exactly when the limit is passed |
| NanopbEncode.OStream.EncodeVarint | ios/Pods/nanopb/pb_encode.c:608-628 | emits the varint, or fails for lack of room |
| NanopbEncode.OStream.EncodeTag | ios/Pods/nanopb/pb_encode.c:669-673 | emits tag and wire type |
| NanopbEncode.OStream.EncodeString | ios/Pods/nanopb/pb_encode.c:709-715 | emits length and bytes |
| NanopbEncode.EncodeSubmessage | ios/Pods/nanopb/pb_encode.c:717-765 | sizing pass, length and writing pass emit exactly the length-prefixed message: the size never changes between the passes |
| NanopbEncode.PackedSize | ios/Pods/nanopb/pb_encode.c:169-189 | the size computed for a packed array is that of its elements |
| NanopbEncode.EncodePacked | ios/Pods/nanopb/pb_encode.c:156-205 | a packed array is emitted as one length-delimited record |
| NanopbEncode.EncodeTagged | ios/Pods/nanopb/pb_encode.c:208-233 | other arrays are emitted element by element |
| NanopbEncode.EncodeField | ios/Pods/nanopb/pb_encode.c:341-426 | required, set optional and repeated fields emit exactly their bytes, unset optional ones nothing |
| NanopbEncode.EncodeMessage | ios/Pods/nanopb/pb_encode.c:528-550 | at every nesting depth a sizing stream counts exactly what a writing stream emits, and it fails exactly for lack of room or values that do not fit |
| NanopbEncode.SizeThenEncode | ios/Pods/nanopb/pb_encode.c:567-576 | a buffer of the computed size takes the message exactly and decodes back to it |
| ProtobufRoundTrip.Read32RoundTrip | ios/Pods/nanopb/pb_decode.c:187-247 | every encoded 32-bit varint reads back |
| ProtobufRoundTrip.ZigZagRoundTrip | ios/Pods/nanopb/pb_decode.c:1285-1297 | every signed 64-bit number reads back from its zigzag form |
| ProtobufRoundTrip.NumberRoundTrip | ios/Pods/nanopb/pb_decode.c:1334-1428 | numbers of every kind and width read back |
| KnownBytes.NumberWritten | ios/Pods/nanopb/pb_encode.c:608-673 | known bytes of an int32 and a sint32 field |
| KnownBytes.FixedWritten | ios/Pods/nanopb/pb_encode.c:641-667 | of fixed32 and fixed64 fields |
| KnownBytes.StringWritten | ios/Pods/nanopb/pb_encode.c:709-715 | of a string field |
| KnownBytes.ArrayWritten | ios/Pods/nanopb/pb_encode.c:156-205 | and of a packed array |
| ProtobufRoundTrip.ValueRoundTrip | ios/Pods/nanopb/pb_decode.c:1447-1547 | so do bytes and nested messages |
| ProtobufRoundTrip.PackedRoundTrip | ios/Pods/nanopb/pb_decode.c:425-453 | a packed array is read element by element behind the elements that are there |
| ProtobufRoundTrip.UnpackedRoundTrip | ios/Pods/nanopb/pb_decode.c:455-464 | an array of a type that could be packed also reads back when it was written element by element |
| ProtobufRoundTrip.SlotRoundTrip | ios/Pods/nanopb/pb_decode.c:406-483 | a field of every rule reads back into a defaulted message, whatever follows |
| ProtobufRoundTrip.MessageRoundTrip | ios/Pods/nanopb/pb_decode.c:934-1082 | decoding an encoded message restores it, absent optional fields and unused array slots included |
| ProtobufRoundTrip.MessagesMerge | ios/Pods/nanopb/pb_decode.c:934-1082 | two encoded messages one after the other decode to the second merged into the first: numbers and bytes replaced, arrays appended, nested messages merged |
| ProtobufUnknown.ValueSkipped | ios/Pods/nanopb/pb_decode.c:321-331 | skipping by the wire type of a kind passes over exactly the bytes of any value of that kind |
| ProtobufUnknown.UnknownSkipped | ios/Pods/nanopb/pb_decode.c:966-997 | an encoded field of any rule and kind whose tag the descriptor lacks is passed over whole and changes nothing, whatever follows |
| ProtobufUnknown.OtherDescriptor | ios/Pods/nanopb/pb_decode.c:934-1082 | a message encoded with any other descriptor that means the same by the tags both have decodes to its known fields, with defaults for those it lacks, and is refused if and only if it lacks a required one |
| ProtobufTyped.DecodedTyped | ios/Pods/nanopb/pb_decode.c:1334-1547 | any bytes that decode give a message whose numbers are in the range of their fields and whose bytes and arrays fit, at every nesting depth |
| ProtobufRefused.NumberMeans | ios/Pods/nanopb/pb_decode.c:1334-1428 | any varint at a number field is read if and only if it means a number of the field: its own, or for signed fields the one with its low 64 or 32 bits, and a bool unless zero |
| ProtobufRefused.PackedOverflow | ios/Pods/nanopb/pb_decode.c:425-453 | a packed array with more elements than there is room for is refused |
| ProtobufRefused.ElementOverflow | ios/Pods/nanopb/pb_decode.c:455-464 | so is a message with one more element for an array that is full |
| ProtobufRefused.BytesOverflow | ios/Pods/nanopb/pb_decode.c:1447-1495 | and a byte string longer than its field |
| ProtobufRefused.ZeroTagEnds | ios/Pods/nanopb/pb_decode.c:298-319 | a zero tag ends a message as the end of the bytes does |

## Left out

- Db.DBImpl.CompactFiles: promises a step of the state machine only when no dropped marker uncovers a value, since that is exactly when the code preserves reads; inputs chosen by the code can violate it.
- Db.DBImpl.BackgroundCompaction: carries the same condition when the step it takes is a compaction; the choice of level, and for an automatic request of the file in it, is a parameter, and moving on to the next piece of a manual range is the caller's.
- Store.StepKeepsInv: compaction steps are those whose dropped markers uncover no value; what happens otherwise is CompactionSafety.SurvivorsResurrect.
- Store.CompactKeepsInv: the same; and a flush that fell between two inputs of a manual compaction is no step, since the levels are then not well formed.
- Recovery.RunKeepsInv: runs are made of the steps above, and of recoveries that append only to files that end cleanly.
- Recovery.EveryReadIsRight: the same.
- Recovery.RecoverKeepsInv: the same; what appending to other files does is described byte by byte in LogReopen.
- Recovery.SyncedWritesSurvive: the same.
- CompactionPicking.CompactRange: does not promise gapless inputs, since a manual range need not have them.
- CompactionWork.DoCompactionWork: where output files are cut is any function of the position; that cuts limit grandparent overlap and file size is not stated.
- DbOpen.Open: promises a recovery step only when no file is appended to that does not end cleanly, since the code does not look and what is appended to such a file can be lost; the two files are given with what they hold, and reading them is LogReader and DiskImage; when a memtable overflows is any function of its entries.
- LogFiles.CleanEndContinues: that a clean end is also needed is proved for a log written in one go or reopened behind whole records only, not for one reopened behind a skipped header or an empty first fragment.
- DiskRuns.RunKeepsDisk: the manifest is not carried along a run; what a crash and an appended edit do to its bytes is DiskImage.ManifestSurvives and DiskImage.ManifestContinues.
- FilterBlock.FilterBlockReader.KeyMayMatch: a shift by 64 or more, which only malformed contents can ask for and which is undefined in the source, gives 0.
- Table.Table.InternalGet: data blocks are lists of items and handles are looked up in a map; the bytes of a block are in BlockFormat, Block and BlockIter.
- Cache.LRUCache.Insert: values of entries are left out, since the cache never looks at them.
- WriteBatch.WriteBatch.InsertInto: the memtable is a list of numbered operations; Db.InsertInto puts such a list in order.
- WriterQueue.BuildBatchGroup: byte sizes of batches are numbers given with each writer.
- SkipList.List.Insert: the random height is a parameter; memory is sequentially consistent, and publishing orders between threads are not modelled.
- LogReader.Reader.ReadRecord: reads from offset 0; resynchronizing after a nonzero initial offset is left out.
- Crc32c.Extend: one bit at a time instead of the stride tables and the hardware path, which compute the same function.
- Table.TableBuilder.Add: when a block is full is a parameter, as is its size in bytes.
- Bloom.BloomFilterPolicy.constructor: the factor 0.69 is integer arithmetic; the hash is any function to 32 bits.
- NanopbDecode.CheckRequired: the words of seen bits are a set of field numbers.
- NanopbDecode.IStream.DecodeVarint32: the eight-bit shift counter of the source wraps on varints of more than 36 bytes; here it does not.
- Manifest works on edits with whole files, whose entries the recorded edit only names by the number of their table; comparator names, previous log numbers and compaction pointers are in EditCodec alone.
- GroupCommit.RunIsWrites: runs without failed log writes and syncs, which use up sequence numbers without a write; Db.DBImpl.Write takes one group, and releasing the lock is WriterQueue.
- I/O errors, corrupted keys and blocks, missing files, and repair: reads and steps are stated on well-formed data; failed log writes and syncs are in WriterQueue only, without the bytes a failed append may leave behind.
- Compaction scores, seek statistics, read sampling and write throttling choose when to compact, not what is read.
- ResumeRange of manual compactions, GetApproximateSizes, properties, statistics and Status texts.
- Snappy compression, mmap, block cache wiring and its sixteen shards, metaindex block and footer bytes, table cache.
- Environment, threads and locks: a file is an append-only sequence, a log a sequence of records with a synced prefix.
- The hash of the cache, and its distribution: any function of the key.
- nanopb strings, fixed-length bytes, oneof, callbacks, extensions, pointer fields, arrays of fixed count, proto3 fields without has flag, and default values other than zero. A message type without fields is an empty list here and a lone end marker with tag 0 in the source.
- BoringSSL, Flutter runners and generated registrants: no logic of this repository.
