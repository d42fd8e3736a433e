# LevelDB and nanopb, modelled and proved in Dafny

The job-finder app ships two vendored engines: LevelDB 1.20, the key-value store under Firebase's
offline cache, and nanopb 0.3.9.1, the protocol-buffer codec. This project models both and proves
what they promise. `dafny verify dfyconfig.toml` checks all of it.

Paths below start at the repository's root. One module per file; a module's header names the source
file it models.

## What is proved, from the top

**The store keeps its promises over whole runs.** `Store` is a state machine with a step for each
thing the database does: log a group of writes, apply it, switch the memtable, write a table file,
install a flush, a compaction or a trivial move, delete obsolete files, take and release snapshots,
pin versions for iterators, crash and recover, and crash during recovery. `StoreInvariant` says what
holds in every state, and `StoreWrites`, `StoreBackground` and `StoreRecovery` prove that each step
keeps it. `StoreRuns` concludes for runs of any length: nothing acknowledged is lost through any
number of crashes (`NothingAcknowledgedIsLost`), and a held snapshot always reads the same map
(`SnapshotsAreStable`). The runs it holds of are exactly those whose compactions and moves are safe
(`SafeRunsExactly`); a run without snapshots is by itself (`SnapshotFreeRunIsCareful`).

**Opening a store from its bytes is that recovery.** `ManifestRecovery` rebuilds version and
counters from any byte-prefix of a manifest, `LogRecovery` replays any byte-prefixes of the logs into
level-0 tables, and `DatabaseOpening.Open` composes both with the first edit: from the files of any
reachable state it takes the recovery step of `Store`, and the new tables read as the map of
everything acknowledged. `DatabaseRecovery` proves that every reachable state has what this needs,
and `DatabaseFiles` that it has a directory with such files: what is logged for it reads back as it
is (`RunHasDirectory`).

**Compaction changes no read, exactly when it should.** `CompactionWork` proves the loop of
`DoCompactionWork` against a declarative description of its two drop rules. `CompactionPicking`
proves which inputs are chosen, from scores and charged seeks on, and that no compaction goes past
the last level. One promise is false of the code: the choice of inputs may leave behind, in the
upper level, an older entry of a user key that it moves down. `StaleReads` leads a new store there,
in steps that `Scheduling` says the code takes: two flushes to the levels picked for them, a
compaction of a level over its limit, whose output is full between two versions of one key, and the
move of the first output file; then a lookup returns the older value. `CompactionSafety` and
`CompactionEdges` say for all versions and plans when a compaction is safe, in both directions, the
latter by looking at the edges of the inputs only (`SafeEdges`). In `StoreRuns`, exactly the safe
steps keep the invariant (`StepKeepsInv`), those with safe edges are safe whatever the oldest
snapshot (`CarefulIsSafe`), and a compaction with unsafe ones breaks it with some oldest snapshot
(`CarelessBreaksInv`). Without snapshots every step is safe (`SnapshotFreeStep`).

**Writers commit in groups.** `WriterThreads` has one program counter and one done flag per thread,
a mutex and the queue; any thread may take its next step at any time. It refines `GroupCommit`, the
same protocol one group at a time, so at most one thread leads, every batch is in exactly one
record, memtable and log keep the order of arrival, and snapshots see whole batches.
`ConcurrentStore` puts these threads on top of `Store`, whose background work, memtable switches and
crashes happen between any two of their steps: what any thread was told is written survives
(`AnsweredWritesSurvive`), and readers see whole batches while a group is being inserted
(`ReadsBesideWriters`).

**Reads find the newest visible entry.** `Versions.Get` and `PointReads.Get` connect the
level-by-level search to the map after so many operations. `UserIterator` walks over a merging
iterator (`Merging`) and lands on exactly the live keys, forwards, backwards and across changes of
direction. `InternalIterators` puts this on top of the memtables, the level-0 files and the levels
of any reachable store: walking from end to end yields the items of the map, each once, in order.
`TableCursors` shows the bytes of a table, read through `TwoLevel`, to be a cursor like the others.

**What is written is read back.** Log records, also from any byte-prefix of a log (`LogFormat`,
`LogReader`, `LogRoundTrip`, `LogReplay`), write batches, version edits and the manifest
(`WriteBatches`, `EditCodec`, `Manifest`), blocks and whole tables with shortened index keys and
filters (`BlockFormat`, `BlockReader`, `TableFormat`, `TableContent`, `TableBuilding`,
`TableSearch`, `TableReading`, `Filters`, `Bloom`), and protocol-buffer messages of any nesting
(`PbEncode`, `PbDecode`, `PbDecoder`). `PbDecoding` defines what decoding is for any bytes,
`PbDecoder` proves that the code computes it, and `PbRoundTrip` that it inverts the encoding;
`PbUnknown` shows that records of unknown fields change nothing, and `PbFormat` that arrays may come
in pieces. Lemmas named `...Bytes` write the formats out byte for byte. Where a
round trip does not hold for all inputs, the lemma says for which it does:
`WriteBatches.BatchRoundTrip`, `EditCodec.EditRoundTrip`, `PbRoundTrip.MessageReads`.

**Readers beside one inserter.** `SkipListSteps` interleaves one inserter with any number of
readers, one load or store at a time. `ConcurrentReads` concludes that a lookup in a memtable that is
being written to answers as `PointReads` says.

**The cache.** `HandleTables` and `LRUCaches` prove the hash table through its resizes, and the
reference counts, lists, charges, eviction order and single deletion of every handle. `HandleLinks`
proves the relinking of the circular lists and of the bucket chains.

## How to read the model

User keys are `real` numbers where only their order matters, as the source uses them through a
comparator only; `Bytewise.RankEmbeds` embeds byte strings with the bytewise order into them. The
byte-level modules work on byte strings. Objects that the source changes in place are classes with
the source's fields; loops of the source are loops. Ghost fields and parameters say what the bytes
stand for. Checksums, hash functions and comparators are arbitrary functions.

Rows that name a step of the protocol (`...KeepsInv`) are about the invariant of their module: `Inv`
in `StoreInvariant`, `GroupCommit` and `SkipListSteps`.

## Model

| member | source | states |
|---|---|---|
| `InternalKeys.CompareIsTotalOrder` | `job-finder/Pods/leveldb-library/db/dbformat.cc:50-66` | Internal keys are totally ordered, and two keys tie only if they are equal |
| `InternalKeys.SeekKeySplits` | `job-finder/Pods/leveldb-library/db/dbformat.cc:121-138` | At or after the lookup key of (user, s) are exactly the later user keys and the entries of this user key that a snapshot s may see |
| `Visibility.FindNewerFirst` | `job-finder/Pods/leveldb-library/db/version_set.cc:346-348` | A lookup may stop at the newer of two sets of entries exactly because everything older is shadowed: what it finds first is what a lookup in the union finds |
| `Versions.FindFile` | `job-finder/Pods/leveldb-library/db/version_set.cc:86-105` | Binary search splits a sorted level at the target: files before the result end before it, the others do not |
| `Versions.LevelZeroGet` | `job-finder/Pods/leveldb-library/db/version_set.cc:357-373` | Searching the overlapping level-0 files newest first finds the newest visible entry of the key in all of them, or none has one |
| `Versions.SortedLevelGet` | `job-finder/Pods/leveldb-library/db/version_set.cc:374-390` | Searching one file of a sorted level finds the newest visible entry of the whole level, also when the versions of one user key continue in the next file |
| `Versions.Get` | `job-finder/Pods/leveldb-library/db/version_set.cc:332-429` | The level-by-level search that stops at the first hit is the newest visible entry over all files of all levels, a tombstone reading as deleted and no entry as absent; the charged file is exactly the one that Search charges |
| `Versions.Search` | `job-finder/Pods/leveldb-library/db/version_set.cc:332-429` | The same loop in any version whose files are in order within their levels, whatever is newer than what: it returns the hit of the first level that has one. It charges a file exactly if that is the first one that may hold the key, it holds no visible entry of it, and there is another one to go on to |
| `Versions.ChargedIsNotLast` | `job-finder/Pods/leveldb-library/db/version_set.cc:341-400` | The first of at least two files that may hold a key is never in the last level, since a sorted level has at most one of them |
| `Versions.RecordReadSample` | `job-finder/Pods/leveldb-library/db/version_set.cc:444-480` | A sample charges exactly the first file that a merging read of the key would visit, if there is a second one |
| `PointReads.MemTableGet` | `job-finder/Pods/leveldb-library/db/memtable.cc:108-143` | One seek in the memtable decides whether a visible entry of the key exists and which is newest |
| `PointReads.Lookup` | `job-finder/Pods/leveldb-library/db/db_impl.cc:1109-1143` | Memtable, then immutable memtable, then tables, stopping at the first answer, agrees with a lookup in all entries together |
| `PointReads.Get` | `job-finder/Pods/leveldb-library/db/db_impl.cc:1109-1154` | In every state that satisfies the invariant, Get at a number that a reader can hold returns what the map after that many operations holds |
| `PointReads.LiveKeysAreTheMap` | `job-finder/Pods/leveldb-library/db/db_impl.cc:1156-1165` | The keys that an iterator over the whole store delivers at a sequence number are exactly the keys of the map after that many operations, with their values |
| `VersionEdits.SaveLevel` | `job-finder/Pods/leveldb-library/db/version_set.cc:711-757` | Merging base and added files yields the surviving files, each once, ordered by smallest key and number |
| `VersionEdits.Builder.Apply` | `job-finder/Pods/leveldb-library/db/version_set.cc:665-708` | The builder stands for one more edit; the edit must not add a number that the level has had before |
| `VersionEdits.Builder.SaveTo` | `job-finder/Pods/leveldb-library/db/version_set.cc:711-772` | Every level comes out sorted and holds exactly the files that applying the edits one by one leaves |
| `VersionEdits.ReplayIsStepwise` | `job-finder/Pods/leveldb-library/db/version_set.cc:939-1022` | Replaying all edits through one builder gives the very version that installing them one at a time arrived at |
| `VersionEdits.DeleteAtTheEnd` | `job-finder/Pods/leveldb-library/db/version_set.cc:673-707` | Collecting deletions, taking back those of files that are added, and deleting at the end is the same as deleting edit by edit |
| `CompactionRules.DroppedNewestReadsAsNothing` | `job-finder/Pods/leveldb-library/db/db_impl.cc:938-972` | If a compaction drops the newest entry that a snapshot at or after the oldest one sees, it is a tombstone and the key reads as absent afterwards too |
| `CompactionRules.ExposedValueComesBack` | `job-finder/Pods/leveldb-library/db/db_impl.cc:958-969` | If older data of a dropped tombstone stays behind elsewhere, the deleted value is read again |
| `CompactionRules.KeepsReadsExactly` | `job-finder/Pods/leveldb-library/db/db_impl.cc:938-972` | For every oldest snapshot all reads are kept, if and only if no droppable tombstone leaves older data of its key outside the compaction |
| `CompactionRules.OneEntryPerKey` | `job-finder/Pods/leveldb-library/db/db_impl.cc:955-957` | Without older snapshots at most one entry of each user key survives a compaction |
| `CompactionWork.PreviousEntryDecides` | `job-finder/Pods/leveldb-library/db/db_impl.cc:945-957` | Remembering only the previous entry of the user key tells exactly whether any newer input entry hides this one from all snapshots |
| `CompactionWork.Compaction.IsBaseLevelForKey` | `job-finder/Pods/leveldb-library/db/version_set.cc:1484-1503` | Over a non-decreasing stream of keys, the forward-only cursors answer exactly whether no file two or more levels down covers the key |
| `CompactionWork.Compaction.ShouldStopBefore` | `job-finder/Pods/leveldb-library/db/version_set.cc:1505-1526` | An output is cut exactly when the grandparent files passed since the last cut are together larger than the limit |
| `CompactionWork.DoCompactionWork` | `job-finder/Pods/leveldb-library/db/db_impl.cc:887-1046` | The outputs hold exactly the input entries that the two drop rules keep, well-formed, in order and numbered consecutively, and are cut exactly where one is full or has passed too much of the level after next |
| `Overlap.SomeFileOverlapsRange` | `job-finder/Pods/leveldb-library/db/version_set.cc:121-156` | True exactly if some file of the level touches the range, with open ends, overlapping or sorted files |
| `Overlap.GetOverlappingInputs` | `job-finder/Pods/leveldb-library/db/version_set.cc:531-572` | Terminates with the files that touch the range; in level 0 the range is first widened to the least one that contains every file it touches |
| `CompactionPicking.GetRange` | `job-finder/Pods/leveldb-library/db/version_set.cc:1224-1256` | The least smallest key and the greatest largest key of the files |
| `CompactionPicking.VersionSet.SetupOtherInputs` | `job-finder/Pods/leveldb-library/db/version_set.cc:1345-1411` | Says exactly which files are taken: the lower inputs are all the lower files that the upper ones touch, before and after growing; the upper ones grow exactly if that stays under the size limit and needs no more lower files; the grandparents are what both together touch; the pointer moves to the end of the upper inputs |
| `CompactionPicking.VersionSet.Finalize` | `job-finder/Pods/leveldb-library/db/version_set.cc:1064-1095` | The compaction level is the first one with the highest score among the levels below which there is another |
| `CompactionPicking.DueExactly` | `job-finder/Pods/leveldb-library/db/version_set.cc:40-52` | A compaction for size is due exactly if there are four level-0 files, or level 1 has 10 MB, or one of levels 2 to 5 ten times as much as the one above it may have |
| `CompactionPicking.VersionSet.Install` | `job-finder/Pods/leveldb-library/db/version_set.cc:803-903` | The new version is current with its compaction level computed, pointers stay, and no file of it is due for its seeks |
| `CompactionPicking.VersionSet.UpdateStats` | `job-finder/Pods/leveldb-library/db/version_set.cc:431-442` | A charged file becomes the file to compact exactly if its allowed seeks are used up and there is none yet; one allowed seek of it is used |
| `CompactionPicking.VersionSet.AllowedSeeks` | `job-finder/Pods/leveldb-library/db/version_set.cc:688-703` | A file that was never charged may be sought once for every 16 KB of its size, and at least 100 times |
| `CompactionPicking.VersionSet.GetAndCharge` | `job-finder/Pods/leveldb-library/db/db_impl.cc:1136-1149` | A lookup answers with the newest visible entry of the version. It makes a compaction due exactly if none was due for seeks and it charges a file with its last allowed seek; that file, and no other, is then the one to compact |
| `CompactionPicking.VersionSet.SampleAndCharge` | `job-finder/Pods/leveldb-library/db/db_impl.cc:1168-1173` | The same of the sampling of reads by iterators |
| `CompactionPicking.VersionSet.PickCompaction` | `job-finder/Pods/leveldb-library/db/version_set.cc:1291-1343` | Picks nothing exactly if no score reaches 1 and no file is due; otherwise the plan is one that the version, the pointers and the charged file determine: a size compaction starts at the first file past the pointer, wrapping around, a seek compaction at its file; the plan is valid, and its level is never the last one |
| `CompactionPicking.VersionSet.LevelsToCompact` | `job-finder/Pods/leveldb-library/db/db_impl.cc:567-582` | Manual compactions run for the levels below the deepest one with files in the range |
| `CompactionPicking.VersionSet.CompactRange` | `job-finder/Pods/leveldb-library/db/version_set.cc:1413-1446` | Nothing to do exactly if no file touches the range; otherwise all the files in it or, below level 0, the shortest run of them that reaches the size limit |
| `CompactionSafety.InstallKeepsOk` | `job-finder/Pods/leveldb-library/db/version_set.cc:820-903` | Replacing inputs by outputs keeps every level sorted and keeps newer entries of a key above older ones, if the files left behind in the upper level hold nothing older of the keys that move down |
| `CompactionSafety.CompactionIsSafeExactly` | `job-finder/Pods/leveldb-library/db/version_set.cc:1345-1411` | A choice of inputs is safe for every oldest snapshot if and only if no file left in the upper level continues the last user key of an input and no dropped tombstone uncovers older data |
| `CompactionEdges.SafeExactlyAtEdges` | `job-finder/Pods/leveldb-library/db/version_set.cc:1345-1411` | The same from the edges of the inputs alone: no file left in the upper level continues the last user key of an input, and no file left in the lower level begins with a value of a user key whose newest input entry is a droppable tombstone |
| `StaleReads.SplitIsReached` | `job-finder/Pods/leveldb-library/db/db_impl.cc:686-769` | From a new directory, with one snapshot held and any file size the options allow, the code itself comes to two versions of one key in two files of one level: flushes go to the levels that are picked for them, the compaction is the one that the scores pick, and its output is cut where it is full; the store is in order |
| `StaleReads.SplitKeyReadsStale` | `job-finder/Pods/leveldb-library/db/version_set.cc:1345-1411` | Then the code moves the first of the two files down, because its level is over the limit: the level-by-level search returns the older value of the key at the last sequence number, although the newer one was acknowledged and is what the map of the operations holds |
| `StaleReads.SomeSettingSuits` | `job-finder/Pods/leveldb-library/util/options.cc:12-27` | There are such sizes and values, with the default file size |
| `CompactionEdges.UnsplitExposesNothing` | `job-finder/Pods/leveldb-library/db/version_set.cc:1484-1503` | With no user key cut at the edge of the inputs, the base-level test is enough: no dropped tombstone uncovers anything, and the edges are safe |
| `CompactionSafety.CompactionKeepsReads` | `job-finder/Pods/leveldb-library/db/db_impl.cc:887-1046` | The new version is searchable and every key reads the same at every sequence number from the oldest snapshot on, if and only if the choice of inputs is safe at that snapshot |
| `CompactionSafety.MoveKeepsReads` | `job-finder/Pods/leveldb-library/db/db_impl.cc:717-727` | A trivial move keeps all entries, and the version searchable if and only if no file of the upper level continues the last user key of the one that goes |
| `CompactionEdges.DisjointIsUnsplit` | `job-finder/Pods/leveldb-library/db/version_set.cc:1345-1411` | Where files of a sorted level share no user key, whatever plan is picked cuts none |
| `CompactionSafety.CompactionKeepsDisjoint` | `job-finder/Pods/leveldb-library/db/db_impl.cc:887-1046` | Without snapshots, a compaction leaves the files of every sorted level with disjoint user-key ranges |
| `CompactionSafety.MoveKeepsDisjoint` | `job-finder/Pods/leveldb-library/db/db_impl.cc:717-727` | So does a trivial move |
| `Flush.PickLevelForMemTableOutput` | `job-finder/Pods/leveldb-library/db/version_set.cc:502-528` | Never deeper than level 2, level 0 if the table touches level 0, and otherwise the deepest level reached by steps that touch nothing and overlap little below |
| `Flush.PickedLevelMayBeUsed` | `job-finder/Pods/leveldb-library/db/version_set.cc:502-528` | At the picked level, nothing above it and nothing in it touches the new table |
| `Flush.BuildTable` | `job-finder/Pods/leveldb-library/db/db_impl.cc:488-532` | A table with exactly the entries of the memtable, in order, with its size, and none for an empty one |
| `Flush.FlushKeepsOk` | `job-finder/Pods/leveldb-library/db/db_impl.cc:488-532` | Adding the table there keeps the version searchable and adds exactly its entries |
| `Flush.FlushKeepsDisjoint` | `job-finder/Pods/leveldb-library/db/db_impl.cc:488-532` | A flushed table shares no user key with another file of its sorted level |
| `History.ReadIsMap` | `job-finder/Pods/leveldb-library/db/db_impl.cc:1109-1154` | Reading the numbered entries of a list of operations at s gives the map after the first s operations |
| `StoreInvariant.ReadsAreMaps` | `job-finder/Pods/leveldb-library/db/db_impl.cc:1109-1154` | In every state that satisfies the invariant, any readable sequence number sees the map after as many operations as it says |
| `StoreWrites.AppendLogKeepsInv` | `job-finder/Pods/leveldb-library/db/db_impl.cc:1215-1224` | Logging a group keeps the invariant of the store |
| `StoreWrites.ApplyGroupKeepsInv` | `job-finder/Pods/leveldb-library/db/db_impl.cc:1232-1245` | Applying the logged group and raising the last sequence keeps the invariant |
| `StoreWrites.SwitchMemtableKeepsInv` | `job-finder/Pods/leveldb-library/db/db_impl.cc:1354-1376` | Freezing the memtable and starting a new log keeps the invariant |
| `StoreWrites.DeleteObsoleteKeepsInv` | `job-finder/Pods/leveldb-library/db/db_impl.cc:218-272` | No table of a version in use or still being written, and no log record that recovery would need, is deleted |
| `StoreWrites.NothingObsoleteStays` | `job-finder/Pods/leveldb-library/db/db_impl.cc:218-272` | Afterwards there are exactly the tables of the current version and of those that readers hold, the tables that are being written, and the logs from the version set's log number on |
| `StoreWrites.UnprotectKeepsInv` | `job-finder/Pods/leveldb-library/db/db_impl.cc:488-532` | Taking a flushed table off the pending ones before its edit is logged keeps the invariant, since only the background thread deletes files |
| `StoreBackground.InstallFlushKeepsInv` | `job-finder/Pods/leveldb-library/db/db_impl.cc:534-565` | Installing the flushed memtable, with its log number, keeps the invariant |
| `StoreBackground.InstallCompactionKeepsInv` | `job-finder/Pods/leveldb-library/db/db_impl.cc:866-885` | Installing compaction outputs keeps the invariant, with any snapshots held, if and only if the choice of inputs is safe at the oldest one |
| `StoreBackground.TrivialMoveKeepsInv` | `job-finder/Pods/leveldb-library/db/db_impl.cc:717-727` | Moving a file down keeps the invariant if and only if no other file of its level continues its last user key |
| `StoreRecovery.CrashAndReopenKeepsInv` | `job-finder/Pods/leveldb-library/db/db_impl.cc:274-486` | A crash in any state, whatever was unfinished, followed by recovery with any number of level-0 tables, keeps the invariant; the store comes back with every applied operation and the group that had reached the log |
| `StoreRecovery.AbandonedRecoveryKeepsInv` | `job-finder/Pods/leveldb-library/db/db_impl.cc:274-486` | A recovery that itself crashes before its edit is installed leaves a store that can be recovered again |
| `StoreRecovery.RecoveredSequence` | `job-finder/Pods/leveldb-library/db/db_impl.cc:431-436` | The larger of the manifest's last sequence and those of the replayed records is the number of the last recovered operation |
| `StoreRuns.CreatedSatisfiesInv` | `job-finder/Pods/leveldb-library/db/db_impl.cc:177-207` | A new store satisfies the invariant |
| `StoreRuns.StepKeepsInv` | `job-finder/Pods/leveldb-library/db/db_impl.cc:218-1379` | Every step of the machine keeps the invariant, compactions and moves exactly if they are safe |
| `StoreRuns.CarefulIsSafe` | `job-finder/Pods/leveldb-library/db/version_set.cc:1345-1411` | Whatever the oldest snapshot, a step is safe if the files at the edges of its inputs are |
| `StoreRuns.CarelessBreaksInv` | `job-finder/Pods/leveldb-library/db/version_set.cc:1345-1411` | For every version and valid plan with unsafe edges there is an oldest snapshot with which the compaction breaks the invariant of any store it runs in |
| `StoreRuns.SafeRunKeepsInv` | `job-finder/Pods/leveldb-library/db/db_impl.cc:218-1379` | So every state of a run of such steps, of any length and with crashes anywhere, satisfies it |
| `StoreRuns.SafeRunsExactly` | `job-finder/Pods/leveldb-library/db/db_impl.cc:218-1379` | The runs all of whose states satisfy the invariant are exactly the runs of safe steps |
| `StoreRuns.SnapshotFreeStep` | `job-finder/Pods/leveldb-library/db/db_impl.cc:686-769` | Without snapshots, whatever step is taken cuts no user key and leaves levels with disjoint user-key ranges |
| `StoreRuns.SnapshotFreeRunIsCareful` | `job-finder/Pods/leveldb-library/db/db_impl.cc:686-769` | Every run without snapshots consists of such steps by itself; its sorted levels stay disjoint and its invariant holds throughout |
| `StoreRuns.AcknowledgedIsKept` | `job-finder/Pods/leveldb-library/db/db_impl.cc:1194-1265` | What was acknowledged in one state of a run is a prefix of the operations of every later state |
| `StoreRuns.NothingAcknowledgedIsLost` | `job-finder/Pods/leveldb-library/db/db_impl.cc:274-486` | Through any crashes the store reads as the map of an operation sequence that begins with everything acknowledged before, and its last sequence bounds every entry it holds |
| `StoreRuns.SnapshotsAreStable` | `job-finder/Pods/leveldb-library/db/db_impl.cc:1175-1183` | A held snapshot reads the same map in all states of the run in which it is held |
| `UserIterator.FirstVisibleDecides` | `job-finder/Pods/leveldb-library/db/db_iter.cc:173-203` | The first visible entry of a user key decides whether the key is live and with what value |
| `UserIterator.DBIter.FindNextUserEntry` | `job-finder/Pods/leveldb-library/db/db_iter.cc:173-203` | From any settled position, moving on ends at the least live user key of the range, or with none |
| `UserIterator.DBIter.FindPrevUserEntry` | `job-finder/Pods/leveldb-library/db/db_iter.cc:232-272` | Scanning back ends at the greatest live user key of the range, with its newest visible value saved, or with none |
| `UserIterator.DBIter.Seek` | `job-finder/Pods/leveldb-library/db/db_iter.cc:274-286` | Ends at the least live user key at or after the target |
| `UserIterator.DBIter.SeekToFirst` | `job-finder/Pods/leveldb-library/db/db_iter.cc:288-297` | Ends at the least live user key |
| `UserIterator.DBIter.SeekToLast` | `job-finder/Pods/leveldb-library/db/db_iter.cc:299-304` | Ends at the greatest live user key |
| `UserIterator.DBIter.Next` | `job-finder/Pods/leveldb-library/db/db_iter.cc:146-171` | Ends at the least live user key above the current one, whichever direction the last call went |
| `UserIterator.DBIter.Prev` | `job-finder/Pods/leveldb-library/db/db_iter.cc:205-230` | Ends at the greatest live user key below the current one, whichever direction the last call went |
| `UserIterator.DBIter.UserValue` | `job-finder/Pods/leveldb-library/db/db_iter.cc:70-73` | The value delivered is the newest visible one of the current key |
| `Merging.MergingIterator.Seek` | `job-finder/Pods/leveldb-library/table/merger.cc:51-57` | Stands at the first entry of the sorted union at or after the target |
| `Merging.MergingIterator.SeekToFirst` | `job-finder/Pods/leveldb-library/table/merger.cc:35-41` | Stands at the first entry of the union |
| `Merging.MergingIterator.SeekToLast` | `job-finder/Pods/leveldb-library/table/merger.cc:43-49` | Stands at the last entry of the union |
| `Merging.MergingIterator.Next` | `job-finder/Pods/leveldb-library/table/merger.cc:59-83` | Stands one entry further in the union, after any earlier calls in either direction |
| `Merging.MergingIterator.Prev` | `job-finder/Pods/leveldb-library/table/merger.cc:85-112` | Stands one entry back in the union, after any earlier calls in either direction |
| `Merging.MergingIterator.PositionAfterKey` | `job-finder/Pods/leveldb-library/table/merger.cc:67-79` | After a switch to forward, every other child stands at its first entry past the current key |
| `Merging.MergingIterator.PositionBeforeKey` | `job-finder/Pods/leveldb-library/table/merger.cc:93-108` | After a switch to reverse, every other child stands at its last entry before the current key |
| `Merging.MergingIterator.SmallestChild` | `job-finder/Pods/leveldb-library/table/merger.cc:155-168` | Among children that stand from position n on, the smallest is the one at entry n of the union |
| `Merging.MergingIterator.LargestChild` | `job-finder/Pods/leveldb-library/table/merger.cc:170-183` | Among children that stand before position n, the largest is the one at entry n - 1 |
| `TableCursors.TableCursor.Seek` | `job-finder/Pods/leveldb-library/db/table_cache.cc:82-104` | Over the bytes of a table of internal keys: stands at the first entry at or after the target, as a cursor over the entries these bytes stand for |
| `TableCursors.TableCursor.Next` | `job-finder/Pods/leveldb-library/table/table.cc:220-224` | One entry further in what the bytes stand for |
| `TableCursors.TableCursor.Prev` | `job-finder/Pods/leveldb-library/table/table.cc:220-224` | One entry back in what the bytes stand for |
| `TableCursors.EntriesKeepValues` | `job-finder/Pods/leveldb-library/db/dbformat.h:176-186` | The entries that a table's bytes stand for have the keys that its keys encode, and its values unchanged |
| `InternalIterators.NewInternalIterator` | `job-finder/Pods/leveldb-library/db/db_impl.cc:1067-1096` | In every state that satisfies the invariant, the memtables, level-0 files and concatenated levels are sorted, share no entry, and merge to all entries the store holds |
| `InternalIterators.NewIterator` | `job-finder/Pods/leveldb-library/db/db_impl.cc:1156-1165` | The iterator of a snapshot, or of now, shows exactly the map after that many operations |
| `InternalIterators.MovesInMap` | `job-finder/Pods/leveldb-library/db/db_iter.cc:146-304` | The least live key of a range is the least key of the map in it, and the greatest one the greatest |
| `InternalIterators.Scan` | `job-finder/Pods/leveldb-library/db/db_iter.cc:146-297` | Walking forwards from the first entry yields every item of the map once, in increasing order of keys |
| `InternalIterators.ScanBackwards` | `job-finder/Pods/leveldb-library/db/db_iter.cc:205-304` | Walking backwards from the last one yields them in decreasing order |
| `InternalIterators.ConcatIsLevel` | `job-finder/Pods/leveldb-library/db/version_set.cc:227-251` | The files of a sorted level, one after the other, are one sorted sequence of its entries |
| `TwoLevel.TwoLevelIterator.Seek` | `job-finder/Pods/leveldb-library/table/two_level_iterator.cc:91-96` | Stands at the first entry of the concatenated blocks at or after the target, also when the block it looks in first holds none |
| `TwoLevel.TwoLevelIterator.SeekToFirst` | `job-finder/Pods/leveldb-library/table/two_level_iterator.cc:98-103` | Stands at the first entry of the table |
| `TwoLevel.TwoLevelIterator.SeekToLast` | `job-finder/Pods/leveldb-library/table/two_level_iterator.cc:105-110` | Stands at the last entry of the table |
| `TwoLevel.TwoLevelIterator.Next` | `job-finder/Pods/leveldb-library/table/two_level_iterator.cc:112-136` | One entry further, across block boundaries |
| `TwoLevel.TwoLevelIterator.Prev` | `job-finder/Pods/leveldb-library/table/two_level_iterator.cc:118-149` | One entry back, across block boundaries |
| `TwoLevel.TwoLevelIterator.InitDataBlock` | `job-finder/Pods/leveldb-library/table/two_level_iterator.cc:156-170` | Afterwards the data iterator is over the block the index points to, whether it was reused or opened; there is none behind the last block |
| `TwoLevel.TwoLevelIterator.Entry` | `job-finder/Pods/leveldb-library/table/two_level_iterator.cc:37-44` | The key and the value delivered are those of the entry the iterator stands at |
| `LogFormat.UnmaskMask` | `job-finder/Pods/leveldb-library/util/crc32c.h:31-40` | Unmasking a masked checksum gives it back |
| `LogFormat.Writer.constructor` | `job-finder/Pods/leveldb-library/db/log_writer.cc:28-31` | A writer may be opened at the end of any file |
| `LogFormat.Writer.AddRecord` | `job-finder/Pods/leveldb-library/db/log_writer.cc:36-109` | Appends the record in fragments, padding the block where no header fits, as the layout of records says |
| `LogFormat.FragmentBytes` | `job-finder/Pods/leveldb-library/db/log_writer.cc:36-109` | A fragment byte for byte: padding of fewer than seven zeros to the end of a 32 KB block, the masked checksum of type and payload, the payload's length in two bytes, the type 1 to 4 by its place in the record, and as much payload as fits |
| `LogReader.Reader.ReadPhysicalRecord` | `job-finder/Pods/leveldb-library/db/log_reader.cc:199-281` | If the file holds a record here as far as it reaches, delivers its next fragment, or the end of the file if the fragment is cut short, and reports nothing |
| `LogReader.Reader.ReadRecord` | `job-finder/Pods/leveldb-library/db/log_reader.cc:60-181` | If the file holds a record here as far as it reaches, returns it exactly if its last fragment is complete, and reports nothing |
| `LogRoundTrip.CompleteCounts` | `job-finder/Pods/leveldb-library/db/log_reader.cc:199-281` | The records counted as complete are exactly those whose bytes lie within the file |
| `LogRoundTrip.WriteLog` | `job-finder/Pods/leveldb-library/db/log_writer.cc:28-82` | The file is the same whether or not the writer is reopened between records |
| `LogRoundTrip.ReadLog` | `job-finder/Pods/leveldb-library/db/log_reader.cc:60-281` | For any records and any byte-prefix of their log: exactly the records whose last fragment is there are read, and no corruption is reported |
| `LogReplay.ReplayRecord` | `job-finder/Pods/leveldb-library/db/db_impl.cc:415-436` | Of any record: one too short to be a batch is skipped; any other adds, for every update in front of the first malformed one, the value of a write or the tombstone of a removal, and raises the largest sequence if all is well. A record made from a group adds exactly that for the group's updates |
| `LogRecovery.RecoverLogFile` | `job-finder/Pods/leveldb-library/db/db_impl.cc:365-486` | From any byte-prefix of a log of groups, whenever memtables are full, the new level-0 tables hold exactly the values and tombstones of the updates of the complete groups, newer ones under larger numbers, and the sequence is the largest of theirs |
| `LogRecovery.RecoverLogs` | `job-finder/Pods/leveldb-library/db/db_impl.cc:305-363` | Replaying several logs in order puts the complete groups of all of them into such tables, and no log number is given out again |
| `LogReplay.RecoveredIsMap` | `job-finder/Pods/leveldb-library/db/db_impl.cc:365-486` | A store that kept only its log reads as the map after the operations of the recovered groups, and a key, byte for byte, as its last update in them: the value of a write, nothing after a removal or without one |
| `Manifest.ReadManifest` | `job-finder/Pods/leveldb-library/db/version_set.cc:939-1022` | From any byte-prefix of a manifest, exactly the edits whose record is complete are decoded, in order, each as it was logged |
| `ManifestRecovery.Recover` | `job-finder/Pods/leveldb-library/db/version_set.cc:905-1025` | From any byte-prefix of a manifest: fails exactly if a complete edit names another comparator or some counter is in no edit; otherwise a file is at a level exactly if a complete edit adds it there and no later one deletes its number there, with the size and the keys that its bytes say, in key order, and every counter is the last one that an edit has |
| `ManifestRecovery.ReplayIsLevel` | `job-finder/Pods/leveldb-library/db/version_set.cc:673-743` | Replaying edits one after the other leaves at each level the files that were added and not taken away afterwards |
| `ManifestRecovery.AddableAre` | `job-finder/Pods/leveldb-library/db/version_set.cc:673-707` | Edits as they are written never bring a number back to a level, and add none twice, exactly if the builder may apply them |
| `ManifestRecovery.CountersAreLast` | `job-finder/Pods/leveldb-library/db/version_set.cc:925-990` | The have_ flags and values that the loop leaves are those of the last edit that has each counter |
| `Bytewise.KeyOfKeepsOrder` | `job-finder/Pods/leveldb-library/db/dbformat.cc:50-66` | Encoded internal keys, read as user key by rank, sequence and type, compare as their bytes do |
| `Bytewise.KeyOfEncoding` | `job-finder/Pods/leveldb-library/db/dbformat.cc:12-21` | Reading an encoded internal key this way gives back the user key by rank, the sequence number and the type |
| `DatabaseRecovery.RunIsRecoverable` | `job-finder/Pods/leveldb-library/db/db_impl.cc:274-363` | In every state of every run the manifest ends with all counters and names no previous log, and no edit adds a number twice, which is what Recover needs |
| `DatabaseOpening.Open` | `job-finder/Pods/leveldb-library/db/db_impl.cc:1490-1530` | From the bytes of the manifest and the logs of any reachable state, opening succeeds unless another comparator is named, takes the recovery step of the store, and the new tables alone read as the map of all acknowledged operations and the logged group in flight |
| `DatabaseFiles.WrittenReadsBack` | `job-finder/Pods/leveldb-library/db/version_set.cc:820-903` | The edit that is logged for an installed version decodes from its bytes to the same fields, and these stand for that edit |
| `DatabaseFiles.RunHasOneFileEach` | `job-finder/Pods/leveldb-library/db/version_set.cc:820-903` | In every state of every safe run, a file number means the same file in all edits of the manifest |
| `DatabaseFiles.RunHasDirectory` | `job-finder/Pods/leveldb-library/db/db_impl.cc:274-363` | Every state that a safe run reaches, and whose keys, numbers and values have bytes, has a directory that holds it: its manifest and logs, written as the code writes them, with any compaction pointers, are read as exactly that state, under the comparator it was made with |
| `DatabaseOpening.Recover` | `job-finder/Pods/leveldb-library/db/db_impl.cc:274-363` | Recovers the installed version, replays exactly the logs from its log number on, and the last sequence is the larger of the manifest and the logs |
| `WriteBatches.Iterate` | `job-finder/Pods/leveldb-library/db/write_batch.cc:42-80` | The handler is told of every update up to the first malformed one, and of the error that ends the scan |
| `WriteBatches.BatchRoundTrip` | `job-finder/Pods/leveldb-library/db/write_batch.cc:42-109` | A batch reads back as the updates put into it; the scan accepts it if and only if fewer than 2^32 were put |
| `WriteBatches.InsertInto` | `job-finder/Pods/leveldb-library/db/write_batch.cc:112-134` | Every update that the scan reports enters the memtable, numbered one after the other from the sequence of the batch: a write with its value, a removal as a tombstone without one |
| `WriteBatches.InsertedBatchReads` | `job-finder/Pods/leveldb-library/db/write_batch.cc:112-134` | From the bytes of a batch inserted into an empty memtable, a read of any key at any number finds the value of its last visible update if that is a write, and nothing if it is a removal or if there is none |
| `WriteBatches.BatchBytes` | `job-finder/Pods/leveldb-library/db/write_batch.cc:5-14` | A batch byte for byte: eight bytes of its sequence, four of its count, and for each update a type, 1 for a write and 0 for a removal, with every string behind its length |
| `WriteBatches.WriteBatch.SetSequence` | `job-finder/Pods/leveldb-library/db/write_batch.cc:94-96` | Changes the sequence and no update |
| `WriteBatches.WriteBatch.Put` | `job-finder/Pods/leveldb-library/db/write_batch.cc:98-103` | Adds one update at the end |
| `WriteBatches.WriteBatch.Delete` | `job-finder/Pods/leveldb-library/db/write_batch.cc:105-109` | Adds one removal at the end |
| `WriteBatches.WriteBatch.Append` | `job-finder/Pods/leveldb-library/db/write_batch.cc:141-145` | Adds all updates of the other batch at the end, also those of a batch to itself |
| `WriteQueue.BuildBatchGroup` | `job-finder/Pods/leveldb-library/db/db_impl.cc:1269-1314` | The group is a contiguous prefix of the queue: followers of a leader of at most 128 KB have at most 128 KB together, and a group behind a larger one at most 1 MB; the next writer with a batch is left out exactly if it asks for a sync that the leader does not, or if that bound would break; none is without a batch |
| `WriterThreads.NextCorresponds` | `job-finder/Pods/leveldb-library/db/db_impl.cc:1194-1265` | Every step of any thread, guarded only by the mutex, its done flag and the front of the queue, is a step of the serial protocol or changes nothing there |
| `WriterThreads.Refines` | `job-finder/Pods/leveldb-library/db/db_impl.cc:1194-1265` | Every run of the threads is a run of the serial protocol |
| `WriterThreads.AtMostOneLeader` | `job-finder/Pods/leveldb-library/db/db_impl.cc:1201-1208` | At no moment of any run are two threads past the test of the loop |
| `WriterThreads.DoneNeverLeads` | `job-finder/Pods/leveldb-library/db/db_impl.cc:1201-1208` | A thread whose batch another one wrote never writes, and is no longer in the queue |
| `WriterThreads.RecordsCutTheQueue` | `job-finder/Pods/leveldb-library/db/db_impl.cc:1213-1224` | The log cuts the writers in order of arrival into consecutive runs, and each record holds exactly the batches of its run, numbered on from the one before |
| `WriterThreads.InExactlyOneRecord` | `job-finder/Pods/leveldb-library/db/db_impl.cc:1213-1224` | No batch is in two records, and every batch of a writer that was told so, or has returned, is in one |
| `WriterThreads.MemtableIsQueueOrder` | `job-finder/Pods/leveldb-library/db/db_impl.cc:1232-1245` | At every moment the memtable holds the batches of the answered threads in order of arrival, once each, and at most a beginning of the group of the one thread that inserts |
| `WriterThreads.AnsweredSyncWritesAreSynced` | `job-finder/Pods/leveldb-library/db/db_impl.cc:1222-1257` | When a sync write is answered, it and everything before it is in the synced part of the log |
| `WriterThreads.SnapshotsAreWhole` | `job-finder/Pods/leveldb-library/db/db_impl.cc:1245-1252` | A snapshot taken at any moment sees whole batches only, in order of arrival |
| `ConcurrentStore.NextIsStoreStep` | `job-finder/Pods/leveldb-library/db/db_impl.cc:1213-1252` | A leader's append to the log and its raising of the last sequence number are steps of the store, from the number it read before it released the mutex; no other step of a thread changes the store |
| `ConcurrentStore.NextKeepsInv` | `job-finder/Pods/leveldb-library/db/db_impl.cc:1194-1379` | Threads that write while the store flushes, compacts, switches memtables, crashes and recovers keep both in step: what was answered is the history, and what is logged but not answered is in flight |
| `ConcurrentStore.AnsweredWritesSurvive` | `job-finder/Pods/leveldb-library/db/db_impl.cc:1194-1265` | No acknowledged write of any thread is lost: in every later state, through any crashes, the store reads as the map of an operation sequence that begins with what was there when it was opened, the batches of the threads that arrived before, and this one |
| `ConcurrentStore.ReadsBesideWriters` | `job-finder/Pods/leveldb-library/db/db_impl.cc:1109-1265` | At every moment of every run of threads and store together, however much of a group is in the memtable already, whoever reads at a number it may hold sees the map after as many operations |
| `GroupCommit.NextKeepsInv` | `job-finder/Pods/leveldb-library/db/db_impl.cc:1194-1314` | Every step of the serial protocol, one group at a time, keeps its invariant |
| `GroupCommit.MemtableIsQueueOrder` | `job-finder/Pods/leveldb-library/db/db_impl.cc:1194-1265` | At every moment of every interleaving the memtable holds the answered batches in queue order, once each, numbered without gaps, and at most a beginning of the group in progress; the last sequence counts the answered ones only |
| `GroupCommit.LogIsQueueOrder` | `job-finder/Pods/leveldb-library/db/db_impl.cc:1213-1224` | The log holds the same batches in the same order, and each record holds exactly the batches of one stretch of the queue |
| `GroupCommit.InOneRecord` | `job-finder/Pods/leveldb-library/db/db_impl.cc:1222-1224` | No writer is in two records, and every covered writer with a batch is in one |
| `GroupCommit.AnsweredSyncWritesAreSynced` | `job-finder/Pods/leveldb-library/db/db_impl.cc:1222-1257` | Every answered sync write is in the part of the log that has been synced |
| `GroupCommit.SnapshotsAreWhole` | `job-finder/Pods/leveldb-library/db/db_impl.cc:1232-1245` | A snapshot sees every batch as a whole or not at all, also while a group is being inserted |
| `EditCodec.EncodeTo` | `job-finder/Pods/leveldb-library/db/version_edit.cc:41-86` | Appends the edit's fields: comparator, counters, compaction pointers, deleted files and new files |
| `EditCodec.TagBytes` | `job-finder/Pods/leveldb-library/db/version_edit.cc:14-24` | The tag of every field, byte for byte, and what follows it |
| `EditCodec.DecodeFrom` | `job-finder/Pods/leveldb-library/db/version_edit.cc:109-210` | Fails exactly if the fields do not decode; otherwise the edit holds what the fields say |
| `EditCodec.EditRoundTrip` | `job-finder/Pods/leveldb-library/db/version_edit.cc:26-210` | Decoding an encoded edit restores every field; the whole edit comes back if and only if the target had no compaction pointers, which are not cleared |
| `SkipLists.WalkVisitsAll` | `job-finder/Pods/leveldb-library/db/skiplist.h:154-176` | Following the pointers of a level visits every key linked behind a node once, in increasing order |
| `SkipLists.Publish` | `job-finder/Pods/leveldb-library/db/skiplist.h:360-368` | Storing the pointer to a prepared node links exactly that key and leaves the level sorted |
| `SkipLists.AdvanceIsRight` | `job-finder/Pods/leveldb-library/db/skiplist.h:262-281` | Every step of a search keeps its place right for the list of that moment; the step that ends it finds the place among all keys of that moment |
| `SkipListSteps.NextKeepsInv` | `job-finder/Pods/leveldb-library/db/skiplist.h:262-370` | Every atomic step of the inserter or a reader keeps the invariant |
| `SkipListSteps.KeysStay` | `job-finder/Pods/leveldb-library/db/skiplist.h:337-370` | In every run, a key that was in the list stays in it |
| `SkipListSteps.ConcurrentSearch` | `job-finder/Pods/leveldb-library/db/skiplist.h:262-281` | A search concurrent with any insertions returns the place of its target among the keys present at its last read, and misses no key that was there when it began |
| `ConcurrentReads.ConcurrentGet` | `job-finder/Pods/leveldb-library/db/memtable.cc:108-143` | A memtable lookup concurrent with any insertions decides the newest visible entry of the key among those present at its last load, and so among those present when it began |
| `ConcurrentReads.ConcurrentRead` | `job-finder/Pods/leveldb-library/db/db_impl.cc:1109-1154` | A lookup beside a writer that links the next group meanwhile returns the map after as many operations as its number says: the memtable's hit, and without one what the immutable memtable and the tables hold |
| `SkipListSteps.LevelsAreSortedSublists` | `job-finder/Pods/leveldb-library/db/skiplist.h:337-370` | At every moment of every run, every level is sorted and a sublist of the one below |
| `SkipListOperations.SkipList.FindGreaterOrEqual` | `job-finder/Pods/leveldb-library/db/skiplist.h:262-281` | The least key not below the target, and the predecessors on all levels |
| `SkipListOperations.SkipList.FindLessThan` | `job-finder/Pods/leveldb-library/db/skiplist.h:285-302` | The greatest key below the target, or the head if there is none |
| `SkipListOperations.SkipList.FindLast` | `job-finder/Pods/leveldb-library/db/skiplist.h:305-322` | The greatest key, or the head of an empty list |
| `SkipListOperations.SkipList.Contains` | `job-finder/Pods/leveldb-library/db/skiplist.h:373-380` | Whether the key is in the list |
| `SkipListOperations.SkipList.Insert` | `job-finder/Pods/leveldb-library/db/skiplist.h:337-370` | Adds the key and no other, for any random height |
| `Bytewise.RankEmbeds` | `job-finder/Pods/leveldb-library/util/comparator.cc:25-27` | Comparing byte strings is comparing their ranks as reals, and no two strings share a rank |
| `Bytewise.FindShortestSeparator` | `job-finder/Pods/leveldb-library/util/comparator.cc:29-51` | A string no longer than start, from start on and before limit, shortened exactly where the first difference leaves room |
| `Bytewise.FindShortSuccessor` | `job-finder/Pods/leveldb-library/util/comparator.cc:53-65` | A greater string, shorter exactly if a byte before the last can be incremented; a key of 0xff bytes only stays as it is |
| `Bytewise.EncodingKeepsOrder` | `job-finder/Pods/leveldb-library/db/dbformat.cc:12-66` | Encoded internal keys compare as their parts: user key, then larger sequence and type first |
| `Bytewise.FindShortestInternalSeparator` | `job-finder/Pods/leveldb-library/db/dbformat.cc:68-85` | An internal key between two keys, shorter than the first exactly where the first difference of the user keys leaves room before its end; if it differs, its user key lies strictly between theirs |
| `Bytewise.FindShortInternalSuccessor` | `job-finder/Pods/leveldb-library/db/dbformat.cc:87-99` | An internal key at or after the key, shorter exactly if a byte before the last of its user key can be incremented, and then with a larger user key |
| `BlockFormat.BlockBuilder.Add` | `job-finder/Pods/leveldb-library/table/block_builder.cc:73-107` | The block encodes one more entry behind what it encoded before; after each interval of entries a new run starts with a whole key, and every other key shares the longest possible prefix with the one before |
| `BlockFormat.BlockBuilder.Finish` | `job-finder/Pods/leveldb-library/table/block_builder.cc:63-71` | The finished block carries the restart offsets and their number behind the entries |
| `BlockReader.FinishedHolds` | `job-finder/Pods/leveldb-library/table/block_builder.cc:63-107` | A finished block of keys in increasing order, of less than 4 GB, is one that the iterator can read as the entries added |
| `BlockReader.Iter.constructor` | `job-finder/Pods/leveldb-library/table/block.cc:18-38` | An iterator over such a block knows its restart array and starts without an entry |
| `BlockReader.Iter.ParseNextKey` | `job-finder/Pods/leveldb-library/table/block.cc:226-253` | Ends at the next entry added to the block, with its whole key and value, or at the end |
| `BlockReader.Iter.Next` | `job-finder/Pods/leveldb-library/table/block.cc:139-142` | One entry further |
| `BlockReader.Iter.Prev` | `job-finder/Pods/leveldb-library/table/block.cc:144-163` | One entry back from any position; invalid before the first |
| `BlockReader.Iter.SearchRestarts` | `job-finder/Pods/leveldb-library/table/block.cc:165-192` | The last restart point whose key is before the target, or the first one if none is |
| `BlockReader.Iter.Seek` | `job-finder/Pods/leveldb-library/table/block.cc:165-203` | The first entry at or after the target, or none if there is none, for any restart interval |
| `BlockReader.Iter.SeekToFirst` | `job-finder/Pods/leveldb-library/table/block.cc:205-208` | The first entry |
| `BlockReader.Iter.SeekToLast` | `job-finder/Pods/leveldb-library/table/block.cc:210-215` | The last entry |
| `TableFormat.HandleRoundTrip` | `job-finder/Pods/leveldb-library/table/format.cc:15-30` | A block handle of 64-bit numbers decodes to itself |
| `TableFormat.FooterRoundTrip` | `job-finder/Pods/leveldb-library/table/format.cc:32-63` | A footer has its fixed length and decodes to its two handles |
| `TableFormat.FooterBytes` | `job-finder/Pods/leveldb-library/table/format.cc:32-41` | The footer byte for byte: both handles, zeros up to 40 bytes, and the magic number |
| `TableFormat.TrailerBytes` | `job-finder/Pods/leveldb-library/table/table_builder.cc:175-193` | A block is followed by a zero for no compression and the masked checksum of both |
| `TableBuilding.SeparatorSeparates` | `job-finder/Pods/leveldb-library/table/table_builder.cc:100-107` | The shortened key separates the block before it from the one after it |
| `TableBuilding.TableBuilder.Add` | `job-finder/Pods/leveldb-library/table/table_builder.cc:92-121` | The table holds one more entry; what was added before stays. The data block ends with this entry exactly if it has reached the block size |
| `TableBuilding.TableBuilder.Flush` | `job-finder/Pods/leveldb-library/table/table_builder.cc:123-137` | Ends the current block without changing what the table holds |
| `TableBuilding.TableBuilder.Finish` | `job-finder/Pods/leveldb-library/table/table_builder.cc:199-254` | The file is a table of exactly the entries added, in order, with an index that separates its blocks and a filter that knows every key of every block |
| `TableContent.FilterPrefixIsText` | `job-finder/Pods/leveldb-library/table/table_builder.cc:216-223` | The key of the filter in the metaindex block begins with `filter.` |
| `TableSearch.TargetIsLowerBound` | `job-finder/Pods/leveldb-library/table/two_level_iterator.cc:91-96` | Seeking the index and then the block it names leads to the first entry of the whole table at or after the key |
| `TableSearch.OtherUserKey` | `job-finder/Pods/leveldb-library/table/table.cc:226-255` | If that block holds nothing from the key on, the entry that follows belongs to a later user key |
| `TableReading.Table.Open` | `job-finder/Pods/leveldb-library/table/table.cc:38-141` | The index of a table is read, and its filter exactly if a policy is given and the table has one |
| `TableReading.Table.BlockReader` | `job-finder/Pods/leveldb-library/table/table.cc:164-218` | An iterator over the entries of the block that the index value names |
| `TableReading.Table.InternalGet` | `job-finder/Pods/leveldb-library/table/table.cc:226-255` | What is delivered is the first entry of the table at or after the key; if nothing is delivered and the filter has no false negatives, that entry, if any, belongs to another user key |
| `TableReading.FilterMatches` | `job-finder/Pods/leveldb-library/table/table.cc:231-240` | The filter never rules out a block that holds an entry of the user key |
| `Filters.FilterBlockBuilder.StartBlock` | `job-finder/Pods/leveldb-library/table/filter_block.cc:22-28` | Filters are generated up to the new block and no key added is lost |
| `Filters.FilterBlockBuilder.Finish` | `job-finder/Pods/leveldb-library/table/filter_block.cc:36-50` | A key is in the filter of a 2 KB range exactly if it was added for a block that starts there |
| `Filters.AddedKeysMatch` | `job-finder/Pods/leveldb-library/table/filter_block.cc:78-109` | For any policy without false negatives, asking the finished bytes about a key of a block answers true |
| `Filters.AsksThePolicy` | `job-finder/Pods/leveldb-library/table/filter_block.cc:78-109` | For any policy, the finished bytes answer as the policy does about the filter of the block's 2 KB range, and true behind the last range |
| `Bloom.CreateFilter` | `job-finder/Pods/leveldb-library/util/bloom.cc:35-61` | Appends the filter of the keys, leaving what was there |
| `Bloom.KeyMayMatch` | `job-finder/Pods/leveldb-library/util/bloom.cc:63-87` | Of any bytes: true if the last byte is more than 30, false of fewer than two bytes, and otherwise true exactly if, for every j below the number in the last byte, the bit (h + j * rotated h) mod 2^32 mod 8n is set |
| `Bloom.FilterBits` | `job-finder/Pods/leveldb-library/util/bloom.cc:35-61` | A created filter has the promised size and number of probes, and a bit of it is set exactly if some key probes it |
| `Bloom.EmptyFilterRejects` | `job-finder/Pods/leveldb-library/util/bloom.cc:35-87` | The filter of no keys rejects every key |
| `Bloom.BloomHasNoFalseNegatives` | `job-finder/Pods/leveldb-library/util/bloom.cc:23-87` | No key of any filter is ever missed, for any hash function, key list and bits per key |
| `HandleTables.HandleTable.Lookup` | `job-finder/Pods/leveldb-library/util/cache.cc:76-78` | Finds the handle with the key, and null exactly if there is none |
| `HandleTables.HandleTable.Insert` | `job-finder/Pods/leveldb-library/util/cache.cc:80-94` | The handle takes the place of the one with the same key, which is returned; all others stay, through any resize |
| `HandleTables.HandleTable.Remove` | `job-finder/Pods/leveldb-library/util/cache.cc:96-104` | Removes exactly the handle with the key, if there is one |
| `HandleTables.HandleTable.Resize` | `job-finder/Pods/leveldb-library/util/cache.cc:125-149` | Moves every handle to its new bucket and loses none |
| `HandleLinks.LruRemove` | `job-finder/Pods/leveldb-library/util/cache.cc:242-245` | Taking a handle out of a circular list by relinking its neighbours leaves the list of the others |
| `HandleLinks.LruAppend` | `job-finder/Pods/leveldb-library/util/cache.cc:247-253` | Linking a handle in before the dummy head puts it at the end |
| `HandleLinks.MoveToEnd` | `job-finder/Pods/leveldb-library/util/cache.cc:221-240` | Moving a handle between the two lists changes neither otherwise |
| `HandleLinks.FindPointer` | `job-finder/Pods/leveldb-library/util/cache.cc:112-123` | Walking the next_hash links ends at the slot of the handle with the key, or at the end of its chain |
| `HandleLinks.Insert` | `job-finder/Pods/leveldb-library/util/cache.cc:80-94` | Writing two links replaces the handle with the same key, which is returned, or adds one at the end of its chain if no handle there has the key, and leaves all other chains |
| `HandleLinks.Remove` | `job-finder/Pods/leveldb-library/util/cache.cc:96-104` | Writing one link takes the handle out of its chain and leaves all others |
| `HandleLinks.Relink` | `job-finder/Pods/leveldb-library/util/cache.cc:125-149` | Relinking every handle while walking the old chains leaves each in the chain of its new bucket, and loses none |
| `LRUCaches.HandleFates` | `job-finder/Pods/leveldb-library/util/cache.cc:221-240` | Every handle ever made is on the LRU list exactly if cached with one reference, in use exactly if cached with more, and its deleter has run once exactly if neither the cache nor a client holds it |
| `LRUCaches.LRUCache.Lookup` | `job-finder/Pods/leveldb-library/util/cache.cc:255-262` | Returns the cached handle with the key, which leaves the LRU list, or null exactly if there is none |
| `LRUCaches.LRUCache.Release` | `job-finder/Pods/leveldb-library/util/cache.cc:264-267` | The last reference of a client puts a cached handle at the end of the LRU list and frees one that is not cached |
| `LRUCaches.LRUCache.Insert` | `job-finder/Pods/leveldb-library/util/cache.cc:269-303` | The new entry replaces the one with its key; victims are exactly as many as needed, in the order in which they were released; afterwards the usage fits or nothing is left to evict |
| `LRUCaches.LRUCache.FinishErase` | `job-finder/Pods/leveldb-library/util/cache.cc:307-316` | Takes a handle out of the cache, its charge out of the usage, and frees it exactly if no client holds it |
| `LRUCaches.LRUCache.Erase` | `job-finder/Pods/leveldb-library/util/cache.cc:318-321` | No handle with the key is cached afterwards; it is freed now only if no client holds it |
| `LRUCaches.LRUCache.Prune` | `job-finder/Pods/leveldb-library/util/cache.cc:323-333` | Frees exactly the handles that no client holds |
| `Coding.FixedRoundTrip` | `job-finder/Pods/leveldb-library/util/coding.cc:9-45` | A number that fits in n little-endian bytes decodes to itself |
| `Coding.VarintRoundTrip` | `job-finder/Pods/leveldb-library/util/coding.cc:47-96` | A varint decodes to its value and leaves what follows it |
| `Coding.GetVarint` | `job-finder/Pods/leveldb-library/util/coding.cc:112-170` | The shifting loop computes the value of the groups, cut to the machine word, and fails exactly if no group ends the number |
| `Coding.LengthPrefixedRoundTrip` | `job-finder/Pods/leveldb-library/util/coding.cc:98-192` | A string of less than 4 GB reads back, with what follows it |
| `PbFields.FieldIter.Next` | `job-finder/Pods/nanopb/pb_common.c:20-75` | The next field, and after the last one the first again, which is reported; the count of required fields goes along |
| `PbFields.FieldIter.Find` | `job-finder/Pods/nanopb/pb_common.c:78-95` | Searches every field once, from the current one on and around the end: the first one with the tag, or none and the same place as before |
| `PbEncode.OStream.Write` | `job-finder/Pods/nanopb/pb_encode.c:101-119` | Writes or, when sizing, counts all the bytes, or none if they do not fit |
| `PbEncode.EncodeVarint` | `job-finder/Pods/nanopb/pb_encode.c:574-594` | Writes the varint of the value |
| `PbEncode.EncodeArray` | `job-finder/Pods/nanopb/pb_encode.c:126-211` | Writes the tagged or packed encoding of an array, sized beforehand, and fails exactly if it cannot be encoded or does not fit |
| `PbEncode.EncodeSubmessage` | `job-finder/Pods/nanopb/pb_encode.c:682-730` | Writes length and message; the second pass never disagrees with the first, so it fails exactly if the message cannot be encoded or does not fit |
| `PbEncode.Encode` | `job-finder/Pods/nanopb/pb_encode.c:494-516` | Writes the encoding of the message, nested to any depth, and fails exactly if it cannot be encoded or does not fit |
| `PbEncode.GetEncodedSize` | `job-finder/Pods/nanopb/pb_encode.c:533-542` | The number of bytes that writing the message takes, and a failure exactly where writing would fail |
| `PbFormat.KeysOfRecords` | `job-finder/Pods/nanopb/pb_encode.c:635-672` | The key of a record is eight times the tag plus the wire type: 0 for varints, 1 and 5 for fixed numbers, 2 for what has a length |
| `PbFormat.NumbersInBytes` | `job-finder/Pods/nanopb/pb_encode.c:574-631` | The bytes of a number of each kind, with two's complement and zigzag written out, are read as that number |
| `PbRecords.MessageIsFields` | `job-finder/Pods/nanopb/pb_encode.c:494-516` | An encoding is the records that the decoder will meet, one after the other |
| `PbDecode.IStream.ReadVarint` | `job-finder/Pods/nanopb/pb_decode.c:250-270` | Reads a varint of at most ten bytes, and fails exactly if there is none |
| `PbDecode.IStream.ReadVarint32` | `job-finder/Pods/nanopb/pb_decode.c:182-247` | For any bytes, the result of the definition; it reads back any number below 2^32 |
| `PbDecode.Varint32Reads` | `job-finder/Pods/nanopb/pb_decode.c:176-248` | That definition inverts the encoding |
| `PbDecode.DecodeNumber` | `job-finder/Pods/nanopb/pb_decode.c:1240-1389` | Of any bytes: the number at the front, and a failure exactly if there is none or it does not fit the type |
| `PbDecode.NumberReads` | `job-finder/Pods/nanopb/pb_decode.c:1240-1389` | Every number of every scalar type reads back: plain, signed, zigzag, fixed |
| `PbDecode.SkipField` | `job-finder/Pods/nanopb/pb_decode.c:273-329` | Of any bytes: what is behind the payload of an unknown field, and a failure exactly if it is cut short or of no known wire type |
| `PbUnknown.ValueIsSkipped` | `job-finder/Pods/nanopb/pb_decode.c:273-329` | Skipping by the wire type of a kind skips exactly the encoding of a value of that kind, nested messages included |
| `PbDecoder.DecodePacked` | `job-finder/Pods/nanopb/pb_decode.c:419-448` | Of any bytes: the numbers up to the end follow those of the array, and it fails exactly if one of them is malformed or finds the array full |
| `PbRoundTrip.PackedReads` | `job-finder/Pods/nanopb/pb_decode.c:419-448` | A packed array reads back |
| `PbDecoder.DecodeData` | `job-finder/Pods/nanopb/pb_decode.c:1391-1461` | Of any bytes: the content behind its length, and a failure exactly if it is cut short or does not fit, a string with its NUL |
| `PbDecoder.DecodeSubmessage` | `job-finder/Pods/nanopb/pb_decode.c:1463-1485` | Of any bytes: what the definition says of the content behind its length, and what follows is left |
| `PbDecoder.CheckRequired` | `job-finder/Pods/nanopb/pb_decode.c:1006-1046` | Accepts exactly if every one of the first 64 required fields has occurred |
| `PbDecoder.DecodeRecord` | `job-finder/Pods/nanopb/pb_decode.c:926-1004` | Of any bytes: one record is decoded into the field with its tag or skipped, as the definition of a record says, and a required field is noted |
| `PbRequired.FieldsSeen.Mark` | `job-finder/Pods/nanopb/pb_decode.c:988-993` | Notes one field and forgets none |
| `PbRequired.FieldsSeen.AllPresent` | `job-finder/Pods/nanopb/pb_decode.c:1027-1045` | Comparing word by word, with a shifted mask for the last one, tells exactly whether all bits are set |
| `PbDecoder.DecodeNoInit` | `job-finder/Pods/nanopb/pb_decode.c:901-1049` | Of any bytes and any structure to begin with: the message that the records spell, one after the other, and a failure exactly where the definition has none |
| `PbDecoder.Decode` | `job-finder/Pods/nanopb/pb_decode.c:1051-1063` | Of any bytes: the message that they spell, from defaults, or a failure exactly if they spell none; the encoding of a message, nested to any depth, is restored, if and only if every string has room for its NUL |
| `PbDecoding.AcceptedExactly` | `job-finder/Pods/nanopb/pb_decode.c:901-1046` | Bytes are accepted exactly if their records decode one after the other and each of the first 64 required fields is the field of one of these records |
| `PbFormat.EmptyInput` | `job-finder/Pods/nanopb/pb_decode.c:812-895` | The empty input is a message exactly if none of the first 64 required fields is in the descriptor; then no optional field is present, arrays, strings and byte arrays are empty and numbers are zero |
| `PbUnknown.UnknownFieldIsIgnored` | `job-finder/Pods/nanopb/pb_decode.c:926-1004` | Decoding a message into which the record of a field that the descriptor does not have, of any kind, was put between two records gives what it gave without it |
| `PbFormat.PieceIsRead` | `job-finder/Pods/nanopb/pb_decode.c:401-470` | A piece of a repeated field, packed or a single number with a key of its own, goes behind the numbers that are there, so an array may come in any pieces |
| `PbRoundTrip.MessageReads` | `job-finder/Pods/nanopb/pb_decode.c:901-1063` | The definition of decoding inverts encoding on messages nested to any depth, and refuses exactly the encodings with a string that fills its buffer |
| `PbRoundTrip.FullStringIsRefused` | `job-finder/Pods/nanopb/pb_decode.c:1428-1461` | The two sides do not always agree: a string that fills its buffer is encoded, and its encoding is refused |

## Left out

Conditions under which members hold:

- StoreRuns.SafeRunKeepsInv: compaction and move steps must be safe; where they are not, the promise is false of the code (see StaleReads.SplitKeyReadsStale), and StoreRuns.SafeRunsExactly says that this is the only way.
- StaleReads.SplitKeyReadsStale: a table's size is a function of its entries, of which it is only supposed that a value of 4 MB or more is written out with its block and that two one-byte values stay below 1 MB; this holds without compression, and with values that do not compress.
- ConcurrentStore.NextIsStoreStep: fewer than 2^56 operations are ever written; a crash ends all threads at once, and the new process starts with none.
- StoreRuns.NothingAcknowledgedIsLost: a process crash keeps what was appended to the log; machine crashes that lose unsynced bytes are not part of the model. A torn last append counts as not appended; what a torn file reads as is proved in LogRecovery.RecoverLogFile and ManifestRecovery.Recover.
- VersionEdits.Builder.Apply: requires that no file number comes back at a level it was at; the store machine proves that its edits never do that. Compaction pointers are fields of CompactionPicking only.
- CompactionPicking.VersionSet.Finalize: scores are exact quotients, where the source rounds them to a double.
- ManifestRecovery.Recover: requires edits that add no file number twice to a level, which DatabaseRecovery.RunIsRecoverable proves of every reachable manifest; which entries a table holds is a parameter.
- DatabaseFiles.RunHasDirectory: numbers are below 2^64, sequence numbers below 2^56, a user key in a file is the rank of a byte string of fewer than 2^32 - 8 bytes, and keys and values of operations are shorter than 4 GB.
- LogRecovery.RecoverLogFile: reads all records before it replays them, where the source takes turns; when a memtable counts as full is a parameter.
- DatabaseOpening.Open: for the files of reachable states; directory listing and file creation are given, and the directory's logs are visited in the order that sorting gives.
- WriterThreads.NextCorresponds: waiting and signalling are a thread that may look again at any time, so no claim is made that a thread is ever woken; the memtable switch that making room may need is a step of ConcurrentStore.
- SkipListSteps.ConcurrentSearch: single loads and stores are sequentially consistent, except that readers may see any old value of `max_height_`; the random height is a parameter.
- SkipListOperations.SkipList.Insert: requires a key that is not in the list, as the source asserts.
- Merging.MergingIterator.Next: no two children share an entry, which InternalIterators.NewInternalIterator proves of every reachable store; the branch for equal keys is modelled and never taken.
- Merging.MergingIterator.Prev: no two children share an entry, as for Next.
- InternalIterators.NewInternalIterator: the children are cursors over the entries of memtables, files and levels; that table bytes are such a cursor is proved in TableCursors, and the two-level iterator over the files of a level is taken as their concatenation. With a single child the source skips the merging iterator.
- BlockReader.Iter.Seek: for blocks that a builder made, shorter than 4 GB; the branches for corrupted blocks are not followed.
- TableReading.Table.BlockReader: a block is read from the file each time, without the block cache.
- TableReading.Table.InternalGet: for tables that a builder made, whose blocks are shorter than 4 GB.
- TableBuilding.TableBuilder.Finish: for files shorter than 2^64 bytes, which is what handles can address.
- Filters.AddedKeysMatch: for filter blocks shorter than 4 GB; the builder's flattened keys are a sequence.
- Bloom.BloomHasNoFalseNegatives: bits per key are not negative, and sizes do not overflow; the product with 0.69 is taken exactly.
- WriteBatches.BatchRoundTrip: keys and values are shorter than 4 GB; beyond that their length is cut to 32 bits.
- EditCodec.EncodeTo: the increasing order in which the deleted files are iterated is a parameter.
- LogReader.Reader.ReadRecord: a log is read from its beginning, as all callers do; resynchronising at an initial offset is not modelled. What it reports for corrupted bytes is modelled but not specified.
- LRUCaches.LRUCache.Insert: the lists and chains are sequences of handles here, and their links are the subject of HandleLinks; the reference counts and the in-cache flags are in maps of the cache; sharding and the destructor are not modelled.
- HandleTables.HandleTable.Resize: the bucket of a hash is its remainder, which is what masking computes for a power of two.
- WriteQueue.BuildBatchGroup: batches are lists of operations with a size in bytes.
- PbEncode.Encode: sizes are unbounded numbers; the fields are static: required, optional with a presence flag, and repeated.
- PbDecoder.Decode: numbers are those of the field's type, and the bytes of a string are those before its NUL; what a failed decoding leaves in the structure is not said.
- PbUnknown.UnknownFieldIsIgnored: tags below 2^29 and payloads shorter than 4 GB, which is what the encoder writes.
- PbDecode.IStream.ReadVarint32: the shift counter is unbounded, where the source's 8-bit one wraps after 36 bytes of padding.

Not modelled:

- Flush and compaction are atomic steps; the memtable flush that a running compaction makes room for (`db_impl.cc:917-927`) does not happen inside it.
- I/O errors, corrupted files, paranoid checks, the background error (apart from a flush whose edit fails), `reuse_logs`, and repair.
- Statistics, info logging, the random period of read sampling, and the delays and waits of `MakeRoomForWrite`.
- Options that change nothing about results: write buffer size and compression. Snappy counts as absent. File sizes matter in Scheduling and CompactionWork only.
- The table cache: getting from a table is a seek in its entries in the modules about versions, and in its bytes in TableReading.
- The snapshot list, whose oldest element feeds compaction, is an ordered sequence in Store.
- `std::sort` in `Version::Get` is a function with its result specified.
- Arena, environment, file names, histogram, random numbers and the C interface.
- nanopb: callbacks, extensions, oneof, pointer fields, fixed-count arrays, implicit presence, fixed-length bytes, default values given in the descriptor, and streams with user callbacks.
- The Swift app and the headers of the other libraries, which hold user interface and network calls only.
