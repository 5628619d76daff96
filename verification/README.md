# RallyDB in Dafny

RallyDB is a log-structured merge store in the LevelDB family, with Bloom filters split
into units that are loaded and evicted while the store runs. This project models its core
and proves that each fast or incremental structure agrees with a simple one: the set of
all `(user key, sequence, type, value)` entries, the map visible at a sequence number, a
cursor over one sorted sequence, or the history of writes.

`dafny verify dfyconfig.toml` checks everything.

## What is modelled

- **Reads and compactions** (`Keys`, `Versions`, `Lookup`, `InputSelection`, `DropRules`,
  `Builder`, `CompactionSteps`, `Store`, `BackgroundWork`). A version is seven levels of table files. Reads
  stop early; compactions choose inputs by range and boundary fixpoints, drop hidden
  entries and obsolete deletions, and install an edit. `Store` puts writes, memtable
  switches, flushes, trivial moves, merge compactions and snapshots into one step machine;
  `Store.HeldReads` and `Store.Get` say that in every run every read at a held snapshot or at
  the last sequence is the value of the write history. `BackgroundWork` runs the loops of the source from the
  choice of the files to the installed version and shows each job to be one step.
- **Cursors** (`Cursors`, `DbIter`, `Merger`, `TwoLevel`, `BlockIter`). `Cursors.Cursor`
  is a position in one sorted sequence; every iterator of the source, with its direction
  switches and position hints, is a class shown to refine it.
- **Formats** (`Coding`, `Crc`, `CrcPolynomials`, `BlockFormat`, `Log`, `LogReader`, `CrashPrefix`,
  `ReopenedLog`, `WriteBatches`, `Recovery`, `VersionEdits`, `Manifest`, `ManifestFiles`,
  `ReusedManifests`).
  Encoders and decoders on bytes, their round trips, and recovery from every truncation of
  the log (`CrashPrefix.PrefixOfLog`, `Recovery.CrashRecovery`) and of the manifest
  (`ManifestFiles.Restart`), failed writes of the manifest included
  (`Manifest.VersionSet.RecoverEqualsLive`).
- **Table lookup and filters** (`Separators`, `Tables`, `TableBuilders`, `Bloom`,
  `FilterBlock`, `TableLookup`). Shortened index keys and any number of loaded filter units
  hide no stored key (`TableLookup.BuildAndGet`), in every table whose filter units fit
  their 32-bit offsets: rows times (bits per key + 10) below 2^32 is enough.
- **Concurrency** (`GroupCommit`, `WritePath`, `Durability`, `WrittenMaps`,
  `SkipList`). The write queue
  and the skip list's single stores and loads are step machines; the theorems are about
  every interleaving. `Durability` joins the write queue to log recovery: what a successful
  write is worth after a crash (`Durability.SyncedSurvives`); `WrittenMaps` says that readers
  and recovery see the map the batches make in order (`WrittenMaps.ReadsWhatWasWritten`).
- **Resources** (`HandleTables`, `LruCache`, `MultiQueue`). The reference-counted cache
  and the exchange of filter units between cold and hot tables.

`Seqs` holds facts about sequences.

User keys are real numbers, standing for positions in the comparator's total order, where
only the order matters; they are byte strings in the format, separator and table modules.
A table is a strictly sorted, non-empty sequence of entries in the read and compaction
modules. Random skip-list heights, I/O outcomes, hash functions, output split points,
buffer-full tests and the choice of compaction are parameters, so the statements hold for
all of them. I/O estimates are real numbers.

## Where the code decides

- The drop loop starts each user key at `kMaxSequenceNumber`. If the oldest snapshot were
  that very number, everything would be dropped (`DropRules.SentinelDropsAll`); below it
  reads are preserved (`DropRules.DropPreserves`).
- Replaying the manifest into one builder equals the live run after an edit if and only if
  the edit adds no file number that the level still holds (`Builder.ReplayStep`,
  `Builder.ReaddedTwice`).
- A record appended to an open manifest stays there when the sync fails, although its
  version is not installed. Recovery then finds it, so it differs from the live version
  exactly if the edit in doubt changes something (`Manifest.VersionSet.RecoverEqualsLive`);
  `Manifest.FailedSync` is such a run. The background error keeps a second record from
  following (`Manifest.Database.BackgroundCall`).
- Log reuse appends to a file that a crash may have cut inside a record. The reader comes to
  the appended records if and only if the cut is not inside a fragment of a block that goes
  on (`ReopenedLog.ReachedExactly`). Otherwise it drops the rest of the block, and with it
  the first appended record (`ReopenedLog.Reopened`), unless the mixed bytes happen to have
  a good checksum (`ReopenedLog.Accident`). As long as the file ends before the length in
  the torn header, everything appended is lost without a report (`ReopenedLog.LostSilently`,
  `ReopenedLog.LostExample`).
- The same holds for a reused manifest: edits installed after such a cut can be missing at
  the next recovery (`ReusedManifests.ReusedManifest`, `ReusedManifests.RestartReused`).
- A failed log append sets no background error and may leave torn bytes, so that later
  writes, synced ones included, can be lost (`Durability.TornAppendLoses`). Without such an
  append a synced write survives (`Durability.SyncedSurvives`).
- The comment on `DBIter` says that in reverse the inner iterator stands just before all
  entries of the shown key. Entries invisible at the sequence may lie between the two; the
  model follows the code (`DbIter.ScanBackward`).
- `Block::Iter` keeps the restart index of the block before when the current entry is
  itself a restart point, because its loop tests with `<`. Seek and Prev are right
  nevertheless (`BlockIter.HintBounds`, `BlockIter.Iter.Prev`).
- The comment in the queue scan says that evicted memory may exceed the loaded unit. The
  counter is unsigned and the scan ends only at exactly zero, so the sizes of the cold
  units must add up exactly, modulo 2^64 (`MultiQueue.FindColdFilter`).
- A failed load after successful evictions leaves the hot table one queue too high and the
  memory held below the usage counter (`MultiQueue.FailedLoadMisplaces`). The placement and
  the counter are right after an access if and only if the load succeeds or there was
  nothing to gain from an exchange (`MultiQueue.InternalMultiQueue.UpdateHandle`).
- The comment on `BloomHash` promises very different hashes for the units. The hash of unit i
  is the i-th probe of unit 0 (`Bloom.UnitsAreProbes`), and two units agree on a key exactly
  if the rotation of its hash times their distance is a multiple of 2^32
  (`Bloom.UnitsDiffer`).
- `Recover` marks the log numbers as used and then overwrites the next file number with the
  one in the manifest plus one. Recovered tables and the log stay below it all the same
  (`Manifest.RecoveredBelow`).
- `SetLastSequence` advances even when the group's write failed; a failed sync stops all
  later writes (`WritePath.FailedSyncStopsWrites`).

## Model

| member | source | states |
|---|---|---|
| Keys.SortedUnique | db/dbformat.cc:47-63 | the internal-key order is strict enough that a set of entries has exactly one sorted sequence |
| Keys.NewestUnique | db/dbformat.cc:47-63 | with distinct (user key, sequence) pairs the newest visible entry of a key at a snapshot is unique, so a read is a function of the set of entries |
| Keys.SeekSkipsOnlyTooNew | db/dbformat.cc:47-63 | seeking to (k, s, kValueTypeForSeek) passes over exactly the entries of k newer than s |
| Versions.OrderedDisjointIsSorted | db/version_set.cc:637-654 | files ordered by BySmallestKey with pairwise disjoint internal-key ranges form a sorted level |
| Versions.SortedDisjointIsOrdered | db/version_set.cc:637-654 | conversely a sorted level is in BySmallestKey order and pairwise disjoint |
| Lookup.FindFile | db/version_set.cc:89-107 | the binary search splits the level: every file before the index ends before the key, every file from it on ends at or after the key |
| Lookup.SomeFileOverlapsRange | db/version_set.cc:123-158 | true if and only if some file of the level meets the user-key range, open ends included, for both the linear and the binary-search branch |
| Lookup.SeekGet | db/version_set.cc:270-283 | the entry at the seek position is the newest visible one of the table, and a miss means that no entry matches |
| Lookup.TableGet | db/version_set.cc:349-390 | the same for one table file, including the user-key check of SaveValue |
| Lookup.SortNewestFirst | db/version_set.cc:285-287 | the result is in descending file-number order and has the same files |
| Lookup.LevelZeroCandidates | db/version_set.cc:293-304 | exactly the level-0 files whose range covers the user key, newest first |
| Lookup.LevelZeroHit | db/version_set.cc:303-310 | stopping at the first newest-first level-0 hit is right: under the age order it is the newest visible entry of the level |
| Lookup.LevelZeroMiss | db/version_set.cc:293-310 | if no covering file has a match, no file of level 0 has one |
| Lookup.SortedLevelFound | db/version_set.cc:312-329 | on a sorted level a hit in the one file FindFile names is the newest of the level, even when the user key is split over adjacent files |
| Lookup.SortedLevelMiss | db/version_set.cc:312-329 | on a sorted level a miss in that one file is a miss of the level |
| Lookup.NewestInLevelIsNewest | db/version_set.cc:289-330 | a hit at the first level that has one is the newest visible entry of the whole version |
| Lookup.GetFromLevelZero | db/version_set.cc:293-310 | newest visible entry of level 0, or none matches |
| Lookup.GetFromSortedLevel | db/version_set.cc:312-329 | newest visible entry of a sorted level, or none matches |
| Lookup.Find | db/version_set.cc:289-330 | early-exit search over all levels returns exactly the newest entry with sequence at most s among all entries of all files |
| Lookup.Get | db/version_set.cc:332-411 | the read value is the visible value of the set of all entries of the version, a deletion reading as absent |
| InputSelection.GetOverlappingInputs | db/version_set.cc:563-603 | terminates through all restarts with exactly the files that meet the final range; on level 0 that range is closed (no file sticks out) and is the least closed range around the request; on other levels it is the request |
| InputSelection.WideningUsesUp | db/version_set.cc:585-599 | each restart strictly lowers the number of files reaching past the range, which is why restarts end |
| InputSelection.FindLargestKey | db/version_set.cc:1379-1393 | the greatest largest key of the files, absent only for no files |
| InputSelection.FindSmallestBoundaryFile | db/version_set.cc:1397-1416 | among the files that start after the key with the same user key, the one that starts first; none only if there is none |
| InputSelection.AddBoundaryInputs | db/version_set.cc:1431-1454 | terminates with a boundary-closed choice (no file continues the largest chosen user key); only boundary files are added, without duplicates, a slice of a sorted level stays a slice, and a closed or empty choice is left alone |
| InputSelection.BoundaryIsNext | db/version_set.cc:1397-1416 | on a sorted level the boundary file found is the file right after the chosen slice |
| InputSelection.GetRange | db/version_set.cc:1253-1272 | the smallest and the largest key of the inputs |
| InputSelection.OverlappingIsSlice | db/version_set.cc:563-603 | on a sorted level the files that meet a range are contiguous |
| InputSelection.ClosedIsBoundaryClosed | db/version_set.cc:1431-1454 | a closed level-0 choice needs no boundary files |
| InputSelection.Select | db/version_set.cc:1463-1465 | GetOverlappingInputs followed by AddBoundaryInputs holds every file that meets the range, is boundary closed, starts with a file that meets it, and otherwise only adds boundary files |
| InputSelection.SameParents | db/version_set.cc:1471-1503 | a wider range that selects no more next-level files selects the very same ones |
| InputSelection.SetupOtherInputs | db/version_set.cc:1456-1506 | the chosen inputs are boundary closed, inputs_[1] holds every next-level file meeting the range of inputs_[0]; the seed is kept, inputs_[1] is what the unexpanded seed selects, and inputs_[0] grows beyond the seed's boundary files only under the byte limit |
| InputSelection.PickFile | db/version_set.cc:1337-1356 | the file that used up its seeks, or the first one past the compaction pointer, or with wrap-around the first of the level |
| InputSelection.NextPick | db/version_set.cc:1337-1350 | on a sorted level, with the pointer at the largest key of a file, the next file is picked, and the first after the last |
| InputSelection.RoundRobin | db/version_set.cc:1510-1515 | repeated picks, each leaving the pointer at the largest key of the file picked, go around the level in key order |
| InputSelection.EveryFileInTurn | db/version_set.cc:1510-1515 | so every file of the level is picked exactly once in as many picks as there are files |
| InputSelection.PickCompaction | db/version_set.cc:1323-1377 | legal compaction inputs that contain the picked file |
| InputSelection.LimitInputs | db/version_set.cc:1531-1542 | the shortest non-empty prefix that reaches the byte limit, or all inputs if none does |
| InputSelection.CompactRange | db/version_set.cc:1519-1550 | no inputs if and only if no file of the level meets the range; otherwise legal inputs that hold all meeting level-0 files, or on a sorted level the first ones up to the byte limit |
| InputSelection.PickLevelForMemTableOutput | db/version_set.cc:494-519 | the deepest level (at most 2) reachable by pushes whose next level is clear and whose grandparent overlap is within the limit; above level 0 all levels down to it are clear |
| DropRules.Compaction.constructor | db/version_set.cc:1552-1562 | a fresh compaction state, no user key asked yet |
| DropRules.Compaction.IsBaseLevelForKey | db/version_set.cc:1588-1607 | for user keys asked in ascending order the answer of the moving level_ptrs_ is exactly that no file from level + 2 down covers the key |
| DropRules.Compaction.ScanLevel | db/version_set.cc:1591-1605 | the same for one level: pointers advance only past files that cannot cover this or a later key |
| DropRules.Kept | db/db_impl.cc:1035-1101 | the kept sequence holds exactly the entries neither drop rule removes |
| DropRules.KeptSorted | db/db_impl.cc:1035-1101 | the kept entries stay sorted and come from the input |
| DropRules.HiddenRun | db/db_impl.cc:1051-1053 | every entry of a user key after one visible to the oldest snapshot is hidden |
| DropRules.KeptExactly | db/db_impl.cc:1046-1077 | with distinct sequences, exactly these entries go: those with a newer entry of their user key that the snapshot already sees, and deletions the snapshot sees where the base-level test passes |
| DropRules.NewestIsNotHidden | db/db_impl.cc:1051-1053 | the newest visible entry at any sequence from the oldest snapshot on is never hidden |
| DropRules.NothingBehindTombstone | db/db_impl.cc:1054-1065 | when a deletion at its base level is dropped, nothing kept or left elsewhere becomes visible in its place |
| DropRules.DropPreserves | db/db_impl.cc:994-1104 | for every user key and every sequence from the smallest snapshot on, the visible value is the same with the input entries and with the kept ones, beside any rest that is newer wherever the base-level test passes (snapshot below kMaxSequenceNumber) |
| DropRules.SentinelDropsAll | db/db_impl.cc:1048-1053 | the exact failing case: if the smallest snapshot is kMaxSequenceNumber itself, the initial last_sequence_for_key is not above it and every entry is dropped |
| DropRules.ShouldDrop | db/db_impl.cc:1041-1068 | the decision of one turn, on the loop's running variables and the stateful base-level test |
| DropRules.FinishOutput | db/db_impl.cc:1026-1032 | closing an output loses nothing and leaves no empty output |
| DropRules.AddEntry | db/db_impl.cc:1079-1101 | an added entry comes after everything written so far |
| DropRules.DoCompactionWork | db/db_impl.cc:994-1114 | the loop, with current_user_key, last_sequence_for_key and arbitrary split points, writes the kept sequence cut into non-empty outputs |
| Builder.InsertFile | db/version_set.cc:637-651 | the added_files set stays ordered, keeps its files and takes the new one unless its number is there |
| Builder.Apply | db/version_set.cc:694-733 | deletions and additions of one edit keep the added set ordered |
| Builder.Merge | db/version_set.cc:748-762 | the merge holds the files of both lists and no others, each as often |
| Builder.Surviving | db/version_set.cc:782-796 | exactly the files whose number is not deleted, in order |
| Builder.UpperBound | db/version_set.cc:750-752 | splits the ordered base files around the added file |
| Builder.MaybeAddFile | db/version_set.cc:782-796 | extends the saved files by the file if it survives |
| Builder.CopyBase | db/version_set.cc:750-762 | copies a run of base files through the deletion filter |
| Builder.SaveLevel | db/version_set.cc:737-780 | the two-pointer loop computes the surviving part of the merge |
| Builder.MergeOrdered | db/version_set.cc:748-762 | merging ordered lists without common numbers gives an ordered level |
| Builder.LiveStepMembers | db/version_set.cc:694-796 | applying and saving one edit gives an ordered level holding the files not deleted plus the files added |
| Builder.ReplayStep | db/version_set.cc:694-796 | if replay and live run agree before an edit, they agree after it if and only if the edit adds no number that the level still holds |
| Builder.ReaddedTwice | db/version_set.cc:694-796 | adding a number the level still holds leaves the live level out of order, so the condition is needed |
| Builder.ReplayEqualsLive | db/version_set.cc:964-1042 | one Builder over all edits, saved once, gives the same file sequence as saving after each edit, when no number is re-added |
| CompactionSteps.ClosedLeavesNewer | db/version_set.cc:563-603 | what a closed level-0 choice leaves behind is newer for every common user key |
| CompactionSteps.SliceLeavesNewer | db/version_set.cc:1431-1454 | what a boundary-closed slice leaves behind is newer for every common user key |
| CompactionSteps.InputsLeaveNewer | db/version_set.cc:1456-1506 | so it is for every choice SetupOtherInputs can make |
| CompactionSteps.CompactionMembers | db/db_impl.cc:942-963 | the installed edit replaces exactly the inputs by the outputs and both levels stay ordered |
| CompactionSteps.LevelsStayDisjoint | db/db_impl.cc:942-963 | the outputs do not meet the files left on the next level |
| CompactionSteps.LevelsStayAged | db/version_set.cc:1456-1506 | shallower entries of a user key stay newer than deeper ones |
| CompactionSteps.LevelZeroStaysAged | db/db_impl.cc:942-963 | level 0 keeps its age order by file number |
| CompactionSteps.CompactionKeepsShape | db/db_impl.cc:942-980 | a merge compaction on legal inputs keeps the level shape: unique numbers, ordered and disjoint levels, shallower is newer, level 0 aged, distinct entries |
| CompactionSteps.CompactionEntries | db/db_impl.cc:942-963 | the entries before are inputs plus rest, after are outputs plus the same rest |
| CompactionSteps.BaseLevelRestIsNewer | db/version_set.cc:1588-1607 | where the base-level test passes, every entry of the user key outside the inputs is newer than those inside |
| CompactionSteps.CompactionPreservesReads | db/db_impl.cc:994-1104 | replacing the inputs by the outputs of the drop rules changes no read at any sequence from the smallest snapshot on, beneath any newer memtable entries |
| CompactionSteps.MovePreservesEntries | db/db_impl.cc:798-806 | a trivial move changes no entry of the version |
| CompactionSteps.CutsAreDisjoint | db/db_impl.cc:1026-1104 | however the sorted output is cut into files, the files are sorted and disjoint and hold the same entries |
| CompactionSteps.FlushLevel | db/db_impl.cc:572-585 | the flushed file joins its level in order |
| CompactionSteps.FlushEntries | db/db_impl.cc:548-592 | a flush adds exactly the entries of the memtable |
| CompactionSteps.FlushKeepsShape | db/db_impl.cc:548-592 | a flush to the level picked by PickLevelForMemTableOutput keeps the level shape |
| Store.WriteOne | db/memtable.cc:76-100 | one inserted entry extends every read to the longer history |
| Store.WriteBatch | db/write_batch.cc:132-137 | a batch inserted at consecutive sequence numbers makes the reads those of the history followed by the batch |
| Store.WriteKeepsInv | db/db_impl.cc:1293-1366 | a write keeps the store invariant |
| Store.SwitchKeepsInv | db/db_impl.cc:1465-1490 | switching to a new memtable keeps the store invariant |
| Store.FlushKeepsInv | db/db_impl.cc:548-592 | flushing the immutable memtable to the picked level keeps the store invariant |
| Store.FlushEmptyKeepsInv | db/db_impl.cc:572-575 | flushing an empty memtable adds no file and keeps it |
| Store.MoveKeepsInv | db/db_impl.cc:798-806 | a trivial move keeps it |
| Store.CompactKeepsInv | db/db_impl.cc:942-1114 | a merge compaction with any legal inputs and any split points keeps it |
| Store.SnapshotKeepsInv | db/db_impl.cc:1274-1277 | taking a snapshot at the last sequence keeps the snapshot list ordered |
| Store.ReleaseKeepsInv | db/snapshot.h:79-88 | releasing any snapshot keeps the invariant |
| Store.StepKeepsInv | db/db_impl.cc:994-998 | every step keeps the invariant: level shape, memtables newer than files, and every read from the smallest snapshot on equal to the history |
| Store.RunKeepsInv | db/db_impl.cc:1205-1253 | every state of every run from the empty store satisfies it |
| Store.SparesOldest | db/db_impl.cc:993-997 | the sequence handed to the drop rules is the oldest held snapshot, or the last sequence if none is held |
| Store.HeldReads | db/db_impl.cc:1205-1253 | in every state of every run, every held snapshot and the last sequence read what the history says |
| Store.CompactWrites | db/db_impl.cc:1024-1104 | a compaction writes exactly those inputs that have no newer entry of their user key seen by every held snapshot, and that are not deletions seen by every held snapshot at their base level |
| Store.HeldUntilReleased | db/db_impl.cc:1274-1283 | a snapshot stays in the list through any steps until it is itself released |
| Store.SnapshotStable | db/db_impl.cc:1274-1283 | in any run, a sequence that can be read at two points in time, being a held snapshot or the last sequence, reads the same at both |
| Store.Get | db/db_impl.cc:1205-1253 | memtable, then immutable memtable, then version returns the visible value of all entries; at every held snapshot and at the last sequence this is the value the history of writes gives the key |
| DbIter.DBIter.constructor | db/db_iter.cc:48-57 | a new iterator is not valid |
| DbIter.DBIter.FindNextUserEntry | db/db_iter.cc:177-207 | lands on the first shown entry at or after the position, skipping the given key, or there is none |
| DbIter.DBIter.FindPrevUserEntry | db/db_iter.cc:236-276 | saves the last shown entry before the position and stops before its group |
| DbIter.DBIter.Next | db/db_iter.cc:141-175 | the next shown entry, from either direction |
| DbIter.DBIter.Prev | db/db_iter.cc:209-234 | the previous shown entry, from either direction |
| DbIter.DBIter.Seek | db/db_iter.cc:278-290 | the first shown entry at or after the target |
| DbIter.DBIter.SeekToFirst | db/db_iter.cc:292-301 | the first shown entry |
| DbIter.DBIter.SeekToLast | db/db_iter.cc:303-308 | the last shown entry |
| DbIter.ScanForward | db/db_iter.cc:177-207 | the loop of FindNextUserEntry against the same specification |
| DbIter.ScanBackward | db/db_iter.cc:236-276 | the loop of FindPrevUserEntry: the saved pair is the last shown entry and only invisible entries lie between it and the cursor |
| DbIter.ReverseTurn | db/db_iter.cc:144-159 | turning from reverse to forward loses no shown entry |
| DbIter.ShownIsNewest | db/db_iter.cc:177-207 | an entry shown is the visible value of its user key |
| DbIter.NewestIsShown | db/db_iter.cc:177-207 | every visible user key is shown once |
| DbIter.ViewIsVisibleMap | db/db_iter.cc:141-308 | the rows shown are, in strictly ascending key order, exactly the map visible at the iterator's sequence number |
| DbIter.Step | db/db_iter.cc:141-308 | every move of the iterator is the same move of a cursor over that map, and the key and value shown are the row's |
| DbIter.Walk | db/db_iter.cc:141-308 | any sequence of Seek, SeekToFirst, SeekToLast, Next and Prev shows what a cursor over the visible map shows |
| Merger.FindSmallest | table/merger.cc:148-161 | a valid child with the least key, none only if no child is valid |
| Merger.FindLargest | table/merger.cc:163-176 | a valid child with the greatest key, none only if no child is valid |
| Merger.SeekAllToFirst | table/merger.cc:31-34 | every child stands on its first entry |
| Merger.SeekAllToLast | table/merger.cc:39-42 | every child stands on its last entry |
| Merger.SeekAll | table/merger.cc:47-50 | every child stands on its first entry at or after the target |
| Merger.TurnForward | table/merger.cc:63-76 | after turning, every other child stands on its first entry past the current key |
| Merger.TurnBackward | table/merger.cc:89-105 | after turning, every other child stands on its last entry before the current key, exhausted children included |
| Merger.SmallestIsFirstAbove | table/merger.cc:148-161 | if all children stand on their first entry past a cut, the least of them is the first entry of the union past the cut |
| Merger.LargestIsLastUnder | table/merger.cc:163-176 | the mirror statement |
| Merger.UnionExists | table/merger.cc:31-176 | children with pairwise distinct keys have a sorted union |
| Merger.MergingIterator.constructor | table/merger.cc:16-25 | an invalid cursor over the union |
| Merger.MergingIterator.Abs | table/merger.cc:29-108 | validity and current entry of the merging iterator are those of the cursor over the union |
| Merger.MergingIterator.SeekToFirst | table/merger.cc:31-37 | refines SeekToFirst of a cursor over the sorted union |
| Merger.MergingIterator.SeekToLast | table/merger.cc:39-45 | refines SeekToLast |
| Merger.MergingIterator.Seek | table/merger.cc:47-53 | refines Seek |
| Merger.MergingIterator.Next | table/merger.cc:55-79 | refines Next, from either direction |
| Merger.MergingIterator.Prev | table/merger.cc:81-108 | refines Prev, from either direction |
| TwoLevel.FlatSorted | table/two_level_iterator.cc:71-161 | the concatenation of the blocks is sorted when the index keys separate them |
| TwoLevel.SeekLands | table/two_level_iterator.cc:82-87 | seeking the index and then its block stands at the first entry of the concatenation at or after the target, even past the end of the block |
| TwoLevel.TwoLevelIterator.constructor | table/two_level_iterator.cc:71-78 | an invalid cursor over the concatenation of the blocks |
| TwoLevel.TwoLevelIterator.Abs | table/two_level_iterator.cc:36-60 | validity and current entry are those of the cursor over the concatenation |
| TwoLevel.TwoLevelIterator.InitDataBlock | table/two_level_iterator.cc:146-161 | the data cursor is over the block the index names, a cached handle included |
| TwoLevel.TwoLevelIterator.SkipEmptyDataBlocksForward | table/two_level_iterator.cc:115-126 | stops at the first entry from the gap on, across any number of empty blocks |
| TwoLevel.TwoLevelIterator.SkipEmptyDataBlocksBackward | table/two_level_iterator.cc:128-139 | stops at the last entry before the gap |
| TwoLevel.TwoLevelIterator.Seek | table/two_level_iterator.cc:82-87 | refines Seek of a cursor over the concatenation |
| TwoLevel.TwoLevelIterator.SeekToFirst | table/two_level_iterator.cc:89-94 | refines SeekToFirst |
| TwoLevel.TwoLevelIterator.SeekToLast | table/two_level_iterator.cc:96-101 | refines SeekToLast |
| TwoLevel.TwoLevelIterator.Next | table/two_level_iterator.cc:103-107 | refines Next |
| TwoLevel.TwoLevelIterator.Prev | table/two_level_iterator.cc:109-113 | refines Prev |
| BlockFormat.BlockBuilder.constructor | table/block_builder.cc:40-44 | an empty block with one restart point |
| BlockFormat.BlockBuilder.Reset | table/block_builder.cc:46-53 | back to the empty block |
| BlockFormat.BlockBuilder.Add | table/block_builder.cc:71-105 | the buffer, restarts and counter stay the encoding of the entries added so far, whatever the interval |
| BlockFormat.BlockBuilder.Finish | table/block_builder.cc:61-69 | the block is the encoded entries, the restart array and its length |
| BlockFormat.CommonPrefix | table/block_builder.cc:79-83 | the loop finds the longest common prefix |
| BlockFormat.AppendEntry | table/block_builder.cc:91-98 | appends one encoded entry |
| BlockFormat.AddedBuilt | table/block_builder.cc:71-105 | one more entry, shared or restarting, extends the encoding and the restart points correctly |
| BlockFormat.FastIsSlow | table/block.cc:52-72 | the one-byte fast path decodes what the varint path decodes |
| BlockFormat.EntryDecodes | table/block.cc:52-72 | DecodeEntry inverts the entry encoding in front of any further bytes |
| BlockIter.OpenBlock | table/block.cc:24-39 | the restart count and offset read from the end are those the builder wrote (blocks below 2^32 bytes) |
| BlockIter.EntryAt | table/block_builder.cc:91-98 | entry i lies encoded between its offset and the next |
| BlockIter.DecodesAt | table/block.cc:52-72 | decoding at that offset yields the lengths, key delta and value of entry i |
| BlockIter.RestartAt | table/block.cc:97-100 | the k-th restart offset is the offset of the k-th restart entry |
| BlockIter.Iter.constructor | table/block.cc:113-122 | not on an entry |
| BlockIter.Iter.GetRestartPoint | table/block.cc:97-100 | the offset of the entry of that restart point |
| BlockIter.Iter.SeekToRestartPoint | table/block.cc:102-110 | the next parse will be of the restart entry |
| BlockIter.Iter.ParseEntry | table/block.cc:258-267 | the parsed key and value are those of the entry; a bad entry of a damaged block is refused |
| BlockIter.Iter.Advance | table/block.cc:268-271 | the restart index follows the entry |
| BlockIter.Iter.ParseNextKey | table/block.cc:247-274 | moves onto the next entry, or to the end exactly after the last |
| BlockIter.Iter.Next | table/block.cc:135-138 | the entry after |
| BlockIter.Iter.RestartBefore | table/block.cc:143-153 | a restart strictly before the entry, none exactly for the first entry |
| BlockIter.Iter.Prev | table/block.cc:140-159 | the entry before |
| BlockIter.Iter.RestartKey | table/block.cc:186-195 | the key of the restart entry |
| BlockIter.Iter.SearchRestarts | table/block.cc:184-207 | the binary search keeps the target between its bounds |
| BlockIter.HintBounds | table/block.cc:168-182 | starting the search from the current position keeps the bounds, for a key below, above or equal to the target |
| BlockIter.Iter.Seek | table/block.cc:161-224 | from any current position the first entry at or after the target |
| BlockIter.Iter.ScanFrom | table/block.cc:214-223 | the linear scan finds the first entry at or after the target |
| BlockIter.Iter.SeekToFirst | table/block.cc:226-229 | the first entry |
| BlockIter.Iter.SeekToLast | table/block.cc:231-236 | the last entry |
| BlockIter.ReadForward | table/block.cc:226-229 | SeekToFirst and Next until invalid read the entries of the block |
| BlockIter.ReadBackward | table/block.cc:231-236 | SeekToLast and Prev until invalid read the same entries |
| BlockIter.RoundTrip | table/block_builder.cc:61-105 | for every increasing entry sequence and every interval at least 1, the built block (below 2^32 bytes) reads back as that sequence forward and backward |
| Crc.ExtendConcat | util/crc32c.h:14-17 | extending by one piece and then another equals extending by their concatenation |
| Crc.UnmaskMask | util/crc32c.h:29-38 | Mask and Unmask are inverse both ways |
| Crc.AdvanceLinear | util/crc32c.cc:276-377 | advancing the register over zero bytes is linear over XOR |
| Crc.ByteTable | util/crc32c.cc:287-291 | a lookup in the byte table advances the register by one byte |
| Crc.Step1IsByte | util/crc32c.cc:287-291 | STEP1 processes one byte of the bitwise CRC32C (section 12.1 of RFC 3720) |
| Crc.StrideIsAdvance | util/crc32c.cc:294-300 | four stride-table lookups advance a word by sixteen bytes |
| Crc.WordStep | util/crc32c.cc:313-320 | four bytes at once equal one word step |
| Crc.FoldWord | util/crc32c.cc:313-320 | folding a word into the register |
| Crc.RunSixteen | util/crc32c.cc:333-338 | the four partial registers of the first sixteen bytes stand for the register after them |
| Crc.StrideSixteen | util/crc32c.cc:303-310 | sixteen more bytes keep that correspondence |
| Crc.StrideFour | util/crc32c.cc:350-358 | four more bytes keep it, with the registers rotated |
| Crc.Step4 | util/crc32c.cc:294-300 | one partial register over one word |
| Crc.RunBytes | util/crc32c.cc:325-330 | the byte loops process their range |
| Crc.RunStrides | util/crc32c.cc:332-366 | the interleaved part processes its range |
| Crc.FoldAll | util/crc32c.cc:361-365 | folding the four partial registers gives the combined register |
| Crc.ExtendStrided | util/crc32c.cc:276-377 | for every buffer, length and alignment the strided Extend equals the one-bit-at-a-time CRC |
| CrcPolynomials.PolynomialBits | util/crc32c.cc:20-64 | the reversed constant holds the coefficients of the generator of section 12.1 of RFC 3720 |
| CrcPolynomials.BitDivides | util/crc32c.h:14-17 | one step of the register is one step of the long division by the generator |
| CrcPolynomials.RunIsRemainder | util/crc32c.h:14-17 | for every register and message, the register afterwards is the remainder of the message times x^32, with the register added to its highest terms |
| CrcPolynomials.ValueIsRemainder | util/crc32c.h:19-20 | the CRC is the complement of that remainder with the first 32 bits complemented |
| Coding.ChecksumConcat | util/crc32c.h:14-20 | checksum of a type byte extended by the payload is the checksum of both |
| Coding.ChecksumRoundTrip | util/crc32c.h:29-38 | a masked and stored checksum loads back |
| Coding.LittleEndianRoundTrip | util/coding.h:54-103 | fixed-width decode inverts encode |
| Coding.Fixed32At | util/coding.h:54-89 | the i-th of a run of fixed32 values reads back |
| Coding.EncodeVarint32 | util/coding.cc:21-47 | the unrolled encoder writes the base-128 form |
| Coding.EncodeVarint64 | util/coding.cc:55-64 | the loop writes the base-128 form |
| Coding.ReadVarint32 | util/coding.cc:86-102 | the shift loop, with its five-byte limit and 32-bit wrap-around, computes the parse |
| Coding.VarintRoundTrip | util/coding.cc:55-64 | a varint reads back in front of any further bytes |
| Coding.GetVarint32RoundTrip | util/coding.cc:104-114 | the same for 32 bits |
| Coding.GetVarint64RoundTrip | util/coding.cc:116-143 | the same for 64 bits |
| Coding.LengthPrefixedRoundTrip | util/coding.cc:72-154 | a length-prefixed slice reads back, leaving the rest |
| Log.Writer.constructor | db/log_writer.cc:23-25 | an empty file at block offset 0 |
| Log.Writer.Reopen | db/log_writer.cc:27-30 | continues any existing file at its length modulo the block size |
| Log.Writer.EmitPhysicalRecord | db/log_writer.cc:82-108 | appends header and payload |
| Log.Writer.AddRecord | db/log_writer.cc:34-80 | the file grows by the fragments and trailers of the record at this position |
| Log.EmitUnfold | db/log_writer.cc:34-80 | one turn of the fragmentation loop is one piece followed by the rest |
| Log.EmptyFragment | db/log_writer.cc:43-78 | an empty fragment of a non-empty record happens only when exactly a header fits, and the next fragment is not empty: the loop ends |
| LogReader.Reader.constructor | db/log_reader.cc:18-29 | at offset 0, nothing reported |
| LogReader.Reader.Fill | db/log_reader.cc:191-205 | the buffer is the next block of the file |
| LogReader.Reader.ReadPhysicalRecord | db/log_reader.cc:189-271 | what the buffered reader returns, where it stands after and what it reports depend only on the file and its position |
| LogReader.Reader.ReadRecord | db/log_reader.cc:56-174 | the same for whole records, over all fragment types and error reports |
| LogReader.Dispatch | db/log_reader.cc:82-170 | one fragment type, with or without a record begun |
| LogReader.ParseBuffer | db/log_reader.cc:216-269 | header, length, zero-type and checksum tests on the buffer |
| LogReader.PhysicalAt | db/log_reader.cc:189-271 | reading moves forward and stays in the file |
| LogReader.RecordFrom | db/log_reader.cc:56-174 | a returned record moves the position forward |
| CrashPrefix.ParsesBack | db/log_reader.cc:216-269 | a whole physical record parses back whatever follows |
| CrashPrefix.ParsesCut | db/log_reader.cc:222-233 | a truncated one at end of file reads as end of file, with no report |
| CrashPrefix.PhysicalReads | db/log_reader.cc:189-271 | a physical record in a file cut at n is read exactly if it lies before n |
| CrashPrefix.PieceReads | db/log_writer.cc:43-78 | the same for a fragment after its block trailer |
| CrashPrefix.RecordReads | db/log_reader.cc:56-174 | a record of any number of fragments is returned exactly if it lies before the cut, else end of file with no report |
| CrashPrefix.WholeIsMost | db/log_writer.cc:34-80 | the count of whole records is the largest that fits in the prefix |
| CrashPrefix.NthRead | db/log_reader.cc:56-174 | the reader standing before record i returns record i |
| CrashPrefix.PrefixOfLog | db/log_reader.cc:56-174 | for every sequence of records and every truncation, the reader returns exactly the records wholly in the prefix and reports no corruption |
| WriteBatches.HeaderRoundTrip | db/write_batch.cc:82-96 | sequence and 32-bit count read back from the header |
| WriteBatches.UpdateRoundTrip | db/write_batch.cc:42-80 | one update parses back |
| WriteBatches.BodyRoundTrip | db/write_batch.cc:42-80 | any sequence of updates parses back |
| WriteBatches.BodyConcat | db/write_batch.cc:144-148 | bodies concatenate as the updates do |
| WriteBatches.Extended | db/write_batch.cc:98-148 | patching the count and appending a body gives the encoding of the longer batch |
| WriteBatches.Iterate | db/write_batch.cc:42-80 | the updates handed over before any error, and success exactly for a well-formed body whose length is the count |
| WriteBatches.WriteBatch.constructor | db/write_batch.cc:29-38 | the empty batch |
| WriteBatches.WriteBatch.SetCount | db/write_batch.cc:86-88 | patches bytes 8 to 11 only |
| WriteBatches.WriteBatch.SetSequence | db/write_batch.cc:94-96 | changes the sequence and nothing else |
| WriteBatches.WriteBatch.Put | db/write_batch.cc:98-103 | rep_ stays the encoding, one put longer |
| WriteBatches.WriteBatch.Delete | db/write_batch.cc:105-109 | rep_ stays the encoding, one deletion longer |
| WriteBatches.WriteBatch.Append | db/write_batch.cc:144-148 | rep_ stays the encoding of both batches' updates |
| Recovery.InsertInto | db/write_batch.cc:132-137 | inserts the parsed updates at consecutive sequences, those before an error included |
| Recovery.RecoverLogFile | db/db_impl.cc:469-510 | memtables flushed on the way plus the last one hold the fold of all records, as does the largest sequence; paranoid checks stop at a bad batch |
| Recovery.BatchApplies | db/db_impl.cc:487-496 | an intact batch adds its entries and raises the largest sequence |
| Recovery.CrashRecovery | db/db_impl.cc:469-510 | for every sequence of batches and every truncation of the log, replay rebuilds exactly the entries of the batches wholly in the prefix, and their largest sequence, without error |
| GroupCommit.BuildBatchGroup | db/db_impl.cc:1370-1416 | the group is the longest prefix of the queue without a sync behind a non-sync leader and within the size limit; the result holds the updates of its batches in queue order, in tmp_batch_ or the leader's own batch, and no other batch changes |
| GroupCommit.AddToGroup | db/db_impl.cc:1404-1411 | the first addition switches to tmp_batch_ without touching the leader's batch |
| WritePath.GroupSync | db/db_impl.cc:1390-1395 | no group holds a sync write behind a non-sync leader |
| WritePath.AccountedStep | db/db_impl.cc:1293-1366 | writers leave the queue in arrival order, each in exactly one group |
| WritePath.PhasesStep | db/db_impl.cc:1300-1363 | no sleeping writer is at the front or done: nobody misses a wake-up |
| WritePath.WorkStep | db/db_impl.cc:1308-1347 | the leader's group stays a prefix of the queue and its batch the updates of that prefix |
| WritePath.GroupsStep | db/db_impl.cc:1293-1366 | every finished successful group was logged with the updates of its writers |
| WritePath.ChainStep | db/db_impl.cc:1310-1346 | sequence ranges of groups follow each other without gap |
| WritePath.ContentsStep | db/db_impl.cc:1323-1333 | log and memtable hold the groups in order, each once |
| WritePath.StepKeepsInv | db/db_impl.cc:1293-1366 | every step of every thread keeps all of these |
| WritePath.RunKeepsInv | db/db_impl.cc:1293-1366 | so does every run |
| WritePath.OneGroup | db/db_impl.cc:1349-1358 | a writer is in at most one group and never again in the queue |
| WritePath.RangesDisjoint | db/db_impl.cc:1313-1316 | sequence ranges of different groups never overlap |
| WritePath.SuccessIsLogged | db/db_impl.cc:1323-1333 | the record of a successful group in the log holds exactly the updates of its writers in queue order |
| WritePath.SyncedStep | db/db_impl.cc:1325-1330 | every step keeps this: the records of all successful groups whose leader asked for a sync, and of the group being inserted if it did, are within what the last good sync covered |
| WritePath.SyncIsKept | db/db_impl.cc:1325-1333 | the record of every successful write that asked for a sync is within what the last good sync covered |
| WritePath.SyncedBySync | db/db_impl.cc:1325-1330 | what is covered is the log at the moment of some good sync of the run |
| WritePath.SyncWasCalled | db/db_impl.cc:1325-1333 | behind every successful write that asked for a sync lies a good sync with its record in the log |
| WritePath.FailedSyncStopsWrites | db/db_impl.cc:1335-1340 | after a failed sync no step changes log or memtable any more |
| WritePath.NothingAfterFailedSync | db/db_impl.cc:1335-1340 | in every run, from the step of a failed sync on, log and memtable never change |
| WritePath.GroupsGrow | db/db_impl.cc:1346 | finished groups are only appended to, the next one starting right after LastSequence |
| WritePath.SnapshotSeesWholeGroups | db/db_impl.cc:1274-1277 | in any run, what a reader at LastSequence sees in any later memtable is exactly the groups finished then, each wholly or not at all |
| SkipList.FindGreaterOrEqual | db/skiplist.h:258-278 | on every level the last node before the key and the true next node |
| SkipList.FindLessThan | db/skiplist.h:281-300 | the last node before the key |
| SkipList.FindLast | db/skiplist.h:302-320 | the last node of the list |
| SkipList.StopsBetween | db/skiplist.h:258-278 | where a search stops on a level, its node and the next are the neighbours of the key there |
| SkipList.RaiseKeeps | db/skiplist.h:345-357 | storing a larger max_height_ keeps every level a sorted list |
| SkipList.AllocateKeeps | db/skiplist.h:359 | so does a new node not yet linked, whatever its memory holds |
| SkipList.OwnKeeps | db/skiplist.h:363 | so does each store to its own next pointer |
| SkipList.PublishKeeps | db/skiplist.h:364 | so does each publishing store |
| SkipList.StepKeepsInv | db/skiplist.h:334-366 | after every single store of the writer and load of a reader, every level is a sorted sublist of the one below and the reader stands before its bound |
| SkipList.RunKeepsInv | db/skiplist.h:334-366 | so in every state of every run |
| SkipList.ReadIsExact | db/skiplist.h:258-278 | a concurrent search ends between the true neighbours of its key at that moment |
| SkipList.PresentStep | db/skiplist.h:360-365 | the key set changes only at the publishing store on level 0, by the new key |
| SkipList.PresentGrows | db/skiplist.h:360-365 | keys never disappear in a run |
| SkipList.SearchFinds | db/skiplist.h:258-278 | a search that ends at any time after a key was linked finds it |
| SkipList.FoundExactly | db/skiplist.h:368-376 | comparing the node found decides membership |
| SkipList.SkipList.constructor | db/skiplist.h:322-332 | the empty set |
| SkipList.SkipList.Contains | db/skiplist.h:368-376 | true if and only if the key is in the set |
| SkipList.SkipList.Insert | db/skiplist.h:334-366 | the set gains the key, and the new node is linked on exactly its height's levels |
| SkipList.SkipList.Prepare | db/skiplist.h:336-359 | search, height and allocation change no level |
| SkipList.SkipList.LinkLevel | db/skiplist.h:360-365 | one turn links the node on one level |
| Separators.LexTotal | util/comparator.cc:27-29 | bytewise comparison is a total order |
| Separators.LexTransitive | util/comparator.cc:27-29 | and transitive |
| Separators.FindShortestSeparator | util/comparator.cc:31-52 | the start, or a string strictly between start and limit and no longer than start; which one is decided by the first differing byte |
| Separators.FindShortSuccessor | util/comparator.cc:54-66 | the key incremented and cut at its first byte below 0xff; unchanged exactly if it has none |
| Separators.LessTotal | db/dbformat.cc:47-63 | internal keys (user key ascending, tag descending) are totally ordered |
| Separators.LessTransitive | db/dbformat.cc:47-63 | and transitively |
| Separators.InternalSeparator | db/dbformat.cc:65-82 | at or above start and below limit, and when shortened with a user key strictly between and the largest tag; shortened exactly when the user separator is shorter |
| Separators.InternalSuccessor | db/dbformat.cc:84-97 | at or above the key, and when shortened with a larger user key and the largest tag |
| Bloom.SetBitKeeps | util/bloom.cc:60 | setting a bit changes that bit only |
| Bloom.AddProbes | util/bloom.cc:56-62 | sets the k probe positions of a hash and no other bit |
| Bloom.AddKeys | util/bloom.cc:53-63 | every key has all its bits, and every bit comes from some key |
| Bloom.CreateFilter | util/bloom.cc:37-64 | the appended filter matches every key under this unit's hash, holds no bit that no key asked for, ends with the number of probes, and leaves earlier bytes alone |
| Bloom.TestKey | util/bloom.cc:66-91 | the probing loop, its short-filter and reserved-k cases included, decides the match |
| Bloom.Probes | util/bloom.cc:28-33 | bits per key times 0.69 rounded down, between 1 and 30 |
| Bloom.FilterBytes | util/bloom.cc:40-46 | the fewest bytes that hold the bits for the keys, and at least 64 bits |
| Bloom.RotateBits | util/bloom.cc:21 | the rotation of numbers is that of their bits |
| Bloom.UnitStep | util/bloom.cc:15-24 | unit 0 uses the hash of the key and each further unit adds the rotation of that hash once more, modulo 2^32 |
| Bloom.UnitsDiffer | util/bloom.cc:15-24 | two units differ on a key if and only if the rotation times their distance is not a multiple of 2^32 |
| Bloom.ProbeStep | util/bloom.cc:56-62 | the probes of a unit start at its hash and go in steps of the rotation of that hash |
| Bloom.UnitsAreProbes | util/bloom.cc:15-24 | the hash of unit i is the i-th probe of unit 0 |
| Bloom.SecondUnitRejects | util/bloom.cc:66-91 | two keys with the same bit in unit 0 and different ones in unit 1: the first unit accepts the other key and the second rejects it |
| FilterBlock.FilterBlockBuilder.constructor | table/filter_block.cc:17-21 | no filters yet |
| FilterBlock.FilterBlockBuilder.StartBlock | table/filter_block.cc:23-29 | one filter per 2 KB up to the block's offset: the pending keys in the first, empty ones after |
| FilterBlock.FilterBlockBuilder.AddKey | table/filter_block.cc:31-35 | one more pending key |
| FilterBlock.FilterBlockBuilder.GenerateFilter | table/filter_block.cc:79-108 | every unit gains a filter at the same offset that matches all pending user keys under the unit's own hash |
| FilterBlock.FilterBlockBuilder.ReturnFilters | table/filter_block.cc:37-44 | the pending keys get their filter and the units are returned |
| FilterBlock.FilterBlockBuilder.Finish | table/filter_block.cc:54-77 | the meta block of offsets, size, address and parameters |
| FilterBlock.GenerateUnits | table/filter_block.cc:97-103 | all units match all keys and grow by the same number of bytes, that of one filter for the keys |
| FilterBlock.InternalCreateFilter | db/dbformat.cc:101-117 | the keys are stripped to user keys in place for unit 0 only, so the later units work on user keys too |
| FilterBlock.FilterAtMost | util/bloom.cc:28-54 | a filter takes at most the number of its keys times the bits per key plus ten bytes, the minimum of 64 bits and the probe byte included |
| FilterBlock.WriteRawFilters | table/table_builder.cc:209-240 | the units follow each other in the file, each with its trailer; the handle is that of unit 0 |
| FilterBlock.UnitReadsBack | table/format.cc:69-113 | a written unit reads back with its checksum |
| FilterBlock.UnitAt | table/table_builder.cc:209-240 | unit u lies u times unit size plus trailer after unit 0 |
| FilterBlock.MetaRoundTrip | table/filter_block.cc:110-151 | the reader parses the builder's parameters from the meta block |
| FilterBlock.LoadsUnit | table/filter_block.cc:195-222 | the reader's address of unit u is where the builder's unit u lies |
| FilterBlock.FilterBlockReader.constructor | table/filter_block.cc:110-151 | no unit loaded |
| FilterBlock.FilterBlockReader.LoadFilter | table/filter_block.cc:195-243 | the next unit, read from its address, is appended; it fails exactly when all are loaded or the read fails |
| FilterBlock.FilterBlockReader.EvictFilter | table/filter_block.cc:224-248 | the last unit goes; it fails exactly when there is none |
| FilterBlock.FilterBlockReader.InitLoadFilter | table/filter_block.cc:250-264 | units are only added; it succeeds exactly if at least the initial number is loaded then, and a success that had to load stops at that number |
| FilterBlock.FilterBlockReader.CleanFilter | table/filter_block.cc:266-284 | all units go and their number is remembered |
| FilterBlock.FilterBlockReader.GoBackToInitFilter | table/filter_block.cc:294-322 | on success exactly the remembered number is loaded again |
| FilterBlock.FilterBlockReader.KeyMayMatch | table/filter_block.cc:158-183 | true if and only if all loaded units accept the user key, bad offsets and missing filters counting as a match |
| FilterBlock.NoFalseNegatives | table/filter_block.cc:158-183 | with any number of loaded units 0 to m-1 every user key added under a block's offset is accepted for that block |
| Tables.SeekIndex | table/table.cc:417-418 | the first index entry at or after the target |
| Tables.SeekRow | table/table.cc:430-431 | the first row at or after the target |
| Tables.InTheGap | table/table_builder.cc:92-121 | a target in the gap between a block's last key and its shortened index key has no visible row in the table |
| Tables.BeyondBlock | db/dbformat.cc:65-82 | past a shortened index key no later block has a visible row of the user key |
| Tables.PastTheEnd | table/table_builder.cc:289-300 | past the last index key there is none |
| Tables.FirstInBlock | table/table.cc:430-434 | the row found in the block is at or before every visible row |
| Tables.Rejected | table/table.cc:423-428 | if the filter rejects the one block looked at, no block has a visible row |
| Tables.InternalGet | table/table.cc:413-444 | whenever the table has a visible entry of the user key, the single-block lookup returns the newest one; otherwise nothing or another user key |
| TableBuilders.TableBuilder.constructor | table/table_builder.cc:63-77 | an empty table |
| TableBuilders.TableBuilder.Add | table/table_builder.cc:92-121 | the table's rows gain the row; blocks, index keys and filter stay consistent, the pending index entry separating the two blocks |
| TableBuilders.TableBuilder.Flush | table/table_builder.cc:123-137 | the current rows become a block; nothing happens without rows |
| TableBuilders.TableBuilder.Finish | table/table_builder.cc:244-300 | blocks hold the rows added, every block has an index key at or above its last key and below the next block's user keys when shortened, and every key is in the filter of its block's offset |
| TableBuilders.AddShape | table/table_builder.cc:92-121 | an added row keeps the shape, with any separator for the pending index entry |
| TableBuilders.FlushShape | table/table_builder.cc:123-137 | a flush keeps it |
| TableBuilders.LastIndexKey | table/table_builder.cc:289-300 | a short successor of the last key completes the index |
| TableBuilders.FiltersHideNothing | table/table.cc:405-411 | a reader with any loaded units of the finished table never rejects a block for a key it holds, which is what InternalGet needs |
| HandleTables.OneAnswer | util/cache.cc:70-148 | a table holds at most one entry per key and hash |
| HandleTables.FindPointer | util/cache.cc:115-121 | the slot of the entry, or the end of its chain exactly if there is none anywhere |
| HandleTables.Lookup | util/cache.cc:75-77 | the entry, or none exactly if the table has none |
| HandleTables.Insert | util/cache.cc:79-93 | the entries are the old ones without that key plus the new one; the replaced one is returned; there are at least as many buckets as entries afterwards |
| HandleTables.Remove | util/cache.cc:95-103 | the entries without that key; the removed one is returned |
| HandleTables.Resize | util/cache.cc:123-147 | the same entries in enough buckets |
| HandleTables.Spread | util/cache.cc:133-142 | one chain moved over |
| LruCache.RefKeeps | util/cache.cc:218-224 | taking a reference keeps the invariant: counts are client references plus the cache's own, idle and in-use lists partition the cached entries, usage is the sum of charges, the table holds exactly the cached entries, deletions happen once |
| LruCache.ReleaseKeeps | util/cache.cc:226-238 | dropping one keeps it and deletes exactly at the last reference of an uncached entry |
| LruCache.EraseKeeps | util/cache.cc:308-317 | leaving the cache keeps it and deletes exactly if no client holds the entry |
| LruCache.LRUCache.constructor | util/cache.cc:198-204 | an empty cache |
| LruCache.LRUCache.Lookup | util/cache.cc:253-260 | finds the cached entry if there is one and makes it in use; nothing else changes |
| LruCache.LRUCache.Release | util/cache.cc:262-265 | the client's reference goes; at the last one the entry becomes the idle one given back last, or is deleted if it is not cached |
| LruCache.LRUCache.Insert | util/cache.cc:267-304 | the new entry replaces one with the same key; then idle entries are evicted in least recently used order, only while over capacity; afterwards usage is within capacity or nothing is idle; no client loses a reference |
| LruCache.LRUCache.AddNew | util/cache.cc:272-293 | the entry before room is made, not cached without capacity |
| LruCache.LRUCache.AddCached | util/cache.cc:283-288 | lists, usage and table take the entry and the replaced one leaves |
| LruCache.LRUCache.EvictOldest | util/cache.cc:294-301 | exactly the idle entry that was given back the longest ago leaves and is deleted |
| LruCache.UnrefOrder | util/cache.cc:225-239 | an entry that becomes idle goes behind all that were given back before it |
| LruCache.RefOrder | util/cache.cc:217-223 | an entry taken into use leaves the order of the others |
| LruCache.EraseOrder | util/cache.cc:308-317 | so does one that leaves the cache |
| LruCache.LRUCache.Erase | util/cache.cc:319-322 | the entry leaves the cache, nothing else changes, and the key is not found afterwards |
| LruCache.LRUCache.Prune | util/cache.cc:324-334 | exactly the idle entries leave, in order |
| MultiQueue.FindColdInQueue | util/multi_queue.cc:96-117 | collects the cold tables from the least recently used end, never-read ones skipped, until the 64-bit memory counter hits zero |
| MultiQueue.FindColdFilter | util/multi_queue.cc:362-376 | the shortest run of cold tables over the queues, fullest first, whose unit sizes add up to the memory modulo 2^64; none if no run does |
| MultiQueue.HotIsNotChosen | util/multi_queue.cc:228-249 | the table just read is never among the cold ones |
| MultiQueue.DistinctSum | util/multi_queue.cc:96-117 | sizes of distinct tables add up to no more than those of all, so below 2^64 the sum is exact |
| MultiQueue.InternalMultiQueue.constructor | util/multi_queue.cc:150-158 | empty queues |
| MultiQueue.InternalMultiQueue.Insert | util/multi_queue.cc:187-206 | the table is the most recently used of its queue and usage grows by its loaded units |
| MultiQueue.InternalMultiQueue.Erase | util/multi_queue.cc:299-311 | the table and its memory go |
| MultiQueue.InternalMultiQueue.EvictHandle | util/multi_queue.cc:439-447 | one unit fewer, in front of the queue below; fails exactly without units |
| MultiQueue.InternalMultiQueue.LoadHandle | util/multi_queue.cc:429-437 | one unit more, in front of the queue above; when the read fails the table has moved but its units have not |
| MultiQueue.InternalMultiQueue.CanBeAdjusted | util/multi_queue.cc:388-413 | true if and only if the expected I/O after the exchange is below that before |
| MultiQueue.InternalMultiQueue.ApplyAdjustment | util/multi_queue.cc:449-472 | the cold tables lose a unit each and the hot one gains one, each moved to the front of its new queue; a failed load leaves only the evictions |
| MultiQueue.EstimateEvict | table/filter_block.h:134-156 | EvictIOs and LoadIOs are the I/O estimates of the reader with one unit fewer and one more |
| MultiQueue.UnitScales | table/filter_block.h:132-156 | without units every access is a read, and each unit multiplies the reads by the false positive rate |
| MultiQueue.LoadLowers | table/filter_block.h:132-156 | for a rate between 0 and 1 a load strictly lowers and an eviction strictly raises the reads of a table that is read |
| MultiQueue.RateOfBits | util/bloom.cc:93-96 | the rate of a filter with bits is such a rate |
| MultiQueue.PaysExactly | util/multi_queue.cc:388-413 | an exchange pays if and only if the cold tables, each one unit poorer, would be read less than the hot one is now |
| MultiQueue.PaysForOne | util/multi_queue.cc:388-413 | against one cold table with as many units: if and only if it has fewer accesses than the rate times those of the hot one |
| MultiQueue.TwoTables | util/multi_queue.cc:228-249 | two equal tables, one just read: a unit changes hands if and only if the other was unread for 10000 sequence numbers, was read before, and has fewer accesses than the rate times those of the hot one |
| MultiQueue.MovePlaced | util/multi_queue.cc:429-447 | a moved table is in the queue of its new number of units |
| MultiQueue.MovesToFront | util/multi_queue.cc:429-447 | it comes first there, and all other tables keep their order |
| MultiQueue.MemoryConserved | util/multi_queue.cc:449-472 | an exchange leaves the filter memory unchanged |
| MultiQueue.IOsFall | util/multi_queue.cc:388-413 | an exchange that pays strictly lowers the total expected I/O |
| MultiQueue.RunFalls | util/multi_queue.cc:474-484 | over any run of adjustments with frozen access counts the expected I/O strictly falls at constant memory |
| MultiQueue.NoRepeat | util/multi_queue.cc:474-484 | so no configuration repeats |
| Manifest.ApplyAll | db/version_set.cc:694-733 | one more record folded into the builder, on every level |
| Manifest.SnapshotDescribes | db/version_set.cc:1134-1162 | the snapshot record alone replays to the version it was taken of |
| Manifest.DescribesMore | db/version_set.cc:842-924 | a record appended for a fresh edit keeps the manifest a description of the level |
| Manifest.Extends | db/version_set.cc:842-924 | the same for all levels |
| VersionEdits.KeyRoundTrip | db/version_edit.cc:87-94 | an internal key reads back |
| VersionEdits.LevelRoundTrip | db/version_edit.cc:96-104 | a level below kNumLevels reads back |
| VersionEdits.FileRoundTrip | db/version_edit.cc:178-190 | a new-file payload reads back |
| VersionEdits.PayloadRoundTrip | db/version_edit.cc:114-193 | every tagged field reads back in front of any further bytes |
| VersionEdits.ItemsRoundTrip | db/version_edit.cc:106-204 | any sequence of fields reads back |
| VersionEdits.EncodeTo | db/version_edit.cc:42-85 | the fields in the order of the source, deleted files in any order of the set |
| VersionEdits.DecodeFrom | db/version_edit.cc:106-204 | fails exactly if the bytes do not parse into tagged fields, and otherwise fills the edit from them in order |
| VersionEdits.EditRoundTrip | db/version_edit.cc:42-204 | decoding an encoded edit gives the edit back |
| Manifest.TakeRecord | db/version_set.cc:979-1009 | one more record in the loop of Recover: refused exactly for another comparator, else folded into the builder and the latest numbers |
| Manifest.FinishRecovery | db/version_set.cc:1015-1042 | succeeds exactly if log number, next file and last sequence all occurred; then the state is the replay of all records with the latest numbers |
| Manifest.SaveAll | db/version_set.cc:737-780 | every level of an empty version saved by the merge loop |
| Manifest.SaveVersion | db/version_set.cc:857-862 | one edit applied to the current version by the merge loop, on every level |
| Manifest.LegalAfterSnapshot | db/version_set.cc:869-879 | what may follow the records may follow a snapshot of the levels they describe |
| Manifest.CompletePrefix | db/version_set.cc:1015-1022 | a prefix of a manifest can be recovered exactly if it reaches the first record with all numbers |
| Manifest.RecoversPrefix | db/version_set.cc:964-1042 | replaying the first k records gives the levels the live run had after them |
| Manifest.LevelsStep | db/version_set.cc:842-924 | those levels change from record to record by one live step |
| Manifest.VersionSet.constructor | db/db_impl.cc:201-233 | a new database: a current manifest with one complete record, no files, nothing in doubt |
| Manifest.VersionSet.Reopen | db/version_set.cc:1032-1049 | after recovery the live levels and numbers are those the manifest describes |
| Manifest.VersionSet.LogAndApply | db/version_set.cc:842-924 | succeeds exactly if every file operation it needs does; then version, numbers and manifest (a snapshot first if it is new) take the edit, and the record holds the next file number and last sequence of that moment. After a failure version and numbers stay and a new manifest is dropped, but a record that got into an open manifest stays there, in doubt |
| Manifest.WriteManifest | db/version_set.cc:866-904 | what the manifest holds after each outcome of creating, appending, syncing and making current |
| Manifest.VersionSet.Install | db/version_set.cc:907-911 | version, manifest and numbers change together |
| Manifest.VersionSet.Suspect | db/version_set.cc:886-893 | a record that reached the manifest without its version being installed is in doubt |
| Manifest.VersionSet.NewFileNumber | db/version_set.h:203 | a number that no table of the version and not its log has, and the next one from then on |
| Manifest.VersionSet.ReuseFileNumber | db/version_set.h:208-212 | the number handed out last is given back if nothing in the manifest has it |
| Manifest.VersionSet.MarkFileNumberUsed | db/version_set.cc:1090-1094 | the next number is above the one marked and never lower than before |
| Manifest.VersionSet.SetLastSequence | db/version_set.h:224-227 | the last sequence grows |
| Manifest.VersionSet.Prepare | db/version_set.cc:857-879 | the manifest with the filled-in record describes the version the edit makes |
| Manifest.VersionSet.RecoverEqualsLive | db/version_set.cc:886-921 | recovery gives the live levels and numbers if no record is in doubt, the next file number being one more than when the last edit was logged, and otherwise those after the edit in doubt; so the two are equal if and only if nothing is in doubt or that edit adds no file, removes none and repeats the numbers; no recovered table or log has a number that will be handed out again |
| Manifest.CountedMore | db/version_set.cc:854 | a record with the live next file number is above all numbers in it and before it |
| Manifest.LevelsBelow | db/version_set.cc:854 | the tables of a described version are below any number above all records |
| Manifest.RecoveredBelow | db/version_set.cc:1038-1042 | from every prefix of a manifest, recovered tables and log are below the number kept for the next manifest, and that one below the next file number |
| Manifest.LevelChanges | db/version_set.cc:694-796 | an edit leaves a level as it is exactly if it adds no file and removes none the level holds |
| Manifest.StepChanges | db/version_set.cc:694-796 | the same for all levels |
| Manifest.Database.constructor | db/db_impl.cc:721-727 | no background error |
| Manifest.Database.BackgroundCall | db/db_impl.cc:721-767 | after a failed change of the version set no background work changes it again, so at most one record is ever in doubt, and it is the last |
| Manifest.OpenedDatabase | db/db_impl.cc:1621-1625 | opening a new database makes a new manifest |
| Manifest.FailedSync | db/version_set.cc:886-893 | the failing run: the record of a flushed table is appended, the sync fails; the live version lacks the table and recovery finds it |
| ManifestFiles.Recover | db/version_set.cc:964-1042 | on any bytes: fails if the log reader reports anything or a record does not decode; otherwise succeeds exactly if no record names another comparator and all numbers occur, and installs the replay of the decoded edits |
| ManifestFiles.LeavesStep | db/version_set.cc:974-1010 | one record read and decoded leaves the rest of the edits |
| ManifestFiles.TakeEdit | db/version_set.cc:977-1009 | one turn of the loop, from a decoded edit to its effect on every level |
| ManifestFiles.RecordParses | db/version_edit.cc:42-204 | a stored edit decodes to itself |
| ManifestFiles.TruncatedManifest | db/version_set.cc:967-1011 | for every sequence of stored edits and every truncation of the file, exactly the edits wholly in the prefix are read and decoded, without error |
| ManifestFiles.RestartFrom | db/version_set.cc:926-1049 | from any bytes that decode to a prefix of the live edits, recovery fails exactly if the first numbers are missing, else gives the levels after that prefix, with all tables and the log below the next file number; one more edit would make one more live step |
| ManifestFiles.Restart | db/version_set.cc:926-1049 | for every state a run can reach and every truncation of its manifest file, a torn record included: recovery fails exactly if the first numbers are cut off, else gives the levels after some prefix of the edits, and hands out no number of a table again; if nothing synced is lost, these are the live levels or those after the edit in doubt |
| ManifestFiles.StoreMeans | db/version_set.cc:1150-1157 | listing the files of an edit level by level keeps its meaning |
| BackgroundWork.MergeInputs | db/version_set.cc:1286-1321 | the merging iterator over the inputs, read to its end, yields their entries in order |
| BackgroundWork.InputsApart | db/version_set.cc:1456-1506 | no two files of legal inputs share an internal key |
| BackgroundWork.MakeTables | db/db_impl.cc:867-891 | one table per output, with the next file numbers |
| BackgroundWork.CompactFiles | db/db_impl.cc:796-824 | a single file without parents and with few grandparents is moved, all other inputs are merged into tables with the next file numbers; run by the loops of the source this is that step of the store on those inputs and keeps its invariant |
| BackgroundWork.AutomaticCompaction | db/db_impl.cc:769-825 | a compaction by size or by seeks is a move or merge step at the level, with the picked file among its inputs |
| BackgroundWork.ManualCompaction | db/db_impl.cc:780-825 | it does nothing if and only if no file meets the range; otherwise it is a merge step at the level, taking every file that meets the range on level 0 and a shortest prefix up to the size limit on deeper levels |
| BackgroundWork.CompactMemTable | db/db_impl.cc:594-625 | the immutable memtable is gone; its entries are one new table at the deepest level the tests allow, or no table if there are none, and this is a step of the store |
| TableLookup.Build | table/table_builder.cc:92-300 | rows added in order end up in blocks with a complete index and filters; a filter unit takes at most the number of rows times the bits per key plus ten bytes |
| TableLookup.OpenFilter | table/filter_block.cc:195-222 | a reader after any number of loads, failed ones included: at most one unit for each read that worked and never more than there are, and exactly so many if the units are in the file |
| TableLookup.InFlat | table/table_builder.cc:123-137 | the rows of the blocks are the rows of the table |
| TableLookup.BuildAndGet | table/table.cc:413-444 | for rows added in order, the written filters and any loaded units, a lookup returns the newest visible row of the user key if the rows have one, and otherwise nothing or another user key; so for every table whose filter unit stays below 2^32 bytes at an address below 2^64, as it does whenever rows times (bits per key + 10) is below 2^32 and the data below 2^64 |
| ReopenedLog.AppendAll | db/log_writer.cc:27-30 | a reopened writer appends its records at the file's length |
| ReopenedLog.ReachesCut | db/log_reader.cc:56-174 | the reader takes the whole fragments before a cut and stands at it |
| ReopenedLog.InsideIsTorn | db/log_writer.cc:43-78 | a cut inside a record that is not between fragments leaves a torn fragment |
| ReopenedLog.Restarts | db/log_reader.cc:92-117 | the beginning of a new record throws away what was begun, with a report of its size if it has any |
| ReopenedLog.StepsOver | db/log_reader.cc:189-271 | reading at a torn fragment goes past the cut when the block goes on |
| ReopenedLog.TornRead | db/log_reader.cc:189-271 | reading at a torn fragment comes to the end of the block when no header fits after the cut |
| ReopenedLog.Reopened | db/db_impl.cc:514-523 | a log cut anywhere and appended to: after a cut between fragments everything appended is read back, and a record begun before it is reported by its size; inside a fragment everything is read back when no header fits into the rest of the block; otherwise, unless the checksum of the mixed bytes holds by accident, exactly the records beginning in later blocks are read back, which always loses the first |
| ReopenedLog.AtCut | db/log_reader.cc:56-174 | what the reader returns from the torn record on, in the same cases |
| ReopenedLog.ReachedExactly | db/log_reader.cc:189-271 | the reader comes to where the appended records begin if and only if the cut is between records or fragments or no header fits into the rest of the block; checksums play no part |
| ReopenedLog.DropsBlock | db/log_reader.cc:189-271 | a torn fragment whose checksum fails costs the rest of its block and nothing after it |
| ReopenedLog.InSync | db/log_reader.cc:56-174 | from any block boundary the reader returns exactly the records that begin there or later |
| ReopenedLog.Orphans | db/log_reader.cc:101-140 | the later fragments of a record whose beginning was lost are dropped |
| ReopenedLog.FirstIsLost | db/log_writer.cc:27-78 | the first appended record begins in the block of the cut, so a dropped block loses it |
| ReopenedLog.LostSilently | db/log_reader.cc:221-238 | if the torn header is whole and the file ends before the length in it, everything after the cut is lost and nothing is reported, whatever the bytes there are |
| ReopenedLog.EndsAtCut | db/log_reader.cc:221-238 | the reader takes the torn fragment for the end of the file |
| ReopenedLog.LostExample | db/db_impl.cc:514-523 | a record of 100 bytes cut at byte 50 and a record of 3 bytes appended: nothing is read and nothing is reported |
| ReopenedLog.Accident | db/log_reader.cc:240-256 | the exception: a one-byte record cut before its byte is completed by the first byte appended, so that the torn record reads back and the appended one is lost |
| ReusedManifests.EditsOfReads | db/version_set.cc:964-1011 | recovery takes all records the reader returns, and fails if it reports anything |
| ReusedManifests.StoredParses | db/version_edit.cc:42-204 | a sequence of stored edits decodes to itself |
| ReusedManifests.SurvivorsAreLast | db/log_reader.cc:56-174 | what survives of the appended records is a suffix of them, and a proper one when they begin inside the block |
| ReusedManifests.ReusedManifest | db/version_set.cc:1059-1087 | a manifest cut anywhere and appended to: after a cut between records all edits are recovered; between the fragments of a record recovery fails; inside a fragment of a block that goes on, unless its checksum holds by accident, recovery fails or lacks the first appended edit |
| ReusedManifests.LostEdits | db/version_set.cc:964-1011 | while the file ends before the length in the torn header, recovery takes the edits before the cut alone, without error |
| ReusedManifests.RestartReused | db/version_set.cc:1059-1087 | recovery of a live run on such a manifest gives the levels and numbers it had when it was reopened; the first edit since then is the next live step that is missing |
| Durability.SyncedSurvives | db/db_impl.cc:1321-1346 | in every state of every run of the write queue and for every truncation of its log that keeps what the last good sync covered: recovery succeeds, rebuilds a prefix of the logged groups, and for every group with a successful write that asked for a sync holds all successful writes of that group and of those before it |
| Durability.KeptSurvives | db/db_impl.cc:1321-1346 | the same for any successful group whose record is within the bytes that are left |
| Durability.GroupSurvives | db/db_impl.cc:1321-1346 | the updates of a successful group are in its log record, at its sequence |
| Durability.RecoversWhole | db/db_impl.cc:469-510 | where the reader sees the end of the file after the whole batches, recovery rebuilds them all |
| Durability.TornAppendLoses | db/db_impl.cc:1322-1346 | an append that failed halfway sets no background error; while the file ends before the length in its header, recovery succeeds with the batches before it, and every later write is lost, synced or not |
| WrittenMaps.OneMore | db/write_batch.cc:113-131 | the entry of a put or a deletion, newer than all others, sets or removes its key for a reader of the newest entries |
| WrittenMaps.BatchShows | db/write_batch.cc:113-137 | so does a whole batch, update by update |
| WrittenMaps.GroupsShow | db/db_impl.cc:1304-1346 | the newest entries of the successful groups are the map their updates make in order |
| WrittenMaps.ReadsWhatWasWritten | db/db_impl.cc:1304-1346 | in every run, a reader at a last sequence sees, then and ever after, exactly the map that the groups successful until then have written one after the other |
| WrittenMaps.RecoversMap | db/db_impl.cc:469-510 | for every truncation of a log with ascending batches, recovery shows the map that a prefix of the batches has written |
| WrittenMaps.RunRecoversMap | db/db_impl.cc:469-510 | the log of every run is such a log |
| WritePath.GroupExists | db/db_impl.cc:1387-1414 | the leader always finds a group |
| WritePath.NoDeadlock | db/db_impl.cc:1300-1363 | while a writer waits the front writer can go on; unless writes are blocked it can do so without failing, with the group BuildBatchGroup finds, and its group then ends well |
| WritePath.Progress | db/db_impl.cc:1300-1363 | every step of the front writer lowers the distance to its return, no step of another thread raises it, and its last step returns it |
| SkipList.LoadEnabled | db/skiplist.h:258-278 | a concurrent reader is never stuck |
| SkipList.ListIterator.constructor | db/skiplist.h:187-191 | not on a node |
| SkipList.ListIterator.Next | db/skiplist.h:204-208 | the least key above the current one |
| SkipList.ListIterator.Prev | db/skiplist.h:210-219 | the greatest key below the current one |
| SkipList.ListIterator.Seek | db/skiplist.h:221-224 | the least key at or above the target |
| SkipList.ListIterator.SeekToFirst | db/skiplist.h:226-229 | the least key |
| SkipList.ListIterator.SeekToLast | db/skiplist.h:231-237 | the greatest key |
| Tables.GetFromBlock | table/table.cc:423-437 | the same once the index has named a block and the filter has been asked |
| MultiQueue.SomethingToGain | util/multi_queue.cc:474-484 | the run of cold tables is unique, so a paying exchange excludes every reason against one |
| MultiQueue.FailedLoadMisplaces | util/multi_queue.cc:429-437 | after a failed load the hot table is not in the queue of its units |
| MultiQueue.InternalMultiQueue.Adjustment | util/multi_queue.cc:474-484 | an exchange takes place exactly if the hot table is not full and has a size, the shortest cold run adds up and it pays. Every table is in the queue of its units and usage is the memory held afterwards if and only if the load succeeds or there was nothing to gain; else the hot table is misplaced and less memory is held than counted |
| MultiQueue.InternalMultiQueue.UpdateHandle | util/multi_queue.cc:228-249 | the access is counted, the table becomes most recently used and an adjustment is tried; the same if and only if, on the touched tables |

## Left out

- A memtable flush interleaved in a running compaction: compactions are atomic steps. So is the compaction that still installs its result after such a flush has failed.
- Compaction scores, seek counts, grandparent overlap and `ShouldStopBefore`: the choice of a compaction and the split points are arbitrary. The stored value of `compact_pointer_` is a parameter.
- DoCompactionWork: does not say where the outputs are cut, because any cut is proved harmless; unparsable internal keys and I/O errors are not modelled.
- Reading corrupted entries in `DBIter` and `Version::Get`: entries are well formed.
- DBIter.constructor: read sampling (`RecordReadSample`) is not modelled.
- SortNewestFirst: stands for `std::sort`, whose algorithm is not modelled.
- Merging children that share an internal key: the source's callers never have them, and the statements are for distinct keys.
- Signed 32-bit arithmetic on file indexes in `FindFile` and on batch counts; counts themselves wrap at 2^32.
- DecodeEntry: the sum of the two lengths is not wrapped at 2^32; blocks are below that size.
- Reading a log from a non-zero initial offset or without checksums: recovery does neither.
- Failing log appends and file reads: a failed append in `WritePath` leaves no record; what the bytes of a partial one do is stated on the file, in `CrashPrefix` and `Durability.TornAppendLoses`.
- A null batch absorbed into another writer's group: its writer finishes with the group and no memtable switch takes place for it.
- SetSequence: sequence numbers are 64-bit here and unbounded in `WritePath`, not packed into 56 bits.
- Weak memory order in the skip list: single stores and loads interleave in any order of the threads, but are not reordered within one.
- SkipList.Insert: the memory a new node is made of is arbitrary; the arena is not modelled.
- Skip list and memtable on bytes: the list holds keys of an abstract order, the memtable of `Store` is a set of entries.
- Compressed blocks: compression is the identity. The footer, meta-index block and handle encodings of a table are not modelled.
- FilterBlockBuilder.AddKey: pending keys are a list of keys, not one flattened string with start offsets.
- InitLoadFilter: waiting for a background load is not modelled; a load either succeeds or fails.
- BloomHash: the hash is an arbitrary function of the key; the fixed seed is part of it.
- UnmaskMask: would hold of any constant; `kMaskDelta`, block sizes, record tags and magic numbers are taken over as they are.
- The number of probes and of bits per key is computed on integers and reals, not on doubles.
- Sharding, destructors and value pointers of the cache; `hash & (length - 1)` is the remainder by the number of buckets.
- UpdateHandle: the access count changes under the queue's lock, not before it is taken; the filter test that follows is `FilterBlock.FilterBlockReader.KeyMayMatch`.
- MultiQueue's `Release` and `GoBackToInitFilter`: they move units without moving the table, so queue placement is stated for the other operations only.
- `Container`, `MultiContainer`, `GetAdjustMemory`, `SSTableWorth` and the learned models.
- The contents of the CURRENT file and file deletion: making a manifest current either happens or fails without effect.
- The table a file record names: `ManifestFiles` takes the tables of a version from the decoded number, size and keys by an arbitrary function. Compaction pointers are decoded and not used.
- Reopen: continues a reused manifest at a whole record; what a torn end does to it is stated in `ReusedManifests`.
- LogAndApply: a log number outside the range the source asserts is excluded; level scores set by `Finalize` are not modelled. The bytes of an append that failed halfway are not in `file`; after any failure `Database` makes no further call.
- MergeInputs: every input file is a child of the merging iterator, also on the sorted levels, where the source chains them in one two-level iterator.
- Reopened: what a reader makes of the bytes that follow a torn fragment completed by accident, with a good checksum, is not stated beyond the instance `Accident`.
- BuildAndGet: block contents are rows, not bytes; the byte form of a block is `BlockIter.RoundTrip`.
- `RepairDB`, environments, loggers, C bindings, benchmarks and reporting.
