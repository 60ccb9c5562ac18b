# A Dafny model of LevelDB and nanopb

The application ships two libraries in source form, LevelDB and nanopb. This project models their
logic and proves what they are for: that LevelDB, spread over memtables and seven levels of files,
behaves like a map with snapshots, survives crashes and reads back what it wrote; and that nanopb
decodes what it encodes. `dafny verify dfyconfig.toml` checks all of it.

## The database

An internal key is a user key with a sequence number and a kind (`InternalKeys`). User keys are
ranks in the order of the user's comparator, which is all the database core ever asks of them. A
file is a sorted run of entries with a number, a version is seven levels of files (`Versions`).
`ReadAt` says what a read at a snapshot means: the newest entry it sees, and a deletion is not found.

- `Versions`, `Database`: lookups find exactly that entry.
- `Inputs`, `Selection`: what a compaction takes as its inputs.
- `VersionBuilder`, `Manifests`, `EditFormat`: version edits, applied and replayed, the descriptor log of
  a run, and edits as bytes.
- `Compaction`, `Install`, `Meaning`: the drop rules, the installed result, and what it means for reads.
- `Database`, `Refinement`: the database as a state machine whose steps are a batch of writes, a
  memtable switch, a flush, a trivial move, a compaction, and a snapshot taken or released. Every
  run keeps the invariant. Every run in which each compaction is harmless (see below) refines a map
  with snapshots.
- `Scans`: the iterators of a database put together; a scan at a snapshot shows exactly the items of
  that map, in key order.

One property that one would like to have is false of the code. `SetupOtherInputs` adds boundary files
for `level` only, not for `level + 1`. A file left behind there can hold older entries of a user key
whose deletion the compaction drops at its base level: the compaction uncovers a value. `Resurrection`
gives a concrete run from an empty database and a legal compaction after it that makes a deleted value
readable again. `Meaning.CompactionPreservesReads` says exactly when this happens, in terms of the inputs
and the files left behind before the compaction. `Refinement.CompactionRefinesIff` says it of the whole
database: all reads stay as they were if and only if the compaction is harmless, that is, every value
that it uncovers lies behind an entry of a memtable. `Straddling` shows that nothing is uncovered as long
as no compaction is held back by an older snapshot: then a user key keeps one entry below level 0 and
never lies in two files of a level. The comment on `AddBoundaryInputs` (db/version_set.cc:1364-1377)
speaks of reads at one level only; the model follows the code.

A second one is false as well: decoding a version edit inverts encoding only if the object decoded
into has no compaction pointers, since `Clear()` leaves them (`EditFormat.DecodeInvertsEncode`). `Recover`
uses a new object for each record, so it is not affected.

A third holds on a condition: replaying a descriptor log into one builder gives what saving after each
edit gave if and only if no edit adds a file number that is listed at that level just before it
(`VersionBuilder.ReplayIsStepwise`); a number that is gone may come back. `Manifests` shows that no step
of the database logs an edit that breaks this, so that Recover rebuilds the version of every run.

## Iterators

`DbIter`, `Merger`, `TwoLevel` and `BlockIters` model the four bidirectional iterators as classes with
the fields of the source. Each is proved to be one cursor over one sorted sequence, for every move and
every change of direction.

## Bytes

- `Coding`: fixed and variable width numbers, strings with their length in front.
- `LogFormat`, `LogWriter`, `LogReader`: the log, with its blocks, trailers, fragments and checksums, for
  any checksum function.
- `WriteBatches`, `Recovery`: write batches, and the replay of a log that was cut off at any byte.
- `BlockFormat`, `BlockBuilders`, `BlockIters`: blocks with shared prefixes and restart points.
- `Bloom`, `Filters`: filter blocks, for any hash function.
- `Separators`, `Tables`, `TableBuilders`, `TwoLevel`: tables, with short index keys in place of whole ones.

## Concurrency and shared state

- `GroupCommit`, `CommitSafety`: the writer queue as a state machine. A step is what one thread does
  between two points where it holds or drops the mutex, or one write to the log or the memtable, so
  writers arrive and readers look while a group is half done. `CommitProgress` shows that it is never
  stuck.
- `SkipLists`: a search loads each pointer at some moment of a run of the writer, no earlier than the
  one before; the writer makes one store at a time.
- `HandleTables`, `Cache`: one shard of the LRU cache. Each method is proved against a function of the
  state, and the invariant is proved of the functions.

## nanopb

`NanopbFormat` has descriptors of static fields (required, optional, repeated; numbers of all widths,
bytes, strings, submessages), their values, and the bytes of a message. `NanopbEncode` is the encoder
with its two passes, `NanopbRead` the decoder, which computes `NanopbDecode` on any bytes, and
`NanopbRoundTrip` puts them together. `NanopbOrder` has fields in any order, more than once, and with
unknown ones between them.

## How to read the contracts

Methods carry ghost parameters that say what is known of their input (which records a file holds,
which entries a block was built from). Where the source accepts any bytes the method does too, and the
contract is an implication. Oracles stand for decisions that do not affect results: when a memtable, a
compaction output or a block is full, which heights a skip list draws, how large a block is.

## Model

| member | source | states |
|---|---|---|
| InternalKeys.NewestExists | ITISRequest/Pods/leveldb-library/db/db_impl.cc:1100-1145 | a user key has a newest entry for a snapshot as soon as it has any entry the snapshot sees, so ReadAt is defined by it |
| InternalKeys.LowerBoundSplits | ITISRequest/Pods/leveldb-library/db/skiplist.h:260-281 | a seek splits a sorted run: what is before the place found is smaller than the key, and nothing from there on is |
| InternalKeys.RunGetIsNewest | ITISRequest/Pods/leveldb-library/db/memtable.cc:100-134 | a lookup in one sorted run (memtable or table) finds exactly the newest entry that the snapshot sees |
| Versions.FindFile | ITISRequest/Pods/leveldb-library/db/version_set.cc:88-106 | binary search: the first file whose largest key is at or after the key |
| Versions.SomeFileOverlapsRange | ITISRequest/Pods/leveldb-library/db/version_set.cc:122-157 | true exactly when a file has a user key in the range, open ends included, on level 0 and on sorted levels |
| Versions.LargestIncreases | ITISRequest/Pods/leveldb-library/db/version_set.cc:88-106 | in a disjoint level the largest keys increase, which is what the binary search relies on |
| Versions.SortIsNewestFirst | ITISRequest/Pods/leveldb-library/db/version_set.cc:278-280 | sorting by falling file number is a permutation of the files, as a multiset |
| Versions.FilesAround | ITISRequest/Pods/leveldb-library/db/version_set.cc:326-358 | exactly the level-0 files whose range holds the user key; no other file has an entry for it |
| Versions.LevelZeroGet | ITISRequest/Pods/leveldb-library/db/version_set.cc:326-358 | the newest-first scan of level 0 finds the newest visible entry of the whole level |
| Versions.LevelGet | ITISRequest/Pods/leveldb-library/db/version_set.cc:359-378 | one binary-searched file holds the newest visible entry of a deeper level, if there is one |
| Versions.SearchInOrder | ITISRequest/Pods/leveldb-library/db/version_set.cc:380-421 | the files searched in turn: the newest visible entry of the first file that has one, and the files before it have none (that this is the newest of all is LevelZeroGet) |
| Versions.Get | ITISRequest/Pods/leveldb-library/db/version_set.cc:326-421 | Version::Get returns exactly the newest entry at or below the snapshot among all entries of all levels, with a deletion giving NotFound |
| Inputs.OverlappingMembers | ITISRequest/Pods/leveldb-library/db/version_set.cc:519-559 | the files gathered for a range are exactly those that touch it |
| Inputs.GetOverlappingInputs | ITISRequest/Pods/leveldb-library/db/version_set.cc:519-559 | with its restarts on level 0 the loop ends and returns exactly the files that overlap the least range closed under overlap; on other levels exactly the files that overlap the range |
| Inputs.OverlappingIsSlice | ITISRequest/Pods/leveldb-library/db/version_set.cc:519-559 | on a sorted level the overlapping files are one contiguous run |
| Inputs.FindLargestKey | ITISRequest/Pods/leveldb-library/db/version_set.cc:1326-1340 | the largest key of a list of files; none exactly for the empty list |
| Inputs.FindSmallestBoundaryFile | ITISRequest/Pods/leveldb-library/db/version_set.cc:1344-1362 | the boundary file with the smallest key: it starts with the user key the given key ends with, and after it |
| Inputs.ChainGrows | ITISRequest/Pods/leveldb-library/db/version_set.cc:1378-1401 | each boundary file found ends past the one before, so the loop of AddBoundaryInputs ends |
| Inputs.AddBoundaryInputs | ITISRequest/Pods/leveldb-library/db/version_set.cc:1378-1401 | the inputs with their whole chain of boundary files behind them, and nothing else |
| Inputs.ChainExtendsSlice | ITISRequest/Pods/leveldb-library/db/version_set.cc:1378-1401 | boundary files extend a contiguous run of a level to a contiguous run |
| Selection.GetRange | ITISRequest/Pods/leveldb-library/db/version_set.cc:1205-1224 | the smallest and the largest internal key of the inputs |
| Selection.PickAfterPointer | ITISRequest/Pods/leveldb-library/db/version_set.cc:1270-1322 | the first file that ends past the compaction pointer, or the first file of the level when none does, with what PickFile adds to it; the result is a legal choice of inputs |
| Selection.PickFile | ITISRequest/Pods/leveldb-library/db/version_set.cc:1306-1322 | the file picked is among the inputs: alone below level 0, and at level 0 with exactly what GetOverlappingInputs gives for its range |
| Selection.CompactRange | ITISRequest/Pods/leveldb-library/db/version_set.cc:1464-1495 | nothing exactly when no file overlaps the range; otherwise what GetOverlappingInputs gives, below level 0 cut after the first file with which the limit is reached, and not before |
| Selection.NothingOverlaps | ITISRequest/Pods/leveldb-library/db/version_set.cc:1466-1470 | the inputs gathered for a range are empty exactly when no file overlaps it, on level 0 as well, where the range is widened |
| Selection.GrowInputs | ITISRequest/Pods/leveldb-library/db/version_set.cc:1407-1411 | boundary files added at `level`, then exactly the files of `level + 1` that overlap the range of all of them |
| Selection.SetupOtherInputs | ITISRequest/Pods/leveldb-library/db/version_set.cc:1403-1449 | exactly which files of both levels are selected, decision by decision: boundary files at `level`, overlap at `level + 1`, and the grown inputs if and only if they are more, stay below the size limit and pull in no more files of `level + 1` |
| Selection.RegrownKeepsNext | ITISRequest/Pods/leveldb-library/db/version_set.cc:1416-1449 | growing the inputs of `level` leaves the very same files of `level + 1`, although only their number is compared, and keeps the first inputs |
| Selection.ClosedLeavesNothingOlder | ITISRequest/Pods/leveldb-library/db/version_set.cc:519-559 | the files outside a level-0 range that no file sticks out of share no user key with those inside |
| Selection.GrownIsClosed | ITISRequest/Pods/leveldb-library/db/version_set.cc:1366-1401 | after AddBoundaryInputs no file left at that level has older entries for a user key of the inputs, on level 0 and on sorted levels |
| Selection.OutsideRunIsNewer | ITISRequest/Pods/leveldb-library/db/version_set.cc:1366-1373 | a file of the level outside a closed run only has newer entries for the user keys of the run |
| Selection.SelectedIsValid | ITISRequest/Pods/leveldb-library/db/version_set.cc:1403-1462 | whatever SetupOtherInputs selects is valid: nothing older stays at `level`, the next level is covered, and what stays there is apart from the outputs |
| VersionBuilder.UpperBound | ITISRequest/Pods/leveldb-library/db/version_set.cc:708-716 | std::upper_bound in the base files: where an added file goes |
| VersionBuilder.Builder.Apply | ITISRequest/Pods/leveldb-library/db/version_set.cc:650-692 | one edit applied in place: the state of each level becomes ApplyToLevel of the old one |
| VersionBuilder.Builder.SaveTo | ITISRequest/Pods/leveldb-library/db/version_set.cc:695-739 | the merged and filtered file lists, level by level, equal SaveLevel of base and state |
| VersionBuilder.Builder.MaybeAddFile | ITISRequest/Pods/leveldb-library/db/version_set.cc:741-754 | a file is appended unless its number was deleted |
| VersionBuilder.SaveLevelIs | ITISRequest/Pods/leveldb-library/db/version_set.cc:695-754 | the saved list holds exactly the base and added files that were not deleted, and it has each once, in order, if and only if no added file that stays was in the base already |
| VersionBuilder.ApplyToLevelIs | ITISRequest/Pods/leveldb-library/db/version_set.cc:650-692 | what any edit does to the deleted numbers and added files of a level, as sets: files added again are not added twice and are no longer deleted |
| VersionBuilder.OrderedListsAgree | ITISRequest/Pods/leveldb-library/db/version_set.cc:593-606 | two lists in the order of the files with the same members are the same list |
| VersionBuilder.SaveThenEdit | ITISRequest/Pods/leveldb-library/db/version_set.cc:801-884 | applying one more edit to the builder gives what saving and then applying it to the saved list gives, if and only if the edit adds no number that is listed |
| VersionBuilder.ReplayIsStepwise | ITISRequest/Pods/leveldb-library/db/version_set.cc:886-1011 | Recover: over an empty base one save gives what LogAndApply gave after each edit, at every moment of the log, if and only if no edit adds a number that is listed just before it; a number that is gone may come back |
| VersionBuilder.ReplayOverBase | ITISRequest/Pods/leveldb-library/db/version_set.cc:650-754 | the same over any base whose numbers no edit adds again |
| VersionBuilder.AddingTwice | ITISRequest/Pods/leveldb-library/db/version_set.cc:650-754 | an edit that adds a file given twice to Recover: stepwise the file is listed twice, replayed it is listed once |
| VersionBuilder.SnapshotRebuilds | ITISRequest/Pods/leveldb-library/db/version_set.cc:1088-1116 | the files of the WriteSnapshot edit, replayed into an empty version, are every level as it was |
| VersionBuilder.ManifestRebuilds | ITISRequest/Pods/leveldb-library/db/version_set.cc:886-1011 | a snapshot record and any edits after it, none of which adds a listed number: Recover rebuilds exactly the level that LogAndApply had made |
| EditFormat.VersionEdit.EncodeTo | ITISRequest/Pods/leveldb-library/db/version_edit.cc:41-85 | appends the records of the edit, in order, with the deleted files as their std::set iterates them; decoding those bytes into a new object gives the edit back |
| EditFormat.VersionEdit.DecodeFrom | ITISRequest/Pods/leveldb-library/db/version_edit.cc:107-205 | on any bytes, the result and the edit are those of reading record after record, from what Clear() leaves |
| EditFormat.BodyRoundTrip | ITISRequest/Pods/leveldb-library/db/version_edit.cc:87-194 | each record is read back, whatever follows it |
| EditFormat.RecordsRoundTrip | ITISRequest/Pods/leveldb-library/db/version_edit.cc:107-205 | any list of writable records is read back in order and without error |
| EditFormat.DecodeInvertsEncode | ITISRequest/Pods/leveldb-library/db/version_edit.cc:26-39 | decoding what was encoded gives the edit back if and only if the object decoded into had no compaction pointers, because Clear() does not clear them; otherwise they come first |
| Compaction.Worker.IsBaseLevelForKey | ITISRequest/Pods/leveldb-library/db/version_set.cc:1533-1552 | the moving cursors give the answer of a full scan of all deeper levels, for user keys that do not fall |
| Compaction.Worker.ShouldDrop | ITISRequest/Pods/leveldb-library/db/db_impl.cc:922-960 | the running state of the loop decides exactly the two drop rules: hidden by a newer entry the oldest snapshot sees, or a deletion at its base level |
| Compaction.Worker.DoCompactionWork | ITISRequest/Pods/leveldb-library/db/db_impl.cc:890-999 | the outputs, cut anywhere, concatenate to exactly the entries of the sorted input that neither rule drops |
| Compaction.KeptMembers | ITISRequest/Pods/leveldb-library/db/db_impl.cc:922-960 | which entries of a run are kept, as a set |
| Compaction.KeptIs | ITISRequest/Pods/leveldb-library/db/db_impl.cc:922-960 | what is kept of a sorted run is what the two drop rules say of its entries, whatever its order of processing |
| Install.EditedLevelIs | ITISRequest/Pods/leveldb-library/db/db_impl.cc:860-876 | a level after the edit of a job: the files that were not deleted and the files that were added |
| Install.JobMoves | ITISRequest/Pods/leveldb-library/db/db_impl.cc:860-876 | installing a job removes its inputs from both levels, adds its outputs below, and touches nothing else |
| Install.AgeOrderKept | ITISRequest/Pods/leveldb-library/db/db_impl.cc:860-876 | after a sound job, shallower entries of a user key are still newer than deeper ones |
| Install.JobKeepsValid | ITISRequest/Pods/leveldb-library/db/db_impl.cc:860-876 | a sound job keeps the whole invariant of a version: order, disjointness, age order, unique numbers |
| Meaning.EntriesAfter | ITISRequest/Pods/leveldb-library/db/db_impl.cc:890-999 | the version loses exactly the entries the job drops and gains none |
| Meaning.ReadSurvives | ITISRequest/Pods/leveldb-library/db/db_impl.cc:922-960 | if nothing older is uncovered, every read at or above the oldest snapshot is unchanged |
| Meaning.UncoveredReadChanges | ITISRequest/Pods/leveldb-library/db/db_impl.cc:949-959 | if something is uncovered, the read at the oldest snapshot itself changes |
| Meaning.CompactionPreservesReads | ITISRequest/Pods/leveldb-library/db/db_impl.cc:890-999 | for all user keys and all snapshots at or above the oldest: every read is preserved if and only if no dropped deletion has an older value in a file of `level + 1` that was left behind |
| Resurrection.InputsArePicked | ITISRequest/Pods/leveldb-library/db/version_set.cc:1403-1462 | the concrete inputs of the counterexample are what SetupOtherInputs picks |
| Resurrection.DeletedValueComesBack | ITISRequest/Pods/leveldb-library/db/version_set.cc:1407-1422 | a concrete run from an empty database, in which nothing is uncovered, and one more legal compaction after which a deleted user key is found again, because boundary files are not added at `level + 1` |
| Straddling.NothingUncovered | ITISRequest/Pods/leveldb-library/db/version_set.cc:1403-1462 | where no user key lies in two files of a deeper level, a compaction uncovers nothing |
| Straddling.JobKeepsKeysApart | ITISRequest/Pods/leveldb-library/db/db_impl.cc:922-960 | a compaction that no older snapshot holds back keeps it so |
| Straddling.UnpinnedStep | ITISRequest/Pods/leveldb-library/db/db_impl.cc:880-888 | so does every step, and none needs a further condition |
| Straddling.EveryUnpinnedRunIsAMap | ITISRequest/Pods/leveldb-library/db/db_impl.cc:880-999 | over every run whose compactions are not held back by an older snapshot, reads are those of a map with snapshots, with no further condition |
| Database.Get | ITISRequest/Pods/leveldb-library/db/db_impl.cc:1100-1145 | memtable, immutable memtable, then version: exactly the newest entry of all three at the snapshot |
| Database.PickLevelForMemTableOutput | ITISRequest/Pods/leveldb-library/db/version_set.cc:491-516 | the level chosen for a flushed memtable may take it: no shallower level overlaps it |
| Refinement.WriteRefines | ITISRequest/Pods/leveldb-library/db/db_impl.cc:1185-1256 | a batch of writes does to all live snapshots what it does to the map |
| Refinement.ReadLater | ITISRequest/Pods/leveldb-library/db/db_impl.cc:1100-1145 | entries with larger sequence numbers do not change reads at smaller ones |
| Refinement.FlushKeepsInvariant | ITISRequest/Pods/leveldb-library/db/db_impl.cc:491-566 | a flush to the picked level keeps the invariant of memory and disk |
| Refinement.FlushRefines | ITISRequest/Pods/leveldb-library/db/db_impl.cc:535-566 | a flush changes no read |
| Refinement.MoveIsSound | ITISRequest/Pods/leveldb-library/db/db_impl.cc:718-735 | a trivial move is a sound job |
| Refinement.CompactIsSound | ITISRequest/Pods/leveldb-library/db/db_impl.cc:878-1036 | a compaction, from picked inputs to installed outputs, is a sound job that follows the drop rules |
| Refinement.JobKeepsInvariant | ITISRequest/Pods/leveldb-library/db/db_impl.cc:860-876 | any sound job keeps the invariant of memory and disk, level-0 age order included |
| Refinement.StepKeepsInvariant | ITISRequest/Pods/leveldb-library/db/db_impl.cc:688-767 | every step keeps the whole invariant of memory and disk, a compaction that uncovers a value as well |
| Refinement.EveryRunKeepsInvariant | ITISRequest/Pods/leveldb-library/db/db_impl.cc:688-767 | every run from an empty database, without any condition on its compactions, ends in a state that satisfies the invariant |
| Refinement.CompactionRefinesIff | ITISRequest/Pods/leveldb-library/db/db_impl.cc:890-999 | the exact condition: a compaction whose oldest snapshot is live leaves all reads of the whole database, now and at every live snapshot, as they were, if and only if it is harmless |
| Refinement.StepRefines | ITISRequest/Pods/leveldb-library/db/db_impl.cc:688-767 | every step of the database (write, switch, flush, move, compaction, snapshot taken or released) is a step of the map with snapshots; for a compaction on the condition (Harmless) that every value it uncovers lies behind an entry of a memtable |
| Refinement.RunRefines | ITISRequest/Pods/leveldb-library/db/db_impl.cc:688-767 | so is every run on that condition, from any state that satisfies the invariant and stands for a map |
| Refinement.EveryRunIsAMap | ITISRequest/Pods/leveldb-library/db/db_impl.cc:1100-1145 | over every run from an empty database in which every compaction is harmless, the invariant holds and every live snapshot reads the map as it was when it was taken |
| Scans.ChildrenMerge | ITISRequest/Pods/leveldb-library/db/db_impl.cc:1068-1078 | the memtables, the files of level 0 and the deeper levels, each a run, have no entry in common and have a merge |
| Scans.MergeIsDatabase | ITISRequest/Pods/leveldb-library/db/db_impl.cc:1062-1087 | the merge of the children of the internal iterator holds exactly the entries of the database |
| Scans.LevelRunIsSorted | ITISRequest/Pods/leveldb-library/db/version_set.cc:238-245 | the files of a deeper level one after the other are one sorted run of its entries |
| Scans.ScanIsTheMap | ITISRequest/Pods/leveldb-library/db/db_impl.cc:1147-1157 | what the iterator shows at a live snapshot are exactly the items of the map as it was then, each once, in the order of the keys |
| Scans.EveryScanIsTheMap | ITISRequest/Pods/leveldb-library/db/db_impl.cc:1147-1157 | the same over every run from an empty database in which every compaction is harmless |
| DbIter.ShownIsFound | ITISRequest/Pods/leveldb-library/db/db_iter.cc:168-198 | an entry is shown by the iterator exactly when a lookup at the snapshot finds it |
| DbIter.ShownInOrder | ITISRequest/Pods/leveldb-library/db/db_iter.cc:141-299 | later shown entries have later user keys |
| DbIter.DBIter.Key | ITISRequest/Pods/leveldb-library/db/db_iter.cc:63-66 | in both directions, the user key of the shown entry the cursor stands on |
| DbIter.DBIter.CurrentValue | ITISRequest/Pods/leveldb-library/db/db_iter.cc:67-70 | in both directions, its value, saved or not |
| DbIter.DBIter.FindNextUserEntry | ITISRequest/Pods/leveldb-library/db/db_iter.cc:168-198 | stops at the first shown entry from the position on, or at the end |
| DbIter.DBIter.FindPrevUserEntry | ITISRequest/Pods/leveldb-library/db/db_iter.cc:227-267 | stops at the last shown entry before the position, or is invalid |
| DbIter.DBIter.Next | ITISRequest/Pods/leveldb-library/db/db_iter.cc:141-166 | the next shown entry, after a change of direction as well |
| DbIter.DBIter.Prev | ITISRequest/Pods/leveldb-library/db/db_iter.cc:200-225 | the shown entry before, after a change of direction as well |
| DbIter.DBIter.Seek | ITISRequest/Pods/leveldb-library/db/db_iter.cc:269-281 | the first shown user key at or after the target |
| DbIter.DBIter.SeekToFirst | ITISRequest/Pods/leveldb-library/db/db_iter.cc:283-292 | the first shown entry, or invalid |
| DbIter.DBIter.SeekToLast | ITISRequest/Pods/leveldb-library/db/db_iter.cc:294-299 | the last shown entry, or invalid |
| Manifests.StepIsLogged | ITISRequest/Pods/leveldb-library/db/version_set.cc:801-884 | every step logs an edit that adds no number listed at its level and whose files are new or known under their numbers, so that the log keeps describing the version |
| Manifests.EveryRunIsRecovered | ITISRequest/Pods/leveldb-library/db/version_set.cc:886-1011 | after every run from an empty database, without any condition on its compactions, the edits it logged, replayed by Recover into one builder over an empty version, rebuild exactly the version of the database, level by level |
| Merger.MergingIterator.KeyValue | ITISRequest/Pods/leveldb-library/table/merger.cc:117-125 | the entry of the sorted merge at the cursor |
| Merger.MergingIterator.Seek | ITISRequest/Pods/leveldb-library/table/merger.cc:45-51 | the first entry of the merge at or after the target |
| Merger.MergingIterator.SeekToFirst | ITISRequest/Pods/leveldb-library/table/merger.cc:31-37 | the first entry of the merge |
| Merger.MergingIterator.SeekToLast | ITISRequest/Pods/leveldb-library/table/merger.cc:38-44 | the last entry of the merge |
| Merger.MergingIterator.Next | ITISRequest/Pods/leveldb-library/table/merger.cc:53-80 | the next entry of the merge, with the other children repositioned after a change of direction |
| Merger.MergingIterator.Prev | ITISRequest/Pods/leveldb-library/table/merger.cc:82-108 | the entry of the merge before, with the other children repositioned after a change of direction |
| Merger.MergingIterator.FindSmallest | ITISRequest/Pods/leveldb-library/table/merger.cc:148-161 | with every child at the cut, the smallest head is the entry there |
| Merger.MergingIterator.FindLargest | ITISRequest/Pods/leveldb-library/table/merger.cc:163-176 | with every child before the cut, the largest is the entry before it |
| Merger.MergingIterator.HeadAtCut | ITISRequest/Pods/leveldb-library/table/merger.cc:148-161 | the entry at a cut is the head of some child |
| Merger.MergingIterator.LastBeforeCut | ITISRequest/Pods/leveldb-library/table/merger.cc:163-176 | the entry before a cut is the last of some child |
| Coding.Fixed32RoundTrip | ITISRequest/Pods/leveldb-library/util/coding.cc:9-18 | a fixed 32-bit word is read back |
| Coding.Fixed64RoundTrip | ITISRequest/Pods/leveldb-library/util/coding.cc:20-33 | a fixed 64-bit word is read back, whatever follows |
| Coding.EncodeVarint32IsVarint | ITISRequest/Pods/leveldb-library/util/coding.cc:47-73 | the five branches write the same as the loop for 64 bits |
| Coding.VarintRoundTrip | ITISRequest/Pods/leveldb-library/util/coding.cc:81-90 | a number of at most n groups of seven bits is read back from what was written |
| Coding.DecodeVarint32 | ITISRequest/Pods/leveldb-library/util/coding.cc:112-128 | the loop computes, on any bytes, the number in at most five bytes modulo 2^32 |
| Coding.PrefixedRoundTrip | ITISRequest/Pods/leveldb-library/util/coding.cc:181-190 | a string with its length in front is read back |
| LogFormat.MaskRoundTrip | ITISRequest/Pods/leveldb-library/util/crc32c.h:29-40 | Unmask inverts Mask |
| LogFormat.FragmentFits | ITISRequest/Pods/leveldb-library/db/log_writer.cc:34-80 | the chunks of any record fit their blocks, wherever it starts |
| LogFormat.LayoutConcat | ITISRequest/Pods/leveldb-library/db/log_writer.cc:34-80 | chunks laid out one list after the other |
| LogFormat.LogIsLayout | ITISRequest/Pods/leveldb-library/db/log_writer.cc:34-80 | the bytes of a log are the layout of the chunks of its records |
| LogFormat.AppendRecord | ITISRequest/Pods/leveldb-library/db/log_writer.cc:34-80 | adding a record to a log appends its bytes |
| LogWriter.Writer.AddRecord | ITISRequest/Pods/leveldb-library/db/log_writer.cc:34-80 | appends exactly the chunks of the record, block trailers included, for new and reopened files |
| LogWriter.Writer.EmitPhysicalRecord | ITISRequest/Pods/leveldb-library/db/log_writer.cc:82-110 | one chunk with its masked checksum |
| LogReader.Reader.ReadPhysicalRecord | ITISRequest/Pods/leveldb-library/db/log_reader.cc:189-271 | on a log cut off anywhere: the next chunk if it is whole, and the end otherwise, without a report |
| LogReader.NextPiece | ITISRequest/Pods/leveldb-library/db/log_reader.cc:56-174 | the next chunk is the next piece of the record being put together |
| LogReader.Reader.ReadRecord | ITISRequest/Pods/leveldb-library/db/log_reader.cc:56-174 | on a log cut off anywhere: the next record exactly if it is wholly inside, and no corruption reported |
| LogReader.ReadAll | ITISRequest/Pods/leveldb-library/db/log_reader.cc:56-174 | for every list of records and every cut: exactly the records wholly inside, in order, and no report |
| LogReader.AllRecordsWhole | ITISRequest/Pods/leveldb-library/db/log_reader.cc:56-174 | without a cut those are all records |
| LogReader.WholeRecordsArePrefix | ITISRequest/Pods/leveldb-library/db/log_reader.cc:56-174 | with a cut they are a prefix |
| WriteBatches.WriteBatch.Push | ITISRequest/Pods/leveldb-library/db/write_batch.cc:98-109 | Put and Delete: the batch holds one operation more and counts it |
| WriteBatches.WriteBatch.Append | ITISRequest/Pods/leveldb-library/db/write_batch.cc:144-148 | the operations of the other batch after those of this one |
| WriteBatches.WriteBatch.SetSequence | ITISRequest/Pods/leveldb-library/db/write_batch.cc:94-96 | only the sequence number changes |
| WriteBatches.OpsRoundTrip | ITISRequest/Pods/leveldb-library/db/write_batch.cc:42-80 | the operations of a batch are read back |
| WriteBatches.InsertInto | ITISRequest/Pods/leveldb-library/db/write_batch.cc:132-137 | on any bytes: the operations up to the first malformed one are added with consecutive numbers, and success means well-formed with the right count |
| WriteBatches.AddsConcat | ITISRequest/Pods/leveldb-library/db/write_batch.cc:121-128 | numbering a concatenation is numbering its parts one after the other |
| Recovery.RecoverLogFile | ITISRequest/Pods/leveldb-library/db/db_impl.cc:418-453 | replaying a log cut off at any byte inserts exactly the operations of the batches wholly inside, in order over all tables written on the way, with the last sequence number, and succeeds |
| Recovery.WholeBatches | ITISRequest/Pods/leveldb-library/db/db_impl.cc:418-453 | what survives a cut is a prefix of the batches |
| Recovery.SameCut | ITISRequest/Pods/leveldb-library/db/db_impl.cc:418-453 | the batches that survive are those whose records the log reader returns |
| Recovery.BatchRoundTrip | ITISRequest/Pods/leveldb-library/db/db_impl.cc:419-437 | a well-formed batch is replayed whole, and Sequence + Count - 1 does not wrap |
| GroupCommit.BuildBatchGroup | ITISRequest/Pods/leveldb-library/db/db_impl.cc:1260-1306 | the group is a prefix of the queue with its operations in order, without a sync writer behind a non-sync one, within the size limit, and ends only for a stated reason |
| CommitSafety.GroupIsWellFormed | ITISRequest/Pods/leveldb-library/db/db_impl.cc:1260-1306 | the batch of every reachable group can be written |
| CommitSafety.StepIsSafe | ITISRequest/Pods/leveldb-library/db/db_impl.cc:1185-1256 | every step of every thread keeps the invariant of queue, numbers, memtable, log and answers |
| CommitSafety.EveryRunIsSafe | ITISRequest/Pods/leveldb-library/db/db_impl.cc:1185-1256 | over every interleaving, from the start |
| CommitSafety.WritesCompleteOnceInOrder | ITISRequest/Pods/leveldb-library/db/db_impl.cc:1239-1253 | in every run the writers that came are those of the commits, in order, and then those that wait; each is answered once, with the status of its commit |
| CommitProgress.FirstWriterGoesOn | ITISRequest/Pods/leveldb-library/db/db_impl.cc:1185-1256 | in every reachable state in which writers wait, a step of the first one that is no failure is enabled, and it brings the end nearer: fewer writers, a later phase, or fewer entries left to insert |
| CommitProgress.EveryWriterIsAnswered | ITISRequest/Pods/leveldb-library/db/db_impl.cc:1185-1256 | from every reachable state there is a run of such steps, with no new writers, after which every writer that waited has its answer, success unless something had failed before |
| CommitSafety.NumbersAreConsecutive | ITISRequest/Pods/leveldb-library/db/db_impl.cc:1202-1207 | the operations of all groups have the sequence numbers 1, 2, 3, … in the order the writers came |
| CommitSafety.ReadersSeeWholeCommits | ITISRequest/Pods/leveldb-library/db/db_impl.cc:1209-1236 | at any moment a reader at LastSequence, now or as it was, sees exactly the successful commits up to then, each whole, and nothing of a group being inserted |
| CommitSafety.SyncedWritesSurvive | ITISRequest/Pods/leveldb-library/db/db_impl.cc:1213-1234 | whatever cut a crash makes past the synced bytes, every successful commit with a sync writer is among the batches that recovery restores |
| CommitSafety.RecoveredNumbersAreConsecutive | ITISRequest/Pods/leveldb-library/db/db_impl.cc:418-453 | the recovered entries are numbered 1, 2, 3, … and the largest number found is the last |
| SkipLists.FindGreaterOrEqual | ITISRequest/Pods/leveldb-library/db/skiplist.h:260-281 | with each load at any later moment of a run of the writer: the first node at or after the key as of the last load, and the predecessors |
| SkipLists.FindLessThan | ITISRequest/Pods/leveldb-library/db/skiplist.h:283-302 | in the same setting, the last node before the key |
| SkipLists.NothingMissed | ITISRequest/Pods/leveldb-library/db/skiplist.h:260-281 | a key that was there when the search began is not passed over |
| SkipLists.Load | ITISRequest/Pods/leveldb-library/db/skiplist.h:265-279 | one load of a reader that stands before the key: it moves on before the key, or it has the answer |
| SkipLists.StillStands | ITISRequest/Pods/leveldb-library/db/skiplist.h:265-279 | a reader stands well in every later state, and a level lower |
| SkipLists.LinkingStore | ITISRequest/Pods/leveldb-library/db/skiplist.h:361-367 | the store that links a node at a level keeps every level sorted and a sublist of the one below |
| SkipLists.UnlinkedStore | ITISRequest/Pods/leveldb-library/db/skiplist.h:361-367 | the store into the new node shows nowhere |
| SkipLists.SkipList.Insert | ITISRequest/Pods/leveldb-library/db/skiplist.h:337-368 | each of its stores leaves the list in shape, and at the end each level has the nodes it had, and the new one up to its height |
| HandleTables.HandleTable.FindPointer | ITISRequest/Pods/leveldb-library/util/cache.cc:114-120 | the slot of the key in its chain, or the end if the table has none |
| HandleTables.HandleTable.Insert | ITISRequest/Pods/leveldb-library/util/cache.cc:78-92 | replaces the slot under the same key and reports it, or adds one; the table has at least as many chains as slots, a power of two, and grows exactly when there would be more slots |
| HandleTables.HandleTable.Remove | ITISRequest/Pods/leveldb-library/util/cache.cc:94-102 | removes exactly the slot under the key, if there is one |
| HandleTables.HandleTable.Resize | ITISRequest/Pods/leveldb-library/util/cache.cc:122-146 | the same slots in a table that is large enough |
| HandleTables.Rehashed | ITISRequest/Pods/leveldb-library/util/cache.cc:130-141 | every slot is moved to its new chain, once |
| Cache.RefIsOk | ITISRequest/Pods/leveldb-library/util/cache.cc:217-223 | Ref keeps the invariant: table, lists, reference counts, usage, each deleter run at most once |
| Cache.ReleaseIsOk | ITISRequest/Pods/leveldb-library/util/cache.cc:225-237 | so does giving a reference back, in each of its three cases |
| Cache.EraseIsOk | ITISRequest/Pods/leveldb-library/util/cache.cc:307-316 | so does FinishErase, for entries held by clients and for others |
| Cache.NewIsOk | ITISRequest/Pods/leveldb-library/util/cache.cc:270-292 | so does a new entry, cached or not |
| Cache.EvictsOldest | ITISRequest/Pods/leveldb-library/util/cache.cc:293-300 | eviction deletes the shortest run of the oldest unused entries that makes the others fit, and touches no other |
| Cache.LRUCache.Lookup | ITISRequest/Pods/leveldb-library/util/cache.cc:252-259 | the entry under the key, with one more reference |
| Cache.LRUCache.Release | ITISRequest/Pods/leveldb-library/util/cache.cc:261-264 | the new state is AfterRelease: the deleter runs exactly when the last reference goes |
| Cache.LRUCache.Erase | ITISRequest/Pods/leveldb-library/util/cache.cc:318-321 | the entry under the key leaves the cache, if there is one |
| Cache.LRUCache.Prune | ITISRequest/Pods/leveldb-library/util/cache.cc:323-333 | every unused entry goes |
| Cache.LRUCache.Insert | ITISRequest/Pods/leveldb-library/util/cache.cc:266-303 | the whole new state: the entry added, the one under the same key erased, the oldest unused ones evicted; afterwards the cache fits or the LRU list is empty |
| Cache.LRUCache.MakeRoom | ITISRequest/Pods/leveldb-library/util/cache.cc:293-300 | the loop ends, and every entry it looks for is in the table |
| BlockBuilders.BlockBuilder.Add | ITISRequest/Pods/leveldb-library/table/block_builder.cc:71-106 | one entry more: at a new restart point with its whole key exactly when the last one is `interval` entries back, and otherwise sharing the longest prefix with the key before |
| BlockBuilders.BlockBuilder.CommonPrefix | ITISRequest/Pods/leveldb-library/table/block_builder.cc:78-85 | the longest common prefix |
| BlockBuilders.BlockBuilder.Finish | ITISRequest/Pods/leveldb-library/table/block_builder.cc:62-70 | the bytes are a block that holds exactly the entries added |
| BlockFormat.BytesFrom | ITISRequest/Pods/leveldb-library/table/block_builder.cc:92-99 | from the offset of an entry on, the bytes are those of the entries from there on |
| BlockIters.DecodesItem | ITISRequest/Pods/leveldb-library/table/block.cc:54-74 | an entry is decoded the same on the fast path and on the general one |
| BlockIters.Open | ITISRequest/Pods/leveldb-library/table/block.cc:24-39 | finds the restart array of every block, and refuses what is too short |
| BlockIters.BlockIsReadable | ITISRequest/Pods/leveldb-library/table/block.cc:76-252 | every block that was built can be read: each entry after the one before, and from each restart point |
| BlockIters.Iter.ParseNextKey | ITISRequest/Pods/leveldb-library/table/block.cc:224-251 | moves to the next entry, with its whole key, value and restart index |
| BlockIters.Iter.Next | ITISRequest/Pods/leveldb-library/table/block.cc:137-140 | the next entry, or the end |
| BlockIters.Iter.Prev | ITISRequest/Pods/leveldb-library/table/block.cc:142-161 | the entry before, through the restart points, or invalid at the first |
| BlockIters.Iter.Seek | ITISRequest/Pods/leveldb-library/table/block.cc:163-201 | the first entry at or after the target |
| BlockIters.Iter.FindRegion | ITISRequest/Pods/leveldb-library/table/block.cc:164-189 | the binary search: all keys before the restart point found are smaller than the target, and the next restart point is not |
| BlockIters.Iter.SeekToLast | ITISRequest/Pods/leveldb-library/table/block.cc:208-213 | the last entry |
| BlockIters.Iter.Current | ITISRequest/Pods/leveldb-library/table/block.cc:126-135 | key and value of the entry at the position |
| Bloom.AddKey | ITISRequest/Pods/leveldb-library/util/bloom.cc:43-53 | sets every bit the probes of the key hit, and clears none |
| Bloom.CreateFilter | ITISRequest/Pods/leveldb-library/util/bloom.cc:28-54 | the filter appended was made for each of the keys |
| Bloom.KeyMayMatch | ITISRequest/Pods/leveldb-library/util/bloom.cc:56-80 | true for every key the filter was made for; and true only if all probes hit or the filter has an unknown encoding |
| Bloom.SetBitHas | ITISRequest/Pods/leveldb-library/util/bloom.cc:49-51 | setting a bit sets that bit and keeps the others |
| Filters.FilterBlockBuilder.StartBlock | ITISRequest/Pods/leveldb-library/table/filter_block.cc:21-27 | one filter for every 2 KB up to the block |
| Filters.FilterBlockBuilder.AddKey | ITISRequest/Pods/leveldb-library/table/filter_block.cc:29-33 | the key is remembered with the offset of its block |
| Filters.FilterBlockBuilder.GenerateFilter | ITISRequest/Pods/leveldb-library/table/filter_block.cc:51-75 | the pending keys, cut apart again, are covered by the new filter |
| Filters.FilterBlockBuilder.Finish | ITISRequest/Pods/leveldb-library/table/filter_block.cc:35-49 | every key that was added is covered by the filter of its block |
| Filters.KeyMayMatch | ITISRequest/Pods/leveldb-library/table/filter_block.cc:77-104 | no false negatives: true for every key that was added while its block was built |
| Separators.FindShortestSeparator | ITISRequest/Pods/leveldb-library/util/comparator.cc:29-50 | the start, or a string between start and limit; it shortens exactly where the first difference leaves room |
| Separators.FindShortSuccessor | ITISRequest/Pods/leveldb-library/util/comparator.cc:52-64 | the first byte below 255 raised and the rest cut off; unchanged exactly for a run of 255s |
| Separators.LessAt | ITISRequest/Pods/leveldb-library/util/comparator.cc:25-27 | the first byte that differs decides the order |
| Separators.FindInternalSeparator | ITISRequest/Pods/leveldb-library/db/dbformat.cc:69-86 | not before the start, before the limit, and with the user key of the limit only if it is the start itself |
| Separators.FindInternalSuccessor | ITISRequest/Pods/leveldb-library/db/dbformat.cc:88-101 | not before the key |
| TableBuilders.AddToNewBlock | ITISRequest/Pods/leveldb-library/table/table_builder.cc:94-123 | the index entry written when the next block starts covers its block and precedes all that comes after |
| TableBuilders.TableBuilder.Add | ITISRequest/Pods/leveldb-library/table/table_builder.cc:94-123 | one entry more; blocks, index and filter stay as they should |
| TableBuilders.TableBuilder.Flush | ITISRequest/Pods/leveldb-library/table/table_builder.cc:125-139 | the block is written and its index entry waits for the next key |
| TableBuilders.TableBuilder.Finish | ITISRequest/Pods/leveldb-library/table/table_builder.cc:198-253 | the table holds exactly the entries added, with an index and a filter that are right for them |
| Tables.FirstIsInBlock | ITISRequest/Pods/leveldb-library/table/table.cc:216-244 | the block that the index leads to holds the first entry at or after the key, if that has the user key |
| Tables.InternalGet | ITISRequest/Pods/leveldb-library/table/table.cc:216-244 | what it finds is the first entry at or after the key, and it finds that entry whenever it has the user key asked for, in spite of shortened index keys, block cuts and filters |
| TwoLevel.SeekIsCut | ITISRequest/Pods/leveldb-library/table/two_level_iterator.cc:82-87 | the index and the block it leads to give the place of the key among all the entries |
| TwoLevel.FirstIsAtCut | ITISRequest/Pods/leveldb-library/table/table.cc:216-244 | the place that the iterator seeks to is the entry that InternalGet looks for, and past the end there is none |
| TwoLevel.TwoLevelIterator.Seek | ITISRequest/Pods/leveldb-library/table/two_level_iterator.cc:82-87 | the first of all the entries at or after the key |
| TwoLevel.TwoLevelIterator.SeekToFirst | ITISRequest/Pods/leveldb-library/table/two_level_iterator.cc:89-94 | the first of all the entries |
| TwoLevel.TwoLevelIterator.SeekToLast | ITISRequest/Pods/leveldb-library/table/two_level_iterator.cc:96-101 | the last of all the entries |
| TwoLevel.TwoLevelIterator.Next | ITISRequest/Pods/leveldb-library/table/two_level_iterator.cc:103-107 | the next of all the entries, across blocks |
| TwoLevel.TwoLevelIterator.Prev | ITISRequest/Pods/leveldb-library/table/two_level_iterator.cc:109-113 | the one before, across blocks |
| TwoLevel.TwoLevelIterator.SkipEmptyDataBlocksForward | ITISRequest/Pods/leveldb-library/table/two_level_iterator.cc:115-126 | stands on the entry the position stands for, or is invalid past the end |
| TwoLevel.TwoLevelIterator.SkipEmptyDataBlocksBackward | ITISRequest/Pods/leveldb-library/table/two_level_iterator.cc:128-139 | stands on the last entry before the position, or is invalid before the first |
| TwoLevel.PlaceOf | ITISRequest/Pods/leveldb-library/table/two_level_iterator.cc:115-139 | every entry is at one place in one block |
| NanopbEncode.OStream.Write | ITISRequest/Pods/nanopb/pb_encode.c:103-124 | writes or counts the bytes if there is room, and fails otherwise |
| NanopbEncode.VarintBytes | ITISRequest/Pods/nanopb/pb_encode.c:608-628 | the bytes of the loop are the varint |
| NanopbEncode.OStream.EncodeScalar | ITISRequest/Pods/nanopb/pb_encode.c:769-850 | each number by the encoder of its type |
| NanopbEncode.OStream.EncodeItem | ITISRequest/Pods/nanopb/pb_encode.c:852-899 | each value by the encoder of its type; success means that every bytes value in it fits its storage |
| NanopbEncode.PackedSize | ITISRequest/Pods/nanopb/pb_encode.c:169-189 | the size of a packed array, counted or multiplied |
| NanopbEncode.OStream.EncodeArray | ITISRequest/Pods/nanopb/pb_encode.c:147-236 | arrays packed where the type allows it; success means that the array and all in it fit their storage, so one that is too long is refused |
| NanopbEncode.OStream.EncodeField | ITISRequest/Pods/nanopb/pb_encode.c:341-426 | a field that its storage holds is written in full or refused for lack of room; one that holds bytes or arrays too long for it is refused |
| NanopbEncode.OStream.EncodeSubmessage | ITISRequest/Pods/nanopb/pb_encode.c:717-765 | the second pass writes exactly the bytes the first one counted, so the size never changes between them |
| NanopbEncode.OStream.Encode | ITISRequest/Pods/nanopb/pb_encode.c:528-550 | writes, or counts, exactly the bytes of the message, and succeeds if and only if there is room; for any struct, success means that every bytes value and array fits its storage |
| NanopbEncode.GetEncodedSize | ITISRequest/Pods/nanopb/pb_encode.c:567-576 | the size is that of the bytes |
| NanopbRead.IStream.DecodeVarint32 | ITISRequest/Pods/nanopb/pb_decode.c:187-247 | the loop, with its overflow and sign rules and the bits that it ORs together, on any bytes |
| NanopbRead.IStream.DecodeVarint | ITISRequest/Pods/nanopb/pb_decode.c:255-275 | the loop, modulo 2^64, on any bytes |
| NanopbRead.IStream.DecodeStaticField | ITISRequest/Pods/nanopb/pb_decode.c:406-483 | one field, packed or not, on any bytes |
| NanopbRead.IStream.DecodeItem | ITISRequest/Pods/nanopb/pb_decode.c:1441-1541 | one value, submessages in a substream, on any bytes |
| NanopbRead.IStream.DecodeMessage | ITISRequest/Pods/nanopb/pb_decode.c:928-1076 | the loop over fields, with unknown fields skipped and required fields checked, on any bytes |
| NanopbRead.IStream.SkipField | ITISRequest/Pods/nanopb/pb_decode.c:278-331 | skips exactly one field of any wire type |
| NanopbRead.DecodeBytes | ITISRequest/Pods/nanopb/pb_decode.c:1078-1090 | pb_decode on any bytes: what NanopbDecode.Decode says, on which the round trip is proved |
| NanopbRoundTrip.FindsField | ITISRequest/Pods/nanopb/pb_common.c:78-95 | from wherever the search starts, it finds the field with the tag, when tags are distinct |
| NanopbRoundTrip.Varint32Back | ITISRequest/Pods/nanopb/pb_decode.c:187-247 | a 32-bit number is read back |
| NanopbRoundTrip.ZigZagBack | ITISRequest/Pods/nanopb/pb_decode.c:1279-1291 | zigzag decoding inverts encoding for all 64-bit numbers |
| NanopbRoundTrip.SignedBack | ITISRequest/Pods/nanopb/pb_decode.c:1339-1374 | negative numbers of every width survive the conversion to 64 bits and back |
| NanopbRoundTrip.ScalarBack | ITISRequest/Pods/nanopb/pb_decode.c:1328-1439 | every number of every type is read back |
| NanopbRoundTrip.ValueBack | ITISRequest/Pods/nanopb/pb_decode.c:1441-1541 | every value is read back, submessages included |
| NanopbRoundTrip.PackedBack | ITISRequest/Pods/nanopb/pb_decode.c:424-453 | a packed array is read back |
| NanopbRoundTrip.EachBack | ITISRequest/Pods/nanopb/pb_decode.c:454-464 | so is an array with a tag for each value |
| NanopbRoundTrip.MessageBack | ITISRequest/Pods/nanopb/pb_decode.c:928-1076 | from any field on, decoding the rest of a message completes it, and all required fields have been seen |
| NanopbRoundTrip.RoundTrip | ITISRequest/Pods/nanopb/pb_decode.c:1078-1090 | pb_decode gives back every message that pb_encode was given, for every valid descriptor |
| NanopbOrder.AnyOrder | ITISRequest/Pods/nanopb/pb_decode.c:928-1076 | the fields of a message in any order, with well-formed unknown fields anywhere between them, decode to the message |
| NanopbOrder.PartsDecode | ITISRequest/Pods/nanopb/pb_decode.c:928-1076 | fields given several times: arrays go on, of a single value the last one stays, and the message decodes to what the parts add up to if every required field is among them |
| NanopbOrder.FieldOver | ITISRequest/Pods/nanopb/pb_decode.c:406-483 | one field over what its slot already has |
| NanopbOrder.WellFormedIsSkipped | ITISRequest/Pods/nanopb/pb_decode.c:278-331 | whatever a field of a known wire type is made of is skipped whole |

## Left out

- The application's own code and its other libraries, and of LevelDB: environment, file names, repair, dump, C bindings, options, statistics, logging, histograms.
- Versions.Get: takes internal keys as well-formed; the answers for corrupted keys and for files that cannot be read are not modelled.
- Database.PickLevelForMemTableOutput: takes the total of overlapping grandparent bytes as an oracle.
- Selection.PickAfterPointer: starts from the level that scoring or seek statistics settled on; the scores (doubles) and sampling are not modelled.
- Selection.GrowInputs: sizes of files are arbitrary numbers, and 64-bit sums do not wrap.
- Refinement.EveryRunIsAMap: a compaction is one step with an `oldest` that no live snapshot is below, which covers writes and snapshots interleaved with it; the flush of a memtable in the middle of DoCompactionWork (db/db_impl.cc:907-918) is not modelled, as its choice of a level looks at the current version only.
- Refinement.EveryRunKeepsInvariant: runs stay below the largest sequence number, 2^56 - 1; the source does not check this, and what happens beyond is not modelled.
- VersionBuilder.Builder.Apply: the compaction pointers of an edit are not part of it.
- VersionBuilder.SnapshotRebuilds: the comparator name and the compaction pointers of the record are not part of it.
- Obsolete files and their deletion, pending outputs, reference counts of versions, the table cache, and open iterators that keep files alive.
- VersionBuilder.ReplayIsStepwise: the other fields of an edit, and the rest of Recover (CURRENT, manifest reuse), are not part of it; EditFormat has the fields as bytes.
- EditFormat.VersionEdit.EncodeTo: writes from the list of records of the edit, where the source has one statement or loop for each field.
- std::sort, std::set and std::upper_bound are functions that say what they compute.
- DbIter.DBIter.Next: corrupted internal keys, read sampling and the release of large saved values are not modelled.
- Merger.MergingIterator.Next: keys are distinct across children, as they are in the database, so the branch for equal keys after a change of direction is not reached; children are sorted runs with positions.
- LogWriter.Writer.AddRecord: appends to the file always succeed; GroupCommit models appends and syncs that fail.
- LogReader.Reader.ReadRecord: the initial offset is 0, so nothing is resynchronised, checksums are verified, and reads are full except at the end of the file; the sizes of reported drops are not modelled, only their number.
- Recovery.RecoverLogFile: one log; listing and ordering several logs, reusing the last one, and failures to write the tables are not modelled.
- CommitSafety.SyncedWritesSurvive: one log file, without the switch to a new one in MakeRoomForWrite, whose waiting and failures are one nondeterministic step; it speaks of runs in which no append to the log failed (a failed sync is covered).
- WriteBatches.WriteBatch.Push: a batch holds fewer than 2^31 operations.
- SkipLists.SkipList.Insert: stores and loads are sequentially consistent; FindLast, the iterator around the searches, and the arena are left out. Keys are ranks in comparator order.
- Cache.LRUCache.Insert: addresses are never reused, and a doubly linked list is the sequence of its members; the sharding by the upper bits of the hash and the destructor are left out. `hash & (length - 1)` is a remainder.
- BlockIters.Iter.Seek: the cursor runs on blocks that were built; the answers for corrupt blocks (where a 32-bit sum in DecodeEntry may wrap) are left out.
- BlockBuilders.BlockBuilder.Finish: sizes and offsets fit 32 bits; Reset is a new builder.
- TableBuilders.TableBuilder.Finish: blocks are the entries they hold, at the offsets in their handles; the bytes of handles, footer and metaindex, block checksums and compression, and write errors are left out.
- TwoLevel.TwoLevelIterator.Seek: the two inner cursors are positions, as BlockIters proves of them; the block cache and errors from reading a block are left out.
- Filters.KeyMayMatch: the hash function is arbitrary.
- Tables.InternalGet: a table without a filter, or with one; other filter policies are left out.
- NanopbRoundTrip.RoundTrip: oneofs, extensions, callbacks, pointer fields, fixed-count arrays, fixed-length bytes and proto3 implicit presence are left out, and encoded messages are shorter than 2^32 bytes.
- NanopbEncode.OStream.Encode: sizes are unbounded, where size_t would wrap; custom stream callbacks are left out.
- NanopbRead.IStream.DecodeVarint32: `uint_fast8_t` has eight bits, so that the bit position of an overlong varint wraps at 256.
- NanopbOrder.PartsDecode: a submessage that is not in an array is given once; the merge of several is in NanopbDecode but has no theorem of its own.
- NanopbRead.IStream.DecodeMessage: an absent field is an empty slot instead of its default value; what a failed decode leaves in the struct is not modelled.
