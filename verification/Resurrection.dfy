/**
 A run that brings a deleted value back. SetupOtherInputs adds boundary files at `level` only; at the
 end user key 5 straddles two files of `level + 1`, and only the first is an input.
 */
module Resurrection {
  import opened Common
  import opened InternalKeys
  import opened Versions
  import opened Inputs
  import opened Selection
  import opened Compaction
  import opened Install
  import opened Meaning
  import opened Database
  import opened Refinement
  import VB = VersionBuilder

  const DELETED := Entry(IKey(5, 1, Put), "deleted")
  const OLD_THREE := Entry(IKey(3, 2, Put), "old")
  const TOMBSTONE := Entry(IKey(5, 3, Deletion), "")
  const NEW_THREE := Entry(IKey(3, 4, Put), "new")

  const BOTTOM := File(2, 1, DELETED.ikey, DELETED.ikey, [DELETED])
  const MIDDLE := File(3, 1, OLD_THREE.ikey, TOMBSTONE.ikey, [OLD_THREE, TOMBSTONE])
  const LEFT := File(4, 1, OLD_THREE.ikey, TOMBSTONE.ikey, [OLD_THREE, TOMBSTONE])
  const RIGHT := File(5, 1, DELETED.ikey, DELETED.ikey, [DELETED])
  const UPPER := File(6, 1, NEW_THREE.ikey, NEW_THREE.ikey, [NEW_THREE])
  const OUTPUT := File(7, 1, NEW_THREE.ikey, NEW_THREE.ikey, [NEW_THREE])

  /** A version with files at levels 1 and 2. */
  function Levels(one: Level, two: Level): Version {
    [[], one, two, [], [], [], []]
  }

  function OnDisk(v: Version, last: nat, snapshots: seq<nat>, nextFile: nat): DB {
    DB([], None, v, last, snapshots, nextFile)
  }

  // ----- a run from an empty database -----

  /** Compacts MIDDLE with BOTTOM while a snapshot at 1 holds the deleted value, and cuts the output
      between the deletion and the value. */
  const SPLIT_JOB := Job(1, [MIDDLE], [BOTTOM], [LEFT, RIGHT])
  const SPLIT := Task([MIDDLE], SPLIT_JOB, [OLD_THREE, TOMBSTONE, DELETED], 1)

  const FIRST_WRITE := [Write([PutOp(5, "deleted")]), SwitchMemTable, Flush(2, Some(BOTTOM))]
  const SECOND_WRITE := [Write([PutOp(3, "old"), DeleteOp(5)]), SwitchMemTable, Flush(1, Some(MIDDLE))]
  const THIRD_WRITE := [Write([PutOp(3, "new")]), SwitchMemTable, Flush(1, Some(UPPER))]
  const STEPS :=
    FIRST_WRITE + [TakeSnapshot] + SECOND_WRITE + [Compact(SPLIT)] + [ReleaseSnapshot(0)] + THIRD_WRITE

  const BEFORE := Levels([UPPER], [LEFT, RIGHT])
  const STATE := OnDisk(BEFORE, 4, [], 7)
  const JOB := Job(1, [UPPER], [LEFT], [OUTPUT])
  const TASK := Task([UPPER], JOB, [NEW_THREE, OLD_THREE, TOMBSTONE], 4)
  const AFTER := STATE.(version := LogAndApply(BEFORE, JobEdit(JOB)), nextFile := 8)

  lemma {:induction false} Continue(db: DB, first: seq<Step>, mid: DB, rest: seq<Step>, after: DB)
    requires Reaches(db, first, mid) && Reaches(mid, rest, after)
    ensures Reaches(db, first + rest, after)
    decreases |first|
  {
    var all := first + rest;
    if first == [] {
      assert all == rest;
    } else {
      assert all[0] == first[0] && all[1..] == first[1..] + rest;
      var next :| Next(db, first[0], next) && Reaches(next, first[1..], mid);
      assert Next(db, first[0], next);
      Continue(next, first[1..], mid, rest, after);
    }
  }

  lemma OneStep(db: DB, step: Step, after: DB)
    requires |db.version| == NUM_LEVELS && Next(db, step, after) && Harmless(db, step)
    ensures Reaches(db, [step], after)
  {
    assert [step][0] == step && [step][1..] == [];
    assert Reaches(after, [], after);
  }

  /** A batch written, and its memtable flushed to a file. */
  lemma {:induction false} WriteAndFlush(v: Version, last: nat, snapshots: seq<nat>, batch: seq<Op>, level: nat, f: File, w: Version)
    requires |v| == NUM_LEVELS && last + |batch| < MAX_SEQUENCE && ValidFile(f) && MayPlace(v, level, f)
    requires InsertBatch([], batch, last + 1) == f.entries
    requires LogAndApply(v, VB.VersionEdit([], [(level, f)])) == w
    ensures Reaches(OnDisk(v, last, snapshots, f.number), [Write(batch), SwitchMemTable, Flush(level, Some(f))],
                    OnDisk(w, last + |batch|, snapshots, f.number + 1))
  {
    var a := OnDisk(v, last, snapshots, f.number);
    var b := DB(f.entries, None, v, last + |batch|, snapshots, f.number);
    var c := DB([], Some(f.entries), v, last + |batch|, snapshots, f.number);
    var d := OnDisk(w, last + |batch|, snapshots, f.number + 1);
    OneStep(a, Write(batch), b);
    OneStep(b, SwitchMemTable, c);
    OneStep(c, Flush(level, Some(f)), d);
    Continue(a, [Write(batch)], b, [SwitchMemTable], c);
    Continue(a, [Write(batch)] + [SwitchMemTable], c, [Flush(level, Some(f))], d);
    assert [Write(batch)] + [SwitchMemTable] + [Flush(level, Some(f))]
        == [Write(batch), SwitchMemTable, Flush(level, Some(f))];
  }

  lemma OneFile(files: Level, f: File)
    requires Ordered(files) && forall g :: g in files <==> g == f
    ensures files == [f]
  {
    assert VB.FileSet(files) == VB.FileSet([f]);
    VB.OrderedListsAgree(files, [f]);
  }

  lemma PlacedAtOne(two: Level, f: File)
    requires Ordered(two)
    ensures LogAndApply(Levels([], two), VB.VersionEdit([], [(1, f)])) == Levels([f], two)
  {
    var v := Levels([], two);
    FlushPlaces(v, 1, f);
    OneFile(LogAndApply(v, VB.VersionEdit([], [(1, f)]))[1], f);
  }

  lemma PlacedAtTwo(f: File)
    ensures LogAndApply(Levels([], []), VB.VersionEdit([], [(2, f)])) == Levels([], [f])
  {
    var v := Levels([], []);
    FlushPlaces(v, 2, f);
    OneFile(LogAndApply(v, VB.VersionEdit([], [(2, f)]))[2], f);
  }

  lemma FilesAreValid()
    ensures ValidFile(BOTTOM) && ValidFile(MIDDLE) && ValidFile(LEFT) && ValidFile(RIGHT)
    ensures ValidFile(UPPER) && ValidFile(OUTPUT)
  {
  }

  lemma MayPlaceHere(two: Level, level: nat, f: File)
    requires level == 1 || (level == 2 && two == [])
    ensures MayPlace(Levels([], two), level, f)
  {
    assert forall l :: 0 <= l <= level ==> Levels([], two)[l] == [];
  }

  lemma FirstWrite()
    ensures Reaches(INITIAL_DB, FIRST_WRITE, OnDisk(Levels([], [BOTTOM]), 1, [], 3))
  {
    assert NO_FILES == Levels([], []);
    assert InsertBatch([], [PutOp(5, "deleted")], 1) == [DELETED] by {
      assert Insert([], DELETED) == [DELETED];
    }
    PlacedAtTwo(BOTTOM);
    MayPlaceHere([], 2, BOTTOM);
    FilesAreValid();
    WriteAndFlush(NO_FILES, 0, [], [PutOp(5, "deleted")], 2, BOTTOM, Levels([], [BOTTOM]));
  }

  lemma SecondWrite()
    ensures Reaches(OnDisk(Levels([], [BOTTOM]), 1, [1], 3), SECOND_WRITE, OnDisk(Levels([MIDDLE], [BOTTOM]), 3, [1], 4))
  {
    var batch := [PutOp(3, "old"), DeleteOp(5)];
    assert InsertBatch([], batch, 2) == [OLD_THREE, TOMBSTONE] by {
      assert Insert([], OLD_THREE) == [OLD_THREE];
      assert LowerBound([OLD_THREE], TOMBSTONE.ikey) == 1;
      assert Insert([OLD_THREE], TOMBSTONE) == [OLD_THREE, TOMBSTONE];
      assert batch[1..] == [DeleteOp(5)] && batch[1..][1..] == [];
      assert InsertBatch([OLD_THREE], batch[1..], 3) == InsertBatch([OLD_THREE, TOMBSTONE], [], 4);
    }
    PlacedAtOne([BOTTOM], MIDDLE);
    MayPlaceHere([BOTTOM], 1, MIDDLE);
    FilesAreValid();
    WriteAndFlush(Levels([], [BOTTOM]), 1, [1], batch, 1, MIDDLE, Levels([MIDDLE], [BOTTOM]));
  }

  lemma ThirdWrite()
    ensures Reaches(OnDisk(Levels([], [LEFT, RIGHT]), 3, [], 6), THIRD_WRITE, STATE)
  {
    assert InsertBatch([], [PutOp(3, "new")], 4) == [NEW_THREE] by {
      assert Insert([], NEW_THREE) == [NEW_THREE];
    }
    PlacedAtOne([LEFT, RIGHT], UPPER);
    MayPlaceHere([LEFT, RIGHT], 1, UPPER);
    FilesAreValid();
    WriteAndFlush(Levels([], [LEFT, RIGHT]), 3, [], [PutOp(3, "new")], 1, UPPER, BEFORE);
  }

  lemma WhereFilesAre(one: Level, two: Level, l: nat, f: File)
    requires l < NUM_LEVELS && f in Levels(one, two)[l]
    ensures (l == 1 && f in one) || (l == 2 && f in two)
  {
    assert Levels(one, two)[l] == if l == 1 then one else if l == 2 then two else [];
  }

  lemma SplitFile(l: nat, f: File)
    requires l < NUM_LEVELS && f in Levels([MIDDLE], [BOTTOM])[l]
    ensures (l == 1 && f == MIDDLE) || (l == 2 && f == BOTTOM)
  {
    WhereFilesAre([MIDDLE], [BOTTOM], l, f);
  }

  lemma SplitNumbersUnique()
    ensures UniqueNumbers(Levels([MIDDLE], [BOTTOM]))
  {
    var v := Levels([MIDDLE], [BOTTOM]);
    forall i, f: File, j, g: File | 0 <= i < |v| && f in v[i] && 0 <= j < |v| && g in v[j] && f.number == g.number
      ensures i == j && f == g
    {
      SplitFile(i, f);
      SplitFile(j, g);
    }
  }

  lemma SplitNumbersFree()
    ensures OutputNumbersFree(Levels([MIDDLE], [BOTTOM]), SPLIT_JOB)
  {
    var v := Levels([MIDDLE], [BOTTOM]);
    forall o: File, l, g: File | o in SPLIT_JOB.outputs && 0 <= l < |v| && g in v[l] ensures o.number != g.number {
      SplitFile(l, g);
    }
  }

  lemma TwoFiles(files: Level)
    requires Ordered(files) && forall f :: f in files <==> f == LEFT || f == RIGHT
    ensures files == [LEFT, RIGHT]
  {
    assert VB.FileSet(files) == VB.FileSet([LEFT, RIGHT]);
    VB.OrderedListsAgree(files, [LEFT, RIGHT]);
  }

  lemma NoFile(files: Level)
    requires Ordered(files) && forall f :: f !in files
    ensures files == []
  {
    assert VB.FileSet(files) == VB.FileSet([]);
    VB.OrderedListsAgree(files, []);
  }

  lemma MovedLevels(v: Version, w: Version)
    requires v == Levels([MIDDLE], [BOTTOM]) && Moved(v, w, SPLIT_JOB)
    ensures w == Levels([], [LEFT, RIGHT])
  {
    assert v[1] == [MIDDLE] && v[2] == [BOTTOM];
    NoFile(w[1]);
    forall f ensures f in w[2] <==> f == LEFT || f == RIGHT {
      assert f in SPLIT_JOB.outputs <==> f == LEFT || f == RIGHT;
    }
    TwoFiles(w[2]);
  }

  lemma SplitMoves()
    ensures LogAndApply(Levels([MIDDLE], [BOTTOM]), JobEdit(SPLIT_JOB)) == Levels([], [LEFT, RIGHT])
  {
    var v := Levels([MIDDLE], [BOTTOM]);
    SplitNumbersUnique();
    SplitNumbersFree();
    JobMoves(v, SPLIT_JOB);
    MovedLevels(v, LogAndApply(v, JobEdit(SPLIT_JOB)));
  }

  /** SetupOtherInputs picks these inputs for a file of level 1. */
  lemma InputsArePicked(upper: File, two: Level, task: Task)
    requires ValidFile(upper) && task.chosen == [upper] && task.job.level == 1 && task.job.inputs0 == [upper]
    requires task.job.inputs1 == Overlapping(two, Some(upper.smallest.user), Some(upper.largest.user))
    ensures Picked(Levels([upper], two), task)
  {
    var files := Levels([upper], two)[1];
    assert files[0..1] == [upper];
    assert Chosen(files, false, [upper]);
    assert upper in [upper] && IsLargestKey([upper], upper.largest);
    FileBounds(upper, upper.entries[0]);
    assert BoundaryChain(files, upper.largest, []);
    assert [upper] == [upper] + [];
    assert WithBoundary(files, [upper], [upper]);
    assert IsRange([upper], upper.smallest, upper.largest);
    assert Grown(files, two, [upper], [upper], task.job.inputs1);
  }

  lemma SplitIsPicked()
    ensures Picked(Levels([MIDDLE], [BOTTOM]), SPLIT)
  {
    assert OverlappingUpTo([BOTTOM], Some(3), Some(5), 0) == [];
    assert OverlappingUpTo([BOTTOM], Some(3), Some(5), 1) == [BOTTOM];
    FilesAreValid();
    InputsArePicked(MIDDLE, [BOTTOM], SPLIT);
  }

  lemma SplitKeepsAll(v: Version)
    ensures Kept(v, 1, SPLIT.run, 1, 3) == SPLIT.run
  {
    assert Kept(v, 1, SPLIT.run, 1, 0) == [];
    assert Kept(v, 1, SPLIT.run, 1, 1) == [OLD_THREE];
    assert Kept(v, 1, SPLIT.run, 1, 2) == [OLD_THREE, TOMBSTONE];
  }

  lemma SplitRunIsInput()
    ensures Elements(SPLIT.run) == InputSet(SPLIT_JOB) && Sorted(SPLIT.run)
  {
    forall e ensures e in Elements(SPLIT.run) <==> e in InputSet(SPLIT_JOB) {
      if e in {OLD_THREE, TOMBSTONE} { FileEntry([MIDDLE], MIDDLE, e); }
      if e == DELETED { FileEntry([BOTTOM], BOTTOM, e); }
    }
  }

  lemma ConcatTwo(x: seq<Entry>, y: seq<Entry>)
    ensures Flatten([x, y]) == x + y
  {
    assert [x, y][..1] == [x] && [x][..0] == [];
    assert Flatten([x]) == x;
  }

  lemma SplitOutputs()
    ensures OutputFiles(SPLIT_JOB.outputs, SPLIT.run, 4, 6)
  {
    FilesAreValid();
    var runs := seq(2, i requires 0 <= i < 2 => SPLIT_JOB.outputs[i].entries);
    assert runs == [LEFT.entries, RIGHT.entries];
    ConcatTwo(LEFT.entries, RIGHT.entries);
  }

  lemma SplitIsHarmless(db: DB)
    requires |db.version| == NUM_LEVELS
    ensures Harmless(db, Compact(SPLIT))
  {
    SplitRunIsInput();
    assert forall e :: e in InputSet(SPLIT_JOB) && e.ikey.seqno <= 1 ==> e == DELETED;
  }

  lemma SplitStep()
    ensures Reaches(OnDisk(Levels([MIDDLE], [BOTTOM]), 3, [1], 4), [Compact(SPLIT)], OnDisk(Levels([], [LEFT, RIGHT]), 3, [1], 6))
  {
    var db, after := OnDisk(Levels([MIDDLE], [BOTTOM]), 3, [1], 4), OnDisk(Levels([], [LEFT, RIGHT]), 3, [1], 6);
    SplitIsPicked();
    SplitKeepsAll(db.version);
    SplitRunIsInput();
    SplitOutputs();
    SplitMoves();
    assert CompactStep(db, SPLIT, after);
    SplitIsHarmless(db);
    OneStep(db, Compact(SPLIT), after);
  }

  lemma SnapshotSteps()
    ensures Reaches(OnDisk(Levels([], [BOTTOM]), 1, [], 3), [TakeSnapshot], OnDisk(Levels([], [BOTTOM]), 1, [1], 3))
    ensures Reaches(OnDisk(Levels([], [LEFT, RIGHT]), 3, [1], 6), [ReleaseSnapshot(0)], OnDisk(Levels([], [LEFT, RIGHT]), 3, [], 6))
  {
    OneStep(OnDisk(Levels([], [BOTTOM]), 1, [], 3), TakeSnapshot, OnDisk(Levels([], [BOTTOM]), 1, [1], 3));
    assert [1][..0] + [1][1..] == [];
    OneStep(OnDisk(Levels([], [LEFT, RIGHT]), 3, [1], 6), ReleaseSnapshot(0), OnDisk(Levels([], [LEFT, RIGHT]), 3, [], 6));
  }

  /** The state before the compaction is reached without anything being uncovered. */
  lemma StateIsReached()
    ensures Reaches(INITIAL_DB, STEPS, STATE)
  {
    FirstWrite();
    SecondWrite();
    SplitStep();
    SnapshotSteps();
    ThirdWrite();
    var a, b, c := OnDisk(Levels([], [BOTTOM]), 1, [], 3), OnDisk(Levels([], [BOTTOM]), 1, [1], 3), OnDisk(Levels([MIDDLE], [BOTTOM]), 3, [1], 4);
    var d, e := OnDisk(Levels([], [LEFT, RIGHT]), 3, [1], 6), OnDisk(Levels([], [LEFT, RIGHT]), 3, [], 6);
    Continue(INITIAL_DB, FIRST_WRITE, a, [TakeSnapshot], b);
    Continue(INITIAL_DB, FIRST_WRITE + [TakeSnapshot], b, SECOND_WRITE, c);
    Continue(INITIAL_DB, FIRST_WRITE + [TakeSnapshot] + SECOND_WRITE, c, [Compact(SPLIT)], d);
    Continue(INITIAL_DB, FIRST_WRITE + [TakeSnapshot] + SECOND_WRITE + [Compact(SPLIT)], d, [ReleaseSnapshot(0)], e);
    Continue(INITIAL_DB, FIRST_WRITE + [TakeSnapshot] + SECOND_WRITE + [Compact(SPLIT)] + [ReleaseSnapshot(0)], e,
             THIRD_WRITE, STATE);
  }

  lemma StateIsReal() returns (db: DB)
    ensures db == STATE && Invariant(db)
  {
    db := STATE;
    StateIsReached();
    var spec := EveryRunIsAMap(STEPS, db);
  }

  // ----- the compaction -----

  lemma Entries()
    ensures LevelEntries(BEFORE[0]) == {}
    ensures LevelEntries(BEFORE[1]) == {NEW_THREE}
    ensures LevelEntries(BEFORE[2]) == {OLD_THREE, TOMBSTONE, DELETED}
    ensures forall l :: 3 <= l < NUM_LEVELS ==> LevelEntries(BEFORE[l]) == {}
    ensures VersionEntries(BEFORE) == {NEW_THREE, OLD_THREE, TOMBSTONE, DELETED}
    ensures AllEntries(STATE) == VersionEntries(BEFORE)
  {
    forall e ensures e in LevelEntries(BEFORE[1]) <==> e == NEW_THREE {
      if e == NEW_THREE { FileEntry(BEFORE[1], UPPER, e); }
    }
    forall e ensures e in LevelEntries(BEFORE[2]) <==> e in {OLD_THREE, TOMBSTONE, DELETED} {
      if e in {OLD_THREE, TOMBSTONE} { FileEntry(BEFORE[2], LEFT, e); }
      if e == DELETED { FileEntry(BEFORE[2], RIGHT, e); }
    }
    forall l | 0 <= l < NUM_LEVELS && l != 1 && l != 2 ensures LevelEntries(BEFORE[l]) == {} {
      assert BEFORE[l] == [];
    }
    forall e ensures e in VersionEntries(BEFORE) <==> e in {NEW_THREE, OLD_THREE, TOMBSTONE, DELETED} {
      assert e in LevelEntries(BEFORE[1]) || e in LevelEntries(BEFORE[2]) ==> e in VersionEntries(BEFORE);
    }
    assert Elements([]) == {};
  }

  lemma OnlyOnDisk(db: DB)
    requires db.mem == [] && db.imm.None?
    ensures AllEntries(db) == VersionEntries(db.version)
  {
    assert Elements([]) == {} && ImmEntries(db) == {};
  }

  lemma EntriesAreDistinct()
    ensures Distinct(VersionEntries(BEFORE))
  {
    Entries();
  }

  lemma LowerLevels(l: nat, f: File)
    requires 3 <= l < NUM_LEVELS
    ensures f !in BEFORE[l]
  {
    assert BEFORE[l] == [];
  }

  lemma TaskIsPicked()
    ensures Picked(BEFORE, TASK)
  {
    var two := [LEFT, RIGHT];
    assert OverlappingUpTo(two, Some(3), Some(3), 0) == [];
    assert OverlappingUpTo(two, Some(3), Some(3), 1) == [LEFT];
    assert Overlapping(two, Some(3), Some(3)) == [LEFT];
    FilesAreValid();
    InputsArePicked(UPPER, two, TASK);
  }

  lemma RulesKeepOne()
    ensures Kept(BEFORE, 1, TASK.run, 4, 3) == [NEW_THREE]
  {
    var run := TASK.run;
    assert BaseLevel(BEFORE, 1, 5) by {
      forall l, f: File | 3 <= l < NUM_LEVELS && f in BEFORE[l] ensures false {
        LowerLevels(l, f);
      }
    }
    assert !Drops(BEFORE, 1, run, 0, 4) && Drops(BEFORE, 1, run, 1, 4) && Drops(BEFORE, 1, run, 2, 4);
    assert Kept(BEFORE, 1, run, 4, 0) == [];
    assert Kept(BEFORE, 1, run, 4, 1) == [NEW_THREE];
    assert Kept(BEFORE, 1, run, 4, 2) == [NEW_THREE];
  }

  lemma RunIsInput()
    ensures Elements(TASK.run) == InputSet(JOB) && Sorted(TASK.run)
  {
    forall e ensures e in Elements(TASK.run) <==> e in InputSet(JOB) {
      if e == NEW_THREE { FileEntry([UPPER], UPPER, e); }
      if e in {OLD_THREE, TOMBSTONE} { FileEntry([LEFT], LEFT, e); }
    }
  }

  lemma OutputIsKept()
    ensures OutputFiles(JOB.outputs, [NEW_THREE], 7, 8)
  {
    FilesAreValid();
    var runs := seq(1, i requires 0 <= i < 1 => JOB.outputs[i].entries);
    assert runs == [[NEW_THREE]] && runs[..0] == [];
    assert Flatten(runs) == [NEW_THREE];
  }

  lemma CompactionIsLegal()
    ensures CompactStep(STATE, TASK, AFTER)
  {
    TaskIsPicked();
    RulesKeepOne();
    RunIsInput();
    OutputIsKept();
  }

  lemma ValueIsUncovered()
    ensures Uncovers(BEFORE, JOB, 4, 5)
  {
    Entries();
    FileEntry(JOB.inputs1, LEFT, TOMBSTONE);
    assert IsNewest(VersionEntries(BEFORE), 5, 4, TOMBSTONE);
    forall e ensures e in LeftBehind(BEFORE, JOB) <==> e == DELETED {
      assert RIGHT in BEFORE[2] && RIGHT !in JOB.inputs1 && DELETED in RIGHT.entries;
    }
    assert IsNewest(LeftBehind(BEFORE, JOB), 5, 3, DELETED);
    forall l, f: File | 3 <= l < NUM_LEVELS && f in BEFORE[l] ensures false {
      LowerLevels(l, f);
    }
    assert BaseLevel(BEFORE, 1, 5);
  }

  lemma ReadComesBack()
    ensures ReadAt(VersionEntries(BEFORE), 5, 4) == NotFound && ReadAt(VersionEntries(AFTER.version), 5, 4).Found?
  {
    var db := StateIsReal();
    CompactionIsLegal();
    CompactIsSound(db, TASK, AFTER);
    ValueIsUncovered();
    EntriesAreDistinct();
    EffectIsFaithful(BEFORE, AFTER.version, JOB, 4, 5);
    UncoveredReadChanges(EffectOn(BEFORE, AFTER.version, JOB, 4, 5));
  }

  lemma LegalCompaction() returns (db: DB, task: Task, after: DB)
    ensures db == STATE && task == TASK && after == AFTER
    ensures Invariant(db) && CompactStep(db, task, after)
  {
    db := StateIsReal();
    task, after := TASK, AFTER;
    CompactionIsLegal();
  }

  lemma NotHarmless(db: DB, task: Task)
    requires db == STATE && task == TASK
    ensures !Harmless(db, Compact(task))
  {
    ValueIsUncovered();
  }

  lemma ReadsDiffer(db: DB, after: DB)
    requires db == STATE && after == AFTER
    ensures ReadAt(AllEntries(db), 5, db.lastSequence) == NotFound
    ensures ReadAt(AllEntries(after), 5, after.lastSequence).Found?
  {
    ReadComesBack();
    OnlyOnDisk(db);
    OnlyOnDisk(after);
  }

  lemma {:induction false} ThenAny(db: DB, steps: seq<Step>, mid: DB, step: Step, after: DB)
    requires Reaches(db, steps, mid) && |mid.version| == NUM_LEVELS && Next(mid, step, after)
    ensures ReachesAny(db, steps + [step], after)
    decreases |steps|
  {
    var all := steps + [step];
    if steps == [] {
      assert all[0] == step && all[1..] == [];
      assert ReachesAny(after, [], after);
    } else {
      assert all[0] == steps[0] && all[1..] == steps[1..] + [step];
      var next :| Next(db, steps[0], next) && Reaches(next, steps[1..], mid);
      assert Next(db, steps[0], next);
      ThenAny(next, steps[1..], mid, step, after);
    }
  }

  /** From an empty database to a state in which user key 5 is deleted, with nothing uncovered on the
      way; there the condition of CompactionPreservesReads fails, and so does the read: after one
      more compaction user key 5 is found again. */
  lemma DeletedValueComesBack() returns (steps: seq<Step>, db: DB, task: Task, after: DB)
    ensures Reaches(INITIAL_DB, steps, db) && ReachesAny(INITIAL_DB, steps + [Compact(task)], after)
    ensures Invariant(db) && CompactStep(db, task, after) && !Harmless(db, Compact(task))
    ensures ReadAt(AllEntries(db), 5, db.lastSequence) == NotFound
    ensures ReadAt(AllEntries(after), 5, after.lastSequence).Found?
  {
    db, task, after := LegalCompaction();
    steps := STEPS;
    StateIsReached();
    ThenAny(INITIAL_DB, steps, db, Compact(task), after);
    NotHarmless(db, task);
    ReadsDiffer(db, after);
  }
}
