/**
 Every run of the database behaves like a map with snapshots.
 */
module Refinement {
  import opened Common
  import opened InternalKeys
  import opened Versions
  import opened Inputs
  import opened Selection
  import opened Compaction
  import opened Install
  import opened Meaning
  import opened Database
  import VB = VersionBuilder

  // ----- writes -----

  /** A write of one operation. */
  function WriteOne(db: DB, op: Op): DB {
    db.(mem := Insert(db.mem, EntryOf(op, db.lastSequence + 1)), lastSequence := db.lastSequence + 1)
  }

  lemma TopLayerGrows(mem: set<Entry>, imm: set<Entry>, disk: set<Entry>, last: nat, e: Entry)
    requires LayersFollowAge(mem, imm, disk, last) && e.ikey.seqno == last + 1
    ensures LayersFollowAge(mem + {e}, imm, disk, last + 1)
  {
    assert forall x :: x in imm + disk ==> x in mem + imm + disk;
    assert forall x :: x in mem + {e} + imm + disk ==> x in mem + imm + disk || x == e;
  }

  ghost predicate EntriesUpTo(entries: set<Entry>, last: nat) {
    Distinct(entries) && forall e :: e in entries ==> e.ikey.seqno <= last
  }

  lemma LayersUpTo(mem: set<Entry>, imm: set<Entry>, disk: set<Entry>, last: nat)
    requires LayersFollowAge(mem, imm, disk, last)
    ensures EntriesUpTo(mem + imm + disk, last)
  {
  }

  lemma WriteOneKeepsInvariant(db: DB, op: Op)
    requires MemoryInvariant(db) && db.lastSequence + 1 < MAX_SEQUENCE
    ensures MemoryInvariant(WriteOne(db, op))
    ensures AllEntries(WriteOne(db, op)) == AllEntries(db) + {EntryOf(op, db.lastSequence + 1)}
    ensures EntriesUpTo(AllEntries(db), db.lastSequence)
    ensures EntriesUpTo(AllEntries(WriteOne(db, op)), db.lastSequence + 1)
  {
    var e := EntryOf(op, db.lastSequence + 1);
    var mem, imm, disk := Elements(db.mem), ImmEntries(db), VersionEntries(db.version);
    LayersUpTo(mem, imm, disk, db.lastSequence);
    forall x | x in db.mem ensures x.ikey.seqno < e.ikey.seqno {
      assert x in mem + imm + disk;
    }
    InsertSorted(db.mem, e);
    TopLayerGrows(mem, imm, disk, db.lastSequence, e);
    LayersUpTo(mem + {e}, imm, disk, db.lastSequence + 1);
    assert mem + {e} + imm + disk == mem + imm + disk + {e};
  }

  /** An entry above a sequence number, or of another user key, does not change a read. */
  lemma NewerEntryInvisible(entries: set<Entry>, e: Entry, user: UserKey, s: nat)
    requires Distinct(entries + {e}) && (e.ikey.user != user || e.ikey.seqno > s)
    ensures ReadAt(entries + {e}, user, s) == ReadAt(entries, user, s)
  {
    var more := entries + {e};
    NewestExists(entries, user, s);
    if n :| IsNewest(entries, user, s, n) {
      assert IsNewest(more, user, s, n);
      ReadAtNewest(entries, user, s, n);
      ReadAtNewest(more, user, s, n);
    } else {
      assert !exists n :: IsNewest(more, user, s, n);
    }
  }

  /** Where every entry is at or below `s`, reading at a later `t` sees the same. */
  lemma ReadLater(entries: set<Entry>, user: UserKey, s: nat, t: nat)
    requires Distinct(entries) && s <= t && forall e :: e in entries ==> e.ikey.seqno <= s
    ensures ReadAt(entries, user, t) == ReadAt(entries, user, s)
  {
    NewestExists(entries, user, s);
    if n :| IsNewest(entries, user, s, n) {
      assert IsNewest(entries, user, t, n);
      ReadAtNewest(entries, user, s, n);
      ReadAtNewest(entries, user, t, n);
    } else {
      assert !exists n :: IsNewest(entries, user, t, n);
    }
  }

  lemma ReadsAfterOp(entries: set<Entry>, op: Op, last: nat, view: map<UserKey, Value>)
    requires Distinct(entries) && (forall e :: e in entries ==> e.ikey.seqno <= last) && Reads(entries, last, view)
    ensures Reads(entries + {EntryOf(op, last + 1)}, last + 1, ApplyOp(view, op))
  {
    var n := last + 1;
    var e := EntryOf(op, n);
    forall user ensures ReadAt(entries + {e}, user, n) == Lookup(ApplyOp(view, op), user) {
      if user == op.user {
        assert IsNewest(entries + {e}, user, n, e);
        ReadAtNewest(entries + {e}, user, n, e);
      } else {
        NewerEntryInvisible(entries, e, user, n);
        ReadLater(entries, user, last, n);
      }
    }
  }

  lemma ReadsBeforeEntry(entries: set<Entry>, e: Entry, s: nat, view: map<UserKey, Value>)
    requires Distinct(entries + {e}) && e.ikey.seqno > s && Reads(entries, s, view)
    ensures Reads(entries + {e}, s, view)
  {
    forall user ensures ReadAt(entries + {e}, user, s) == Lookup(view, user) {
      NewerEntryInvisible(entries, e, user, s);
    }
  }

  lemma ReadsAllAfterOp(entries: set<Entry>, last: nat, snapshots: seq<nat>, spec: Spec, op: Op)
    requires ReadsAll(entries, last, snapshots, spec) && SnapshotsInOrder(snapshots, last)
    requires EntriesUpTo(entries, last) && EntriesUpTo(entries + {EntryOf(op, last + 1)}, last + 1)
    ensures ReadsAll(entries + {EntryOf(op, last + 1)}, last + 1, snapshots, spec.(view := ApplyOp(spec.view, op)))
  {
    ReadsAfterOp(entries, op, last, spec.view);
    forall i | 0 <= i < |snapshots| ensures Reads(entries + {EntryOf(op, last + 1)}, snapshots[i], spec.frozen[i]) {
      ReadsBeforeEntry(entries, EntryOf(op, last + 1), snapshots[i], spec.frozen[i]);
    }
  }

  lemma WriteOneRefines(db: DB, op: Op, after: DB, spec: Spec)
    requires Represents(db, spec) && SnapshotsInOrder(db.snapshots, db.lastSequence)
    requires EntriesUpTo(AllEntries(db), db.lastSequence) && EntriesUpTo(AllEntries(after), after.lastSequence)
    requires AllEntries(after) == AllEntries(db) + {EntryOf(op, db.lastSequence + 1)}
    requires after.lastSequence == db.lastSequence + 1 && after.snapshots == db.snapshots
    ensures Represents(after, spec.(view := ApplyOp(spec.view, op)))
  {
    ReadsAllAfterOp(AllEntries(db), db.lastSequence, db.snapshots, spec, op);
  }

  function WriteAll(db: DB, batch: seq<Op>): DB {
    db.(mem := InsertBatch(db.mem, batch, db.lastSequence + 1), lastSequence := db.lastSequence + |batch|)
  }

  lemma WriteAllSplits(db: DB, batch: seq<Op>)
    requires batch != []
    ensures WriteAll(WriteOne(db, batch[0]), batch[1..]) == WriteAll(db, batch)
  {
  }

  /** A whole batch is visible at the new last sequence, none of it at any earlier snapshot. */
  lemma {:induction false} WriteRefines(db: DB, batch: seq<Op>, spec: Spec)
    requires MemoryInvariant(db) && db.lastSequence + |batch| < MAX_SEQUENCE && Represents(db, spec)
    ensures MemoryInvariant(WriteAll(db, batch))
    ensures Represents(WriteAll(db, batch), spec.(view := ApplyBatch(spec.view, batch)))
    decreases |batch|
  {
    if batch == [] {
      assert WriteAll(db, batch) == db && spec.(view := ApplyBatch(spec.view, batch)) == spec;
    } else {
      WriteAllSplits(db, batch);
      WriteOneKeepsInvariant(db, batch[0]);
      WriteOneRefines(db, batch[0], WriteOne(db, batch[0]), spec);
      WriteRefines(WriteOne(db, batch[0]), batch[1..], spec.(view := ApplyOp(spec.view, batch[0])));
    }
  }

  // ----- memtable flushes -----

  /** The version after a file is added at one level. */
  ghost predicate Placed(v: Version, w: Version, level: nat, f: File) {
    && |w| == |v| && level < |v|
    && Ordered(w[level]) && (forall g :: g in w[level] <==> g in v[level] || g == f)
    && forall l :: 0 <= l < |v| && l != level ==> w[l] == v[l]
  }

  lemma FlushPlaces(v: Version, level: nat, f: File)
    requires |v| == NUM_LEVELS && level < NUM_LEVELS && (forall l :: 0 <= l < |v| ==> Ordered(v[l]))
    requires forall g :: g in v[level] ==> g.number < f.number
    ensures Placed(v, LogAndApply(v, VB.VersionEdit([], [(level, f)])), level, f)
  {
    var edit := VB.VersionEdit([], [(level, f)]);
    assert VB.AddedFiles(edit.newFiles, level) == {f} by {
      assert edit.newFiles[0] in edit.newFiles;
    }
    assert VB.DeletedNumbers(edit.deletedFiles, level) == {};
    EditedLevelIs(v[level], edit, level);
    forall l | 0 <= l < |v| && l != level ensures LogAndApply(v, edit)[l] == v[l] {
      UntouchedLevel(v[l], edit, l);
    }
  }

  lemma PlacedEntries(v: Version, w: Version, level: nat, f: File)
    requires Placed(v, w, level, f)
    ensures LevelEntries(w[level]) == LevelEntries(v[level]) + Elements(f.entries)
    ensures VersionEntries(w) == VersionEntries(v) + Elements(f.entries)
  {
    forall e ensures e in LevelEntries(w[level]) <==> e in LevelEntries(v[level]) + Elements(f.entries) {
      if e in LevelEntries(v[level]) {
        var g :| g in v[level] && e in g.entries;
        FileEntry(w[level], g, e);
      }
      if e in f.entries {
        FileEntry(w[level], f, e);
      }
    }
    forall e ensures e in VersionEntries(w) <==> e in VersionEntries(v) + Elements(f.entries) {
      if e in VersionEntries(v) {
        var l :| 0 <= l < |v| && e in LevelEntries(v[l]);
        assert e in LevelEntries(w[l]);
      }
      if e in f.entries {
        assert e in LevelEntries(w[level]);
      }
    }
  }

  /** No entry of a level the new file does not overlap shares a user key with it. */
  lemma PlacedApart(files: Level, f: File)
    requires ValidFiles(files) && ValidFile(f)
    requires forall g :: g in files ==> !Overlaps(g, Some(f.smallest.user), Some(f.largest.user))
    ensures forall g :: g in files ==> Less(f.largest, g.smallest) || Less(g.largest, f.smallest)
    ensures NewerThan(LevelEntries(files), Elements(f.entries))
  {
    forall g, x, y | g in files && x in g.entries && y in f.entries ensures x.ikey.user != y.ikey.user {
      FileBounds(g, x);
      FileBounds(f, y);
    }
  }

  lemma PlacedAgeOrder(v: Version, w: Version, level: nat, f: File)
    requires Placed(v, w, level, f) && LevelsFollowAge(v)
    requires NewerThan(Elements(f.entries), VersionEntries(v))
    requires forall l :: 0 <= l < level ==> NewerThan(LevelEntries(v[l]), Elements(f.entries))
    ensures LevelsFollowAge(w)
  {
    PlacedEntries(v, w, level, f);
    forall i, j | 0 <= i < j < |w| ensures NewerThan(LevelEntries(w[i]), LevelEntries(w[j])) {
      assert NewerThan(LevelEntries(v[i]), LevelEntries(v[j]));
      if i == level {
        assert forall y :: y in LevelEntries(v[j]) ==> y in VersionEntries(v);
      } else if j == level {
        assert NewerThan(LevelEntries(v[i]), Elements(f.entries));
      }
    }
  }

  lemma PlacedNumbers(v: Version, w: Version, level: nat, f: File)
    requires Placed(v, w, level, f) && UniqueNumbers(v)
    requires forall l, g :: 0 <= l < |v| && g in v[l] ==> g.number < f.number
    ensures UniqueNumbers(w)
  {
    forall i, a, j, b | 0 <= i < |w| && a in w[i] && 0 <= j < |w| && b in w[j] && a.number == b.number
      ensures i == j && a == b
    {
      assert (i == level && a == f) || a in v[i];
      assert (j == level && b == f) || b in v[j];
    }
  }

  lemma PlacedDisjoint(files: Level, after: Level, f: File)
    requires ValidFiles(files) && ValidFile(f) && Disjoint(files)
    requires Ordered(after) && forall g :: g in after <==> g in files || g == f
    requires forall g :: g in files ==> Less(f.largest, g.smallest) || Less(g.largest, f.smallest)
    ensures ValidFiles(after) && Disjoint(after)
  {
    forall a, b | a in after && b in after && a != b
      ensures Less(a.largest, b.smallest) || Less(b.largest, a.smallest)
    {
      if a in files && b in files {
        PairsFromDisjoint(files, a, b);
      }
    }
    DisjointFromPairs(after);
  }

  lemma FlushKeepsValid(v: Version, w: Version, level: nat, f: File)
    requires ValidVersion(v) && Placed(v, w, level, f) && ValidFile(f) && MayPlace(v, level, f)
    requires NewerThan(Elements(f.entries), VersionEntries(v))
    requires forall l, g :: 0 <= l < |v| && g in v[l] ==> g.number < f.number
    ensures ValidVersion(w)
  {
    PlacedNumbers(v, w, level, f);
    forall l | 0 <= l <= level && level > 0 ensures NewerThan(LevelEntries(v[l]), Elements(f.entries)) {
      PlacedApart(v[l], f);
    }
    PlacedAgeOrder(v, w, level, f);
    if level > 0 {
      PlacedApart(v[level], f);
      PlacedDisjoint(v[level], w[level], f);
    } else {
      PlacedLevelZero(v, w[0], f);
    }
  }

  /** At level 0 the newest file carries the largest number. */
  lemma PlacedLevelZero(v: Version, after: Level, f: File)
    requires |v| > 0 && ValidFiles(v[0]) && NumbersFollowAge(v[0]) && ValidFile(f)
    requires forall g :: g in after <==> g in v[0] || g == f
    requires NewerThan(Elements(f.entries), VersionEntries(v))
    requires forall g :: g in v[0] ==> g.number < f.number
    ensures ValidFiles(after) && NumbersFollowAge(after)
  {
    forall a, b | a in after && b in after && a.number > b.number
      ensures NewerThan(Elements(a.entries), Elements(b.entries))
    {
      if a == f {
        forall y | y in b.entries ensures y in VersionEntries(v) {
          FileEntry(v[0], b, y);
        }
      }
    }
  }

  lemma ImmBecomesDisk(mem: set<Entry>, imm: set<Entry>, disk: set<Entry>, last: nat)
    requires LayersFollowAge(mem, imm, disk, last)
    ensures LayersFollowAge(mem, {}, disk + imm, last)
  {
    assert mem + imm + disk == mem + {} + (disk + imm);
  }

  lemma PlacedBelow(v: Version, w: Version, level: nat, f: File)
    requires Placed(v, w, level, f) && NumbersBelow(v, f.number)
    ensures NumbersBelow(w, f.number + 1)
  {
    forall l, g: File | 0 <= l < |w| && g in w[l] ensures g.number < f.number + 1 {
      assert g == f || g in v[l];
    }
  }

  lemma FlushedDisk(v: Version, level: nat, f: File)
    requires DiskInvariant(v, f.number) && ValidFile(f) && MayPlace(v, level, f)
    requires NewerThan(Elements(f.entries), VersionEntries(v))
    ensures var w := LogAndApply(v, VB.VersionEdit([], [(level, f)]));
      DiskInvariant(w, f.number + 1) && VersionEntries(w) == VersionEntries(v) + Elements(f.entries)
  {
    var w := LogAndApply(v, VB.VersionEdit([], [(level, f)]));
    FlushPlaces(v, level, f);
    PlacedEntries(v, w, level, f);
    PlacedBelow(v, w, level, f);
    FlushKeepsValid(v, w, level, f);
  }

  lemma FlushedMemory(db: DB, after: DB)
    requires MemoryInvariant(db) && db.imm.Some? && after == db.(imm := None, version := after.version, nextFile := after.nextFile)
    requires VersionEntries(after.version) == VersionEntries(db.version) + ImmEntries(db)
    ensures MemoryInvariant(after) && AllEntries(after) == AllEntries(db)
  {
    ImmBecomesDisk(Elements(db.mem), ImmEntries(db), VersionEntries(db.version), db.lastSequence);
  }

  lemma FlushKeepsInvariant(db: DB, level: nat, f: File, after: DB)
    requires Invariant(db) && FlushStep(db, level, Some(f), after)
    ensures Invariant(after) && AllEntries(after) == AllEntries(db)
  {
    FlushedDisk(db.version, level, f);
    FlushedMemory(db, after);
  }

  // ----- compactions and moves -----

  lemma {:induction false} OutputsHoldKept(outputs: seq<File>, runs: seq<seq<Entry>>, kept: seq<Entry>)
    requires ValidFiles(outputs) && |runs| == |outputs| && (forall i :: 0 <= i < |runs| ==> runs[i] == outputs[i].entries)
    requires Flatten(runs) == kept && Sorted(kept)
    ensures LevelEntries(outputs) == Elements(kept) && Disjoint(outputs)
  {
    if outputs != [] {
      var n := |outputs| - 1;
      var f, rest := outputs[n], Flatten(runs[..n]);
      assert kept == rest + f.entries;
      assert forall i :: 0 <= i < |rest| ==> kept[i] == rest[i];
      assert forall i :: 0 <= i < |f.entries| ==> kept[|rest| + i] == f.entries[i];
      OutputsHoldKept(outputs[..n], runs[..n], rest);
      assert outputs == outputs[..n] + [f];
      assert LevelEntries(outputs) == LevelEntries(outputs[..n]) + Elements(f.entries);
      forall i | 0 <= i < n ensures Less(outputs[i].largest, f.smallest) {
        var g := outputs[i];
        assert g == outputs[..n][i] && g in outputs && f in outputs;
        var last := g.entries[|g.entries| - 1];
        FileEntry(outputs[..n], g, last);
        assert last in Elements(rest);
        var j :| 0 <= j < |rest| && rest[j] == last;
        assert Less(kept[j].ikey, kept[|rest|].ikey);
      }
    }
  }

  lemma SmallerIsDistinct(small: set<Entry>, large: set<Entry>)
    requires small <= large && Distinct(large)
    ensures Distinct(small)
  {
  }

  lemma LevelWithinVersion(v: Version, l: nat)
    requires l < |v|
    ensures LevelEntries(v[l]) <= VersionEntries(v)
  {
  }

  lemma DiskIsDistinct(db: DB)
    requires MemoryInvariant(db)
    ensures Distinct(VersionEntries(db.version))
  {
    SmallerIsDistinct(VersionEntries(db.version), Elements(db.mem) + ImmEntries(db) + VersionEntries(db.version));
  }

  /** What selecting inputs needs of two neighbouring levels. */
  ghost predicate GoodLevels(files: Level, next: Level, levelZero: bool) {
    && ValidFiles(files) && Distinct(LevelEntries(files)) && (!levelZero ==> Disjoint(files))
    && ValidFiles(next) && Disjoint(next)
  }

  lemma LevelsAreGood(v: Version, level: nat)
    requires ValidVersion(v) && Distinct(VersionEntries(v)) && level + 1 < NUM_LEVELS
    ensures GoodLevels(v[level], v[level + 1], level == 0)
  {
    LevelWithinVersion(v, level);
    SmallerIsDistinct(LevelEntries(v[level]), VersionEntries(v));
  }

  lemma ValidInputsWithin(v: Version, job: Job)
    requires job.level + 1 < |v| && ValidInputs(v[job.level], v[job.level + 1], job.inputs0, job.inputs1)
    ensures InputSet(job) <= VersionEntries(v)
  {
    InputsWithinVersion(v, job.level, job.inputs0);
    InputsWithinVersion(v, job.level + 1, job.inputs1);
  }

  lemma {:induction false} PickedFromGood(v: Version, task: Task)
    requires |v| == NUM_LEVELS && Picked(v, task)
    requires GoodLevels(v[task.job.level], v[task.job.level + 1], task.job.level == 0)
    ensures ValidInputs(v[task.job.level], v[task.job.level + 1], task.job.inputs0, task.job.inputs1)
    ensures InputSet(task.job) <= VersionEntries(v)
  {
    var level := task.job.level;
    SelectedIsValid(v[level], v[level + 1], level == 0, task.chosen, task.job.inputs0, task.job.inputs1);
    ValidInputsWithin(v, task.job);
  }

  lemma PickedIsValid(v: Version, task: Task)
    requires ValidVersion(v) && Distinct(VersionEntries(v)) && Picked(v, task)
    ensures ValidInputs(v[task.job.level], v[task.job.level + 1], task.job.inputs0, task.job.inputs1)
    ensures InputSet(task.job) <= VersionEntries(v)
  {
    LevelsAreGood(v, task.job.level);
    PickedFromGood(v, task);
  }

  lemma SoundMoves(v: Version, job: Job)
    requires ValidVersion(v) && SoundJob(v, job)
    ensures Moved(v, LogAndApply(v, JobEdit(job)), job)
  {
    JobMoves(v, job);
  }

  /** A moved file keeps its number, which no other file has. */
  lemma MovedNumberFree(v: Version, job: Job)
    requires UniqueNumbers(v) && job.level < |v| && |job.inputs0| == 1 && job.outputs == job.inputs0
    requires job.inputs0[0] in v[job.level]
    ensures OutputNumbersFree(v, job)
  {
    forall o, l, g: File | o in job.outputs && 0 <= l < |v| && g in v[l] && o.number == g.number
      ensures l == job.level && g in job.inputs0
    {
      assert o == job.inputs0[0];
    }
  }

  lemma MovedOutputs(files: Level, inputs: seq<File>)
    requires ValidFiles(files) && |inputs| == 1 && inputs[0] in files
    ensures ValidFiles(inputs) && Disjoint(inputs)
  {
  }

  lemma MovedIsSound(v: Version, job: Job)
    requires job.level + 1 < |v| && ValidInputs(v[job.level], v[job.level + 1], job.inputs0, job.inputs1)
    requires |job.inputs0| == 1 && job.inputs1 == [] && job.outputs == job.inputs0
    requires ValidFiles(v[job.level]) && UniqueNumbers(v)
    ensures SoundJob(v, job)
  {
    assert job.inputs0[0] in job.inputs0;
    MovedNumberFree(v, job);
    MovedOutputs(v[job.level], job.inputs0);
  }

  ghost predicate IsMove(job: Job) {
    |job.inputs0| == 1 && job.inputs1 == [] && job.outputs == job.inputs0
  }

  lemma MovedFromGood(v: Version, task: Task)
    requires |v| == NUM_LEVELS && UniqueNumbers(v) && Picked(v, task) && IsMove(task.job)
    requires GoodLevels(v[task.job.level], v[task.job.level + 1], task.job.level == 0)
    ensures SoundJob(v, task.job)
  {
    PickedFromGood(v, task);
    MovedIsSound(v, task.job);
  }

  lemma MoveIsSoundOn(v: Version, task: Task)
    requires ValidVersion(v) && Distinct(VersionEntries(v)) && Picked(v, task) && IsMove(task.job)
    ensures SoundJob(v, task.job)
  {
    LevelsAreGood(v, task.job.level);
    MovedFromGood(v, task);
  }

  lemma MoveIsSound(db: DB, task: Task, after: DB)
    requires Invariant(db) && MoveStep(db, task, after)
    ensures SoundJob(db.version, task.job) && Moved(db.version, after.version, task.job)
  {
    DiskIsDistinct(db);
    MoveIsSoundOn(db.version, task);
    SoundMoves(db.version, task.job);
  }

  lemma CompactNumbersFree(v: Version, job: Job, first: nat)
    requires NumbersBelow(v, first)
    requires forall i :: 0 <= i < |job.outputs| ==> first <= job.outputs[i].number
    requires forall i, j :: 0 <= i < j < |job.outputs| ==> job.outputs[i].number < job.outputs[j].number
    ensures OutputNumbersFree(v, job)
  {
    forall o | o in job.outputs ensures first <= o.number {
      var i :| 0 <= i < |job.outputs| && job.outputs[i] == o;
    }
  }

  lemma InputsWithinVersion(v: Version, level: nat, inputs: seq<File>)
    requires level < |v| && forall f :: f in inputs ==> f in v[level]
    ensures LevelEntries(inputs) <= VersionEntries(v)
  {
    forall e | e in LevelEntries(inputs) ensures e in VersionEntries(v) {
      InputsInLevel(v[level], inputs, e);
    }
  }

  /** The outputs of a compaction, as files, hold what its rules keep. */
  lemma OutputsFollowRules(v: Version, job: Job, run: seq<Entry>, oldest: nat, first: nat, next: nat)
    requires Sorted(run) && Elements(run) == InputSet(job) && Distinct(Elements(run)) && oldest < MAX_SEQUENCE
    requires OutputFiles(job.outputs, Kept(v, job.level, run, oldest, |run|), first, next)
    ensures OutputsByRules(v, job, oldest) && Disjoint(job.outputs)
  {
    var kept := Kept(v, job.level, run, oldest, |run|);
    KeptIs(v, job.level, run, oldest);
    OutputsHoldKept(job.outputs, seq(|job.outputs|, i requires 0 <= i < |job.outputs| => job.outputs[i].entries), kept);
    forall e ensures e in LevelEntries(job.outputs)
      <==> e in InputSet(job) && !Hidden(InputSet(job), e, oldest) && !Obsolete(v, job.level, e, oldest)
    {
      assert e in LevelEntries(job.outputs) <==> e in kept;
      assert e in run <==> e in InputSet(job);
    }
  }

  lemma CompactedFromGood(v: Version, task: Task, first: nat, next: nat)
    requires |v| == NUM_LEVELS && Distinct(VersionEntries(v)) && NumbersBelow(v, first) && Picked(v, task)
    requires GoodLevels(v[task.job.level], v[task.job.level + 1], task.job.level == 0)
    requires Sorted(task.run) && Elements(task.run) == InputSet(task.job) && task.oldest < MAX_SEQUENCE
    requires OutputFiles(task.job.outputs, Kept(v, task.job.level, task.run, task.oldest, |task.run|), first, next)
    ensures SoundJob(v, task.job) && OutputsByRules(v, task.job, task.oldest)
  {
    PickedFromGood(v, task);
    SmallerIsDistinct(Elements(task.run), VersionEntries(v));
    OutputsFollowRules(v, task.job, task.run, task.oldest, first, next);
    CompactNumbersFree(v, task.job, first);
    SoundFromParts(v, task.job, task.oldest);
  }

  lemma CompactIsSoundOn(v: Version, task: Task, first: nat, next: nat)
    requires ValidVersion(v) && Distinct(VersionEntries(v)) && NumbersBelow(v, first) && Picked(v, task)
    requires Sorted(task.run) && Elements(task.run) == InputSet(task.job) && task.oldest < MAX_SEQUENCE
    requires OutputFiles(task.job.outputs, Kept(v, task.job.level, task.run, task.oldest, |task.run|), first, next)
    ensures SoundJob(v, task.job) && OutputsByRules(v, task.job, task.oldest)
  {
    LevelsAreGood(v, task.job.level);
    CompactedFromGood(v, task, first, next);
  }

  lemma CompactIsSound(db: DB, task: Task, after: DB)
    requires Invariant(db) && CompactStep(db, task, after)
    ensures SoundJob(db.version, task.job) && Moved(db.version, after.version, task.job)
    ensures OutputsByRules(db.version, task.job, task.oldest)
  {
    DiskIsDistinct(db);
    CompactIsSoundOn(db.version, task, db.nextFile, after.nextFile);
    SoundMoves(db.version, task.job);
  }

  lemma SoundFromParts(v: Version, job: Job, oldest: nat)
    requires job.level + 1 < |v| && ValidInputs(v[job.level], v[job.level + 1], job.inputs0, job.inputs1)
    requires OutputsByRules(v, job, oldest)
    requires ValidFiles(job.outputs) && Disjoint(job.outputs) && OutputNumbersFree(v, job)
    ensures SoundJob(v, job)
  {
    forall e | e in LevelEntries(job.outputs)
      ensures e in LevelEntries(job.inputs0) || e in LevelEntries(job.inputs1)
    {
      assert e in InputSet(job);
    }
  }

  lemma DiskShrinks(mem: set<Entry>, imm: set<Entry>, disk: set<Entry>, smaller: set<Entry>, last: nat)
    requires LayersFollowAge(mem, imm, disk, last) && smaller <= disk
    ensures LayersFollowAge(mem, imm, smaller, last)
  {
    SmallerIsDistinct(mem + imm + smaller, mem + imm + disk);
  }

  lemma JobDisk(v: Version, w: Version, job: Job, nextFile: nat, after: nat)
    requires DiskInvariant(v, nextFile) && SoundJob(v, job) && Moved(v, w, job) && nextFile <= after
    requires forall o :: o in job.outputs ==> o.number < after
    ensures DiskInvariant(w, after)
  {
    JobKeepsValid(v, w, job);
    JobNumbersBelow(v, w, job, nextFile, after);
  }

  lemma JobNumbersBelow(v: Version, w: Version, job: Job, nextFile: nat, after: nat)
    requires job.level + 1 < |v| && NumbersBelow(v, nextFile) && Moved(v, w, job) && nextFile <= after
    requires forall o :: o in job.outputs ==> o.number < after
    ensures NumbersBelow(w, after)
  {
    forall l, g: File | 0 <= l < |w| && g in w[l] ensures g.number < after {
      assert g in job.outputs || g in v[l];
    }
  }

  lemma JobMemory(db: DB, after: DB)
    requires MemoryInvariant(db) && after == db.(version := after.version, nextFile := after.nextFile)
    requires VersionEntries(after.version) <= VersionEntries(db.version)
    ensures MemoryInvariant(after)
  {
    DiskShrinks(Elements(db.mem), ImmEntries(db), VersionEntries(db.version), VersionEntries(after.version),
                db.lastSequence);
  }

  lemma JobKeepsInvariant(db: DB, job: Job, after: DB)
    requires Invariant(db) && SoundJob(db.version, job) && Moved(db.version, after.version, job)
    requires after == db.(version := after.version, nextFile := after.nextFile) && after.nextFile >= db.nextFile
    requires forall o :: o in job.outputs ==> o.number < after.nextFile
    ensures Invariant(after)
  {
    JobDisk(db.version, after.version, job, db.nextFile, after.nextFile);
    EntriesAfter(db.version, after.version, job);
    JobMemory(db, after);
  }

  /** Replacing the lowest layer without changing what is read through it changes no read. */
  lemma LowestLayerReplaced(upper: set<Entry>, lower: set<Entry>, other: set<Entry>, user: UserKey, s: nat)
    requires Distinct(upper + lower) && other <= lower && NewerThan(upper, lower)
    requires ReadAt(other, user, s) == ReadAt(lower, user, s)
    ensures ReadAt(upper + other, user, s) == ReadAt(upper + lower, user, s)
  {
    SmallerIsDistinct(upper + other, upper + lower);
    NewestExists(upper, user, s);
    if n :| IsNewest(upper, user, s, n) {
      NewestOfLayers(upper, lower, user, s, n);
      NewestOfLayers(upper, other, user, s, n);
      ReadAtNewest(upper + lower, user, s, n);
      ReadAtNewest(upper + other, user, s, n);
    } else {
      ReadThroughEmptyLayer(upper, lower, user, s);
      ReadThroughEmptyLayer(upper, other, user, s);
    }
  }

  lemma ReadThroughEmptyLayer(upper: set<Entry>, lower: set<Entry>, user: UserKey, s: nat)
    requires Distinct(upper + lower) && forall x :: x in upper ==> !Visible(x, user, s)
    ensures ReadAt(upper + lower, user, s) == ReadAt(lower, user, s)
  {
    SmallerIsDistinct(lower, upper + lower);
    NewestExists(lower, user, s);
    if n :| IsNewest(lower, user, s, n) {
      NewestUnderEmptyLayer(upper, lower, user, s, n);
      ReadAtNewest(lower, user, s, n);
      ReadAtNewest(upper + lower, user, s, n);
    } else {
      assert !exists n :: IsNewest(upper + lower, user, s, n);
    }
  }

  lemma ReadsThroughJob(db: DB, job: Job, after: DB, user: UserKey, s: nat)
    requires Invariant(db) && SoundJob(db.version, job) && Moved(db.version, after.version, job)
    requires after.mem == db.mem && after.imm == db.imm
    requires ReadAt(VersionEntries(after.version), user, s) == ReadAt(VersionEntries(db.version), user, s)
    ensures ReadAt(AllEntries(after), user, s) == ReadAt(AllEntries(db), user, s)
  {
    EntriesAfter(db.version, after.version, job);
    LowestLayerReplaced(Elements(db.mem) + ImmEntries(db), VersionEntries(db.version),
                        VersionEntries(after.version), user, s);
  }

  // ----- every step -----

  lemma MoveKeepsInvariant(db: DB, task: Task, after: DB)
    requires Invariant(db) && MoveStep(db, task, after)
    ensures Invariant(after)
  {
    MoveIsSound(db, task, after);
    JobKeepsInvariant(db, task.job, after);
  }

  lemma CompactKeepsInvariant(db: DB, task: Task, after: DB)
    requires Invariant(db) && CompactStep(db, task, after)
    ensures Invariant(after)
  {
    CompactIsSound(db, task, after);
    forall o | o in task.job.outputs ensures o.number < after.nextFile {
      var i :| 0 <= i < |task.job.outputs| && task.job.outputs[i] == o;
    }
    JobKeepsInvariant(db, task.job, after);
  }

  lemma SwitchKeepsInvariant(db: DB, after: DB)
    requires Invariant(db) && Next(db, SwitchMemTable, after)
    ensures Invariant(after) && AllEntries(after) == AllEntries(db)
  {
    assert Elements([]) == {};
    assert Elements(db.mem) + ImmEntries(db) + VersionEntries(db.version)
        == Elements(after.mem) + ImmEntries(after) + VersionEntries(after.version);
  }

  lemma MoveKeepsEntries(v: Version, w: Version, job: Job)
    requires ValidVersion(v) && SoundJob(v, job) && Moved(v, w, job) && IsMove(job)
    ensures VersionEntries(w) == VersionEntries(v)
  {
    EntriesAfter(v, w, job);
    assert LevelEntries(job.inputs1) == {};
  }

  lemma SameDisk(db: DB, after: DB)
    requires after.mem == db.mem && after.imm == db.imm && VersionEntries(after.version) == VersionEntries(db.version)
    ensures AllEntries(after) == AllEntries(db)
  {
  }

  lemma ReadsSurviveMove(db: DB, task: Task, after: DB)
    requires Invariant(db) && MoveStep(db, task, after)
    ensures AllEntries(after) == AllEntries(db)
  {
    MoveIsSound(db, task, after);
    MoveKeepsEntries(db.version, after.version, task.job);
    SameDisk(db, after);
  }

  /** Where a memtable decides the read, the disk does not matter. */
  lemma ReadIsShadowed(upper: set<Entry>, lower: set<Entry>, user: UserKey, oldest: nat, s: nat)
    requires Distinct(upper + lower) && NewerThan(upper, lower) && oldest <= s
    requires exists x :: x in upper && Visible(x, user, oldest)
    ensures ReadAt(upper + lower, user, s) == ReadAt(upper, user, s)
  {
    SmallerIsDistinct(upper, upper + lower);
    var x :| x in upper && Visible(x, user, oldest);
    assert Visible(x, user, s);
    NewestExists(upper, user, s);
    var n :| IsNewest(upper, user, s, n);
    assert IsNewest(upper, user, s, n);
    NewestOfLayers(upper, lower, user, s, n);
    ReadAtNewest(upper + lower, user, s, n);
    ReadAtNewest(upper, user, s, n);
  }

  lemma MemoryOverDisk(db: DB)
    requires MemoryInvariant(db)
    ensures var memory := Elements(db.mem) + ImmEntries(db);
      Distinct(memory + VersionEntries(db.version)) && NewerThan(memory, VersionEntries(db.version))
  {
  }

  lemma ReadThroughCompaction(db: DB, task: Task, after: DB, user: UserKey, s: nat)
    requires Invariant(db) && CompactStep(db, task, after) && s >= task.oldest
    requires Uncovers(db.version, task.job, task.oldest, user) ==> Shadowed(db, user, task.oldest)
    ensures ReadAt(AllEntries(after), user, s) == ReadAt(AllEntries(db), user, s)
  {
    CompactIsSound(db, task, after);
    if Uncovers(db.version, task.job, task.oldest, user) {
      CompactKeepsInvariant(db, task, after);
      MemoryOverDisk(db);
      MemoryOverDisk(after);
      ReadIsShadowed(Elements(db.mem) + ImmEntries(db), VersionEntries(db.version), user, task.oldest, s);
      ReadIsShadowed(Elements(db.mem) + ImmEntries(db), VersionEntries(after.version), user, task.oldest, s);
    } else {
      DiskIsDistinct(db);
      ReadPreserved(db.version, after.version, task.job, task.oldest, user, s);
      ReadsThroughJob(db, task.job, after, user, s);
    }
  }

  lemma ReadsSurviveCompaction(db: DB, task: Task, after: DB, s: nat, view: map<UserKey, Value>)
    requires Invariant(db) && CompactStep(db, task, after) && Harmless(db, Compact(task))
    requires s >= task.oldest && Reads(AllEntries(db), s, view)
    ensures Reads(AllEntries(after), s, view)
  {
    forall user ensures ReadAt(AllEntries(after), user, s) == Lookup(view, user) {
      ReadThroughCompaction(db, task, after, user, s);
    }
  }

  /** A value that is uncovered, and not behind an entry of a memtable, is read again. */
  lemma UncoveredIsRead(db: DB, task: Task, after: DB, user: UserKey)
    requires Invariant(db) && CompactStep(db, task, after)
    requires Uncovers(db.version, task.job, task.oldest, user) && !Shadowed(db, user, task.oldest)
    ensures ReadAt(AllEntries(db), user, task.oldest) == NotFound
    ensures ReadAt(AllEntries(after), user, task.oldest).Found?
  {
    CompactIsSound(db, task, after);
    CompactKeepsInvariant(db, task, after);
    DiskIsDistinct(db);
    ReadUncovered(db.version, after.version, task.job, task.oldest, user);
    MemoryOverDisk(db);
    MemoryOverDisk(after);
    ReadThroughEmptyLayer(Elements(db.mem) + ImmEntries(db), VersionEntries(db.version), user, task.oldest);
    ReadThroughEmptyLayer(Elements(db.mem) + ImmEntries(db), VersionEntries(after.version), user, task.oldest);
  }

  /** A compaction leaves the map as it is, now and at every live snapshot, if and only if every value
      that it uncovers lies behind an entry of a memtable. */
  lemma CompactionRefinesIff(db: DB, task: Task, after: DB, spec: Spec)
    requires Invariant(db) && CompactStep(db, task, after) && Represents(db, spec) && IsLive(db, task.oldest)
    ensures Represents(after, spec) <==> Harmless(db, Compact(task))
  {
    if Harmless(db, Compact(task)) {
      CompactRefines(db, task, after, spec);
    } else {
      var user :| Uncovers(db.version, task.job, task.oldest, user) && !Shadowed(db, user, task.oldest);
      UncoveredIsRead(db, task, after, user);
      ReadsApart(AllEntries(db), AllEntries(after), db.lastSequence, db.snapshots, spec, user, task.oldest);
    }
  }

  lemma ReadsApart(before: set<Entry>, after: set<Entry>, last: nat, snapshots: seq<nat>, spec: Spec, user: UserKey, s: nat)
    requires ReadsAll(before, last, snapshots, spec) && ReadAt(before, user, s) != ReadAt(after, user, s)
    requires s == last || exists i :: 0 <= i < |snapshots| && snapshots[i] == s
    ensures !ReadsAll(after, last, snapshots, spec)
  {
    if s != last {
      var i :| 0 <= i < |snapshots| && snapshots[i] == s;
      assert ReadAt(before, user, s) == Lookup(spec.frozen[i], user);
    }
  }

  lemma CompactRefines(db: DB, task: Task, after: DB, spec: Spec)
    requires Invariant(db) && CompactStep(db, task, after) && Harmless(db, Compact(task)) && Represents(db, spec)
    ensures Represents(after, spec)
  {
    ReadsSurviveCompaction(db, task, after, db.lastSequence, spec.view);
    forall i | 0 <= i < |db.snapshots| ensures Reads(AllEntries(after), db.snapshots[i], spec.frozen[i]) {
      ReadsSurviveCompaction(db, task, after, db.snapshots[i], spec.frozen[i]);
    }
  }

  lemma FlushRefines(db: DB, level: nat, file: Option<File>, after: DB, spec: Spec)
    requires Invariant(db) && FlushStep(db, level, file, after) && Represents(db, spec)
    ensures Invariant(after) && Represents(after, spec)
  {
    if file.Some? {
      FlushKeepsInvariant(db, level, file.value, after);
    } else {
      assert Elements([]) == {};
      assert AllEntries(after) == AllEntries(db);
    }
  }

  lemma TakeSnapshotRefines(db: DB, after: DB, spec: Spec)
    requires Invariant(db) && Next(db, TakeSnapshot, after) && Represents(db, spec)
    ensures Invariant(after) && Represents(after, SpecNext(spec, TakeSnapshot))
  {
    assert AllEntries(after) == AllEntries(db);
  }

  lemma ReleaseSnapshotRefines(db: DB, i: nat, after: DB, spec: Spec)
    requires Invariant(db) && Next(db, ReleaseSnapshot(i), after) && Represents(db, spec)
    ensures i < |spec.frozen|
    ensures Invariant(after) && Represents(after, SpecNext(spec, ReleaseSnapshot(i)))
  {
    assert AllEntries(after) == AllEntries(db);
    var next := SpecNext(spec, ReleaseSnapshot(i));
    forall k | 0 <= k < |after.snapshots|
      ensures after.snapshots[k] <= after.lastSequence && Reads(AllEntries(after), after.snapshots[k], next.frozen[k])
    {
      var j := if k < i then k else k + 1;
      assert after.snapshots[k] == db.snapshots[j] && next.frozen[k] == spec.frozen[j];
    }
    ReleasedInOrder(db.snapshots, db.lastSequence, i);
  }

  lemma ReleasedInOrder(snapshots: seq<nat>, last: nat, i: nat)
    requires SnapshotsInOrder(snapshots, last) && i < |snapshots|
    ensures SnapshotsInOrder(snapshots[..i] + snapshots[i + 1..], last)
  {
  }

  lemma WriteStepRefines(db: DB, batch: seq<Op>, after: DB, spec: Spec)
    requires Invariant(db) && Next(db, Write(batch), after) && Represents(db, spec)
    ensures Invariant(after) && Represents(after, SpecNext(spec, Write(batch)))
  {
    WriteRefines(db, batch, spec);
    assert after == WriteAll(db, batch);
  }

  lemma MoveRefines(db: DB, task: Task, after: DB, spec: Spec)
    requires Invariant(db) && MoveStep(db, task, after) && Represents(db, spec)
    ensures Invariant(after) && Represents(after, spec)
  {
    MoveKeepsInvariant(db, task, after);
    ReadsSurviveMove(db, task, after);
  }

  lemma SwitchRefines(db: DB, after: DB, spec: Spec)
    requires Invariant(db) && Next(db, SwitchMemTable, after) && Represents(db, spec)
    ensures Invariant(after) && Represents(after, spec)
  {
    SwitchKeepsInvariant(db, after);
  }

  /** One step of the database is one step of the map, or none: background work changes no read
      now and none at any live snapshot. */
  lemma StepRefines(db: DB, step: Step, after: DB, spec: Spec)
    requires Invariant(db) && Next(db, step, after) && Harmless(db, step) && Represents(db, spec)
    ensures step.ReleaseSnapshot? ==> step.index < |spec.frozen|
    ensures Invariant(after) && Represents(after, SpecNext(spec, step))
  {
    match step
    case Write(batch) => WriteStepRefines(db, batch, after, spec);
    case SwitchMemTable => SwitchRefines(db, after, spec);
    case Flush(level, file) => FlushRefines(db, level, file, after, spec);
    case Move(task) => MoveRefines(db, task, after, spec);
    case Compact(task) =>
      CompactKeepsInvariant(db, task, after);
      CompactRefines(db, task, after, spec);
    case TakeSnapshot => TakeSnapshotRefines(db, after, spec);
    case ReleaseSnapshot(i) => ReleaseSnapshotRefines(db, i, after, spec);
  }

  // ----- every run -----

  const NO_FILES: Version := seq(NUM_LEVELS, _ => [])

  /** A new database: next_file_number_ starts at 2. */
  const INITIAL_DB := DB([], None, NO_FILES, 0, [], 2)

  const INITIAL_SPEC := Spec(map[], [])

  /** `steps` leads from `db` to `after`, and every compaction on the way is harmless. */
  ghost predicate Reaches(db: DB, steps: seq<Step>, after: DB)
    decreases |steps|
  {
    if steps == [] then db == after else
      |db.version| == NUM_LEVELS && Harmless(db, steps[0])
      && exists mid :: Next(db, steps[0], mid) && Reaches(mid, steps[1..], after)
  }

  ghost predicate SpecReaches(spec: Spec, steps: seq<Step>, after: Spec)
    decreases |steps|
  {
    if steps == [] then spec == after else
      && (steps[0].ReleaseSnapshot? ==> steps[0].index < |spec.frozen|)
      && SpecReaches(SpecNext(spec, steps[0]), steps[1..], after)
  }

  lemma {:induction false} RunRefines(db: DB, spec: Spec, steps: seq<Step>, after: DB) returns (result: Spec)
    requires Invariant(db) && Represents(db, spec) && Reaches(db, steps, after)
    ensures SpecReaches(spec, steps, result)
    ensures Invariant(after) && Represents(after, result)
    decreases |steps|
  {
    if steps == [] {
      result := spec;
    } else {
      var mid :| Next(db, steps[0], mid) && Reaches(mid, steps[1..], after);
      assert Next(db, steps[0], mid);
      StepRefines(db, steps[0], mid, spec);
      result := RunRefines(mid, SpecNext(spec, steps[0]), steps[1..], after);
    }
  }

  lemma NoFilesValid()
    ensures ValidVersion(NO_FILES) && VersionEntries(NO_FILES) == {}
  {
    assert forall l :: 0 <= l < NUM_LEVELS ==> NO_FILES[l] == [];
    assert LevelEntries([]) == {};
  }

  lemma NothingToRead(user: UserKey)
    ensures ReadAt({}, user, 0) == NotFound
  {
    assert !exists e :: IsNewest({}, user, 0, e);
  }

  lemma InitialHolds()
    ensures Invariant(INITIAL_DB) && Represents(INITIAL_DB, INITIAL_SPEC)
  {
    NoFilesValid();
    assert Elements([]) == {} && ImmEntries(INITIAL_DB) == {};
    assert AllEntries(INITIAL_DB) == {};
    forall user ensures ReadAt(AllEntries(INITIAL_DB), user, 0) == Lookup(map[], user) {
      NothingToRead(user);
    }
  }

  // ----- the invariant over every run, whatever its compactions uncover -----

  lemma {:induction false} WriteKeepsMemory(db: DB, batch: seq<Op>)
    requires MemoryInvariant(db) && db.lastSequence + |batch| < MAX_SEQUENCE
    ensures MemoryInvariant(WriteAll(db, batch))
    decreases |batch|
  {
    if batch == [] {
      assert WriteAll(db, batch) == db;
    } else {
      WriteAllSplits(db, batch);
      WriteOneKeepsInvariant(db, batch[0]);
      WriteKeepsMemory(WriteOne(db, batch[0]), batch[1..]);
    }
  }

  lemma WriteKeepsInvariant(db: DB, batch: seq<Op>, after: DB)
    requires Invariant(db) && Next(db, Write(batch), after)
    ensures Invariant(after)
  {
    WriteKeepsMemory(db, batch);
    assert after == WriteAll(db, batch);
  }

  lemma FlushStepKeepsInvariant(db: DB, level: nat, file: Option<File>, after: DB)
    requires Invariant(db) && FlushStep(db, level, file, after)
    ensures Invariant(after)
  {
    if file.Some? {
      FlushKeepsInvariant(db, level, file.value, after);
    } else {
      assert Elements([]) == {};
    }
  }

  lemma ReleaseKeepsInvariant(db: DB, i: nat, after: DB)
    requires Invariant(db) && Next(db, ReleaseSnapshot(i), after)
    ensures Invariant(after)
  {
    ReleasedInOrder(db.snapshots, db.lastSequence, i);
  }

  /** Every step keeps the invariant, a compaction that uncovers a value as well. */
  lemma StepKeepsInvariant(db: DB, step: Step, after: DB)
    requires Invariant(db) && Next(db, step, after)
    ensures Invariant(after)
  {
    match step
    case Write(batch) => WriteKeepsInvariant(db, batch, after);
    case SwitchMemTable => SwitchKeepsInvariant(db, after);
    case Flush(level, file) => FlushStepKeepsInvariant(db, level, file, after);
    case Move(task) => MoveKeepsInvariant(db, task, after);
    case Compact(task) => CompactKeepsInvariant(db, task, after);
    case TakeSnapshot =>
    case ReleaseSnapshot(i) => ReleaseKeepsInvariant(db, i, after);
  }

  /** `steps` leads from `db` to `after`. */
  ghost predicate ReachesAny(db: DB, steps: seq<Step>, after: DB)
    decreases |steps|
  {
    if steps == [] then db == after else
      && |db.version| == NUM_LEVELS
      && exists mid :: Next(db, steps[0], mid) && ReachesAny(mid, steps[1..], after)
  }

  lemma {:induction false} RunKeepsInvariant(db: DB, steps: seq<Step>, after: DB)
    requires Invariant(db) && ReachesAny(db, steps, after)
    ensures Invariant(after)
    decreases |steps|
  {
    if steps != [] {
      var mid :| Next(db, steps[0], mid) && ReachesAny(mid, steps[1..], after);
      assert Next(db, steps[0], mid);
      StepKeepsInvariant(db, steps[0], mid);
      RunKeepsInvariant(mid, steps[1..], after);
    }
  }

  /** Every run from an empty database keeps the invariant: lookups and iterators find the newest
      entry that is there, whether or not a compaction uncovered a value on the way. */
  lemma EveryRunKeepsInvariant(steps: seq<Step>, after: DB)
    requires ReachesAny(INITIAL_DB, steps, after)
    ensures Invariant(after)
  {
    InitialHolds();
    RunKeepsInvariant(INITIAL_DB, steps, after);
  }

  /** Over every run from an empty database in which every compaction is harmless, reads at any
      live snapshot give the map as it was when the snapshot was taken. */
  lemma EveryRunIsAMap(steps: seq<Step>, after: DB) returns (result: Spec)
    requires Reaches(INITIAL_DB, steps, after)
    ensures SpecReaches(INITIAL_SPEC, steps, result)
    ensures Invariant(after) && Represents(after, result)
  {
    InitialHolds();
    result := RunRefines(INITIAL_DB, INITIAL_SPEC, steps, after);
  }
}
