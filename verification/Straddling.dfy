/**
 When a compaction can bring a deleted value back: only when a user key straddles two files of
 a level, which needs a snapshot that was live while its entries were compacted.
 */
module Straddling {
  import opened Common
  import opened InternalKeys
  import opened Versions
  import opened Inputs
  import opened Selection
  import opened Compaction
  import opened Install
  import opened Meaning
  import opened Database
  import opened Refinement
  import VB = VersionBuilder

  predicate Apart(f: File, g: File) {
    f.largest.user < g.smallest.user || g.largest.user < f.smallest.user
  }

  /** No user key lies in the ranges of two files. */
  ghost predicate NoKeyStraddles(files: Level) {
    forall f, g :: f in files && g in files && f != g ==> Apart(f, g)
  }

  ghost predicate NoKeyStraddlesBelow(v: Version) {
    forall l :: 1 <= l < |v| ==> NoKeyStraddles(v[l])
  }

  /** A file left behind then shares no user key with any input. */
  lemma LeftBehindSharesNoKey(next: Level, inputs0: seq<File>, inputs1: seq<File>, h: File, e: Entry)
    requires ValidFiles(next) && NoKeyStraddles(next) && CoversNextLevel(next, inputs0, inputs1)
    requires forall f :: f in inputs1 ==> f in next
    requires h in next && h !in inputs1 && (e in LevelEntries(inputs0) || e in LevelEntries(inputs1))
    ensures !(h.smallest.user <= e.ikey.user <= h.largest.user)
  {
    if e in LevelEntries(inputs1) {
      var g :| g in inputs1 && e in g.entries;
      assert g in next && Apart(g, h);
      FileBounds(g, e);
    }
  }

  /** So a compaction into a level where no key straddles uncovers nothing. */
  lemma NothingUncovered(v: Version, job: Job, snapshot: nat, user: UserKey)
    requires SoundJob(v, job) && ValidFiles(v[job.level + 1]) && NoKeyStraddles(v[job.level + 1])
    ensures !Uncovers(v, job, snapshot, user)
  {
    forall d: Entry, r: Entry | d in InputSet(job) && r in LeftBehind(v, job)
      ensures d.ikey.user != r.ikey.user
    {
      var h :| h in v[job.level + 1] && h !in job.inputs1 && r in h.entries;
      LeftBehindSharesNoKey(v[job.level + 1], job.inputs0, job.inputs1, h, d);
      FileBounds(h, r);
    }
  }

  /** When the oldest snapshot sees every input entry, a user key keeps at most one entry. */
  lemma OneEntryPerKey(v: Version, job: Job, oldest: nat, x: Entry, y: Entry)
    requires OutputsByRules(v, job, oldest) && Distinct(InputSet(job))
    requires forall e :: e in InputSet(job) ==> e.ikey.seqno <= oldest
    requires x in LevelEntries(job.outputs) && y in LevelEntries(job.outputs) && x.ikey.user == y.ikey.user
    ensures x == y
  {
    assert !Hidden(InputSet(job), x, oldest) && !Hidden(InputSet(job), y, oldest);
    assert x.ikey.seqno == y.ikey.seqno;
  }

  lemma OutputsDoNotStraddle(v: Version, job: Job, oldest: nat)
    requires OutputsByRules(v, job, oldest) && Distinct(InputSet(job))
    requires forall e :: e in InputSet(job) ==> e.ikey.seqno <= oldest
    requires ValidFiles(job.outputs) && Disjoint(job.outputs)
    ensures NoKeyStraddles(job.outputs)
  {
    var outputs := job.outputs;
    forall f, g | f in outputs && g in outputs && f != g ensures Apart(f, g) {
      PairsFromDisjoint(outputs, f, g);
      if Less(f.largest, g.smallest) {
        EndsDiffer(v, job, oldest, f, g);
      } else {
        EndsDiffer(v, job, oldest, g, f);
      }
    }
  }

  lemma EndsDiffer(v: Version, job: Job, oldest: nat, f: File, g: File)
    requires OutputsByRules(v, job, oldest) && Distinct(InputSet(job))
    requires forall e :: e in InputSet(job) ==> e.ikey.seqno <= oldest
    requires f in job.outputs && g in job.outputs && ValidFile(f) && ValidFile(g) && Less(f.largest, g.smallest)
    ensures Apart(f, g)
  {
    var last, first := f.entries[|f.entries| - 1], g.entries[0];
    FileEntry(job.outputs, f, last);
    FileEntry(job.outputs, g, first);
    if last.ikey.user == first.ikey.user {
      OneEntryPerKey(v, job, oldest, last, first);
    }
  }

  lemma OutputSharesNoKey(next: Level, job: Job, h: File, e: Entry)
    requires ValidFiles(next) && NoKeyStraddles(next) && CoversNextLevel(next, job.inputs0, job.inputs1)
    requires (forall f :: f in job.inputs1 ==> f in next) && OutputsFromInputs(job)
    requires h in next && h !in job.inputs1 && e in LevelEntries(job.outputs)
    ensures !(h.smallest.user <= e.ikey.user <= h.largest.user)
  {
    LeftBehindSharesNoKey(next, job.inputs0, job.inputs1, h, e);
  }

  lemma EndsApart(h: File, g: File)
    requires ValidFile(h) && ValidFile(g) && (Less(h.largest, g.smallest) || Less(g.largest, h.smallest))
    requires !(h.smallest.user <= g.smallest.user <= h.largest.user) && !(h.smallest.user <= g.largest.user <= h.largest.user)
    ensures Apart(h, g)
  {
    FileBounds(h, h.entries[0]);
    FileBounds(g, g.entries[0]);
  }

  lemma OutputApartFromRest(next: Level, job: Job, h: File, g: File)
    requires ValidFiles(next) && NoKeyStraddles(next) && CoversNextLevel(next, job.inputs0, job.inputs1)
    requires (forall f :: f in job.inputs1 ==> f in next) && OutputsFromInputs(job)
    requires h in next && h !in job.inputs1 && g in job.outputs && ValidFile(g)
    requires Less(h.largest, g.smallest) || Less(g.largest, h.smallest)
    ensures Apart(h, g)
  {
    var first, last := g.entries[0], g.entries[|g.entries| - 1];
    FileEntry(job.outputs, g, first);
    FileEntry(job.outputs, g, last);
    OutputSharesNoKey(next, job, h, first);
    OutputSharesNoKey(next, job, h, last);
    EndsApart(h, g);
  }

  lemma JobKeepsKeysApart(v: Version, w: Version, job: Job)
    requires ValidVersion(v) && SoundJob(v, job) && Moved(v, w, job)
    requires NoKeyStraddlesBelow(v) && NoKeyStraddles(job.outputs)
    ensures NoKeyStraddlesBelow(w)
  {
    var deep := job.level + 1;
    forall f, g | f in w[deep] && g in w[deep] && f != g ensures Apart(f, g) {
      if f in job.outputs && g !in job.outputs {
        OutputApart(v, job, g, f);
        OutputApartFromRest(v[deep], job, g, f);
      } else if g in job.outputs && f !in job.outputs {
        OutputApart(v, job, f, g);
        OutputApartFromRest(v[deep], job, f, g);
      }
    }
    forall l | 1 <= l < |w| && l != deep ensures NoKeyStraddles(w[l]) {
      assert forall f :: f in w[l] ==> f in v[l];
      assert NoKeyStraddles(v[l]);
    }
  }

  lemma FlushKeepsKeysApart(v: Version, w: Version, level: nat, f: File)
    requires |v| == NUM_LEVELS && Placed(v, w, level, f) && MayPlace(v, level, f) && NoKeyStraddlesBelow(v)
    ensures NoKeyStraddlesBelow(w)
  {
    if level > 0 {
      assert forall g :: g in v[level] ==> !Overlaps(g, Some(f.smallest.user), Some(f.largest.user));
      assert NoKeyStraddles(v[level]);
    }
  }

  /** No snapshot is older than anything the compaction reads; with no live snapshot at all this
      always holds. */
  ghost predicate Unpinned(step: Step) {
    step.Compact? ==> forall e :: e in step.task.run ==> e.ikey.seqno <= step.task.oldest
  }

  lemma UnpinnedCompaction(db: DB, task: Task, after: DB)
    requires Invariant(db) && CompactStep(db, task, after) && Unpinned(Compact(task))
    requires NoKeyStraddlesBelow(db.version)
    ensures NoKeyStraddlesBelow(after.version) && Harmless(db, Compact(task))
  {
    CompactIsSound(db, task, after);
    forall user ensures !Uncovers(db.version, task.job, task.oldest, user) {
      NothingUncovered(db.version, task.job, task.oldest, user);
    }
    DiskIsDistinct(db);
    PickedIsValid(db.version, task);
    SmallerIsDistinct(InputSet(task.job), VersionEntries(db.version));
    forall e | e in InputSet(task.job) ensures e.ikey.seqno <= task.oldest {
      assert e in Elements(task.run);
    }
    OutputsDoNotStraddle(db.version, task.job, task.oldest);
    JobKeepsKeysApart(db.version, after.version, task.job);
  }

  lemma UnpinnedFlush(db: DB, level: nat, file: Option<File>, after: DB)
    requires Invariant(db) && FlushStep(db, level, file, after) && NoKeyStraddlesBelow(db.version)
    ensures NoKeyStraddlesBelow(after.version)
  {
    if file.Some? {
      FlushPlaces(db.version, level, file.value);
      FlushKeepsKeysApart(db.version, after.version, level, file.value);
    }
  }

  lemma UnpinnedMove(db: DB, task: Task, after: DB)
    requires Invariant(db) && MoveStep(db, task, after) && NoKeyStraddlesBelow(db.version)
    ensures NoKeyStraddlesBelow(after.version)
  {
    MoveIsSound(db, task, after);
    assert forall f, g :: f in task.job.outputs && g in task.job.outputs ==> f == g;
    JobKeepsKeysApart(db.version, after.version, task.job);
  }

  lemma UnpinnedStep(db: DB, step: Step, after: DB)
    requires Invariant(db) && Next(db, step, after) && Unpinned(step) && NoKeyStraddlesBelow(db.version)
    ensures NoKeyStraddlesBelow(after.version) && Harmless(db, step)
  {
    match step
    case Flush(level, file) =>
      UnpinnedFlush(db, level, file, after);
    case Move(task) =>
      UnpinnedMove(db, task, after);
    case Compact(task) =>
      UnpinnedCompaction(db, task, after);
    case _ =>
  }

  ghost predicate ReachesUnpinned(db: DB, steps: seq<Step>, after: DB)
    decreases |steps|
  {
    if steps == [] then db == after else
      |db.version| == NUM_LEVELS && Unpinned(steps[0])
      && exists mid :: Next(db, steps[0], mid) && ReachesUnpinned(mid, steps[1..], after)
  }

  lemma {:induction false} UnpinnedRunIsHarmless(db: DB, spec: Spec, steps: seq<Step>, after: DB)
    requires Invariant(db) && Represents(db, spec) && NoKeyStraddlesBelow(db.version)
    requires ReachesUnpinned(db, steps, after)
    ensures Reaches(db, steps, after)
    decreases |steps|
  {
    if steps != [] {
      var mid :| Next(db, steps[0], mid) && ReachesUnpinned(mid, steps[1..], after);
      assert Next(db, steps[0], mid);
      UnpinnedStep(db, steps[0], mid);
      StepRefines(db, steps[0], mid, spec);
      UnpinnedRunIsHarmless(mid, SpecNext(spec, steps[0]), steps[1..], after);
    }
  }

  /** Over every run whose compactions are never held back by an older snapshot, the database is
      a map with snapshots, with no further condition. */
  lemma EveryUnpinnedRunIsAMap(steps: seq<Step>, after: DB) returns (result: Spec)
    requires ReachesUnpinned(INITIAL_DB, steps, after)
    ensures SpecReaches(INITIAL_SPEC, steps, result)
    ensures Invariant(after) && Represents(after, result)
  {
    InitialHolds();
    forall l | 1 <= l < NUM_LEVELS ensures NoKeyStraddles(NO_FILES[l]) {
      assert NO_FILES[l] == [];
    }
    UnpinnedRunIsHarmless(INITIAL_DB, INITIAL_SPEC, steps, after);
    result := EveryRunIsAMap(steps, after);
  }
}
