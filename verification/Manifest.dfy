/**
 The descriptor log of a run: the edits that LogAndApply installed, replayed by Recover into one builder
 over an empty version, give the version that the run ended with.
 */
module Manifests {
  import opened Common
  import opened InternalKeys
  import opened Versions
  import opened Selection
  import opened Install
  import opened Database
  import opened Refinement
  import VB = VersionBuilder

  /** The edit that a step hands to LogAndApply. */
  function EditOf(step: Step): seq<VB.VersionEdit> {
    match step
    case Flush(level, file) => if file.Some? then [VB.VersionEdit([], [(level, file.value)])] else []
    case Move(task) => [JobEdit(task.job)]
    case Compact(task) => [JobEdit(task.job)]
    case _ => []
  }

  function EditsOf(steps: seq<Step>): seq<VB.VersionEdit> {
    if steps == [] then [] else EditOf(steps[0]) + EditsOf(steps[1..])
  }

  // ----- the log so far -----

  /** The log describes the version, edit by edit, and no edit added a number that was listed. */
  ghost predicate Describes(edits: seq<VB.VersionEdit>, level: nat, files: Level) {
    && VB.SaveEach([], edits, level) == files
    && forall n :: 0 <= n < |edits| ==> !VB.AddsListed(VB.SaveEach([], edits[..n], level), edits[n], level)
  }

  /** Every file that was ever added, none twice under one number. */
  ghost predicate Known(known: set<File>, v: Version, nextFile: nat) {
    && VB.NumberedOnce(known) && (forall f :: f in known ==> f.number < nextFile)
    && forall l, f :: 0 <= l < |v| && f in v[l] ==> f in known
  }

  ghost predicate LogOf(v: Version, nextFile: nat, edits: seq<VB.VersionEdit>, known: set<File>) {
    && |v| == NUM_LEVELS && Known(known, v, nextFile)
    && forall l :: 0 <= l < NUM_LEVELS ==> Describes(edits, l, v[l]) && VB.AllAdded(edits, l) <= known
  }

  lemma EmptyLog()
    ensures LogOf(NO_FILES, 2, [], {})
  {
    forall l | 0 <= l < NUM_LEVELS ensures Describes([], l, NO_FILES[l]) && VB.AllAdded([], l) <= {} {
      assert NO_FILES[l] == [] && VB.SaveEach([], [], l) == [];
    }
    assert forall l, f: File :: 0 <= l < NUM_LEVELS ==> f !in NO_FILES[l];
  }

  lemma PrefixOfPush<T>(s: seq<T>, x: T, n: nat)
    requires n <= |s|
    ensures (s + [x])[..n] == s[..n] && (n < |s| ==> (s + [x])[n] == s[n])
    ensures s[..|s|] == s
  {
  }

  lemma AddedOneMore(edits: seq<VB.VersionEdit>, level: nat, e: VB.VersionEdit)
    ensures VB.AllAdded(edits + [e], level) == VB.AllAdded(edits, level) + VB.AddedFiles(e.newFiles, level)
    ensures VB.SaveEach([], edits + [e], level) == VB.SaveLevel(VB.SaveEach([], edits, level), VB.ApplyToLevel(VB.EMPTY, e, level))
  {
    var more := edits + [e];
    PrefixOfPush(edits, e, |edits|);
    assert more[..|more| - 1] == edits && more[|more| - 1] == e;
  }

  lemma {:induction false} DescribesOneMore(edits: seq<VB.VersionEdit>, level: nat, files: Level, e: VB.VersionEdit)
    requires Describes(edits, level, files) && !VB.AddsListed(files, e, level)
    ensures Describes(edits + [e], level, VB.SaveLevel(files, VB.ApplyToLevel(VB.EMPTY, e, level)))
  {
    var more := edits + [e];
    AddedOneMore(edits, level, e);
    forall n | 0 <= n < |more| ensures !VB.AddsListed(VB.SaveEach([], more[..n], level), more[n], level) {
      PrefixOfPush(edits, e, n);
    }
  }

  /** One more edit in the log. */
  lemma LogOneMore(v: Version, nextFile: nat, edits: seq<VB.VersionEdit>, known: set<File>,
                   e: VB.VersionEdit, known': set<File>, nextFile': nat)
    requires LogOf(v, nextFile, edits, known) && known <= known'
    requires forall l :: 0 <= l < NUM_LEVELS ==> !VB.AddsListed(v[l], e, l) && VB.AddedFiles(e.newFiles, l) <= known'
    requires Known(known', LogAndApply(v, e), nextFile')
    ensures LogOf(LogAndApply(v, e), nextFile', edits + [e], known')
  {
    forall l | 0 <= l < NUM_LEVELS
      ensures Describes(edits + [e], l, LogAndApply(v, e)[l]) && VB.AllAdded(edits + [e], l) <= known'
    {
      DescribesOneMore(edits, l, v[l], e);
      AddedOneMore(edits, l, e);
    }
  }

  // ----- flushes -----

  lemma FlushAdds(level: nat, f: File, l: nat)
    ensures VB.AddedFiles([(level, f)], l) == if l == level then {f} else {}
  {
    assert [(level, f)][0] in [(level, f)];
  }

  lemma FlushIsKnown(v: Version, w: Version, level: nat, f: File, known: set<File>)
    requires Placed(v, w, level, f) && Known(known, v, f.number)
    ensures Known(known + {f}, w, f.number + 1)
  {
    forall l, g: File | 0 <= l < |w| && g in w[l] ensures g in known + {f} {
      assert g == f || g in v[l];
    }
  }

  lemma FlushAddsNothingListed(v: Version, level: nat, f: File, l: nat)
    requires NumbersBelow(v, f.number) && l < |v|
    ensures !VB.AddsListed(v[l], VB.VersionEdit([], [(level, f)]), l)
  {
    FlushAdds(level, f, l);
  }

  lemma FlushIsLogged(v: Version, level: nat, f: File, edits: seq<VB.VersionEdit>, known: set<File>)
    requires LogOf(v, f.number, edits, known) && NumbersBelow(v, f.number) && level < NUM_LEVELS
    requires forall l :: 0 <= l < |v| ==> Ordered(v[l])
    ensures var e := VB.VersionEdit([], [(level, f)]);
      LogOf(LogAndApply(v, e), f.number + 1, edits + [e], known + {f})
  {
    var e := VB.VersionEdit([], [(level, f)]);
    FlushPlaces(v, level, f);
    FlushIsKnown(v, LogAndApply(v, e), level, f, known);
    forall l | 0 <= l < NUM_LEVELS
      ensures !VB.AddsListed(v[l], e, l) && VB.AddedFiles(e.newFiles, l) <= known + {f}
    {
      FlushAdds(level, f, l);
      FlushAddsNothingListed(v, level, f, l);
    }
    LogOneMore(v, f.number, edits, known, e, known + {f}, f.number + 1);
  }

  // ----- compactions and moves -----

  lemma JobAdds(job: Job, l: nat)
    ensures VB.AddedFiles(JobEdit(job).newFiles, l) == if l == job.level + 1 then VB.FileSet(job.outputs) else {}
  {
    AddedByJob(job.outputs, job.level + 1);
  }

  lemma JobAddsNothingListed(v: Version, job: Job, l: nat)
    requires OutputNumbersFree(v, job) && l < |v|
    ensures !VB.AddsListed(v[l], JobEdit(job), l)
  {
    JobAdds(job, l);
    assert forall o :: o in VB.FileSet(job.outputs) <==> o in job.outputs;
  }

  lemma JobIsLogged(v: Version, job: Job, nextFile: nat, next: nat, edits: seq<VB.VersionEdit>, known: set<File>)
    requires LogOf(v, nextFile, edits, known) && OutputNumbersFree(v, job) && job.level + 1 < NUM_LEVELS
    requires Moved(v, LogAndApply(v, JobEdit(job)), job)
    requires VB.NumberedOnce(known + VB.FileSet(job.outputs)) && nextFile <= next
    requires forall o :: o in job.outputs ==> o.number < next
    ensures LogOf(LogAndApply(v, JobEdit(job)), next, edits + [JobEdit(job)], known + VB.FileSet(job.outputs))
  {
    var w, all := LogAndApply(v, JobEdit(job)), known + VB.FileSet(job.outputs);
    forall l | 0 <= l < NUM_LEVELS
      ensures !VB.AddsListed(v[l], JobEdit(job), l) && VB.AddedFiles(JobEdit(job).newFiles, l) <= all
    {
      JobAddsNothingListed(v, job, l);
      JobAdds(job, l);
    }
    forall l, f: File | 0 <= l < |w| && f in w[l] ensures f in all {
      assert f in job.outputs || f in v[l];
    }
    LogOneMore(v, nextFile, edits, known, JobEdit(job), all, next);
  }

  lemma NewOutputs(known: set<File>, outputs: seq<File>, first: nat)
    requires VB.NumberedOnce(known) && forall f :: f in known ==> f.number < first
    requires forall i :: 0 <= i < |outputs| ==> first <= outputs[i].number
    requires forall i, j :: 0 <= i < j < |outputs| ==> outputs[i].number < outputs[j].number
    ensures VB.NumberedOnce(known + VB.FileSet(outputs))
  {
    forall f, g | f in known + VB.FileSet(outputs) && g in known + VB.FileSet(outputs) && f.number == g.number
      ensures f == g
    {
      if f in outputs && g in outputs {
        var i :| 0 <= i < |outputs| && outputs[i] == f;
        var j :| 0 <= j < |outputs| && outputs[j] == g;
      }
    }
  }

  lemma MoveIsLogged(db: DB, task: Task, after: DB, edits: seq<VB.VersionEdit>, known: set<File>)
    requires Invariant(db) && MoveStep(db, task, after) && LogOf(db.version, db.nextFile, edits, known)
    ensures LogOf(after.version, after.nextFile, edits + [JobEdit(task.job)], known + VB.FileSet(task.job.outputs))
  {
    MoveIsSound(db, task, after);
    MovedAreKnown(db.version, task.job, db.nextFile, known);
    JobIsLogged(db.version, task.job, db.nextFile, after.nextFile, edits, known);
  }

  lemma MovedAreKnown(v: Version, job: Job, nextFile: nat, known: set<File>)
    requires job.level < |v| && job.outputs == job.inputs0 && (forall f :: f in job.inputs0 ==> f in v[job.level])
    requires Known(known, v, nextFile)
    ensures VB.NumberedOnce(known + VB.FileSet(job.outputs))
    ensures forall o :: o in job.outputs ==> o.number < nextFile
  {
    assert known + VB.FileSet(job.outputs) == known;
  }

  lemma CompactIsLogged(db: DB, task: Task, after: DB, edits: seq<VB.VersionEdit>, known: set<File>)
    requires Invariant(db) && CompactStep(db, task, after) && LogOf(db.version, db.nextFile, edits, known)
    ensures LogOf(after.version, after.nextFile, edits + [JobEdit(task.job)], known + VB.FileSet(task.job.outputs))
  {
    CompactIsSound(db, task, after);
    NewOutputs(known, task.job.outputs, db.nextFile);
    forall o | o in task.job.outputs ensures o.number < after.nextFile {
      var i :| 0 <= i < |task.job.outputs| && task.job.outputs[i] == o;
    }
    JobIsLogged(db.version, task.job, db.nextFile, after.nextFile, edits, known);
  }

  // ----- every run -----

  lemma FlushStepIsLogged(db: DB, level: nat, f: File, after: DB, edits: seq<VB.VersionEdit>, known: set<File>)
    requires Invariant(db) && FlushStep(db, level, Some(f), after) && LogOf(db.version, db.nextFile, edits, known)
    ensures LogOf(after.version, after.nextFile, edits + [VB.VersionEdit([], [(level, f)])], known + {f})
  {
    FlushIsLogged(db.version, level, f, edits, known);
  }

  lemma {:induction false} StepIsLogged(db: DB, step: Step, after: DB, edits: seq<VB.VersionEdit>, known: set<File>)
    returns (known': set<File>)
    requires Invariant(db) && Next(db, step, after) && LogOf(db.version, db.nextFile, edits, known)
    ensures Invariant(after) && LogOf(after.version, after.nextFile, edits + EditOf(step), known')
  {
    StepKeepsInvariant(db, step, after);
    known' := known;
    assert edits + [] == edits;
    match step {
      case Flush(level, file) =>
        if file.Some? {
          FlushStepIsLogged(db, level, file.value, after, edits, known);
          known' := known + {file.value};
        }
      case Move(task) =>
        MoveIsLogged(db, task, after, edits, known);
        known' := known + VB.FileSet(task.job.outputs);
      case Compact(task) =>
        CompactIsLogged(db, task, after, edits, known);
        known' := known + VB.FileSet(task.job.outputs);
      case _ =>
    }
  }

  lemma Associates<T>(x: seq<T>, y: seq<T>, z: seq<T>)
    ensures x + y + z == x + (y + z)
  {
  }

  lemma {:induction false} RunIsLogged(db: DB, steps: seq<Step>, after: DB, edits: seq<VB.VersionEdit>, known: set<File>)
    returns (known': set<File>)
    requires Invariant(db) && ReachesAny(db, steps, after) && LogOf(db.version, db.nextFile, edits, known)
    ensures LogOf(after.version, after.nextFile, edits + EditsOf(steps), known')
    decreases |steps|
  {
    if steps == [] {
      known' := known;
      assert edits + [] == edits;
    } else {
      var mid :| Next(db, steps[0], mid) && ReachesAny(mid, steps[1..], after);
      assert Next(db, steps[0], mid);
      var known1 := StepIsLogged(db, steps[0], mid, edits, known);
      known' := RunIsLogged(mid, steps[1..], after, edits + EditOf(steps[0]), known1);
      Associates(edits, EditOf(steps[0]), EditsOf(steps[1..]));
    }
  }

  /** Whatever run led from an empty database to a version: Recover, which replays the edits of the run
      into one builder over an empty version, rebuilds that version. */
  lemma EveryRunIsRecovered(steps: seq<Step>, after: DB)
    requires ReachesAny(INITIAL_DB, steps, after)
    ensures |after.version| == NUM_LEVELS
    ensures forall l :: 0 <= l < NUM_LEVELS ==>
      VB.SaveLevel([], VB.ApplyAll(EditsOf(steps), l)) == after.version[l]
  {
    InitialHolds();
    EmptyLog();
    var edits := EditsOf(steps);
    var known := RunIsLogged(INITIAL_DB, steps, after, [], {});
    assert [] + edits == edits;
    forall l | 0 <= l < NUM_LEVELS ensures VB.SaveLevel([], VB.ApplyAll(edits, l)) == after.version[l] {
      assert Describes(edits, l, after.version[l]);
      VB.ReplayedWhole(edits, l);
    }
  }
}
