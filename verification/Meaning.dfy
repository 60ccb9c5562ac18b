/**
 What a compaction means to readers: which reads it preserves, exactly.
 */
module Meaning {
  import opened InternalKeys
  import opened Versions
  import opened Selection
  import opened Compaction
  import opened Install

  ghost function InputSet(job: Job): set<Entry> {
    LevelEntries(job.inputs0) + LevelEntries(job.inputs1)
  }

  /** The outputs hold the input entries that neither drop rule drops. */
  ghost predicate OutputsByRules(v: Version, job: Job, snapshot: nat) {
    forall e :: e in LevelEntries(job.outputs)
           <==> e in InputSet(job) && !Hidden(InputSet(job), e, snapshot) && !Obsolete(v, job.level, e, snapshot)
  }

  lemma AcrossLevels(v: Version, i: nat, j: nat, x: Entry, y: Entry)
    requires LevelsFollowAge(v) && i < j < |v| && x in LevelEntries(v[i]) && y in LevelEntries(v[j])
    requires x.ikey.user == y.ikey.user
    ensures x.ikey.seqno > y.ikey.seqno
  {
    assert NewerThan(LevelEntries(v[i]), LevelEntries(v[j]));
  }

  lemma OlderIsDeeper(v: Version, i: nat, j: nat, y: Entry, d: Entry)
    requires LevelsFollowAge(v) && i < |v| && j < |v| && y in LevelEntries(v[i]) && d in LevelEntries(v[j])
    requires y.ikey.user == d.ikey.user && y.ikey.seqno <= d.ikey.seqno
    ensures i >= j
  {
    if i < j {
      AcrossLevels(v, i, j, y, d);
    }
  }

  lemma InOneLevel(v: Version, i: nat, j: nat, e: Entry)
    requires LevelsFollowAge(v) && i < |v| && j < |v| && e in LevelEntries(v[i]) && e in LevelEntries(v[j])
    ensures i == j
  {
    OlderIsDeeper(v, i, j, e, e);
    OlderIsDeeper(v, j, i, e, e);
  }

  lemma FileEntry(files: Level, f: File, e: Entry)
    requires f in files && e in f.entries
    ensures e in LevelEntries(files)
  {
  }

  lemma NotNewerThanItself(a: set<Entry>, b: set<Entry>, e: Entry)
    requires NewerThan(a, b) && e in a
    ensures e !in b
  {
  }

  /** A file of `level` that stays shares no entry with the files that move down. */
  lemma NotInMovedFiles(files: Level, inputs0: seq<File>, f: File, e: Entry)
    requires NothingOlderLeft(files, inputs0) && f in files && f !in inputs0 && e in f.entries
    ensures e !in LevelEntries(inputs0)
  {
    forall g | g in inputs0 ensures e !in g.entries {
      NotNewerThanItself(Elements(f.entries), Elements(g.entries), e);
    }
  }

  /** A file of `level + 1` that stays shares no entry with the inputs of that level. */
  lemma NotInMergedFiles(files: Level, inputs0: seq<File>, inputs1: seq<File>, f: File, e: Entry)
    requires Separated(files, inputs0, inputs1) && f in files && f !in inputs1
    requires ValidFile(f) && e in f.entries
    ensures e !in LevelEntries(inputs1)
  {
    FileBounds(f, e);
  }

  lemma InputsInLevel(files: Level, inputs: seq<File>, e: Entry)
    requires (forall f :: f in inputs ==> f in files) && e in LevelEntries(inputs)
    ensures e in LevelEntries(files)
  {
    var f :| f in inputs && e in f.entries;
    FileEntry(files, f, e);
  }

  lemma NotInInputs0(v: Version, level: nat, inputs0: seq<File>, l: nat, f: File, e: Entry)
    requires LevelsFollowAge(v) && level < |v| && l < |v| && f in v[l] && e in f.entries
    requires NothingOlderLeft(v[level], inputs0) && (forall g :: g in inputs0 ==> g in v[level])
    requires l == level ==> f !in inputs0
    ensures e !in LevelEntries(inputs0)
  {
    if e in LevelEntries(inputs0) {
      FileEntry(v[l], f, e);
      InputsInLevel(v[level], inputs0, e);
      InOneLevel(v, l, level, e);
      NotInMovedFiles(v[l], inputs0, f, e);
    }
  }

  lemma NotInInputs1(v: Version, level: nat, inputs0: seq<File>, inputs1: seq<File>, l: nat, f: File, e: Entry)
    requires LevelsFollowAge(v) && level < |v| && l < |v| && f in v[l] && ValidFile(f) && e in f.entries
    requires Separated(v[level], inputs0, inputs1) && (forall g :: g in inputs1 ==> g in v[level])
    requires l == level ==> f !in inputs1
    ensures e !in LevelEntries(inputs1)
  {
    if e in LevelEntries(inputs1) {
      FileEntry(v[l], f, e);
      InputsInLevel(v[level], inputs1, e);
      InOneLevel(v, l, level, e);
      NotInMergedFiles(v[l], inputs0, inputs1, f, e);
    }
  }

  /** An entry of a file that stays is in no input file. */
  lemma NotAnInput(v: Version, job: Job, l: nat, f: File, e: Entry)
    requires job.level + 1 < |v| && ValidInputs(v[job.level], v[job.level + 1], job.inputs0, job.inputs1)
    requires LevelsFollowAge(v) && l < |v| && f in v[l] && ValidFile(f) && e in f.entries
    requires l == job.level ==> f !in job.inputs0
    requires l == job.level + 1 ==> f !in job.inputs1
    ensures e !in InputSet(job)
  {
    NotInInputs0(v, job.level, job.inputs0, l, f, e);
    NotInInputs1(v, job.level + 1, job.inputs0, job.inputs1, l, f, e);
  }

  lemma InputsAreEntries(v: Version, job: Job, e: Entry)
    requires SoundJob(v, job) && e in InputSet(job)
    ensures e in VersionEntries(v)
    ensures e in LevelEntries(job.inputs0) ==> e in LevelEntries(v[job.level])
    ensures e in LevelEntries(job.inputs1) ==> e in LevelEntries(v[job.level + 1])
  {
    if e in LevelEntries(job.inputs0) {
      InputsInLevel(v[job.level], job.inputs0, e);
    }
    if e in LevelEntries(job.inputs1) {
      InputsInLevel(v[job.level + 1], job.inputs1, e);
    }
  }

  lemma StayingFile(v: Version, w: Version, job: Job, l: nat, f: File)
    requires job.level + 1 < |v| && Moved(v, w, job) && l < |w| && f in w[l]
    requires !(l == job.level + 1 && f in job.outputs)
    ensures f in v[l] && (l == job.level ==> f !in job.inputs0) && (l == job.level + 1 ==> f !in job.inputs1)
  {
  }

  /** Nothing appears, and an input entry that is not in the outputs is gone. */
  lemma NothingAppears(v: Version, w: Version, job: Job, e: Entry)
    requires ValidVersion(v) && SoundJob(v, job) && Moved(v, w, job) && e in VersionEntries(w)
    ensures e in VersionEntries(v) && (e in InputSet(job) ==> e in LevelEntries(job.outputs))
  {
    var l :| 0 <= l < |w| && e in LevelEntries(w[l]);
    var f :| f in w[l] && e in f.entries;
    if l == job.level + 1 && f in job.outputs {
      FileEntry(job.outputs, f, e);
      InputsAreEntries(v, job, e);
    } else {
      StayingFile(v, w, job, l, f);
      NotAnInput(v, job, l, f, e);
      FileEntry(v[l], f, e);
    }
  }

  /** Nothing else disappears. */
  lemma NothingElseGoes(v: Version, w: Version, job: Job, e: Entry)
    requires job.level + 1 < |v| && Moved(v, w, job) && e in VersionEntries(v)
    requires e in InputSet(job) ==> e in LevelEntries(job.outputs)
    ensures e in VersionEntries(w)
  {
    if e in LevelEntries(job.outputs) {
      var o :| o in job.outputs && e in o.entries;
      FileEntry(w[job.level + 1], o, e);
    } else {
      var l :| 0 <= l < |v| && e in LevelEntries(v[l]);
      var f :| f in v[l] && e in f.entries;
      assert f !in job.inputs0 && f !in job.inputs1;
      FileEntry(w[l], f, e);
    }
  }

  /** The job removes from the version exactly the entries it drops. */
  lemma EntriesAfter(v: Version, w: Version, job: Job)
    requires ValidVersion(v) && SoundJob(v, job) && Moved(v, w, job)
    ensures VersionEntries(w) == VersionEntries(v) - (InputSet(job) - LevelEntries(job.outputs))
  {
    forall e | e in VersionEntries(w)
      ensures e in VersionEntries(v) && (e in InputSet(job) ==> e in LevelEntries(job.outputs))
    {
      NothingAppears(v, w, job, e);
    }
    forall e | e in VersionEntries(v) && (e in InputSet(job) ==> e in LevelEntries(job.outputs))
      ensures e in VersionEntries(w)
    {
      NothingElseGoes(v, w, job, e);
    }
  }

  // ----- exactly which reads survive -----

  /** The entries of the files of `level + 1` that SetupOtherInputs leaves behind. */
  ghost function LeftBehind(v: Version, job: Job): set<Entry>
    requires job.level + 1 < |v|
  {
    set f, e | f in v[job.level + 1] && f !in job.inputs1 && e in f.entries :: e
  }

  /** The one way a compaction can change a read: the newest entry that the oldest snapshot sees
      for the user key is an input deletion with nothing below it, so it is dropped, and a file of
      `level + 1` left behind still holds an older value. */
  ghost predicate Uncovers(v: Version, job: Job, snapshot: nat, user: UserKey)
    requires job.level + 1 < |v|
  {
    exists d: Entry, r: Entry ::
      && d in InputSet(job) && d.ikey.kind.Deletion? && IsNewest(VersionEntries(v), user, snapshot, d)
      && BaseLevel(v, job.level, user)
      && r.ikey.kind.Put? && IsNewest(LeftBehind(v, job), user, d.ikey.seqno, r)
  }

  /** A file of `level` with an older entry for a user key that moves down moves down itself. */
  lemma OlderMoves(files: Level, inputs0: seq<File>, f: File, y: Entry, d: Entry)
    requires NothingOlderLeft(files, inputs0) && f in files && y in f.entries && d in LevelEntries(inputs0)
    requires y.ikey.user == d.ikey.user && y.ikey.seqno < d.ikey.seqno
    ensures y in LevelEntries(inputs0)
  {
    var g :| g in inputs0 && d in g.entries;
    assert f in inputs0 || NewerThan(Elements(f.entries), Elements(g.entries));
    assert y in Elements(f.entries) && d in Elements(g.entries);
  }

  /** What remains of a user key below a dropped deletion lies in the files left behind. */
  lemma OlderThanDropped(v: Version, job: Job, d: Entry, l: nat, f: File, y: Entry)
    requires job.level + 1 < |v| && ValidInputs(v[job.level], v[job.level + 1], job.inputs0, job.inputs1)
    requires LevelsFollowAge(v) && d in InputSet(job) && BaseLevel(v, job.level, d.ikey.user)
    requires l < |v| && f in v[l] && ValidFile(f) && y in f.entries && y !in InputSet(job)
    requires y.ikey.user == d.ikey.user && y.ikey.seqno < d.ikey.seqno
    ensures y in LeftBehind(v, job)
  {
    FileEntry(v[l], f, y);
    FileBounds(f, y);
    if d in LevelEntries(job.inputs0) {
      InputsInLevel(v[job.level], job.inputs0, d);
      OlderIsDeeper(v, l, job.level, y, d);
      if l == job.level {
        OlderMoves(v[l], job.inputs0, f, y, d);
      }
    } else {
      InputsInLevel(v[job.level + 1], job.inputs1, d);
      OlderIsDeeper(v, l, job.level + 1, y, d);
    }
    assert f in job.inputs0 ==> y in LevelEntries(job.inputs0);
    assert f in job.inputs1 ==> y in LevelEntries(job.inputs1);
    assert l == job.level + 1;
  }

  /** The parts of a compaction that matter to the reads of one user key. */
  datatype Effect = Effect(before: set<Entry>, after: set<Entry>, inputs: set<Entry>, left: set<Entry>,
                           snapshot: nat, user: UserKey, base: bool)

  ghost predicate Dropped(x: Effect, e: Entry) {
    && e in x.inputs
    && (Hidden(x.inputs, e, x.snapshot) || (e.ikey.kind.Deletion? && e.ikey.seqno <= x.snapshot && x.base))
  }

  ghost predicate Faithful(x: Effect) {
    && Distinct(x.before) && x.inputs <= x.before && x.left <= x.after && x.after <= x.before
    && (forall e :: e in x.before && e.ikey.user == x.user ==> (e in x.after <==> !Dropped(x, e)))
    && forall d, y :: d in x.inputs && y in x.after && d.ikey.user == x.user && y.ikey.user == x.user
                      && d.ikey.kind.Deletion? && d.ikey.seqno <= x.snapshot && x.base && y.ikey.seqno < d.ikey.seqno
                      ==> y in x.left
  }

  ghost predicate Uncovered(x: Effect) {
    exists d: Entry, r: Entry ::
      && d in x.inputs && d.ikey.kind.Deletion? && IsNewest(x.before, x.user, x.snapshot, d) && x.base
      && r.ikey.kind.Put? && IsNewest(x.left, x.user, d.ikey.seqno, r)
  }

  /** A read that lands on a dropped entry lands on an obsolete deletion. */
  lemma NewestDropped(x: Effect, s: nat, n: Entry)
    requires Faithful(x) && s >= x.snapshot && IsNewest(x.before, x.user, s, n) && Dropped(x, n)
    ensures n.ikey.kind.Deletion? && n.ikey.seqno <= x.snapshot && x.base
    ensures IsNewest(x.before, x.user, x.snapshot, n)
  {
    assert !Hidden(x.inputs, n, x.snapshot) by {
      forall y | y in x.inputs && y.ikey.user == x.user && y.ikey.seqno <= x.snapshot
        ensures y.ikey.seqno <= n.ikey.seqno
      {
        assert y in x.before && Visible(y, x.user, s);
      }
    }
    forall y | y in x.before && Visible(y, x.user, x.snapshot) ensures y.ikey.seqno <= n.ikey.seqno {
      assert Visible(y, x.user, s);
    }
  }

  /** After a dropped deletion, the newest entry that remains is the newest one left behind. */
  lemma NewestRemaining(x: Effect, s: nat, d: Entry, r: Entry)
    requires Faithful(x) && s >= x.snapshot && IsNewest(x.before, x.user, s, d) && Dropped(x, d)
    ensures IsNewest(x.after, x.user, s, r) <==> IsNewest(x.left, x.user, d.ikey.seqno, r)
  {
    NewestDropped(x, s, d);
    forall y | y in x.after && Visible(y, x.user, s) ensures y in x.left && Visible(y, x.user, d.ikey.seqno) {
      assert y.ikey.seqno <= d.ikey.seqno && y != d;
      assert y.ikey.seqno < d.ikey.seqno;
    }
    forall y | y in x.left && Visible(y, x.user, d.ikey.seqno) ensures y in x.after && Visible(y, x.user, s) {
    }
  }

  lemma ReadSurvives(x: Effect, s: nat)
    requires Faithful(x) && s >= x.snapshot && !Uncovered(x)
    ensures ReadAt(x.after, x.user, s) == ReadAt(x.before, x.user, s)
  {
    NewestExists(x.before, x.user, s);
    NewestExists(x.after, x.user, s);
    if n :| IsNewest(x.before, x.user, s, n) {
      ReadAtNewest(x.before, x.user, s, n);
      if Dropped(x, n) {
        NewestDropped(x, s, n);
        if r :| IsNewest(x.after, x.user, s, r) {
          NewestRemaining(x, s, n, r);
          ReadAtNewest(x.after, x.user, s, r);
        }
      } else {
        assert IsNewest(x.after, x.user, s, n);
        ReadAtNewest(x.after, x.user, s, n);
      }
    }
  }

  /** When a value is uncovered, the oldest snapshot itself reads it again. */
  lemma UncoveredReadChanges(x: Effect)
    requires Faithful(x) && Uncovered(x)
    ensures ReadAt(x.before, x.user, x.snapshot) == NotFound && ReadAt(x.after, x.user, x.snapshot).Found?
  {
    var d: Entry, r: Entry :|
      && d in x.inputs && d.ikey.kind.Deletion? && IsNewest(x.before, x.user, x.snapshot, d) && x.base
      && r.ikey.kind.Put? && IsNewest(x.left, x.user, d.ikey.seqno, r);
    ReadAtNewest(x.before, x.user, x.snapshot, d);
    NewestRemaining(x, x.snapshot, d, r);
    ReadAtNewest(x.after, x.user, x.snapshot, r);
  }

  ghost function EffectOn(v: Version, w: Version, job: Job, snapshot: nat, user: UserKey): Effect
    requires job.level + 1 < |v|
  {
    Effect(VersionEntries(v), VersionEntries(w), InputSet(job), LeftBehind(v, job), snapshot, user,
           BaseLevel(v, job.level, user))
  }

  lemma LeftBehindStays(v: Version, w: Version, job: Job, y: Entry)
    requires job.level + 1 < |v| && Moved(v, w, job) && y in LeftBehind(v, job)
    ensures y in VersionEntries(w)
  {
    var f :| f in v[job.level + 1] && f !in job.inputs1 && y in f.entries;
    FileEntry(w[job.level + 1], f, y);
  }

  lemma EffectIsFaithful(v: Version, w: Version, job: Job, snapshot: nat, user: UserKey)
    requires ValidVersion(v) && Distinct(VersionEntries(v)) && SoundJob(v, job) && Moved(v, w, job)
    requires OutputsByRules(v, job, snapshot)
    ensures Faithful(EffectOn(v, w, job, snapshot, user))
  {
    var x := EffectOn(v, w, job, snapshot, user);
    EntriesAfter(v, w, job);
    forall e | e in x.inputs ensures e in x.before {
      InputsAreEntries(v, job, e);
    }
    forall e | e in x.left ensures e in x.after {
      LeftBehindStays(v, w, job, e);
    }
    forall d, y | d in x.inputs && y in x.after && d.ikey.user == user && y.ikey.user == user
                  && d.ikey.kind.Deletion? && d.ikey.seqno <= snapshot && x.base && y.ikey.seqno < d.ikey.seqno
      ensures y in x.left
    {
      HiddenByDropped(v, job, snapshot, d, y);
      LeftUnderDropped(v, job, d, y);
    }
  }

  lemma HiddenByDropped(v: Version, job: Job, snapshot: nat, d: Entry, y: Entry)
    requires OutputsByRules(v, job, snapshot) && (y in InputSet(job) ==> y in LevelEntries(job.outputs))
    requires d in InputSet(job) && d.ikey.user == y.ikey.user && y.ikey.seqno < d.ikey.seqno <= snapshot
    ensures y !in InputSet(job)
  {
    assert y in InputSet(job) ==> Hidden(InputSet(job), y, snapshot);
  }

  lemma LeftUnderDropped(v: Version, job: Job, d: Entry, y: Entry)
    requires ValidVersion(v) && SoundJob(v, job)
    requires d in InputSet(job) && y in VersionEntries(v) && y !in InputSet(job) && d.ikey.user == y.ikey.user
    requires BaseLevel(v, job.level, d.ikey.user) && y.ikey.seqno < d.ikey.seqno
    ensures y in LeftBehind(v, job)
  {
    var l :| 0 <= l < |v| && y in LevelEntries(v[l]);
    var f :| f in v[l] && y in f.entries;
    OlderThanDropped(v, job, d, l, f, y);
  }

  lemma ReadPreserved(v: Version, w: Version, job: Job, snapshot: nat, user: UserKey, s: nat)
    requires ValidVersion(v) && Distinct(VersionEntries(v)) && SoundJob(v, job) && Moved(v, w, job)
    requires OutputsByRules(v, job, snapshot) && s >= snapshot && !Uncovers(v, job, snapshot, user)
    ensures ReadAt(VersionEntries(w), user, s) == ReadAt(VersionEntries(v), user, s)
  {
    EffectIsFaithful(v, w, job, snapshot, user);
    ReadSurvives(EffectOn(v, w, job, snapshot, user), s);
  }

  lemma ReadUncovered(v: Version, w: Version, job: Job, snapshot: nat, user: UserKey)
    requires ValidVersion(v) && Distinct(VersionEntries(v)) && SoundJob(v, job) && Moved(v, w, job)
    requires OutputsByRules(v, job, snapshot) && Uncovers(v, job, snapshot, user)
    ensures ReadAt(VersionEntries(v), user, snapshot) == NotFound && ReadAt(VersionEntries(w), user, snapshot).Found?
  {
    EffectIsFaithful(v, w, job, snapshot, user);
    UncoveredReadChanges(EffectOn(v, w, job, snapshot, user));
  }

  /** A compaction preserves every read at or above the oldest snapshot if and only if it
      uncovers no older value. */
  lemma CompactionPreservesReads(v: Version, w: Version, job: Job, snapshot: nat)
    requires ValidVersion(v) && Distinct(VersionEntries(v)) && SoundJob(v, job) && Moved(v, w, job)
    requires OutputsByRules(v, job, snapshot)
    ensures (forall user, s :: s >= snapshot ==> ReadAt(VersionEntries(w), user, s) == ReadAt(VersionEntries(v), user, s))
       <==> (forall user :: !Uncovers(v, job, snapshot, user))
  {
    forall user, s | s >= snapshot && !Uncovers(v, job, snapshot, user)
      ensures ReadAt(VersionEntries(w), user, s) == ReadAt(VersionEntries(v), user, s)
    {
      ReadPreserved(v, w, job, snapshot, user, s);
    }
    forall user | Uncovers(v, job, snapshot, user)
      ensures ReadAt(VersionEntries(w), user, snapshot) != ReadAt(VersionEntries(v), user, snapshot)
    {
      ReadUncovered(v, w, job, snapshot, user);
    }
  }
}
