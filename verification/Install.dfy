/**
 Installing the result of background work in a version (LogAndApply, InstallCompactionResults,
 the trivial move and CompactMemTable in db/db_impl.cc): what stays true of the version, and
 what a reader sees through it.
 */
module Install {
  import opened InternalKeys
  import opened Versions
  import opened Selection
  import opened Compaction
  import VB = VersionBuilder

  /** LogAndApply: one builder over the current version, one edit, one save. */
  function LogAndApply(v: Version, edit: VB.VersionEdit): Version {
    seq(|v|, l requires 0 <= l < |v| => VB.SaveLevel(v[l], VB.ApplyToLevel(VB.EMPTY, edit, l)))
  }

  /** A compaction, a trivial move included: inputs leave two levels, outputs enter the deeper one. */
  datatype Job = Job(level: nat, inputs0: seq<File>, inputs1: seq<File>, outputs: seq<File>)

  function Numbered(files: seq<File>, level: nat): seq<(nat, nat)> {
    seq(|files|, i requires 0 <= i < |files| => (level, files[i].number))
  }

  /** AddInputDeletions and the AddFile calls of InstallCompactionResults. */
  function JobEdit(job: Job): VB.VersionEdit {
    VB.VersionEdit(Numbered(job.inputs0, job.level) + Numbered(job.inputs1, job.level + 1),
                   VB.Tagged(job.outputs, job.level + 1))
  }

  /** The version after the edit, level by level, as sets of files. */
  ghost predicate Moved(v: Version, w: Version, job: Job)
    requires job.level + 1 < |v|
  {
    && |w| == |v|
    && (forall l :: 0 <= l < |v| ==> Ordered(w[l]))
    && (forall l :: 0 <= l < |v| && l != job.level && l != job.level + 1 ==> w[l] == v[l])
    && (forall f :: f in w[job.level] <==> f in v[job.level] && f !in job.inputs0)
    && (forall f :: f in w[job.level + 1] <==> (f in v[job.level + 1] && f !in job.inputs1) || f in job.outputs)
  }

  /** New outputs carry new numbers; a moved file keeps its own. */
  ghost predicate OutputNumbersFree(v: Version, job: Job) {
    && VB.DistinctNumbers(job.outputs)
    && forall o, l, g :: o in job.outputs && 0 <= l < |v| && g in v[l] && o.number == g.number
                         ==> l == job.level && g in job.inputs0
  }

  lemma EditedLevelIs(files: Level, edit: VB.VersionEdit, level: nat)
    requires Ordered(files) && VB.Apart(files, VB.AddedFiles(edit.newFiles, level))
    ensures var r := VB.SaveLevel(files, VB.ApplyToLevel(VB.EMPTY, edit, level));
      var added := VB.AddedFiles(edit.newFiles, level);
      var gone := VB.DeletedNumbers(edit.deletedFiles, level) - VB.Numbers(added);
      Ordered(r) && forall f :: f in r <==> (f in files || f in added) && f.number !in gone
  {
    VB.EditOnListIs(files, edit, level);
  }

  /** A level the edit does not mention stays as it is. */
  lemma UntouchedLevel(files: Level, edit: VB.VersionEdit, level: nat)
    requires Ordered(files)
    requires forall d :: d in edit.deletedFiles ==> d.0 != level
    requires forall a :: a in edit.newFiles ==> a.0 != level
    ensures VB.SaveLevel(files, VB.ApplyToLevel(VB.EMPTY, edit, level)) == files
  {
    assert VB.AddedFiles(edit.newFiles, level) == {} && VB.DeletedNumbers(edit.deletedFiles, level) == {};
    EditedLevelIs(files, edit, level);
    VB.OrderedListsAgree(VB.SaveLevel(files, VB.ApplyToLevel(VB.EMPTY, edit, level)), files);
  }

  lemma DeletedByJob(job: Job, level: nat)
    ensures VB.DeletedNumbers(JobEdit(job).deletedFiles, level)
         == if level == job.level then VB.Numbers(VB.FileSet(job.inputs0))
            else if level == job.level + 1 then VB.Numbers(VB.FileSet(job.inputs1)) else {}
  {
    var a, b := Numbered(job.inputs0, job.level), Numbered(job.inputs1, job.level + 1);
    forall n ensures n in VB.DeletedNumbers(a, job.level) <==> n in VB.Numbers(VB.FileSet(job.inputs0)) {
      NumberedHas(job.inputs0, job.level, n);
    }
    forall n ensures n in VB.DeletedNumbers(b, job.level + 1) <==> n in VB.Numbers(VB.FileSet(job.inputs1)) {
      NumberedHas(job.inputs1, job.level + 1, n);
    }
    assert forall d :: d in a + b <==> d in a || d in b;
  }

  lemma NumberedHas(files: seq<File>, level: nat, n: nat)
    ensures (level, n) in Numbered(files, level) <==> n in VB.Numbers(VB.FileSet(files))
    ensures n in VB.DeletedNumbers(Numbered(files, level), level) <==> (level, n) in Numbered(files, level)
  {
    if n in VB.Numbers(VB.FileSet(files)) {
      var f :| f in VB.FileSet(files) && f.number == n;
      var i :| 0 <= i < |files| && files[i] == f;
      assert Numbered(files, level)[i] == (level, n);
    }
    if (level, n) in Numbered(files, level) {
      var i :| 0 <= i < |files| && Numbered(files, level)[i] == (level, n);
      assert files[i] in VB.FileSet(files);
    }
  }

  lemma AddedByJob(files: seq<File>, level: nat)
    ensures VB.AddedFiles(VB.Tagged(files, level), level) == VB.FileSet(files)
    ensures forall a :: a in VB.Tagged(files, level) ==> a.0 == level
  {
    forall f ensures f in VB.AddedFiles(VB.Tagged(files, level), level) <==> f in files {
      if f in files {
        var i :| 0 <= i < |files| && files[i] == f;
        assert VB.Tagged(files, level)[i] == (level, f);
      }
    }
  }

  lemma ShallowLevelAfter(v: Version, job: Job)
    requires job.level + 1 < |v| && Ordered(v[job.level]) && UniqueNumbers(v)
    requires forall f :: f in job.inputs0 ==> f in v[job.level]
    ensures var r := LogAndApply(v, JobEdit(job))[job.level];
      Ordered(r) && forall f :: f in r <==> f in v[job.level] && f !in job.inputs0
  {
    var edit, l := JobEdit(job), job.level;
    AddedByJob(job.outputs, l + 1);
    DeletedByJob(job, l);
    assert VB.AddedFiles(edit.newFiles, l) == {};
    EditedLevelIs(v[l], edit, l);
    forall f | f in v[l] ensures f.number in VB.Numbers(VB.FileSet(job.inputs0)) <==> f in job.inputs0 {
      assert f in job.inputs0 ==> f in VB.FileSet(job.inputs0);
    }
  }

  lemma DeepLevelAfter(v: Version, job: Job)
    requires job.level + 1 < |v| && Ordered(v[job.level + 1]) && UniqueNumbers(v) && OutputNumbersFree(v, job)
    requires forall f :: f in job.inputs1 ==> f in v[job.level + 1]
    ensures var r := LogAndApply(v, JobEdit(job))[job.level + 1];
      Ordered(r) && forall f :: f in r <==> (f in v[job.level + 1] && f !in job.inputs1) || f in job.outputs
  {
    var edit, l := JobEdit(job), job.level + 1;
    AddedByJob(job.outputs, l);
    DeletedByJob(job, l);
    forall i, g | 0 <= i < |job.outputs| && g in v[l] ensures g.number != job.outputs[i].number {
      assert job.outputs[i] in job.outputs;
    }
    EditedLevelIs(v[l], edit, l);
    var kept := VB.Numbers(VB.FileSet(job.outputs));
    forall f | f in v[l] ensures f.number in VB.Numbers(VB.FileSet(job.inputs1)) - kept <==> f in job.inputs1 {
      assert f in job.inputs1 ==> f in VB.FileSet(job.inputs1);
      assert f.number !in kept;
    }
    forall f | f in job.outputs ensures f.number in kept {
      assert f in VB.FileSet(job.outputs);
    }
  }

  lemma OtherLevelAfter(v: Version, job: Job, l: nat)
    requires l < |v| && l != job.level && l != job.level + 1 && Ordered(v[l])
    ensures LogAndApply(v, JobEdit(job))[l] == v[l]
  {
    var edit := JobEdit(job);
    AddedByJob(job.outputs, job.level + 1);
    forall d | d in edit.deletedFiles ensures d.0 != l {
      assert d in Numbered(job.inputs0, job.level) || d in Numbered(job.inputs1, job.level + 1);
    }
    UntouchedLevel(v[l], edit, l);
  }

  /** The edit of a job does what it should to the lists of files, and nothing else. */
  lemma JobMoves(v: Version, job: Job)
    requires job.level + 1 < |v| && (forall l :: 0 <= l < |v| ==> Ordered(v[l]))
    requires UniqueNumbers(v) && OutputNumbersFree(v, job)
    requires forall f :: f in job.inputs0 ==> f in v[job.level]
    requires forall f :: f in job.inputs1 ==> f in v[job.level + 1]
    ensures Moved(v, LogAndApply(v, JobEdit(job)), job)
  {
    var w := LogAndApply(v, JobEdit(job));
    ShallowLevelAfter(v, job);
    DeepLevelAfter(v, job);
    forall l | 0 <= l < |v| && l != job.level && l != job.level + 1 ensures w[l] == v[l] && Ordered(w[l]) {
      OtherLevelAfter(v, job, l);
    }
  }

  // ----- the invariant of versions survives -----

  /** Where every entry of the new version was before. */
  ghost predicate OutputsFromInputs(job: Job) {
    forall e :: e in LevelEntries(job.outputs) ==> e in LevelEntries(job.inputs0) || e in LevelEntries(job.inputs1)
  }

  /** What a job must promise about its inputs and outputs. */
  ghost predicate SoundJob(v: Version, job: Job) {
    && job.level + 1 < |v|
    && ValidInputs(v[job.level], v[job.level + 1], job.inputs0, job.inputs1)
    && ValidFiles(job.outputs) && Disjoint(job.outputs)
    && OutputsFromInputs(job)
    && OutputNumbersFree(v, job)
  }

  lemma DisjointFromPairs(files: Level)
    requires ValidFiles(files) && Ordered(files)
    requires forall f, g :: f in files && g in files && f != g
                            ==> Less(f.largest, g.smallest) || Less(g.largest, f.smallest)
    ensures Disjoint(files)
  {
    forall i, j | 0 <= i < j < |files| ensures Less(files[i].largest, files[j].smallest) {
      var f, g := files[i], files[j];
      assert BySmallestKey(f, g) && f in files && g in files;
      FileBounds(g, g.entries[0]);
      FileBounds(g, g.entries[|g.entries| - 1]);
    }
  }

  lemma PairsFromDisjoint(files: Level, f: File, g: File)
    requires Disjoint(files) && f in files && g in files && f != g
    ensures Less(f.largest, g.smallest) || Less(g.largest, f.smallest)
  {
  }

  lemma ShallowLevelDisjoint(v: Version, w: Version, job: Job)
    requires job.level + 1 < |v| && Moved(v, w, job)
    requires ValidFiles(v[job.level])
    ensures ValidFiles(w[job.level])
    ensures Disjoint(v[job.level]) ==> Disjoint(w[job.level])
  {
    if Disjoint(v[job.level]) {
      forall f, g | f in w[job.level] && g in w[job.level] && f != g
        ensures Less(f.largest, g.smallest) || Less(g.largest, f.smallest)
      {
        PairsFromDisjoint(v[job.level], f, g);
      }
      DisjointFromPairs(w[job.level]);
    }
  }

  /** A file left behind and an output lie apart, because the output starts and ends with inputs. */
  lemma OutputApart(v: Version, job: Job, f: File, g: File)
    requires SoundJob(v, job) && f in v[job.level + 1] && f !in job.inputs1 && g in job.outputs
    ensures Less(f.largest, g.smallest) || Less(g.largest, f.smallest)
  {
    var first, last := g.entries[0], g.entries[|g.entries| - 1];
    assert first in g.entries && last in g.entries;
    assert first in LevelEntries(job.outputs) && last in LevelEntries(job.outputs);
    if AllBefore(f, job.inputs0) && AllBefore(f, job.inputs1) {
      assert Less(f.largest, first.ikey);
    } else {
      assert AllAfter(f, job.inputs0) && AllAfter(f, job.inputs1);
      assert Less(last.ikey, f.smallest);
    }
  }

  lemma DeepLevelDisjoint(v: Version, w: Version, job: Job)
    requires SoundJob(v, job) && Moved(v, w, job)
    requires ValidFiles(v[job.level + 1]) && Disjoint(v[job.level + 1])
    ensures ValidFiles(w[job.level + 1]) && Disjoint(w[job.level + 1])
  {
    var before, after := v[job.level + 1], w[job.level + 1];
    forall f, g | f in after && g in after && f != g
      ensures Less(f.largest, g.smallest) || Less(g.largest, f.smallest)
    {
      if f in job.outputs && g in job.outputs {
        PairsFromDisjoint(job.outputs, f, g);
      } else if f in job.outputs {
        OutputApart(v, job, g, f);
      } else if g in job.outputs {
        OutputApart(v, job, f, g);
      } else {
        PairsFromDisjoint(before, f, g);
      }
    }
    DisjointFromPairs(after);
  }

  lemma NumbersStayUnique(v: Version, w: Version, job: Job)
    requires job.level + 1 < |v| && Moved(v, w, job) && UniqueNumbers(v) && OutputNumbersFree(v, job)
    requires forall f :: f in job.inputs0 ==> f in v[job.level]
    ensures UniqueNumbers(w)
  {
    var deep := job.level + 1;
    forall o, j, g | o in job.outputs && 0 <= j < |w| && g in w[j] && !(j == deep && g in job.outputs)
      ensures o.number != g.number
    {
      assert g in v[j] && (j == job.level ==> g !in job.inputs0);
    }
    forall f, g | f in job.outputs && g in job.outputs && f.number == g.number ensures f == g {
      var a :| 0 <= a < |job.outputs| && job.outputs[a] == f;
      var b :| 0 <= b < |job.outputs| && job.outputs[b] == g;
    }
    forall i, f, j, g | 0 <= i < |w| && f in w[i] && 0 <= j < |w| && g in w[j] && f.number == g.number
      ensures i == j && f == g
    {
      if !(i == deep && f in job.outputs) && !(j == deep && g in job.outputs) {
        assert f in v[i] && g in v[j];
      }
    }
  }

  /** An entry of a level after the job was in that level before, or came down from above it. */
  lemma EntryOrigin(v: Version, w: Version, job: Job, l: nat, e: Entry)
    requires SoundJob(v, job) && Moved(v, w, job) && l < |w| && e in LevelEntries(w[l])
    ensures e in LevelEntries(v[l]) || (l == job.level + 1 && e in LevelEntries(job.inputs0))
    ensures l == job.level ==> exists f :: f in v[l] && f !in job.inputs0 && e in f.entries
  {
    var f :| f in w[l] && e in f.entries;
    if l == job.level + 1 && f in job.outputs {
      assert e in LevelEntries(job.outputs);
      if e !in LevelEntries(job.inputs0) {
        var g :| g in job.inputs1 && e in g.entries;
        assert g in v[l];
      }
    } else {
      assert f in v[l];
    }
  }

  lemma NewerAcross(v: Version, i: nat, j: nat, x: Entry, y: Entry)
    requires LevelsFollowAge(v) && i < j < |v| && x in LevelEntries(v[i]) && y in LevelEntries(v[j])
    requires x.ikey.user == y.ikey.user
    ensures x.ikey.seqno > y.ikey.seqno
  {
    assert NewerThan(LevelEntries(v[i]), LevelEntries(v[j]));
  }

  /** What stays at `level` is newer than what moves down from it. */
  lemma NewerThanMoved(files: Level, inputs0: seq<File>, x: Entry, y: Entry)
    requires NothingOlderLeft(files, inputs0) && y in LevelEntries(inputs0) && x.ikey.user == y.ikey.user
    requires exists f :: f in files && f !in inputs0 && x in f.entries
    ensures x.ikey.seqno > y.ikey.seqno
  {
    var f :| f in files && f !in inputs0 && x in f.entries;
    var g :| g in inputs0 && y in g.entries;
    assert NewerThan(Elements(f.entries), Elements(g.entries));
    assert x in Elements(f.entries) && y in Elements(g.entries);
  }

  lemma MovedFrom(files: Level, inputs0: seq<File>, e: Entry)
    requires (forall f :: f in inputs0 ==> f in files) && e in LevelEntries(inputs0)
    ensures e in LevelEntries(files)
  {
    var g :| g in inputs0 && e in g.entries;
  }

  lemma AgeOrderOfTwo(v: Version, w: Version, job: Job, i: nat, j: nat, x: Entry, y: Entry)
    requires SoundJob(v, job) && Moved(v, w, job) && LevelsFollowAge(v)
    requires i < j < |w| && x in LevelEntries(w[i]) && y in LevelEntries(w[j]) && x.ikey.user == y.ikey.user
    ensures x.ikey.seqno > y.ikey.seqno
  {
    var level := job.level;
    EntryOrigin(v, w, job, i, x);
    EntryOrigin(v, w, job, j, y);
    if y !in LevelEntries(v[j]) {
      MovedFrom(v[level], job.inputs0, y);
      if i == level {
        NewerThanMoved(v[level], job.inputs0, x, y);
      } else {
        NewerAcross(v, i, level, x, y);
      }
    } else if x !in LevelEntries(v[i]) {
      MovedFrom(v[level], job.inputs0, x);
      NewerAcross(v, level, j, x, y);
    } else {
      NewerAcross(v, i, j, x, y);
    }
  }

  lemma AgeOrderKept(v: Version, w: Version, job: Job)
    requires SoundJob(v, job) && Moved(v, w, job) && LevelsFollowAge(v)
    ensures LevelsFollowAge(w)
  {
    forall i, j, x, y | 0 <= i < j < |w| && x in LevelEntries(w[i]) && y in LevelEntries(w[j])
                        && x.ikey.user == y.ikey.user
      ensures x.ikey.seqno > y.ikey.seqno
    {
      AgeOrderOfTwo(v, w, job, i, j, x, y);
    }
  }

  lemma LevelsStayInShape(v: Version, w: Version, job: Job)
    requires SoundJob(v, job) && Moved(v, w, job)
    requires forall l :: 0 <= l < |v| ==> ValidFiles(v[l]) && Ordered(v[l])
    requires forall l :: 1 <= l < |v| ==> Disjoint(v[l])
    ensures forall l :: 0 <= l < |w| ==> ValidFiles(w[l]) && Ordered(w[l])
    ensures forall l :: 1 <= l < |w| ==> Disjoint(w[l])
  {
    ShallowLevelDisjoint(v, w, job);
    DeepLevelDisjoint(v, w, job);
  }

  /** A sound job turns a valid version into a valid version. */
  lemma JobKeepsValid(v: Version, w: Version, job: Job)
    requires ValidVersion(v) && SoundJob(v, job) && Moved(v, w, job)
    ensures ValidVersion(w)
  {
    LevelsStayInShape(v, w, job);
    NumbersStayUnique(v, w, job);
    AgeOrderKept(v, w, job);
    assert forall f :: f in w[0] ==> f in v[0];
  }
}
