/**
 The database as a state machine (db/db_impl.cc): writes, memtable switches, memtable flushes,
 trivial moves, compactions and snapshots, each one atomic step, against a plain map.
 */
module Database {
  import opened Common
  import opened InternalKeys
  import opened Versions
  import opened Inputs
  import opened Selection
  import opened Compaction
  import opened Install
  import opened Meaning
  import VB = VersionBuilder

  datatype DB = DB(mem: seq<Entry>, imm: Option<seq<Entry>>, version: Version, lastSequence: nat,
                   snapshots: seq<nat>, nextFile: nat)

  ghost function ImmEntries(db: DB): set<Entry> {
    if db.imm.Some? then Elements(db.imm.value) else {}
  }

  ghost function AllEntries(db: DB): set<Entry> {
    Elements(db.mem) + ImmEntries(db) + VersionEntries(db.version)
  }

  ghost predicate NumbersBelow(v: Version, n: nat) {
    forall l, f :: 0 <= l < |v| && f in v[l] ==> f.number < n
  }

  /** Each layer is newer than the ones below it, and nothing is newer than `last`. */
  ghost predicate LayersFollowAge(mem: set<Entry>, imm: set<Entry>, disk: set<Entry>, last: nat) {
    && Distinct(mem + imm + disk)
    && NewerThan(mem, imm) && NewerThan(mem, disk) && NewerThan(imm, disk)
    && forall e :: e in mem + imm + disk ==> e.ikey.seqno <= last
  }

  /** SnapshotList: oldest first. */
  ghost predicate SnapshotsInOrder(snapshots: seq<nat>, last: nat) {
    && (forall i :: 0 <= i < |snapshots| ==> snapshots[i] <= last)
    && (forall i, j :: 0 <= i < j < |snapshots| ==> snapshots[i] <= snapshots[j])
  }

  /** The memtables against the disk, and the sequence numbers in use. */
  ghost predicate MemoryInvariant(db: DB) {
    && Sorted(db.mem) && (db.imm.Some? ==> Sorted(db.imm.value))
    && LayersFollowAge(Elements(db.mem), ImmEntries(db), VersionEntries(db.version), db.lastSequence)
    && db.lastSequence < MAX_SEQUENCE
    && SnapshotsInOrder(db.snapshots, db.lastSequence)
  }

  ghost predicate DiskInvariant(v: Version, nextFile: nat) {
    ValidVersion(v) && NumbersBelow(v, nextFile)
  }

  /** What every reachable database satisfies. */
  ghost predicate Invariant(db: DB) {
    MemoryInvariant(db) && DiskInvariant(db.version, db.nextFile)
  }

  // ----- reading -----

  /** DBImpl::Get: the memtable, then the immutable memtable, then the version. */
  method Get(db: DB, user: UserKey, snapshot: nat) returns (r: GetResult)
    requires Invariant(db)
    ensures r == ReadAt(AllEntries(db), user, snapshot)
  {
    var e := RunGet(db.mem, user, snapshot);
    RunGetIsNewest(db.mem, user, snapshot);
    if e.Some? {
      NewestOfLayers(Elements(db.mem), ImmEntries(db) + VersionEntries(db.version), user, snapshot, e.value);
      assert AllEntries(db) == Elements(db.mem) + (ImmEntries(db) + VersionEntries(db.version));
      ReadAtNewest(AllEntries(db), user, snapshot, e.value);
      return Outcome(e.value);
    }
    if db.imm.Some? {
      e := RunGet(db.imm.value, user, snapshot);
      RunGetIsNewest(db.imm.value, user, snapshot);
      if e.Some? {
        NewestOfLayers(ImmEntries(db), VersionEntries(db.version), user, snapshot, e.value);
        NewestUnderEmptyLayer(Elements(db.mem), ImmEntries(db) + VersionEntries(db.version), user, snapshot, e.value);
        assert AllEntries(db) == Elements(db.mem) + (ImmEntries(db) + VersionEntries(db.version));
        ReadAtNewest(AllEntries(db), user, snapshot, e.value);
        return Outcome(e.value);
      }
    }
    e := Versions.Get(db.version, user, snapshot);
    if e.Some? {
      NewestUnderEmptyLayer(Elements(db.mem) + ImmEntries(db), VersionEntries(db.version), user, snapshot, e.value);
      ReadAtNewest(AllEntries(db), user, snapshot, e.value);
      return Outcome(e.value);
    }
    assert forall x :: x in AllEntries(db) ==> !Visible(x, user, snapshot);
    return NotFound;
  }

  lemma NewestOfLayers(upper: set<Entry>, lower: set<Entry>, user: UserKey, snapshot: nat, e: Entry)
    requires NewerThan(upper, lower) && IsNewest(upper, user, snapshot, e)
    ensures IsNewest(upper + lower, user, snapshot, e)
  {
  }

  lemma NewestUnderEmptyLayer(upper: set<Entry>, lower: set<Entry>, user: UserKey, snapshot: nat, e: Entry)
    requires (forall x :: x in upper ==> !Visible(x, user, snapshot)) && IsNewest(lower, user, snapshot, e)
    ensures IsNewest(upper + lower, user, snapshot, e)
  {
  }

  // ----- writing -----

  datatype Op = PutOp(user: UserKey, value: Value) | DeleteOp(user: UserKey)

  /** MemTableInserter: the entry one operation of a batch becomes. */
  function EntryOf(op: Op, seqno: nat): Entry {
    match op
    case PutOp(user, value) => Entry(IKey(user, seqno, Put), value)
    case DeleteOp(user) => Entry(IKey(user, seqno, Deletion), "")
  }

  /** MemTable::Add, on the sorted order the skip list keeps. */
  function Insert(run: seq<Entry>, e: Entry): seq<Entry> {
    var i := LowerBound(run, e.ikey);
    run[..i] + [e] + run[i..]
  }

  /** WriteBatchInternal::InsertInto: consecutive sequence numbers from `seqno` on. */
  function InsertBatch(run: seq<Entry>, batch: seq<Op>, seqno: nat): seq<Entry>
    decreases |batch|
  {
    if batch == [] then run else InsertBatch(Insert(run, EntryOf(batch[0], seqno)), batch[1..], seqno + 1)
  }

  lemma InsertSorted(run: seq<Entry>, e: Entry)
    requires Sorted(run)
    requires forall x :: x in run && x.ikey.user == e.ikey.user ==> x.ikey.seqno < e.ikey.seqno
    ensures Sorted(Insert(run, e)) && Elements(Insert(run, e)) == Elements(run) + {e}
  {
    var i := LowerBound(run, e.ikey);
    forall j | i <= j < |run| ensures Less(e.ikey, run[j].ikey) {
      assert run[j] in run && run[i] in run;
      assert i < j ==> Less(run[i].ikey, run[j].ikey);
    }
    SplicedSorted(run, i, e);
  }

  lemma SplicedSorted(run: seq<Entry>, i: nat, e: Entry)
    requires Sorted(run) && i <= |run|
    requires forall j :: 0 <= j < i ==> Less(run[j].ikey, e.ikey)
    requires forall j :: i <= j < |run| ==> Less(e.ikey, run[j].ikey)
    ensures Sorted(run[..i] + [e] + run[i..]) && Elements(run[..i] + [e] + run[i..]) == Elements(run) + {e}
  {
    var z := run[..i] + [e] + run[i..];
    assert |z| == |run| + 1 && z[i] == e;
    assert forall j :: 0 <= j < i ==> z[j] == run[j];
    assert forall j :: i < j < |z| ==> z[j] == run[j - 1];
    forall x | x in run ensures x in z {
      var j :| 0 <= j < |run| && run[j] == x;
      assert z[if j < i then j else j + 1] == x;
    }
  }

  const MAX_MEM_COMPACT_LEVEL := 2

  /** PickLevelForMemTableOutput: below level 0 only past levels that the file does not overlap. */
  ghost predicate MayPlace(v: Version, level: nat, f: File)
    requires |v| == NUM_LEVELS
  {
    && level <= MAX_MEM_COMPACT_LEVEL
    && (level > 0 ==> forall l, g :: 0 <= l <= level && g in v[l]
                        ==> !Overlaps(g, Some(f.smallest.user), Some(f.largest.user)))
  }

  method PickLevelForMemTableOutput(v: Version, f: File, maxGrandparentBytes: nat) returns (level: nat)
    requires ValidVersion(v)
    requires forall l, g :: 0 <= l < NUM_LEVELS && g in v[l] ==> g.largest.seqno <= MAX_SEQUENCE
    ensures MayPlace(v, level, f)
  {
    var begin, end := Some(f.smallest.user), Some(f.largest.user);
    level := 0;
    var overlap := SomeFileOverlapsRange(false, v[0], begin, end);
    if !overlap {
      while level < MAX_MEM_COMPACT_LEVEL
        invariant level <= MAX_MEM_COMPACT_LEVEL
        invariant forall l, g :: 0 <= l <= level && g in v[l] ==> !Overlaps(g, begin, end)
      {
        overlap := SomeFileOverlapsRange(true, v[level + 1], begin, end);
        if overlap {
          break;
        }
        var overlaps := GetOverlappingInputs(v[level + 2], false, begin, end);
        if TotalFileSize(overlaps) > maxGrandparentBytes {
          break;
        }
        level := level + 1;
      }
    }
  }

  // ----- the steps -----

  /** The compaction that DBImpl::BackgroundCompaction runs: where it starts, what
      SetupOtherInputs makes of it, the merged input, and the oldest snapshot it keeps. */
  datatype Task = Task(chosen: seq<File>, job: Job, run: seq<Entry>, oldest: nat)

  datatype Step =
    | Write(batch: seq<Op>)
    | SwitchMemTable
    | Flush(level: nat, file: Option<File>)
    | Move(task: Task)
    | Compact(task: Task)
    | TakeSnapshot
    | ReleaseSnapshot(index: nat)

  /** PickCompaction or CompactRange, then SetupOtherInputs. */
  ghost predicate Picked(v: Version, task: Task)
    requires |v| == NUM_LEVELS
  {
    var level := task.job.level;
    && level + 1 < NUM_LEVELS
    && Chosen(v[level], level == 0, task.chosen)
    && SelectedInputs(v[level], v[level + 1], level == 0, task.chosen, task.job.inputs0, task.job.inputs1)
  }

  /** The files that FinishCompactionOutputFile closes: their entries one after the other are
      those kept, and their numbers come from NewFileNumber. */
  ghost predicate OutputFiles(outputs: seq<File>, kept: seq<Entry>, first: nat, next: nat) {
    && ValidFiles(outputs)
    && Flatten(seq(|outputs|, i requires 0 <= i < |outputs| => outputs[i].entries)) == kept
    && (forall i :: 0 <= i < |outputs| ==> first <= outputs[i].number < next)
    && (forall i, j :: 0 <= i < j < |outputs| ==> outputs[i].number < outputs[j].number)
  }

  /** CompactMemTable. An empty memtable makes no file. */
  ghost predicate FlushStep(db: DB, level: nat, file: Option<File>, after: DB)
    requires |db.version| == NUM_LEVELS
  {
    && db.imm.Some?
    && if db.imm.value == [] then
         file == None && after == db.(imm := None)
       else
         file.Some? && ValidFile(file.value) && file.value.entries == db.imm.value
         && file.value.number == db.nextFile && MayPlace(db.version, level, file.value)
         && after == db.(imm := None, nextFile := db.nextFile + 1,
                         version := LogAndApply(db.version, VB.VersionEdit([], [(level, file.value)])))
  }

  /** The trivial move of BackgroundCompaction. */
  ghost predicate MoveStep(db: DB, task: Task, after: DB)
    requires |db.version| == NUM_LEVELS
  {
    && Picked(db.version, task)
    && |task.job.inputs0| == 1 && task.job.inputs1 == [] && task.job.outputs == task.job.inputs0
    && after == db.(version := LogAndApply(db.version, JobEdit(task.job)))
  }

  /** DoCompactionWork and InstallCompactionResults. `oldest` is the oldest live snapshot, or the
      last sequence when there is none, as it was when the compaction began; snapshots taken and
      writes made since then are only newer. */
  ghost predicate CompactStep(db: DB, task: Task, after: DB)
    requires |db.version| == NUM_LEVELS
  {
    && Picked(db.version, task)
    && Sorted(task.run) && Elements(task.run) == InputSet(task.job)
    && task.oldest <= db.lastSequence && (forall i :: 0 <= i < |db.snapshots| ==> task.oldest <= db.snapshots[i])
    && OutputFiles(task.job.outputs, Kept(db.version, task.job.level, task.run, task.oldest, |task.run|),
                   db.nextFile, after.nextFile)
    && db.nextFile <= after.nextFile
    && after == db.(version := LogAndApply(db.version, JobEdit(task.job)), nextFile := after.nextFile)
  }

  ghost predicate Next(db: DB, step: Step, after: DB)
    requires |db.version| == NUM_LEVELS
  {
    match step
    case Write(batch) =>
      db.lastSequence + |batch| < MAX_SEQUENCE
      && after == db.(mem := InsertBatch(db.mem, batch, db.lastSequence + 1),
                      lastSequence := db.lastSequence + |batch|)
    case SwitchMemTable => db.imm.None? && after == db.(mem := [], imm := Some(db.mem))
    case Flush(level, file) => FlushStep(db, level, file, after)
    case Move(task) => MoveStep(db, task, after)
    case Compact(task) => CompactStep(db, task, after)
    case TakeSnapshot => after == db.(snapshots := db.snapshots + [db.lastSequence])
    case ReleaseSnapshot(i) =>
      i < |db.snapshots| && after == db.(snapshots := db.snapshots[..i] + db.snapshots[i + 1..])
  }

  /** A memtable has an entry of the user key that the snapshot sees: it decides the read. */
  ghost predicate Shadowed(db: DB, user: UserKey, snapshot: nat) {
    exists x :: x in Elements(db.mem) + ImmEntries(db) && Visible(x, user, snapshot)
  }

  /** The step does not bring back a deleted value (see Uncovers), except behind an entry of a memtable. */
  ghost predicate Harmless(db: DB, step: Step) {
    step.Compact? ==> step.task.job.level + 1 < |db.version|
                      && forall user :: Uncovers(db.version, step.task.job, step.task.oldest, user)
                                        ==> Shadowed(db, user, step.task.oldest)
  }

  /** The oldest snapshot that the compaction keeps is live, or is the last sequence number. */
  ghost predicate IsLive(db: DB, snapshot: nat) {
    snapshot == db.lastSequence || exists i :: 0 <= i < |db.snapshots| && db.snapshots[i] == snapshot
  }

  // ----- what it means: a map with frozen copies -----

  datatype Spec = Spec(view: map<UserKey, Value>, frozen: seq<map<UserKey, Value>>)

  function Lookup(view: map<UserKey, Value>, user: UserKey): GetResult {
    if user in view then Found(view[user]) else NotFound
  }

  function ApplyOp(view: map<UserKey, Value>, op: Op): map<UserKey, Value> {
    match op
    case PutOp(user, value) => view[user := value]
    case DeleteOp(user) => view - {user}
  }

  function ApplyBatch(view: map<UserKey, Value>, batch: seq<Op>): map<UserKey, Value>
    decreases |batch|
  {
    if batch == [] then view else ApplyBatch(ApplyOp(view, batch[0]), batch[1..])
  }

  function SpecNext(spec: Spec, step: Step): Spec
    requires step.ReleaseSnapshot? ==> step.index < |spec.frozen|
  {
    match step
    case Write(batch) => spec.(view := ApplyBatch(spec.view, batch))
    case TakeSnapshot => spec.(frozen := spec.frozen + [spec.view])
    case ReleaseSnapshot(i) => spec.(frozen := spec.frozen[..i] + spec.frozen[i + 1..])
    case _ => spec
  }

  ghost predicate Reads(entries: set<Entry>, seqno: nat, view: map<UserKey, Value>) {
    forall user :: ReadAt(entries, user, seqno) == Lookup(view, user)
  }

  ghost predicate ReadsAll(entries: set<Entry>, last: nat, snapshots: seq<nat>, spec: Spec) {
    && |spec.frozen| == |snapshots|
    && Reads(entries, last, spec.view)
    && forall i :: 0 <= i < |snapshots| ==> Reads(entries, snapshots[i], spec.frozen[i])
  }

  /** The database stands for the map: now, and at every live snapshot. */
  ghost predicate Represents(db: DB, spec: Spec) {
    ReadsAll(AllEntries(db), db.lastSequence, db.snapshots, spec)
  }
}
