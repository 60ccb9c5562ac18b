/**
 What holds of the writer queue in every run: writes complete once and in order, operations are
 numbered consecutively, readers see whole commits, and a synced write survives a crash.
 */
module CommitSafety {
  import opened Common
  import opened Coding
  import opened LogFormat
  import opened LogReader
  import opened WriteBatches
  import opened Recovery
  import opened GroupCommit

  // ----- what the history amounts to -----

  function Front<T>(s: seq<T>): seq<T>
    requires s != []
  {
    s[..|s| - 1]
  }

  function Last<T>(s: seq<T>): T
    requires s != []
  {
    s[|s| - 1]
  }

  function MembersOf(history: seq<Commit>): seq<Writer> {
    if history == [] then [] else MembersOf(Front(history)) + Last(history).members
  }

  /** The operations that got sequence numbers in this commit. */
  function CommitOps(c: Commit): seq<Op> {
    if c.led then OpsOf(c.members) else []
  }

  function AllOps(history: seq<Commit>): seq<Op> {
    if history == [] then [] else AllOps(Front(history)) + CommitOps(Last(history))
  }

  function CommitAdds(c: Commit): seq<Add> {
    Adds(c.base, CommitOps(c))
  }

  /** The entries of every commit, successful or not. */
  function NumberedAdds(history: seq<Commit>): seq<Add> {
    if history == [] then [] else NumberedAdds(Front(history)) + CommitAdds(Last(history))
  }

  /** The entries of the successful commits. */
  function VisibleAdds(history: seq<Commit>): seq<Add> {
    if history == [] then [] else
      VisibleAdds(Front(history)) + if Last(history).ok then CommitAdds(Last(history)) else []
  }

  function AnswersOf(history: seq<Commit>): map<nat, bool> {
    if history == [] then map[] else Answer(AnswersOf(Front(history)), Last(history).members, Last(history).ok)
  }

  // ----- the invariant -----

  predicate DistinctIds(writers: seq<Writer>) {
    forall i, j :: 0 <= i < j < |writers| ==> writers[i].id != writers[j].id
  }

  ghost predicate Queued(s: State) {
    && s.arrived == MembersOf(s.history) + s.queue
    && DistinctIds(s.arrived)
    && (forall w :: w in s.queue ==> WellFormedWriter(w))
  }

  ghost predicate LeaderInRange(s: State) {
    s.leader.Some? ==>
      && IsGroup(s.queue, s.leader.value.size)
      && s.lastSequence + 1 + |GroupOps(s)| < 0x1_0000_0000_0000_0000
      && (s.leader.value.phase.Inserting? ==> s.leader.value.phase.count <= |GroupOps(s)|)
  }

  /** Each commit is numbered from where the one before it ended. */
  ghost predicate Numbered(history: seq<Commit>, last: nat) {
    if history == [] then last == 0 else
      var c := Last(history);
      c.base >= 1 && c.base + |CommitOps(c)| == last + 1 && Numbered(Front(history), c.base - 1)
  }

  /** The operations of the group at work that are in the memtable already. */
  function PendingOps(s: State): seq<Op>
    requires s.leader.Some? ==> s.leader.value.size <= |s.queue|
  {
    if s.leader.Some? && s.leader.value.phase.Inserting? && s.leader.value.phase.count <= |GroupOps(s)| then
      GroupOps(s)[..s.leader.value.phase.count]
    else []
  }

  function Pending(s: State): seq<Add>
    requires s.leader.Some? ==> s.leader.value.size <= |s.queue|
  {
    Adds(s.lastSequence + 1, PendingOps(s))
  }

  ghost predicate Inserted(s: State)
    requires LeaderInRange(s)
  {
    s.mem == VisibleAdds(s.history) + Pending(s)
  }

  function EndOf(records: seq<Batch>): int {
    if records == [] then 0 else Last(records).sequence + |Last(records).ops| - 1
  }

  ghost predicate Consecutive(records: seq<Batch>) {
    records != [] ==> Last(records).sequence == EndOf(Front(records)) + 1 && Consecutive(Front(records))
  }

  /** The log after the appends that succeeded. */
  ghost predicate LogHolds(crc: Checksum, s: State) {
    && AllWellFormed(s.records)
    && s.syncedRecords <= |s.records|
    && (s.clean ==> s.log == LogBytes(crc, Records(s.records), 0) && Consecutive(s.records))
  }

  ghost predicate SyncedPart(crc: Checksum, s: State) {
    AllWellFormed(s.records) && s.syncedRecords <= |s.records| && s.clean ==>
      AllWellFormed(s.records[..s.syncedRecords])
      && |LogBytes(crc, Records(s.records[..s.syncedRecords]), 0)| == s.syncedBytes
  }

  predicate HasSync(writers: seq<Writer>) {
    exists i :: 0 <= i < |writers| && writers[i].sync
  }

  /** A successful commit is in the log, and on disk if one of its writers asked for it. */
  ghost predicate InLog(c: Commit, records: seq<Batch>, synced: nat) {
    c.led && c.ok ==>
      && c.record.Some? && c.record.value < |records|
      && records[c.record.value].sequence == c.base && records[c.record.value].ops == CommitOps(c)
      && (HasSync(c.members) ==> c.record.value < synced)
  }

  ghost predicate CommitsInLog(s: State) {
    forall i :: 0 <= i < |s.history| ==> InLog(s.history[i], s.records, s.syncedRecords)
  }

  /** How far the group at work got with the log. */
  ghost predicate LeaderInLog(s: State)
    requires LeaderInRange(s)
  {
    if s.leader.Some? && (s.leader.value.phase.Syncing? || s.leader.value.phase.Inserting? || s.leader.value.phase == Failed(true)) then
      && s.records != [] && Last(s.records) == BatchOf(s)
      && (s.leader.value.phase.Inserting? && s.queue[0].sync ==> s.syncedRecords == |s.records|)
    else
      s.clean ==> !(s.leader.Some? && s.leader.value.phase == Failed(false)) && EndOf(s.records) == s.lastSequence
  }

  ghost predicate Safe(crc: Checksum, s: State) {
    && Queued(s) && LeaderInRange(s) && Numbered(s.history, s.lastSequence) && Inserted(s)
    && LogHolds(crc, s) && SyncedPart(crc, s) && CommitsInLog(s) && LeaderInLog(s)
    && s.answers == AnswersOf(s.history)
  }

  // ----- every step keeps it -----

  lemma FrontOfPush<T>(s: seq<T>, x: T)
    ensures Front(s + [x]) == s && Last(s + [x]) == x
  {
  }

  lemma MembersWellFormed(writers: seq<Writer>, n: nat)
    requires n <= |writers| && forall w :: w in writers ==> WellFormedWriter(w)
    ensures AllSmall(OpsOf(writers[..n]))
  {
    if n > 0 {
      MembersWellFormed(writers, n - 1);
      OneMoreWriter(writers, n - 1);
      FirstWriter(writers[n - 1]);
      assert WellFormedWriter(writers[n - 1]);
      AllSmallConcat(OpsOf(writers[..n - 1]), OpsOf([writers[n - 1]]));
    } else {
      assert writers[..0] == [];
    }
  }

  lemma {:induction false} AllSmallConcat(x: seq<Op>, y: seq<Op>)
    requires AllSmall(x) && AllSmall(y)
    ensures AllSmall(x + y)
  {
    if x == [] {
      assert x + y == y;
    } else {
      var z := x + y;
      assert z[0] == x[0];
      assert z[1..] == x[1..] + y;
      AllSmallConcat(x[1..], y);
    }
  }

  lemma {:induction false} OpsFitTheirSize(ops: seq<Op>)
    ensures |ops| <= |EncodeOps(ops)|
  {
    if ops != [] {
      OpsFitTheirSize(ops[1..]);
    }
  }

  lemma CountWithinSize(writers: seq<Writer>, n: nat)
    requires n <= |writers| && forall w :: w in writers ==> WellFormedWriter(w)
    ensures |OpsOf(writers[..n])| <= TotalSize(writers[..n])
  {
    if n > 0 {
      var w := writers[n - 1];
      CountWithinSize(writers, n - 1);
      OneMoreWriter(writers, n - 1);
      FirstWriter(w);
      assert WellFormedWriter(w);
      if w.ops.Some? {
        OpsFitTheirSize(w.ops.value);
      }
    } else {
      assert writers[..0] == [];
    }
  }

  /** The batch of a group can always be written: appending is never stuck. */
  lemma GroupIsWellFormed(s: State)
    requires Queued(s) && LeaderInRange(s) && s.leader.Some?
    ensures WellFormed(BatchOf(s))
  {
    var n := s.leader.value.size;
    MembersWellFormed(s.queue, n);
    CountWithinSize(s.queue, n);
    assert WellFormedWriter(s.queue[0]);
    assert s.queue[0].ops.Some?;
    if OpsOf(s.queue[..n]) != s.queue[0].ops.value {
      assert |OpsOf(s.queue[..n])| <= MaxSize(s.queue[0].size) <= 0x10_0000;
    }
  }

  lemma SameGroup(queue: seq<Writer>, w: Writer, n: nat)
    requires IsGroup(queue, n)
    ensures IsGroup(queue + [w], n) && (queue + [w])[..n] == queue[..n]
  {
    assert (queue + [w])[..n] == queue[..n];
  }

  lemma ArrivalQueued(s: State, w: Writer)
    requires Queued(s) && WellFormedWriter(w) && forall v :: v in s.arrived ==> v.id != w.id
    ensures Queued(s.(arrived := s.arrived + [w], queue := s.queue + [w]))
  {
    assert s.arrived + [w] == MembersOf(s.history) + (s.queue + [w]);
  }

  lemma ArriveIsSafe(crc: Checksum, s: State, w: Writer)
    requires Safe(crc, s) && Enabled(crc, s, Arrive(w))
    ensures Safe(crc, After(crc, s, Arrive(w)))
  {
    ArrivalQueued(s, w);
    if s.leader.Some? {
      SameGroup(s.queue, w, s.leader.value.size);
    }
  }

  /** What a completed commit does to the queue. */
  lemma CompleteQueue(s: State, c: Commit)
    requires Queued(s) && |c.members| <= |s.queue| && c.members == s.queue[..|c.members|]
    ensures Queued(Complete(s, c))
  {
    var t := Complete(s, c);
    FrontOfPush(s.history, c);
    assert s.queue == c.members + t.queue;
    assert MembersOf(t.history) + t.queue == MembersOf(s.history) + s.queue;
  }

  lemma CompleteHistory(s: State, c: Commit, last: nat)
    requires Numbered(s.history, s.lastSequence) && s.answers == AnswersOf(s.history)
    requires |c.members| <= |s.queue| && c.base == s.lastSequence + 1 && c.base + |CommitOps(c)| == last + 1
    ensures Numbered(Complete(s, c).history, last)
    ensures Complete(s, c).answers == AnswersOf(Complete(s, c).history)
    ensures VisibleAdds(Complete(s, c).history) == VisibleAdds(s.history) + if c.ok then CommitAdds(c) else []
  {
    FrontOfPush(s.history, c);
  }

  lemma CompleteLog(s: State, c: Commit)
    requires CommitsInLog(s) && InLog(c, s.records, s.syncedRecords) && |c.members| <= |s.queue|
    ensures CommitsInLog(Complete(s, c))
  {
  }

  /** A writer that is turned away, or only asked for room. */
  lemma AloneIsSafe(crc: Checksum, s: State, ok: bool)
    requires Safe(crc, s) && s.leader.None? && s.queue != []
    ensures Safe(crc, Complete(s, Commit(s.queue[..1], false, s.lastSequence + 1, ok, None)))
  {
    var c := Commit(s.queue[..1], false, s.lastSequence + 1, ok, None);
    CompleteQueue(s, c);
    CompleteHistory(s, c, s.lastSequence);
    CompleteLog(s, c);
    assert CommitAdds(c) == [];
  }

  /** The commit that the step Finish records. */
  function Finished(s: State): Commit
    requires s.leader.Some? && s.leader.value.size <= |s.queue|
  {
    var phase := s.leader.value.phase;
    var record := if phase == Failed(false) || s.records == [] then None else Some(|s.records| - 1);
    Commit(s.queue[..s.leader.value.size], true, s.lastSequence + 1, phase.Inserting?, record)
  }

  lemma FinishedIsInLog(s: State)
    requires LeaderInRange(s) && LeaderInLog(s) && s.leader.Some?
    ensures InLog(Finished(s), s.records, s.syncedRecords)
  {
    var n := s.leader.value.size;
    assert HasSync(s.queue[..n]) ==> s.queue[0].sync;
  }

  lemma FinishedIsVisible(s: State)
    requires LeaderInRange(s) && s.leader.Some? && s.leader.value.phase == Inserting(|GroupOps(s)|)
    ensures CommitAdds(Finished(s)) == Pending(s)
  {
    assert GroupOps(s)[..|GroupOps(s)|] == GroupOps(s);
  }

  lemma FinishIsSafe(crc: Checksum, s: State)
    requires Safe(crc, s) && Enabled(crc, s, Finish)
    ensures Safe(crc, After(crc, s, Finish))
  {
    var c := Finished(s);
    CompleteQueue(s, c);
    CompleteHistory(s, c, s.lastSequence + |GroupOps(s)|);
    FinishedIsInLog(s);
    CompleteLog(s, c);
    FinishKeepsLog(crc, s);
    if c.ok {
      FinishedIsVisible(s);
    }
  }

  lemma FinishKeepsLog(crc: Checksum, s: State)
    requires LogHolds(crc, s) && SyncedPart(crc, s) && LeaderInRange(s) && LeaderInLog(s) && Enabled(crc, s, Finish)
    ensures var t := After(crc, s, Finish);
      LogHolds(crc, t) && SyncedPart(crc, t) && LeaderInRange(t) && LeaderInLog(t)
  {
  }

  lemma LeadIsSafe(crc: Checksum, s: State, n: nat)
    requires Safe(crc, s) && Enabled(crc, s, Lead(n))
    ensures Safe(crc, After(crc, s, Lead(n)))
  {
  }

  lemma {:induction false} RecordsOneMore(records: seq<Batch>, b: Batch)
    requires AllWellFormed(records) && WellFormed(b)
    ensures AllWellFormed(records + [b]) && Records(records + [b]) == Records(records) + [Encode(b.sequence, b.ops)]
  {
    var z := records + [b];
    if records == [] {
      assert z[1..] == [];
    } else {
      assert z[0] == records[0];
      assert z[1..] == records[1..] + [b];
      RecordsOneMore(records[1..], b);
    }
  }

  lemma FollowsOn(records: seq<Batch>, b: Batch)
    requires Consecutive(records) && b.sequence == EndOf(records) + 1
    ensures Consecutive(records + [b])
  {
    FrontOfPush(records, b);
  }

  lemma AppendedBytes(crc: Checksum, before: seq<seq<byte>>, record: seq<byte>, after: seq<seq<byte>>, log: seq<byte>)
    requires after == before + [record] && log == LogBytes(crc, before, 0)
    ensures LogBytes(crc, after, 0) == log + RecordBytes(crc, record, |log|)
  {
    AppendRecord(crc, before, record, 0);
  }

  lemma AppendedLog(crc: Checksum, records: seq<Batch>, b: Batch, log: seq<byte>)
    requires AllWellFormed(records) && WellFormed(b) && log == LogBytes(crc, Records(records), 0)
    ensures AllWellFormed(records + [b])
    ensures log + RecordBytes(crc, Encode(b.sequence, b.ops), |log|) == LogBytes(crc, Records(records + [b]), 0)
  {
    RecordsOneMore(records, b);
    AppendedBytes(crc, Records(records), Encode(b.sequence, b.ops), Records(records + [b]), log);
  }

  lemma AppendedCommits(crc: Checksum, s: State, bytes: seq<byte>)
    requires s.syncedRecords <= |s.records| && CommitsInLog(s) && LeaderInRange(s) && Enabled(crc, s, AppendOk(bytes))
    ensures var t := After(crc, s, AppendOk(bytes));
      CommitsInLog(t) && LeaderInRange(t) && LeaderInLog(t)
  {
    FrontOfPush(s.records, BatchOf(s));
  }

  lemma AppendKeepsLog(crc: Checksum, s: State, bytes: seq<byte>)
    requires LogHolds(crc, s) && SyncedPart(crc, s) && LeaderInRange(s) && LeaderInLog(s) && Enabled(crc, s, AppendOk(bytes))
    ensures LogHolds(crc, After(crc, s, AppendOk(bytes))) && SyncedPart(crc, After(crc, s, AppendOk(bytes)))
  {
    var b := BatchOf(s);
    RecordsOneMore(s.records, b);
    assert (s.records + [b])[..s.syncedRecords] == s.records[..s.syncedRecords];
    if s.clean {
      AppendedLog(crc, s.records, b, s.log);
      FollowsOn(s.records, b);
    }
  }

  lemma AppendIsSafe(crc: Checksum, s: State, bytes: seq<byte>)
    requires Safe(crc, s) && Enabled(crc, s, AppendOk(bytes))
    ensures Safe(crc, After(crc, s, AppendOk(bytes)))
  {
    AppendKeepsLog(crc, s, bytes);
    AppendedCommits(crc, s, bytes);
    assert Pending(After(crc, s, AppendOk(bytes))) == [];
  }

  lemma AppendFailureIsSafe(crc: Checksum, s: State, junk: seq<byte>)
    requires Safe(crc, s) && Enabled(crc, s, AppendFails(junk))
    ensures Safe(crc, After(crc, s, AppendFails(junk)))
  {
  }

  lemma SyncIsSafe(crc: Checksum, s: State)
    requires Safe(crc, s) && Enabled(crc, s, SyncOk)
    ensures Safe(crc, After(crc, s, SyncOk))
  {
    assert s.records[..|s.records|] == s.records;
  }

  lemma SyncFailureIsSafe(crc: Checksum, s: State)
    requires Safe(crc, s) && Enabled(crc, s, SyncFails)
    ensures Safe(crc, After(crc, s, SyncFails))
  {
  }

  lemma PendingOneMore(crc: Checksum, s: State)
    requires LeaderInRange(s) && Enabled(crc, s, InsertOne)
    ensures LeaderInRange(After(crc, s, InsertOne))
    ensures var k := s.leader.value.phase.count;
      PendingOps(s) == GroupOps(s)[..k] && PendingOps(After(crc, s, InsertOne)) == GroupOps(s)[..k + 1]
  {
  }

  lemma InsertedOneMore(crc: Checksum, s: State)
    requires LeaderInRange(s) && Inserted(s) && Enabled(crc, s, InsertOne)
    ensures LeaderInRange(After(crc, s, InsertOne)) && Inserted(After(crc, s, InsertOne))
  {
    PendingOneMore(crc, s);
    InsertedNext(VisibleAdds(s.history), s.lastSequence + 1, GroupOps(s), s.leader.value.phase.count);
  }

  lemma InsertedNext(before: seq<Add>, base: nat, ops: seq<Op>, k: nat)
    requires k < |ops|
    ensures before + Adds(base, ops[..k + 1]) == before + Adds(base, ops[..k]) + [Add(base + k, ops[k])]
  {
    assert ops[..k + 1] == ops[..k] + [ops[k]];
    AddsOneMore(before, base, ops[..k], ops[k]);
  }

  lemma InsertIsSafe(crc: Checksum, s: State)
    requires Safe(crc, s) && Enabled(crc, s, InsertOne)
    ensures Safe(crc, After(crc, s, InsertOne))
  {
    InsertedOneMore(crc, s);
  }

  lemma ErrorIsSafe(crc: Checksum, s: State)
    requires Safe(crc, s)
    ensures Safe(crc, After(crc, s, BackgroundError))
  {
    var t := After(crc, s, BackgroundError);
    assert Queued(t) && CommitsInLog(t);
    assert LogHolds(crc, t) && SyncedPart(crc, t);
    assert LeaderInRange(t) && LeaderInLog(t);
    assert PendingOps(t) == PendingOps(s);
  }

  lemma StepIsSafe(crc: Checksum, s: State, step: Step)
    requires Safe(crc, s) && Enabled(crc, s, step)
    ensures Safe(crc, After(crc, s, step))
  {
    match step
    case Arrive(w) => ArriveIsSafe(crc, s, w);
    case NoRoom => AloneIsSafe(crc, s, false);
    case NoBatch => AloneIsSafe(crc, s, true);
    case Lead(n) => LeadIsSafe(crc, s, n);
    case AppendOk(bytes) => AppendIsSafe(crc, s, bytes);
    case AppendFails(junk) => AppendFailureIsSafe(crc, s, junk);
    case SyncOk => SyncIsSafe(crc, s);
    case SyncFails => SyncFailureIsSafe(crc, s);
    case InsertOne => InsertIsSafe(crc, s);
    case Finish => FinishIsSafe(crc, s);
    case BackgroundError => ErrorIsSafe(crc, s);
  }

  lemma {:induction false} RunIsSafe(crc: Checksum, s: State, steps: seq<Step>, t: State)
    requires Safe(crc, s) && Reaches(crc, s, steps, t)
    ensures Safe(crc, t)
    decreases |steps|
  {
    if steps != [] {
      StepIsSafe(crc, s, steps[0]);
      RunIsSafe(crc, After(crc, s, steps[0]), steps[1..], t);
    }
  }

  lemma EveryRunIsSafe(crc: Checksum, s: State, steps: seq<Step>, t: State)
    requires Initial(s) && Reaches(crc, s, steps, t)
    ensures Safe(crc, t)
  {
    assert Records([]) == [] && s.records[..0] == [];
    RunIsSafe(crc, s, steps, t);
  }

  // ----- writes complete once, in the order they came -----

  lemma {:induction false} AnswerTells(answers: map<nat, bool>, members: seq<Writer>, ok: bool, id: nat)
    ensures id in Answer(answers, members, ok) <==> id in answers || exists j :: 0 <= j < |members| && members[j].id == id
    ensures (exists j :: 0 <= j < |members| && members[j].id == id) ==> Answer(answers, members, ok)[id] == ok
    ensures id in answers && !(exists j :: 0 <= j < |members| && members[j].id == id) ==> Answer(answers, members, ok)[id] == answers[id]
  {
    if members != [] {
      var rest, last := members[..|members| - 1], members[|members| - 1];
      AnswerTells(answers, rest, ok, id);
      assert forall j :: 0 <= j < |rest| ==> members[j] == rest[j];
    }
  }

  /** The answer to each member of a commit is that of the commit; nobody else has one. */
  lemma {:induction false} AnswersTell(history: seq<Commit>, i: nat, j: nat)
    requires DistinctIds(MembersOf(history)) && i < |history| && j < |history[i].members|
    ensures var id := history[i].members[j].id;
      id in AnswersOf(history) && AnswersOf(history)[id] == history[i].ok
    ensures history[i].members[j] in MembersOf(history)
  {
    var front, c := Front(history), Last(history);
    var w := history[i].members[j];
    var before := MembersOf(front);
    assert MembersOf(history) == before + c.members;
    AnswerTells(AnswersOf(front), c.members, c.ok, w.id);
    if i < |front| {
      assert history[i] == front[i];
      assert DistinctIds(before) by {
        assert forall k :: 0 <= k < |before| ==> before[k] == MembersOf(history)[k];
      }
      AnswersTell(front, i, j);
      var p :| 0 <= p < |before| && before[p] == w;
      forall k | 0 <= k < |c.members| ensures c.members[k].id != w.id {
        assert MembersOf(history)[p] == w && MembersOf(history)[|before| + k] == c.members[k];
      }
    }
  }

  lemma {:induction false} WaitingIsUnanswered(history: seq<Commit>, queue: seq<Writer>, k: nat)
    requires DistinctIds(MembersOf(history) + queue) && k < |queue|
    ensures queue[k].id !in AnswersOf(history)
  {
    if history != [] {
      var front, c := Front(history), Last(history);
      var all := MembersOf(front) + (c.members + queue);
      assert MembersOf(history) + queue == all;
      WaitingIsUnanswered(front, c.members + queue, |c.members| + k);
      AnswerTells(AnswersOf(front), c.members, c.ok, queue[k].id);
      forall j | 0 <= j < |c.members| ensures c.members[j].id != queue[k].id {
        assert all[|MembersOf(front)| + j] == c.members[j];
        assert all[|MembersOf(front)| + |c.members| + k] == queue[k];
      }
    }
  }

  /** In every run, the writers that came are those that were answered, commit after commit, followed by
      those that wait; each was answered once, with the outcome of its commit. */
  lemma WritesCompleteOnceInOrder(crc: Checksum, s: State, steps: seq<Step>, t: State)
    requires Initial(s) && Reaches(crc, s, steps, t)
    ensures t.arrived == MembersOf(t.history) + t.queue && DistinctIds(t.arrived)
    ensures forall i, j :: 0 <= i < |t.history| && 0 <= j < |t.history[i].members| ==>
      t.history[i].members[j].id in t.answers && t.answers[t.history[i].members[j].id] == t.history[i].ok
    ensures forall w :: w in t.queue ==> w.id !in t.answers
  {
    EveryRunIsSafe(crc, s, steps, t);
    var done := MembersOf(t.history);
    assert DistinctIds(done) by {
      assert forall k :: 0 <= k < |done| ==> done[k] == t.arrived[k];
    }
    forall i, j | 0 <= i < |t.history| && 0 <= j < |t.history[i].members|
      ensures t.history[i].members[j].id in t.answers && t.answers[t.history[i].members[j].id] == t.history[i].ok
    {
      AnswersTell(t.history, i, j);
    }
    forall k | 0 <= k < |t.queue| ensures t.queue[k].id !in t.answers {
      WaitingIsUnanswered(t.history, t.queue, k);
    }
  }

  // ----- sequence numbers -----

  lemma NumbersGoOn(before: seq<Add>, x: seq<Op>, y: seq<Op>, base: nat)
    requires before == Adds(1, x) && base == 1 + |x|
    ensures before + Adds(base, y) == Adds(1, x + y)
  {
    AddsConcat(1, x, y);
  }

  lemma {:induction false} NumbersFollow(history: seq<Commit>, last: nat)
    requires Numbered(history, last)
    ensures last == |AllOps(history)|
    ensures NumberedAdds(history) == Adds(1, AllOps(history))
  {
    if history != [] {
      var front, c := Front(history), Last(history);
      NumbersFollow(front, c.base - 1);
      NumbersGoOn(NumberedAdds(front), AllOps(front), CommitOps(c), c.base);
    }
  }

  /** The operations of all groups, in the order the writers came, have the numbers 1, 2, 3, … */
  lemma NumbersAreConsecutive(crc: Checksum, s: State, steps: seq<Step>, t: State)
    requires Initial(s) && Reaches(crc, s, steps, t)
    ensures NumberedAdds(t.history) == Adds(1, AllOps(t.history)) && t.lastSequence == |AllOps(t.history)|
  {
    EveryRunIsSafe(crc, s, steps, t);
    NumbersFollow(t.history, t.lastSequence);
  }

  // ----- what a reader sees -----

  /** The entries a reader at a sequence number sees. */
  function UpTo(mem: seq<Add>, sequence: nat): seq<Add> {
    if mem == [] then [] else
      UpTo(Front(mem), sequence) + if Last(mem).sequence <= sequence then [Last(mem)] else []
  }

  lemma {:induction false} UpToConcat(x: seq<Add>, y: seq<Add>, sequence: nat)
    ensures UpTo(x + y, sequence) == UpTo(x, sequence) + UpTo(y, sequence)
  {
    if y == [] {
      assert x + y == x;
    } else {
      assert Front(x + y) == x + Front(y) && Last(x + y) == Last(y);
      UpToConcat(x, Front(y), sequence);
    }
  }

  lemma {:induction false} UpToAll(mem: seq<Add>, sequence: nat)
    requires forall a :: a in mem ==> a.sequence <= sequence
    ensures UpTo(mem, sequence) == mem
  {
    if mem != [] {
      UpToAll(Front(mem), sequence);
    }
  }

  lemma {:induction false} UpToNone(mem: seq<Add>, sequence: nat)
    requires forall a :: a in mem ==> a.sequence > sequence
    ensures UpTo(mem, sequence) == []
  {
    if mem != [] {
      UpToNone(Front(mem), sequence);
    }
  }

  lemma {:induction false} VisibleBelow(history: seq<Commit>, last: nat)
    requires Numbered(history, last)
    ensures forall a :: a in VisibleAdds(history) ==> a.sequence <= last
  {
    if history != [] {
      var c := Last(history);
      VisibleBelow(Front(history), c.base - 1);
      AddsAt(c.base, CommitOps(c));
    }
  }

  lemma NothingMore<T>(s: seq<T>)
    ensures s + [] == s
  {
  }

  lemma LaterIsUnseen(mem: seq<Add>, base: nat, ops: seq<Op>, sequence: nat)
    requires sequence < base
    ensures UpTo(mem + Adds(base, ops), sequence) == UpTo(mem, sequence)
  {
    UpToConcat(mem, Adds(base, ops), sequence);
    AddsAt(base, ops);
    UpToNone(Adds(base, ops), sequence);
  }

  /** LastSequence as it was after the first `k` commits. */
  function SequenceAfter(history: seq<Commit>, k: nat): int
    requires k <= |history|
  {
    if k == 0 then 0 else history[k - 1].base + |CommitOps(history[k - 1])| - 1
  }

  lemma AllVisible(history: seq<Commit>, last: nat)
    requires Numbered(history, last)
    ensures SequenceAfter(history, |history|) == last
    ensures UpTo(VisibleAdds(history), last) == VisibleAdds(history)
  {
    VisibleBelow(history, last);
    UpToAll(VisibleAdds(history), last);
  }

  lemma {:induction false} VisibleUpTo(history: seq<Commit>, last: nat, k: nat)
    requires Numbered(history, last) && k <= |history|
    ensures 0 <= SequenceAfter(history, k) <= last
    ensures UpTo(VisibleAdds(history), SequenceAfter(history, k)) == VisibleAdds(history[..k])
  {
    AllVisible(history, last);
    if k == |history| {
      assert history[..k] == history;
    } else {
      var front, c := Front(history), Last(history);
      assert front[..k] == history[..k];
      VisibleUpTo(front, c.base - 1, k);
      if c.ok {
        LaterIsUnseen(VisibleAdds(front), c.base, CommitOps(c), SequenceAfter(history, k));
      } else {
        NothingMore(VisibleAdds(front));
      }
    }
  }

  /** At any moment of any run, a reader whose sequence number was taken after the first `k` commits
      (LastSequence, or a snapshot of it) sees the successful ones among them, whole, and nothing else:
      neither a later commit nor any part of the group that is being inserted. */
  lemma ReadersSeeWholeCommits(crc: Checksum, s: State, steps: seq<Step>, t: State, k: nat)
    requires Initial(s) && Reaches(crc, s, steps, t) && k <= |t.history|
    ensures SequenceAfter(t.history, |t.history|) == t.lastSequence
    ensures 0 <= SequenceAfter(t.history, k) && UpTo(t.mem, SequenceAfter(t.history, k)) == VisibleAdds(t.history[..k])
  {
    RunIsNumbered(crc, s, steps, t);
    SeenUpTo(t.history, t.lastSequence, PendingOps(t), k);
  }

  lemma RunIsNumbered(crc: Checksum, s: State, steps: seq<Step>, t: State)
    requires Initial(s) && Reaches(crc, s, steps, t)
    ensures LeaderInRange(t) && Numbered(t.history, t.lastSequence) && t.mem == VisibleAdds(t.history) + Pending(t)
  {
    EveryRunIsSafe(crc, s, steps, t);
  }

  lemma SeenUpTo(history: seq<Commit>, last: nat, pending: seq<Op>, k: nat)
    requires Numbered(history, last) && k <= |history|
    ensures SequenceAfter(history, |history|) == last && 0 <= SequenceAfter(history, k)
    ensures UpTo(VisibleAdds(history) + Adds(last + 1, pending), SequenceAfter(history, k)) == VisibleAdds(history[..k])
  {
    VisibleUpTo(history, last, k);
    LaterIsUnseen(VisibleAdds(history), last + 1, pending, SequenceAfter(history, k));
  }

  // ----- crashes -----

  lemma {:induction false} WholeBatchesHold(crc: Checksum, records: seq<Batch>, k: nat, pos: nat, limit: nat)
    requires AllWellFormed(records) && k <= |records| && AllWellFormed(records[..k])
    requires pos + |LogBytes(crc, Records(records[..k]), pos)| <= limit
    ensures k <= |WholeBatches(records, pos, limit)|
  {
    if k > 0 {
      var record := Encode(records[0].sequence, records[0].ops);
      var end := RecordEnd(record, pos);
      var front := records[..k];
      assert front[0] == records[0] && front[1..] == records[1..][..k - 1];
      assert Records(front)[0] == record && Records(front)[1..] == Records(front[1..]);
      RecordLength(crc, record, pos);
      WholeBatchesHold(crc, records[1..], k - 1, end, limit);
    }
  }

  /** If the log is cut anywhere past what was synced, recovery finds a prefix of the groups that were
      logged, and in it every successful commit with a writer that asked for sync. Recovery.RecoverLogFile
      says that it restores exactly these batches. */
  lemma SyncedWritesSurvive(crc: Checksum, s: State, steps: seq<Step>, t: State, cut: nat)
    requires Initial(s) && Reaches(crc, s, steps, t)
    requires t.clean && t.syncedBytes <= cut <= |t.log|
    ensures AllWellFormed(t.records) && t.log[..cut] <= LogBytes(crc, Records(t.records), 0)
    ensures WholeBatches(t.records, 0, cut) <= t.records
    ensures forall i :: 0 <= i < |t.history| && t.history[i].ok && t.history[i].led && HasSync(t.history[i].members) ==>
      exists b :: b in WholeBatches(t.records, 0, cut) && b.sequence == t.history[i].base && b.ops == CommitOps(t.history[i])
  {
    EveryRunIsSafe(crc, s, steps, t);
    var whole := WholeBatches(t.records, 0, cut);
    WholeBatchesHold(crc, t.records, t.syncedRecords, 0, cut);
    forall i | 0 <= i < |t.history| && t.history[i].ok && t.history[i].led && HasSync(t.history[i].members)
      ensures exists b :: b in whole && b.sequence == t.history[i].base && b.ops == CommitOps(t.history[i])
    {
      var c := t.history[i];
      assert InLog(c, t.records, t.syncedRecords);
      assert whole[c.record.value] == t.records[c.record.value];
      assert whole[c.record.value] in whole;
    }
  }

  lemma {:induction false} ConsecutivePrefix(records: seq<Batch>, k: nat)
    requires Consecutive(records) && k <= |records|
    ensures Consecutive(records[..k])
  {
    if k == |records| {
      assert records[..k] == records;
    } else {
      ConsecutivePrefix(Front(records), k);
      assert Front(records)[..k] == records[..k];
    }
  }

  lemma {:induction false} AllWellFormedFront(records: seq<Batch>)
    requires AllWellFormed(records) && records != []
    ensures AllWellFormed(Front(records)) && WellFormed(Last(records))
  {
    if |records| > 1 {
      AllWellFormedFront(records[1..]);
      assert Front(records)[0] == records[0] && Front(records)[1..] == Front(records[1..]);
    }
  }

  /** Consecutive batches replay to consecutive entries, and the last number is that of the last entry. */
  lemma {:induction false} ConsecutiveReplay(records: seq<Batch>) returns (ops: seq<Op>)
    requires AllWellFormed(records) && Consecutive(records)
    ensures AddsOf(records) == Adds(1, ops) && LastSequence(records, 0) == EndOf(records) == |ops|
  {
    if records == [] {
      ops := [];
    } else {
      AllWellFormedFront(records);
      var rest := ConsecutiveReplay(Front(records));
      assert records == Front(records) + [Last(records)];
      AddsOfOneMore(Front(records), Last(records));
      LastSequenceOneMore(Front(records), Last(records), 0);
      ops := rest + Last(records).ops;
      NumbersGoOn(AddsOf(Front(records)), rest, Last(records).ops, Last(records).sequence);
    }
  }

  /** After a crash, too, the entries are numbered 1, 2, 3, … and the largest number found is the last. */
  lemma RecoveredNumbersAreConsecutive(crc: Checksum, s: State, steps: seq<Step>, t: State, cut: nat) returns (ops: seq<Op>)
    requires Initial(s) && Reaches(crc, s, steps, t) && t.clean && cut <= |t.log|
    ensures AllWellFormed(t.records)
    ensures AddsOf(WholeBatches(t.records, 0, cut)) == Adds(1, ops)
    ensures LastSequence(WholeBatches(t.records, 0, cut), 0) == |ops|
  {
    EveryRunIsSafe(crc, s, steps, t);
    var whole := WholeBatches(t.records, 0, cut);
    ConsecutivePrefix(t.records, |whole|);
    assert t.records[..|whole|] == whole;
    ops := ConsecutiveReplay(whole);
  }
}
