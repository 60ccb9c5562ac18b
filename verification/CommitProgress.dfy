/**
 The writer queue is never stuck: from every reachable state, with the writers that are there, the first
 writer of the queue can go on, and in the end all of them are answered.
 */
module CommitProgress {
  import opened Common
  import opened Coding
  import opened LogFormat
  import opened WriteBatches
  import opened Recovery
  import opened GroupCommit
  import opened CommitSafety

  /** A step of the first writer that is no failure. It is turned away only after an earlier failure. */
  predicate Working(s: State, step: Step) {
    match step
    case NoRoom => s.failed
    case NoBatch => true
    case Lead(_) => true
    case AppendOk(_) => true
    case SyncOk => true
    case InsertOne => true
    case Finish => true
    case _ => false
  }

  /** There are sequence numbers left for all that wait. */
  predicate Room(s: State) {
    s.lastSequence + 1 + |OpsOf(s.queue)| < 0x1_0000_0000_0000_0000
  }

  predicate InTrouble(s: State) {
    s.failed || (s.leader.Some? && s.leader.value.phase.Failed?)
  }

  /** How far the first writer has to go: fewer writers, then a later phase, then fewer entries to insert. */
  function PhasesLeft(s: State): nat {
    match s.leader
    case None => 4
    case Some(Leader(_, Appending)) => 3
    case Some(Leader(_, Syncing)) => 2
    case Some(Leader(_, Inserting(_))) => 1
    case Some(Leader(_, Failed(_))) => 0
  }

  function EntriesLeft(s: State): int
    requires LeaderInRange(s)
  {
    if s.leader.Some? && s.leader.value.phase.Inserting? then |GroupOps(s)| - s.leader.value.phase.count else 0
  }

  ghost predicate Nearer(s: State, t: State)
    requires LeaderInRange(s) && LeaderInRange(t)
  {
    || |t.queue| < |s.queue|
    || (|t.queue| == |s.queue| && PhasesLeft(t) < PhasesLeft(s))
    || (|t.queue| == |s.queue| && PhasesLeft(t) == PhasesLeft(s) && EntriesLeft(t) < EntriesLeft(s))
  }

  /** What one step of the first writer leaves to be done. */
  ghost predicate Forward(s: State, t: State)
    requires LeaderInRange(s) && LeaderInRange(t)
  {
    && Nearer(s, t) && Room(t) && t.arrived == s.arrived
    && (!InTrouble(s) ==> !InTrouble(t))
    && (t.history == s.history || exists c :: t.history == s.history + [c] && (!InTrouble(s) ==> c.ok))
  }

  lemma {:induction false} OpsSplit(writers: seq<Writer>, n: nat)
    requires n <= |writers|
    ensures OpsOf(writers) == OpsOf(writers[..n]) + OpsOf(writers[n..])
    decreases |writers|
  {
    if n == |writers| {
      assert writers[..n] == writers && writers[n..] == [];
    } else {
      var front := writers[..|writers| - 1];
      OpsSplit(front, n);
      assert front[..n] == writers[..n];
      assert front[n..] == writers[n..][..|writers[n..]| - 1];
    }
  }

  lemma FirstAlone(s: State)
    requires s.queue != []
    ensures OpsOf(s.queue[..1]) == if s.queue[0].ops.Some? then s.queue[0].ops.value else []
    ensures |OpsOf(s.queue)| == |OpsOf(s.queue[..1])| + |OpsOf(s.queue[1..])|
  {
    OpsSplit(s.queue, 1);
    assert s.queue[..1] == [s.queue[0]];
    FirstWriter(s.queue[0]);
  }

  /** A writer that is turned away, or only asked for room, is answered at once. */
  lemma AloneForward(s: State, ok: bool)
    requires s.leader.None? && s.queue != [] && Room(s) && (ok || s.failed)
    ensures var t := Complete(s, Commit(s.queue[..1], false, s.lastSequence + 1, ok, None));
      LeaderInRange(t) && Forward(s, t)
  {
    FirstAlone(s);
  }

  /** The first writer may lead a group, if only of itself. */
  lemma LeadForward(crc: Checksum, s: State)
    requires s.leader.None? && s.queue != [] && Room(s) && !s.failed && s.queue[0].ops.Some?
    ensures Enabled(crc, s, Lead(1))
    ensures var t := After(crc, s, Lead(1)); LeaderInRange(t) && Forward(s, t)
  {
    FirstAlone(s);
  }

  lemma GroupInRoom(s: State)
    requires LeaderInRange(s) && s.leader.Some? && Room(s)
    ensures |OpsOf(s.queue)| == |GroupOps(s)| + |OpsOf(s.queue[s.leader.value.size..])|
  {
    OpsSplit(s.queue, s.leader.value.size);
  }

  lemma AppendForward(crc: Checksum, s: State, bytes: seq<byte>)
    requires LeaderInRange(s) && s.leader.Some? && s.leader.value.phase.Appending? && Room(s)
    requires Enabled(crc, s, AppendOk(bytes))
    ensures var t := After(crc, s, AppendOk(bytes)); LeaderInRange(t) && Forward(s, t)
  {
  }

  lemma SyncForward(crc: Checksum, s: State)
    requires LeaderInRange(s) && s.leader.Some? && s.leader.value.phase.Syncing? && Room(s)
    ensures Enabled(crc, s, SyncOk)
    ensures var t := After(crc, s, SyncOk); LeaderInRange(t) && Forward(s, t)
  {
  }

  lemma InsertForward(crc: Checksum, s: State)
    requires LeaderInRange(s) && Room(s) && Enabled(crc, s, InsertOne)
    ensures var t := After(crc, s, InsertOne); LeaderInRange(t) && Forward(s, t)
  {
  }

  lemma FinishForward(crc: Checksum, s: State)
    requires LeaderInRange(s) && Room(s) && Enabled(crc, s, Finish)
    ensures var t := After(crc, s, Finish); LeaderInRange(t) && Forward(s, t)
  {
    GroupInRoom(s);
  }

  /** Without a leader, the first writer becomes one, or is answered at once. */
  lemma WithoutLeader(crc: Checksum, s: State) returns (step: Step)
    requires s.queue != [] && Room(s) && s.leader.None?
    ensures Enabled(crc, s, step) && Working(s, step)
    ensures LeaderInRange(After(crc, s, step)) && Forward(s, After(crc, s, step))
  {
    if s.failed {
      AloneForward(s, false);
      step := NoRoom;
    } else if s.queue[0].ops.None? {
      AloneForward(s, true);
      step := NoBatch;
    } else {
      LeadForward(crc, s);
      step := Lead(1);
    }
  }

  /** A leader goes on with the log, with the memtable, or is done. */
  lemma WithLeader(crc: Checksum, s: State) returns (step: Step)
    requires Queued(s) && LeaderInRange(s) && Room(s) && s.leader.Some?
    ensures Enabled(crc, s, step) && Working(s, step)
    ensures LeaderInRange(After(crc, s, step)) && Forward(s, After(crc, s, step))
  {
    match s.leader.value.phase {
      case Appending =>
        GroupIsWellFormed(s);
        step := AppendOk(RecordBytes(crc, Encode(s.lastSequence + 1, GroupOps(s)), |s.log|));
        AppendForward(crc, s, step.bytes);
      case Syncing =>
        step := SyncOk;
        SyncForward(crc, s);
      case Inserting(k) =>
        if k < |GroupOps(s)| {
          step := InsertOne;
          InsertForward(crc, s);
        } else {
          step := Finish;
          FinishForward(crc, s);
        }
      case Failed(_) =>
        step := Finish;
        FinishForward(crc, s);
    }
  }

  /** While writers wait, a step of the first one that is no failure is enabled, and it brings the end
      nearer. */
  lemma FirstWriterGoesOn(crc: Checksum, s: State) returns (step: Step)
    requires Safe(crc, s) && s.queue != [] && Room(s)
    ensures Enabled(crc, s, step) && Working(s, step)
    ensures Safe(crc, After(crc, s, step)) && Forward(s, After(crc, s, step))
  {
    if s.leader.None? {
      step := WithoutLeader(crc, s);
    } else {
      step := WithLeader(crc, s);
    }
    StepIsSafe(crc, s, step);
  }

  /** A run of such steps. */
  ghost predicate Works(crc: Checksum, s: State, steps: seq<Step>, t: State)
    decreases |steps|
  {
    if steps == [] then s == t else
      Enabled(crc, s, steps[0]) && Working(s, steps[0]) && Works(crc, After(crc, s, steps[0]), steps[1..], t)
  }

  /** Commits were added to the history, all of them successful if nothing was wrong at the start. */
  ghost predicate Since(s: State, t: State) {
    && |s.history| <= |t.history| && t.history[..|s.history|] == s.history
    && (!InTrouble(s) ==> forall i :: |s.history| <= i < |t.history| ==> t.history[i].ok)
  }

  lemma SinceStep(s: State, m: State, t: State)
    requires LeaderInRange(s) && LeaderInRange(m) && Forward(s, m) && Since(m, t)
    ensures Since(s, t)
  {
    assert t.history[..|s.history|] == t.history[..|m.history|][..|s.history|];
    forall i | |s.history| <= i < |t.history| && !InTrouble(s) ensures t.history[i].ok {
      if i < |m.history| {
        assert t.history[i] == t.history[..|m.history|][i] == m.history[i];
      }
    }
  }

  lemma {:induction false} QueueEmpties(crc: Checksum, s: State) returns (steps: seq<Step>, t: State)
    requires Safe(crc, s) && Room(s)
    ensures Works(crc, s, steps, t) && Safe(crc, t) && t.queue == [] && t.arrived == s.arrived && Since(s, t)
    decreases |s.queue|, PhasesLeft(s), EntriesLeft(s)
  {
    if s.queue == [] {
      steps, t := [], s;
      assert s.history[..|s.history|] == s.history;
    } else {
      var step := FirstWriterGoesOn(crc, s);
      var m := After(crc, s, step);
      var rest;
      rest, t := QueueEmpties(crc, m);
      steps := [step] + rest;
      assert steps[0] == step && steps[1..] == rest;
      SinceStep(s, m, t);
    }
  }

  /** A writer that was answered is a member of a commit, and of a later one if it was waiting before. */
  lemma {:induction false} CommitOf(history: seq<Commit>, n: nat, p: nat) returns (i: nat, j: nat)
    requires n <= |history| && |MembersOf(history[..n])| <= p < |MembersOf(history)|
    ensures n <= i < |history| && j < |history[i].members| && history[i].members[j] == MembersOf(history)[p]
    decreases |history|
  {
    var front := Front(history);
    assert history[..|history|] == history;
    assert front[..n] == history[..n];
    if p < |MembersOf(front)| {
      i, j := CommitOf(front, n, p);
    } else {
      i, j := |history| - 1, p - |MembersOf(front)|;
    }
  }

  lemma WaitingIsAnswered(s: State, t: State, k: nat)
    requires s.arrived == MembersOf(s.history) + s.queue && DistinctIds(s.arrived) && k < |s.queue|
    requires t.arrived == MembersOf(t.history) && t.arrived == s.arrived && Since(s, t)
    requires t.answers == AnswersOf(t.history)
    ensures s.queue[k].id in t.answers && (!InTrouble(s) ==> t.answers[s.queue[k].id])
  {
    var p := |MembersOf(s.history)| + k;
    assert s.queue[k] == s.arrived[p];
    var i, j := CommitOf(t.history, |s.history|, p);
    AnswersTell(t.history, i, j);
  }

  lemma {:induction false} WorkIsARun(crc: Checksum, s: State, steps: seq<Step>, t: State)
    requires Works(crc, s, steps, t)
    ensures Reaches(crc, s, steps, t)
    decreases |steps|
  {
    if steps != [] {
      WorkIsARun(crc, After(crc, s, steps[0]), steps[1..], t);
    }
  }

  /** From every safe state there is a run without failures in which no more writers come, and at the end
      of it every writer that waited has its answer: success, unless something had failed before. */
  lemma EveryWriterIsAnswered(crc: Checksum, s: State) returns (steps: seq<Step>, t: State)
    requires Safe(crc, s) && Room(s)
    ensures Reaches(crc, s, steps, t) && Works(crc, s, steps, t) && t.queue == []
    ensures forall w :: w in s.queue ==> w.id in t.answers && (!InTrouble(s) ==> t.answers[w.id])
  {
    steps, t := QueueEmpties(crc, s);
    WorkIsARun(crc, s, steps, t);
    assert MembersOf(t.history) + [] == MembersOf(t.history);
    forall k | 0 <= k < |s.queue| ensures s.queue[k].id in t.answers && (!InTrouble(s) ==> t.answers[s.queue[k].id]) {
      WaitingIsAnswered(s, t, k);
    }
  }
}
