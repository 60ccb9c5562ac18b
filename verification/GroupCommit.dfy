/**
 The writer queue (DBImpl::Write and BuildBatchGroup in db/db_impl.cc): writers wait in a queue, the
 first one commits a group for all of them while others keep arriving. A step is what one thread does
 between two points where it holds or drops the mutex, or one write to the log or the memtable.
 */
module GroupCommit {
  import opened Common
  import opened Coding
  import opened LogFormat
  import opened WriteBatches
  import opened Recovery

  /** `ops` is None for a null batch, which only asks for room; `size` is the size of the batch. */
  datatype Writer = Writer(id: nat, ops: Option<seq<Op>>, size: nat, sync: bool)

  // ----- groups -----

  function OpsOf(writers: seq<Writer>): seq<Op> {
    if writers == [] then [] else
      var last := writers[|writers| - 1];
      OpsOf(writers[..|writers| - 1]) + if last.ops.Some? then last.ops.value else []
  }

  function TotalSize(writers: seq<Writer>): nat {
    if writers == [] then 0 else
      var last := writers[|writers| - 1];
      TotalSize(writers[..|writers| - 1]) + if last.ops.Some? then last.size else 0
  }

  /** Small writes do not wait for large groups. */
  function MaxSize(first: nat): nat {
    if first <= 0x2_0000 then first + 0x2_0000 else 0x10_0000
  }

  /** The first `n` writers may be committed together by the first of them. */
  predicate IsGroup(writers: seq<Writer>, n: nat) {
    && 1 <= n <= |writers| && writers[0].ops.Some?
    && (!writers[0].sync ==> forall i :: 0 <= i < n ==> !writers[i].sync)
    && (OpsOf(writers[..n]) == writers[0].ops.value
        || TotalSize(writers[..n]) <= MaxSize(writers[0].size))
  }

  /** Why the group ends where it does. */
  predicate GroupEnds(writers: seq<Writer>, n: nat)
    requires IsGroup(writers, n)
  {
    || n == |writers|
    || (writers[n].sync && !writers[0].sync)
    || (writers[n].ops.Some? && TotalSize(writers[..n + 1]) > MaxSize(writers[0].size))
  }

  lemma OneMoreWriter(writers: seq<Writer>, n: nat)
    requires n < |writers|
    ensures OpsOf(writers[..n + 1]) == OpsOf(writers[..n]) + OpsOf([writers[n]])
    ensures TotalSize(writers[..n + 1]) == TotalSize(writers[..n]) + TotalSize([writers[n]])
  {
    var longer, one := writers[..n + 1], [writers[n]];
    assert longer[..n] == writers[..n] && longer[n] == writers[n];
    assert one[..0] == [];
  }

  method BuildBatchGroup(writers: seq<Writer>) returns (n: nat, ops: seq<Op>)
    requires writers != [] && writers[0].ops.Some?
    ensures IsGroup(writers, n) && GroupEnds(writers, n) && ops == OpsOf(writers[..n])
  {
    var first := writers[0];
    ops := first.ops.value;
    var size := first.size;
    var maxSize := if size <= 0x2_0000 then size + 0x2_0000 else 0x10_0000;
    OneMoreWriter(writers, 0);
    FirstWriter(first);
    n := 1;
    while n < |writers|
      invariant 1 <= n <= |writers|
      invariant !first.sync ==> forall i :: 0 <= i < n ==> !writers[i].sync
      invariant ops == first.ops.value || size <= maxSize
      invariant ops == OpsOf(writers[..n]) && size == TotalSize(writers[..n])
    {
      var w := writers[n];
      OneMoreWriter(writers, n);
      FirstWriter(w);
      if w.sync && !first.sync {
        return;
      }
      if w.ops.Some? {
        size := size + w.size;
        if size > maxSize {
          return;
        }
        ops := ops + w.ops.value;
      }
      n := n + 1;
    }
  }

  lemma FirstWriter(w: Writer)
    ensures w.ops.Some? ==> OpsOf([w]) == w.ops.value && TotalSize([w]) == w.size
    ensures w.ops.None? ==> OpsOf([w]) == [] && TotalSize([w]) == 0
  {
    assert [w][..0] == [];
  }

  // ----- the state machine -----

  datatype Phase = Appending | Syncing | Inserting(count: nat) | Failed(sync: bool)

  /** The first writer of the queue, at work for the first `size` writers. */
  datatype Leader = Leader(size: nat, phase: Phase)

  /** What came of some writers: `led` when operations got sequence numbers from `base` on; `record` is
      the place of their record in the log. */
  datatype Commit = Commit(members: seq<Writer>, led: bool, base: nat, ok: bool, record: Option<nat>)

  datatype State = State(
    arrived: seq<Writer>,
    queue: seq<Writer>,
    leader: Option<Leader>,
    history: seq<Commit>,
    answers: map<nat, bool>,
    lastSequence: nat,
    mem: seq<Add>,
    log: seq<byte>,
    records: seq<Batch>,
    /** No append to the log has failed. */
    clean: bool,
    /** What is known to be on disk: that many bytes and records of the log. */
    syncedBytes: nat,
    syncedRecords: nat,
    /** bg_error_ is set. */
    failed: bool)

  datatype Step =
    | Arrive(writer: Writer)
    | NoRoom
    | NoBatch
    | Lead(size: nat)
    | AppendOk(bytes: seq<byte>)
    | AppendFails(junk: seq<byte>)
    | SyncOk
    | SyncFails
    | InsertOne
    | Finish
    | BackgroundError

  ghost predicate WellFormedWriter(w: Writer) {
    w.ops.Some? ==> |w.ops.value| < 0x8000_0000 && AllSmall(w.ops.value) && w.size == HEADER + |EncodeOps(w.ops.value)|
  }

  function GroupOps(s: State): seq<Op>
    requires s.leader.Some? && s.leader.value.size <= |s.queue|
  {
    OpsOf(s.queue[..s.leader.value.size])
  }

  /** The batch of the group, with its place in the sequence. */
  function BatchOf(s: State): Batch
    requires s.leader.Some? && s.leader.value.size <= |s.queue| && s.lastSequence + 1 < 0x1_0000_0000_0000_0000
  {
    Batch(s.lastSequence + 1, GroupOps(s))
  }

  ghost predicate Enabled(crc: Checksum, s: State, step: Step) {
    match step
    case Arrive(w) => WellFormedWriter(w) && forall v :: v in s.arrived ==> v.id != w.id
    case NoRoom => s.leader.None? && s.queue != []
    case NoBatch => s.leader.None? && s.queue != [] && s.queue[0].ops.None? && !s.failed
    case Lead(n) => s.leader.None? && !s.failed && IsGroup(s.queue, n)
                    && s.lastSequence + 1 + |OpsOf(s.queue[..n])| < 0x1_0000_0000_0000_0000
    case AppendOk(bytes) => InPhase(s, Appending) && WellFormed(BatchOf(s))
                            && (s.clean ==> bytes == RecordBytes(crc, Encode(s.lastSequence + 1, GroupOps(s)), |s.log|))
    case AppendFails(_) => InPhase(s, Appending)
    case SyncOk => InPhase(s, Syncing)
    case SyncFails => InPhase(s, Syncing)
    case InsertOne => s.leader.Some? && s.leader.value.size <= |s.queue| && s.leader.value.phase.Inserting?
                      && s.leader.value.phase.count < |GroupOps(s)|
    case Finish => s.leader.Some? && 1 <= s.leader.value.size <= |s.queue|
                   && (s.leader.value.phase.Failed? || s.leader.value.phase == Inserting(|GroupOps(s)|))
    case BackgroundError => true
  }

  predicate InPhase(s: State, phase: Phase) {
    s.leader.Some? && 1 <= s.leader.value.size <= |s.queue| && s.leader.value.phase == phase
    && s.lastSequence + 1 + |GroupOps(s)| < 0x1_0000_0000_0000_0000
  }

  function Answer(answers: map<nat, bool>, members: seq<Writer>, ok: bool): map<nat, bool> {
    if members == [] then answers else
      var last := members[|members| - 1];
      Answer(answers, members[..|members| - 1], ok)[last.id := ok]
  }

  /** Takes the members off the queue and tells each of them how it went. */
  function Complete(s: State, c: Commit): State
    requires |c.members| <= |s.queue|
  {
    s.(queue := s.queue[|c.members|..], leader := None, history := s.history + [c],
       answers := Answer(s.answers, c.members, c.ok))
  }

  function SetPhase(s: State, phase: Phase): State
    requires s.leader.Some?
  {
    s.(leader := Some(s.leader.value.(phase := phase)))
  }

  ghost function After(crc: Checksum, s: State, step: Step): State
    requires Enabled(crc, s, step)
  {
    match step
    case Arrive(w) => s.(arrived := s.arrived + [w], queue := s.queue + [w])
    case NoRoom => Complete(s, Commit(s.queue[..1], false, s.lastSequence + 1, false, None))
    case NoBatch => Complete(s, Commit(s.queue[..1], false, s.lastSequence + 1, true, None))
    case Lead(n) => s.(leader := Some(Leader(n, Appending)))
    case AppendOk(bytes) =>
      SetPhase(s, if s.queue[0].sync then Syncing else Inserting(0)).(
        log := s.log + bytes, records := s.records + [BatchOf(s)])
    case AppendFails(junk) => SetPhase(s, Failed(false)).(log := s.log + junk, clean := false)
    case SyncOk => SetPhase(s, Inserting(0)).(syncedBytes := |s.log|, syncedRecords := |s.records|)
    case SyncFails => SetPhase(s, Failed(true))
    case InsertOne =>
      var k := s.leader.value.phase.count;
      SetPhase(s, Inserting(k + 1)).(mem := s.mem + [Add(s.lastSequence + 1 + k, GroupOps(s)[k])])
    case Finish =>
      var phase, members := s.leader.value.phase, s.queue[..s.leader.value.size];
      var record := if phase == Failed(false) || s.records == [] then None else Some(|s.records| - 1);
      Complete(s, Commit(members, true, s.lastSequence + 1, phase.Inserting?, record)).(
        lastSequence := s.lastSequence + |OpsOf(members)|, failed := s.failed || phase == Failed(true))
    case BackgroundError => s.(failed := true)
  }

  ghost predicate Initial(s: State) {
    s == State([], [], None, [], map[], 0, [], [], [], true, 0, 0, false)
  }

  ghost predicate Reaches(crc: Checksum, s: State, steps: seq<Step>, t: State)
    decreases |steps|
  {
    if steps == [] then s == t else
      Enabled(crc, s, steps[0]) && Reaches(crc, After(crc, s, steps[0]), steps[1..], t)
  }
}
