/**
 Crash recovery (DBImpl::RecoverLogFile in db/db_impl.cc): a write log, cut off anywhere, is replayed
 into memtables and gives exactly the operations of a prefix of the committed batches.
 */
module Recovery {
  import opened Common
  import opened Coding
  import opened LogFormat
  import opened LogReader
  import opened WriteBatches

  /** What one group of writers commits: one log record. */
  datatype Batch = Batch(sequence: Long, ops: seq<Op>)

  predicate WellFormed(b: Batch) {
    |b.ops| < 0x8000_0000 && AllSmall(b.ops) && 0 < b.sequence && b.sequence + |b.ops| <= 0x1_0000_0000_0000_0000
  }

  predicate AllWellFormed(batches: seq<Batch>) {
    batches == [] || (WellFormed(batches[0]) && AllWellFormed(batches[1..]))
  }

  function Records(batches: seq<Batch>): seq<seq<byte>>
    requires AllWellFormed(batches)
  {
    if batches == [] then [] else [Encode(batches[0].sequence, batches[0].ops)] + Records(batches[1..])
  }

  function AddsOf(batches: seq<Batch>): seq<Add> {
    if batches == [] then [] else Adds(batches[0].sequence, batches[0].ops) + AddsOf(batches[1..])
  }

  function Max(a: nat, b: int): nat { if a < b then b else a }

  /** The largest sequence number after replaying the batches. */
  function LastSequence(batches: seq<Batch>, last: nat): nat {
    if batches == [] then last else
      LastSequence(batches[1..], Max(last, batches[0].sequence + |batches[0].ops| - 1))
  }

  /** The batches whose records lie wholly within the first `limit` bytes. */
  function WholeBatches(batches: seq<Batch>, pos: nat, limit: nat): (r: seq<Batch>)
    requires AllWellFormed(batches)
    ensures r <= batches && AllWellFormed(r)
  {
    if batches == [] then [] else
      var end := RecordEnd(Encode(batches[0].sequence, batches[0].ops), pos);
      if end > limit then [] else [batches[0]] + WholeBatches(batches[1..], end, limit)
  }

  /** `done` was replayed and `rest` follows from `pos` on; all in all `whole` is to be replayed. */
  ghost predicate Replaying(crc: Checksum, file: seq<byte>, pos: nat, whole: seq<Batch>, done: seq<Batch>, rest: seq<Batch>) {
    && AllWellFormed(rest) && HoldsLog(crc, file, pos, Records(rest))
    && whole == done + WholeBatches(rest, pos, |file|)
  }

  /** What was inserted and the largest sequence number, after replaying `done`. */
  ghost predicate Replayed(done: seq<Batch>, inserted: seq<Add>, maxSequence: nat, maxSequence': nat) {
    inserted == AddsOf(done) && maxSequence' == LastSequence(done, maxSequence)
  }

  lemma {:induction false} SameCut(batches: seq<Batch>, pos: nat, limit: nat)
    requires AllWellFormed(batches)
    ensures Records(WholeBatches(batches, pos, limit)) == WholeRecords(Records(batches), pos, limit)
  {
    if batches != [] {
      var record := Encode(batches[0].sequence, batches[0].ops);
      assert Records(batches)[0] == record && Records(batches)[1..] == Records(batches[1..]);
      if RecordEnd(record, pos) <= limit {
        var rest := WholeBatches(batches[1..], RecordEnd(record, pos), limit);
        SameCut(batches[1..], RecordEnd(record, pos), limit);
        assert ([batches[0]] + rest)[1..] == rest;
      }
    }
  }

  lemma ReplayStarts(crc: Checksum, file: seq<byte>, batches: seq<Batch>, maxSequence: nat)
    requires AllWellFormed(batches) && file <= LogBytes(crc, Records(batches), 0)
    ensures Replaying(crc, file, 0, WholeBatches(batches, 0, |file|), [], batches)
    ensures Replayed([], [], maxSequence, maxSequence)
  {
    WholeFile(file, LogBytes(crc, Records(batches), 0));
    NothingBefore(WholeBatches(batches, 0, |file|));
  }

  lemma WholeFile(file: seq<byte>, bytes: seq<byte>)
    requires file <= bytes
    ensures HoldsPrefix(file, 0, bytes)
  {
    assert file[0..] == file;
  }

  lemma NothingBefore<T>(s: seq<T>)
    ensures [] + s == s
  {
  }

  /** What reading one record means for the replay. */
  lemma ReplayStep(crc: Checksum, file: seq<byte>, start: nat, whole: seq<Batch>, done: seq<Batch>, rest: seq<Batch>,
                   read: bool, record: seq<byte>, end: nat)
    requires Replaying(crc, file, start, whole, done, rest)
    requires Reads(crc, file, start, Records(rest), read, record, end)
    ensures read ==>
      && rest != [] && WellFormed(rest[0]) && record == Encode(rest[0].sequence, rest[0].ops)
      && Replaying(crc, file, end, whole, done + [rest[0]], rest[1..])
    ensures !read ==> whole == done
  {
    if rest != [] {
      assert Records(rest)[0] == Encode(rest[0].sequence, rest[0].ops) && Records(rest)[1..] == Records(rest[1..]);
      assert read ==> done + WholeBatches(rest, start, |file|) == (done + [rest[0]]) + WholeBatches(rest[1..], end, |file|);
    }
  }

  lemma {:induction false} LastSequenceOneMore(done: seq<Batch>, b: Batch, last: nat)
    ensures LastSequence(done + [b], last) == Max(LastSequence(done, last), b.sequence + |b.ops| - 1)
  {
    var z := done + [b];
    if done == [] {
      assert z[1..] == [];
    } else {
      assert z[0] == done[0];
      assert z[1..] == done[1..] + [b];
      LastSequenceOneMore(done[1..], b, Max(last, done[0].sequence + |done[0].ops| - 1));
    }
  }

  lemma {:induction false} AddsOfOneMore(done: seq<Batch>, b: Batch)
    ensures AddsOf(done + [b]) == AddsOf(done) + Adds(b.sequence, b.ops)
  {
    var z := done + [b];
    if done == [] {
      assert z[1..] == [];
    } else {
      assert z[0] == done[0];
      assert z[1..] == done[1..] + [b];
      AddsOfOneMore(done[1..], b);
    }
  }

  lemma ReplayedOne(flushed: seq<Add>, mem: seq<Add>, done: seq<Batch>, b: Batch, maxSequence: nat, last: nat)
    requires Replayed(done, flushed + mem, maxSequence, last)
    ensures Replayed(done + [b], flushed + (mem + Adds(b.sequence, b.ops)), maxSequence, Max(last, b.sequence + |b.ops| - 1))
  {
    AddsOfOneMore(done, b);
    LastSequenceOneMore(done, b, maxSequence);
    assert flushed + (mem + Adds(b.sequence, b.ops)) == (flushed + mem) + Adds(b.sequence, b.ops);
  }

  lemma FlushedMem(tables: seq<seq<Add>>, mem: seq<Add>)
    ensures Flatten(tables + [mem]) + [] == Flatten(tables) + mem
  {
    assert (tables + [mem])[..|tables|] == tables;
  }

  /** One turn of the loop of RecoverLogFile: `expected` is the batch that was written, if any. */
  method Replay(record: seq<byte>, paranoid: bool, mem: seq<Add>, maxSequence: nat, ghost expected: Batch)
    returns (ok: bool, mem': seq<Add>, maxSequence': nat)
    ensures WellFormed(expected) && record == Encode(expected.sequence, expected.ops) ==>
      && ok && mem' == mem + Adds(expected.sequence, expected.ops)
      && maxSequence' == Max(maxSequence, expected.sequence + |expected.ops| - 1)
    ensures ok || paranoid
  {
    if |record| < HEADER {
      return !paranoid, mem, maxSequence;
    }
    if WellFormed(expected) && record == Encode(expected.sequence, expected.ops) {
      BatchRoundTrip(expected);
    }
    ok, mem' := InsertInto(record, mem);
    if !ok && paranoid {
      return false, mem', maxSequence;
    }
    ok := true;
    var last := LastOf(Sequence(record), Count(record));
    maxSequence' := if last > maxSequence then last else maxSequence;
  }

  /** Sequence + Count - 1, where the count is signed and the sum has 64 bits. */
  function LastOf(sequence: Long, count: Word): Long {
    var signed := if count < 0x8000_0000 then count else count - 0x1_0000_0000;
    (sequence + signed - 1) % 0x1_0000_0000_0000_0000
  }

  lemma BatchRoundTrip(b: Batch)
    requires WellFormed(b)
    ensures var record := Encode(b.sequence, b.ops);
      && |record| >= HEADER && ReadOps(record[HEADER..], []) == (b.ops, true)
      && Sequence(record) == b.sequence && Count(record) == |b.ops|
    ensures LastOf(b.sequence, |b.ops|) == b.sequence + |b.ops| - 1
  {
    HeaderRoundTrip(b.sequence, |b.ops|, EncodeOps(b.ops));
    OpsRoundTrip(b.ops, []);
    assert [] + b.ops == b.ops;
    NoWrapAround(b.sequence, |b.ops|);
  }

  lemma NoWrapAround(sequence: Long, count: Word)
    requires 0 < sequence && count < 0x8000_0000 && sequence + count <= 0x1_0000_0000_0000_0000
    ensures LastOf(sequence, count) == sequence + count - 1
  {
  }

  /** A record replayed, and the memtable written to a table when it is full. */
  method ReplayRecord(record: seq<byte>, paranoid: bool, full: seq<Add> -> bool, tables: seq<seq<Add>>, mem: seq<Add>,
                      maxSequence: nat, ghost done: seq<Batch>, ghost expected: Batch, ghost before: nat)
    returns (ok: bool, tables': seq<seq<Add>>, mem': seq<Add>, maxSequence': nat)
    ensures WellFormed(expected) && record == Encode(expected.sequence, expected.ops)
            && Replayed(done, Flatten(tables) + mem, before, maxSequence) ==>
      ok && Replayed(done + [expected], Flatten(tables') + mem', before, maxSequence')
  {
    tables' := tables;
    ok, mem', maxSequence' := Replay(record, paranoid, mem, maxSequence, expected);
    if Replayed(done, Flatten(tables) + mem, before, maxSequence) {
      ReplayedOne(Flatten(tables), mem, done, expected, before, maxSequence);
    }
    if ok && full(mem') {
      FlushedMem(tables, mem');
      tables', mem' := tables + [mem'], [];
    }
  }

  /** `full` stands for ApproximateMemoryUsage() > write_buffer_size. Returned are the level-0 tables
      written on the way and the memtable left at the end (which is kept or written as one more). */
  method RecoverLogFile(crc: Checksum, file: seq<byte>, paranoid: bool, full: seq<Add> -> bool, maxSequence: nat,
                        ghost batches: seq<Batch>)
    returns (ok: bool, tables: seq<seq<Add>>, mem: seq<Add>, maxSequence': nat)
    ensures AllWellFormed(batches) && file <= LogBytes(crc, Records(batches), 0) ==>
      var whole := WholeBatches(batches, 0, |file|);
      ok && Replayed(whole, Flatten(tables) + mem, maxSequence, maxSequence')
  {
    var reader := new Reader(crc, file);
    ghost var good := AllWellFormed(batches) && file <= LogBytes(crc, Records(batches), 0);
    ghost var rest: seq<Batch> := if good then batches else [];
    ghost var whole, done := WholeBatches(rest, 0, |file|), [];
    ok, tables, mem, maxSequence' := true, [], [], maxSequence;
    if good {
      ReplayStarts(crc, file, batches, maxSequence);
    }
    var more := true;
    while more
      invariant reader.Valid()
      invariant AllWellFormed(rest)
      invariant good ==> ok && reader.reports == 0 && Replayed(done, Flatten(tables) + mem, maxSequence, maxSequence')
      invariant good && more ==> Replaying(crc, file, reader.Position(), whole, done, rest)
      invariant good && !more ==> whole == done
      decreases more, |file| - reader.Position()
    {
      ghost var start := reader.Position();
      var read, record := reader.ReadRecord(Records(rest));
      if paranoid && reader.reports > 0 {
        ok := false;
      }
      if good {
        ReplayStep(crc, file, start, whole, done, rest, read, record, reader.Position());
      }
      more := read && ok;
      if more {
        ghost var expected := if rest == [] then Batch(0, []) else rest[0];
        ok, tables, mem, maxSequence' := ReplayRecord(record, paranoid, full, tables, mem, maxSequence', done, expected, maxSequence);
        if good {
          done, rest := done + [rest[0]], rest[1..];
        }
        more := ok;
      }
    }
  }
}
