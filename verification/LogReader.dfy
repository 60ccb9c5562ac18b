/**
 log::Reader (db/log_reader.cc) with initial offset 0: reassembles records from the chunks of a
 file. It accepts any bytes; on a log file, whole or cut off anywhere, it returns exactly the
 records that lie wholly inside and reports no corruption.
 */
module LogReader {
  import opened Common
  import opened Coding
  import opened LogFormat

  datatype Physical = Eof | Bad | Record(kind: byte, payload: seq<byte>)

  // ----- files that hold (the start of) a log -----

  ghost predicate KindOk(c: Chunk) {
    FULL <= c.kind <= LAST
  }

  /** From `pos` on, the file holds the start of the bytes. */
  ghost predicate HoldsPrefix(file: seq<byte>, pos: nat, bytes: seq<byte>) {
    pos <= |file| && file[pos..] <= bytes
  }

  ghost predicate HoldsChunks(crc: Checksum, file: seq<byte>, pos: nat, chunks: seq<Chunk>) {
    && AllFit(chunks, pos)
    && (forall c :: c in chunks ==> KindOk(c))
    && HoldsPrefix(file, pos, Layout(crc, chunks, pos))
  }

  ghost predicate HoldsLog(crc: Checksum, file: seq<byte>, pos: nat, records: seq<seq<byte>>) {
    HoldsPrefix(file, pos, LogBytes(crc, records, pos))
  }

  /** What comes next at `pos`: nothing at the end of the file, or a chunk, possibly cut off. */
  ghost predicate NextIs(crc: Checksum, file: seq<byte>, pos: nat, next: Option<Chunk>) {
    match next
    case None => pos == |file|
    case Some(c) =>
      && Fits(c, pos) && KindOk(c)
      && forall k :: Place(pos) <= k < |file| && k < ChunkEnd(c, pos) ==> file[k] == ChunkBytes(crc, c)[k - Place(pos)]
  }

  lemma HeldNext(crc: Checksum, file: seq<byte>, pos: nat, chunks: seq<Chunk>)
    requires HoldsChunks(crc, file, pos, chunks)
    ensures NextIs(crc, file, pos, if chunks == [] then None else Some(chunks[0]))
  {
    if chunks != [] {
      var c := chunks[0];
      var pad, bytes := ZeroBytes(Place(pos) - pos), ChunkBytes(crc, c);
      var layout := Layout(crc, chunks, pos);
      assert layout == pad + bytes + Layout(crc, chunks[1..], ChunkEnd(c, pos));
      forall k | Place(pos) <= k < |file| && k < ChunkEnd(c, pos) ensures file[k] == bytes[k - Place(pos)] {
        assert layout[k - pos] == bytes[k - pos - |pad|];
      }
    }
  }

  lemma HeldAfter(crc: Checksum, file: seq<byte>, pos: nat, chunks: seq<Chunk>)
    requires HoldsChunks(crc, file, pos, chunks) && chunks != [] && ChunkEnd(chunks[0], pos) <= |file|
    ensures HoldsChunks(crc, file, ChunkEnd(chunks[0], pos), chunks[1..])
  {
    var c := chunks[0];
    var head := ZeroBytes(Place(pos) - pos) + ChunkBytes(crc, c);
    var rest := Layout(crc, chunks[1..], ChunkEnd(c, pos));
    var layout := Layout(crc, chunks, pos);
    assert layout == head + rest;
    forall k | ChunkEnd(c, pos) <= k < |file| ensures file[k] == rest[k - ChunkEnd(c, pos)] {
      assert file[k] == layout[k - pos];
    }
  }

  // ----- the state of ReadRecord on a log -----

  /** `scratch` is the part of the first record read so far, and the chunks to come are those of the
      rest of it and of the records after it. */
  ghost predicate Assembling(crc: Checksum, file: seq<byte>, pos: nat, records: seq<seq<byte>>, start: nat,
                             scratch: seq<byte>, inFragmented: bool, chunks: seq<Chunk>)
  {
    && HoldsChunks(crc, file, pos, chunks)
    && if records == [] then chunks == [] && !inFragmented else
         && scratch <= records[0] && (!inFragmented ==> scratch == [])
         && var own := Fragment(records[0][|scratch|..], pos, !inFragmented);
         && chunks == own + Chunks(records[1..], RecordEnd(records[0], start))
         && LayoutEnd(own, pos) == RecordEnd(records[0], start)
  }

  lemma KindsOk(data: seq<byte>, pos: nat, begin: bool)
    ensures forall c :: c in Fragment(data, pos, begin) ==> KindOk(c)
    decreases |data|, BLOCK_SIZE - Place(pos) % BLOCK_SIZE == HEADER_SIZE
  {
    var n := FragmentLength(|data|, pos);
    if n != |data| {
      FullBlockEnds(n, pos);
      KindsOk(data[n..], ChunkEnd(Chunk(KindOf(begin, false), data[..n]), pos), false);
    }
  }

  lemma AllKindsOk(records: seq<seq<byte>>, pos: nat)
    ensures forall c :: c in Chunks(records, pos) ==> KindOk(c)
  {
    if records != [] {
      KindsOk(records[0], pos, true);
      AllKindsOk(records[1..], RecordEnd(records[0], pos));
    }
  }

  /** The kinds that may come in this state. */
  ghost predicate Expected(kind: byte, scratch: seq<byte>, inFragmented: bool) {
    && FULL <= kind <= LAST
    && (inFragmented <==> kind == MIDDLE || kind == LAST)
    && (!inFragmented ==> scratch == [])
  }

  /** What ReadRecord has to return on a log, and where it has to leave off. */
  ghost predicate Reads(crc: Checksum, file: seq<byte>, start: nat, records: seq<seq<byte>>,
                        ok: bool, record: seq<byte>, end: nat)
  {
    && ok == (records != [] && RecordEnd(records[0], start) <= |file|)
    && (ok ==> record == records[0] && end == RecordEnd(records[0], start) && HoldsLog(crc, file, end, records[1..]))
  }

  lemma LogIsChunks(crc: Checksum, file: seq<byte>, pos: nat, records: seq<seq<byte>>)
    requires HoldsLog(crc, file, pos, records)
    ensures Assembling(crc, file, pos, records, pos, [], false, Chunks(records, pos))
  {
    LogIsLayout(crc, records, pos);
    AllKindsOk(records, pos);
    if records != [] {
      assert records[0][0..] == records[0];
    }
  }

  lemma {:induction false} EndsLater(chunks: seq<Chunk>, pos: nat)
    ensures LayoutEnd(chunks, pos) >= pos
  {
    if chunks != [] {
      EndsLater(chunks[1..], ChunkEnd(chunks[0], pos));
    }
  }

  /** The chunk that comes next is a piece of the first record. Reading it leads on to the next piece
      or ends the record; without it the record is not wholly in the file. */
  lemma NextChunk(crc: Checksum, file: seq<byte>, pos: nat, records: seq<seq<byte>>, start: nat,
                  scratch: seq<byte>, inFragmented: bool, chunks: seq<Chunk>)
    requires Assembling(crc, file, pos, records, start, scratch, inFragmented, chunks)
    ensures NextIs(crc, file, pos, if chunks == [] then None else Some(chunks[0]))
    ensures chunks == [] || ChunkEnd(chunks[0], pos) > |file| ==> Reads(crc, file, start, records, false, [], pos)
    ensures chunks != [] && ChunkEnd(chunks[0], pos) <= |file| ==>
      var c, end := chunks[0], ChunkEnd(chunks[0], pos);
      && Expected(c.kind, scratch, inFragmented)
      && if c.kind == FULL || c.kind == LAST then
           Reads(crc, file, start, records, true, scratch + c.payload, end)
         else
           Assembling(crc, file, end, records, start, scratch + c.payload, true, chunks[1..])
  {
    HeldNext(crc, file, pos, chunks);
    if records != [] {
      NextPiece(records, pos, start, scratch, inFragmented, chunks);
      if ChunkEnd(chunks[0], pos) <= |file| {
        HeldAfter(crc, file, pos, chunks);
        LogIsLayout(crc, records[1..], RecordEnd(records[0], start));
      }
    }
  }

  lemma FirstOfConcat(c: Chunk, rest: seq<Chunk>, others: seq<Chunk>)
    ensures var z := [c] + rest + others;
      z[0] == c && z[1..] == rest + others && ([c] + rest)[0] == c && ([c] + rest)[1..] == rest
  {
  }

  lemma SliceOfRest(s: seq<byte>, i: nat, n: nat)
    requires i + n <= |s|
    ensures s[i..][..n] == s[i..i + n] && s[i..][n..] == s[i + n..]
  {
  }

  lemma {:induction false} NextPiece(records: seq<seq<byte>>, pos: nat, start: nat, scratch: seq<byte>, inFragmented: bool, chunks: seq<Chunk>)
    requires records != [] && scratch <= records[0]
    requires var own := Fragment(records[0][|scratch|..], pos, !inFragmented);
             && chunks == own + Chunks(records[1..], RecordEnd(records[0], start))
             && LayoutEnd(own, pos) == RecordEnd(records[0], start)
    ensures chunks != [] && ChunkEnd(chunks[0], pos) <= RecordEnd(records[0], start)
    ensures var n := FragmentLength(|records[0]| - |scratch|, pos);
            chunks[0] == Chunk(KindOf(!inFragmented, |scratch| + n == |records[0]|), records[0][|scratch|..|scratch| + n])
    ensures var c, end := chunks[0], ChunkEnd(chunks[0], pos);
      && scratch + c.payload <= records[0]
      && if |scratch + c.payload| == |records[0]| then
           && scratch + c.payload == records[0] && end == RecordEnd(records[0], start)
           && chunks[1..] == Chunks(records[1..], end)
         else
           var own := Fragment(records[0][|scratch + c.payload|..], end, false);
           && chunks[1..] == own + Chunks(records[1..], RecordEnd(records[0], start))
           && LayoutEnd(own, end) == RecordEnd(records[0], start)
  {
    var left := records[0][|scratch|..];
    var n := FragmentLength(|left|, pos);
    var c := Chunk(KindOf(!inFragmented, n == |left|), left[..n]);
    var own, others := Fragment(left, pos, !inFragmented), Chunks(records[1..], RecordEnd(records[0], start));
    SliceOfRest(records[0], |scratch|, n);
    assert scratch + left == records[0];
    if n == |left| {
      assert own == [c];
      assert chunks[1..] == others;
    } else {
      FullBlockEnds(n, pos);
      var rest := Fragment(left[n..], ChunkEnd(c, pos), false);
      assert own == [c] + rest;
      FirstOfConcat(c, rest, others);
      EndsLater(rest, ChunkEnd(c, pos));
    }
  }

  /** What ReadPhysicalRecord has to return on a log, and where it has to leave off. */
  ghost predicate Parses(fileSize: nat, start: nat, next: Option<Chunk>, r: Physical, end: nat) {
    if next.Some? && ChunkEnd(next.value, start) <= fileSize then
      r == Record(next.value.kind, next.value.payload) && end == ChunkEnd(next.value, start)
    else
      r == Eof
  }

  /** The start of a chunk in the buffer. */
  lemma BytesAgree(file: seq<byte>, p: nat, buffer: seq<byte>, bytes: seq<byte>) returns (start: seq<byte>)
    requires p + |buffer| <= |file| && forall k :: 0 <= k < |buffer| ==> buffer[k] == file[p + k]
    requires forall k :: p <= k < |file| && k < p + |bytes| ==> file[k] == bytes[k - p]
    ensures start <= bytes && start <= buffer && |start| == if |buffer| < |bytes| then |buffer| else |bytes|
  {
    start := bytes[..if |buffer| < |bytes| then |buffer| else |bytes|];
    forall k | 0 <= k < |start| ensures start[k] == buffer[k] {
      assert file[p + k] == bytes[k];
    }
  }

  lemma SameStart(start: seq<byte>, buffer: seq<byte>)
    requires HEADER_SIZE <= |start| && start <= buffer
    ensures DecodeFixed32(start) == DecodeFixed32(buffer)
    ensures buffer[HEADER_SIZE..|start|] == start[HEADER_SIZE..]
  {
  }

  lemma BlockEnd(pos: nat, blocks: nat)
    requires (blocks - 1) * BLOCK_SIZE <= pos < blocks * BLOCK_SIZE
    ensures pos % BLOCK_SIZE == pos - (blocks - 1) * BLOCK_SIZE
  {
  }

  /** The fields of a header, read back from the start of a chunk. */
  lemma HeaderFields(crc: Checksum, c: Chunk, start: seq<byte>)
    requires |c.payload| < 0x1_0000 && HEADER_SIZE <= |start| && start <= ChunkBytes(crc, c)
    ensures (start[4] as int) + 0x100 * (start[5] as int) == |c.payload| && start[6] == c.kind
    ensures Unmask(DecodeFixed32(start)) == crc([c.kind] + c.payload)
    ensures start[HEADER_SIZE..] <= c.payload
  {
    var sum := crc([c.kind] + c.payload);
    Fixed32RoundTrip(Mask(sum));
    MaskRoundTrip(sum);
    assert start[..4] == EncodeFixed32(Mask(sum));
  }

  class Reader {
    const crc: Checksum
    const file: seq<byte>
    var filePos: nat
    var buffer: seq<byte>
    var eof: bool
    /** How many blocks were read. */
    ghost var blocks: nat
    /** How often the reporter was told of a corruption. */
    var reports: nat

    /** The buffer is what is left of the block read last. */
    ghost predicate Valid()
      reads this
    {
      && |buffer| <= filePos <= |file|
      && (blocks - 1) * BLOCK_SIZE <= Position() && filePos <= blocks * BLOCK_SIZE
      && (if eof then filePos == |file| else filePos == blocks * BLOCK_SIZE)
      && forall k :: 0 <= k < |buffer| ==> buffer[k] == file[filePos - |buffer| + k]
    }

    /** The file offset of the next byte to parse. */
    ghost function Position(): nat
      reads this
      requires |buffer| <= filePos
    {
      filePos - |buffer|
    }

    constructor (crc: Checksum, file: seq<byte>)
      ensures Valid() && Position() == 0 && reports == 0
      ensures this.crc == crc && this.file == file
    {
      this.crc, this.file := crc, file;
      filePos, buffer, eof, reports, blocks := 0, [], false, 0, 0;
    }

    method ReportCorruption()
      requires Valid()
      modifies this`reports
      ensures Valid() && Position() == old(Position()) && reports == old(reports) + 1
    {
      reports := reports + 1;
    }

    /** What is left in the buffer is not looked at any more. */
    method DropBuffer()
      requires Valid()
      modifies this`buffer
      ensures Valid() && buffer == [] && Position() == filePos && Position() >= old(Position())
    {
      buffer := [];
    }

    /** A chunk of this many bytes has been parsed. */
    method Take(n: nat)
      requires Valid() && n <= |buffer|
      modifies this`buffer
      ensures Valid() && Position() == old(Position()) + n
    {
      buffer := buffer[n..];
    }

    /** file_->Read of one block: short only at the end of the file. */
    method ReadBlock()
      requires Valid() && !eof && |buffer| < HEADER_SIZE
      modifies this`filePos, this`buffer, this`eof, this`blocks
      ensures Valid() && Position() == old(filePos) && filePos >= old(filePos)
      ensures !eof ==> |buffer| == BLOCK_SIZE
    {
      var n := if |file| - filePos < BLOCK_SIZE then |file| - filePos else BLOCK_SIZE;
      buffer := file[filePos..filePos + n];
      filePos, blocks := filePos + n, blocks + 1;
      eof := n < BLOCK_SIZE;
    }

    /** ReadPhysicalRecord. `next` says what the file holds at this point, if it holds a log. */
    method ReadPhysicalRecord(ghost next: Option<Chunk>) returns (r: Physical)
      requires Valid()
      modifies this`filePos, this`buffer, this`eof, this`reports, this`blocks
      ensures Valid() && Position() >= old(Position())
      ensures !r.Eof? ==> Position() > old(Position())
      ensures NextIs(crc, file, old(Position()), next) ==>
        reports == old(reports) && Parses(|file|, old(Position()), next, r, Position())
    {
      Refill();
      if |buffer| < HEADER_SIZE {
        DropBuffer();
        return Eof;
      }
      HeaderInBlock();
      r := ParseChunk(next);
    }

    /** The next block, when less than a header is left of this one. */
    method Refill()
      requires Valid()
      modifies this`filePos, this`buffer, this`eof, this`blocks
      ensures Valid() && Position() >= old(Position())
      ensures Place(old(Position())) == Place(Position())
      ensures |buffer| < HEADER_SIZE ==> eof
    {
      if |buffer| < HEADER_SIZE && !eof {
        SkippedTrailer();
        DropBuffer();
        ReadBlock();
      }
    }

    /** A trailer that is skipped ends where the next chunk is placed. */
    lemma SkippedTrailer()
      requires Valid() && !eof && |buffer| < HEADER_SIZE
      ensures Place(Position()) == filePos && Place(filePos) == filePos
    {
    }

    /** With a whole header in the buffer, the chunk starts right here. */
    lemma HeaderInBlock()
      requires Valid() && |buffer| >= HEADER_SIZE
      ensures Place(Position()) == Position()
    {
    }

    /** The part of ReadPhysicalRecord that parses a chunk at the start of the buffer. */
    method ParseChunk(ghost next: Option<Chunk>) returns (r: Physical)
      requires Valid() && |buffer| >= HEADER_SIZE && Place(Position()) == Position()
      modifies this`buffer, this`reports
      ensures Valid() && Position() >= old(Position())
      ensures !r.Eof? ==> Position() > old(Position())
      ensures NextIs(crc, file, old(Position()), next) ==>
        reports == old(reports) && Parses(|file|, old(Position()), next, r, Position())
    {
      ghost var good := NextIs(crc, file, Position(), next) && next.Some?;
      var length := (buffer[4] as int) + 0x100 * (buffer[5] as int);
      var kind := buffer[6];
      if good {
        BufferHolds(next.value, length);
      }
      if HEADER_SIZE + length > |buffer| {
        DropBuffer();
        if !eof {
          ReportCorruption();
          return Bad;
        }
        return Eof;
      }
      if kind == 0 && length == 0 {
        DropBuffer();
        return Bad;
      }
      var payload := buffer[HEADER_SIZE..HEADER_SIZE + length];
      var expected := Unmask(DecodeFixed32(buffer));
      var actual := crc([kind] + payload);
      if actual != expected {
        DropBuffer();
        ReportCorruption();
        return Bad;
      }
      Take(HEADER_SIZE + length);
      return Record(kind, payload);
    }

    /** What the parser sees when a chunk starts at the start of the buffer. */
    lemma BufferHolds(c: Chunk, length: nat)
      requires Valid() && |buffer| >= HEADER_SIZE && Place(Position()) == Position()
      requires NextIs(crc, file, Position(), Some(c)) && length == (buffer[4] as int) + 0x100 * (buffer[5] as int)
      ensures ChunkEnd(c, Position()) == Position() + HEADER_SIZE + length
      ensures length == |c.payload| && buffer[6] == c.kind
      ensures !eof ==> HEADER_SIZE + length <= |buffer|
      ensures HEADER_SIZE + length <= |buffer| ==>
        buffer[HEADER_SIZE..HEADER_SIZE + length] == c.payload && Unmask(DecodeFixed32(buffer)) == crc([c.kind] + c.payload)
    {
      if !eof {
        InOneBlock(c);
      }
      var start := BytesAgree(file, Position(), buffer, ChunkBytes(crc, c));
      HeaderFields(crc, c, start);
      SameStart(start, buffer);
    }

    /** A chunk does not cross the end of its block. */
    lemma InOneBlock(c: Chunk)
      requires Valid() && !eof && |buffer| >= HEADER_SIZE && Fits(c, Position())
      ensures HEADER_SIZE + |c.payload| <= |buffer|
    {
      BlockEnd(Position(), blocks);
    }

    /** ReadRecord: the next whole record, if there is one. `records` is what the file holds from
        here on, if it holds a log; on other files the loop still ends. */
    method ReadRecord(ghost records: seq<seq<byte>>) returns (ok: bool, record: seq<byte>)
      requires Valid()
      modifies this`filePos, this`buffer, this`eof, this`reports, this`blocks
      ensures Valid()
      ensures HoldsLog(crc, file, old(Position()), records) ==>
        reports == old(reports) && Reads(crc, file, old(Position()), records, ok, record, Position())
      ensures ok ==> Position() > old(Position())
    {
      ghost var start, good := Position(), HoldsLog(crc, file, Position(), records);
      ghost var chunks := if good then Chunks(records, start) else [];
      var scratch, inFragmented := [], false;
      if good {
        LogIsChunks(crc, file, start, records);
      }
      while true
        invariant Valid() && Position() >= start
        invariant good ==> reports == old(reports)
        invariant good ==> Assembling(crc, file, Position(), records, start, scratch, inFragmented, chunks)
        decreases |file| - Position()
      {
        var r := ReadPiece(good, records, start, scratch, inFragmented, chunks);
        chunks := if chunks == [] then [] else chunks[1..];
        match r
        case Eof =>
          return false, [];
        case Bad =>
          if inFragmented {
            ReportCorruption();
            inFragmented, scratch := false, [];
          }
        case Record(kind, payload) =>
          var done;
          done, scratch, inFragmented := Assemble(kind, payload, scratch, inFragmented);
          if done {
            return true, scratch;
          }
      }
    }

    /** ReadPhysicalRecord, with what its result means to ReadRecord on a log. */
    method ReadPiece(ghost good: bool, ghost records: seq<seq<byte>>, ghost start: nat, ghost scratch: seq<byte>,
                     ghost inFragmented: bool, ghost chunks: seq<Chunk>) returns (r: Physical)
      requires Valid()
      requires good ==> Assembling(crc, file, Position(), records, start, scratch, inFragmented, chunks)
      modifies this`filePos, this`buffer, this`eof, this`reports, this`blocks
      ensures Valid() && Position() >= old(Position()) && (!r.Eof? ==> Position() > old(Position()))
      ensures good ==> reports == old(reports) && match r
        case Eof => Reads(crc, file, start, records, false, [], Position())
        case Bad => false
        case Record(kind, payload) =>
          && Expected(kind, scratch, inFragmented) && chunks != []
          && if kind == FULL || kind == LAST then Reads(crc, file, start, records, true, scratch + payload, Position())
             else Assembling(crc, file, Position(), records, start, scratch + payload, true, chunks[1..])
    {
      ghost var next: Option<Chunk> := if chunks == [] then None else Some(chunks[0]);
      if good {
        NextChunk(crc, file, Position(), records, start, scratch, inFragmented, chunks);
      }
      r := ReadPhysicalRecord(next);
    }

    /** The part of ReadRecord that joins a chunk to the record being read. */
    method Assemble(kind: byte, payload: seq<byte>, scratch: seq<byte>, inFragmented: bool)
      returns (done: bool, scratch': seq<byte>, inFragmented': bool)
      requires Valid()
      modifies this`reports
      ensures Valid() && Position() == old(Position())
      ensures Expected(kind, scratch, inFragmented) ==>
        && reports == old(reports) && scratch' == scratch + payload
        && (done <==> kind == FULL || kind == LAST)
        && (!done ==> inFragmented')
    {
      done, scratch', inFragmented' := false, scratch, inFragmented;
      if kind == FULL {
        if inFragmented && scratch != [] {
          ReportCorruption();
        }
        done, scratch' := true, payload;
      } else if kind == FIRST {
        if inFragmented && scratch != [] {
          ReportCorruption();
        }
        scratch', inFragmented' := payload, true;
      } else if kind == MIDDLE || kind == LAST {
        if !inFragmented {
          ReportCorruption();
        } else {
          done, scratch' := kind == LAST, scratch + payload;
        }
      } else {
        ReportCorruption();
        scratch', inFragmented' := [], false;
      }
    }
  }

  // ----- the whole file -----

  /** The records that end at or before `limit`. */
  function WholeRecords(records: seq<seq<byte>>, pos: nat, limit: nat): seq<seq<byte>> {
    if records == [] || RecordEnd(records[0], pos) > limit then [] else
      [records[0]] + WholeRecords(records[1..], RecordEnd(records[0], pos), limit)
  }

  lemma ReadsNextWhole(crc: Checksum, file: seq<byte>, start: nat, records: seq<seq<byte>>, ok: bool, record: seq<byte>,
                       end: nat, before: seq<seq<byte>>)
    requires Reads(crc, file, start, records, ok, record, end)
    ensures ok ==> records != [] && HoldsLog(crc, file, end, records[1..])
    ensures before + WholeRecords(records, start, |file|)
         == if ok then (before + [record]) + WholeRecords(records[1..], end, |file|) else before
  {
  }

  /** Reading a log that was cut off at any byte gives exactly the records wholly inside, in order,
      with no corruption reported. */
  method ReadAll(crc: Checksum, file: seq<byte>, ghost records: seq<seq<byte>>)
    returns (result: seq<seq<byte>>, reports: nat)
    ensures file <= LogBytes(crc, records, 0) ==> result == WholeRecords(records, 0, |file|) && reports == 0
  {
    var reader := new Reader(crc, file);
    ghost var good := file <= LogBytes(crc, records, 0);
    ghost var rest, whole := records, WholeRecords(records, 0, |file|);
    result := [];
    var more := true;
    while more
      invariant reader.Valid() && reader.crc == crc && reader.file == file && fresh(reader)
      invariant good ==> reader.reports == 0
      invariant good && more ==> HoldsLog(crc, file, reader.Position(), rest)
      invariant good && more ==> whole == result + WholeRecords(rest, reader.Position(), |file|)
      invariant good && !more ==> whole == result
      decreases more, |file| - reader.Position()
    {
      ghost var start := reader.Position();
      var ok, record := reader.ReadRecord(rest);
      if good {
        ReadsNextWhole(crc, file, start, rest, ok, record, reader.Position(), result);
      }
      if ok {
        result := result + [record];
        rest := if rest == [] then [] else rest[1..];
      } else {
        more := false;
      }
    }
    reports := reader.reports;
  }

  lemma {:induction false} AllRecordsWhole(crc: Checksum, records: seq<seq<byte>>, pos: nat, limit: nat)
    requires pos + |LogBytes(crc, records, pos)| <= limit
    ensures WholeRecords(records, pos, limit) == records
  {
    if records != [] {
      RecordLength(crc, records[0], pos);
      AllRecordsWhole(crc, records[1..], RecordEnd(records[0], pos), limit);
    }
  }

  /** What survives a cut is always a prefix of the records. */
  lemma {:induction false} WholeRecordsArePrefix(records: seq<seq<byte>>, pos: nat, limit: nat)
    ensures WholeRecords(records, pos, limit) <= records
  {
    if records != [] && RecordEnd(records[0], pos) <= limit {
      WholeRecordsArePrefix(records[1..], RecordEnd(records[0], pos), limit);
    }
  }
}
