/**
 The log file format (db/log_format.h): records cut into chunks, chunks laid out in blocks.
 */
module LogFormat {

  import opened Coding

  const BLOCK_SIZE := 32768
  const HEADER_SIZE := 7

  /** RecordType; kZeroType (0) is reserved. */
  const FULL: byte := 1
  const FIRST: byte := 2
  const MIDDLE: byte := 3
  const LAST: byte := 4

  // ----- masked checksums (util/crc32c.h) -----

  const MASK_DELTA := 0xa282ead8

  /** Rotate right by 15 bits and add a constant, modulo 2^32. */
  function Mask(crc: Word): Word {
    (crc / 0x8000 + crc % 0x8000 * 0x2_0000 + MASK_DELTA) % 0x1_0000_0000
  }

  function Unmask(masked: Word): Word {
    var rot := (masked - MASK_DELTA) % 0x1_0000_0000;
    rot / 0x2_0000 + rot % 0x2_0000 * 0x8000
  }

  lemma MaskRoundTrip(crc: Word)
    ensures Unmask(Mask(crc)) == crc
  {
    var high, low := crc / 0x8000, crc % 0x8000;
    var rotated := high + low * 0x2_0000;
    assert 0 <= high < 0x2_0000 && 0 <= rotated < 0x1_0000_0000;
    assert (Mask(crc) - MASK_DELTA) % 0x1_0000_0000 == rotated;
    assert rotated / 0x2_0000 == low && rotated % 0x2_0000 == high;
  }

  // ----- chunks (physical records) -----

  datatype Chunk = Chunk(kind: byte, payload: seq<byte>)

  function ZeroBytes(n: nat): seq<byte> {
    seq(n, _ => 0)
  }

  /** The checksum is any function of the bytes it covers: the kind, then the payload. */
  type Checksum = seq<byte> -> Word

  function Header(crc: Checksum, kind: byte, payload: seq<byte>): seq<byte>
    requires |payload| < 0x1_0000
  {
    EncodeFixed32(Mask(crc([kind] + payload))) + [(|payload| % 0x100) as byte, (|payload| / 0x100) as byte, kind]
  }

  function ChunkBytes(crc: Checksum, c: Chunk): seq<byte>
    requires |c.payload| < 0x1_0000
  {
    Header(crc, c.kind, c.payload) + c.payload
  }

  /** Where the next chunk starts: a block trailer too short for a header is skipped. */
  function Place(pos: nat): (q: nat)
    ensures pos <= q && BLOCK_SIZE - q % BLOCK_SIZE >= HEADER_SIZE
  {
    var leftover := BLOCK_SIZE - pos % BLOCK_SIZE;
    if leftover < HEADER_SIZE then
      assert (pos + leftover) % BLOCK_SIZE == 0;
      pos + leftover
    else
      pos
  }

  function ChunkEnd(c: Chunk, pos: nat): nat {
    Place(pos) + HEADER_SIZE + |c.payload|
  }

  predicate Fits(c: Chunk, pos: nat) {
    Place(pos) % BLOCK_SIZE + HEADER_SIZE + |c.payload| <= BLOCK_SIZE
  }

  predicate AllFit(chunks: seq<Chunk>, pos: nat) {
    chunks == [] || (Fits(chunks[0], pos) && AllFit(chunks[1..], ChunkEnd(chunks[0], pos)))
  }

  /** The bytes of chunks laid out from file offset `pos` on. */
  function Layout(crc: Checksum, chunks: seq<Chunk>, pos: nat): seq<byte>
    requires AllFit(chunks, pos)
  {
    if chunks == [] then [] else
      ZeroBytes(Place(pos) - pos) + ChunkBytes(crc, chunks[0]) + Layout(crc, chunks[1..], ChunkEnd(chunks[0], pos))
  }

  lemma LayoutCons(crc: Checksum, c: Chunk, rest: seq<Chunk>, pos: nat)
    requires Fits(c, pos) && AllFit(rest, ChunkEnd(c, pos))
    ensures AllFit([c] + rest, pos)
    ensures Layout(crc, [c] + rest, pos)
         == ZeroBytes(Place(pos) - pos) + ChunkBytes(crc, c) + Layout(crc, rest, ChunkEnd(c, pos))
  {
    assert ([c] + rest)[1..] == rest;
  }

  function LayoutEnd(chunks: seq<Chunk>, pos: nat): nat {
    if chunks == [] then pos else LayoutEnd(chunks[1..], ChunkEnd(chunks[0], pos))
  }

  lemma {:induction false} LayoutLength(crc: Checksum, chunks: seq<Chunk>, pos: nat)
    requires AllFit(chunks, pos)
    ensures pos + |Layout(crc, chunks, pos)| == LayoutEnd(chunks, pos)
  {
    if chunks != [] {
      LayoutLength(crc, chunks[1..], ChunkEnd(chunks[0], pos));
    }
  }

  lemma Associative(a: seq<byte>, b: seq<byte>, c: seq<byte>)
    ensures a + (b + c) == (a + b) + c
  {
  }

  lemma {:induction false} LayoutConcat(crc: Checksum, x: seq<Chunk>, y: seq<Chunk>, pos: nat)
    requires AllFit(x, pos) && AllFit(y, LayoutEnd(x, pos))
    ensures AllFit(x + y, pos) && LayoutEnd(x + y, pos) == LayoutEnd(y, LayoutEnd(x, pos))
    ensures Layout(crc, x + y, pos) == Layout(crc, x, pos) + Layout(crc, y, LayoutEnd(x, pos))
  {
    if x == [] {
      assert x + y == y;
    } else {
      var z := x + y;
      assert z[0] == x[0];
      assert z[1..] == x[1..] + y;
      LayoutConcat(crc, x[1..], y, ChunkEnd(x[0], pos));
      var end := ChunkEnd(x[0], pos);
      Associative(ZeroBytes(Place(pos) - pos) + ChunkBytes(crc, x[0]), Layout(crc, x[1..], end), Layout(crc, y, LayoutEnd(x, pos)));
    }
  }

  // ----- records cut into chunks -----

  function KindOf(begin: bool, end: bool): byte {
    if begin && end then FULL else if begin then FIRST else if end then LAST else MIDDLE
  }

  function FragmentLength(left: nat, pos: nat): (n: nat)
    ensures n <= left && Place(pos) % BLOCK_SIZE + HEADER_SIZE + n <= BLOCK_SIZE
  {
    var avail := BLOCK_SIZE - Place(pos) % BLOCK_SIZE - HEADER_SIZE;
    if left < avail then left else avail
  }

  /** The chunks of a record (or of what is left of it) written from offset `pos` on. */
  function Fragment(data: seq<byte>, pos: nat, begin: bool): seq<Chunk>
    decreases |data|, BLOCK_SIZE - Place(pos) % BLOCK_SIZE == HEADER_SIZE
  {
    var n := FragmentLength(|data|, pos);
    var c := Chunk(KindOf(begin, n == |data|), data[..n]);
    if n == |data| then [c] else
      FullBlockEnds(n, pos);
      [c] + Fragment(data[n..], ChunkEnd(c, pos), false)
  }

  /** A fragment that does not finish its record fills its block. */
  lemma FullBlockEnds(n: nat, pos: nat)
    requires Place(pos) % BLOCK_SIZE + HEADER_SIZE + n == BLOCK_SIZE
    ensures Place(Place(pos) + HEADER_SIZE + n) % BLOCK_SIZE == 0
  {
    var q := Place(pos);
    assert (q + HEADER_SIZE + n) % BLOCK_SIZE == (q % BLOCK_SIZE + HEADER_SIZE + n) % BLOCK_SIZE;
  }

  lemma {:induction false} FragmentFits(data: seq<byte>, pos: nat, begin: bool)
    ensures AllFit(Fragment(data, pos, begin), pos)
    decreases |data|, BLOCK_SIZE - Place(pos) % BLOCK_SIZE == HEADER_SIZE
  {
    var n := FragmentLength(|data|, pos);
    var c := Chunk(KindOf(begin, n == |data|), data[..n]);
    if n != |data| {
      FullBlockEnds(n, pos);
      FragmentFits(data[n..], ChunkEnd(c, pos), false);
      var rest := Fragment(data[n..], ChunkEnd(c, pos), false);
      assert ([c] + rest)[1..] == rest;
    }
  }

  /** All the chunks of a list of records. */
  function Chunks(records: seq<seq<byte>>, pos: nat): seq<Chunk> {
    if records == [] then [] else
      var first := Fragment(records[0], pos, true);
      first + Chunks(records[1..], LayoutEnd(first, pos))
  }

  /** Where the first of the records ends. */
  function RecordEnd(record: seq<byte>, pos: nat): nat {
    LayoutEnd(Fragment(record, pos, true), pos)
  }

  lemma {:induction false} ChunksFit(records: seq<seq<byte>>, pos: nat)
    ensures AllFit(Chunks(records, pos), pos)
  {
    if records != [] {
      var first := Fragment(records[0], pos, true);
      FragmentFits(records[0], pos, true);
      ChunksFit(records[1..], LayoutEnd(first, pos));
      LayoutConcat(_ => 0, first, Chunks(records[1..], LayoutEnd(first, pos)), pos);
    }
  }

  /** The bytes of one record written from offset `pos` on. */
  function RecordBytes(crc: Checksum, record: seq<byte>, pos: nat): seq<byte> {
    FragmentFits(record, pos, true);
    Layout(crc, Fragment(record, pos, true), pos)
  }

  lemma RecordLength(crc: Checksum, record: seq<byte>, pos: nat)
    ensures RecordEnd(record, pos) == pos + |RecordBytes(crc, record, pos)|
  {
    FragmentFits(record, pos, true);
    LayoutLength(crc, Fragment(record, pos, true), pos);
  }

  /** The bytes of a log that holds the records. */
  function LogBytes(crc: Checksum, records: seq<seq<byte>>, pos: nat): seq<byte> {
    if records == [] then [] else
      RecordBytes(crc, records[0], pos) + LogBytes(crc, records[1..], RecordEnd(records[0], pos))
  }

  lemma {:induction false} LogIsLayout(crc: Checksum, records: seq<seq<byte>>, pos: nat)
    ensures AllFit(Chunks(records, pos), pos)
    ensures LogBytes(crc, records, pos) == Layout(crc, Chunks(records, pos), pos)
  {
    ChunksFit(records, pos);
    if records != [] {
      var first, end := Fragment(records[0], pos, true), RecordEnd(records[0], pos);
      FragmentFits(records[0], pos, true);
      LogIsLayout(crc, records[1..], end);
      LayoutConcat(crc, first, Chunks(records[1..], end), pos);
    }
  }

  /** Adding a record appends its bytes to those of the records before it. */
  lemma {:induction false} AppendRecord(crc: Checksum, records: seq<seq<byte>>, record: seq<byte>, pos: nat)
    ensures LogBytes(crc, records + [record], pos)
         == LogBytes(crc, records, pos) + RecordBytes(crc, record, pos + |LogBytes(crc, records, pos)|)
  {
    var z := records + [record];
    if records == [] {
      assert z == [record] && z[1..] == [];
    } else {
      assert z[0] == records[0];
      assert z[1..] == records[1..] + [record];
      var end := RecordEnd(records[0], pos);
      RecordLength(crc, records[0], pos);
      AppendRecord(crc, records[1..], record, end);
      var rest := LogBytes(crc, records[1..], end);
      Associative(RecordBytes(crc, records[0], pos), rest, RecordBytes(crc, record, end + |rest|));
    }
  }
}
