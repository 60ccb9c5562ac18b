/**
 log::Writer (db/log_writer.cc): appends records to a log file, cut into chunks at block ends.
 */
module LogWriter {
  import opened Coding
  import opened LogFormat

  class Writer {
    const crc: Checksum
    var dest: seq<byte>
    var blockOffset: nat

    /** block_offset_ is where the file ends in its last block; it may also stand at the very end. */
    ghost predicate Valid()
      reads this
    {
      blockOffset <= BLOCK_SIZE && blockOffset % BLOCK_SIZE == |dest| % BLOCK_SIZE
    }

    /** A writer for a new file, or one that goes on where an existing file ends. */
    constructor (crc: Checksum, dest: seq<byte>)
      ensures Valid() && this.crc == crc && this.dest == dest
    {
      this.crc, this.dest, blockOffset := crc, dest, |dest| % BLOCK_SIZE;
    }

    /** What is still to be written of a record: nothing once its last chunk is out. */
    ghost function Remaining(data: seq<byte>, pos: nat, begin: bool): seq<byte> {
      if !begin && data == [] then [] else
        FragmentFits(data, pos, begin);
        Layout(crc, Fragment(data, pos, begin), pos)
    }

    /** AddRecord appends exactly the chunks of the record, trailers included. */
    method AddRecord(record: seq<byte>)
      requires Valid()
      modifies this
      ensures Valid()
      ensures dest == old(dest) + RecordBytes(crc, record, |old(dest)|)
    {
      ghost var start := dest;
      ghost var all := Remaining(record, |start|, true);
      var left, begin := record, true;
      while begin || left != []
        invariant Valid()
        invariant dest + Remaining(left, |dest|, begin) == start + all
        decreases begin, |left|, BLOCK_SIZE - Place(|dest|) % BLOCK_SIZE == HEADER_SIZE
      {
        ghost var before := dest;
        var rest := WriteFragment(left, begin);
        TurnWrites(before, left, begin, dest);
        left, begin := rest, false;
      }
    }

    /** One turn of the loop of AddRecord. */
    method WriteFragment(left: seq<byte>, begin: bool) returns (rest: seq<byte>)
      requires Valid() && (begin || left != [])
      modifies this
      ensures Valid()
      ensures rest == left[FragmentLength(|left|, |old(dest)|)..]
      ensures var n := FragmentLength(|left|, |old(dest)|);
        dest == old(dest) + ZeroBytes(Place(|old(dest)|) - |old(dest)|)
                + ChunkBytes(crc, Chunk(KindOf(begin, n == |left|), left[..n]))
      ensures |rest| < |left| || rest == [] || (|rest| == |left| && Place(|dest|) % BLOCK_SIZE == 0
                && BLOCK_SIZE - Place(|old(dest)|) % BLOCK_SIZE == HEADER_SIZE)
    {
      ghost var pos := |dest|;
      SwitchBlock();
      var avail := BLOCK_SIZE - blockOffset - HEADER_SIZE;
      var n := if |left| < avail then |left| else avail;
      assert n == FragmentLength(|left|, pos);
      var end := n == |left|;
      var kind := if begin && end then FULL else if begin then FIRST else if end then LAST else MIDDLE;
      EmitPhysicalRecord(kind, left[..n]);
      if n != |left| {
        FullBlockEnds(n, pos);
      }
      rest := left[n..];
    }

    /** After one turn, what is written and what is left still make up the whole record. */
    lemma TurnWrites(before: seq<byte>, left: seq<byte>, begin: bool, after: seq<byte>)
      requires begin || left != []
      requires var n := FragmentLength(|left|, |before|);
        after == before + ZeroBytes(Place(|before|) - |before|)
                 + ChunkBytes(crc, Chunk(KindOf(begin, n == |left|), left[..n]))
      ensures after + Remaining(left[FragmentLength(|left|, |before|)..], |after|, false)
           == before + Remaining(left, |before|, begin)
    {
      var n := FragmentLength(|left|, |before|);
      var c := Chunk(KindOf(begin, n == |left|), left[..n]);
      RemainingStep(left, |before|, begin);
      assert |after| == ChunkEnd(c, |before|);
      Reassociate(before, ZeroBytes(Place(|before|) - |before|), ChunkBytes(crc, c),
                  Remaining(left[n..], |after|, false));
    }

    lemma Reassociate(a: seq<byte>, b: seq<byte>, c: seq<byte>, d: seq<byte>)
      ensures a + b + c + d == a + (b + c + d)
    {
    }

    /** One turn of the loop writes the trailer, a chunk, and leaves the rest. */
    lemma RemainingStep(data: seq<byte>, pos: nat, begin: bool)
      requires begin || data != []
      ensures var n := FragmentLength(|data|, pos);
        var c := Chunk(KindOf(begin, n == |data|), data[..n]);
        Remaining(data, pos, begin)
          == ZeroBytes(Place(pos) - pos) + ChunkBytes(crc, c) + Remaining(data[n..], ChunkEnd(c, pos), false)
    {
      var n := FragmentLength(|data|, pos);
      var c := Chunk(KindOf(begin, n == |data|), data[..n]);
      if n == |data| {
        assert [c] + [] == [c] && data[n..] == [];
        LayoutCons(crc, c, [], pos);
      } else {
        FullBlockEnds(n, pos);
        FragmentFits(data[n..], ChunkEnd(c, pos), false);
        LayoutCons(crc, c, Fragment(data[n..], ChunkEnd(c, pos), false), pos);
      }
    }

    /** Fills the trailer of a block that has no room for a header. */
    method SwitchBlock()
      requires Valid()
      modifies this
      ensures Valid() && blockOffset == Place(|old(dest)|) % BLOCK_SIZE
      ensures dest == old(dest) + ZeroBytes(Place(|old(dest)|) - |old(dest)|)
    {
      var leftover := BLOCK_SIZE - blockOffset;
      if leftover < HEADER_SIZE {
        if leftover > 0 {
          dest := dest + ZeroBytes(leftover);
        }
        blockOffset := 0;
      }
    }

    lemma OffsetAdvances(offset: nat, length: nat, n: nat)
      requires offset % BLOCK_SIZE == length % BLOCK_SIZE
      ensures (offset + n) % BLOCK_SIZE == (length + n) % BLOCK_SIZE
    {
    }

    /** EmitPhysicalRecord */
    method EmitPhysicalRecord(kind: byte, payload: seq<byte>)
      requires Valid() && blockOffset + HEADER_SIZE + |payload| <= BLOCK_SIZE
      modifies this
      ensures Valid()
      ensures dest == old(dest) + ChunkBytes(crc, Chunk(kind, payload))
    {
      OffsetAdvances(blockOffset, |dest|, HEADER_SIZE + |payload|);
      var header := Header(crc, kind, payload);
      Reassociate(dest, header, payload, []);
      dest := dest + header;
      dest := dest + payload;
      blockOffset := blockOffset + HEADER_SIZE + |payload|;
    }
  }
}
