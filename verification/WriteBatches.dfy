/**
 Write batches (db/write_batch.cc): a header with a sequence number and a count, then the operations.
 */
module WriteBatches {
  import opened Common
  import opened Coding

  const HEADER := 12
  const TYPE_DELETION: byte := 0
  const TYPE_VALUE: byte := 1

  datatype Op = Put(key: seq<byte>, value: seq<byte>) | Delete(key: seq<byte>)

  /** A call of MemTable::Add. */
  datatype Add = Add(sequence: nat, op: Op)

  /** Strings whose length fits the 32 bits that are written for it. */
  predicate SmallStrings(op: Op) {
    |op.key| < 0x1_0000_0000 && (op.Put? ==> |op.value| < 0x1_0000_0000)
  }

  function EncodeOp(op: Op): seq<byte> {
    match op
    case Put(key, value) => [TYPE_VALUE] + Prefixed(key) + Prefixed(value)
    case Delete(key) => [TYPE_DELETION] + Prefixed(key)
  }

  function EncodeOps(ops: seq<Op>): seq<byte> {
    if ops == [] then [] else EncodeOp(ops[0]) + EncodeOps(ops[1..])
  }

  function Encode(sequence: Long, ops: seq<Op>): seq<byte>
    requires |ops| < 0x8000_0000
  {
    EncodeFixed64(sequence) + EncodeFixed32(|ops|) + EncodeOps(ops)
  }

  function Count(rep: seq<byte>): Word
    requires |rep| >= HEADER
  {
    DecodeFixed32(rep[8..])
  }

  function Sequence(rep: seq<byte>): Long
    requires |rep| >= HEADER
  {
    DecodeFixed64(rep)
  }

  lemma HeaderRoundTrip(sequence: Long, count: Word, tail: seq<byte>)
    ensures var rep := EncodeFixed64(sequence) + EncodeFixed32(count) + tail;
      Sequence(rep) == sequence && Count(rep) == count && rep[HEADER..] == tail
  {
    HeaderParts(EncodeFixed64(sequence), EncodeFixed32(count), tail);
    Fixed64RoundTrip(sequence, EncodeFixed32(count) + tail);
    Fixed32RoundTrip(count);
  }

  lemma HeaderParts(first: seq<byte>, second: seq<byte>, tail: seq<byte>)
    requires |first| == 8 && |second| == 4
    ensures var rep := first + second + tail;
      rep == first + (second + tail) && rep[..8] == first && rep[8..] == second + tail
      && rep[HEADER..] == tail && DecodeFixed32(rep[8..]) == DecodeFixed32(second)
  {
  }

  /** The parts of an encoded batch, and what it becomes with another number or count. */
  lemma HeaderFields(sequence: Long, count: Word, tail: seq<byte>, first: seq<byte>, second: seq<byte>)
    ensures var rep := EncodeFixed64(sequence) + EncodeFixed32(count) + tail;
      && Sequence(rep) == sequence && Count(rep) == count && rep[HEADER..] == tail
      && rep[..8] + second + rep[HEADER..] == EncodeFixed64(sequence) + second + tail
      && first + rep[8..] == first + EncodeFixed32(count) + tail
  {
    HeaderRoundTrip(sequence, count, tail);
    HeaderParts(EncodeFixed64(sequence), EncodeFixed32(count), tail);
    Associative(first, EncodeFixed32(count), tail, []);
  }

  lemma Associative(a: seq<byte>, b: seq<byte>, c: seq<byte>, d: seq<byte>)
    ensures a + b + c + d == a + (b + c + d) && a + b + c == a + (b + c)
  {
  }

  lemma {:induction false} EncodeOpsConcat(x: seq<Op>, y: seq<Op>)
    ensures EncodeOps(x + y) == EncodeOps(x) + EncodeOps(y)
  {
    if x == [] {
      assert x + y == y;
    } else {
      var z := x + y;
      assert z[0] == x[0];
      assert z[1..] == x[1..] + y;
      EncodeOpsConcat(x[1..], y);
    }
  }

  lemma EncodeLonger(sequence: Long, ops: seq<Op>, more: seq<Op>)
    requires |ops| + |more| < 0x8000_0000
    ensures Encode(sequence, ops + more)
         == EncodeFixed64(sequence) + EncodeFixed32(|ops| + |more|) + EncodeOps(ops) + EncodeOps(more)
  {
    EncodeOpsConcat(ops, more);
    Associative(EncodeFixed64(sequence) + EncodeFixed32(|ops| + |more|), EncodeOps(ops), EncodeOps(more), []);
  }

  lemma AppendedBytes(sequence: Long, ops: seq<Op>, sequence': Long, more: seq<Op>)
    requires |ops| + |more| < 0x8000_0000
    ensures var rep, source := Encode(sequence, ops), Encode(sequence', more);
      && Count(rep) + Count(source) == |ops| + |more|
      && rep[..8] + EncodeFixed32(|ops| + |more|) + rep[HEADER..] + source[HEADER..] == Encode(sequence, ops + more)
  {
    HeaderFields(sequence', |more|, EncodeOps(more), [], []);
    HeaderFields(sequence, |ops|, EncodeOps(ops), EncodeFixed64(sequence), EncodeFixed32(|ops| + |more|));
    EncodeLonger(sequence, ops, more);
  }

  lemma EncodeOpsOne(op: Op)
    ensures EncodeOps([op]) == EncodeOp(op)
  {
    assert [op][1..] == [];
  }

  class WriteBatch {
    var rep: seq<byte>
    ghost var sequence: Long
    ghost var ops: seq<Op>

    ghost predicate Valid()
      reads this
    {
      |ops| < 0x8000_0000 && rep == Encode(sequence, ops)
    }

    /** Clear */
    constructor ()
      ensures Valid() && sequence == 0 && ops == []
    {
      rep, sequence, ops := seq(HEADER, _ => 0), 0, [];
    }

    method SetCount(n: Word)
      requires |rep| >= HEADER
      modifies this`rep
      ensures rep == old(rep)[..8] + EncodeFixed32(n) + old(rep)[HEADER..]
    {
      rep := rep[..8] + EncodeFixed32(n) + rep[HEADER..];
    }

    method SetSequence(n: Long)
      requires Valid()
      modifies this
      ensures Valid() && sequence == n && ops == old(ops)
    {
      HeaderFields(sequence, |ops|, EncodeOps(ops), EncodeFixed64(n), EncodeFixed32(|ops|));
      rep := EncodeFixed64(n) + rep[8..];
      sequence := n;
    }

    /** Put and Delete: one more operation at the end, one more in the count. */
    method Push(op: Op)
      requires Valid() && |ops| + 1 < 0x8000_0000
      modifies this
      ensures Valid() && sequence == old(sequence) && ops == old(ops) + [op]
    {
      var count := Count(rep) + 1;
      HeaderFields(sequence, |ops|, EncodeOps(ops), EncodeFixed64(sequence), EncodeFixed32(|ops| + 1));
      EncodeLonger(sequence, ops, [op]);
      EncodeOpsOne(op);
      SetCount(count);
      ghost var before := rep;
      match op {
        case Put(key, value) =>
          rep := rep + [TYPE_VALUE];
          rep := rep + Prefixed(key);
          rep := rep + Prefixed(value);
          Associative(before, [TYPE_VALUE], Prefixed(key), Prefixed(value));
        case Delete(key) =>
          rep := rep + [TYPE_DELETION];
          rep := rep + Prefixed(key);
          Associative(before, [TYPE_DELETION], Prefixed(key), []);
      }
      ops := ops + [op];
    }

    /** Append: the operations of another batch after those of this one. */
    method Append(source: WriteBatch)
      requires Valid() && source.Valid() && |ops| + |source.ops| < 0x8000_0000
      modifies this
      ensures Valid() && sequence == old(sequence) && ops == old(ops) + old(source.ops)
    {
      ghost var all := ops + source.ops;
      AppendedBytes(sequence, ops, source.sequence, source.ops);
      var count, tail := Count(rep) + Count(source.rep), source.rep[HEADER..];
      SetCount(count);
      rep := rep + tail;
      assert rep == Encode(sequence, all);
      ops := all;
    }
  }

  // ----- reading a batch back -----

  function ReadOp(input: seq<byte>): (r: Option<(Op, seq<byte>)>)
    requires input != []
    ensures r.Some? ==> |r.value.1| < |input|
  {
    if input[0] == TYPE_VALUE then
      match GetPrefixed(input[1..])
      case None => None
      case Some((key, rest)) =>
        match GetPrefixed(rest)
        case None => None
        case Some((value, rest)) => Some((Put(key, value), rest))
    else if input[0] == TYPE_DELETION then
      match GetPrefixed(input[1..])
      case None => None
      case Some((key, rest)) => Some((Delete(key), rest))
    else
      None
  }

  /** `before`, then the operations up to the first malformed one, and whether there is none. */
  function ReadOps(input: seq<byte>, before: seq<Op>): (seq<Op>, bool)
    decreases |input|
  {
    if input == [] then (before, true) else
      match ReadOp(input)
      case None => (before, false)
      case Some((op, rest)) => ReadOps(rest, before + [op])
  }

  lemma OpRoundTrip(op: Op, tail: seq<byte>)
    requires SmallStrings(op)
    ensures ReadOp(EncodeOp(op) + tail) == Some((op, tail))
  {
    match op
    case Put(key, value) =>
      PrefixedRoundTrip(key, Prefixed(value) + tail);
      PrefixedRoundTrip(value, tail);
      AfterTag(TYPE_VALUE, Prefixed(key), Prefixed(value), tail);
    case Delete(key) =>
      PrefixedRoundTrip(key, tail);
      AfterTag(TYPE_DELETION, Prefixed(key), [], tail);
      assert [] + tail == tail;
  }

  lemma AfterTag(tag: byte, a: seq<byte>, b: seq<byte>, tail: seq<byte>)
    ensures var input := [tag] + a + b + tail;
      input[0] == tag && input[1..] == a + (b + tail) && input == [tag] + a + (b + tail)
  {
  }

  lemma FirstOp(ops: seq<Op>)
    requires ops != [] && SmallStrings(ops[0])
    ensures EncodeOps(ops) != [] && ReadOp(EncodeOps(ops)) == Some((ops[0], EncodeOps(ops[1..])))
  {
    OpRoundTrip(ops[0], EncodeOps(ops[1..]));
  }

  lemma ReadOpsNext(input: seq<byte>, op: Op, rest: seq<byte>, before: seq<Op>)
    requires input != [] && ReadOp(input) == Some((op, rest))
    ensures ReadOps(input, before) == ReadOps(rest, before + [op])
  {
  }

  predicate AllSmall(ops: seq<Op>) {
    ops == [] || (SmallStrings(ops[0]) && AllSmall(ops[1..]))
  }

  lemma {:induction false} OpsRoundTrip(ops: seq<Op>, before: seq<Op>)
    requires AllSmall(ops)
    ensures ReadOps(EncodeOps(ops), before) == (before + ops, true)
  {
    if ops == [] {
      assert before + ops == before;
    } else {
      FirstOp(ops);
      ReadOpsNext(EncodeOps(ops), ops[0], EncodeOps(ops[1..]), before);
      OpsRoundTrip(ops[1..], before + [ops[0]]);
      assert before + ops == (before + [ops[0]]) + ops[1..];
    }
  }

  /** The operations with consecutive sequence numbers. */
  function Adds(sequence: nat, ops: seq<Op>): (r: seq<Add>)
    ensures |r| == |ops|
  {
    if ops == [] then [] else
      Adds(sequence, ops[..|ops| - 1]) + [Add(sequence + |ops| - 1, ops[|ops| - 1])]
  }

  lemma {:induction false} AddsAt(base: nat, ops: seq<Op>)
    ensures forall i :: 0 <= i < |ops| ==> Adds(base, ops)[i] == Add(base + i, ops[i])
  {
    if ops != [] {
      AddsAt(base, ops[..|ops| - 1]);
    }
  }

  lemma {:induction false} AddsConcat(base: nat, x: seq<Op>, y: seq<Op>)
    ensures Adds(base, x + y) == Adds(base, x) + Adds(base + |x|, y)
  {
    if y == [] {
      assert x + y == x;
    } else {
      var z, front := x + y, y[..|y| - 1];
      assert z[..|z| - 1] == x + front;
      AddsConcat(base, x, front);
    }
  }

  lemma AddsOneMore(mem: seq<Add>, base: nat, ops: seq<Op>, op: Op)
    ensures mem + Adds(base, ops + [op]) == mem + Adds(base, ops) + [Add(base + |ops|, op)]
  {
    assert (ops + [op])[..|ops|] == ops;
  }

  /** Iterate with a MemTableInserter: what was read before an error stays inserted. */
  method InsertInto(rep: seq<byte>, mem: seq<Add>) returns (ok: bool, mem': seq<Add>)
    ensures |rep| < HEADER ==> !ok && mem' == mem
    ensures |rep| >= HEADER ==>
      var (ops, parsed) := ReadOps(rep[HEADER..], []);
      mem' == mem + Adds(Sequence(rep), ops) && ok == (parsed && |ops| == Count(rep))
  {
    if |rep| < HEADER {
      return false, mem;
    }
    var found;
    ok, found, mem' := InsertAll(rep[HEADER..], Sequence(rep), mem);
    ok := ok && found == Count(rep);
  }

  method InsertAll(bytes: seq<byte>, base: nat, mem: seq<Add>) returns (ok: bool, found: nat, mem': seq<Add>)
    ensures ok == ReadOps(bytes, []).1
    ensures mem' == mem + Adds(base, ReadOps(bytes, []).0)
    ensures ok ==> found == |ReadOps(bytes, []).0|
  {
    var input, sequence := bytes, base;
    ghost var ops: seq<Op> := [];
    mem', found := mem, 0;
    while input != []
      invariant found == |ops| && sequence == base + found
      invariant mem' == mem + Adds(base, ops)
      invariant ReadOps(bytes, []) == ReadOps(input, ops)
      decreases |input|
    {
      found := found + 1;
      match ReadOp(input) {
        case None =>
          return false, found, mem';
        case Some((op, rest)) =>
          AddsOneMore(mem, base, ops, op);
          mem' := mem' + [Add(sequence, op)];
          input, sequence, ops := rest, sequence + 1, ops + [op];
      }
    }
    ok := true;
  }
}
