/**
 Decoding what was encoded gives the message back (nanopb).
 */
module NanopbRoundTrip {
  import opened Common
  import opened Coding
  import opened NanopbFormat
  import opened NanopbDecode

  // ----- numbers -----

  lemma Pow2Values()
    ensures Pow2(7) == 0x80 && Pow2(14) == 0x4000 && Pow2(21) == 0x20_0000 && Pow2(28) == 0x1000_0000
  {
    Pow2Seven(0);
    Pow2Seven(7);
    Pow2Seven(14);
    Pow2Seven(21);
  }

  /** What the first byte of a number says. */
  lemma FirstByte(w: nat, tail: seq<byte>)
    ensures var s := Varint(w) + tail;
      && s != [] && s[0] as int % 128 == w % 128 && (s[0] >= 128 <==> w >= 128)
      && s[1..] == if w < 128 then tail else Varint(w / 128) + tail
  {
    if w < 128 {
      Tail(w as byte, [], tail);
      assert [] + tail == tail;
    } else {
      LowBits(w % 128);
      Tail((w % 128 + 128) as byte, Varint(w / 128), tail);
    }
  }

  lemma LowBits(b: int)
    requires 0 <= b < 128
    ensures (b + 128) % 128 == b
  {
  }

  lemma Tail(b: byte, rest: seq<byte>, tail: seq<byte>)
    ensures var s := [b] + rest + tail; s[0] == b && s[1..] == rest + tail
  {
  }

  /** The last of five bytes. */
  lemma {:induction false} FifthByte(w: nat, tail: seq<byte>, result: Word)
    requires w < 16 && result < 0x1000_0000
    ensures ReadVarint32From(Varint(w) + tail, 28, result) == Some((result + 0x1000_0000 * w, tail))
  {
    Pow2Values();
    FirstByte(w, tail);
    OrAdds(result, w, 28, 0x1000_0000);
  }

  lemma {:induction false} FourthByte(w: nat, tail: seq<byte>, result: Word)
    requires result < 0x20_0000 && result + 0x20_0000 * w < TWO_32
    ensures ReadVarint32From(Varint(w) + tail, 21, result) == Some((result + 0x20_0000 * w, tail))
  {
    Pow2Values();
    FirstByte(w, tail);
    OrAdds(result, w % 128, 21, 0x20_0000);
    if w >= 128 {
      FifthByte(w / 128, tail, result + 0x20_0000 * (w % 128));
    }
  }

  lemma {:induction false} ThirdByte(w: nat, tail: seq<byte>, result: Word)
    requires result < 0x4000 && result + 0x4000 * w < TWO_32
    ensures ReadVarint32From(Varint(w) + tail, 14, result) == Some((result + 0x4000 * w, tail))
  {
    Pow2Values();
    FirstByte(w, tail);
    OrAdds(result, w % 128, 14, 0x4000);
    if w >= 128 {
      FourthByte(w / 128, tail, result + 0x4000 * (w % 128));
    }
  }

  lemma {:induction false} SecondByte(w: nat, tail: seq<byte>, result: Word)
    requires result < 0x80 && result + 0x80 * w < TWO_32
    ensures ReadVarint32From(Varint(w) + tail, 7, result) == Some((result + 0x80 * w, tail))
  {
    Pow2Values();
    FirstByte(w, tail);
    OrAdds(result, w % 128, 7, 0x80);
    if w >= 128 {
      ThirdByte(w / 128, tail, result + 0x80 * (w % 128));
    }
  }

  lemma Varint32Back(v: nat, tail: seq<byte>)
    requires v < TWO_32
    ensures ReadVarint32(Varint(v) + tail) == Some((v, tail))
  {
    FirstByte(v, tail);
    if v >= 128 {
      SecondByte(v / 128, tail, v % 128);
    }
  }

  lemma SignedBack(n: int, bits: nat)
    requires KnownWidth(bits) && Signed(n, bits)
    ensures Signed(n, 64) && ToSigned(ToUnsigned64(n), if bits == 64 then 64 else 32) == n
  {
  }

  lemma ZigZagBack(n: int)
    requires Signed(n, 64)
    ensures UnZigZag(ZigZag(n)) == n && ZigZag(n) < TWO_64
  {
  }

  lemma ScalarBack(kind: Kind, v: Value, tail: seq<byte>)
    requires Packable(kind) && Holds(kind, v)
    ensures DecodeScalar(kind, EncodeValue(kind, v) + tail) == Some((v, tail))
  {
    match kind
    case Bool => Varint32Back(v.n, tail);
    case Int(bits) =>
      SignedBack(v.n, bits);
      Varint64RoundTrip(ToUnsigned64(v.n), tail);
    case UInt(bits) => Varint64RoundTrip(v.n, tail);
    case SInt(bits) =>
      ZigZagBack(v.n);
      Varint64RoundTrip(ZigZag(v.n), tail);
    case Fixed32 =>
      Fixed32RoundTrip(v.n);
      SameWord(EncodeFixed32(v.n) + tail);
      assert (EncodeFixed32(v.n) + tail)[..4] == EncodeFixed32(v.n) && (EncodeFixed32(v.n) + tail)[4..] == tail;
    case Fixed64 =>
      Fixed64RoundTrip(v.n, tail);
      assert (EncodeFixed64(v.n) + tail)[8..] == tail;
  }

  lemma DelimitedBack(bytes: seq<byte>, tail: seq<byte>)
    requires |bytes| < TWO_32
    ensures ReadDelimited(Prefixed(bytes) + tail) == Some((bytes, tail))
  {
    assert Prefixed(bytes) + tail == Varint(|bytes|) + (bytes + tail);
    Varint32Back(|bytes|, bytes + tail);
  }

  // ----- fields -----

  /** Field numbers are distinct and in the range of the specification, in submessages too. */
  predicate ValidKind(kind: Kind)
    decreases kind
  {
    kind.Message? ==> ValidFields(kind.fields)
  }

  predicate ValidField(f: Field)
    decreases f
  {
    0 < f.tag < 0x2000_0000 && ValidKind(f.kind)
  }

  predicate ValidFields(fields: seq<Field>)
    decreases fields
  {
    && (forall i :: 0 <= i < |fields| ==> ValidField(fields[i]))
    && (forall i, j :: 0 <= i < j < |fields| ==> fields[i].tag != fields[j].tag)
  }

  /** From wherever the search starts, it finds the field. */
  lemma {:induction false} FindsField(fields: seq<Field>, k: nat, pos: nat, count: nat)
    requires ValidFields(fields) && k < |fields| && pos < |fields| && count <= |fields|
    requires if k >= pos then k - pos < count else k + |fields| - pos < count
    ensures FindFrom(fields, fields[k].tag, pos, count) == Some(k)
    decreases count
  {
    if pos != k {
      FindsField(fields, k, if pos + 1 == |fields| then 0 else pos + 1, count - 1);
    }
  }

  /** One field of a message, whatever else comes. */
  lemma OneField(fields: seq<Field>, k: nat, wireType: nat, payload: seq<byte>, rest: seq<byte>,
                 slots: Slots, pos: nat, seen: set<nat>, slot: Slot)
    requires ValidFields(fields) && |slots| == |fields| && k < |fields| && pos < |fields| && wireType < 8
    requires DecodeStatic(fields[k], wireType, payload + rest, slots[k]) == Some((slot, rest))
    ensures DecodeLoop(fields, TagBytes(wireType, fields[k].tag) + payload + rest, slots, pos, seen)
         == DecodeLoop(fields, rest, slots[k := slot], k, Seen(fields, k, seen))
  {
    var tag := fields[k].tag;
    var s := TagBytes(wireType, tag) + payload + rest;
    assert s == Varint(8 * tag + wireType) + (payload + rest);
    Varint32Back(8 * tag + wireType, payload + rest);
    assert (8 * tag + wireType) / 8 == tag && (8 * tag + wireType) % 8 == wireType;
    FindsField(fields, k, pos, |fields|);
  }

  lemma {:induction false} PackedBack(kind: Kind, values: seq<Value>, before: seq<Value>, max: nat)
    requires Packable(kind) && |before| + |values| <= max
    requires forall j :: 0 <= j < |values| ==> Holds(kind, values[j])
    ensures DecodePacked(kind, EncodePacked(kind, values), before, max) == Some(before + values)
    decreases values
  {
    if values == [] {
      assert before + values == before;
    } else {
      ScalarBack(kind, values[0], EncodePacked(kind, values[1..]));
      ScalarNotEmpty(kind, values[0]);
      PackedBack(kind, values[1..], before + [values[0]], max);
      assert (before + [values[0]]) + values[1..] == before + values;
    }
  }

  lemma ScalarNotEmpty(kind: Kind, v: Value)
    requires Packable(kind) && Holds(kind, v)
    ensures EncodeValue(kind, v) != []
  {
  }

  /** A whole message: the slots before `k` are filled, the bytes of the others are to come. */
  function Partial(slots: Slots, k: nat): Slots
    requires k <= |slots|
  {
    slots[..k] + seq(|slots| - k, _ => Slot([]))
  }

  /** The required fields before `k` have been seen. */
  ghost predicate SeenUpTo(fields: seq<Field>, k: nat, seen: set<nat>)
    requires k <= |fields|
  {
    forall i :: 0 <= i < RequiredBefore(fields, k) && i < MAX_REQUIRED ==> i in seen
  }

  lemma {:induction false} ValueBack(kind: Kind, v: Value, tail: seq<byte>)
    requires ValidKind(kind) && Holds(kind, v) && |EncodeValue(kind, v)| < TWO_32
    ensures DecodeValue(kind, EncodeValue(kind, v) + tail, None) == Some((v, tail))
    decreases v
  {
    match kind
    case Bytes(_) => DelimitedBack(v.bytes, tail);
    case Text(_) => DelimitedBack(v.bytes, tail);
    case Message(fields) =>
      DelimitedBack(EncodeFrom(fields, v.slots, 0), tail);
      assert Partial(v.slots, 0) == Defaults(fields);
      MessageBack(fields, v.slots, 0, 0, {});
    case _ => ScalarBack(kind, v, tail);
  }

  lemma {:induction false} MessageBack(fields: seq<Field>, slots: Slots, k: nat, pos: nat, seen: set<nat>)
    requires ValidFields(fields) && k <= |slots| == |fields| && (fields != [] ==> pos < |fields|)
    requires HoldsAll(fields, slots, k) && |EncodeFrom(fields, slots, k)| < TWO_32 && SeenUpTo(fields, k, seen)
    ensures DecodeLoop(fields, EncodeFrom(fields, slots, k), Partial(slots, k), pos, seen) == Some(slots)
    decreases slots, |slots| - k, 1
  {
    if k == |slots| {
      assert Partial(slots, k) == slots;
    } else {
      var rest := EncodeFrom(fields, slots, k + 1);
      var pos', seen' := FieldBack(fields, slots, k, rest, pos, seen);
      MessageBack(fields, slots, k + 1, pos', seen');
    }
  }

  lemma {:induction false} FieldBack(fields: seq<Field>, slots: Slots, k: nat, rest: seq<byte>, pos: nat, seen: set<nat>)
    returns (pos': nat, seen': set<nat>)
    requires ValidFields(fields) && k < |slots| == |fields| && pos < |fields|
    requires HoldsField(fields[k], slots[k]) && |EncodeField(fields[k], slots[k])| < TWO_32 && SeenUpTo(fields, k, seen)
    ensures pos' < |fields| && SeenUpTo(fields, k + 1, seen')
    ensures DecodeLoop(fields, EncodeField(fields[k], slots[k]) + rest, Partial(slots, k), pos, seen)
         == DecodeLoop(fields, rest, Partial(slots, k + 1), pos', seen')
    decreases slots, |slots| - k, 0
  {
    var f, slot, start := fields[k], slots[k], Partial(slots, k);
    assert start[k] == Slot([]);
    assert Partial(slots, k + 1) == start[k := slot];
    if slot.values == [] {
      assert slot == Slot([]) && start[k := slot] == start;
      assert EncodeField(f, slot) + rest == rest;
      return pos, seen;
    }
    pos', seen' := k, Seen(fields, k, seen);
    if f.rule.Repeated? && Packable(f.kind) {
      var payload := EncodePacked(f.kind, slot.values);
      DelimitedBack(payload, rest);
      PackedBack(f.kind, slot.values, [], f.rule.max);
      assert [] + slot.values == slot.values;
      OneField(fields, k, WT_STRING, Prefixed(payload), rest, start, pos, seen, slot);
    } else {
      assert start[k := Slot(slot.values[..0])] == start;
      EachBack(fields, slot, k, 0, rest, start, pos, seen);
    }
  }

  lemma StaticBack(f: Field, slot: Slot, j: nat, bytes: seq<byte>, tail: seq<byte>)
    requires HoldsField(f, slot) && j < |slot.values| && !(f.rule.Repeated? && Packable(f.kind))
    requires DecodeValue(f.kind, bytes + tail, None) == Some((slot.values[j], tail))
    ensures DecodeStatic(f, WireType(f.kind), bytes + tail, Slot(slot.values[..j])) == Some((Slot(slot.values[..j + 1]), tail))
  {
    OneMoreValue(slot.values, j);
    if f.rule.Repeated? {
      RepeatedStatic(f, bytes + tail, slot.values[..j], slot.values[j], tail);
    } else {
      SingleStatic(f, bytes + tail, slot.values[j], tail);
    }
  }

  lemma OneMoreValue(values: seq<Value>, j: nat)
    requires j < |values|
    ensures values[..j] + [values[j]] == values[..j + 1] && |values[..j]| == j
    ensures j == 0 ==> values[..j] == [] && values[..j + 1] == [values[j]]
  {
  }

  lemma RepeatedStatic(f: Field, s: seq<byte>, before: seq<Value>, v: Value, tail: seq<byte>)
    requires f.rule.Repeated? && !Packable(f.kind) && |before| < f.rule.max
    requires DecodeValue(f.kind, s, None) == Some((v, tail))
    ensures DecodeStatic(f, WireType(f.kind), s, Slot(before)) == Some((Slot(before + [v]), tail))
  {
  }

  lemma SingleStatic(f: Field, s: seq<byte>, v: Value, tail: seq<byte>)
    requires !f.rule.Repeated? && DecodeValue(f.kind, s, None) == Some((v, tail))
    ensures DecodeStatic(f, WireType(f.kind), s, Slot([])) == Some((Slot([v]), tail))
  {
  }

  lemma EachBytes(a: seq<byte>, b: seq<byte>, c: seq<byte>, d: seq<byte>)
    ensures (a + b + c) + d == a + b + (c + d)
  {
  }

  /** The values of a field one by one, each with the tag in front. */
  lemma {:induction false} EachBack(fields: seq<Field>, slot: Slot, k: nat, j: nat, rest: seq<byte>,
                                    slots: Slots, pos: nat, seen: set<nat>)
    requires ValidFields(fields) && k < |slots| == |fields| && pos < |fields| && j < |slot.values|
    requires HoldsField(fields[k], slot) && |EncodeEach(fields[k], slot, j)| < TWO_32
    requires !(fields[k].rule.Repeated? && Packable(fields[k].kind))
    ensures DecodeLoop(fields, EncodeEach(fields[k], slot, j) + rest, slots[k := Slot(slot.values[..j])], pos, seen)
         == DecodeLoop(fields, rest, slots[k := slot], k, Seen(fields, k, seen))
    decreases slot, |slot.values| - j
  {
    var f, v := fields[k], slot.values[j];
    var bytes, more := EncodeValue(f.kind, v), EncodeEach(f, slot, j + 1);
    var before, after := slots[k := Slot(slot.values[..j])], slots[k := Slot(slot.values[..j + 1])];
    assert ValidField(f);
    ValueBack(f.kind, v, more + rest);
    StaticBack(f, slot, j, bytes, more + rest);
    assert before[k] == Slot(slot.values[..j]);
    OneField(fields, k, WireType(f.kind), bytes, more + rest, before, pos, seen, Slot(slot.values[..j + 1]));
    assert before[k := Slot(slot.values[..j + 1])] == after;
    EachBytes(TagBytes(WireType(f.kind), f.tag), bytes, more, rest);
    if j + 1 == |slot.values| {
      assert slot.values[..j + 1] == slot.values;
      assert more + rest == rest;
    } else {
      EachBack(fields, slot, k, j + 1, rest, slots, k, Seen(fields, k, seen));
    }
  }

  /** pb_decode gives back what pb_encode was given. */
  lemma RoundTrip(fields: seq<Field>, slots: Slots)
    requires ValidFields(fields) && HoldsAll(fields, slots, 0) && |EncodeFrom(fields, slots, 0)| < TWO_32
    ensures Decode(fields, EncodeFrom(fields, slots, 0)) == Some(slots)
  {
    assert Partial(slots, 0) == Defaults(fields);
    MessageBack(fields, slots, 0, 0, {});
  }
}
