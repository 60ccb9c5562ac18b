/**
 Decoding is indifferent to the order of fields (nanopb): fields may come in any order and more than
 once, with unknown ones in between. Repeated fields go on, and of a single one the last value stays.
 */
module NanopbOrder {
  import opened Common
  import opened Coding
  import opened NanopbFormat
  import opened NanopbDecode
  import opened NanopbRoundTrip

  /** A piece of a message: some values of the k-th field, or a field that the descriptor lacks. */
  datatype Part = Given(k: nat, slot: Slot) | Unknown(key: nat, payload: seq<byte>)

  /** Bytes that skipping takes whole. */
  ghost predicate Skipped(wireType: nat, payload: seq<byte>) {
    SkipField(wireType, payload) == Some([])
  }

  ghost predicate UnknownTag(fields: seq<Field>, t: nat) {
    0 < t < TWO_32 && forall i :: 0 <= i < |fields| ==> fields[i].tag != t / 8
  }

  ghost predicate GoodPart(fields: seq<Field>, part: Part) {
    match part
    case Given(k, slot) => k < |fields| && HoldsField(fields[k], slot) && |EncodeField(fields[k], slot)| < TWO_32
    case Unknown(t, payload) => UnknownTag(fields, t) && Skipped(t % 8, payload)
  }

  ghost predicate GoodParts(fields: seq<Field>, parts: seq<Part>) {
    forall i :: 0 <= i < |parts| ==> GoodPart(fields, parts[i])
  }

  ghost function PartBytes(fields: seq<Field>, part: Part): seq<byte>
    requires GoodPart(fields, part)
  {
    match part
    case Given(k, slot) => EncodeField(fields[k], slot)
    case Unknown(t, payload) => Varint(t) + payload
  }

  ghost function PartsBytes(fields: seq<Field>, parts: seq<Part>): seq<byte>
    requires GoodParts(fields, parts)
  {
    if parts == [] then [] else PartBytes(fields, parts[0]) + PartsBytes(fields, parts[1..])
  }

  /** What becomes of the values there when more come: arrays grow, a single value is replaced. */
  function Joined(f: Field, there: Slot, more: Slot): Slot {
    if f.rule.Repeated? then Slot(there.values + more.values) else if more.values == [] then there else more
  }

  /** Arrays have room, and a submessage that is not in an array is given once. */
  ghost predicate Joins(f: Field, there: Slot, more: Slot) {
    && (f.rule.Repeated? ==> |there.values| + |more.values| <= f.rule.max)
    && (!f.rule.Repeated? && f.kind.Message? && more.values != [] ==> there.values == [])
  }

  ghost function Step(fields: seq<Field>, part: Part, slots: Slots): Slots
    requires |slots| == |fields| && GoodPart(fields, part)
  {
    match part
    case Given(k, slot) => slots[k := Joined(fields[k], slots[k], slot)]
    case Unknown(_, _) => slots
  }

  /** The slots after all parts, one after the other. */
  ghost function After(fields: seq<Field>, parts: seq<Part>, slots: Slots): Slots
    requires |slots| == |fields| && GoodParts(fields, parts)
  {
    if parts == [] then slots else After(fields, parts[1..], Step(fields, parts[0], slots))
  }

  ghost predicate AllJoin(fields: seq<Field>, parts: seq<Part>, slots: Slots)
    requires |slots| == |fields| && GoodParts(fields, parts)
  {
    parts == [] || (
      && (parts[0].Given? ==> Joins(fields[parts[0].k], slots[parts[0].k], parts[0].slot))
      && AllJoin(fields, parts[1..], Step(fields, parts[0], slots)))
  }

  // ----- unknown fields -----

  lemma {:induction false} VarintSkipped(v: nat)
    ensures SkipVarint(Varint(v)) == Some([])
  {
    FirstByte(v, []);
    assert Varint(v) + [] == Varint(v);
    if v >= 128 {
      VarintSkipped(v / 128);
      assert Varint(v / 128) + [] == Varint(v / 128);
    }
  }

  /** Whatever a field of a known wire type is made of, it is skipped whole. */
  lemma WellFormedIsSkipped(v: nat, four: seq<byte>, eight: seq<byte>, bytes: seq<byte>)
    requires |four| == 4 && |eight| == 8 && |bytes| < TWO_32
    ensures Skipped(WT_VARINT, Varint(v)) && Skipped(WT_32BIT, four) && Skipped(WT_64BIT, eight)
    ensures Skipped(WT_STRING, Prefixed(bytes))
  {
    VarintSkipped(v);
    DelimitedBack(bytes, []);
    assert Prefixed(bytes) + [] == Prefixed(bytes);
  }

  lemma {:induction false} SkipVarintBefore(s: seq<byte>, rest: seq<byte>)
    requires SkipVarint(s) == Some([])
    ensures SkipVarint(s + rest) == Some(rest)
  {
    var z := s + rest;
    assert z[0] == s[0] && z[1..] == s[1..] + rest;
    if s[0] >= 128 {
      SkipVarintBefore(s[1..], rest);
    } else {
      assert s[1..] + rest == rest;
    }
  }

  lemma {:induction false} VarintFromBefore(s: seq<byte>, bitpos: nat, result: Word, rest: seq<byte>)
    requires ReadVarint32From(s, bitpos, result).Some?
    ensures var (n, tail) := ReadVarint32From(s, bitpos, result).value;
      ReadVarint32From(s + rest, bitpos, result) == Some((n, tail + rest))
  {
    var z := s + rest;
    assert z[0] == s[0] && z[1..] == s[1..] + rest;
    if s[0] >= 128 {
      var result' := if bitpos >= 32 then result else OrWord(result, Shifted(s[0] as int % 128, bitpos));
      VarintFromBefore(s[1..], (bitpos + 7) % 256, result', rest);
    }
  }

  lemma DelimitedBefore(s: seq<byte>, rest: seq<byte>)
    requires ReadDelimited(s).Some? && ReadDelimited(s).value.1 == []
    ensures ReadDelimited(s + rest).Some? && ReadDelimited(s + rest).value.1 == rest
  {
    var z := s + rest;
    assert z[0] == s[0] && z[1..] == s[1..] + rest;
    var (n, tail) := ReadVarint32(s).value;
    if s[0] >= 128 {
      VarintFromBefore(s[1..], 7, s[0] as int % 128, rest);
    }
    assert ReadVarint32(z) == Some((n, tail + rest));
    assert |tail| == n && (tail + rest)[n..] == rest;
  }

  lemma {:induction false} NoSuchField(fields: seq<Field>, tag: nat, pos: nat, count: nat)
    requires count <= |fields| && (fields != [] ==> pos < |fields|)
    requires forall i :: 0 <= i < |fields| ==> fields[i].tag != tag
    ensures FindFrom(fields, tag, pos, count) == None
    decreases count
  {
    if count != 0 {
      NoSuchField(fields, tag, if pos + 1 == |fields| then 0 else pos + 1, count - 1);
    }
  }

  lemma OneUnknown(fields: seq<Field>, t: Word, s: seq<byte>, payload: seq<byte>, rest: seq<byte>,
                   slots: Slots, pos: nat, seen: set<nat>)
    requires |slots| == |fields| && (fields != [] ==> pos < |fields|) && t != 0
    requires ReadVarint32(s) == Some((t, payload)) && SkipField(t % 8, payload) == Some(rest)
    requires FindFrom(fields, t / 8, pos, |fields|) == None
    ensures DecodeLoop(fields, s, slots, pos, seen) == DecodeLoop(fields, rest, slots, pos, seen)
  {
  }

  lemma SkippedBefore(wireType: nat, payload: seq<byte>, rest: seq<byte>)
    requires Skipped(wireType, payload)
    ensures SkipField(wireType, payload + rest) == Some(rest)
  {
    if wireType == WT_VARINT {
      SkipVarintBefore(payload, rest);
    } else if wireType == WT_STRING {
      DelimitedBefore(payload, rest);
    } else {
      assert wireType == WT_64BIT ==> (payload + rest)[8..] == rest;
      assert wireType == WT_32BIT ==> (payload + rest)[4..] == rest;
    }
  }

  lemma UnknownOver(fields: seq<Field>, t: nat, payload: seq<byte>, rest: seq<byte>, slots: Slots, pos: nat, seen: set<nat>)
    requires |slots| == |fields| && (fields != [] ==> pos < |fields|) && UnknownTag(fields, t) && Skipped(t % 8, payload)
    ensures DecodeLoop(fields, Varint(t) + payload + rest, slots, pos, seen) == DecodeLoop(fields, rest, slots, pos, seen)
  {
    SkippedBefore(t % 8, payload, rest);
    Varint32Back(t, payload + rest);
    NoSuchField(fields, t / 8, pos, |fields|);
    OneUnknown(fields, t, Varint(t) + (payload + rest), payload + rest, rest, slots, pos, seen);
    assert Varint(t) + payload + rest == Varint(t) + (payload + rest);
  }

  // ----- known fields -----

  lemma StaticOver(f: Field, there: Slot, v: Value, s: seq<byte>, tail: seq<byte>)
    requires !(f.rule.Repeated? && Packable(f.kind)) && Joins(f, there, Slot([v]))
    requires DecodeValue(f.kind, s, None) == Some((v, tail))
    ensures DecodeStatic(f, WireType(f.kind), s, there) == Some((Joined(f, there, Slot([v])), tail))
  {
    if !f.rule.Repeated? && there.values != [] {
      assert DecodeValue(f.kind, s, Some(there.values[0])) == DecodeValue(f.kind, s, None);
    }
  }

  lemma OneMoreJoined(f: Field, there: Slot, slot: Slot, j: nat)
    requires HoldsField(f, slot) && j < |slot.values| && Joins(f, there, slot)
    ensures var before := Joined(f, there, Slot(slot.values[..j]));
      Joins(f, before, Slot([slot.values[j]])) && Joined(f, before, Slot([slot.values[j]])) == Joined(f, there, Slot(slot.values[..j + 1]))
  {
    var values := slot.values;
    assert values[..j] + [values[j]] == values[..j + 1];
    assert there.values + values[..j] + [values[j]] == there.values + values[..j + 1];
    if !f.rule.Repeated? {
      assert values[..j] == [] && values[..j + 1] == [values[j]];
    }
  }

  lemma {:induction false} EachOver(fields: seq<Field>, slot: Slot, k: nat, j: nat, rest: seq<byte>,
                                    slots: Slots, pos: nat, seen: set<nat>)
    requires ValidFields(fields) && k < |slots| == |fields| && pos < |fields| && j < |slot.values|
    requires HoldsField(fields[k], slot) && |EncodeEach(fields[k], slot, j)| < TWO_32
    requires !(fields[k].rule.Repeated? && Packable(fields[k].kind)) && Joins(fields[k], slots[k], slot)
    ensures DecodeLoop(fields, EncodeEach(fields[k], slot, j) + rest,
                       slots[k := Joined(fields[k], slots[k], Slot(slot.values[..j]))], pos, seen)
         == DecodeLoop(fields, rest, slots[k := Joined(fields[k], slots[k], slot)], k, Seen(fields, k, seen))
    decreases |slot.values| - j
  {
    var f, v := fields[k], slot.values[j];
    var bytes, more := EncodeValue(f.kind, v), EncodeEach(f, slot, j + 1);
    var before, after := Joined(f, slots[k], Slot(slot.values[..j])), Joined(f, slots[k], Slot(slot.values[..j + 1]));
    assert ValidField(f);
    ValueBack(f.kind, v, more + rest);
    OneMoreJoined(f, slots[k], slot, j);
    StaticOver(f, before, v, bytes + (more + rest), more + rest);
    OneField(fields, k, WireType(f.kind), bytes, more + rest, slots[k := before], pos, seen, after);
    assert slots[k := before][k := after] == slots[k := after];
    EachBytes(TagBytes(WireType(f.kind), f.tag), bytes, more, rest);
    if j + 1 == |slot.values| {
      assert slot.values[..j + 1] == slot.values;
      assert more + rest == rest;
    } else {
      EachOver(fields, slot, k, j + 1, rest, slots, k, Seen(fields, k, seen));
    }
  }

  ghost predicate NowSeen(fields: seq<Field>, k: nat, seen: set<nat>)
    requires k < |fields|
  {
    fields[k].rule.Required? && RequiredBefore(fields, k) < MAX_REQUIRED ==> RequiredBefore(fields, k) in seen
  }

  lemma FieldOver(fields: seq<Field>, slot: Slot, k: nat, rest: seq<byte>, slots: Slots, pos: nat, seen: set<nat>)
    returns (pos': nat, seen': set<nat>)
    requires ValidFields(fields) && k < |slots| == |fields| && pos < |fields|
    requires HoldsField(fields[k], slot) && |EncodeField(fields[k], slot)| < TWO_32 && Joins(fields[k], slots[k], slot)
    ensures pos' < |fields| && seen <= seen' && NowSeen(fields, k, seen')
    ensures DecodeLoop(fields, EncodeField(fields[k], slot) + rest, slots, pos, seen)
         == DecodeLoop(fields, rest, slots[k := Joined(fields[k], slots[k], slot)], pos', seen')
  {
    var f := fields[k];
    if slot.values == [] {
      assert Joined(f, slots[k], slot) == slots[k] by {
        assert slots[k].values + [] == slots[k].values;
      }
      assert slots[k := slots[k]] == slots && EncodeField(f, slot) + rest == rest;
      return pos, seen;
    }
    pos', seen' := k, Seen(fields, k, seen);
    if f.rule.Repeated? && Packable(f.kind) {
      var payload := EncodePacked(f.kind, slot.values);
      DelimitedBack(payload, rest);
      PackedBack(f.kind, slot.values, slots[k].values, f.rule.max);
      OneField(fields, k, WT_STRING, Prefixed(payload), rest, slots, pos, seen, Joined(f, slots[k], slot));
    } else {
      NothingJoined(f, slots[k], slot);
      assert slots[k := slots[k]] == slots;
      EachOver(fields, slot, k, 0, rest, slots, pos, seen);
    }
  }

  lemma NothingJoined(f: Field, there: Slot, slot: Slot)
    ensures Joined(f, there, Slot(slot.values[..0])) == there
  {
    assert slot.values[..0] == [] && there.values + [] == there.values;
  }

  // ----- whole messages -----

  ghost predicate GivenSeen(fields: seq<Field>, parts: seq<Part>, seen: set<nat>) {
    forall i :: 0 <= i < |parts| && parts[i].Given? && parts[i].k < |fields| ==> NowSeen(fields, parts[i].k, seen)
  }

  lemma {:induction false} PartsOver(fields: seq<Field>, parts: seq<Part>, slots: Slots, pos: nat, seen: set<nat>)
    returns (seen': set<nat>)
    requires ValidFields(fields) && |slots| == |fields| && (fields != [] ==> pos < |fields|)
    requires GoodParts(fields, parts) && AllJoin(fields, parts, slots)
    ensures seen <= seen' && GivenSeen(fields, parts, seen')
    ensures DecodeLoop(fields, PartsBytes(fields, parts), slots, pos, seen) == Finished(fields, After(fields, parts, slots), seen')
    decreases |parts|
  {
    if parts == [] {
      return seen;
    }
    var part, rest := parts[0], PartsBytes(fields, parts[1..]);
    assert GoodPart(fields, part);
    var pos1, seen1 := pos, seen;
    match part {
      case Given(k, slot) => pos1, seen1 := FieldOver(fields, slot, k, rest, slots, pos, seen);
      case Unknown(t, payload) => UnknownOver(fields, t, payload, rest, slots, pos, seen);
    }
    seen' := PartsOver(fields, parts[1..], Step(fields, part, slots), pos1, seen1);
    SeenBySome(fields, parts, seen1, seen');
  }

  lemma SeenBySome(fields: seq<Field>, parts: seq<Part>, first: set<nat>, seen: set<nat>)
    requires parts != [] && first <= seen && GivenSeen(fields, parts[1..], seen)
    requires parts[0].Given? && parts[0].k < |fields| ==> NowSeen(fields, parts[0].k, first)
    ensures GivenSeen(fields, parts, seen)
  {
    forall i | 0 <= i < |parts| && parts[i].Given? && parts[i].k < |fields| ensures NowSeen(fields, parts[i].k, seen) {
      if i > 0 {
        assert parts[i] == parts[1..][i - 1];
      }
    }
  }

  ghost predicate IsGiven(parts: seq<Part>, k: nat) {
    exists i :: 0 <= i < |parts| && parts[i].Given? && parts[i].k == k
  }

  /** The i-th required field. */
  lemma {:induction false} RequiredAt(fields: seq<Field>, n: nat, i: nat) returns (k: nat)
    requires n <= |fields| && i < RequiredBefore(fields, n)
    ensures k < n && fields[k].rule.Required? && RequiredBefore(fields, k) == i
  {
    if i < RequiredBefore(fields, n - 1) {
      k := RequiredAt(fields, n - 1, i);
    } else {
      k := n - 1;
    }
  }

  /** Parts in any order, with every required field among them, decode to what they add up to. */
  lemma PartsDecode(fields: seq<Field>, parts: seq<Part>)
    requires ValidFields(fields) && GoodParts(fields, parts) && AllJoin(fields, parts, Defaults(fields))
    requires forall k :: 0 <= k < |fields| && fields[k].rule.Required? ==> IsGiven(parts, k)
    ensures Decode(fields, PartsBytes(fields, parts)) == Some(After(fields, parts, Defaults(fields)))
  {
    var seen := PartsOver(fields, parts, Defaults(fields), 0, {});
    forall i | 0 <= i < RequiredBefore(fields, |fields|) && i < MAX_REQUIRED ensures i in seen {
      var k := RequiredAt(fields, |fields|, i);
      assert IsGiven(parts, k);
      var p :| 0 <= p < |parts| && parts[p].Given? && parts[p].k == k;
      assert NowSeen(fields, parts[p].k, seen);
    }
  }

  /** The parts give each field at most once, with these values, and those that have any. */
  ghost predicate GivesOnce(slots: Slots, parts: seq<Part>, given: set<nat>)
    decreases |parts|
  {
    if parts == [] then forall k :: 0 <= k < |slots| && k !in given ==> slots[k].values == [] else
      if parts[0].Unknown? then GivesOnce(slots, parts[1..], given) else
        && parts[0].k !in given && parts[0].k < |slots| && parts[0].slot == slots[parts[0].k]
        && GivesOnce(slots, parts[1..], given + {parts[0].k})
  }

  ghost predicate Filled(slots: Slots, start: Slots, given: set<nat>) {
    |start| == |slots| && forall k :: 0 <= k < |slots| ==> start[k] == if k in given then slots[k] else Slot([])
  }

  lemma {:induction false} GivenOnce(fields: seq<Field>, slots: Slots, parts: seq<Part>, start: Slots, given: set<nat>)
    requires |slots| == |fields| && GoodParts(fields, parts) && Filled(slots, start, given) && GivesOnce(slots, parts, given)
    ensures AllJoin(fields, parts, start) && After(fields, parts, start) == slots
    decreases |parts|
  {
    if parts == [] {
      forall k | 0 <= k < |slots| ensures start[k] == slots[k] {
        assert k !in given ==> slots[k] == Slot([]);
      }
    } else if parts[0].Unknown? {
      GivenOnce(fields, slots, parts[1..], start, given);
    } else {
      var k := parts[0].k;
      assert GoodPart(fields, parts[0]) && start[k] == Slot([]);
      assert Joined(fields[k], start[k], slots[k]) == slots[k] by {
        assert [] + slots[k].values == slots[k].values;
      }
      GivenOnce(fields, slots, parts[1..], start[k := slots[k]], given + {k});
    }
  }

  lemma {:induction false} GivenSomewhere(slots: Slots, parts: seq<Part>, given: set<nat>, k: nat)
    requires GivesOnce(slots, parts, given) && k < |slots| && slots[k].values != [] && k !in given
    ensures IsGiven(parts, k)
    decreases |parts|
  {
    if parts[0].Given? && parts[0].k == k {
    } else {
      GivenSomewhere(slots, parts[1..], if parts[0].Unknown? then given else given + {parts[0].k}, k);
      var i :| 0 <= i < |parts[1..]| && parts[1..][i].Given? && parts[1..][i].k == k;
      assert parts[i + 1] == parts[1..][i];
    }
  }

  /** A message whose fields come in any order, with unknown ones anywhere, decodes to the message. */
  lemma AnyOrder(fields: seq<Field>, slots: Slots, parts: seq<Part>)
    requires ValidFields(fields) && |slots| == |fields| && GoodParts(fields, parts)
    requires forall k :: 0 <= k < |slots| ==> HoldsField(fields[k], slots[k])
    requires GivesOnce(slots, parts, {})
    ensures Decode(fields, PartsBytes(fields, parts)) == Some(slots)
  {
    GivenOnce(fields, slots, parts, Defaults(fields), {});
    forall k | 0 <= k < |fields| && fields[k].rule.Required? ensures IsGiven(parts, k) {
      GivenSomewhere(slots, parts, {}, k);
    }
    PartsDecode(fields, parts);
  }
}
