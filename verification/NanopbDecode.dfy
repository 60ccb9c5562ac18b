/**
 What pb_decode.c reads (nanopb): the bytes of a message into the slots of its fields. Fields may come in
 any order and more than once, and unknown ones are skipped (see NanopbOrder).
 */
module NanopbDecode {
  import opened Common
  import opened Coding
  import opened NanopbFormat

  type Slots = seq<Slot>

  // ----- numbers -----

  function Pow2(n: nat): (p: nat)
    ensures p >= 1
  {
    if n == 0 then 1 else 2 * Pow2(n - 1)
  }

  lemma Pow2Seven(n: nat)
    ensures Pow2(n + 7) == 128 * Pow2(n)
  {
    assert Pow2(n + 1) == 2 * Pow2(n);
    assert Pow2(n + 2) == 2 * Pow2(n + 1);
    assert Pow2(n + 3) == 2 * Pow2(n + 2);
    assert Pow2(n + 4) == 2 * Pow2(n + 3);
    assert Pow2(n + 5) == 2 * Pow2(n + 4);
    assert Pow2(n + 6) == 2 * Pow2(n + 5);
  }

  /** The bits of either number: `|` in C. */
  function BitOr(a: nat, b: nat): nat {
    if a == 0 then b else 2 * BitOr(a / 2, b / 2) + if a % 2 == 1 || b % 2 == 1 then 1 else 0
  }

  lemma {:induction false} BitOrBound(a: nat, b: nat, n: nat)
    requires a < Pow2(n) && b < Pow2(n)
    ensures BitOr(a, b) < Pow2(n)
  {
    if a != 0 {
      BitOrBound(a / 2, b / 2, n - 1);
    }
  }

  /** Bits above those of `a` are added. */
  lemma {:induction false} BitOrApart(a: nat, b: nat, n: nat)
    requires a < Pow2(n)
    ensures BitOr(a, b * Pow2(n)) == a + b * Pow2(n)
  {
    if n > 0 && a != 0 {
      var high := b * Pow2(n - 1);
      assert b * Pow2(n) == 2 * high;
      BitOrApart(a / 2, b, n - 1);
    }
  }

  lemma Pow2Word()
    ensures Pow2(32) == TWO_32
  {
    Pow2Seven(0);
    Pow2Seven(7);
    Pow2Seven(14);
    Pow2Seven(21);
  }

  lemma BitOrWord(a: Word, b: Word)
    ensures BitOr(a, b) < TWO_32
  {
    Pow2Word();
    BitOrBound(a, b, 32);
  }

  /** `(uint32_t)low << bitpos` */
  function Shifted(low: nat, bitpos: nat): Word {
    low * Pow2(bitpos) % TWO_32
  }

  function OrWord(a: Word, b: Word): Word {
    BitOrWord(a, b);
    BitOr(a, b)
  }

  lemma OrAdds(result: Word, low: nat, bitpos: nat, weight: nat)
    requires weight == Pow2(bitpos) && result < weight && low * weight < TWO_32
    ensures OrWord(result, Shifted(low, bitpos)) == result + low * weight
  {
    BitOrApart(result, low, bitpos);
    SmallRemainder(low * weight);
  }

  lemma SmallRemainder(n: nat)
    requires n < TWO_32
    ensures n % TWO_32 == n
  {
  }

  /** The loop of pb_decode_varint32: what does not fit 32 bits must be zeros or the sign. */
  function ReadVarint32From(s: seq<byte>, bitpos: nat, result: Word): (r: Option<(Word, seq<byte>)>)
    ensures r.Some? ==> |r.value.1| < |s|
  {
    if s == [] then None else
      var low := s[0] as int % 128;
      if bitpos >= 32 && low != 0 && (result < 0x8000_0000 || s[0] != (if bitpos < 63 then 0xFF else 0x01)) then None
      else
        var result' := if bitpos >= 32 then result else OrWord(result, Shifted(low, bitpos));
        var bitpos' := (bitpos + 7) % 256;
        if s[0] >= 128 then ReadVarint32From(s[1..], bitpos', result')
        else if bitpos' == 35 && low >= 16 then None
        else Some((result', s[1..]))
  }

  function ReadVarint32(s: seq<byte>): (r: Option<(Word, seq<byte>)>)
    ensures r.Some? ==> |r.value.1| < |s|
  {
    if s == [] then None
    else if s[0] < 128 then Some((s[0] as Word, s[1..]))
    else ReadVarint32From(s[1..], 7, s[0] as int % 128)
  }

  /** The conversion of 64 unsigned bits to a signed number. */
  function ToSigned(n: nat, bits: nat): int
    requires KnownWidth(bits)
  {
    var m := n % (2 * Half(bits));
    if m < Half(bits) then m else m - 2 * Half(bits)
  }

  function UnZigZag(n: nat): int {
    if n % 2 == 1 then -(n / 2) - 1 else n / 2
  }

  /** pb_dec_bool, pb_dec_varint, pb_dec_uvarint, pb_dec_svarint, pb_dec_fixed32 and pb_dec_fixed64. */
  function DecodeScalar(kind: Kind, s: seq<byte>): (r: Option<(Value, seq<byte>)>)
    requires Packable(kind)
    ensures r.Some? ==> |r.value.1| < |s|
  {
    match kind
    case Bool =>
      (match ReadVarint32(s)
       case None => None
       case Some((v, rest)) => Some((Number(if v != 0 then 1 else 0), rest)))
    case Int(bits) =>
      (match GetVarint64(s)
       case None => None
       case Some((v, rest)) =>
         var n := ToSigned(v, if bits == 64 then 64 else 32);
         if KnownWidth(bits) && Signed(n, bits) then Some((Number(n), rest)) else None)
    case UInt(bits) =>
      (match GetVarint64(s)
       case None => None
       case Some((v, rest)) => if KnownWidth(bits) && Unsigned(v, bits) then Some((Number(v), rest)) else None)
    case SInt(bits) =>
      (match GetVarint64(s)
       case None => None
       case Some((v, rest)) =>
         var n := UnZigZag(v);
         if KnownWidth(bits) && Signed(n, bits) then Some((Number(n), rest)) else None)
    case Fixed32 => if |s| < 4 then None else Some((Number(DecodeFixed32(s)), s[4..]))
    case Fixed64 => if |s| < 8 then None else Some((Number(DecodeFixed64(s)), s[8..]))
  }

  /** A length and that many bytes: pb_make_string_substream, pb_dec_bytes, pb_dec_string. */
  function ReadDelimited(s: seq<byte>): (r: Option<(seq<byte>, seq<byte>)>)
    ensures r.Some? ==> |r.value.0| + |r.value.1| < |s|
  {
    match ReadVarint32(s)
    case None => None
    case Some((n, rest)) => if |rest| < n then None else Some((rest[..n], rest[n..]))
  }

  // ----- skipping -----

  /** pb_skip_field */
  function SkipVarint(s: seq<byte>): (r: Option<seq<byte>>)
    ensures r.Some? ==> |r.value| < |s|
  {
    if s == [] then None else if s[0] >= 128 then SkipVarint(s[1..]) else Some(s[1..])
  }

  function SkipField(wireType: nat, s: seq<byte>): (r: Option<seq<byte>>)
    ensures r.Some? ==> |r.value| < |s|
  {
    if wireType == WT_VARINT then SkipVarint(s)
    else if wireType == WT_64BIT then if |s| < 8 then None else Some(s[8..])
    else if wireType == WT_STRING then
      match ReadDelimited(s)
      case None => None
      case Some((_, rest)) => Some(rest)
    else if wireType == WT_32BIT then if |s| < 4 then None else Some(s[4..])
    else None
  }

  // ----- fields -----

  /** pb_field_iter_find: looks from a position on, around the end, and back to it. */
  function FindFrom(fields: seq<Field>, tag: nat, pos: nat, count: nat): (k: Option<nat>)
    requires count <= |fields| && (fields != [] ==> pos < |fields|)
    ensures k.Some? ==> k.value < |fields| && fields[k.value].tag == tag
    decreases count
  {
    if count == 0 then None
    else if fields[pos].tag == tag then Some(pos)
    else FindFrom(fields, tag, if pos + 1 == |fields| then 0 else pos + 1, count - 1)
  }

  /** required_field_index */
  function RequiredBefore(fields: seq<Field>, k: nat): nat
    requires k <= |fields|
  {
    if k == 0 then 0 else RequiredBefore(fields, k - 1) + if fields[k - 1].rule.Required? then 1 else 0
  }

  /** PB_MAX_REQUIRED_FIELDS */
  const MAX_REQUIRED := 64

  /** The fields that are checked at the end were all seen. */
  predicate RequiredSeen(fields: seq<Field>, seen: set<nat>) {
    forall i :: 0 <= i < RequiredBefore(fields, |fields|) && i < MAX_REQUIRED ==> i in seen
  }

  /** pb_message_set_to_defaults: nothing is there yet. */
  function Defaults(fields: seq<Field>): (slots: Slots)
    ensures |slots| == |fields| && forall i :: 0 <= i < |slots| ==> slots[i] == Slot([])
  {
    seq(|fields|, _ => Slot([]))
  }

  // ----- messages -----

  /** pb_decode_noinit, from the state that its loop is in. */
  function DecodeLoop(fields: seq<Field>, s: seq<byte>, slots: Slots, pos: nat, seen: set<nat>): (r: Option<Slots>)
    requires |slots| == |fields| && (fields != [] ==> pos < |fields|)
    ensures r.Some? ==> |r.value| == |fields|
    decreases |s|, 0
  {
    if s == [] then Finished(fields, slots, seen) else
      match ReadVarint32(s)
      case None => None
      case Some((t, rest)) =>
        if t == 0 then Finished(fields, slots, seen) else
          match FindFrom(fields, t / 8, pos, |fields|)
          case None =>
            (match SkipField(t % 8, rest)
             case None => None
             case Some(rest) => DecodeLoop(fields, rest, slots, pos, seen))
          case Some(k) =>
            match DecodeStatic(fields[k], t % 8, rest, slots[k])
            case None => None
            case Some((slot, rest)) =>
              DecodeLoop(fields, rest, slots[k := slot], k, Seen(fields, k, seen))
  }

  function Finished(fields: seq<Field>, slots: Slots, seen: set<nat>): Option<Slots> {
    if RequiredSeen(fields, seen) then Some(slots) else None
  }

  function Seen(fields: seq<Field>, k: nat, seen: set<nat>): set<nat>
    requires k < |fields|
  {
    if fields[k].rule.Required? && RequiredBefore(fields, k) < MAX_REQUIRED then seen + {RequiredBefore(fields, k)} else seen
  }

  /** decode_static_field */
  function DecodeStatic(f: Field, wireType: nat, s: seq<byte>, slot: Slot): (r: Option<(Slot, seq<byte>)>)
    ensures r.Some? ==> |r.value.1| < |s|
    decreases |s|, 2
  {
    match f.rule
    case Repeated(max) =>
      if wireType == WT_STRING && Packable(f.kind) then
        match ReadDelimited(s)
        case None => None
        case Some((sub, rest)) =>
          (match DecodePacked(f.kind, sub, slot.values, max)
           case None => None
           case Some(values) => Some((Slot(values), rest)))
      else if |slot.values| >= max then None
      else
        (match DecodeValue(f.kind, s, None)
         case None => None
         case Some((v, rest)) => Some((Slot(slot.values + [v]), rest)))
    case _ =>
      match DecodeValue(f.kind, s, if slot.values == [] then None else Some(slot.values[0]))
      case None => None
      case Some((v, rest)) => Some((Slot([v]), rest))
  }

  function DecodePacked(kind: Kind, s: seq<byte>, values: seq<Value>, max: nat): Option<seq<Value>>
    requires Packable(kind)
    decreases |s|
  {
    if s == [] then Some(values)
    else if |values| >= max then None
    else match DecodeScalar(kind, s)
      case None => None
      case Some((v, rest)) => DecodePacked(kind, rest, values + [v], max)
  }

  /** One value; a submessage goes on from what is already there. */
  function DecodeValue(kind: Kind, s: seq<byte>, current: Option<Value>): (r: Option<(Value, seq<byte>)>)
    ensures r.Some? ==> |r.value.1| < |s|
    decreases |s|, 1
  {
    match kind
    case Bytes(size) =>
      (match ReadDelimited(s)
       case None => None
       case Some((bytes, rest)) => if |bytes| > size then None else Some((Blob(bytes), rest)))
    case Text(size) =>
      (match ReadDelimited(s)
       case None => None
       case Some((bytes, rest)) => if |bytes| + 1 > size then None else Some((Blob(bytes), rest)))
    case Message(fields) =>
      (match ReadDelimited(s)
       case None => None
       case Some((sub, rest)) =>
         match DecodeLoop(fields, sub, Current(fields, current), 0, {})
         case None => None
         case Some(slots) => Some((Struct(slots), rest)))
    case _ => DecodeScalar(kind, s)
  }

  function Current(fields: seq<Field>, current: Option<Value>): (slots: Slots)
    ensures |slots| == |fields|
  {
    if current.Some? && current.value.Struct? && |current.value.slots| == |fields| then current.value.slots else Defaults(fields)
  }

  /** pb_decode */
  function Decode(fields: seq<Field>, s: seq<byte>): Option<Slots> {
    DecodeLoop(fields, s, Defaults(fields), 0, {})
  }
}
