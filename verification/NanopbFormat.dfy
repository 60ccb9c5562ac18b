/**
 nanopb messages: descriptors of static fields (pb.h), their values, and the bytes that pb_encode.c
 writes for them, after the Protocol Buffers Encoding specification.
 */
module NanopbFormat {
  import opened Coding

  // ----- descriptors and values -----

  /** PB_LTYPE: scalars have a width in bits; bytes and strings have the size of their storage. */
  datatype Kind =
    | Bool
    | Int(bits: nat)
    | UInt(bits: nat)
    | SInt(bits: nat)
    | Fixed32
    | Fixed64
    | Bytes(size: nat)
    | Text(size: nat)
    | Message(fields: seq<Field>)

  /** PB_HTYPE; `max` is the size of the array. */
  datatype Rule = Required | Optional | Repeated(max: nat)

  datatype Field = Field(tag: nat, rule: Rule, kind: Kind)

  datatype Value = Number(n: int) | Blob(bytes: seq<byte>) | Struct(slots: seq<Slot>)

  /** What a field holds: one value if it is required, at most one if it is optional. */
  datatype Slot = Slot(values: seq<Value>)

  const TWO_32 := 0x1_0000_0000
  const TWO_64 := 0x1_0000_0000_0000_0000

  /** PB_LTYPE_LAST_PACKABLE */
  predicate Packable(kind: Kind) {
    kind.Bool? || kind.Int? || kind.UInt? || kind.SInt? || kind.Fixed32? || kind.Fixed64?
  }

  function Half(bits: nat): nat {
    if bits == 8 then 0x80 else if bits == 16 then 0x8000 else if bits == 32 then 0x8000_0000 else 0x8000_0000_0000_0000
  }

  /** A value of a type of the struct. */
  predicate Signed(n: int, bits: nat) {
    0 - Half(bits) <= n < Half(bits)
  }

  predicate Unsigned(n: int, bits: nat) {
    0 <= n < 2 * Half(bits)
  }

  predicate KnownWidth(bits: nat) {
    bits == 8 || bits == 16 || bits == 32 || bits == 64
  }

  // ----- what is written -----

  const WT_VARINT := 0
  const WT_64BIT := 1
  const WT_STRING := 2
  const WT_32BIT := 5

  function WireType(kind: Kind): nat {
    match kind
    case Fixed32 => WT_32BIT
    case Fixed64 => WT_64BIT
    case Bytes(_) => WT_STRING
    case Text(_) => WT_STRING
    case Message(_) => WT_STRING
    case _ => WT_VARINT
  }

  function TagBytes(wireType: nat, tag: nat): seq<byte> {
    Varint(8 * tag + wireType)
  }

  /** The conversion of a signed number to 64 unsigned bits. */
  function ToUnsigned64(n: int): nat
    requires Signed(n, 64)
  {
    if n >= 0 then n else n + TWO_64
  }

  function ZigZag(n: int): nat {
    if n >= 0 then 2 * n else -2 * n - 1
  }

  /** Values that their storage can hold. Strings end before the end of their storage. */
  predicate Holds(kind: Kind, v: Value)
    decreases v
  {
    match kind
    case Bool => v.Number? && (v.n == 0 || v.n == 1)
    case Int(bits) => v.Number? && KnownWidth(bits) && Signed(v.n, bits)
    case UInt(bits) => v.Number? && KnownWidth(bits) && Unsigned(v.n, bits)
    case SInt(bits) => v.Number? && KnownWidth(bits) && Signed(v.n, bits)
    case Fixed32 => v.Number? && Unsigned(v.n, 32)
    case Fixed64 => v.Number? && Unsigned(v.n, 64)
    case Bytes(size) => v.Blob? && |v.bytes| <= size < TWO_32
    case Text(size) => v.Blob? && |v.bytes| < size < TWO_32 && forall i :: 0 <= i < |v.bytes| ==> v.bytes[i] != 0
    case Message(fields) => v.Struct? && HoldsAll(fields, v.slots, 0)
  }

  predicate HoldsAll(fields: seq<Field>, slots: seq<Slot>, i: nat)
    decreases slots, |slots| - i
  {
    |slots| == |fields| &&
    (i < |slots| ==> HoldsField(fields[i], slots[i]) && HoldsAll(fields, slots, i + 1))
  }

  predicate HoldsField(f: Field, slot: Slot)
    decreases slot
  {
    && (match f.rule
        case Required => |slot.values| == 1
        case Optional => |slot.values| <= 1
        case Repeated(max) => |slot.values| <= max)
    && forall j :: 0 <= j < |slot.values| ==> Holds(f.kind, slot.values[j])
  }

  function EncodeValue(kind: Kind, v: Value): seq<byte>
    requires Holds(kind, v)
    decreases v
  {
    match kind
    case Bool => Varint(v.n)
    case Int(bits) => Varint(ToUnsigned64(v.n))
    case UInt(bits) => Varint(v.n)
    case SInt(bits) => Varint(ZigZag(v.n))
    case Fixed32 => EncodeFixed32(v.n)
    case Fixed64 => EncodeFixed64(v.n)
    case Bytes(size) => Prefixed(v.bytes)
    case Text(size) => Prefixed(v.bytes)
    case Message(fields) => Prefixed(EncodeFrom(fields, v.slots, 0))
  }

  /** The fields from the i-th on: pb_encode. */
  function EncodeFrom(fields: seq<Field>, slots: seq<Slot>, i: nat): seq<byte>
    requires HoldsAll(fields, slots, i)
    decreases slots, |slots| - i
  {
    if i >= |slots| then [] else EncodeField(fields[i], slots[i]) + EncodeFrom(fields, slots, i + 1)
  }

  function EncodeField(f: Field, slot: Slot): seq<byte>
    requires HoldsField(f, slot)
    decreases slot, 1
  {
    if f.rule.Repeated? && Packable(f.kind) then
      if slot.values == [] then [] else
        TagBytes(WT_STRING, f.tag) + Prefixed(EncodePacked(f.kind, slot.values))
    else
      EncodeEach(f, slot, 0)
  }

  function EncodePacked(kind: Kind, values: seq<Value>): seq<byte>
    requires forall j :: 0 <= j < |values| ==> Holds(kind, values[j])
    decreases values
  {
    if values == [] then [] else EncodeValue(kind, values[0]) + EncodePacked(kind, values[1..])
  }

  function EncodeEach(f: Field, slot: Slot, j: nat): seq<byte>
    requires HoldsField(f, slot)
    decreases slot, 0, |slot.values| - j
  {
    if j >= |slot.values| then [] else
      TagBytes(WireType(f.kind), f.tag) + EncodeValue(f.kind, slot.values[j]) + EncodeEach(f, slot, j + 1)
  }
}
