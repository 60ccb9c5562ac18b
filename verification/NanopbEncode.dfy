/**
 pb_encode.c (nanopb): messages written to a stream, where submessages and packed arrays are encoded
 twice, first to learn their size. The first pass counts exactly what the second one writes.
 */
module NanopbEncode {
  import opened Common
  import opened Coding
  import opened NanopbFormat

  /** What the struct of a message can hold: sizes and counts are only checked when encoding. */
  predicate Shaped(kind: Kind, v: Value)
    decreases v
  {
    match kind
    case Bytes(_) => v.Blob? && |v.bytes| < TWO_32
    case Text(_) => v.Blob? && |v.bytes| < TWO_32
    case Message(fields) => v.Struct? && ShapedAll(fields, v.slots)
    case _ => Holds(kind, v)
  }

  predicate ShapedField(f: Field, slot: Slot)
    decreases slot
  {
    && (match f.rule
        case Required => |slot.values| == 1
        case Optional => |slot.values| <= 1
        case Repeated(_) => true)
    && forall j :: 0 <= j < |slot.values| ==> Shaped(f.kind, slot.values[j])
  }

  predicate ShapedAll(fields: seq<Field>, slots: seq<Slot>)
    decreases slots
  {
    |slots| == |fields| && forall i :: 0 <= i < |slots| ==> ShapedField(fields[i], slots[i])
  }

  /** Every bytes value and every array in it is no longer than its storage. */
  predicate Fits(kind: Kind, v: Value)
    requires Shaped(kind, v)
    decreases v
  {
    match kind
    case Bytes(size) => |v.bytes| <= size
    case Message(fields) => FitsAll(fields, v.slots)
    case _ => true
  }

  predicate FitsField(f: Field, slot: Slot)
    requires ShapedField(f, slot)
    decreases slot
  {
    && (f.rule.Repeated? ==> |slot.values| <= f.rule.max)
    && forall j :: 0 <= j < |slot.values| ==> Fits(f.kind, slot.values[j])
  }

  predicate FitsAll(fields: seq<Field>, slots: seq<Slot>)
    requires ShapedAll(fields, slots)
    decreases slots
  {
    forall i :: 0 <= i < |slots| ==> FitsField(fields[i], slots[i])
  }

  class OStream {
    /** Without a callback the stream only counts. */
    const sizing: bool
    const maxSize: nat
    var bytesWritten: nat
    var buffer: seq<byte>

    ghost predicate Valid()
      reads this
    {
      !sizing ==> bytesWritten <= maxSize
    }

    /** The bytes were written, or counted, if there was room for them. */
    ghost predicate Wrote(w: nat, b: seq<byte>, bytes: seq<byte>, ok: bool)
      reads this
    {
      && Valid()
      && (ok <==> sizing || w + |bytes| <= maxSize)
      && (ok ==> bytesWritten == w + |bytes| && buffer == if sizing then b else b + bytes)
    }

    constructor (sizing: bool, maxSize: nat)
      ensures Valid() && bytesWritten == 0 && buffer == [] && this.sizing == sizing && this.maxSize == maxSize
    {
      this.sizing, this.maxSize, bytesWritten, buffer := sizing, maxSize, 0, [];
    }

    /** pb_write */
    method Write(bytes: seq<byte>) returns (ok: bool)
      requires Valid()
      modifies this
      ensures Wrote(old(bytesWritten), old(buffer), bytes, ok)
    {
      if |bytes| > 0 && !sizing {
        if bytesWritten + |bytes| > maxSize {
          return false;
        }
        buffer := buffer + bytes;
      }
      bytesWritten := bytesWritten + |bytes|;
      return true;
    }

    /** pb_write without data, on a stream that only counts. */
    method Count(size: nat)
      requires Valid() && sizing
      modifies this`bytesWritten
      ensures Valid() && bytesWritten == old(bytesWritten) + size
    {
      bytesWritten := bytesWritten + size;
    }

    /** pb_encode_varint */
    method EncodeVarint(value: nat) returns (ok: bool)
      requires Valid()
      modifies this
      ensures Wrote(old(bytesWritten), old(buffer), Varint(value), ok)
    {
      var bytes := VarintBytes(value);
      ok := Write(bytes);
    }

    /** pb_encode_string */
    method EncodeString(bytes: seq<byte>) returns (ok: bool)
      requires Valid()
      modifies this
      ensures Wrote(old(bytesWritten), old(buffer), Prefixed(bytes), ok)
    {
      ok := EncodeVarint(|bytes|);
      if ok {
        ok := Write(bytes);
        AppendTwo(old(buffer), Varint(|bytes|), bytes);
      }
    }

    /** pb_encode_tag */
    method EncodeTag(wireType: nat, tag: nat) returns (ok: bool)
      requires Valid() && wireType < 8
      modifies this
      ensures Wrote(old(bytesWritten), old(buffer), TagBytes(wireType, tag), ok)
    {
      ok := EncodeVarint(8 * tag + wireType);
    }

    /** The encoders of numbers: pb_enc_bool to pb_enc_fixed64. */
    method EncodeScalar(kind: Kind, v: Value) returns (ok: bool)
      requires Valid() && Packable(kind) && Holds(kind, v)
      modifies this
      ensures Wrote(old(bytesWritten), old(buffer), EncodeValue(kind, v), ok)
    {
      match kind {
        case Bool =>
          ok := EncodeVarint(if v.n != 0 then 1 else 0);
        case Int(bits) =>
          ok := EncodeVarint(ToUnsigned64(v.n));
        case UInt(bits) =>
          ok := EncodeVarint(v.n);
        case SInt(bits) =>
          ok := EncodeVarint(ZigZag(v.n));
        case Fixed32 =>
          ok := Write(EncodeFixed32(v.n));
        case Fixed64 =>
          ok := Write(EncodeFixed64(v.n));
      }
    }

    /** One value, by the encoder of its type. */
    method EncodeItem(kind: Kind, v: Value) returns (ok: bool)
      requires Valid() && Shaped(kind, v)
      modifies this
      ensures Valid() && (Holds(kind, v) ==> Wrote(old(bytesWritten), old(buffer), EncodeValue(kind, v), ok))
      ensures ok ==> Fits(kind, v)
      decreases v, 0
    {
      match kind {
        case Bytes(size) =>
          if |v.bytes| > size {
            return false;
          }
          ok := EncodeString(v.bytes);
        case Text(size) =>
          var n := StringLength(v.bytes, size);
          assert Holds(kind, v) ==> v.bytes[..n] == v.bytes;
          ok := EncodeString(v.bytes[..n]);
        case Message(fields) =>
          ok := EncodeSubmessage(fields, v.slots);
        case _ =>
          ok := EncodeScalar(kind, v);
      }
    }

    /** pb_encode_submessage: the size that was counted is the size that is written. */
    method EncodeSubmessage(fields: seq<Field>, slots: seq<Slot>) returns (ok: bool)
      requires Valid() && ShapedAll(fields, slots)
      modifies this
      ensures Valid()
      ensures HoldsAll(fields, slots, 0) ==>
        Wrote(old(bytesWritten), old(buffer), Prefixed(EncodeFrom(fields, slots, 0)), ok)
      ensures ok ==> FitsAll(fields, slots)
      decreases slots, 2
    {
      var counter := new OStream(true, 0);
      ok := counter.Encode(fields, slots);
      if !ok {
        return;
      }
      var size := counter.bytesWritten;
      ok := EncodeVarint(size);
      if !ok {
        return;
      }
      if sizing {
        Count(size);
        return;
      }
      if bytesWritten + size > maxSize {
        return false;
      }
      var inner := new OStream(false, size);
      var status := inner.Encode(fields, slots);
      bytesWritten := bytesWritten + inner.bytesWritten;
      AppendTwo(old(buffer), Varint(size), inner.buffer);
      buffer := buffer + inner.buffer;
      ok := inner.bytesWritten == size && status;
    }

    /** encode_basic_field */
    method EncodeField(f: Field, slot: Slot) returns (ok: bool)
      requires Valid() && ShapedField(f, slot)
      modifies this
      ensures Valid() && (HoldsField(f, slot) ==> Wrote(old(bytesWritten), old(buffer), NanopbFormat.EncodeField(f, slot), ok))
      ensures ok ==> FitsField(f, slot)
      decreases slot, 2
    {
      match f.rule {
        case Repeated(max) =>
          ok := EncodeArray(f, slot, max);
        case _ =>
          ok := EncodeValues(f, slot);
      }
    }

    /** encode_array: packed if the type allows it; an array longer than its storage is refused. */
    method EncodeArray(f: Field, slot: Slot, max: nat) returns (ok: bool)
      requires Valid() && ShapedField(f, slot) && f.rule == Repeated(max)
      modifies this
      ensures Valid() && (HoldsField(f, slot) ==> Wrote(old(bytesWritten), old(buffer), NanopbFormat.EncodeField(f, slot), ok))
      ensures ok ==> FitsField(f, slot)
      decreases slot, 1
    {
      if |slot.values| == 0 {
        return true;
      }
      if |slot.values| > max {
        return false;
      }
      if Packable(f.kind) {
        ok := EncodePackedArray(f, slot);
      } else {
        ok := EncodeValues(f, slot);
      }
    }

    /** The values one by one, each with its tag. */
    method EncodeValues(f: Field, slot: Slot) returns (ok: bool)
      requires Valid() && ShapedField(f, slot)
      modifies this
      ensures Valid() && (HoldsField(f, slot) ==> Wrote(old(bytesWritten), old(buffer), EncodeEach(f, slot, 0), ok))
      ensures ok ==> forall j :: 0 <= j < |slot.values| ==> Fits(f.kind, slot.values[j])
      decreases slot, 0
    {
      ghost var good, done := HoldsField(f, slot), [];
      for j := 0 to |slot.values|
        invariant Valid()
        invariant forall k :: 0 <= k < j ==> Fits(f.kind, slot.values[k])
        invariant good ==> EncodeEach(f, slot, 0) == done + EncodeEach(f, slot, j)
        invariant good ==> Wrote(old(bytesWritten), old(buffer), done, true)
      {
        ok := EncodeTag(WireType(f.kind), f.tag);
        if ok {
          ok := EncodeItem(f.kind, slot.values[j]);
        }
        if good {
          ghost var tag, item := TagBytes(WireType(f.kind), f.tag), EncodeValue(f.kind, slot.values[j]);
          AppendFour(done, tag, item, EncodeEach(f, slot, j + 1));
          AppendFour(old(buffer), done, tag, item);
          done := done + (tag + item);
        }
        if !ok {
          return;
        }
      }
      ok := true;
    }

    /** A packed array: the size of all values, and then the values. */
    method EncodePackedArray(f: Field, slot: Slot) returns (ok: bool)
      requires Valid() && Packable(f.kind) && forall j :: 0 <= j < |slot.values| ==> Holds(f.kind, slot.values[j])
      modifies this
      ensures Wrote(old(bytesWritten), old(buffer), TagBytes(WT_STRING, f.tag) + Prefixed(EncodePacked(f.kind, slot.values)), ok)
    {
      ghost var payload := EncodePacked(f.kind, slot.values);
      ok := EncodeTag(WT_STRING, f.tag);
      if !ok {
        return;
      }
      var size := PackedSize(f.kind, slot.values);
      ok := EncodeVarint(size);
      if !ok {
        return;
      }
      if sizing {
        Count(size);
        return;
      }
      ok := WriteScalars(f.kind, slot.values);
      AppendFour(old(buffer), TagBytes(WT_STRING, f.tag), Varint(size), payload);
    }

    method WriteScalars(kind: Kind, values: seq<Value>) returns (ok: bool)
      requires Valid() && Packable(kind) && forall j :: 0 <= j < |values| ==> Holds(kind, values[j])
      modifies this
      ensures Wrote(old(bytesWritten), old(buffer), EncodePacked(kind, values), ok)
    {
      ghost var done: seq<byte> := [];
      for j := 0 to |values|
        invariant EncodePacked(kind, values) == done + EncodePacked(kind, values[j..])
        invariant Wrote(old(bytesWritten), old(buffer), done, true)
      {
        assert values[j..][0] == values[j] && values[j..][1..] == values[j + 1..];
        AppendTwo(done, EncodeValue(kind, values[j]), EncodePacked(kind, values[j + 1..]));
        ok := EncodeScalar(kind, values[j]);
        if !ok {
          return;
        }
        AppendTwo(old(buffer), done, EncodeValue(kind, values[j]));
        done := done + EncodeValue(kind, values[j]);
      }
      ok := true;
    }

    /** pb_encode */
    method Encode(fields: seq<Field>, slots: seq<Slot>) returns (ok: bool)
      requires Valid() && ShapedAll(fields, slots)
      modifies this
      ensures Valid()
      ensures HoldsAll(fields, slots, 0) ==> Wrote(old(bytesWritten), old(buffer), EncodeFrom(fields, slots, 0), ok)
      ensures ok ==> FitsAll(fields, slots)
      decreases slots, 1
    {
      ghost var good, done := HoldsAll(fields, slots, 0), [];
      for i := 0 to |fields|
        invariant Valid()
        invariant forall k :: 0 <= k < i ==> FitsField(fields[k], slots[k])
        invariant good ==> HoldsAll(fields, slots, i)
        invariant good ==> EncodeFrom(fields, slots, 0) == done + EncodeFrom(fields, slots, i)
        invariant good ==> Wrote(old(bytesWritten), old(buffer), done, true)
      {
        ghost var w, b := bytesWritten, buffer;
        ok := EncodeField(fields[i], slots[i]);
        if good {
          FieldWritten(fields, slots, i, done);
        }
        if !ok {
          return;
        }
        if good {
          AppendTwo(old(buffer), done, NanopbFormat.EncodeField(fields[i], slots[i]));
          done := done + NanopbFormat.EncodeField(fields[i], slots[i]);
        }
      }
      ok := true;
    }
  }

  /** pb_get_encoded_size */
  method GetEncodedSize(fields: seq<Field>, slots: seq<Slot>) returns (size: Option<nat>)
    requires ShapedAll(fields, slots)
    ensures HoldsAll(fields, slots, 0) ==> size == Some(|EncodeFrom(fields, slots, 0)|)
    ensures size.Some? ==> FitsAll(fields, slots)
  {
    var counter := new OStream(true, 0);
    var ok := counter.Encode(fields, slots);
    size := if ok then Some(counter.bytesWritten) else None;
  }

  lemma FieldWritten(fields: seq<Field>, slots: seq<Slot>, i: nat, done: seq<byte>)
    requires i < |slots| && HoldsAll(fields, slots, i)
    ensures HoldsField(fields[i], slots[i]) && HoldsAll(fields, slots, i + 1)
    ensures done + EncodeFrom(fields, slots, i)
         == (done + EncodeField(fields[i], slots[i])) + EncodeFrom(fields, slots, i + 1)
  {
  }

  /** The bytes that pb_encode_varint puts together. */
  method VarintBytes(value: nat) returns (bytes: seq<byte>)
    ensures bytes == Varint(value)
  {
    if value <= 0x7F {
      return [value as byte];
    }
    bytes := [];
    var v: nat := value;
    while v != 0
      invariant v > 0 ==> Varint(value) == bytes + Varint(v)
      invariant v == 0 ==> bytes != [] && bytes[|bytes| - 1] >= 128
      invariant v == 0 ==> Varint(value) == bytes[..|bytes| - 1] + [bytes[|bytes| - 1] - 128]
    {
      VarintStep(bytes, v);
      bytes := bytes + [(v % 128 + 128) as byte];
      v := v / 128;
    }
    var last := |bytes| - 1;
    bytes := bytes[last := bytes[last] - 128];
  }

  /** The length of a string in its storage: up to a zero, or all of it. */
  method StringLength(bytes: seq<byte>, size: nat) returns (n: nat)
    ensures n <= |bytes| && n <= size && forall i :: 0 <= i < n ==> bytes[i] != 0
    ensures n < |bytes| && n < size ==> bytes[n] == 0
  {
    n := 0;
    while n < size && n < |bytes| && bytes[n] != 0
      invariant n <= |bytes| && n <= size && forall i :: 0 <= i < n ==> bytes[i] != 0
    {
      n := n + 1;
    }
  }

  lemma VarintStep(bytes: seq<byte>, v: nat)
    requires v > 0
    ensures v >= 128 ==> bytes + Varint(v) == (bytes + [(v % 128 + 128) as byte]) + Varint(v / 128)
    ensures v < 128 ==> bytes + Varint(v) == bytes + [(v % 128 + 128) as byte - 128]
  {
  }

  /** The size of a packed array, without encoding it where all values have the same size. */
  method PackedSize(kind: Kind, values: seq<Value>) returns (size: nat)
    requires Packable(kind) && forall j :: 0 <= j < |values| ==> Holds(kind, values[j])
    ensures size == |EncodePacked(kind, values)|
  {
    if kind.Fixed32? {
      FixedSizes(kind, values, 4);
      return 4 * |values|;
    }
    if kind.Fixed64? {
      FixedSizes(kind, values, 8);
      return 8 * |values|;
    }
    var counter := new OStream(true, 0);
    var ok := counter.WriteScalars(kind, values);
    size := counter.bytesWritten;
  }

  lemma {:induction false} FixedSizes(kind: Kind, values: seq<Value>, n: nat)
    requires (kind == Fixed32 && n == 4) || (kind == Fixed64 && n == 8)
    requires forall j :: 0 <= j < |values| ==> Holds(kind, values[j])
    ensures |EncodePacked(kind, values)| == n * |values|
  {
    if values != [] {
      FixedSizes(kind, values[1..], n);
    }
  }

  lemma AppendFour(b: seq<byte>, x: seq<byte>, y: seq<byte>, z: seq<byte>)
    ensures b + x + y + z == b + (x + (y + z)) && b + (x + y) + z == b + (x + y + z) == b + x + (y + z)
  {
  }

  lemma AppendTwo(b: seq<byte>, x: seq<byte>, y: seq<byte>)
    ensures b + x + y == b + (x + y)
  {
  }
}
