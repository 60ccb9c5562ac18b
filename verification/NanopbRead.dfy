/**
 pb_decode.c (nanopb) as it runs: streams with a number of bytes left, substreams for what has a length,
 and loops over bytes and fields. It computes what NanopbDecode says.
 */
module NanopbRead {
  import opened Common
  import opened Coding
  import opened NanopbFormat
  import opened NanopbDecode

  class IStream {
    var left: seq<byte>

    constructor (bytes: seq<byte>)
      ensures left == bytes
    {
      left := bytes;
    }

    /** pb_read; on failure nothing is taken. */
    method Read(count: nat) returns (bytes: Option<seq<byte>>)
      modifies this
      ensures if count <= |old(left)| then bytes == Some(old(left)[..count]) && left == old(left)[count..]
              else bytes == None && left == old(left)
    {
      if |left| < count {
        return None;
      }
      bytes := Some(left[..count]);
      left := left[count..];
    }

    /** pb_decode_varint32 */
    method DecodeVarint32() returns (r: Option<Word>)
      modifies this
      ensures match ReadVarint32(old(left))
        case None => r == None && |left| <= |old(left)|
        case Some((v, rest)) => r == Some(v) && left == rest
    {
      var first := Read(1);
      if first.None? {
        return None;
      }
      var b := first.value[0];
      if b < 128 {
        return Some(b as Word);
      }
      var bitpos: nat, result: Word := 7, b as int % 128;
      while true
        invariant ReadVarint32(old(left)) == ReadVarint32From(left, bitpos, result) && |left| <= |old(left)|
        decreases |left|
      {
        var next := Read(1);
        if next.None? {
          return None;
        }
        b := next.value[0];
        var low := b as int % 128;
        if bitpos >= 32 {
          var signExtension: byte := if bitpos < 63 then 0xFF else 0x01;
          if low != 0 && (result < 0x8000_0000 || b != signExtension) {
            return None;
          }
        } else {
          result := OrWord(result, Shifted(low, bitpos));
        }
        bitpos := (bitpos + 7) % 256;
        if b < 128 {
          if bitpos == 35 && low >= 16 {
            return None;
          }
          return Some(result);
        }
      }
    }

    /** pb_decode_varint */
    method DecodeVarint() returns (r: Option<Long>)
      modifies this
      ensures match GetVarint64(old(left))
        case None => r == None && |left| <= |old(left)|
        case Some((v, rest)) => r == Some(v) && left == rest
    {
      var bitpos: nat, result: Long := 0, 0;
      ghost var n: nat, exact: nat := 0, 0;
      while true
        invariant n <= 10 && bitpos == 7 * n && |left| <= |old(left)|
        invariant result == exact % TWO_64
        invariant ReadVarint(old(left), 10) == Continue(exact, Pow2(bitpos), ReadVarint(left, 10 - n))
        decreases |left|, 10 - n
      {
        if bitpos >= 64 {
          return None;
        }
        ghost var s := left;
        var next := Read(1);
        if next.None? {
          return None;
        }
        var b := next.value[0];
        var low := b as int % 128;
        var added: nat := low * Pow2(bitpos);
        NextByte(exact, bitpos, s, 10 - n, added);
        result := (result + added) % TWO_64;
        exact := exact + added;
        bitpos := bitpos + 7;
        if b < 128 {
          return Some(result);
        }
        n := n + 1;
      }
    }

    /** pb_make_string_substream, and pb_close_string_substream once the substream is done with. */
    method TakeDelimited() returns (sub: Option<seq<byte>>)
      modifies this
      ensures match ReadDelimited(old(left))
        case None => sub == None && |left| <= |old(left)|
        case Some((bytes, rest)) => sub == Some(bytes) && left == rest
    {
      var size := DecodeVarint32();
      if size.None? {
        return None;
      }
      sub := Read(size.value);
    }

    /** pb_skip_varint */
    method SkipVarint() returns (ok: bool)
      modifies this
      ensures match NanopbDecode.SkipVarint(old(left))
        case None => !ok && |left| <= |old(left)|
        case Some(rest) => ok && left == rest
    {
      while true
        invariant NanopbDecode.SkipVarint(old(left)) == NanopbDecode.SkipVarint(left) && |left| <= |old(left)|
        decreases |left|
      {
        var next := Read(1);
        if next.None? {
          return false;
        }
        if next.value[0] < 128 {
          return true;
        }
      }
    }

    /** pb_skip_field */
    method SkipField(wireType: nat) returns (ok: bool)
      modifies this
      ensures match NanopbDecode.SkipField(wireType, old(left))
        case None => !ok && |left| <= |old(left)|
        case Some(rest) => ok && left == rest
    {
      if wireType == WT_VARINT {
        ok := SkipVarint();
      } else if wireType == WT_64BIT {
        var bytes := Read(8);
        ok := bytes.Some?;
      } else if wireType == WT_STRING {
        var sub := TakeDelimited();
        ok := sub.Some?;
      } else if wireType == WT_32BIT {
        var bytes := Read(4);
        ok := bytes.Some?;
      } else {
        ok := false;
      }
    }

    /** The decoders of numbers: pb_dec_bool to pb_dec_fixed64. */
    method DecodeNumber(kind: Kind) returns (v: Option<Value>)
      requires Packable(kind)
      modifies this
      ensures match DecodeScalar(kind, old(left))
        case None => v == None && |left| <= |old(left)|
        case Some((value, rest)) => v == Some(value) && left == rest
    {
      match kind {
        case Bool =>
          var n := DecodeVarint32();
          v := if n.None? then None else Some(Number(if n.value != 0 then 1 else 0));
        case Int(bits) =>
          var n := DecodeVarint();
          if n.None? || !KnownWidth(bits) {
            return None;
          }
          var svalue := ToSigned(n.value, if bits == 64 then 64 else 32);
          v := if Signed(svalue, bits) then Some(Number(svalue)) else None;
        case UInt(bits) =>
          var n := DecodeVarint();
          v := if n.Some? && KnownWidth(bits) && Unsigned(n.value, bits) then Some(Number(n.value)) else None;
        case SInt(bits) =>
          var n := DecodeVarint();
          v := if n.Some? && KnownWidth(bits) && Signed(UnZigZag(n.value), bits) then Some(Number(UnZigZag(n.value))) else None;
        case Fixed32 =>
          var bytes := Read(4);
          if bytes.None? {
            return None;
          }
          SameWord(old(left));
          v := Some(Number(DecodeFixed32(bytes.value)));
        case Fixed64 =>
          var bytes := Read(8);
          if bytes.None? {
            return None;
          }
          SameLong(old(left));
          v := Some(Number(DecodeFixed64(bytes.value)));
      }
    }

    /** One value. A substream holds what belongs to a submessage. */
    method DecodeItem(kind: Kind, current: Option<Value>) returns (v: Option<Value>)
      modifies this
      ensures match DecodeValue(kind, old(left), current)
        case None => v == None && |left| <= |old(left)|
        case Some((value, rest)) => v == Some(value) && left == rest
      decreases |left|, 1
    {
      match kind {
        case Bytes(size) =>
          var bytes := TakeDelimited();
          v := if bytes.None? || |bytes.value| > size then None else Some(Blob(bytes.value));
        case Text(size) =>
          var bytes := TakeDelimited();
          v := if bytes.None? || |bytes.value| + 1 > size then None else Some(Blob(bytes.value));
        case Message(fields) =>
          var bytes := TakeDelimited();
          if bytes.None? {
            return None;
          }
          var sub := new IStream(bytes.value);
          var slots := sub.DecodeMessage(fields, Current(fields, current));
          v := if slots.None? then None else Some(Struct(slots.value));
        case _ =>
          v := DecodeNumber(kind);
      }
    }

    /** The values of a packed array, as many as there is room for. */
    method DecodePackedValues(kind: Kind, before: seq<Value>, max: nat) returns (values: Option<seq<Value>>)
      requires Packable(kind)
      modifies this
      ensures values == DecodePacked(kind, old(left), before, max)
    {
      var r := before;
      while |left| > 0 && |r| < max
        invariant DecodePacked(kind, left, r, max) == DecodePacked(kind, old(left), before, max)
        decreases |left|
      {
        var v := DecodeNumber(kind);
        if v.None? {
          return None;
        }
        r := r + [v.value];
      }
      values := if left != [] then None else Some(r);
    }

    /** decode_static_field */
    method DecodeStaticField(f: Field, wireType: nat, slot: Slot) returns (r: Option<Slot>)
      modifies this
      ensures match DecodeStatic(f, wireType, old(left), slot)
        case None => r == None && |left| <= |old(left)|
        case Some((slot, rest)) => r == Some(slot) && left == rest
      decreases |left|, 2
    {
      match f.rule {
        case Repeated(max) =>
          if wireType == WT_STRING && Packable(f.kind) {
            var bytes := TakeDelimited();
            if bytes.None? {
              return None;
            }
            var sub := new IStream(bytes.value);
            var values := sub.DecodePackedValues(f.kind, slot.values, max);
            r := if values.None? then None else Some(Slot(values.value));
          } else {
            if |slot.values| >= max {
              return None;
            }
            var v := DecodeItem(f.kind, None);
            r := if v.None? then None else Some(Slot(slot.values + [v.value]));
          }
        case _ =>
          var v := DecodeItem(f.kind, if slot.values == [] then None else Some(slot.values[0]));
          r := if v.None? then None else Some(Slot([v.value]));
      }
    }

    /** pb_decode_noinit */
    method DecodeMessage(fields: seq<Field>, start: Slots) returns (r: Option<Slots>)
      requires |start| == |fields|
      modifies this
      ensures r == DecodeLoop(fields, old(left), start, 0, {})
      decreases |left|, 0
    {
      var slots, pos: nat, seen: set<nat> := start, 0, {};
      while |left| > 0
        invariant |slots| == |fields| && (fields != [] ==> pos < |fields|) && |left| <= |old(left)|
        invariant DecodeLoop(fields, left, slots, pos, seen) == DecodeLoop(fields, old(left), start, 0, {})
        decreases |left|
      {
        var t := DecodeVarint32();
        if t.None? {
          return None;
        }
        if t.value == 0 {
          return Finished(fields, slots, seen);
        }
        var k := FindFrom(fields, t.value / 8, pos, |fields|);
        if k.None? {
          var ok := SkipField(t.value % 8);
          if !ok {
            return None;
          }
        } else {
          pos := k.value;
          seen := Seen(fields, pos, seen);
          var slot := DecodeStaticField(fields[pos], t.value % 8, slots[pos]);
          if slot.None? {
            return None;
          }
          slots := slots[pos := slot.value];
        }
      }
      r := Finished(fields, slots, seen);
    }
  }

  /** pb_decode */
  method DecodeBytes(fields: seq<Field>, bytes: seq<byte>) returns (r: Option<Slots>)
    ensures r == Decode(fields, bytes)
  {
    var stream := new IStream(bytes);
    r := stream.DecodeMessage(fields, Defaults(fields));
  }

  lemma SameLong(s: seq<byte>)
    requires |s| >= 8
    ensures DecodeFixed64(s) == DecodeFixed64(s[..8])
  {
    SameWord(s);
    SameWord(s[..8]);
    SameWord(s[4..]);
    SameWord(s[..8][4..]);
    assert s[..8][..4] == s[..4] && s[..8][4..][..4] == s[4..][..4];
  }

  /** What one more byte adds, exactly and modulo 2^64. */
  lemma NextByte(exact: nat, bitpos: nat, s: seq<byte>, limit: nat, added: nat)
    requires s != [] && limit > 0 && added == s[0] as int % 128 * Pow2(bitpos)
    ensures s[0] < 128 ==> Continue(exact, Pow2(bitpos), ReadVarint(s, limit)) == Some((exact + added, s[1..]))
    ensures s[0] >= 128 ==>
      Continue(exact, Pow2(bitpos), ReadVarint(s, limit)) == Continue(exact + added, Pow2(bitpos + 7), ReadVarint(s[1..], limit - 1))
    ensures (exact % TWO_64 + added) % TWO_64 == (exact + added) % TWO_64
  {
    ExactByte(exact, bitpos, s, limit, added);
    AddedModulo(exact, added);
  }

  lemma ExactByte(exact: nat, bitpos: nat, s: seq<byte>, limit: nat, added: nat)
    requires s != [] && limit > 0 && added == s[0] as int % 128 * Pow2(bitpos)
    ensures s[0] < 128 ==> Continue(exact, Pow2(bitpos), ReadVarint(s, limit)) == Some((exact + added, s[1..]))
    ensures s[0] >= 128 ==>
      Continue(exact, Pow2(bitpos), ReadVarint(s, limit)) == Continue(exact + added, Pow2(bitpos + 7), ReadVarint(s[1..], limit - 1))
  {
    LowBits(s[0] as int);
    Pow2Seven(bitpos);
    ContinueStep(exact, Pow2(bitpos), s, limit);
  }

  lemma LowBits(b: int)
    requires 0 <= b < 256
    ensures b % 128 == if b < 128 then b else b - 128
  {
  }

  lemma AddedModulo(exact: nat, more: int)
    requires more >= 0
    ensures (exact % TWO_64 + more) % TWO_64 == (exact + more) % TWO_64
  {
  }
}
