/**
 Bytes and the integer encodings of util/coding.cc.
 */
module Coding {
  import opened Common

  newtype byte = x: int | 0 <= x < 256
  type Word = x: int | 0 <= x < 0x1_0000_0000

  // ----- fixed width -----

  function EncodeFixed32(v: Word): (s: seq<byte>)
    ensures |s| == 4
  {
    [(v % 0x100) as byte, (v / 0x100 % 0x100) as byte, (v / 0x1_0000 % 0x100) as byte, (v / 0x100_0000) as byte]
  }

  function DecodeFixed32(s: seq<byte>): Word
    requires |s| >= 4
  {
    (s[0] as int) + 0x100 * (s[1] as int) + 0x1_0000 * (s[2] as int) + 0x100_0000 * (s[3] as int)
  }

  lemma Fixed32RoundTrip(v: Word)
    ensures DecodeFixed32(EncodeFixed32(v)) == v
  {
    var s := EncodeFixed32(v);
    var a := v / 0x100;
    var b := a / 0x100;
    assert v == a * 0x100 + s[0] as int;
    assert a == b * 0x100 + a % 0x100;
    assert b == v / 0x1_0000 && v / 0x100_0000 == b / 0x100;
    assert b == b / 0x100 * 0x100 + b % 0x100;
  }

  type Long = x: int | 0 <= x < 0x1_0000_0000_0000_0000

  function EncodeFixed64(v: Long): (s: seq<byte>)
    ensures |s| == 8
  {
    EncodeFixed32(v % 0x1_0000_0000) + EncodeFixed32(v / 0x1_0000_0000)
  }

  function DecodeFixed64(s: seq<byte>): Long
    requires |s| >= 8
  {
    DecodeFixed32(s) + 0x1_0000_0000 * DecodeFixed32(s[4..])
  }

  lemma Fixed64RoundTrip(v: Long, tail: seq<byte>)
    ensures DecodeFixed64(EncodeFixed64(v) + tail) == v
  {
    var low, high := EncodeFixed32(v % 0x1_0000_0000), EncodeFixed32(v / 0x1_0000_0000);
    Fixed32RoundTrip(v % 0x1_0000_0000);
    Fixed32RoundTrip(v / 0x1_0000_0000);
    var s := low + high + tail;
    assert s[..4] == low && s[4..][..4] == high;
    assert DecodeFixed32(s) == DecodeFixed32(low) && DecodeFixed32(s[4..]) == DecodeFixed32(high);
  }

  /** Words one after the other. */
  function EncodeWords(words: seq<Word>): seq<byte> {
    if words == [] then [] else EncodeWords(words[..|words| - 1]) + EncodeFixed32(words[|words| - 1])
  }

  lemma {:induction false} WordsLength(words: seq<Word>)
    ensures |EncodeWords(words)| == 4 * |words|
  {
    if words != [] {
      WordsLength(words[..|words| - 1]);
    }
  }

  lemma {:induction false} WordAt(words: seq<Word>, k: nat)
    requires k < |words|
    ensures |EncodeWords(words)| == 4 * |words|
    ensures EncodeWords(words)[4 * k..4 * k + 4] == EncodeFixed32(words[k])
  {
    var front := words[..|words| - 1];
    WordsLength(front);
    if k < |front| {
      WordAt(front, k);
    }
  }

  lemma MiddleOf(a: seq<byte>, b: seq<byte>, c: seq<byte>, q: nat)
    requires q + 4 <= |b|
    ensures (a + b + c)[|a| + q..][..4] == b[q..q + 4]
  {
  }

  lemma SameWord(s: seq<byte>)
    requires |s| >= 4
    ensures DecodeFixed32(s) == DecodeFixed32(s[..4])
  {
  }

  /** A word read back from the middle of a file. */
  lemma WordWithin(a: seq<byte>, words: seq<Word>, c: seq<byte>, k: nat)
    requires k < |words|
    ensures var data := a + EncodeWords(words) + c;
      |data| == |a| + 4 * |words| + |c| && DecodeFixed32(data[|a| + 4 * k..]) == words[k]
  {
    WordsLength(words);
    WordAt(words, k);
    Fixed32RoundTrip(words[k]);
    MiddleOf(a, EncodeWords(words), c, 4 * k);
    SameWord((a + EncodeWords(words) + c)[|a| + 4 * k..]);
  }

  lemma WordsOneMore(before: seq<byte>, words: seq<Word>, word: Word)
    ensures before + EncodeWords(words + [word]) == before + EncodeWords(words) + EncodeFixed32(word)
  {
    assert (words + [word])[..|words|] == words;
  }

  /** PutFixed32 for each of the words. */
  method PutWords(dst: seq<byte>, words: seq<Word>) returns (dst': seq<byte>)
    ensures dst' == dst + EncodeWords(words)
  {
    dst' := dst;
    for i := 0 to |words|
      invariant dst' == dst + EncodeWords(words[..i])
    {
      assert words[..i + 1] == words[..i] + [words[i]];
      WordsOneMore(dst, words[..i], words[i]);
      dst' := dst' + EncodeFixed32(words[i]);
    }
    assert words[..|words|] == words;
  }

  // ----- variable width -----

  /** Seven bits a byte, the lowest first; every byte but the last has its top bit set. */
  function Varint(v: nat): (s: seq<byte>)
    ensures s != []
  {
    if v < 128 then [v as byte] else [(v % 128 + 128) as byte] + Varint(v / 128)
  }

  function EncodeVarint32(v: Word): seq<byte> {
    var a, b, c, d := v / 0x80, v / 0x4000, v / 0x20_0000, v / 0x1000_0000;
    if v < 0x80 then
      [v as byte]
    else if v < 0x4000 then
      [(v % 128 + 128) as byte, a as byte]
    else if v < 0x20_0000 then
      [(v % 128 + 128) as byte, (a % 128 + 128) as byte, b as byte]
    else if v < 0x1000_0000 then
      [(v % 128 + 128) as byte, (a % 128 + 128) as byte, (b % 128 + 128) as byte, c as byte]
    else
      [(v % 128 + 128) as byte, (a % 128 + 128) as byte, (b % 128 + 128) as byte, (c % 128 + 128) as byte, d as byte]
  }

  lemma {:induction false} EncodeVarint32IsVarint(v: Word)
    ensures EncodeVarint32(v) == Varint(v)
  {
    if v >= 0x80 {
      Quotients(v);
      EncodeVarint32IsVarint(v / 0x80);
    }
  }

  lemma Quotients(v: Word)
    ensures v / 0x80 / 0x80 == v / 0x4000 && v / 0x80 / 0x4000 == v / 0x20_0000 && v / 0x80 / 0x20_0000 == v / 0x1000_0000
  {
  }

  /** The number in at most `limit` bytes, and what comes after it; nothing if no byte ends it. */
  function ReadVarint(s: seq<byte>, limit: nat): (r: Option<(nat, seq<byte>)>)
    ensures r.Some? ==> |r.value.1| < |s|
  {
    if limit == 0 || s == [] then None
    else if s[0] < 128 then Some((s[0] as nat, s[1..]))
    else match ReadVarint(s[1..], limit - 1)
      case None => None
      case Some((high, rest)) => Some(((s[0] as nat) - 128 + 128 * high, rest))
  }

  function Power128(n: nat): (p: nat)
    ensures p >= 1
  {
    if n == 0 then 1 else 128 * Power128(n - 1)
  }

  lemma {:induction false} VarintRoundTrip(v: nat, limit: nat, tail: seq<byte>)
    requires limit > 0 && v < Power128(limit)
    ensures ReadVarint(Varint(v) + tail, limit) == Some((v, tail))
  {
    var s := Varint(v) + tail;
    if v < 128 {
      assert s[0] == v as byte && s[1..] == tail;
    } else {
      assert limit > 1;
      VarintRoundTrip(v / 128, limit - 1, tail);
      assert s[0] == (v % 128 + 128) as byte;
      assert s[1..] == Varint(v / 128) + tail;
    }
  }

  function GetVarint32(s: seq<byte>): (r: Option<(Word, seq<byte>)>)
    ensures r.Some? ==> |r.value.1| < |s|
  {
    match ReadVarint(s, 5)
    case None => None
    case Some((v, rest)) => Some((v % 0x1_0000_0000, rest))
  }

  lemma {:induction false} RestOfVarint(s: seq<byte>, limit: nat)
    requires ReadVarint(s, limit).Some?
    ensures var rest := ReadVarint(s, limit).value.1; rest == s[|s| - |rest|..]
  {
    if s[0] >= 128 {
      RestOfVarint(s[1..], limit - 1);
    }
  }

  lemma FitsFiveBytes(v: Word)
    ensures v < Power128(5)
  {
    assert Power128(3) == 0x20_0000;
    assert Power128(5) == 0x8_0000_0000;
  }

  lemma Varint32RoundTrip(v: Word, tail: seq<byte>)
    ensures GetVarint32(Varint(v) + tail) == Some((v, tail))
  {
    FitsFiveBytes(v);
    VarintRoundTrip(v, 5, tail);
  }

  /** At most ten bytes; what does not fit 64 bits is dropped. */
  function GetVarint64(s: seq<byte>): (r: Option<(Long, seq<byte>)>)
    ensures r.Some? ==> |r.value.1| < |s|
  {
    match ReadVarint(s, 10)
    case None => None
    case Some((v, rest)) => Some((v % 0x1_0000_0000_0000_0000, rest))
  }

  lemma FitsTenBytes(v: Long)
    ensures v < Power128(10)
  {
    assert Power128(3) == 0x20_0000;
    assert Power128(6) == 0x400_0000_0000;
    assert Power128(8) == 0x100_0000_0000_0000;
    assert Power128(10) == 0x40_0000_0000_0000_0000;
  }

  lemma Varint64RoundTrip(v: Long, tail: seq<byte>)
    ensures GetVarint64(Varint(v) + tail) == Some((v, tail))
  {
    FitsTenBytes(v);
    VarintRoundTrip(v, 10, tail);
  }

  /** GetVarint32PtrFallback: adds the bytes up in a 32-bit word, dropping what overflows. */
  method DecodeVarint32(input: seq<byte>) returns (r: Option<(Word, seq<byte>)>)
    ensures r == GetVarint32(input)
  {
    var result, scale, n := 0, 1, 0;
    while n < 5 && n < |input|
      invariant 0 <= n <= 5 && n <= |input| && scale == Power128(n) && 0 <= result < scale
      invariant ReadVarint(input, 5) == Continue(result, scale, ReadVarint(input[n..], 5 - n))
      invariant n == 5 ==> result < 0x8_0000_0000
    {
      var b := input[n] as int;
      ContinueStep(result, scale, input[n..], 5 - n);
      assert input[n..][1..] == input[n + 1..];
      n := n + 1;
      if b >= 128 {
        result := result + (b - 128) * scale;
        Scaled(b - 128, scale);
        scale := scale * 128;
      } else {
        return Some(((result + b * scale) % 0x1_0000_0000, input[n..]));
      }
    }
    return None;
  }

  ghost function Continue(result: nat, scale: nat, r: Option<(nat, seq<byte>)>): Option<(nat, seq<byte>)> {
    match r
    case None => None
    case Some((v, rest)) => Some((result + scale * v, rest))
  }

  lemma Scaled(b: nat, scale: nat)
    requires b < 128
    ensures b * scale + scale <= 128 * scale
  {
  }

  lemma Distribute(scale: nat, b: nat, high: nat)
    ensures scale * (b + 128 * high) == b * scale + scale * 128 * high
  {
  }

  lemma ContinueStep(result: nat, scale: nat, s: seq<byte>, limit: nat)
    requires s != [] && limit > 0 && scale >= 1
    ensures s[0] < 128 ==> Continue(result, scale, ReadVarint(s, limit)) == Some((result + (s[0] as int) * scale, s[1..]))
    ensures s[0] >= 128 ==>
              && (s[0] as int - 128) * scale >= 0
              && Continue(result, scale, ReadVarint(s, limit))
                 == Continue(result + (s[0] as int - 128) * scale, scale * 128, ReadVarint(s[1..], limit - 1))
  {
    if s[0] >= 128 {
      var b := s[0] as int - 128;
      match ReadVarint(s[1..], limit - 1)
      case None =>
      case Some((high, rest)) =>
        Distribute(scale, b, high);
    }
  }

  // ----- strings with their length in front -----

  function Prefixed(s: seq<byte>): seq<byte> {
    Varint(|s|) + s
  }

  function GetPrefixed(input: seq<byte>): (r: Option<(seq<byte>, seq<byte>)>)
    ensures r.Some? ==> |r.value.1| < |input|
  {
    match GetVarint32(input)
    case None => None
    case Some((n, rest)) => if n <= |rest| then Some((rest[..n], rest[n..])) else None
  }

  lemma PrefixedRoundTrip(s: seq<byte>, tail: seq<byte>)
    requires |s| < 0x1_0000_0000
    ensures GetPrefixed(Prefixed(s) + tail) == Some((s, tail))
  {
    assert Prefixed(s) + tail == Varint(|s|) + (s + tail);
    Varint32RoundTrip(|s|, s + tail);
  }
}
