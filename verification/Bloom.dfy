/**
 The Bloom filter policy (util/bloom.cc), for any hash function.
 */
module Bloom {
  import opened Coding

  type Hash = seq<byte> -> Word

  // ----- bits -----

  /** (n & (1 << s)) != 0 */
  predicate HasBit(n: nat, s: nat) {
    if s == 0 then n % 2 == 1 else HasBit(n / 2, s - 1)
  }

  /** n | (1 << s) */
  function SetBit(n: nat, s: nat): nat {
    if s == 0 then n / 2 * 2 + 1 else SetBit(n / 2, s - 1) * 2 + n % 2
  }

  lemma {:induction false} SetBitHas(n: nat, s: nat, t: nat)
    ensures HasBit(SetBit(n, s), t) <==> HasBit(n, t) || s == t
  {
    if s > 0 && t > 0 {
      SetBitHas(n / 2, s - 1, t - 1);
      assert SetBit(n, s) / 2 == SetBit(n / 2, s - 1);
    } else if t > 0 {
      assert SetBit(n, 0) / 2 == n / 2;
    }
  }

  function Power2(k: nat): (p: nat)
    ensures p >= 1
  {
    if k == 0 then 1 else 2 * Power2(k - 1)
  }

  lemma {:induction false} SetBitFits(n: nat, s: nat, k: nat)
    requires s < k && n < Power2(k)
    ensures SetBit(n, s) < Power2(k)
  {
    if s > 0 {
      assert n / 2 < Power2(k - 1);
      SetBitFits(n / 2, s - 1, k - 1);
    }
  }

  function WithBit(b: byte, s: nat): byte
    requires s < 8
  {
    assert Power2(4) == 16 && Power2(8) == 256;
    SetBitFits(b as nat, s, 8);
    SetBit(b as nat, s) as byte
  }

  /** The bit at a position in the bits of a filter. */
  predicate BitAt(bitmap: seq<byte>, position: nat)
    requires position < 8 * |bitmap|
  {
    HasBit(bitmap[position / 8] as nat, position % 8)
  }

  function SetBitAt(bitmap: seq<byte>, position: nat): (r: seq<byte>)
    requires position < 8 * |bitmap|
    ensures |r| == |bitmap|
  {
    bitmap[position / 8 := WithBit(bitmap[position / 8], position % 8)]
  }

  lemma SetBitAtHas(bitmap: seq<byte>, position: nat, other: nat)
    requires position < 8 * |bitmap| && other < 8 * |bitmap|
    ensures BitAt(SetBitAt(bitmap, position), other) <==> BitAt(bitmap, other) || position == other
  {
    if position / 8 == other / 8 {
      SetBitHas(bitmap[position / 8] as nat, position % 8, other % 8);
    }
  }

  // ----- probes -----

  /** Rotate right 17 bits. */
  function Delta(h: Word): Word {
    h / 0x2_0000 + h % 0x2_0000 * 0x8000
  }

  /** The j-th hash value of the double hashing, modulo 2^32. */
  function Probe(h: Word, j: nat): Word {
    if j == 0 then h else (Probe(h, j - 1) + Delta(h)) % 0x1_0000_0000
  }

  /** The first `k` probes of a key hit set bits. */
  ghost predicate Hits(bitmap: seq<byte>, h: Word, k: nat)
    requires bitmap != []
  {
    forall j :: 0 <= j < k ==> BitAt(bitmap, Probe(h, j) % (8 * |bitmap|))
  }

  /** Bits are only ever added. */
  ghost predicate Keeps(before: seq<byte>, after: seq<byte>) {
    |before| == |after| && forall p :: 0 <= p < 8 * |before| && BitAt(before, p) ==> BitAt(after, p)
  }

  /** A filter that was made for a key. */
  ghost predicate MadeFor(hash: Hash, filter: seq<byte>, key: seq<byte>) {
    && |filter| >= 2 && filter[|filter| - 1] as nat <= 30
    && Hits(filter[..|filter| - 1], hash(key), filter[|filter| - 1] as nat)
  }

  // ----- the policy -----

  /** The number of probes: bits_per_key times ln 2, within limits. */
  function ProbesPerKey(bitsPerKey: nat): (k: nat)
    ensures 1 <= k <= 30
  {
    var k := (bitsPerKey as real * 0.69).Floor;
    if k < 1 then 1 else if k > 30 then 30 else k
  }

  /** Sets the bits of one key: the inner loop of CreateFilter. */
  method AddKey(bitmap: seq<byte>, hash: Hash, key: seq<byte>, k: nat) returns (r: seq<byte>)
    requires bitmap != []
    ensures Keeps(bitmap, r) && Hits(r, hash(key), k)
  {
    r := bitmap;
    var h := hash(key);
    var delta := Delta(h);
    for j := 0 to k
      invariant h == Probe(hash(key), j)
      invariant Keeps(bitmap, r) && Hits(r, hash(key), j)
    {
      var position := h % (8 * |r|);
      forall p | 0 <= p < 8 * |r| ensures BitAt(SetBitAt(r, position), p) <==> BitAt(r, p) || position == p {
        SetBitAtHas(r, position, p);
      }
      r := SetBitAt(r, position);
      h := (h + delta) % 0x1_0000_0000;
    }
  }

  /** CreateFilter: appends a filter that was made for each of the keys. */
  method CreateFilter(hash: Hash, bitsPerKey: nat, keys: seq<seq<byte>>, dst: seq<byte>) returns (dst': seq<byte>, ghost filter: seq<byte>)
    ensures dst' == dst + filter
    ensures forall key :: key in keys ==> MadeFor(hash, filter, key)
  {
    var k := ProbesPerKey(bitsPerKey);
    var bits := |keys| * bitsPerKey;
    if bits < 64 {
      bits := 64;
    }
    var bytes := (bits + 7) / 8;
    var bitmap := seq(bytes, _ => 0 as byte);
    for i := 0 to |keys|
      invariant |bitmap| == bytes
      invariant forall m :: 0 <= m < i ==> Hits(bitmap, hash(keys[m]), k)
    {
      bitmap := AddKey(bitmap, hash, keys[i], k);
    }
    filter := bitmap + [k as byte];
    assert filter[..|filter| - 1] == bitmap;
    dst' := dst + bitmap + [k as byte];
  }

  /** A key that the filter was made for may match; otherwise the answer is that of the probes. */
  method KeyMayMatch(hash: Hash, key: seq<byte>, filter: seq<byte>) returns (may: bool)
    ensures MadeFor(hash, filter, key) ==> may
    ensures may ==> |filter| >= 2 && (filter[|filter| - 1] as nat > 30 || MadeFor(hash, filter, key))
  {
    if |filter| < 2 {
      return false;
    }
    var bitmap := filter[..|filter| - 1];
    var k := filter[|filter| - 1] as nat;
    if k > 30 {
      return true;
    }
    var h := hash(key);
    var delta := Delta(h);
    for j := 0 to k
      invariant h == Probe(hash(key), j) && Hits(bitmap, hash(key), j)
    {
      if !BitAt(bitmap, h % (8 * |bitmap|)) {
        return false;
      }
      h := (h + delta) % 0x1_0000_0000;
    }
    return true;
  }
}
