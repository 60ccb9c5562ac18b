/**
 Short keys between keys (util/comparator.cc, db/dbformat.cc): what the index of a table uses in place
 of whole keys.
 */
module Separators {
  import opened Common
  import opened Coding

  // ----- bytewise order -----

  predicate BytesLess(a: seq<byte>, b: seq<byte>) {
    if b == [] then false
    else if a == [] then true
    else if a[0] != b[0] then a[0] < b[0]
    else BytesLess(a[1..], b[1..])
  }

  lemma {:induction false} BytesTransitive(a: seq<byte>, b: seq<byte>, c: seq<byte>)
    requires BytesLess(a, b) && BytesLess(b, c)
    ensures BytesLess(a, c)
  {
    if a != [] && a[0] == b[0] && b[0] == c[0] {
      BytesTransitive(a[1..], b[1..], c[1..]);
    }
  }

  lemma {:induction false} BytesTotal(a: seq<byte>, b: seq<byte>)
    ensures BytesLess(a, b) || BytesLess(b, a) || a == b
    ensures !(BytesLess(a, b) && BytesLess(b, a)) && !BytesLess(a, a)
  {
    if a != [] && b != [] && a[0] == b[0] {
      BytesTotal(a[1..], b[1..]);
    }
    if a != [] {
      BytesTotal(a[1..], a[1..]);
    }
  }

  /** The first byte that differs decides. */
  lemma {:induction false} LessAt(a: seq<byte>, b: seq<byte>, d: nat)
    requires d < |a| && d < |b| && a[..d] == b[..d] && a[d] < b[d]
    ensures BytesLess(a, b)
  {
    if d > 0 {
      assert a[0] == a[..d][0] == b[..d][0] == b[0];
      assert a[1..][..d - 1] == a[..d][1..] == b[..d][1..] == b[1..][..d - 1];
      LessAt(a[1..], b[1..], d - 1);
    }
  }

  /** The first difference leaves room for a byte in between. */
  predicate RoomAt(start: seq<byte>, limit: seq<byte>, d: nat) {
    && d < |start| && d < |limit| && (forall k :: 0 <= k < d ==> start[k] == limit[k]) && start[d] != limit[d]
    && start[d] < 255 && start[d] + 1 < limit[d]
  }

  /** BytewiseComparatorImpl::FindShortestSeparator: the start as it was, or a shorter string in between. */
  method FindShortestSeparator(start: seq<byte>, limit: seq<byte>) returns (r: seq<byte>)
    ensures r == start || (BytesLess(start, r) && BytesLess(r, limit) && |r| <= |start|)
    ensures r == start <==> forall d :: 0 <= d < |start| ==> !RoomAt(start, limit, d)
    ensures r != start ==> exists d :: 0 <= d < |start| && RoomAt(start, limit, d) && r == start[..d] + [start[d] + 1]
  {
    var minLength := if |start| < |limit| then |start| else |limit|;
    var diffIndex := 0;
    while diffIndex < minLength && start[diffIndex] == limit[diffIndex]
      invariant 0 <= diffIndex <= minLength && forall k :: 0 <= k < diffIndex ==> start[k] == limit[k]
    {
      diffIndex := diffIndex + 1;
    }
    r := start;
    if diffIndex < minLength {
      var diffByte := start[diffIndex];
      if diffByte < 255 && diffByte + 1 < limit[diffIndex] {
        r := r[diffIndex := diffByte + 1];
        r := r[..diffIndex + 1];
        assert r[..diffIndex] == start[..diffIndex];
        assert r == start[..diffIndex] + [start[diffIndex] + 1] && RoomAt(start, limit, diffIndex);
        LessAt(start, r, diffIndex);
        BytesTotal(start, start);
        LessAt(r, limit, diffIndex);
      }
    }
  }

  /** BytewiseComparatorImpl::FindShortSuccessor: the key as it was, or a string after it. */
  method FindShortSuccessor(key: seq<byte>) returns (r: seq<byte>)
    ensures r == key || (BytesLess(key, r) && |r| <= |key|)
    ensures r == key <==> forall i :: 0 <= i < |key| ==> key[i] == 255
    ensures r != key ==> exists i ::
      0 <= i < |key| && (forall j :: 0 <= j < i ==> key[j] == 255) && key[i] != 255 && r == key[..i] + [key[i] + 1]
  {
    for i := 0 to |key|
      invariant forall j :: 0 <= j < i ==> key[j] == 255
    {
      if key[i] != 255 {
        r := key[i := key[i] + 1];
        r := r[..i + 1];
        assert r[..i] == key[..i] && r == key[..i] + [key[i] + 1];
        LessAt(key, r, i);
        BytesTotal(key, key);
        return;
      }
    }
    return key;
  }

  // ----- internal keys -----

  /** A user key with the sequence number and the kind, packed into one number. */
  datatype InternalKey = InternalKey(user: seq<byte>, tag: nat)

  const MAX_SEQUENCE := 0xFF_FFFF_FFFF_FFFF
  const TYPE_FOR_SEEK := 1
  const MAX_TAG := MAX_SEQUENCE * 0x100 + TYPE_FOR_SEEK

  /** InternalKeyComparator::Compare: user keys ascending, tags descending. */
  predicate Less(a: InternalKey, b: InternalKey) {
    BytesLess(a.user, b.user) || (a.user == b.user && a.tag > b.tag)
  }

  lemma Transitive(a: InternalKey, b: InternalKey, c: InternalKey)
    requires Less(a, b) && Less(b, c)
    ensures Less(a, c)
  {
    if BytesLess(a.user, b.user) && BytesLess(b.user, c.user) {
      BytesTransitive(a.user, b.user, c.user);
    }
  }

  lemma Total(a: InternalKey, b: InternalKey)
    ensures Less(a, b) || Less(b, a) || a == b
    ensures !(Less(a, b) && Less(b, a)) && !Less(a, a)
  {
    BytesTotal(a.user, b.user);
    BytesTotal(a.user, a.user);
  }

  /** Not before `a`, and before `b`; and if it shares its user key with `b`, it is `a` itself. */
  predicate Separates(a: InternalKey, s: InternalKey, b: InternalKey) {
    (s == a || Less(a, s)) && Less(s, b) && (s.user == b.user ==> s == a)
  }

  /** InternalKeyComparator::FindShortestSeparator */
  method FindInternalSeparator(start: InternalKey, limit: InternalKey) returns (r: InternalKey)
    requires Less(start, limit)
    ensures Separates(start, r, limit)
  {
    var tmp := FindShortestSeparator(start.user, limit.user);
    r := start;
    BytesTotal(tmp, limit.user);
    if |tmp| < |start.user| && BytesLess(start.user, tmp) {
      r := InternalKey(tmp, MAX_TAG);
    }
  }

  /** InternalKeyComparator::FindShortSuccessor */
  method FindInternalSuccessor(key: InternalKey) returns (r: InternalKey)
    ensures r == key || Less(key, r)
  {
    var tmp := FindShortSuccessor(key.user);
    r := key;
    if |tmp| < |key.user| && BytesLess(key.user, tmp) {
      r := InternalKey(tmp, MAX_TAG);
    }
  }
}
