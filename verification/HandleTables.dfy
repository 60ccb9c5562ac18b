/**
 The hash table of the cache (HandleTable in util/cache.cc): an array of chains that doubles as it fills.
 */
module HandleTables {
  import opened Common

  /** What the table knows of an entry: its key and hash, and its address. */
  datatype Slot = Slot(key: string, hash: nat, handle: nat)

  predicate Matches(s: Slot, key: string, hash: nat) {
    s.hash == hash && s.key == key
  }

  /** The remainder of the hash: `hash & (length - 1)`, for a length that is a power of two. */
  function Bucket(hash: nat, length: nat): (b: nat)
    requires length > 0
    ensures b < length
  {
    if hash < length then hash else Bucket(hash - length, length)
  }

  ghost predicate DistinctSlots(chain: seq<Slot>) {
    forall i, j :: 0 <= i < j < |chain| ==> chain[i] != chain[j]
  }

  /** A chain holds each slot of its bucket once. */
  ghost predicate IsChain(chain: seq<Slot>, b: nat, length: nat, slots: set<Slot>)
    requires length > 0
  {
    DistinctSlots(chain) && forall s :: s in chain <==> s in slots && Bucket(s.hash, length) == b
  }

  ghost predicate Holds(buckets: seq<seq<Slot>>, slots: set<Slot>) {
    |buckets| > 0 && forall b :: 0 <= b < |buckets| ==> IsChain(buckets[b], b, |buckets|, slots)
  }

  /** No two slots for the same key. */
  ghost predicate OnePerKey(slots: set<Slot>) {
    forall s, t :: s in slots && t in slots && s.key == t.key && s.hash == t.hash ==> s == t
  }

  /** The slot for a key, if there is one. */
  ghost predicate IsFound(slots: set<Slot>, key: string, hash: nat, found: Option<Slot>) {
    match found
    case Some(s) => s in slots && Matches(s, key, hash)
    case None => forall s :: s in slots ==> !Matches(s, key, hash)
  }

  /** Only the chain of one bucket changes. */
  lemma ChainChanged(buckets: seq<seq<Slot>>, slots: set<Slot>, b: nat, chain: seq<Slot>, slots': set<Slot>)
    requires Holds(buckets, slots) && b < |buckets| && IsChain(chain, b, |buckets|, slots')
    requires forall s: Slot :: Bucket(s.hash, |buckets|) != b ==> (s in slots <==> s in slots')
    ensures Holds(buckets[b := chain], slots')
  {
    var after := buckets[b := chain];
    forall c | 0 <= c < |after| ensures IsChain(after[c], c, |after|, slots') {
      assert IsChain(buckets[c], c, |buckets|, slots);
    }
  }

  lemma PushHolds(buckets: seq<seq<Slot>>, slots: set<Slot>, s: Slot)
    requires Holds(buckets, slots) && s !in slots
    ensures var b := Bucket(s.hash, |buckets|);
      Holds(buckets[b := [s] + buckets[b]], slots + {s})
  {
    var b := Bucket(s.hash, |buckets|);
    assert IsChain(buckets[b], b, |buckets|, slots);
    ChainChanged(buckets, slots, b, [s] + buckets[b], slots + {s});
  }

  lemma AppendHolds(buckets: seq<seq<Slot>>, slots: set<Slot>, s: Slot)
    requires Holds(buckets, slots) && s !in slots
    ensures var b := Bucket(s.hash, |buckets|);
      Holds(buckets[b := buckets[b] + [s]], slots + {s})
  {
    var b := Bucket(s.hash, |buckets|);
    assert IsChain(buckets[b], b, |buckets|, slots);
    ChainChanged(buckets, slots, b, buckets[b] + [s], slots + {s});
  }

  lemma UpdatedChain(chain: seq<Slot>, i: nat, s: Slot)
    requires DistinctSlots(chain) && i < |chain| && s !in chain
    ensures DistinctSlots(chain[i := s])
    ensures forall x :: x in chain[i := s] <==> x == s || (x in chain && x != chain[i])
  {
    var after := chain[i := s];
    forall x | x in chain && x != chain[i] ensures x in after {
      var j :| 0 <= j < |chain| && chain[j] == x;
      assert after[j] == x;
    }
    assert after[i] == s;
    assert forall j :: 0 <= j < |chain| ==> chain[j] in chain;
  }

  lemma ReplaceHolds(buckets: seq<seq<Slot>>, slots: set<Slot>, i: nat, s: Slot)
    requires Holds(buckets, slots) && s !in slots
    requires i < |buckets[Bucket(s.hash, |buckets|)]| && buckets[Bucket(s.hash, |buckets|)][i].hash == s.hash
    ensures var b := Bucket(s.hash, |buckets|);
      Holds(buckets[b := buckets[b][i := s]], slots - {buckets[b][i]} + {s})
  {
    var b := Bucket(s.hash, |buckets|);
    assert IsChain(buckets[b], b, |buckets|, slots);
    UpdatedChain(buckets[b], i, s);
    ChainChanged(buckets, slots, b, buckets[b][i := s], slots - {buckets[b][i]} + {s});
  }

  lemma ShortenedChain(chain: seq<Slot>, i: nat)
    requires DistinctSlots(chain) && i < |chain|
    ensures DistinctSlots(chain[..i] + chain[i + 1..])
    ensures forall x :: x in chain[..i] + chain[i + 1..] <==> x in chain && x != chain[i]
  {
    var after := chain[..i] + chain[i + 1..];
    assert forall j :: 0 <= j < |after| ==> after[j] == chain[if j < i then j else j + 1];
    forall x | x in chain && x != chain[i] ensures x in after {
      var j :| 0 <= j < |chain| && chain[j] == x;
      assert after[if j < i then j else j - 1] == x;
    }
  }

  lemma RemoveHolds(buckets: seq<seq<Slot>>, slots: set<Slot>, b: nat, i: nat)
    requires Holds(buckets, slots) && b < |buckets| && i < |buckets[b]|
    ensures Holds(buckets[b := buckets[b][..i] + buckets[b][i + 1..]], slots - {buckets[b][i]})
  {
    assert IsChain(buckets[b], b, |buckets|, slots);
    assert buckets[b][i] in buckets[b];
    ShortenedChain(buckets[b], i);
    ChainChanged(buckets, slots, b, buckets[b][..i] + buckets[b][i + 1..], slots - {buckets[b][i]});
  }

  lemma KeysStayApart(slots: set<Slot>, s: Slot, replaced: Option<Slot>)
    requires OnePerKey(slots) && s !in slots && IsFound(slots, s.key, s.hash, replaced)
    ensures replaced.Some? ==> OnePerKey(slots - {replaced.value} + {s}) && |slots - {replaced.value} + {s}| == |slots|
    ensures replaced.None? ==> OnePerKey(slots + {s}) && |slots + {s}| == |slots| + 1
  {
  }

  predicate PowerOfTwo(n: nat) {
    n == 1 || (n > 1 && n % 2 == 0 && PowerOfTwo(n / 2))
  }

  class HandleTable {
    var buckets: seq<seq<Slot>>
    var elems: nat
    ghost var slots: set<Slot>

    ghost predicate Counted()
      reads this
    {
      Holds(buckets, slots) && OnePerKey(slots) && elems == |slots|
    }

    /** There are at least as many chains as slots, so a chain has at most one slot on average. */
    ghost predicate Valid()
      reads this
    {
      Counted() && elems <= |buckets| && PowerOfTwo(|buckets|)
    }

    constructor ()
      ensures Valid() && slots == {}
    {
      buckets, elems, slots := [[], [], [], []], 0, {};
      assert PowerOfTwo(1) && PowerOfTwo(2);
    }

    /** FindPointer: the place in its chain, or the end of the chain. */
    method FindPointer(key: string, hash: nat) returns (b: nat, i: nat)
      requires Valid()
      ensures b == Bucket(hash, |buckets|) && i <= |buckets[b]|
      ensures i < |buckets[b]| ==> Matches(buckets[b][i], key, hash) && IsFound(slots, key, hash, Some(buckets[b][i]))
      ensures i == |buckets[b]| ==> IsFound(slots, key, hash, None)
    {
      b, i := Bucket(hash, |buckets|), 0;
      while i < |buckets[b]| && (buckets[b][i].hash != hash || key != buckets[b][i].key)
        invariant 0 <= i <= |buckets[b]|
        invariant forall j :: 0 <= j < i ==> !Matches(buckets[b][j], key, hash)
      {
        i := i + 1;
      }
    }

    method Lookup(key: string, hash: nat) returns (found: Option<Slot>)
      requires Valid()
      ensures IsFound(slots, key, hash, found)
    {
      var b, i := FindPointer(key, hash);
      found := if i < |buckets[b]| then Some(buckets[b][i]) else None;
    }

    method Insert(s: Slot) returns (replaced: Option<Slot>)
      requires Valid() && s !in slots
      modifies this
      ensures Valid() && IsFound(old(slots), s.key, s.hash, replaced)
      ensures slots == (if replaced.Some? then old(slots) - {replaced.value} else old(slots)) + {s}
      ensures |slots| <= old(|buckets|) ==> |buckets| == old(|buckets|)
      ensures |slots| > old(|buckets|) ==> |buckets| > old(|buckets|)
    {
      var b, i := FindPointer(s.key, s.hash);
      if i < |buckets[b]| {
        replaced := Some(buckets[b][i]);
        ReplaceHolds(buckets, slots, i, s);
        KeysStayApart(slots, s, replaced);
        buckets := buckets[b := buckets[b][i := s]];
        slots := slots - {replaced.value} + {s};
      } else {
        replaced := None;
        AppendHolds(buckets, slots, s);
        KeysStayApart(slots, s, replaced);
        buckets := buckets[b := buckets[b] + [s]];
        slots := slots + {s};
        elems := elems + 1;
        if elems > |buckets| {
          Resize();
        }
      }
    }

    method Remove(key: string, hash: nat) returns (removed: Option<Slot>)
      requires Valid()
      modifies this
      ensures Valid() && IsFound(old(slots), key, hash, removed) && |buckets| == old(|buckets|)
      ensures slots == if removed.Some? then old(slots) - {removed.value} else old(slots)
    {
      var b, i := FindPointer(key, hash);
      if i < |buckets[b]| {
        removed := Some(buckets[b][i]);
        RemoveHolds(buckets, slots, b, i);
        buckets := buckets[b := buckets[b][..i] + buckets[b][i + 1..]];
        slots := slots - {removed.value};
        elems := elems - 1;
      } else {
        removed := None;
      }
    }

    /** Moves every slot to a table that is large enough. */
    method Resize()
      requires Counted()
      modifies this
      ensures Valid() && slots == old(slots)
    {
      var length := 4;
      assert PowerOfTwo(1) && PowerOfTwo(2);
      while length < elems
        invariant length > 0 && PowerOfTwo(length)
        decreases elems - length
      {
        length := length * 2;
      }
      buckets := Rehashed(buckets, slots, length);
    }
  }

  /** The loops of Resize: every slot moves to the front of its new chain. */
  method Rehashed(buckets: seq<seq<Slot>>, ghost slots: set<Slot>, length: nat) returns (r: seq<seq<Slot>>)
    requires Holds(buckets, slots) && length > 0
    ensures |r| == length && Holds(r, slots)
  {
    r := seq(length, _ => []);
    ghost var moved: set<Slot> := {};
    for b := 0 to |buckets|
      invariant |r| == length && Holds(r, moved)
      invariant forall s :: s in moved <==> s in slots && Bucket(s.hash, |buckets|) < b
    {
      assert IsChain(buckets[b], b, |buckets|, slots);
      for i := 0 to |buckets[b]|
        invariant |r| == length && Holds(r, moved)
        invariant forall s :: s in moved <==> s in slots && (Bucket(s.hash, |buckets|) < b || s in buckets[b][..i])
      {
        var s := buckets[b][i];
        assert s in buckets[b] && s !in buckets[b][..i];
        assert buckets[b][..i + 1] == buckets[b][..i] + [s];
        PushHolds(r, moved, s);
        var c := Bucket(s.hash, length);
        r := r[c := [s] + r[c]];
        moved := moved + {s};
      }
      assert buckets[b][..|buckets[b]|] == buckets[b];
    }
    assert moved == slots;
  }
}
