/**
 One shard of the LRU cache (LRUCache in util/cache.cc). Handles are addresses; a linked list is the
 sequence of its members, the oldest first.
 */
module Cache {
  import opened Common
  import opened HandleTables

  datatype Entry = Entry(key: string, hash: nat, value: int, charge: nat, refs: nat, inCache: bool)

  type Entries = map<nat, Entry>

  function SlotOf(h: nat, e: Entry): Slot {
    Slot(e.key, e.hash, h)
  }

  // ----- lists -----

  ghost predicate NoDuplicates(list: seq<nat>) {
    forall i, j :: 0 <= i < j < |list| ==> list[i] != list[j]
  }

  /** LRU_Remove */
  function Without(list: seq<nat>, h: nat): (r: seq<nat>) {
    if list == [] then [] else if list[0] == h then list[1..] else [list[0]] + Without(list[1..], h)
  }

  lemma {:induction false} WithoutIs(list: seq<nat>, h: nat)
    requires NoDuplicates(list)
    ensures NoDuplicates(Without(list, h))
    ensures forall x :: x in Without(list, h) <==> x in list && x != h
    ensures h !in list ==> Without(list, h) == list
  {
    if list != [] {
      var first, rest := list[0], list[1..];
      assert first !in rest;
      WithoutIs(rest, h);
    }
  }

  function Charges(entries: Entries, list: seq<nat>): nat {
    if list == [] then 0 else
      (if list[0] in entries then entries[list[0]].charge else 0) + Charges(entries, list[1..])
  }

  lemma {:induction false} ChargesWithout(entries: Entries, list: seq<nat>, h: nat)
    requires h in list && h in entries
    ensures Charges(entries, list) == entries[h].charge + Charges(entries, Without(list, h))
  {
    if list[0] != h {
      ChargesWithout(entries, list[1..], h);
    }
  }

  lemma {:induction false} ChargesOneMore(entries: Entries, list: seq<nat>, h: nat)
    requires h in entries
    ensures Charges(entries, list + [h]) == Charges(entries, list) + entries[h].charge
  {
    var z := list + [h];
    if list != [] {
      assert z[0] == list[0];
      assert z[1..] == list[1..] + [h];
      ChargesOneMore(entries, list[1..], h);
    }
  }

  lemma {:induction false} SameCharges(entries: Entries, entries': Entries, list: seq<nat>)
    requires forall h :: h in list ==> h in entries && h in entries' && entries[h].charge == entries'[h].charge
    ensures Charges(entries, list) == Charges(entries', list)
  {
    if list != [] {
      SameCharges(entries, entries', list[1..]);
    }
  }

  // ----- the invariant -----

  /** How many references an entry has: those held by clients, and one of the cache. */
  predicate Counted(e: Entry, held: nat) {
    e.refs == held + (if e.inCache then 1 else 0) && e.refs >= 1
  }

  /** An entry is in the table or not, on one of the lists or on none, as its fields say. */
  ghost predicate Placed(h: nat, e: Entry, lru: seq<nat>, inUse: seq<nat>, slots: set<Slot>) {
    && (e.inCache <==> SlotOf(h, e) in slots)
    && (h in lru <==> e.inCache && e.refs == 1)
    && (h in inUse <==> e.inCache && e.refs >= 2)
  }

  /** The fields of a cache. Ghost in spirit: the references clients hold, and the calls of deleters. */
  datatype State = State(entries: Entries, lru: seq<nat>, inUse: seq<nat>, usage: int, held: map<nat, nat>, deleted: seq<nat>)

  ghost predicate Consistent(s: State, slots: set<Slot>) {
    && NoDuplicates(s.lru) && NoDuplicates(s.inUse)
    && s.held.Keys == s.entries.Keys
    && (forall h :: h in s.entries ==> Counted(s.entries[h], s.held[h]) && Placed(h, s.entries[h], s.lru, s.inUse, slots))
    && (forall h :: h in s.lru || h in s.inUse ==> h in s.entries)
    && (forall t :: t in slots ==> t.handle in s.entries && t == SlotOf(t.handle, s.entries[t.handle]))
  }

  ghost predicate DeletedOnce(s: State) {
    NoDuplicates(s.deleted) && forall h :: h in s.deleted ==> h !in s.entries
  }

  /** All addresses so far are below `next`. */
  ghost predicate Below(s: State, next: nat) {
    forall h :: h in s.entries || h in s.deleted ==> h < next
  }

  function Total(entries: Entries, lru: seq<nat>, inUse: seq<nat>): nat {
    Charges(entries, lru) + Charges(entries, inUse)
  }

  /** What holds between the calls: the table has exactly the cached entries, references are counted,
      the lists are as they should be, usage is the sum of the charges, and no deleter ran twice. */
  ghost predicate Ok(s: State, slots: set<Slot>) {
    Consistent(s, slots) && s.usage == Total(s.entries, s.lru, s.inUse) && DeletedOnce(s)
  }

  // ----- what the operations do -----

  function AfterRef(s: State, h: nat): State
    requires h in s.entries && h in s.held
  {
    var e := s.entries[h];
    var moves := e.refs == 1 && e.inCache;
    s.(entries := s.entries[h := e.(refs := e.refs + 1)],
       lru := if moves then Without(s.lru, h) else s.lru,
       inUse := if moves then s.inUse + [h] else s.inUse,
       held := s.held[h := s.held[h] + 1])
  }

  /** A client gives a reference back. A deleter runs exactly when it was the last one. */
  function AfterRelease(s: State, h: nat): State
    requires h in s.entries && h in s.held && s.held[h] > 0 && s.entries[h].refs > 0
  {
    var e := s.entries[h];
    if e.refs == 1 then
      s.(entries := s.entries - {h}, held := s.held - {h}, deleted := s.deleted + [h])
    else
      var moves := e.refs == 2 && e.inCache;
      s.(entries := s.entries[h := e.(refs := e.refs - 1)],
         lru := if moves then s.lru + [h] else s.lru,
         inUse := if moves then Without(s.inUse, h) else s.inUse,
         held := s.held[h := s.held[h] - 1])
  }

  /** The cache lets an entry go: it is deleted at once if nobody else holds it. */
  function AfterErase(s: State, h: nat): State
    requires h in s.entries && s.entries[h].refs > 0
  {
    var e := s.entries[h];
    var r := s.(lru := Without(s.lru, h), inUse := Without(s.inUse, h), usage := s.usage - e.charge);
    if e.refs == 1 then
      r.(entries := s.entries - {h}, held := s.held - {h}, deleted := s.deleted + [h])
    else
      r.(entries := s.entries[h := e.(refs := e.refs - 1, inCache := false)])
  }

  function AfterErasing(s: State, slot: Option<Slot>): State
    requires slot.Some? ==> slot.value.handle in s.entries && s.entries[slot.value.handle].refs > 0
  {
    if slot.Some? then AfterErase(s, slot.value.handle) else s
  }

  /** A new entry, held by the client that inserted it. */
  function AfterNew(s: State, h: nat, e: Entry): State {
    s.(entries := s.entries[h := e], held := s.held[h := 1],
       inUse := if e.inCache then s.inUse + [h] else s.inUse,
       usage := if e.inCache then s.usage + e.charge else s.usage)
  }

  /** The oldest entries go until the others fit. */
  function AfterEviction(s: State, capacity: int): State
    decreases |s.lru|
  {
    if s.usage > capacity && s.lru != [] && s.lru[0] in s.entries && s.entries[s.lru[0]].refs > 0 then
      AfterEviction(AfterErase(s, s.lru[0]), capacity)
    else s
  }

  // ----- every operation keeps the invariant -----

  lemma RefIsOk(s: State, slots: set<Slot>, h: nat)
    requires Ok(s, slots) && h in s.entries
    ensures Ok(AfterRef(s, h), slots)
  {
    if s.entries[h].refs == 1 && s.entries[h].inCache {
      MovingRefIsOk(s, slots, h);
    } else {
      StayingRefIsOk(s, slots, h);
    }
  }

  lemma MovingRefIsOk(s: State, slots: set<Slot>, h: nat)
    requires Ok(s, slots) && h in s.entries && s.entries[h].refs == 1 && s.entries[h].inCache
    ensures Ok(AfterRef(s, h), slots)
  {
    var t := AfterRef(s, h);
    WithoutIs(s.lru, h);
    SameCharges(s.entries, t.entries, s.lru);
    SameCharges(s.entries, t.entries, s.inUse);
    ChargesWithout(t.entries, s.lru, h);
    ChargesOneMore(t.entries, s.inUse, h);
  }

  lemma StayingRefIsOk(s: State, slots: set<Slot>, h: nat)
    requires Ok(s, slots) && h in s.entries && !(s.entries[h].refs == 1 && s.entries[h].inCache)
    ensures Ok(AfterRef(s, h), slots)
  {
    var t := AfterRef(s, h);
    SameCharges(s.entries, t.entries, s.lru);
    SameCharges(s.entries, t.entries, s.inUse);
  }

  lemma ReleaseIsOk(s: State, slots: set<Slot>, h: nat)
    requires Ok(s, slots) && h in s.entries && s.held[h] > 0
    ensures Ok(AfterRelease(s, h), slots)
  {
    var e := s.entries[h];
    if e.refs == 1 {
      LastReleaseIsOk(s, slots, h);
    } else if e.refs == 2 && e.inCache {
      MovingReleaseIsOk(s, slots, h);
    } else {
      StayingReleaseIsOk(s, slots, h);
    }
  }

  lemma LastReleaseIsOk(s: State, slots: set<Slot>, h: nat)
    requires Ok(s, slots) && h in s.entries && s.held[h] > 0 && s.entries[h].refs == 1
    ensures Ok(AfterRelease(s, h), slots)
  {
    var t := AfterRelease(s, h);
    SameCharges(s.entries, t.entries, s.lru);
    SameCharges(s.entries, t.entries, s.inUse);
  }

  lemma StayingReleaseIsOk(s: State, slots: set<Slot>, h: nat)
    requires Ok(s, slots) && h in s.entries && s.held[h] > 0 && s.entries[h].refs > 1
    requires !(s.entries[h].refs == 2 && s.entries[h].inCache)
    ensures Ok(AfterRelease(s, h), slots)
  {
    var t := AfterRelease(s, h);
    SameCharges(s.entries, t.entries, s.lru);
    SameCharges(s.entries, t.entries, s.inUse);
  }

  lemma MovingReleaseIsOk(s: State, slots: set<Slot>, h: nat)
    requires Ok(s, slots) && h in s.entries && s.held[h] > 0 && s.entries[h].refs == 2 && s.entries[h].inCache
    ensures Ok(AfterRelease(s, h), slots)
  {
    var t := AfterRelease(s, h);
    WithoutIs(s.inUse, h);
    SameCharges(s.entries, t.entries, s.lru);
    SameCharges(s.entries, t.entries, s.inUse);
    ChargesWithout(t.entries, s.inUse, h);
    ChargesOneMore(t.entries, s.lru, h);
  }

  lemma EraseIsOk(s: State, slots: set<Slot>, h: nat)
    requires Ok(s, slots) && h in s.entries && s.entries[h].inCache
    ensures Ok(AfterErase(s, h), slots - {SlotOf(h, s.entries[h])})
  {
    if s.entries[h].refs == 1 {
      EraseUnheldIsOk(s, slots, h);
    } else {
      EraseHeldIsOk(s, slots, h);
    }
  }

  lemma EraseUnheldIsOk(s: State, slots: set<Slot>, h: nat)
    requires Ok(s, slots) && h in s.entries && s.entries[h].inCache && s.entries[h].refs == 1
    ensures Ok(AfterErase(s, h), slots - {SlotOf(h, s.entries[h])})
  {
    var t := AfterErase(s, h);
    WithoutIs(s.lru, h);
    WithoutIs(s.inUse, h);
    SameCharges(s.entries, t.entries, t.lru);
    SameCharges(s.entries, t.entries, t.inUse);
    ChargesWithout(s.entries, s.lru, h);
  }

  lemma EraseHeldCharges(s: State, slots: set<Slot>, h: nat)
    requires Ok(s, slots) && h in s.entries && s.entries[h].inCache && s.entries[h].refs > 1
    ensures var t := AfterErase(s, h); t.usage == Total(t.entries, t.lru, t.inUse)
  {
    var t := AfterErase(s, h);
    WithoutIs(s.lru, h);
    WithoutIs(s.inUse, h);
    SameCharges(s.entries, t.entries, t.lru);
    SameCharges(s.entries, t.entries, t.inUse);
    ChargesWithout(s.entries, s.inUse, h);
  }

  lemma EraseHeldConsistent(s: State, slots: set<Slot>, h: nat)
    requires Consistent(s, slots) && h in s.entries && s.entries[h].inCache && s.entries[h].refs > 1
    ensures Consistent(AfterErase(s, h), slots - {SlotOf(h, s.entries[h])})
  {
    WithoutIs(s.lru, h);
    WithoutIs(s.inUse, h);
  }

  lemma EraseHeldIsOk(s: State, slots: set<Slot>, h: nat)
    requires Ok(s, slots) && h in s.entries && s.entries[h].inCache && s.entries[h].refs > 1
    ensures Ok(AfterErase(s, h), slots - {SlotOf(h, s.entries[h])})
  {
    EraseHeldCharges(s, slots, h);
    EraseHeldConsistent(s, slots, h);
  }

  lemma ErasingIsOk(s: State, slots: set<Slot>, removed: Option<Slot>, next: nat)
    requires Ok(s, slots) && Below(s, next) && (removed.Some? ==> removed.value in slots)
    ensures removed.Some? ==> removed.value.handle in s.entries && s.entries[removed.value.handle].refs > 0
    ensures var t := AfterErasing(s, removed);
      Ok(t, if removed.Some? then slots - {removed.value} else slots) && Below(t, next)
  {
    if removed.Some? {
      EraseIsOk(s, slots, removed.value.handle);
    }
  }

  /** An entry that was replaced under its key leaves the lists, and the new one stays. */
  lemma AddedIsOk(s: State, slots: set<Slot>, h: nat, replaced: Option<Slot>, next: nat)
    requires Ok(s, slots) && Below(s, next) && h in s.entries && s.entries[h].refs == 2 && s.entries[h].inCache
    requires replaced.Some? ==> replaced.value in slots && replaced.value.handle != h
    ensures replaced.Some? ==> replaced.value.handle in s.entries && s.entries[replaced.value.handle].refs > 0
    ensures var t := AfterErasing(s, replaced);
      && Ok(t, if replaced.Some? then slots - {replaced.value} else slots)
      && Below(t, next) && h in t.entries && h in t.held && t.held[h] == s.held[h] && h !in t.lru
  {
    if replaced.Some? {
      EraseIsOk(s, slots, replaced.value.handle);
    }
  }

  lemma SlotReplaced(before: set<Slot>, added: Slot, replaced: Option<Slot>, after: set<Slot>)
    requires added !in before && (replaced.Some? ==> replaced.value in before)
    requires after == (if replaced.Some? then before - {replaced.value} else before) + {added}
    ensures after == if replaced.Some? then before + {added} - {replaced.value} else before + {added}
  {
  }

  lemma NewIsOk(s: State, slots: set<Slot>, h: nat, e: Entry)
    requires Ok(s, slots) && h !in s.entries && h !in s.deleted && Counted(e, 1)
    ensures Ok(AfterNew(s, h, e), if e.inCache then slots + {SlotOf(h, e)} else slots)
  {
    var t := AfterNew(s, h, e);
    SameCharges(s.entries, t.entries, s.lru);
    SameCharges(s.entries, t.entries, s.inUse);
    ChargesOneMore(t.entries, s.inUse, h);
  }

  // ----- eviction -----

  lemma OldestGoes(s: State, slots: set<Slot>)
    requires Ok(s, slots) && s.lru != []
    ensures var h := s.lru[0];
      && h in s.entries && s.entries[h].inCache && s.entries[h].refs == 1 && SlotOf(h, s.entries[h]) in slots
      && AfterErase(s, h).lru == s.lru[1..] && AfterErase(s, h).inUse == s.inUse
      && AfterErase(s, h).deleted == s.deleted + [h]
  {
    assert s.lru[0] in s.lru;
    assert s.lru[0] !in s.inUse;
    WithoutIs(s.inUse, s.lru[0]);
  }

  /** The `k` oldest unused entries are gone, no more than it takes to fit, and nothing else. */
  ghost predicate Evicted(s: State, t: State, k: nat, capacity: int) {
    && k <= |s.lru|
    && t.lru == s.lru[k..] && t.inUse == s.inUse && t.deleted == s.deleted + s.lru[..k]
    && t.usage == s.usage - Charges(s.entries, s.lru[..k])
    && (t.usage <= capacity || t.lru == [])
    && (k > 0 ==> s.usage - Charges(s.entries, s.lru[..k - 1]) > capacity)
    && Spared(s, t, s.lru[..k])
  }

  /** Only the entries of this list are gone. */
  ghost predicate Spared(s: State, t: State, gone: seq<nat>) {
    && (forall h :: h in s.entries && h !in gone ==> h in t.entries && t.entries[h] == s.entries[h])
    && (forall h :: h in s.held && h !in gone ==> h in t.held && t.held[h] == s.held[h])
  }

  lemma SparedOneMore(s: State, r: State, t: State, h: nat, gone: seq<nat>)
    requires r.entries == s.entries - {h} && r.held == s.held - {h} && Spared(r, t, gone)
    ensures Spared(s, t, [h] + gone)
  {
    assert forall x :: x !in [h] + gone ==> x != h && x !in gone;
  }

  lemma EvictedOneMore(s: State, r: State, t: State, j: nat, capacity: int)
    requires s.lru != [] && NoDuplicates(s.lru) && (forall h :: h in s.lru ==> h in s.entries)
    requires r.lru == s.lru[1..] && r.inUse == s.inUse && r.deleted == s.deleted + [s.lru[0]]
    requires r.entries == s.entries - {s.lru[0]} && r.held == s.held - {s.lru[0]}
    requires r.usage == s.usage - s.entries[s.lru[0]].charge && s.usage > capacity
    requires Evicted(r, t, j, capacity)
    ensures Evicted(s, t, j + 1, capacity)
  {
    RunOfOldest(s, r, j);
    SparedOneMore(s, r, t, s.lru[0], r.lru[..j]);
    EvictedRun(s.lru, s.deleted, j);
  }

  lemma EvictedRun(lru: seq<nat>, deleted: seq<nat>, j: nat)
    requires lru != [] && j <= |lru| - 1
    ensures lru[1..][j..] == lru[j + 1..] && (deleted + [lru[0]]) + lru[1..][..j] == deleted + lru[..j + 1]
  {
  }

  lemma RunOfOldest(s: State, r: State, j: nat)
    requires s.lru != [] && r.lru == s.lru[1..] && j <= |r.lru| && NoDuplicates(s.lru)
    requires (forall h :: h in s.lru ==> h in s.entries) && r.entries == s.entries - {s.lru[0]}
    ensures [s.lru[0]] + r.lru[..j] == s.lru[..j + 1]
    ensures Charges(s.entries, s.lru[..j + 1]) == s.entries[s.lru[0]].charge + Charges(r.entries, r.lru[..j])
    ensures Charges(s.entries, s.lru[..j]) == if j > 0 then s.entries[s.lru[0]].charge + Charges(r.entries, r.lru[..j - 1]) else 0
  {
    assert s.lru[..j + 1][1..] == r.lru[..j];
    SameCharges(s.entries, r.entries, r.lru[..j]);
    if j > 0 {
      assert s.lru[..j][1..] == r.lru[..j - 1];
      SameCharges(s.entries, r.entries, r.lru[..j - 1]);
    }
  }

  /** Eviction deletes the shortest run of the oldest unused entries that makes the others fit. */
  lemma {:induction false} EvictsOldest(s: State, slots: set<Slot>, capacity: int) returns (k: nat)
    requires Ok(s, slots)
    ensures Evicted(s, AfterEviction(s, capacity), k, capacity)
    decreases |s.lru|
  {
    if s.lru != [] && s.usage > capacity {
      OldestGoes(s, slots);
      var h := s.lru[0];
      EraseIsOk(s, slots, h);
      var j := EvictsOldest(AfterErase(s, h), slots - {SlotOf(h, s.entries[h])}, capacity);
      k := j + 1;
      EvictedOneMore(s, AfterErase(s, h), AfterEviction(s, capacity), j, capacity);
    } else {
      k := 0;
      assert s.lru[..0] == [] && s.lru[0..] == s.lru;
    }
  }

  // ----- the cache -----

  class LRUCache {
    const capacity: nat
    const table: HandleTable
    var usage: int
    var lru: seq<nat>
    var inUse: seq<nat>
    /** The entries that are allocated, and the next free address. */
    var entries: Entries
    var next: nat
    /** The references that clients hold. */
    ghost var held: map<nat, nat>
    /** The calls of deleters, in order. */
    ghost var deleted: seq<nat>

    ghost function Now(): State
      reads this
    {
      State(entries, lru, inUse, usage, held, deleted)
    }

    ghost predicate Valid()
      reads this, table
    {
      table.Valid() && Ok(Now(), table.slots) && Below(Now(), next)
    }

    constructor (capacity: nat)
      ensures Valid() && fresh(table) && this.capacity == capacity
      ensures Now() == State(map[], [], [], 0, map[], []) && table.slots == {}
    {
      this.capacity := capacity;
      table := new HandleTable();
      usage, lru, inUse, entries, next, held, deleted := 0, [], [], map[], 0, map[], [];
    }

    method Ref(h: nat)
      requires h in entries && h in held
      modifies this`entries, this`lru, this`inUse, this`held
      ensures Now() == AfterRef(old(Now()), h)
    {
      var e := entries[h];
      if e.refs == 1 && e.inCache {
        lru := Without(lru, h);
        inUse := inUse + [h];
      }
      entries := entries[h := e.(refs := e.refs + 1)];
      held := held[h := held[h] + 1];
    }

    /** Unref, for a client that gives its reference back. */
    method Unref(h: nat)
      requires h in entries && h in held && held[h] > 0 && entries[h].refs > 0
      modifies this`entries, this`lru, this`inUse, this`held, this`deleted
      ensures Now() == AfterRelease(old(Now()), h)
    {
      var e := entries[h];
      entries, held := entries[h := e.(refs := e.refs - 1)], held[h := held[h] - 1];
      if entries[h].refs == 0 {
        deleted := deleted + [h];
        entries, held := entries - {h}, held - {h};
      } else if e.inCache && entries[h].refs == 1 {
        inUse := Without(inUse, h);
        lru := lru + [h];
      }
    }

    /** FinishErase, for an entry that has just left the table. */
    method FinishErase(slot: Option<Slot>)
      requires slot.Some? ==> slot.value.handle in entries && entries[slot.value.handle].refs > 0
      modifies this`entries, this`lru, this`inUse, this`held, this`deleted, this`usage
      ensures Now() == AfterErasing(old(Now()), slot)
    {
      if slot.Some? {
        var h := slot.value.handle;
        var e := entries[h];
        lru, inUse := Without(lru, h), Without(inUse, h);
        usage := usage - e.charge;
        if e.refs == 1 {
          deleted := deleted + [h];
          entries, held := entries - {h}, held - {h};
        } else {
          entries := entries[h := e.(inCache := false, refs := e.refs - 1)];
        }
      }
    }

    /** The entry under a key, if there is one, with one more reference for the caller. */
    method Lookup(key: string, hash: nat) returns (found: Option<Slot>)
      requires Valid()
      modifies this`entries, this`lru, this`inUse, this`held
      ensures Valid() && IsFound(table.slots, key, hash, found)
      ensures found.Some? ==> found.value.handle in old(entries) && Now() == AfterRef(old(Now()), found.value.handle)
      ensures found.None? ==> Now() == old(Now())
    {
      found := table.Lookup(key, hash);
      if found.Some? {
        RefIsOk(Now(), table.slots, found.value.handle);
        Ref(found.value.handle);
      }
    }

    method Release(h: nat)
      requires Valid() && h in entries && held[h] > 0
      modifies this`entries, this`lru, this`inUse, this`held, this`deleted
      ensures Valid() && Now() == AfterRelease(old(Now()), h)
    {
      ReleaseIsOk(Now(), table.slots, h);
      Unref(h);
    }

    method Erase(key: string, hash: nat) returns (ghost removed: Option<Slot>)
      requires Valid()
      modifies this`entries, this`lru, this`inUse, this`held, this`deleted, this`usage, table
      ensures Valid() && IsFound(old(table.slots), key, hash, removed)
      ensures removed.Some? ==> removed.value.handle in old(entries) && old(entries)[removed.value.handle].refs > 0
      ensures Now() == AfterErasing(old(Now()), removed)
      ensures table.slots == if removed.Some? then old(table.slots) - {removed.value} else old(table.slots)
    {
      var slot := table.Remove(key, hash);
      removed := slot;
      ErasingIsOk(Now(), old(table.slots), slot, next);
      FinishErase(slot);
    }

    /** The loop that makes room: it always ends, and every entry it looks for is in the table. */
    method MakeRoom(limit: int)
      requires Valid()
      modifies this`entries, this`lru, this`inUse, this`held, this`deleted, this`usage, table
      ensures Valid() && Now() == AfterEviction(old(Now()), limit)
    {
      while usage > limit && lru != []
        invariant Valid() && AfterEviction(Now(), limit) == AfterEviction(old(Now()), limit)
        decreases |lru|
      {
        EvictOldest();
      }
    }

    method EvictOldest()
      requires Valid() && lru != []
      modifies this`entries, this`lru, this`inUse, this`held, this`deleted, this`usage, table
      ensures old(lru)[0] in old(entries) && old(entries)[old(lru)[0]].refs > 0
      ensures Valid() && Now() == AfterErase(old(Now()), old(lru)[0]) && |lru| < |old(lru)|
    {
      var h := lru[0];
      OldestGoes(Now(), table.slots);
      ghost var slots := table.slots;
      var slot := table.Remove(entries[h].key, entries[h].hash);
      assert slot == Some(SlotOf(h, entries[h]));
      ErasingIsOk(Now(), slots, slot, next);
      FinishErase(slot);
    }

    method Prune()
      requires Valid()
      modifies this`entries, this`lru, this`inUse, this`held, this`deleted, this`usage, table
      ensures Valid() && lru == [] && Now() == AfterEviction(old(Now()), -1)
    {
      ghost var k := EvictsOldest(Now(), table.slots, -1);
      MakeRoom(-1);
      assert usage >= 0;
    }

    /** A new entry at a new address, with the fields that Insert gives it. */
    method Allocate(e: Entry) returns (h: nat)
      requires Valid() && Counted(e, 1)
      modifies this`entries, this`held, this`inUse, this`usage, this`next
      ensures h == old(next) && h !in old(entries) && h in entries && entries[h] == e
      ensures Now() == AfterNew(old(Now()), h, e) && Below(Now(), next)
      ensures SlotOf(h, e) !in table.slots && h in held && held[h] == 1 && h !in lru
      ensures Ok(Now(), if e.inCache then table.slots + {SlotOf(h, e)} else table.slots)
    {
      h := next;
      NewIsOk(Now(), table.slots, h, e);
      next := next + 1;
      entries, held := entries[h := e], held[h := 1];
      if e.inCache {
        inUse := inUse + [h];
        usage := usage + e.charge;
      }
    }

    method PutInTable(s: Slot) returns (slot: Option<Slot>)
      requires table.Valid() && s !in table.slots
      modifies table
      ensures table.Valid() && IsFound(old(table.slots), s.key, s.hash, slot)
      ensures table.slots == if slot.Some? then old(table.slots) + {s} - {slot.value} else old(table.slots) + {s}
    {
      ghost var before := table.slots;
      slot := table.Insert(s);
      SlotReplaced(before, s, slot, table.slots);
    }

    /** Puts the entry in the table; one that was there under the same key leaves the cache. */
    method Publish(h: nat, e: Entry) returns (ghost replaced: Option<Slot>)
      requires table.Valid() && h in entries && entries[h] == e && e.refs == 2 && e.inCache
      requires SlotOf(h, e) !in table.slots && Ok(Now(), table.slots + {SlotOf(h, e)}) && Below(Now(), next)
      modifies this`entries, this`lru, this`inUse, this`held, this`deleted, this`usage, table
      ensures Valid() && IsFound(old(table.slots), e.key, e.hash, replaced)
      ensures replaced.Some? ==> replaced.value.handle in old(entries) && replaced.value.handle != h
      ensures replaced.Some? ==> old(entries)[replaced.value.handle].refs > 0
      ensures Now() == AfterErasing(old(Now()), replaced)
      ensures h in entries && h in held && held[h] == old(held)[h] && h !in lru
    {
      ghost var before := table.slots;
      var slot := PutInTable(SlotOf(h, e));
      replaced := slot;
      AddedIsOk(Now(), before + {SlotOf(h, e)}, h, slot, next);
      FinishErase(slot);
    }

    /** The first part of Insert: the new entry replaces the one under the same key. */
    method Add(key: string, hash: nat, value: int, charge: nat) returns (h: nat, ghost replaced: Option<Slot>)
      requires Valid()
      modifies this, table
      ensures Valid() && h == old(next)
      ensures if capacity > 0 then IsFound(old(table.slots), key, hash, replaced) else replaced == None
      ensures replaced.Some? ==> replaced.value.handle in old(entries) && old(entries)[replaced.value.handle].refs > 0
      ensures Now() == AfterErasing(AfterNew(old(Now()), h, NewEntry(key, hash, value, charge)), replaced)
      ensures h in entries && h !in lru && h in held && held[h] == 1
    {
      var e := NewEntry(key, hash, value, charge);
      replaced := None;
      h := Allocate(e);
      if capacity > 0 {
        replaced := Publish(h, e);
      }
    }

    /** With a capacity of 0 nothing is cached. */
    function NewEntry(key: string, hash: nat, value: int, charge: nat): Entry {
      Entry(key, hash, value, charge, if capacity > 0 then 2 else 1, capacity > 0)
    }

    /** The new entry replaces the one under the same key, and then the oldest unused ones go. */
    method Insert(key: string, hash: nat, value: int, charge: nat) returns (h: nat, ghost replaced: Option<Slot>)
      requires Valid()
      modifies this, table
      ensures Valid() && h == old(next) && h in entries && h in held && held[h] == 1
      ensures if capacity > 0 then IsFound(old(table.slots), key, hash, replaced) else replaced == None
      ensures replaced.Some? ==> replaced.value.handle in old(entries) && old(entries)[replaced.value.handle].refs > 0
      ensures Now() == AfterEviction(AfterErasing(AfterNew(old(Now()), h, NewEntry(key, hash, value, charge)), replaced), capacity)
      ensures usage <= capacity || lru == []
    {
      h, replaced := Add(key, hash, value, charge);
      ghost var k := EvictsOldest(Now(), table.slots, capacity);
      MakeRoom(capacity);
    }
  }
}
