/**
 DBIter (db/db_iter.cc): a bidirectional cursor that shows each live user key once, with its
 newest visible value, over an internal iterator that shows every entry.
 */
module DbIter {
  import opened Common
  import opened InternalKeys

  datatype Direction = Forward | Reverse

  /** Entry i is what the snapshot shows for its user key: the newest visible entry, and a value. */
  ghost predicate Shown(entries: seq<Entry>, snapshot: nat, i: nat) {
    && i < |entries|
    && entries[i].ikey.kind.Put? && entries[i].ikey.seqno <= snapshot
    && forall j :: 0 <= j < i && entries[j].ikey.user == entries[i].ikey.user ==> entries[j].ikey.seqno > snapshot
  }

  /** i is the first shown entry at or after `from`; |entries| stands for past the end. */
  ghost predicate FirstShown(entries: seq<Entry>, snapshot: nat, from: nat, i: nat) {
    && (i == |entries| || (from <= i && Shown(entries, snapshot, i)))
    && forall j :: from <= j < i ==> !Shown(entries, snapshot, j)
  }

  /** i is the last shown entry before `to`; |entries| stands for before the start. */
  ghost predicate LastShown(entries: seq<Entry>, snapshot: nat, to: nat, i: nat) {
    && (i == |entries| || (i < to && Shown(entries, snapshot, i)))
    && forall j :: (if i == |entries| then 0 else i + 1) <= j < to ==> !Shown(entries, snapshot, j)
  }

  // ----- what the cursor positions mean -----

  /** The shown entries are exactly the user keys that the snapshot finds, with their values. */
  lemma ShownIsFound(entries: seq<Entry>, snapshot: nat, user: UserKey)
    requires Sorted(entries) && Distinct(Elements(entries))
    ensures ReadAt(Elements(entries), user, snapshot).Found?
       <==> exists i: nat :: Shown(entries, snapshot, i) && entries[i].ikey.user == user
    ensures forall i: nat :: Shown(entries, snapshot, i) && entries[i].ikey.user == user
                        ==> ReadAt(Elements(entries), user, snapshot) == Found(entries[i].value)
  {
    forall i: nat | Shown(entries, snapshot, i) && entries[i].ikey.user == user
      ensures ReadAt(Elements(entries), user, snapshot) == Found(entries[i].value)
    {
      forall x | x in Elements(entries) && Visible(x, user, snapshot) ensures x.ikey.seqno <= entries[i].ikey.seqno {
        var j :| 0 <= j < |entries| && entries[j] == x;
        assert i < j ==> Less(entries[i].ikey, entries[j].ikey);
      }
      assert IsNewest(Elements(entries), user, snapshot, entries[i]);
      ReadAtNewest(Elements(entries), user, snapshot, entries[i]);
    }
    if ReadAt(Elements(entries), user, snapshot).Found? {
      var n :| IsNewest(Elements(entries), user, snapshot, n) && ReadAt(Elements(entries), user, snapshot) == Outcome(n);
      assert IsNewest(Elements(entries), user, snapshot, n);
      var i :| 0 <= i < |entries| && entries[i] == n;
      forall j | 0 <= j < i && entries[j].ikey.user == user ensures entries[j].ikey.seqno > snapshot {
        assert Less(entries[j].ikey, entries[i].ikey);
        assert entries[j] in Elements(entries);
        assert entries[j].ikey.seqno != n.ikey.seqno;
      }
      assert Shown(entries, snapshot, i);
    }
  }

  /** Later shown entries have later user keys: the cursor visits each key once, in order. */
  lemma ShownInOrder(entries: seq<Entry>, snapshot: nat, i: nat, j: nat)
    requires Sorted(entries) && Shown(entries, snapshot, i) && Shown(entries, snapshot, j) && i < j
    ensures entries[i].ikey.user < entries[j].ikey.user
  {
    assert Less(entries[i].ikey, entries[j].ikey);
  }

  class DBIter {
    /** What the internal iterator runs over, and its position; |entries| when it is not valid. */
    const entries: seq<Entry>
    var pos: nat

    const sequence: nat
    var direction: Direction
    var valid: bool
    var savedKey: Option<UserKey>
    var savedValue: Value

    /** The entry the cursor stands on; |entries| when it stands on none. */
    ghost var current: nat

    ghost predicate Valid()
      reads this
    {
      && Sorted(entries) && pos <= |entries|
      && (if valid then Shown(entries, sequence, current) else current == |entries|)
      && (valid && direction == Forward ==> pos == current)
      && (valid && direction == Reverse ==>
            && savedKey == Some(entries[current].ikey.user) && savedValue == entries[current].value
            && (pos < current || pos == |entries|) && InvisibleBetween(After(pos), current))
    }

    /** The first position after p, an invalid internal iterator counting as before the start. */
    ghost function After(p: nat): nat {
      if p == |entries| then 0 else p + 1
    }

    ghost predicate InvisibleBetween(lo: nat, hi: nat)
      requires hi <= |entries|
    {
      forall i :: lo <= i < hi ==> entries[i].ikey.seqno > sequence
    }

    constructor (entries: seq<Entry>, sequence: nat)
      requires Sorted(entries)
      ensures Valid() && !valid && this.entries == entries && this.sequence == sequence
    {
      this.entries, this.sequence := entries, sequence;
      pos, direction, valid := |entries|, Forward, false;
      savedKey, savedValue, current := None, "", |entries|;
    }

    /** iter_->Prev() */
    method StepBack()
      requires pos < |entries|
      modifies this`pos
      ensures pos == if old(pos) == 0 then |entries| else old(pos) - 1
    {
      pos := if pos == 0 then |entries| else pos - 1;
    }

    method Key() returns (k: UserKey)
      requires Valid() && valid
      ensures k == entries[current].ikey.user
    {
      k := if direction == Forward then entries[pos].ikey.user else savedKey.value;
    }

    method CurrentValue() returns (v: Value)
      requires Valid() && valid
      ensures v == entries[current].value
    {
      v := if direction == Forward then entries[pos].value else savedValue;
    }

    method SeekToFirst()
      requires Valid()
      modifies this
      ensures Valid() && FirstShown(entries, sequence, 0, current)
    {
      direction := Forward;
      savedValue := "";
      pos := 0;
      if pos < |entries| {
        FindNextUserEntry(false, None);
      } else {
        valid, current := false, |entries|;
      }
    }

    /** Seek lands on the first shown user key at or after the target. */
    method Seek(target: UserKey)
      requires Valid()
      modifies this
      ensures Valid()
      ensures valid ==> entries[current].ikey.user >= target
      ensures forall j :: 0 <= j < current && Shown(entries, sequence, j) ==> entries[j].ikey.user < target
    {
      direction := Forward;
      savedValue, savedKey := "", None;
      pos := LowerBound(entries, SeekKey(target, sequence));
      ghost var start := pos;
      forall j | 0 <= j < start && Shown(entries, sequence, j) ensures entries[j].ikey.user < target {
      }
      if pos < |entries| {
        forall j, k | 0 <= j < start <= k < |entries| && entries[j].ikey.user == entries[k].ikey.user
          ensures entries[j].ikey.seqno > sequence
        {
          assert start == k || Less(entries[start].ikey, entries[k].ikey);
        }
        FindNextUserEntry(false, None);
        assert valid && start < current ==> Less(entries[start].ikey, entries[current].ikey);
      } else {
        valid, current := false, |entries|;
      }
    }

    method SeekToLast()
      requires Valid()
      modifies this
      ensures Valid() && LastShown(entries, sequence, |entries|, current)
    {
      direction := Reverse;
      savedValue := "";
      pos := if |entries| == 0 then 0 else |entries| - 1;
      FindPrevUserEntry();
    }

    method Next()
      requires Valid() && valid
      modifies this
      ensures Valid() && FirstShown(entries, sequence, old(current) + 1, current)
    {
      ghost var from := current;
      if direction == Reverse {
        direction := Forward;
        if pos == |entries| {
          pos := 0;
        } else {
          pos := pos + 1;
        }
        if pos == |entries| {
          valid, savedKey, current := false, None, |entries|;
          return;
        }
      } else {
        savedKey := Some(entries[pos].ikey.user);
      }
      AfterCurrent(pos, from);
      FindNextUserEntry(true, savedKey);
      AfterSkipped(from, current);
    }

    /** Between the internal position and the current entry nothing is visible, so every visible
        entry from there on has the current user key or a later one. */
    lemma AfterCurrent(start: nat, from: nat)
      requires Sorted(entries) && Shown(entries, sequence, from) && start <= from
      requires InvisibleBetween(start, from)
      ensures forall j :: start <= j < |entries| && entries[j].ikey.seqno <= sequence
                          ==> entries[j].ikey.user >= entries[from].ikey.user
      ensures forall j, k :: 0 <= j < start <= k < |entries| && entries[j].ikey.user == entries[k].ikey.user
                          ==> entries[k].ikey.user <= entries[from].ikey.user
    {
      forall j | from < j < |entries| ensures entries[j].ikey.user >= entries[from].ikey.user {
        assert Less(entries[from].ikey, entries[j].ikey);
      }
      forall j, k | 0 <= j < start <= k < |entries| && entries[j].ikey.user == entries[k].ikey.user
        ensures entries[k].ikey.user <= entries[from].ikey.user
      {
        assert j < from ==> Less(entries[j].ikey, entries[from].ikey);
      }
    }

    /** The first shown entry of a later user key is the next shown entry. */
    lemma AfterSkipped(from: nat, i: nat)
      requires Sorted(entries) && Shown(entries, sequence, from)
      requires i == |entries| || (Shown(entries, sequence, i) && entries[i].ikey.user > entries[from].ikey.user)
      requires forall j :: 0 <= j < i && Shown(entries, sequence, j) ==> entries[j].ikey.user <= entries[from].ikey.user
      ensures FirstShown(entries, sequence, from + 1, i)
    {
      forall j | from < j < |entries| && Shown(entries, sequence, j) ensures entries[j].ikey.user > entries[from].ikey.user {
        ShownInOrder(entries, sequence, from, j);
      }
      if i < from {
        ShownInOrder(entries, sequence, i, from);
      }
    }

    predicate Skips(skipping: bool, skip: Option<UserKey>, user: UserKey) {
      skipping && skip.Some? && user <= skip.value
    }

    /** FindNextUserEntry: on to the first shown entry whose user key is past the one to skip. */
    method FindNextUserEntry(skipping: bool, skip: Option<UserKey>)
      requires Sorted(entries) && pos < |entries| && direction == Forward
      requires skipping ==> skip.Some?
      // no visible entry lies before a user key that must be skipped
      requires skipping ==> forall j :: pos <= j < |entries| && entries[j].ikey.seqno <= sequence
                                        ==> entries[j].ikey.user >= skip.value
      // user keys to be shown do not have visible entries behind the starting position
      requires forall j, k :: 0 <= j < pos <= k < |entries| && entries[j].ikey.user == entries[k].ikey.user
                              ==> Skips(skipping, skip, entries[k].ikey.user) || entries[j].ikey.seqno > sequence
      modifies this
      ensures Valid() && direction == Forward
      ensures valid ==> old(pos) <= current && !Skips(skipping, skip, entries[current].ikey.user)
      ensures forall j :: old(pos) <= j < current && Shown(entries, sequence, j)
                          ==> Skips(skipping, skip, entries[j].ikey.user)
    {
      ghost var start := pos;
      var skips, key := skipping, skip;
      while pos < |entries|
        invariant start <= pos <= |entries| && direction == Forward
        invariant skips ==> key.Some?
        invariant skipping ==> skips && key.value >= skip.value
        invariant forall j :: start <= j < pos && entries[j].ikey.seqno <= sequence
                              ==> Skips(skips, key, entries[j].ikey.user)
        invariant skips && !(skipping && key == skip) ==>
                    exists d :: start <= d < pos && entries[d].ikey.user == key.value && entries[d].ikey.seqno <= sequence
        invariant forall j :: start <= j < pos && Shown(entries, sequence, j)
                              ==> Skips(skipping, skip, entries[j].ikey.user)
        decreases |entries| - pos
      {
        var k := entries[pos].ikey;
        assert forall j :: start <= j < pos ==> Less(entries[j].ikey, k);
        if k.seqno <= sequence {
          if k.kind.Deletion? {
            skips, key := true, Some(k.user);
          } else if Skips(skips, key, k.user) {
            // hidden
          } else {
            valid, savedKey, current := true, None, pos;
            return;
          }
        }
        pos := pos + 1;
      }
      savedKey, valid, current := None, false, |entries|;
    }

    method Prev()
      requires Valid() && valid
      modifies this
      ensures Valid() && LastShown(entries, sequence, old(current), current)
    {
      ghost var from := current;
      if direction == Forward {
        savedKey := Some(entries[pos].ikey.user);
        while true
          invariant pos <= from && savedKey == Some(entries[from].ikey.user)
          invariant forall j :: pos <= j <= from ==> entries[j].ikey.user == entries[from].ikey.user
          decreases pos
        {
          ghost var p := pos;
          StepBack();
          if pos == |entries| {
            valid, savedKey, savedValue, current := false, None, "", |entries|;
            assert forall j :: 0 <= j < from ==> !Shown(entries, sequence, j);
            return;
          }
          assert Less(entries[pos].ikey, entries[p].ikey);
          if entries[pos].ikey.user < savedKey.value {
            break;
          }
        }
        direction := Reverse;
        assert forall j :: pos < j < from ==> !Shown(entries, sequence, j);
      }
      ghost var to := After(pos);
      FindPrevUserEntry();
      assert forall j :: to <= j < from ==> !Shown(entries, sequence, j);
    }

    /** FindPrevUserEntry: back to the last shown entry at or before the internal position. */
    method FindPrevUserEntry()
      requires Sorted(entries) && pos <= |entries| && direction == Reverse
      modifies this
      ensures Valid() && LastShown(entries, sequence, old(After(pos)), current)
    {
      ghost var start := After(pos);
      ghost var candidate: nat := |entries|;
      var kind := Deletion;
      if pos < |entries| {
        while true
          invariant pos < start <= |entries| && direction == Reverse
          invariant kind.Put? ==> Candidate(candidate, pos + 1, start)
          invariant kind.Put? ==> savedKey == Some(entries[candidate].ikey.user)
                                  && savedValue == entries[candidate].value
          invariant forall j :: pos < j < start && Shown(entries, sequence, j) ==> kind.Put? && j == candidate
          decreases pos
        {
          var e := entries[pos];
          assert forall j :: pos < j < |entries| ==> Less(e.ikey, entries[j].ikey);
          if e.ikey.seqno <= sequence {
            if kind.Put? && e.ikey.user < savedKey.value {
              ShownAfterSmaller(candidate, pos);
              break;
            }
            kind := e.ikey.kind;
            if kind.Deletion? {
              savedKey, savedValue := None, "";
            } else {
              savedKey, savedValue, candidate := Some(e.ikey.user), e.value, pos;
            }
          }
          StepBack();
          if pos == |entries| {
            break;
          }
        }
      }
      if kind.Deletion? {
        valid, savedKey, savedValue, direction, current := false, None, "", Forward, |entries|;
      } else {
        valid, current := true, candidate;
      }
    }

    /** The oldest visible value found so far going back, with nothing visible before it yet. */
    ghost predicate Candidate(c: nat, lo: nat, hi: nat) {
      && lo <= c < hi <= |entries| && entries[c].ikey.kind.Put? && entries[c].ikey.seqno <= sequence
      && InvisibleBetween(lo, c)
    }

    lemma ShownAfterSmaller(c: nat, p: nat)
      requires Sorted(entries) && c <= |entries| && Candidate(c, p + 1, |entries|)
      requires entries[p].ikey.user < entries[c].ikey.user
      ensures Shown(entries, sequence, c)
    {
      assert forall j :: 0 <= j < p ==> Less(entries[j].ikey, entries[p].ikey);
    }
  }
}
