/**
 The work of one compaction (DBImpl::DoCompactionWork in db/db_impl.cc, with
 Compaction::IsBaseLevelForKey in db/version_set.cc): which entries it drops.
 */
module Compaction {
  import opened Common
  import opened InternalKeys
  import opened Versions
  import opened Inputs

  /** No level below the two being compacted has a file whose range contains the user key. */
  ghost predicate BaseLevel(v: Version, level: nat, user: UserKey) {
    forall l, f :: level + 2 <= l < |v| && f in v[l] ==> !(f.smallest.user <= user <= f.largest.user)
  }

  /** Rule (A): a newer input entry of the same user key is itself at or below the snapshot. */
  ghost predicate Hidden(inputs: set<Entry>, e: Entry, snapshot: nat) {
    exists x :: x in inputs && x.ikey.user == e.ikey.user && e.ikey.seqno < x.ikey.seqno <= snapshot
  }

  /** The tombstone rule: a deletion that every snapshot sees, with nothing below it. */
  ghost predicate Obsolete(v: Version, level: nat, e: Entry, snapshot: nat) {
    e.ikey.kind.Deletion? && e.ikey.seqno <= snapshot && BaseLevel(v, level, e.ikey.user)
  }

  // ----- the rules as the loop applies them, entry by entry -----

  /** last_sequence_for_key when the loop reaches run[i]. */
  function LastSequenceForKey(run: seq<Entry>, i: nat): nat
    requires i < |run|
  {
    if i > 0 && run[i - 1].ikey.user == run[i].ikey.user then run[i - 1].ikey.seqno else MAX_SEQUENCE
  }

  ghost predicate Drops(v: Version, level: nat, run: seq<Entry>, i: nat, snapshot: nat)
    requires i < |run|
  {
    LastSequenceForKey(run, i) <= snapshot || Obsolete(v, level, run[i], snapshot)
  }

  ghost function Kept(v: Version, level: nat, run: seq<Entry>, snapshot: nat, n: nat): seq<Entry>
    requires n <= |run|
  {
    if n == 0 then []
    else if Drops(v, level, run, n - 1, snapshot) then Kept(v, level, run, snapshot, n - 1)
    else Kept(v, level, run, snapshot, n - 1) + [run[n - 1]]
  }

  lemma {:induction false} KeptMembers(v: Version, level: nat, run: seq<Entry>, snapshot: nat, n: nat)
    requires n <= |run| && Sorted(run)
    ensures forall e :: e in Kept(v, level, run, snapshot, n)
                        <==> exists i :: 0 <= i < n && run[i] == e && !Drops(v, level, run, i, snapshot)
    ensures Sorted(Kept(v, level, run, snapshot, n))
  {
    if n != 0 {
      KeptMembers(v, level, run, snapshot, n - 1);
      var rest := Kept(v, level, run, snapshot, n - 1);
      forall i | 0 <= i < |rest| ensures Less(rest[i].ikey, run[n - 1].ikey) {
        assert rest[i] in rest;
      }
    }
  }

  /** The entry before run[i] decides whether any newer input entry hides it. */
  lemma HiddenByPrevious(run: seq<Entry>, i: nat, snapshot: nat)
    requires Sorted(run) && Distinct(Elements(run)) && i < |run| && snapshot < MAX_SEQUENCE
    ensures LastSequenceForKey(run, i) <= snapshot <==> Hidden(Elements(run), run[i], snapshot)
  {
    if LastSequenceForKey(run, i) <= snapshot {
      assert Less(run[i - 1].ikey, run[i].ikey);
      assert run[i - 1] in Elements(run) && run[i] in Elements(run);
      assert run[i - 1].ikey.seqno != run[i].ikey.seqno;
    }
    if Hidden(Elements(run), run[i], snapshot) {
      var x :| x in Elements(run) && x.ikey.user == run[i].ikey.user && run[i].ikey.seqno < x.ikey.seqno <= snapshot;
      var j :| 0 <= j < |run| && run[j] == x;
      assert j < i;
      assert j < i - 1 ==> Less(run[j].ikey, run[i - 1].ikey);
      assert Less(run[i - 1].ikey, run[i].ikey);
    }
  }

  /** The entries kept are those that neither rule drops. */
  lemma KeptIs(v: Version, level: nat, run: seq<Entry>, snapshot: nat)
    requires Sorted(run) && Distinct(Elements(run)) && snapshot < MAX_SEQUENCE
    ensures Sorted(Kept(v, level, run, snapshot, |run|))
    ensures forall e :: e in Kept(v, level, run, snapshot, |run|)
              <==> e in run && !Hidden(Elements(run), e, snapshot) && !Obsolete(v, level, e, snapshot)
  {
    KeptMembers(v, level, run, snapshot, |run|);
    forall i | 0 <= i < |run|
      ensures Drops(v, level, run, i, snapshot)
         <==> Hidden(Elements(run), run[i], snapshot) || Obsolete(v, level, run[i], snapshot)
    {
      HiddenByPrevious(run, i, snapshot);
    }
  }

  /** Compaction::level_ptrs_ and the outputs of a CompactionState. */
  class Worker {
    const version: Version
    const level: nat
    const levelPtrs: array<nat>
    var outputs: seq<seq<Entry>>
    var builder: seq<Entry>

    constructor (version: Version, level: nat)
      requires |version| == NUM_LEVELS && level + 1 < NUM_LEVELS
      ensures this.version == version && this.level == level && fresh(levelPtrs)
      ensures outputs == [] && builder == [] && levelPtrs.Length == NUM_LEVELS
      ensures forall l :: 0 <= l < NUM_LEVELS ==> levelPtrs[l] == 0
    {
      this.version, this.level := version, level;
      levelPtrs := new nat[NUM_LEVELS](_ => 0);
      outputs, builder := [], [];
    }

    ghost predicate Valid()
    {
      && |version| == levelPtrs.Length == NUM_LEVELS && level + 1 < NUM_LEVELS
      && forall l :: level + 2 <= l < NUM_LEVELS ==> UserSorted(version[l])
    }

    /** No file already passed can contain `user` or a later user key. */
    ghost predicate NotPast(user: UserKey)
      requires Valid()
      reads levelPtrs
    {
      forall l :: level + 2 <= l < NUM_LEVELS ==>
        levelPtrs[l] <= |version[l]| && forall i :: 0 <= i < levelPtrs[l] ==> version[l][i].largest.user < user
    }

    /** IsBaseLevelForKey: for user keys that never decrease, the cursors give the same answer
        as looking at every file. */
    method IsBaseLevelForKey(user: UserKey) returns (r: bool)
      requires Valid() && NotPast(user)
      modifies levelPtrs
      ensures NotPast(user)
      ensures r == BaseLevel(version, level, user)
    {
      for l := level + 2 to NUM_LEVELS
        invariant NotPast(user)
        invariant forall k, f :: level + 2 <= k < l && f in version[k]
                                 ==> !(f.smallest.user <= user <= f.largest.user)
      {
        var files := version[l];
        while levelPtrs[l] < |files|
          invariant NotPast(user)
          decreases |files| - levelPtrs[l]
        {
          var f := files[levelPtrs[l]];
          if user <= f.largest.user {
            if user >= f.smallest.user {
              assert f in version[l];
              return false;
            }
            break;
          }
          levelPtrs[l] := levelPtrs[l] + 1;
        }
        forall f | f in files ensures !(f.smallest.user <= user <= f.largest.user) {
          var i :| 0 <= i < |files| && files[i] == f;
          var p := levelPtrs[l];
          assert p < i ==> files[p].largest.user <= files[i].smallest.user;
        }
      }
      return true;
    }

    ghost predicate AtStart()
      requires Valid()
      reads levelPtrs
    {
      forall l :: level + 2 <= l < NUM_LEVELS ==> levelPtrs[l] == 0
    }

    /** The cursors before the entry run[i] is looked at. */
    ghost predicate Before(run: seq<Entry>, i: nat)
      requires Valid() && i <= |run|
      reads levelPtrs
    {
      if i == 0 then AtStart() else NotPast(run[i - 1].ikey.user)
    }

    /** The two drop rules for one entry. */
    method ShouldDrop(run: seq<Entry>, i: nat, lastSequence: nat, snapshot: nat) returns (drop: bool)
      requires Valid() && Sorted(run) && i < |run| && Before(run, i)
      requires lastSequence == LastSequenceForKey(run, i)
      modifies levelPtrs
      ensures Before(run, i + 1)
      ensures drop == Drops(version, level, run, i, snapshot)
    {
      var key := run[i].ikey;
      assert i > 0 ==> Less(run[i - 1].ikey, run[i].ikey);
      assert NotPast(key.user);
      drop := false;
      if lastSequence <= snapshot {
        drop := true;
      } else if key.kind.Deletion? && key.seqno <= snapshot {
        drop := IsBaseLevelForKey(key.user);
      }
    }

    /** The output files so far, with the one being built: exactly what the rules keep of run[..n],
        cut into files none of which is empty. */
    ghost predicate Built(run: seq<Entry>, snapshot: nat, n: nat)
      requires n <= |run|
      reads this
    {
      && Flatten(outputs) + builder == Kept(version, level, run, snapshot, n)
      && forall out :: out in outputs ==> out != []
    }

    /** The loop of DoCompactionWork over the merged input. `stopBefore` stands for the answers of
        ShouldStopBefore and `full` for the output file having reached its maximum size: both only
        decide where one output file ends and the next begins. */
    method DoCompactionWork(run: seq<Entry>, snapshot: nat, stopBefore: seq<bool>, full: seq<bool>)
      requires Valid() && AtStart() && outputs == [] && builder == []
      requires Sorted(run) && |stopBefore| == |full| == |run|
      modifies this, levelPtrs
      ensures Flatten(outputs) == Kept(version, level, run, snapshot, |run|)
      ensures forall out :: out in outputs ==> out != []
    {
      var hasKey, currentKey, lastSequence := false, 0, MAX_SEQUENCE;
      for i := 0 to |run|
        invariant Before(run, i)
        invariant hasKey <==> i > 0
        invariant i > 0 ==> currentKey == run[i - 1].ikey.user && lastSequence == run[i - 1].ikey.seqno
        invariant Built(run, snapshot, i)
      {
        var key := run[i].ikey;
        if stopBefore[i] && builder != [] {
          FinishOutput(run, snapshot, i);
        }
        if !hasKey || key.user != currentKey {
          hasKey, currentKey, lastSequence := true, key.user, MAX_SEQUENCE;
        }
        var drop := ShouldDrop(run, i, lastSequence, snapshot);
        lastSequence := key.seqno;
        if !drop {
          AddToOutput(run, snapshot, i);
          if full[i] {
            FinishOutput(run, snapshot, i + 1);
          }
        }
      }
      if builder != [] {
        FinishOutput(run, snapshot, |run|);
      }
    }

    /** TableBuilder::Add on the current output. */
    method AddToOutput(run: seq<Entry>, snapshot: nat, i: nat)
      requires i < |run| && Built(run, snapshot, i) && !Drops(version, level, run, i, snapshot)
      modifies this`builder
      ensures Built(run, snapshot, i + 1) && builder != []
    {
      assert Flatten(outputs) + (builder + [run[i]]) == Flatten(outputs) + builder + [run[i]];
      builder := builder + [run[i]];
    }

    /** FinishCompactionOutputFile */
    method FinishOutput(run: seq<Entry>, snapshot: nat, n: nat)
      requires n <= |run| && builder != [] && Built(run, snapshot, n)
      modifies this`outputs, this`builder
      ensures Built(run, snapshot, n) && builder == []
    {
      ghost var before := outputs;
      outputs := outputs + [builder];
      assert outputs[..|outputs| - 1] == before;
      builder := [];
    }
  }
}
