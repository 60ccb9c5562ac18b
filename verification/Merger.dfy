/**
 MergingIterator (table/merger.cc): a cursor over the merge of its children, in both directions,
 repositioning the other children when the direction changes.
 */
module Merger {
  import opened InternalKeys

  datatype Direction = Forward | Reverse

  /** `merged` is the sorted merge of the runs. */
  ghost predicate IsMerge(runs: seq<seq<Entry>>, merged: seq<Entry>) {
    && Sorted(merged)
    && (forall i :: 0 <= i < |runs| ==> Sorted(runs[i]))
    && (forall i, a :: 0 <= i < |runs| && 0 <= a < |runs[i]| ==> runs[i][a] in merged)
    && (forall e :: e in merged ==> exists i :: 0 <= i < |runs| && e in runs[i])
    && (forall i, j, e :: 0 <= i < |runs| && 0 <= j < |runs| && e in runs[i] && e in runs[j] ==> i == j)
  }

  /** The entry lies in merged[..cut]. */
  ghost predicate Below(merged: seq<Entry>, cut: nat, e: Entry)
    requires cut <= |merged|
  {
    cut == |merged| || Less(e.ikey, merged[cut].ikey)
  }

  lemma BelowNext(merged: seq<Entry>, cut: nat, e: Entry)
    requires Sorted(merged) && cut < |merged| && e in merged
    ensures Below(merged, cut + 1, e) <==> Below(merged, cut, e) || e == merged[cut]
  {
    var j :| 0 <= j < |merged| && merged[j] == e;
    assert j < cut ==> Less(merged[j].ikey, merged[cut].ikey);
    assert cut < j ==> Less(merged[cut].ikey, merged[j].ikey);
    if cut + 1 < |merged| {
      assert j < cut + 1 ==> Less(merged[j].ikey, merged[cut + 1].ikey);
      assert cut + 1 < j ==> Less(merged[cut + 1].ikey, merged[j].ikey);
    }
  }

  /** A child stands on its first entry not below the cut. */
  ghost predicate AtCut(run: seq<Entry>, pos: nat, merged: seq<Entry>, cut: nat)
    requires cut <= |merged|
  {
    && pos <= |run|
    && (forall a :: 0 <= a < pos ==> Below(merged, cut, run[a]))
    && (forall a :: pos <= a < |run| ==> !Below(merged, cut, run[a]))
  }

  /** A child stands on its last entry below the cut, and is invalid when it has none. */
  ghost predicate BeforeCut(run: seq<Entry>, pos: nat, merged: seq<Entry>, cut: nat)
    requires cut <= |merged|
  {
    && pos <= |run|
    && (pos < |run| ==> Below(merged, cut, run[pos]))
    && (forall a :: (if pos == |run| then 0 else pos + 1) <= a < |run| ==> !Below(merged, cut, run[a]))
  }

  class MergingIterator {
    const runs: seq<seq<Entry>>
    /** The children's positions; a child is not valid at the length of its run. */
    const pos: array<nat>
    /** current_: the child the iterator stands on; |runs| for none. */
    var current: nat
    var direction: Direction

    ghost const merged: seq<Entry>
    /** The abstract cursor into `merged`; |merged| when not valid. */
    ghost var cursor: nat

    ghost predicate WellFormed() {
      pos.Length == |runs| && IsMerge(runs, merged)
    }

    ghost predicate AllAtCut(cut: nat)
      requires WellFormed() && cut <= |merged|
      reads pos
    {
      forall i :: 0 <= i < |runs| ==> AtCut(runs[i], pos[i], merged, cut)
    }

    ghost predicate AllBeforeCut(cut: nat)
      requires WellFormed() && cut <= |merged|
      reads pos
    {
      forall i :: 0 <= i < |runs| ==> BeforeCut(runs[i], pos[i], merged, cut)
    }

    /** Every child but the current one stands before the cut. */
    ghost predicate OthersBefore(cut: nat)
      requires WellFormed() && cut <= |merged|
      reads this`current, pos
    {
      forall i :: 0 <= i < |runs| && i != current ==> BeforeCut(runs[i], pos[i], merged, cut)
    }

    ghost predicate Standing()
      requires WellFormed()
      reads this, pos
    {
      && cursor <= |merged|
      && if cursor == |merged| then current == |runs| else
           current < |runs| && pos[current] < |runs[current]| && runs[current][pos[current]] == merged[cursor]
    }

    ghost predicate Valid()
      reads this, pos
    {
      && WellFormed() && Standing()
      && (cursor < |merged| && direction == Forward ==> AllAtCut(cursor))
      && (cursor < |merged| && direction == Reverse ==> AllBeforeCut(cursor + 1))
    }

    constructor (runs: seq<seq<Entry>>, ghost merged: seq<Entry>)
      requires IsMerge(runs, merged)
      ensures Valid() && cursor == |merged| && this.runs == runs && this.merged == merged && fresh(pos)
    {
      this.runs, this.merged := runs, merged;
      pos := new nat[|runs|](_ => 0);
      current, direction, cursor := |runs|, Forward, |merged|;
    }

    method KeyValue() returns (e: Entry)
      requires Valid() && cursor < |merged|
      ensures e == merged[cursor]
    {
      e := runs[current][pos[current]];
    }

    method SeekToFirst()
      requires Valid()
      modifies this, pos
      ensures Valid() && cursor == 0
    {
      for i := 0 to |runs|
        invariant forall k :: 0 <= k < i ==> AtCut(runs[k], pos[k], merged, 0)
      {
        pos[i] := 0;
        NothingBelowFirst(i);
      }
      FindSmallest(0);
      direction := Forward;
    }

    lemma NothingBelowFirst(i: nat)
      requires WellFormed() && i < |runs|
      ensures forall a :: 0 <= a < |runs[i]| ==> !Below(merged, 0, runs[i][a])
    {
      forall a | 0 <= a < |runs[i]| ensures !Below(merged, 0, runs[i][a]) {
        var j :| 0 <= j < |merged| && merged[j] == runs[i][a];
        assert 0 < j ==> Less(merged[0].ikey, merged[j].ikey);
      }
    }

    method SeekToLast()
      requires Valid()
      modifies this, pos
      ensures Valid() && cursor == if |merged| == 0 then 0 else |merged| - 1
    {
      for i := 0 to |runs|
        invariant forall k :: 0 <= k < i ==> BeforeCut(runs[k], pos[k], merged, |merged|)
      {
        pos[i] := if |runs[i]| == 0 then 0 else |runs[i]| - 1;
      }
      FindLargest(|merged|);
      direction := Reverse;
    }

    method Seek(target: IKey)
      requires Valid()
      modifies this, pos
      ensures Valid() && cursor == LowerBound(merged, target)
    {
      ghost var cut := LowerBound(merged, target);
      for i := 0 to |runs|
        invariant forall k :: 0 <= k < i ==> AtCut(runs[k], pos[k], merged, cut)
      {
        pos[i] := LowerBound(runs[i], target);
        SeekIsAtCut(i, target);
      }
      FindSmallest(cut);
      direction := Forward;
    }

    lemma SeekIsAtCut(i: nat, target: IKey)
      requires WellFormed() && i < |runs|
      ensures AtCut(runs[i], LowerBound(runs[i], target), merged, LowerBound(merged, target))
    {
      var cut := LowerBound(merged, target);
      var run, p := runs[i], LowerBound(runs[i], target);
      forall a | 0 <= a < |run| ensures Below(merged, cut, run[a]) <==> Less(run[a].ikey, target) {
        var j :| 0 <= j < |merged| && merged[j] == run[a];
        assert cut < j ==> Less(merged[cut].ikey, merged[j].ikey);
        assert j < cut < |merged| ==> Less(merged[j].ikey, merged[cut].ikey);
      }
      forall a | p < a < |run| ensures !Less(run[a].ikey, target) {
        assert Less(run[p].ikey, run[a].ikey);
      }
    }

    method Next()
      requires Valid() && cursor < |merged|
      modifies this, pos
      ensures Valid() && cursor == old(cursor) + 1
    {
      ghost var c := cursor;
      if direction != Forward {
        RepositionForward();
        direction := Forward;
      }
      pos[current] := pos[current] + 1;
      forall i | 0 <= i < |runs| ensures AtCut(runs[i], pos[i], merged, c + 1) {
        AdvanceCut(i, c);
      }
      FindSmallest(c + 1);
    }

    /** The loop of Next after a change of direction. */
    method RepositionForward()
      requires Valid() && cursor < |merged| && direction == Reverse
      modifies pos
      ensures AllAtCut(cursor) && pos[current] == old(pos[current])
    {
      var key := runs[current][pos[current]].ikey;
      for i := 0 to |runs|
        invariant pos[current] == old(pos[current])
        invariant forall k :: 0 <= k < i ==> AtCut(runs[k], pos[k], merged, cursor)
      {
        if i != current {
          pos[i] := LowerBound(runs[i], key);
          SeekToKey(i, cursor);
          if pos[i] < |runs[i]| && !Less(key, runs[i][pos[i]].ikey) {
            assert false; // the child would step past its copy of the key: children share no key
          }
        } else {
          OwnPosition(i, pos[i], cursor);
        }
      }
    }

    /** Seeking a child that does not hold merged[c] to its key lands past it. */
    lemma SeekToKey(i: nat, c: nat)
      requires WellFormed() && i < |runs| && c < |merged| && merged[c] !in runs[i]
      ensures var p := LowerBound(runs[i], merged[c].ikey);
        AtCut(runs[i], p, merged, c) && (p < |runs[i]| ==> Less(merged[c].ikey, runs[i][p].ikey))
    {
      var run, key := runs[i], merged[c].ikey;
      var p := LowerBound(run, key);
      forall a | p <= a < |run| ensures Less(key, run[a].ikey) {
        var j :| 0 <= j < |merged| && merged[j] == run[a];
        assert p < a ==> Less(run[p].ikey, run[a].ikey);
        assert j < c ==> Less(merged[j].ikey, merged[c].ikey);
        assert c < j ==> Less(merged[c].ikey, merged[j].ikey);
      }
    }

    /** The child that holds merged[c] at p stands at both cuts. */
    lemma OwnPosition(i: nat, p: nat, c: nat)
      requires WellFormed() && i < |runs| && c < |merged| && p < |runs[i]| && runs[i][p] == merged[c]
      ensures AtCut(runs[i], p, merged, c) && AtCut(runs[i], p + 1, merged, c + 1)
      ensures BeforeCut(runs[i], p, merged, c + 1)
      ensures BeforeCut(runs[i], if p == 0 then |runs[i]| else p - 1, merged, c)
    {
      var run := runs[i];
      forall a | 0 <= a < |run|
        ensures Below(merged, c, run[a]) <==> a < p
        ensures Below(merged, c + 1, run[a]) <==> a <= p
      {
        BelowNext(merged, c, run[a]);
        assert a < p ==> Less(run[a].ikey, run[p].ikey);
        assert p < a ==> Less(run[p].ikey, run[a].ikey);
      }
    }

    /** Moving the cut past merged[c] moves only the child that holds it. */
    lemma AdvanceCut(i: nat, c: nat)
      requires WellFormed() && i < |runs| && c < |merged|
      requires current < |runs|
      requires pos[current] > 0 && pos[current] - 1 < |runs[current]| && runs[current][pos[current] - 1] == merged[c]
      requires i != current ==> AtCut(runs[i], pos[i], merged, c)
      ensures AtCut(runs[i], pos[i], merged, c + 1)
    {
      if i == current {
        OwnPosition(i, pos[i] - 1, c);
      } else {
        forall a | 0 <= a < |runs[i]| ensures Below(merged, c + 1, runs[i][a]) <==> Below(merged, c, runs[i][a]) {
          BelowNext(merged, c, runs[i][a]);
        }
      }
    }

    method Prev()
      requires Valid() && cursor < |merged|
      modifies this, pos
      ensures Valid() && cursor == if old(cursor) == 0 then |merged| else old(cursor) - 1
    {
      ghost var c := cursor;
      if direction != Reverse {
        RepositionReverse();
      } else {
        OthersBeforeCut();
      }
      direction := Reverse;
      CurrentBack(c);
      FindLargest(c);
    }

    /** current_->Prev(), the other children being before the cut. */
    method CurrentBack(ghost c: nat)
      requires WellFormed() && c < |merged| && current < |runs|
      requires pos[current] < |runs[current]| && runs[current][pos[current]] == merged[c]
      requires OthersBefore(c)
      modifies pos
      ensures AllBeforeCut(c)
    {
      OwnPosition(current, pos[current], c);
      pos[current] := if pos[current] == 0 then |runs[current]| else pos[current] - 1;
    }

    /** Children that do not hold merged[cursor] stand before it as well as before the next cut. */
    lemma OthersBeforeCut()
      requires Valid() && cursor < |merged| && direction == Reverse
      ensures OthersBefore(cursor)
    {
      forall i | 0 <= i < |runs| && i != current ensures BeforeCut(runs[i], pos[i], merged, cursor) {
        forall a | 0 <= a < |runs[i]|
          ensures Below(merged, cursor + 1, runs[i][a]) <==> Below(merged, cursor, runs[i][a])
        {
          BelowNext(merged, cursor, runs[i][a]);
        }
      }
    }

    /** The loop of Prev after a change of direction. */
    method RepositionReverse()
      requires Valid() && cursor < |merged| && direction == Forward
      modifies pos
      ensures OthersBefore(cursor)
      ensures pos[current] == old(pos[current])
    {
      var key := runs[current][pos[current]].ikey;
      for i := 0 to |runs|
        invariant pos[current] == old(pos[current])
        invariant forall k :: 0 <= k < i && k != current ==> BeforeCut(runs[k], pos[k], merged, cursor)
      {
        if i != current {
          pos[i] := LowerBound(runs[i], key);
          SeekToKey(i, cursor);
          if pos[i] < |runs[i]| {
            pos[i] := if pos[i] == 0 then |runs[i]| else pos[i] - 1;
          } else {
            pos[i] := if |runs[i]| == 0 then 0 else |runs[i]| - 1;
          }
        }
      }
    }

    /** FindSmallest: with every child at the cut, the smallest head is the entry at the cut. */
    method FindSmallest(ghost cut: nat)
      requires WellFormed() && cut <= |merged| && AllAtCut(cut)
      modifies this`current, this`cursor
      ensures Standing() && cursor == cut
    {
      var smallest: nat := |runs|;
      for i := 0 to |runs|
        invariant smallest == |runs| || (smallest < i && pos[smallest] < |runs[smallest]|)
        invariant forall k :: 0 <= k < i && pos[k] < |runs[k]| ==>
                    smallest < |runs| && !Less(runs[k][pos[k]].ikey, runs[smallest][pos[smallest]].ikey)
      {
        if pos[i] < |runs[i]| {
          if smallest == |runs| || Less(runs[i][pos[i]].ikey, runs[smallest][pos[smallest]].ikey) {
            smallest := i;
          }
        }
      }
      current, cursor := smallest, cut;
      if cut < |merged| {
        var i, a := HeadAtCut(cut);
        assert !Less(runs[i][pos[i]].ikey, runs[smallest][pos[smallest]].ikey);
        SameKey(runs[smallest][pos[smallest]], cut);
      }
    }

    /** The entry at the cut heads its child. */
    lemma {:induction false} HeadAtCut(cut: nat) returns (i: nat, a: nat)
      requires WellFormed() && cut < |merged| && AllAtCut(cut)
      ensures i < |runs| && pos[i] < |runs[i]| && runs[i][pos[i]] == merged[cut] && a == pos[i]
    {
      assert merged[cut] in merged;
      i :| 0 <= i < |runs| && merged[cut] in runs[i];
      var b :| 0 <= b < |runs[i]| && runs[i][b] == merged[cut];
      forall k | 0 <= k < b ensures Below(merged, cut, runs[i][k]) {
        assert Less(runs[i][k].ikey, runs[i][b].ikey);
      }
      assert AtCut(runs[i], pos[i], merged, cut);
      a := pos[i];
    }

    /** An entry of the merge that is neither before nor after merged[cut] is merged[cut]. */
    lemma SameKey(e: Entry, cut: nat)
      requires WellFormed() && cut < |merged| && e in merged
      requires !Less(e.ikey, merged[cut].ikey) && !Less(merged[cut].ikey, e.ikey)
      ensures e == merged[cut]
    {
      forall j | 0 <= j < |merged| && j != cut
        ensures Less(merged[j].ikey, merged[cut].ikey) || Less(merged[cut].ikey, merged[j].ikey)
      {
      }
      var j :| 0 <= j < |merged| && merged[j] == e;
    }

    /** FindLargest: with every child before the cut, the largest is the entry before the cut. */
    method FindLargest(ghost cut: nat)
      requires WellFormed() && cut <= |merged| && AllBeforeCut(cut)
      modifies this`current, this`cursor
      ensures Standing() && cursor == (if cut == 0 then |merged| else cut - 1)
      ensures cursor < |merged| ==> AllBeforeCut(cursor + 1)
    {
      var largest := LargestChild();
      if cut == 0 {
        NoChildBeforeFirst();
        cursor := |merged|;
      } else {
        LargestIsLast(largest, cut - 1);
        cursor := cut - 1;
      }
      current := largest;
    }

    /** The loop of FindLargest. */
    method LargestChild() returns (largest: nat)
      requires WellFormed()
      ensures largest == |runs| || (largest < |runs| && pos[largest] < |runs[largest]|)
      ensures forall k :: 0 <= k < |runs| && pos[k] < |runs[k]| ==>
                largest < |runs| && !Less(runs[largest][pos[largest]].ikey, runs[k][pos[k]].ikey)
    {
      largest := |runs|;
      var i: nat := |runs|;
      while i > 0
        invariant i <= |runs|
        invariant largest == |runs| || (i <= largest < |runs| && pos[largest] < |runs[largest]|)
        invariant forall k :: i <= k < |runs| && pos[k] < |runs[k]| ==>
                    largest < |runs| && !Less(runs[largest][pos[largest]].ikey, runs[k][pos[k]].ikey)
      {
        i := i - 1;
        if pos[i] < |runs[i]| {
          if largest == |runs| || Less(runs[largest][pos[largest]].ikey, runs[i][pos[i]].ikey) {
            largest := i;
          }
        }
      }
    }

    /** Of the entries that the children stand on, the largest is the one before the cut. */
    lemma {:induction false} LargestIsLast(largest: nat, c: nat)
      requires WellFormed() && c < |merged| && AllBeforeCut(c + 1)
      requires largest == |runs| || (largest < |runs| && pos[largest] < |runs[largest]|)
      requires forall k :: 0 <= k < |runs| && pos[k] < |runs[k]| ==>
                 largest < |runs| && !Less(runs[largest][pos[largest]].ikey, runs[k][pos[k]].ikey)
      ensures largest < |runs| && pos[largest] < |runs[largest]| && runs[largest][pos[largest]] == merged[c]
    {
      var k := LastBeforeCut(c);
      assert !Less(runs[largest][pos[largest]].ikey, runs[k][pos[k]].ikey);
      assert BeforeCut(runs[largest], pos[largest], merged, c + 1);
      BelowNext(merged, c, runs[largest][pos[largest]]);
      SameKey(runs[largest][pos[largest]], c);
    }

    lemma NoChildBeforeFirst()
      requires WellFormed() && AllBeforeCut(0)
      ensures forall i :: 0 <= i < |runs| ==> pos[i] == |runs[i]|
    {
      forall i | 0 <= i < |runs| ensures pos[i] == |runs[i]| {
        NothingBelowFirst(i);
        assert BeforeCut(runs[i], pos[i], merged, 0);
      }
    }

    /** The child that holds an entry below the cut, and none after it below the cut, stands on it. */
    lemma StandsOnLast(run: seq<Entry>, p: nat, b: nat, c: nat)
      requires Sorted(merged) && Sorted(run) && c < |merged| && b < |run| && run[b] == merged[c]
      requires (forall a :: 0 <= a < |run| ==> run[a] in merged) && BeforeCut(run, p, merged, c + 1)
      ensures p == b
    {
      forall a | 0 <= a < |run| ensures Below(merged, c + 1, run[a]) <==> a <= b {
        BelowNext(merged, c, run[a]);
        assert a < b ==> Less(run[a].ikey, run[b].ikey);
        assert b < a ==> Less(run[b].ikey, run[a].ikey);
      }
    }

    lemma {:induction false} LastBeforeCut(c: nat) returns (i: nat)
      requires WellFormed() && c < |merged| && AllBeforeCut(c + 1)
      ensures i < |runs| && pos[i] < |runs[i]| && runs[i][pos[i]] == merged[c]
    {
      assert merged[c] in merged;
      i :| 0 <= i < |runs| && merged[c] in runs[i];
      var b :| 0 <= b < |runs[i]| && runs[i][b] == merged[c];
      assert BeforeCut(runs[i], pos[i], merged, c + 1);
      StandsOnLast(runs[i], pos[i], b, c);
    }
  }
}
