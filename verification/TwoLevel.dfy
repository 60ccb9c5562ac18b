/**
 The iterator of a table (table/two_level_iterator.cc): a cursor into the index and a cursor into the
 block it stands for, as one cursor over all the entries.
 */
module TwoLevel {
  import opened Common
  import opened Coding
  import opened Separators
  import opened Tables

  /** How many entries come before the i-th block. */
  function Start(blocks: seq<seq<Entry>>, i: nat): nat
    requires i <= |blocks|
  {
    if i == 0 then 0 else Start(blocks, i - 1) + |blocks[i - 1]|
  }

  lemma {:induction false} StartPrefix(blocks: seq<seq<Entry>>, i: nat)
    requires i < |blocks|
    ensures Start(blocks[..|blocks| - 1], i) == Start(blocks, i)
  {
    if i > 0 {
      StartPrefix(blocks, i - 1);
    }
  }

  lemma {:induction false} StartOfAll(blocks: seq<seq<Entry>>)
    ensures Start(blocks, |blocks|) == |Flatten(blocks)|
  {
    if blocks != [] {
      StartPrefix(blocks, |blocks| - 1);
      StartOfAll(blocks[..|blocks| - 1]);
    }
  }

  lemma {:induction false} StartsGrow(blocks: seq<seq<Entry>>, i: nat, k: nat)
    requires i <= k <= |blocks|
    ensures Start(blocks, i) <= Start(blocks, k)
  {
    if i < k {
      StartsGrow(blocks, i, k - 1);
    }
  }

  lemma {:induction false} EntryOf(blocks: seq<seq<Entry>>, i: nat, j: nat)
    requires i < |blocks| && j < |blocks[i]|
    ensures Start(blocks, i) + j < |Flatten(blocks)| && Flatten(blocks)[Start(blocks, i) + j] == blocks[i][j]
  {
    var front := blocks[..|blocks| - 1];
    StartPrefix(blocks, i);
    if i < |front| {
      EntryOf(front, i, j);
    } else {
      StartOfAll(front);
    }
  }

  lemma StartNext(blocks: seq<seq<Entry>>, i: nat)
    requires i < |blocks|
    ensures Start(blocks, i + 1) == Start(blocks, i) + |blocks[i]| <= |Flatten(blocks)|
    ensures forall j :: 0 <= j < |blocks[i]| ==> Flatten(blocks)[Start(blocks, i) + j] == blocks[i][j]
  {
    StartsGrow(blocks, i + 1, |blocks|);
    StartOfAll(blocks);
    forall j | 0 <= j < |blocks[i]| ensures Flatten(blocks)[Start(blocks, i) + j] == blocks[i][j] {
      EntryOf(blocks, i, j);
    }
  }

  /** Every place is in one of the blocks. */
  lemma {:induction false} PlaceOf(blocks: seq<seq<Entry>>, q: nat) returns (i: nat, j: nat)
    requires q < |Flatten(blocks)|
    ensures i < |blocks| && j < |blocks[i]| && q == Start(blocks, i) + j && Flatten(blocks)[q] == blocks[i][j]
  {
    var front := blocks[..|blocks| - 1];
    if q < |Flatten(front)| {
      i, j := PlaceOf(front, q);
    } else {
      StartOfAll(front);
      i, j := |front|, q - |Flatten(front)|;
    }
    StartPrefix(blocks, i);
  }

  /** The entries of the blocks are the entries of the table. */
  lemma InTableIsEntry(blocks: seq<seq<Entry>>, e: Entry)
    ensures InTable(blocks, e) <==> e in Flatten(blocks)
  {
    if InTable(blocks, e) {
      var i :| 0 <= i < |blocks| && e in blocks[i];
      StartNext(blocks, i);
      var j :| 0 <= j < |blocks[i]| && blocks[i][j] == e;
      assert Flatten(blocks)[Start(blocks, i) + j] == e;
    }
    if e in Flatten(blocks) {
      var q :| 0 <= q < |Flatten(blocks)| && Flatten(blocks)[q] == e;
      var i, j := PlaceOf(blocks, q);
      assert blocks[i][j] in blocks[i];
    }
  }

  /** The entries before `p` are before the key, and the others are not. */
  ghost predicate IsCut(entries: seq<Entry>, k: InternalKey, p: nat) {
    && p <= |entries|
    && (forall q :: 0 <= q < p ==> Less(entries[q].key, k))
    && (forall q :: p <= q < |entries| ==> !Less(entries[q].key, k))
  }

  /** Later entries of the table are not smaller. */
  lemma {:induction false} EntriesAscend(blocks: seq<seq<Entry>>, p: nat, q: nat)
    requires InOrder(blocks) && p <= q < |Flatten(blocks)|
    ensures AtMost(Flatten(blocks)[p].key, Flatten(blocks)[q].key)
  {
    var i, a := PlaceOf(blocks, p);
    var m, b := PlaceOf(blocks, q);
    if m < i {
      StartNext(blocks, m);
      StartsGrow(blocks, m + 1, i);
    } else if i < m {
      assert AllBefore(blocks[i], blocks[m]);
    } else {
      assert Ascending(blocks[i]);
    }
  }

  /** The cursor that stands at the cut of a key stands on what InternalGet looks for: the first entry
      at or after the key. Past the end there is none. */
  lemma FirstIsAtCut(blocks: seq<seq<Entry>>, k: InternalKey, p: nat)
    requires InOrder(blocks) && IsCut(Flatten(blocks), k, p)
    ensures p < |Flatten(blocks)| ==> IsFirstFrom(blocks, k, Flatten(blocks)[p])
    ensures p == |Flatten(blocks)| ==> forall e :: !IsFirstFrom(blocks, k, e)
  {
    var all := Flatten(blocks);
    forall e | InTable(blocks, e) && !Less(e.key, k) ensures p < |all| && AtMost(all[p].key, e.key) {
      InTableIsEntry(blocks, e);
      var q :| 0 <= q < |all| && all[q] == e;
      EntriesAscend(blocks, p, q);
    }
    if p < |all| {
      InTableIsEntry(blocks, all[p]);
    }
  }

  /** Where the index and the block it leads to put the key. */
  function CutOf(t: Table, blocks: seq<seq<Entry>>, k: InternalKey): nat
    requires |t.index| == |blocks|
  {
    var i := SeekIndex(t.index, k);
    if i < |blocks| then Start(blocks, i) + SeekBlock(blocks[i], k) else Start(blocks, i)
  }

  lemma EarlierBlock(t: Table, blocks: seq<seq<Entry>>, k: InternalKey, m: nat, j: nat)
    requires |t.index| == |blocks| && m < SeekIndex(t.index, k) && j < |blocks[m]| && Covers(blocks[m], t.index[m].key)
    ensures Less(blocks[m][j].key, k) && Start(blocks, m) + j < CutOf(t, blocks, k)
  {
    NotBothWays(blocks[m][j].key, t.index[m].key, k);
    StartsGrow(blocks, m + 1, SeekIndex(t.index, k));
  }

  lemma LaterBlock(t: Table, blocks: seq<seq<Entry>>, k: InternalKey, m: nat, j: nat)
    requires |t.index| == |blocks| && SeekIndex(t.index, k) < m < |blocks| && j < |blocks[m]|
    requires Precedes(blocks[SeekIndex(t.index, k)], t.index[SeekIndex(t.index, k)].key, blocks[m])
    ensures !Less(blocks[m][j].key, k) && Start(blocks, m) + j >= CutOf(t, blocks, k)
  {
    Later(t.index[SeekIndex(t.index, k)].key, blocks[m][j].key, k);
    StartsGrow(blocks, SeekIndex(t.index, k) + 1, m);
  }

  lemma CutAt(hash: Bloom.Hash, t: Table, blocks: seq<seq<Entry>>, filters: seq<seq<byte>>, k: InternalKey, m: nat, j: nat)
    requires IsTable(hash, t, blocks, filters) && m < |blocks| && j < |blocks[m]|
    ensures Less(blocks[m][j].key, k) <==> Start(blocks, m) + j < CutOf(t, blocks, k)
  {
    var i := SeekIndex(t.index, k);
    if m < i {
      assert Covers(blocks[m], t.index[m].key);
      EarlierBlock(t, blocks, k, m, j);
    } else if m == i {
      assert Ascending(blocks[i]);
      InBlock(blocks[i], k, j);
    } else {
      assert Precedes(blocks[i], t.index[i].key, blocks[m]);
      LaterBlock(t, blocks, k, m, j);
    }
  }

  lemma CutInside(t: Table, blocks: seq<seq<Entry>>, k: InternalKey)
    requires |t.index| == |blocks|
    ensures CutOf(t, blocks, k) <= |Flatten(blocks)|
  {
    var i := SeekIndex(t.index, k);
    StartsGrow(blocks, if i < |blocks| then i + 1 else i, |blocks|);
    StartOfAll(blocks);
  }

  lemma CutAtPlace(hash: Bloom.Hash, t: Table, blocks: seq<seq<Entry>>, filters: seq<seq<byte>>, k: InternalKey, q: nat)
    requires IsTable(hash, t, blocks, filters) && q < |Flatten(blocks)|
    ensures Less(Flatten(blocks)[q].key, k) <==> q < CutOf(t, blocks, k)
  {
    var m, j := PlaceOf(blocks, q);
    CutAt(hash, t, blocks, filters, k, m, j);
  }

  /** The index leads to the first entry at or after the key, or to the end of the block before it. */
  lemma SeekIsCut(hash: Bloom.Hash, t: Table, blocks: seq<seq<Entry>>, filters: seq<seq<byte>>, k: InternalKey)
    requires IsTable(hash, t, blocks, filters)
    ensures IsCut(Flatten(blocks), k, CutOf(t, blocks, k))
  {
    CutInside(t, blocks, k);
    forall q | 0 <= q < |Flatten(blocks)| ensures Less(Flatten(blocks)[q].key, k) <==> q < CutOf(t, blocks, k) {
      CutAtPlace(hash, t, blocks, filters, k, q);
    }
  }

  lemma NotBothWays(a: InternalKey, s: InternalKey, k: InternalKey)
    requires AtMost(a, s) && Less(s, k)
    ensures Less(a, k)
  {
    if a != s {
      Transitive(a, s, k);
    }
  }

  lemma Later(s: InternalKey, a: InternalKey, k: InternalKey)
    requires Less(s, a) && !Less(s, k)
    ensures !Less(a, k)
  {
    if Less(a, k) {
      Transitive(s, a, k);
    }
  }

  lemma InBlock(block: seq<Entry>, k: InternalKey, j: nat)
    requires Ascending(block) && j < |block|
    ensures Less(block[j].key, k) <==> j < SeekBlock(block, k)
  {
    var i := SeekBlock(block, k);
    if i < j {
      Later(block[i].key, block[j].key, k);
    }
  }

  // ----- the iterator -----

  /** A cursor into a block; past either end it is at the length of the block. */
  datatype DataIter = DataIter(handle: Handle, block: seq<Entry>, position: nat)

  class TwoLevelIterator {
    const table: Table
    ghost const blocks: seq<seq<Entry>>
    /** The length of the index when the index cursor is not valid. */
    var index: nat
    var data: Option<DataIter>

    ghost predicate Good() {
      && |table.index| == |blocks|
      && forall i :: 0 <= i < |blocks| ==>
        table.index[i].handle.offset in table.blocks && table.blocks[table.index[i].handle.offset] == blocks[i]
    }

    ghost predicate Valid()
      reads this
    {
      Good() && index <= |blocks|
      && (data.Some? ==> data.value.handle.offset in table.blocks && data.value.block == table.blocks[data.value.handle.offset])
    }

    /** The data cursor is in the block of the index cursor. */
    ghost predicate InBlockOf(i: nat, j: nat)
      reads this
    {
      Valid() && index == i < |blocks| && data.Some? && data.value.block == blocks[i] && data.value.position == j <= |blocks[i]|
    }

    /** The cursor stands on the p-th of all the entries, or past the ends. */
    ghost predicate At(p: nat)
      reads this
    {
      Valid() && if p < |Flatten(blocks)| then
        && data.Some? && InBlockOf(index, data.value.position) && data.value.position < |blocks[index]|
        && p == Start(blocks, index) + data.value.position
      else data.None?
    }

    constructor (table: Table, ghost blocks: seq<seq<Entry>>)
      requires |table.index| == |blocks|
      requires forall i :: 0 <= i < |blocks| ==>
        table.index[i].handle.offset in table.blocks && table.blocks[table.index[i].handle.offset] == blocks[i]
      ensures At(|Flatten(blocks)|) && this.table == table && this.blocks == blocks
    {
      this.table, this.blocks, index, data := table, blocks, |table.index|, None;
    }

    /** Valid(), and what key() and value() give then. */
    method Current(ghost p: nat) returns (entry: Option<Entry>)
      requires p <= |Flatten(blocks)| && At(p)
      ensures entry == if p < |Flatten(blocks)| then Some(Flatten(blocks)[p]) else None
    {
      if data.Some? && data.value.position < |data.value.block| {
        StartNext(blocks, index);
        entry := Some(data.value.block[data.value.position]);
      } else {
        entry := None;
      }
    }

    /** A cursor for the block of the index cursor, or the one there is if it is for that block. */
    method InitDataBlock()
      requires Valid()
      modifies this`data
      ensures Valid()
      ensures if index < |blocks| then data.Some? && data.value.block == blocks[index] else data.None?
    {
      if index == |table.index| {
        data := None;
      } else {
        var handle := table.index[index].handle;
        if data.Some? && data.value.handle == handle {
        } else {
          var block := table.blocks[handle.offset];
          data := Some(DataIter(handle, block, |block|));
        }
      }
    }

    /** Where the data cursor is among all the entries, counting the end of its block as the start of the next. */
    ghost predicate Toward(p: nat)
      reads this
    {
      Valid() && if index < |blocks| then
        data.Some? && InBlockOf(index, data.value.position) && p == Start(blocks, index) + data.value.position
      else data.None? && p == |Flatten(blocks)|
    }

    method SkipEmptyDataBlocksForward(ghost p: nat)
      requires Toward(p)
      modifies this
      ensures At(p)
    {
      while data.None? || data.value.position == |data.value.block|
        invariant Toward(p)
        decreases |blocks| - index, data.Some?
      {
        if index == |table.index| {
          data := None;
          return;
        }
        StartNext(blocks, index);
        index := index + 1;
        StartOfAll(blocks);
        InitDataBlock();
        if data.Some? {
          data := Some(data.value.(position := 0));
        }
      }
      StartNext(blocks, index);
    }

    /** The data cursor is before the start of its block, or on the last entry before `q`. */
    ghost predicate Back(q: nat)
      reads this
    {
      Valid() && if index < |blocks| then
        && data.Some? && data.value.block == blocks[index] && data.value.position <= |blocks[index]|
        && q == Start(blocks, index) + if data.value.position == |blocks[index]| then 0 else data.value.position + 1
      else data.None? && q == 0
    }

    method SkipEmptyDataBlocksBackward(ghost q: nat)
      requires Back(q)
      modifies this
      ensures At(if q > 0 then q - 1 else |Flatten(blocks)|)
    {
      while data.None? || data.value.position == |data.value.block|
        invariant Back(q)
        decreases if index < |blocks| then index + 1 else 0, data.Some?
      {
        if index == |table.index| {
          data := None;
          return;
        }
        StartOfAll(blocks);
        if index > 0 {
          StartNext(blocks, index - 1);
        }
        index := if index == 0 then |table.index| else index - 1;
        InitDataBlock();
        if data.Some? {
          data := Some(data.value.(position := LastPosition(data.value.block)));
        }
      }
      StartNext(blocks, index);
    }

    /** SeekToLast in a block. */
    function LastPosition(block: seq<Entry>): nat {
      if block == [] then 0 else |block| - 1
    }

    method SeekToFirst()
      requires Valid()
      modifies this
      ensures At(0)
    {
      index := 0;
      InitDataBlock();
      if data.Some? {
        data := Some(data.value.(position := 0));
      }
      StartOfAll(blocks);
      SkipEmptyDataBlocksForward(0);
    }

    method SeekToLast()
      requires Valid()
      modifies this
      ensures At(if Flatten(blocks) != [] then |Flatten(blocks)| - 1 else 0)
    {
      index := if |table.index| == 0 then 0 else |table.index| - 1;
      InitDataBlock();
      StartOfAll(blocks);
      if data.Some? {
        data := Some(data.value.(position := LastPosition(data.value.block)));
        StartNext(blocks, index);
      }
      SkipEmptyDataBlocksBackward(|Flatten(blocks)|);
    }

    /** The first entry at or after the key, whatever keys the index has in place of the whole ones. */
    method Seek(k: InternalKey, ghost hash: Bloom.Hash, ghost filters: seq<seq<byte>>) returns (ghost p: nat)
      requires Valid() && IsTable(hash, table, blocks, filters)
      modifies this
      ensures IsCut(Flatten(blocks), k, p) && At(p)
    {
      index := SeekIndex(table.index, k);
      InitDataBlock();
      if data.Some? {
        data := Some(data.value.(position := SeekBlock(data.value.block, k)));
      }
      p := CutOf(table, blocks, k);
      SeekIsCut(hash, table, blocks, filters, k);
      StartOfAll(blocks);
      SkipEmptyDataBlocksForward(p);
    }

    method Next(ghost p: nat)
      requires p < |Flatten(blocks)| && At(p)
      modifies this
      ensures At(p + 1)
    {
      data := Some(data.value.(position := data.value.position + 1));
      SkipEmptyDataBlocksForward(p + 1);
    }

    method Prev(ghost p: nat)
      requires p < |Flatten(blocks)| && At(p)
      modifies this
      ensures At(if p > 0 then p - 1 else |Flatten(blocks)|)
    {
      var j := data.value.position;
      data := Some(data.value.(position := if j > 0 then j - 1 else |data.value.block|));
      SkipEmptyDataBlocksBackward(p);
    }
  }
}
