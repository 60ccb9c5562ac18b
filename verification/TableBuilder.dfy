/**
 TableBuilder (table/table_builder.cc): adds entries in order, cuts them into blocks, and writes the
 index key of a block only when it has seen the first key of the next one.
 */
module TableBuilders {
  import opened Common
  import opened Coding
  import opened Bloom
  import opened Filters
  import opened Separators
  import opened Tables

  const TRAILER_SIZE := 5

  /** The bytes of a finished block, and when a block is full. */
  datatype Sizes = Sizes(size: seq<Entry> -> nat, full: seq<Entry> -> bool)

  // ----- the state between calls -----

  /** What was written: the blocks, their places, and the index so far. */
  datatype Written = Written(blocks: seq<seq<Entry>>, handles: seq<Handle>, index: seq<IndexEntry>, file: map<nat, seq<Entry>>)

  ghost predicate InFile(w: Written, offset: nat) {
    && |w.handles| == |w.blocks|
    && (forall i :: 0 <= i < |w.handles| ==> w.handles[i].offset in w.file && w.file[w.handles[i].offset] == w.blocks[i])
    && (forall o :: o in w.file ==> o < offset)
  }

  /** The index entries cover their blocks and precede what came after. */
  ghost predicate Indexed(w: Written, data: seq<Entry>) {
    && |w.index| <= |w.blocks| == |w.handles|
    && (forall i :: 0 <= i < |w.index| ==> w.index[i].handle == w.handles[i] && Covers(w.blocks[i], w.index[i].key))
    && (forall i :: 0 <= i < |w.index| ==> Precedes(w.blocks[i], w.index[i].key, data))
    && (forall i, k :: 0 <= i < k < |w.blocks| && i < |w.index| ==> Precedes(w.blocks[i], w.index[i].key, w.blocks[k]))
  }

  /** The filter knows every key at the offset of its block. */
  ghost predicate Filtered(blocks: seq<seq<Entry>>, handles: seq<Handle>, data: seq<Entry>, offset: nat, added: set<Added>) {
    && |handles| == |blocks|
    && (forall i, e :: 0 <= i < |blocks| && e in blocks[i] ==> Added(handles[i].offset, e.key.user) in added)
    && (forall e :: e in data ==> Added(offset, e.key.user) in added)
  }

  /** Everything so far is in order, up to the last key. */
  ghost predicate Sorted(blocks: seq<seq<Entry>>, data: seq<Entry>, lastKey: InternalKey) {
    && InOrder(blocks) && Ascending(data)
    && (forall i :: 0 <= i < |blocks| ==> AllBefore(blocks[i], data))
    && (forall i, e :: 0 <= i < |blocks| && e in blocks[i] ==> AtMost(e.key, lastKey))
    && (forall e :: e in data ==> AtMost(e.key, lastKey))
  }

  /** Where the last key was added. */
  ghost predicate LastIsLast(blocks: seq<seq<Entry>>, data: seq<Entry>, lastKey: InternalKey, pending: bool) {
    && (pending ==> data == [] && blocks != [] && exists e :: e in blocks[|blocks| - 1] && e.key == lastKey)
    && (!pending ==> if data == [] then blocks == [] else data[|data| - 1].key == lastKey)
  }

  ghost predicate Built(w: Written, data: seq<Entry>, lastKey: InternalKey, offset: nat, pending: bool) {
    && Sorted(w.blocks, data, lastKey) && InFile(w, offset) && Indexed(w, data)
    && LastIsLast(w.blocks, data, lastKey, pending)
    && |w.blocks| == |w.index| + (if pending then 1 else 0)
  }

  // ----- what the steps keep -----

  /** An index key that precedes a later entry precedes what comes after that. */
  lemma PrecedesNext(block: seq<Entry>, s: InternalKey, later: seq<Entry>, f: Entry, e: Entry)
    requires Precedes(block, s, later) && f in later && Less(f.key, e.key)
    ensures Precedes(block, s, later + [e]) && Precedes(block, s, [e])
  {
    Transitive(s, f.key, e.key);
    if e.key.user == s.user {
      Total(s, f.key);
      BetweenSameUser(s, f.key, e.key);
    }
  }

  /** The index entry of the last block, emitted when the next key is known. */
  lemma EmitIndex(w: Written, lastKey: InternalKey, offset: nat, s: InternalKey, e: Entry)
    requires Built(w, [], lastKey, offset, true) && Separates(lastKey, s, e.key)
    ensures var w' := w.(index := w.index + [IndexEntry(s, w.handles[|w.handles| - 1])]);
      Indexed(w', []) && forall i :: 0 <= i < |w.blocks| ==> Precedes(w.blocks[i], w'.index[i].key, [e])
  {
    var n := |w.index|;
    var last :| last in w.blocks[n] && last.key == lastKey;
    forall f | f in w.blocks[n] ensures AtMost(f.key, s) {
      if f.key != lastKey && s != lastKey {
        Transitive(f.key, lastKey, s);
      }
    }
    if s != lastKey {
      Transitive(lastKey, s, e.key);
    }
    forall i | 0 <= i < n ensures Precedes(w.blocks[i], w.index[i].key, [e]) {
      PrecedesNext(w.blocks[i], w.index[i].key, w.blocks[n], last, e);
    }
  }

  lemma IndexedMore(w: Written, data: seq<Entry>, e: Entry)
    requires Indexed(w, data) && forall i :: 0 <= i < |w.index| ==> Precedes(w.blocks[i], w.index[i].key, [e])
    ensures Indexed(w, data + [e])
  {
    forall i | 0 <= i < |w.index| ensures Precedes(w.blocks[i], w.index[i].key, data + [e]) {
      assert Precedes(w.blocks[i], w.index[i].key, data);
      assert e in [e];
    }
  }

  lemma SortedMore(blocks: seq<seq<Entry>>, data: seq<Entry>, lastKey: InternalKey, e: Entry)
    requires Sorted(blocks, data, lastKey) && (blocks != [] || data != [] ==> Less(lastKey, e.key))
    ensures Sorted(blocks, data + [e], e.key)
  {
    forall f | f in data || exists i :: 0 <= i < |blocks| && f in blocks[i] ensures Less(f.key, e.key) {
      if f.key != lastKey {
        Transitive(f.key, lastKey, e.key);
      }
    }
    forall i | 0 <= i < |blocks| ensures AllBefore(blocks[i], data + [e]) {
      assert AllBefore(blocks[i], data);
    }
  }

  /** Add, when no index entry is pending. */
  lemma AddToData(w: Written, data: seq<Entry>, lastKey: InternalKey, offset: nat, e: Entry)
    requires Built(w, data, lastKey, offset, false) && (data != [] ==> Less(lastKey, e.key))
    ensures Built(w, data + [e], e.key, offset, false)
  {
    SortedMore(w.blocks, data, lastKey, e);
    forall i | 0 <= i < |w.index| ensures Precedes(w.blocks[i], w.index[i].key, [e]) {
      PrecedesNext(w.blocks[i], w.index[i].key, data, data[|data| - 1], e);
    }
    IndexedMore(w, data, e);
  }

  /** Add, after the index entry of the last block. */
  lemma AddToNewBlock(w: Written, lastKey: InternalKey, offset: nat, s: InternalKey, e: Entry)
    requires Built(w, [], lastKey, offset, true) && Less(lastKey, e.key) && Separates(lastKey, s, e.key)
    ensures Built(w.(index := w.index + [IndexEntry(s, w.handles[|w.handles| - 1])]), [e], e.key, offset, false)
  {
    var w' := w.(index := w.index + [IndexEntry(s, w.handles[|w.handles| - 1])]);
    EmitIndex(w, lastKey, offset, s, e);
    SortedMore(w.blocks, [], lastKey, e);
    IndexedMore(w', [], e);
    assert [] + [e] == [e];
  }

  function AfterFlush(w: Written, data: seq<Entry>, h: Handle): Written {
    Written(w.blocks + [data], w.handles + [h], w.index, w.file[h.offset := data])
  }

  lemma FlushIsBuilt(w: Written, data: seq<Entry>, lastKey: InternalKey, offset: nat, h: Handle, offset': nat)
    requires Built(w, data, lastKey, offset, false) && data != [] && h.offset == offset < offset'
    ensures Built(AfterFlush(w, data, h), [], lastKey, offset', true)
  {
    assert data[|data| - 1] in data;
  }

  lemma FilteredMore(blocks: seq<seq<Entry>>, handles: seq<Handle>, data: seq<Entry>, offset: nat, added: set<Added>, e: Entry)
    requires Filtered(blocks, handles, data, offset, added)
    ensures Filtered(blocks, handles, data + [e], offset, added + {Added(offset, e.key.user)})
  {
  }

  lemma FilteredFlush(blocks: seq<seq<Entry>>, handles: seq<Handle>, data: seq<Entry>, added: set<Added>, h: Handle, offset: nat)
    requires Filtered(blocks, handles, data, h.offset, added)
    ensures Filtered(blocks + [data], handles + [h], [], offset, added)
  {
  }

  lemma FlattenMore(blocks: seq<seq<Entry>>, data: seq<Entry>)
    ensures Flatten(blocks + [data]) + [] == Flatten(blocks) + data
  {
    assert (blocks + [data])[..|blocks|] == blocks;
  }

  lemma AppendedEntry(x: seq<Entry>, data: seq<Entry>, e: Entry)
    ensures x + (data + [e]) == x + data + [e]
  {
  }

  lemma NotPending(w: Written, data: seq<Entry>, lastKey: InternalKey, offset: nat, pending: bool)
    requires Built(w, data, lastKey, offset, pending) && data != []
    ensures !pending
  {
  }

  // ----- the builder -----

  class TableBuilder {
    const sizes: Sizes
    /** Null when there is no filter policy. */
    const filter: FilterBlockBuilder?
    var offset: nat
    var file: map<nat, seq<Entry>>
    var data: seq<Entry>
    var index: seq<IndexEntry>
    var lastKey: InternalKey
    var numEntries: nat
    var pendingIndexEntry: bool
    var pendingHandle: Handle
    ghost var out: Written

    ghost predicate FilterHolds(entries: seq<Entry>)
      reads this, filter
    {
      filter != null ==>
        filter.Valid() && |filter.filters| == offset / BASE && Filtered(out.blocks, out.handles, entries, offset, filter.added)
    }

    ghost predicate Valid()
      reads this, filter
    {
      && Built(out, data, lastKey, offset, pendingIndexEntry) && FilterHolds(data)
      && out.index == index && out.file == file
      && (pendingIndexEntry ==> out.handles != [] && pendingHandle == out.handles[|out.handles| - 1])
      && (numEntries == 0 <==> out.blocks == [] && data == [])
    }

    /** The entries that were added. */
    ghost function Entries(): seq<Entry>
      reads this
    {
      Flatten(out.blocks) + data
    }

    constructor (sizes: Sizes, filter: FilterBlockBuilder?)
      requires filter != null ==> filter.Valid() && filter.filters == []
      modifies filter
      ensures Valid() && Entries() == [] && this.filter == filter
    {
      this.sizes, this.filter := sizes, filter;
      offset, file, data, index, numEntries, pendingIndexEntry := 0, map[], [], [], 0, false;
      lastKey, pendingHandle := InternalKey([], 0), Handle(0, 0);
      out := Written([], [], [], map[]);
      new;
      if filter != null {
        filter.StartBlock(0);
      }
    }

    method Add(key: InternalKey, value: seq<byte>)
      requires Valid() && (numEntries > 0 ==> Less(lastKey, key))
      modifies this, filter
      ensures Valid() && Entries() == old(Entries()) + [Entry(key, value)]
    {
      var e := Entry(key, value);
      WriteIndexEntry(e);
      AddToFilter(e);
      AddToBlock(e);
      if sizes.full(data) {
        Flush();
      }
    }

    method AddToBlock(e: Entry)
      requires Built(out, data + [e], e.key, offset, false)
      modifies this`data, this`lastKey, this`numEntries
      ensures Built(out, data, lastKey, offset, false) && numEntries == old(numEntries) + 1
      ensures data == old(data) + [e] && Entries() == old(Entries()) + [e]
    {
      AppendedEntry(Flatten(out.blocks), data, e);
      lastKey := e.key;
      numEntries := numEntries + 1;
      data := data + [e];
    }

    /** The index entry that was waiting for the next key, if there is one. */
    method WriteIndexEntry(e: Entry)
      requires Built(out, data, lastKey, offset, pendingIndexEntry) && out.index == index
      requires pendingIndexEntry ==> out.handles != [] && pendingHandle == out.handles[|out.handles| - 1]
      requires out.blocks != [] || data != [] ==> Less(lastKey, e.key)
      modifies this`index, this`pendingIndexEntry, this`out
      ensures !pendingIndexEntry && Built(out, data + [e], e.key, offset, false)
      ensures out == old(out).(index := index)
    {
      if pendingIndexEntry {
        var s := FindInternalSeparator(lastKey, e.key);
        AddToNewBlock(out, lastKey, offset, s, e);
        assert data + [e] == [e];
        index := index + [IndexEntry(s, pendingHandle)];
        out := out.(index := index);
        pendingIndexEntry := false;
      } else {
        AddToData(out, data, lastKey, offset, e);
      }
    }

    method AddToFilter(e: Entry)
      requires FilterHolds(data)
      modifies filter
      ensures FilterHolds(data + [e])
    {
      if filter != null {
        FilteredMore(out.blocks, out.handles, data, offset, filter.added, e);
        filter.AddKey(e.key.user, offset);
      }
    }

    method Flush()
      requires Valid()
      modifies this, filter
      ensures Valid() && Entries() == old(Entries()) && data == []
      ensures lastKey == old(lastKey) && numEntries == old(numEntries)
    {
      if data != [] {
        NotPending(out, data, lastKey, offset, pendingIndexEntry);
        FlattenMore(out.blocks, data);
        WriteBlock();
        if filter != null {
          filter.StartBlock(offset);
        }
      }
    }

    method WriteBlock()
      requires data != [] && Built(out, data, lastKey, offset, false) && out.file == file
      requires filter != null ==> Filtered(out.blocks, out.handles, data, offset, filter.added)
      modifies this`file, this`out, this`pendingHandle, this`offset, this`data, this`pendingIndexEntry
      ensures Built(out, [], lastKey, offset, true) && pendingIndexEntry && data == []
      ensures out == AfterFlush(old(out), old(data), pendingHandle) && out.file == file
      ensures offset >= old(offset)
      ensures filter != null ==> Filtered(out.blocks, out.handles, [], offset, filter.added)
    {
      var size := sizes.size(data);
      var h := Handle(offset, size);
      var next := offset + size + TRAILER_SIZE;
      FlushIsBuilt(out, data, lastKey, offset, h, next);
      if filter != null {
        FilteredFlush(out.blocks, out.handles, data, filter.added, h, next);
      }
      out := AfterFlush(out, data, h);
      file := file[offset := data];
      pendingHandle, offset := h, next;
      data := [];
      pendingIndexEntry := true;
    }

    /** Finish: the table holds exactly the entries that were added. */
    method Finish(ghost hash: Hash) returns (t: Table, ghost filters: seq<seq<byte>>)
      requires Valid() && (filter != null ==> filter.hash == hash)
      modifies this, filter
      ensures Flatten(out.blocks) == old(Entries()) && (t.filter.Some? <==> filter != null)
      ensures (t.filter.Some? ==> |t.filter.value| < 0x1_0000_0000) ==> IsTable(hash, t, out.blocks, filters)
    {
      Flush();
      assert Flatten(out.blocks) + [] == Flatten(out.blocks);
      var contents: Option<seq<byte>> := None;
      filters := [];
      if filter != null {
        var bytes := filter.Finish();
        filters := filter.filters;
        contents := Some(bytes);
        FilterIsMade(hash, out, offset, filter.added, filters);
      }
      WriteLastIndexEntry();
      t := Table(index, file, contents);
      MakesTable(hash, out, t, filters);
    }

    method WriteLastIndexEntry()
      requires Built(out, [], lastKey, offset, pendingIndexEntry) && out.index == index
      requires pendingIndexEntry ==> out.handles != [] && pendingHandle == out.handles[|out.handles| - 1]
      modifies this`index, this`pendingIndexEntry, this`lastKey, this`out
      ensures Complete(out) && out == old(out).(index := index)
    {
      if pendingIndexEntry {
        var s := FindInternalSuccessor(lastKey);
        LastIndex(out, lastKey, offset, s);
        lastKey := s;
        index := index + [IndexEntry(s, pendingHandle)];
        out := out.(index := index);
        pendingIndexEntry := false;
      }
    }
  }

  /** All blocks are indexed. */
  ghost predicate Complete(w: Written) {
    && InOrder(w.blocks) && |w.index| == |w.blocks| == |w.handles| && Indexed(w, [])
    && forall i :: 0 <= i < |w.handles| ==> w.handles[i].offset in w.file && w.file[w.handles[i].offset] == w.blocks[i]
  }

  lemma LastIndex(w: Written, lastKey: InternalKey, offset: nat, s: InternalKey)
    requires Built(w, [], lastKey, offset, true) && AtMost(lastKey, s)
    ensures Complete(w.(index := w.index + [IndexEntry(s, w.handles[|w.handles| - 1])]))
  {
    var n := |w.index|;
    forall f | f in w.blocks[n] ensures AtMost(f.key, s) {
      if f.key != lastKey && s != lastKey {
        Transitive(f.key, lastKey, s);
      }
    }
  }

  ghost predicate AllCovered(hash: Hash, w: Written, filters: seq<seq<byte>>) {
    |w.handles| == |w.blocks| && forall i :: 0 <= i < |w.blocks| ==> FilterCovers(hash, filters, w.handles[i].offset, w.blocks[i])
  }

  lemma FilterIsMade(hash: Hash, w: Written, offset: nat, added: set<Added>, filters: seq<seq<byte>>)
    requires Filtered(w.blocks, w.handles, [], offset, added) && forall a :: a in added ==> Covered(hash, filters, a)
    ensures AllCovered(hash, w, filters)
  {
  }

  lemma MakesTable(hash: Hash, w: Written, t: Table, filters: seq<seq<byte>>)
    requires Complete(w) && t.index == w.index && t.blocks == w.file
    requires t.filter.Some? ==> AllCovered(hash, w, filters)
    ensures (t.filter.Some? ==> IsFilterBlock(t.filter.value, filters)) ==> IsTable(hash, t, w.blocks, filters)
  {
  }
}
