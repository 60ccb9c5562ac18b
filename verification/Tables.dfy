/**
 Tables (table/table_builder.cc, table/table.cc): sorted entries cut into blocks, with an index of keys
 that separate the blocks and a filter. Blocks are taken as the entries they hold, found by the offset
 in their handle.
 */
module Tables {
  import opened Common
  import opened Coding
  import opened Bloom
  import opened Filters
  import opened Separators

  datatype Entry = Entry(key: InternalKey, value: seq<byte>)

  datatype Handle = Handle(offset: nat, size: nat)

  datatype IndexEntry = IndexEntry(key: InternalKey, handle: Handle)

  datatype Table = Table(index: seq<IndexEntry>, blocks: map<nat, seq<Entry>>, filter: Option<seq<byte>>)

  predicate AtMost(a: InternalKey, b: InternalKey) {
    a == b || Less(a, b)
  }

  // ----- what a table is -----

  ghost predicate Ascending(block: seq<Entry>) {
    forall j, k :: 0 <= j < k < |block| ==> Less(block[j].key, block[k].key)
  }

  ghost predicate AllBefore(block: seq<Entry>, later: seq<Entry>) {
    forall e, f :: e in block && f in later ==> Less(e.key, f.key)
  }

  ghost predicate InOrder(blocks: seq<seq<Entry>>) {
    && (forall i :: 0 <= i < |blocks| ==> Ascending(blocks[i]))
    && (forall i, k :: 0 <= i < k < |blocks| ==> AllBefore(blocks[i], blocks[k]))
  }

  /** The index key is not before the block. */
  ghost predicate Covers(block: seq<Entry>, s: InternalKey) {
    forall e :: e in block ==> AtMost(e.key, s)
  }

  /** The index key is before the later block; and where it has the same user key, it is the key of the last
      entry of its own block. */
  ghost predicate Precedes(block: seq<Entry>, s: InternalKey, later: seq<Entry>) {
    && (forall f :: f in later ==> Less(s, f.key))
    && ((exists f :: f in later && f.key.user == s.user) ==> exists e :: e in block && e.key == s)
  }

  ghost predicate FilterCovers(hash: Hash, filters: seq<seq<byte>>, offset: nat, block: seq<Entry>) {
    forall e :: e in block ==> Covered(hash, filters, Added(offset, e.key.user))
  }

  ghost predicate IsTable(hash: Hash, t: Table, blocks: seq<seq<Entry>>, filters: seq<seq<byte>>) {
    && InOrder(blocks) && |t.index| == |blocks|
    && (forall i :: 0 <= i < |blocks| ==> t.index[i].handle.offset in t.blocks && t.blocks[t.index[i].handle.offset] == blocks[i])
    && (forall i :: 0 <= i < |blocks| ==> Covers(blocks[i], t.index[i].key))
    && (forall i, k :: 0 <= i < k < |blocks| ==> Precedes(blocks[i], t.index[i].key, blocks[k]))
    && (t.filter.Some? ==>
          && IsFilterBlock(t.filter.value, filters)
          && forall i :: 0 <= i < |blocks| ==> FilterCovers(hash, filters, t.index[i].handle.offset, blocks[i]))
  }

  // ----- lookups -----

  /** Seek in the index block: the first index entry at or after the key. */
  function SeekIndex(index: seq<IndexEntry>, k: InternalKey): (i: nat)
    ensures i <= |index|
    ensures forall j :: 0 <= j < i ==> Less(index[j].key, k)
    ensures i < |index| ==> !Less(index[i].key, k)
  {
    if index == [] || !Less(index[0].key, k) then 0 else 1 + SeekIndex(index[1..], k)
  }

  /** Seek in a data block. */
  function SeekBlock(block: seq<Entry>, k: InternalKey): (i: nat)
    ensures i <= |block|
    ensures forall j :: 0 <= j < i ==> Less(block[j].key, k)
    ensures i < |block| ==> !Less(block[i].key, k)
  {
    if block == [] || !Less(block[0].key, k) then 0 else 1 + SeekBlock(block[1..], k)
  }

  ghost predicate InTable(blocks: seq<seq<Entry>>, e: Entry) {
    exists i :: 0 <= i < |blocks| && e in blocks[i]
  }

  /** The first entry of the table at or after the key. */
  ghost predicate IsFirstFrom(blocks: seq<seq<Entry>>, k: InternalKey, e: Entry) {
    && InTable(blocks, e) && !Less(e.key, k)
    && forall f :: InTable(blocks, f) && !Less(f.key, k) ==> AtMost(e.key, f.key)
  }

  /** Table::InternalGet: what it finds is the first entry at or after the key; and it finds that entry
      whenever it has the user key that was asked for, in spite of shortened keys and filters. */
  method InternalGet(hash: Hash, t: Table, k: InternalKey, ghost blocks: seq<seq<Entry>>, ghost filters: seq<seq<byte>>)
    returns (found: Option<Entry>)
    requires IsTable(hash, t, blocks, filters)
    ensures found.Some? ==> IsFirstFrom(blocks, k, found.value)
    ensures forall e :: IsFirstFrom(blocks, k, e) && e.key.user == k.user ==> found == Some(e)
  {
    var i := SeekIndex(t.index, k);
    forall e | IsFirstFrom(blocks, k, e) && e.key.user == k.user ensures i < |blocks| && e in blocks[i] {
      FirstIsInBlock(t, blocks, k, e, i);
    }
    if i == |t.index| {
      return None;
    }
    if t.filter.Some? {
      var may := Filters.KeyMayMatch(hash, t.filter.value, t.index[i].handle.offset, k.user, filters);
      if !may {
        assert FilterCovers(hash, filters, t.index[i].handle.offset, blocks[i]);
        return None;
      }
    }
    var block := t.blocks[t.index[i].handle.offset];
    var j := SeekBlock(block, k);
    if j < |block| {
      FoundIsFirst(t, blocks, k, i, j);
      found := Some(block[j]);
      forall e | IsFirstFrom(blocks, k, e) ensures e == block[j] {
        OnlyOneFirst(blocks, k, e, block[j], i, j);
      }
    } else {
      found := None;
    }
  }

  /** The block that the index leads to holds the first entry, if that has the user key. */
  lemma FirstIsInBlock(t: Table, blocks: seq<seq<Entry>>, k: InternalKey, e: Entry, i: nat)
    requires InOrder(blocks) && |t.index| == |blocks|
    requires forall i :: 0 <= i < |blocks| ==> Covers(blocks[i], t.index[i].key)
    requires forall i, k :: 0 <= i < k < |blocks| ==> Precedes(blocks[i], t.index[i].key, blocks[k])
    requires IsFirstFrom(blocks, k, e) && e.key.user == k.user && i == SeekIndex(t.index, k)
    ensures i < |blocks| && e in blocks[i]
  {
    var m :| 0 <= m < |blocks| && e in blocks[m];
    assert Covers(blocks[m], t.index[m].key);
    if m < i {
      NotBoth(e.key, t.index[m].key, k);
    }
    if i < m {
      assert Precedes(blocks[i], t.index[i].key, blocks[m]);
      BetweenSameUser(k, t.index[i].key, e.key);
      var last :| last in blocks[i] && last.key == t.index[i].key;
      assert InTable(blocks, last);
      Total(last.key, e.key);
    }
  }

  lemma NotBoth(a: InternalKey, s: InternalKey, k: InternalKey)
    requires AtMost(a, s) && !Less(a, k)
    ensures !Less(s, k)
  {
    if Less(s, k) && a != s {
      Transitive(a, s, k);
    }
  }

  /** Between two keys of a user key there are only keys of that user key. */
  lemma BetweenSameUser(a: InternalKey, s: InternalKey, b: InternalKey)
    requires a.user == b.user && !Less(s, a) && Less(s, b)
    ensures s.user == b.user
  {
    BytesTotal(s.user, a.user);
  }

  lemma FoundIsFirst(t: Table, blocks: seq<seq<Entry>>, k: InternalKey, i: nat, j: nat)
    requires InOrder(blocks) && |t.index| == |blocks| && i == SeekIndex(t.index, k) && i < |blocks|
    requires forall i :: 0 <= i < |blocks| ==> Covers(blocks[i], t.index[i].key)
    requires j == SeekBlock(blocks[i], k) && j < |blocks[i]|
    ensures IsFirstFrom(blocks, k, blocks[i][j])
  {
    var e := blocks[i][j];
    forall f | InTable(blocks, f) && !Less(f.key, k) ensures AtMost(e.key, f.key) {
      var m :| 0 <= m < |blocks| && f in blocks[m];
      assert Covers(blocks[m], t.index[m].key);
      if m < i {
        NotBoth(f.key, t.index[m].key, k);
      }
      if m == i {
        assert Ascending(blocks[i]);
      }
      if m > i {
        assert AllBefore(blocks[i], blocks[m]);
      }
    }
  }

  lemma OnlyOneFirst(blocks: seq<seq<Entry>>, k: InternalKey, e: Entry, f: Entry, i: nat, j: nat)
    requires InOrder(blocks) && IsFirstFrom(blocks, k, e) && IsFirstFrom(blocks, k, f)
    requires i < |blocks| && j < |blocks[i]| && blocks[i][j] == f
    ensures e == f
  {
    Total(e.key, f.key);
    var m :| 0 <= m < |blocks| && e in blocks[m];
    assert m < i ==> AllBefore(blocks[m], blocks[i]);
    assert i < m ==> AllBefore(blocks[i], blocks[m]);
    assert Ascending(blocks[i]);
  }
}
