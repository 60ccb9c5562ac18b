/**
 Filter blocks (table/filter_block.cc): one filter for the keys of every 2 KB of blocks.
 */
module Filters {
  import opened Common
  import opened Coding
  import opened Bloom

  const BASE_LG: byte := 11
  const BASE := 2048

  /** Where the i-th part starts, and where it ends when `i` is its successor. */
  function PartOffset(parts: seq<seq<byte>>, i: nat): nat
    requires i <= |parts|
  {
    |Flatten(parts[..i])|
  }

  lemma {:induction false} PartIs(parts: seq<seq<byte>>, i: nat)
    requires i < |parts|
    ensures PartOffset(parts, i) <= PartOffset(parts, i + 1) <= |Flatten(parts)|
    ensures Flatten(parts)[PartOffset(parts, i)..PartOffset(parts, i + 1)] == parts[i]
  {
    assert parts[..i + 1][..i] == parts[..i];
    if i == |parts| - 1 {
      assert parts[..i + 1] == parts;
    } else {
      var front := parts[..|parts| - 1];
      PartIs(front, i);
      assert front[..i] == parts[..i] && front[..i + 1] == parts[..i + 1];
    }
  }

  /** Offsets are kept as 32 bits. */
  function Truncated(n: nat): Word {
    n % 0x1_0000_0000
  }

  /** offset >> lg */
  function Shift(offset: nat, lg: nat): nat {
    if lg == 0 then offset else Shift(offset / 2, lg - 1)
  }

  lemma ShiftThree(offset: nat, lg: nat)
    ensures Shift(offset, lg + 3) == Shift(offset / 8, lg)
  {
    assert Shift(offset, lg + 3) == Shift(offset / 2, lg + 2);
    assert Shift(offset / 2, lg + 2) == Shift(offset / 2 / 2, lg + 1);
  }

  lemma ShiftByBase(offset: nat)
    ensures Shift(offset, BASE_LG as nat) == offset / BASE
  {
    ShiftThree(offset, 8);
    ShiftThree(offset / 8, 5);
    ShiftThree(offset / 8 / 8, 2);
    assert Shift(offset / 8 / 8 / 8, 2) == Shift(offset / 8 / 8 / 8 / 2, 1);
  }

  /** A key that was added while the block at an offset was being built. */
  datatype Added = Added(offset: nat, key: seq<byte>)

  /** The filter of the 2 KB range with the block was made for the key. */
  ghost predicate Covered(hash: Hash, filters: seq<seq<byte>>, a: Added) {
    a.offset / BASE < |filters| && MadeFor(hash, filters[a.offset / BASE], a.key)
  }

  /** What a finished filter block holds. */
  ghost predicate IsFilterBlock(contents: seq<byte>, filters: seq<seq<byte>>) {
    exists offsets: seq<Word> {:trigger HoldsFilters(contents, filters, offsets)} :: HoldsFilters(contents, filters, offsets)
  }

  ghost predicate HoldsFilters(contents: seq<byte>, filters: seq<seq<byte>>, offsets: seq<Word>) {
    && |offsets| == |filters| + 1
    && (forall i :: 0 <= i <= |filters| ==> offsets[i] == PartOffset(filters, i))
    && contents == Flatten(filters) + EncodeWords(offsets) + [BASE_LG]
  }

  class FilterBlockBuilder {
    const hash: Hash
    const bitsPerKey: nat
    /** The keys of the next filter, flattened, and where each starts. */
    var keys: seq<byte>
    var start: seq<nat>
    var result: seq<byte>
    var filterOffsets: seq<Word>
    ghost var filters: seq<seq<byte>>
    ghost var pending: seq<seq<byte>>
    ghost var added: set<Added>

    ghost predicate Valid()
      reads this
    {
      && |start| == |pending| && keys == Flatten(pending)
      && (forall i :: 0 <= i < |start| ==> start[i] == PartOffset(pending, i))
      && |filterOffsets| == |filters| && result == Flatten(filters)
      && (forall i :: 0 <= i < |filters| ==> filterOffsets[i] == Truncated(PartOffset(filters, i)))
      && forall a :: a in added ==> Covered(hash, filters, a) || (a.offset / BASE == |filters| && a.key in pending)
    }

    constructor (hash: Hash, bitsPerKey: nat)
      ensures Valid() && added == {} && this.hash == hash && filters == []
    {
      this.hash, this.bitsPerKey := hash, bitsPerKey;
      keys, start, result, filterOffsets, filters, pending, added := [], [], [], [], [], [], {};
    }

    /** StartBlock, for blocks that come in order. */
    method StartBlock(offset: nat)
      requires Valid() && offset / BASE >= |filters|
      modifies this
      ensures Valid() && added == old(added) && |filters| == offset / BASE
    {
      var index := offset / BASE;
      while index > |filterOffsets|
        invariant Valid() && added == old(added) && |filters| <= index
        decreases index - |filters|
      {
        GenerateFilter();
      }
    }

    /** AddKey, for the block that was started last. */
    method AddKey(key: seq<byte>, ghost offset: nat)
      requires Valid() && offset / BASE == |filters|
      modifies this`keys, this`start, this`pending, this`added
      ensures Valid() && added == old(added) + {Added(offset, key)}
    {
      OneMorePart(pending, key);
      start := start + [|keys|];
      keys := keys + key;
      pending := pending + [key];
      added := added + {Added(offset, key)};
    }

    method GenerateFilter()
      requires Valid()
      modifies this
      ensures Valid() && added == old(added) && |filters| == |old(filters)| + 1 && pending == []
    {
      ghost var filter: seq<byte> := [];
      filterOffsets := filterOffsets + [Truncated(|result|)];
      if |start| > 0 {
        var tmpKeys := SplitKeys();
        result, filter := CreateFilter(hash, bitsPerKey, tmpKeys, result);
        keys, start := [], [];
      }
      OneMorePart(filters, filter);
      filters, pending := filters + [filter], [];
    }

    /** The keys, cut apart again. */
    method SplitKeys() returns (tmpKeys: seq<seq<byte>>)
      requires |start| == |pending| && keys == Flatten(pending)
      requires forall i :: 0 <= i < |start| ==> start[i] == PartOffset(pending, i)
      ensures tmpKeys == pending
    {
      tmpKeys := [];
      for i := 0 to |start|
        invariant |tmpKeys| == i && forall j :: 0 <= j < i ==> tmpKeys[j] == pending[j]
      {
        PartIs(pending, i);
        var end := if i + 1 < |start| then start[i + 1] else |keys|;
        assert i + 1 == |pending| ==> pending[..i + 1] == pending;
        tmpKeys := tmpKeys + [keys[start[i]..end]];
      }
    }

    /** Finish: every key that was added is covered. Offsets are written as 32 bits. */
    method Finish() returns (contents: seq<byte>)
      requires Valid()
      modifies this
      ensures added == old(added) && forall a :: a in added ==> Covered(hash, filters, a)
      ensures |contents| < 0x1_0000_0000 ==> IsFilterBlock(contents, filters)
    {
      if |start| > 0 {
        GenerateFilter();
      }
      contents := WithOffsets();
      result := contents;
    }

    /** The offsets after the filters. */
    method WithOffsets() returns (contents: seq<byte>)
      requires Valid()
      ensures |contents| < 0x1_0000_0000 ==> IsFilterBlock(contents, filters)
    {
      ghost var last := Truncated(|result|);
      WordsOneMore(result, filterOffsets, last);
      contents := PutWords(result, filterOffsets);
      contents := contents + EncodeFixed32(Truncated(|result|));
      contents := contents + [BASE_LG];
      if |contents| < 0x1_0000_0000 {
        OffsetsFit(filters, filterOffsets + [last]);
        assert HoldsFilters(contents, filters, filterOffsets + [last]);
      }
    }
  }

  /** Nothing was cut off. */
  lemma OffsetsFit(filters: seq<seq<byte>>, words: seq<Word>)
    requires |words| == |filters| + 1 && |Flatten(filters)| < 0x1_0000_0000
    requires forall m :: 0 <= m < |filters| ==> words[m] == Truncated(PartOffset(filters, m))
    requires words[|filters|] == Truncated(|Flatten(filters)|)
    ensures forall i :: 0 <= i <= |filters| ==> words[i] == PartOffset(filters, i)
  {
    forall i | 0 <= i <= |filters| ensures words[i] == PartOffset(filters, i) {
      if i < |filters| {
        PartIs(filters, i);
      } else {
        assert filters[..i] == filters;
      }
    }
  }

  lemma OneMorePart(parts: seq<seq<byte>>, part: seq<byte>)
    ensures Flatten(parts + [part]) == Flatten(parts) + part
    ensures forall i :: 0 <= i <= |parts| ==> PartOffset(parts + [part], i) == PartOffset(parts, i)
    ensures PartOffset(parts, |parts|) == |Flatten(parts)|
  {
    assert (parts + [part])[..|parts|] == parts;
    assert parts[..|parts|] == parts;
    forall i | 0 <= i <= |parts| ensures (parts + [part])[..i] == parts[..i] {
    }
  }

  // ----- the reader -----

  /** FilterBlockReader::KeyMayMatch. What cannot be read may match. */
  method KeyMayMatch(hash: Hash, contents: seq<byte>, blockOffset: nat, key: seq<byte>, ghost filters: seq<seq<byte>>)
    returns (may: bool)
    ensures IsFilterBlock(contents, filters) && Covered(hash, filters, Added(blockOffset, key)) ==> may
  {
    var n := |contents|;
    if n < 5 {
      return true;
    }
    var baseLg := contents[n - 1];
    var lastWord := DecodeFixed32(contents[n - 5..]);
    if lastWord > n - 5 {
      return true;
    }
    var num := (n - 5 - lastWord) / 4;
    var index := Shift(blockOffset, baseLg as nat);
    ghost var good := IsFilterBlock(contents, filters) && Covered(hash, filters, Added(blockOffset, key));
    if good {
      var _, _, _ := FilterThere(contents, filters, blockOffset / BASE);
      ShiftByBase(blockOffset);
    }
    if index < num {
      var from := DecodeFixed32(contents[lastWord + index * 4..]);
      var limit := DecodeFixed32(contents[lastWord + index * 4 + 4..]);
      if from <= limit && limit <= lastWord {
        may := Bloom.KeyMayMatch(hash, key, contents[from..limit]);
        return;
      } else if from == limit {
        return false;
      }
    }
    return true;
  }

  lemma FilterBytes(contents: seq<byte>, filters: seq<seq<byte>>, offsets: seq<Word>, i: nat)
    requires HoldsFilters(contents, filters, offsets) && i < |filters|
    ensures PartOffset(filters, i) <= PartOffset(filters, i + 1) <= |Flatten(filters)| <= |contents|
    ensures contents[PartOffset(filters, i)..PartOffset(filters, i + 1)] == filters[i]
  {
    PartIs(filters, i);
    Middle(Flatten(filters), EncodeWords(offsets), [BASE_LG], PartOffset(filters, i), PartOffset(filters, i + 1));
  }

  lemma Middle(a: seq<byte>, b: seq<byte>, c: seq<byte>, i: nat, j: nat)
    requires i <= j <= |a|
    ensures (a + b + c)[i..j] == a[i..j]
  {
  }

  lemma OffsetThere(contents: seq<byte>, c: seq<byte>, offsets: seq<Word>, i: nat)
    requires contents == c + EncodeWords(offsets) + [BASE_LG] && i < |offsets|
    ensures |contents| == |c| + 4 * |offsets| + 1 && contents[|contents| - 1] == BASE_LG
    ensures DecodeFixed32(contents[|c| + i * 4..]) == offsets[i]
  {
    WordWithin(c, offsets, [BASE_LG], i);
  }

  /** What the reader finds in a finished filter block. */
  lemma FilterThere(contents: seq<byte>, filters: seq<seq<byte>>, i: nat) returns (size: nat, from: nat, limit: nat)
    requires IsFilterBlock(contents, filters) && i < |filters|
    ensures var n := |contents|;
      && n == size + 4 * |filters| + 5 && contents[n - 1] == BASE_LG
      && DecodeFixed32(contents[n - 5..]) == size
      && DecodeFixed32(contents[size + i * 4..]) == from
      && DecodeFixed32(contents[size + i * 4 + 4..]) == limit
      && from <= limit <= size && contents[from..limit] == filters[i]
  {
    var offsets: seq<Word> :| HoldsFilters(contents, filters, offsets);
    size, from, limit := HeldOffsets(contents, filters, offsets, i);
    OffsetsThere(contents, Flatten(filters), offsets, i);
  }

  lemma HeldOffsets(contents: seq<byte>, filters: seq<seq<byte>>, offsets: seq<Word>, i: nat)
    returns (size: nat, from: nat, limit: nat)
    requires HoldsFilters(contents, filters, offsets) && i < |filters|
    ensures |offsets| == |filters| + 1 && contents == Flatten(filters) + EncodeWords(offsets) + [BASE_LG]
    ensures size == |Flatten(filters)| && offsets[|filters|] == size && offsets[i] == from && offsets[i + 1] == limit
    ensures from <= limit <= size <= |contents| && contents[from..limit] == filters[i]
  {
    size, from, limit := |Flatten(filters)|, PartOffset(filters, i), PartOffset(filters, i + 1);
    FilterBytes(contents, filters, offsets, i);
    assert filters[..|filters|] == filters;
  }

  lemma OffsetsThere(contents: seq<byte>, c: seq<byte>, offsets: seq<Word>, i: nat)
    requires contents == c + EncodeWords(offsets) + [BASE_LG] && i + 1 < |offsets|
    ensures var n := |contents|;
      && n == |c| + 4 * |offsets| + 1 && contents[n - 1] == BASE_LG
      && DecodeFixed32(contents[n - 5..]) == offsets[|offsets| - 1]
      && DecodeFixed32(contents[|c| + i * 4..]) == offsets[i]
      && DecodeFixed32(contents[|c| + i * 4 + 4..]) == offsets[i + 1]
  {
    OffsetThere(contents, c, offsets, i);
    OffsetThere(contents, c, offsets, i + 1);
    OffsetThere(contents, c, offsets, |offsets| - 1);
  }
}
