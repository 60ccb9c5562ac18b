/**
 BlockBuilder (table/block_builder.cc): writes a block entry by entry.
 */
module BlockBuilders {
  import opened Coding
  import opened BlockFormat

  /** The buffer holds these items, and they hold these entries. */
  ghost predicate Held(buffer: seq<byte>, lastKey: seq<byte>, items: seq<Item>, starts: seq<nat>, restarts: seq<Word>,
                       entries: seq<Entry>)
  {
    && buffer == ItemsBytes(items) && Encodes(items, entries)
    && IsRestarts(items, starts) && AreOffsets(items, starts, restarts)
    && lastKey == PreviousKey(entries, |entries|)
  }

  lemma OneMoreHeld(buffer: seq<byte>, last: seq<byte>, items: seq<Item>, starts: seq<nat>, restarts: seq<Word>,
                    entries: seq<Entry>, item: Item, entry: Entry)
    requires Encodes(items, entries) && EncodesOne(item, last, entry) && last == PreviousKey(entries, |entries|)
    requires buffer == ItemsBytes(items + [item])
    requires IsRestarts(items + [item], starts) && AreOffsets(items + [item], starts, restarts)
    ensures Held(buffer, entry.key, items + [item], starts, restarts, entries + [entry])
  {
    OneMoreItem(items, entries, item, entry);
  }

  /** `shared` bytes is all that the two keys have in common at the front. */
  ghost predicate LongestPrefix(last: seq<byte>, key: seq<byte>, shared: nat) {
    && shared <= |last| && shared <= |key| && last[..shared] == key[..shared]
    && (shared < |last| && shared < |key| ==> last[shared] != key[shared])
  }

  /** The item that Add appends, and the restart points then: every `interval` items a restart point
      with the whole key, and otherwise as much of the key before as possible is shared. */
  ghost predicate Appended(full: bool, last: seq<byte>, before: seq<Item>, key: seq<byte>, value: seq<byte>, shared: nat,
                           after: seq<Item>)
  {
    && shared <= |key| && after == before + [Item(shared, key[shared..], value)]
    && if full then shared == 0 else LongestPrefix(last, key, shared)
  }

  class BlockBuilder {
    const interval: nat
    var buffer: seq<byte>
    var restarts: seq<Word>
    var counter: nat
    var lastKey: seq<byte>
    ghost var items: seq<Item>
    ghost var starts: seq<nat>
    ghost var entries: seq<Entry>

    ghost predicate Valid()
      reads this
    {
      && interval >= 1 && Held(buffer, lastKey, items, starts, restarts, entries)
      && counter == |items| - starts[|starts| - 1] && counter <= interval
    }

    /** options->block_restart_interval is at least 1. */
    constructor (interval: nat)
      requires interval >= 1
      ensures Valid() && entries == [] && this.interval == interval
    {
      this.interval := interval;
      buffer, restarts, counter, lastKey := [], [0], 0, [];
      items, starts, entries := [], [0], [];
    }

    /** Add, for a key and a value whose sizes, and an offset that, fit in 32 bits. */
    method Add(key: seq<byte>, value: seq<byte>) returns (ghost shared: nat)
      requires Valid() && |key| + |value| < 0x1_0000_0000 && |buffer| < 0x1_0000_0000
      modifies this
      ensures Valid() && entries == old(entries) + [Entry(key, value)]
      ensures Appended(old(counter) == interval, old(lastKey), old(items), key, value, shared, items)
      ensures starts == if old(counter) == interval then old(starts) + [|old(items)|] else old(starts)
    {
      ghost var last := lastKey;
      var common := ChooseShared(key, value);
      shared := common;
      Append(common, key, value);
      lastKey := lastKey[..common] + key[common..];
      counter := counter + 1;
      OneMoreHeld(buffer, last, items, starts, restarts, entries, Item(shared, key[shared..], value), Entry(key, value));
      items, entries := items + [Item(shared, key[shared..], value)], entries + [Entry(key, value)];
    }

    /** The first part of Add: what to share with the key before, or a new restart point. */
    method ChooseShared(key: seq<byte>, ghost value: seq<byte>) returns (shared: nat)
      requires interval >= 1 && buffer == ItemsBytes(items) && |buffer| < 0x1_0000_0000
      requires IsRestarts(items, starts) && AreOffsets(items, starts, restarts)
      requires counter == |items| - starts[|starts| - 1] && (items == [] ==> lastKey == [])
      requires counter <= interval
      modifies this`restarts, this`counter, this`starts
      ensures shared <= |lastKey| && shared <= |key| && lastKey[..shared] + key[shared..] == key
      ensures var longer := items + [Item(shared, key[shared..], value)];
        IsRestarts(longer, starts) && AreOffsets(longer, starts, restarts)
      ensures counter == |items| - starts[|starts| - 1] && counter < interval
      ensures starts == if old(counter) == interval then old(starts) + [|items|] else old(starts)
      ensures if old(counter) == interval then shared == 0 else LongestPrefix(lastKey, key, shared)
    {
      if counter < interval {
        shared := CommonPrefix(lastKey, key);
        StartsStay(items, starts, Item(shared, key[shared..], value));
        OffsetsStay(items, starts, restarts, Item(shared, key[shared..], value));
      } else {
        shared := 0;
        assert lastKey[..0] + key[0..] == key;
        NewRestart(Item(0, key[0..], value));
      }
    }

    method NewRestart(ghost item: Item)
      requires buffer == ItemsBytes(items) && |buffer| < 0x1_0000_0000 && items != [] && item.shared == 0
      requires IsRestarts(items, starts) && AreOffsets(items, starts, restarts)
      modifies this`restarts, this`counter, this`starts
      ensures IsRestarts(items + [item], starts) && AreOffsets(items + [item], starts, restarts)
      ensures counter == 0 && starts == old(starts) + [|items|]
    {
      StartsGrow(items, starts, item);
      OffsetsOneMore(items, starts, restarts, item, |buffer|);
      restarts, starts := restarts + [|buffer|], starts + [|items|];
      counter := 0;
    }

    /** How much of the key is the same as in the one before. */
    method CommonPrefix(last: seq<byte>, key: seq<byte>) returns (shared: nat)
      ensures LongestPrefix(last, key, shared)
      ensures last[..shared] + key[shared..] == key
    {
      var minLength := if |last| < |key| then |last| else |key|;
      shared := 0;
      while shared < minLength && last[shared] == key[shared]
        invariant shared <= minLength && last[..shared] == key[..shared]
      {
        shared := shared + 1;
      }
    }

    /** The bytes of one item at the end of the buffer. */
    method Append(shared: nat, key: seq<byte>, value: seq<byte>)
      requires buffer == ItemsBytes(items) && shared <= |key|
      modifies this`buffer
      ensures buffer == ItemsBytes(items + [Item(shared, key[shared..], value)])
    {
      ghost var before := buffer;
      ItemsAppend(items, Item(shared, key[shared..], value));
      buffer := buffer + Varint(shared);
      buffer := buffer + Varint(|key| - shared);
      buffer := buffer + Varint(|value|);
      buffer := buffer + key[shared..];
      buffer := buffer + value;
      FiveAppends(before, Varint(shared), Varint(|key| - shared), Varint(|value|), key[shared..], value);
    }

    method Finish() returns (block: seq<byte>)
      requires Valid() && |buffer| + 4 * |restarts| + 4 < 0x1_0000_0000
      modifies this`buffer
      ensures IsBlock(block, items, starts, restarts, entries)
      ensures buffer == block
    {
      WordsLength(restarts);
      buffer := PutWords(buffer, restarts);
      buffer := buffer + EncodeFixed32(|restarts|);
      block := buffer;
    }
  }

  lemma FiveAppends(s: seq<byte>, a: seq<byte>, b: seq<byte>, c: seq<byte>, d: seq<byte>, e: seq<byte>)
    ensures s + a + b + c + d + e == s + ((a + b + c) + (d + e))
  {
  }

  lemma OneMoreItem(items: seq<Item>, entries: seq<Entry>, item: Item, entry: Entry)
    requires Encodes(items, entries) && EncodesOne(item, PreviousKey(entries, |entries|), entry)
    ensures Encodes(items + [item], entries + [entry])
  {
    var z, es := items + [item], entries + [entry];
    forall i | 0 <= i < |z| ensures EncodesOne(z[i], PreviousKey(es, i), es[i]) {
      assert PreviousKey(es, i) == PreviousKey(entries, i);
    }
  }

  /** The restart points stay where they are. */
  lemma OffsetsStay(items: seq<Item>, starts: seq<nat>, restarts: seq<Word>, item: Item)
    requires AreOffsets(items, starts, restarts)
    ensures AreOffsets(items + [item], starts, restarts)
  {
    forall k | 0 <= k < |starts| ensures restarts[k] == Offset(items + [item], starts[k]) {
      OffsetPrefix(items, [item], starts[k]);
    }
  }

  lemma OffsetsOneMore(items: seq<Item>, starts: seq<nat>, restarts: seq<Word>, item: Item, offset: Word)
    requires AreOffsets(items, starts, restarts) && offset == |ItemsBytes(items)|
    ensures AreOffsets(items + [item], starts + [|items|], restarts + [offset])
  {
    OffsetsStay(items, starts, restarts, item);
    OffsetOfAll(items);
    OffsetPrefix(items, [item], |items|);
  }

  /** No new restart point. */
  lemma StartsStay(items: seq<Item>, starts: seq<nat>, item: Item)
    requires IsRestarts(items, starts) && (items == [] ==> item.shared == 0)
    ensures IsRestarts(items + [item], starts)
  {
    var z := items + [item];
    forall k | 0 <= k < |starts| && starts[k] < |z| ensures z[starts[k]].shared == 0 {
      assert k > 0 ==> starts[0] < starts[k];
    }
  }

  /** The new item is at a new restart point. */
  lemma StartsGrow(items: seq<Item>, starts: seq<nat>, item: Item)
    requires IsRestarts(items, starts) && items != [] && item.shared == 0
    ensures IsRestarts(items + [item], starts + [|items|])
  {
    assert forall k :: 0 < k < |starts| ==> starts[0] < starts[k];
  }
}
