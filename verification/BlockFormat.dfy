/**
 The format of a block of a table (table/format.h, table/block_builder.cc): entries whose keys drop
 the prefix they share with the key before, and the offsets of the entries with whole keys.
 */
module BlockFormat {
  import opened Coding

  /** An encoded entry: how much of the key before it shares, the rest of its key, and its value. */
  datatype Item = Item(shared: nat, delta: seq<byte>, value: seq<byte>)

  datatype Entry = Entry(key: seq<byte>, value: seq<byte>)

  predicate SmallItem(item: Item) {
    item.shared < 0x1_0000_0000 && |item.delta| + |item.value| < 0x1_0000_0000
  }

  function ItemHeader(item: Item): seq<byte> {
    Varint(item.shared) + Varint(|item.delta|) + Varint(|item.value|)
  }

  function ItemBytes(item: Item): seq<byte> {
    ItemHeader(item) + (item.delta + item.value)
  }

  function ItemsBytes(items: seq<Item>): seq<byte> {
    if items == [] then [] else ItemBytes(items[0]) + ItemsBytes(items[1..])
  }

  /** Where the i-th item starts. */
  function Offset(items: seq<Item>, i: nat): nat
    requires i <= |items|
  {
    if i == 0 then 0 else Offset(items, i - 1) + |ItemBytes(items[i - 1])|
  }

  function PreviousKey(entries: seq<Entry>, i: nat): seq<byte>
    requires i <= |entries|
  {
    if i == 0 then [] else entries[i - 1].key
  }

  predicate EncodesOne(item: Item, before: seq<byte>, entry: Entry) {
    && SmallItem(item) && item.shared <= |before|
    && entry.key == before[..item.shared] + item.delta && entry.value == item.value
  }

  /** The items hold the entries, each key put together with the one before. */
  ghost predicate Encodes(items: seq<Item>, entries: seq<Entry>) {
    && |items| == |entries|
    && forall i {:trigger items[i]} :: 0 <= i < |items| ==> EncodesOne(items[i], PreviousKey(entries, i), entries[i])
  }

  /** The items with whole keys. The first restart point is there even in an empty block. */
  ghost predicate IsRestarts(items: seq<Item>, starts: seq<nat>) {
    && starts != [] && starts[0] == 0
    && (forall j, k :: 0 <= j < k < |starts| ==> starts[j] < starts[k] < |items|)
    && (forall k :: 0 <= k < |starts| && starts[k] < |items| ==> items[starts[k]].shared == 0)
  }

  ghost predicate AreOffsets(items: seq<Item>, starts: seq<nat>, restarts: seq<Word>) {
    |restarts| == |starts| && forall k :: 0 <= k < |starts| ==> starts[k] <= |items| && restarts[k] == Offset(items, starts[k])
  }

  // ----- where things are -----

  lemma {:induction false} OffsetOfTail(items: seq<Item>, i: nat)
    requires 0 < i <= |items|
    ensures Offset(items, i) == |ItemBytes(items[0])| + Offset(items[1..], i - 1)
  {
    if i > 1 {
      OffsetOfTail(items, i - 1);
      assert items[1..][i - 2] == items[i - 1];
    }
  }

  lemma {:induction false} OffsetOfAll(items: seq<Item>)
    ensures Offset(items, |items|) == |ItemsBytes(items)|
  {
    if items != [] {
      OffsetOfTail(items, |items|);
      OffsetOfAll(items[1..]);
    }
  }

  lemma {:induction false} OffsetsGrow(items: seq<Item>, i: nat, j: nat)
    requires i <= j <= |items|
    ensures Offset(items, i) + 3 * (j - i) <= Offset(items, j)
  {
    if i < j {
      OffsetsGrow(items, i, j - 1);
    }
  }

  /** From the offset of an item on, the bytes are those of the items from there on. */
  lemma {:induction false} BytesFrom(items: seq<Item>, i: nat)
    requires i <= |items|
    ensures Offset(items, i) <= |ItemsBytes(items)| && ItemsBytes(items)[Offset(items, i)..] == ItemsBytes(items[i..])
  {
    if i == 0 {
      assert items[0..] == items;
    } else {
      OffsetOfTail(items, i);
      BytesFrom(items[1..], i - 1);
      assert items[1..][i - 1..] == items[i..];
      DropFirst(ItemBytes(items[0]), ItemsBytes(items[1..]), Offset(items[1..], i - 1));
    }
  }

  lemma DropFirst(a: seq<byte>, b: seq<byte>, n: nat)
    requires n <= |b|
    ensures (a + b)[|a| + n..] == b[n..]
  {
  }

  lemma {:induction false} ItemsAppend(items: seq<Item>, item: Item)
    ensures ItemsBytes(items + [item]) == ItemsBytes(items) + ItemBytes(item)
  {
    var z := items + [item];
    if items == [] {
      assert z[1..] == [];
    } else {
      assert z[0] == items[0];
      assert z[1..] == items[1..] + [item];
      ItemsAppend(items[1..], item);
    }
  }

  lemma {:induction false} OffsetPrefix(items: seq<Item>, more: seq<Item>, i: nat)
    requires i <= |items|
    ensures Offset(items + more, i) == Offset(items, i)
  {
    if i > 0 {
      OffsetPrefix(items, more, i - 1);
    }
  }

  // ----- blocks -----

  ghost predicate IsBlock(data: seq<byte>, items: seq<Item>, starts: seq<nat>, restarts: seq<Word>, entries: seq<Entry>) {
    && Encodes(items, entries) && IsRestarts(items, starts) && AreOffsets(items, starts, restarts)
    && |restarts| < 0x1_0000_0000 && |data| < 0x1_0000_0000
    && data == ItemsBytes(items) + EncodeWords(restarts) + EncodeFixed32(|restarts|)
  }
}
