/**
 Reading a block (Block and Block::Iter in table/block.cc): a cursor over the entries that the block
 builder was given, with a search that first goes by the restart points.
 */
module BlockIters {
  import opened Common
  import opened Coding
  import opened BlockFormat

  // ----- decoding -----

  /** DecodeEntry: how much is shared, the lengths of delta and value, and what follows them. */
  function DecodeEntry(s: seq<byte>): Option<(Word, Word, Word, seq<byte>)> {
    if |s| < 3 then None
    else if s[0] < 128 && s[1] < 128 && s[2] < 128 then
      Checked(s[0] as Word, s[1] as Word, s[2] as Word, s[3..])
    else
      match GetVarint32(s)
      case None => None
      case Some((shared, s1)) =>
        match GetVarint32(s1)
        case None => None
        case Some((nonShared, s2)) =>
          match GetVarint32(s2)
          case None => None
          case Some((valueLength, s3)) => Checked(shared, nonShared, valueLength, s3)
  }

  function Checked(shared: Word, nonShared: Word, valueLength: Word, rest: seq<byte>): Option<(Word, Word, Word, seq<byte>)> {
    if |rest| < nonShared + valueLength then None else Some((shared, nonShared, valueLength, rest))
  }

  /** Both ways to decode give the same. */
  lemma ShortVarint(v: nat, tail: seq<byte>)
    requires (Varint(v) + tail)[0] < 128
    ensures v < 128 && Varint(v) == [v as byte]
  {
  }

  lemma DecodesItem(item: Item, tail: seq<byte>)
    requires SmallItem(item)
    ensures DecodeEntry(ItemBytes(item) + tail)
         == Some((item.shared, |item.delta|, |item.value|, item.delta + item.value + tail))
  {
    var a, b, c := Varint(item.shared), Varint(|item.delta|), Varint(|item.value|);
    var payload := item.delta + item.value + tail;
    var s := a + (b + (c + payload));
    assert ItemBytes(item) + tail == s;
    Varint32RoundTrip(item.shared, b + (c + payload));
    Varint32RoundTrip(|item.delta|, c + payload);
    Varint32RoundTrip(|item.value|, payload);
    if s[0] < 128 && s[1] < 128 && s[2] < 128 {
      ShortVarint(item.shared, b + (c + payload));
      assert s[1] == (b + (c + payload))[0];
      ShortVarint(|item.delta|, c + payload);
      assert s[2] == (c + payload)[0];
      ShortVarint(|item.value|, payload);
      assert s[3..] == payload;
    }
  }

  // ----- the block -----

  /** Block::Block: where the restart array starts, and how many restart points there are. */
  method Open(data: seq<byte>) returns (r: Option<(nat, nat)>)
    ensures |data| < 4 ==> r.None?
    ensures r.Some? ==> r.value.0 + 4 * r.value.1 + 4 == |data|
    ensures forall items, starts, restarts, entries :: IsBlock(data, items, starts, restarts, entries) ==>
      r == Some((|ItemsBytes(items)|, |starts|))
  {
    if |data| < 4 {
      return None;
    }
    var n := DecodeFixed32(data[|data| - 4..]);
    forall items, starts, restarts, entries | IsBlock(data, items, starts, restarts, entries)
      ensures n == |starts| && |data| == |ItemsBytes(items)| + 4 * n + 4
    {
      WordsLength(restarts);
      Fixed32RoundTrip(|restarts|);
      assert data[|data| - 4..] == EncodeFixed32(|restarts|);
    }
    if n > (|data| - 4) / 4 {
      return None;
    }
    return Some((|data| - (1 + n) * 4, n));
  }

  // ----- the cursor -----

  type Order = (seq<byte>, seq<byte>) -> bool

  ghost predicate Transitive(less: Order) {
    forall a, b, c :: less(a, b) && less(b, c) ==> less(a, c)
  }

  ghost predicate Ascending(entries: seq<Entry>, less: Order) {
    forall i, j :: 0 <= i < j < |entries| ==> less(entries[i].key, entries[j].key)
  }

  /** The first entry at or after the target, or the end. */
  ghost predicate IsFirstFrom(entries: seq<Entry>, less: Order, target: seq<byte>, i: nat) {
    && i <= |entries|
    && (forall j :: 0 <= j < i ==> less(entries[j].key, target))
    && (forall j :: i <= j < |entries| ==> !less(entries[j].key, target))
  }

  /** The i-th entry is where it should be, and can be read after the one before. */
  ghost predicate EntryAt(data: seq<byte>, limit: nat, offsets: seq<nat>, entries: seq<Entry>, i: nat)
    requires i < |entries| && |offsets| == |entries| + 1
  {
    && offsets[i] < offsets[i + 1] <= limit <= |data|
    && DecodeEntry(data[offsets[i]..limit]).Some?
    && var (shared, nonShared, valueLength, rest) := DecodeEntry(data[offsets[i]..limit]).value;
    && nonShared + valueLength <= |rest| <= limit
    && shared <= |PreviousKey(entries, i)| && PreviousKey(entries, i)[..shared] + rest[..nonShared] == entries[i].key
    && rest[nonShared..nonShared + valueLength] == entries[i].value
    && limit - |rest| + nonShared + valueLength == offsets[i + 1]
  }

  /** The word of the k-th restart point. */
  ghost predicate RestartIs(data: seq<byte>, limit: nat, count: nat, k: nat, offset: nat) {
    k < count && offset <= limit && limit + 4 * count + 4 == |data| && DecodeFixed32(data[limit + 4 * k..]) == offset
  }

  /** An entry with a whole key. */
  ghost predicate WholeKeyAt(data: seq<byte>, limit: nat, offset: nat) {
    && offset <= limit <= |data|
    && DecodeEntry(data[offset..limit]).Some? && DecodeEntry(data[offset..limit]).value.0 == 0
  }

  /** The k-th restart point is at an entry with a whole key, unless the block is empty. */
  ghost predicate RestartsAt(data: seq<byte>, limit: nat, offsets: seq<nat>, starts: seq<nat>, k: nat)
    requires k < |starts|
  {
    && starts[k] < |offsets| && RestartIs(data, limit, |starts|, k, offsets[starts[k]])
    && (starts[k] + 1 < |offsets| ==> WholeKeyAt(data, limit, offsets[starts[k]]))
  }

  /** What the cursor needs to know of a block: where its entries and its restart points are. */
  ghost predicate Readable(data: seq<byte>, limit: nat, offsets: seq<nat>, starts: seq<nat>, entries: seq<Entry>) {
    && |offsets| == |entries| + 1 && offsets[0] == 0 && offsets[|entries|] == limit
    && (forall i, j :: 0 <= i < j < |offsets| ==> offsets[i] < offsets[j])
    && starts != [] && starts[0] == 0
    && (forall j, k :: 0 <= j < k < |starts| ==> starts[j] < starts[k] < |entries|)
    && (forall i :: 0 <= i < |entries| ==> EntryAt(data, limit, offsets, entries, i))
    && (forall k :: 0 <= k < |starts| ==> RestartsAt(data, limit, offsets, starts, k))
  }

  lemma DecodesAt(items: seq<Item>, i: nat)
    requires i < |items| && SmallItem(items[i])
    ensures Offset(items, i) < Offset(items, i + 1) <= |ItemsBytes(items)|
    ensures DecodeEntry(ItemsBytes(items)[Offset(items, i)..])
         == Some((items[i].shared, |items[i].delta|, |items[i].value|, items[i].delta + items[i].value + ItemsBytes(items[i + 1..])))
    ensures Offset(items, i + 1) == |ItemsBytes(items)| - |ItemsBytes(items[i + 1..])|
  {
    BytesFrom(items, i);
    BytesFrom(items, i + 1);
    OffsetsGrow(items, i, i + 1);
    assert items[i..][0] == items[i] && items[i..][1..] == items[i + 1..];
    DecodesItem(items[i], ItemsBytes(items[i + 1..]));
  }

  lemma ItemWithin(items: seq<Item>, tail: seq<byte>, i: nat)
    requires i < |items| && SmallItem(items[i])
    ensures var data, limit := ItemsBytes(items) + tail, |ItemsBytes(items)|;
      && Offset(items, i) < Offset(items, i + 1) <= limit
      && DecodeEntry(data[Offset(items, i)..limit])
         == Some((items[i].shared, |items[i].delta|, |items[i].value|, items[i].delta + items[i].value + ItemsBytes(items[i + 1..])))
      && Offset(items, i + 1) == limit - |ItemsBytes(items[i + 1..])|
  {
    DecodesAt(items, i);
    StartOf(ItemsBytes(items), tail, Offset(items, i));
  }

  lemma StartOf(a: seq<byte>, b: seq<byte>, p: nat)
    requires p <= |a|
    ensures (a + b)[p..|a|] == a[p..]
  {
  }

  /** Every block that was built can be read. */
  lemma BlockIsReadable(data: seq<byte>, items: seq<Item>, starts: seq<nat>, restarts: seq<Word>, entries: seq<Entry>)
    returns (offsets: seq<nat>)
    requires IsBlock(data, items, starts, restarts, entries)
    ensures Readable(data, |ItemsBytes(items)|, offsets, starts, entries)
  {
    offsets := OffsetsOf(items);
    var tail := EncodeWords(restarts) + EncodeFixed32(|restarts|);
    Associate(ItemsBytes(items), EncodeWords(restarts), EncodeFixed32(|restarts|));
    EntriesAreThere(items, tail, entries, offsets);
    RestartsAreThere(items, starts, restarts, offsets);
    WholeKeysAreThere(items, tail, starts, entries, offsets);
    forall k | 0 <= k < |starts| ensures RestartsAt(data, |ItemsBytes(items)|, offsets, starts, k) {
      assert RestartIs(data, |ItemsBytes(items)|, |starts|, k, offsets[starts[k]]);
      assert starts[k] < |items| ==> WholeKeyAt(data, |ItemsBytes(items)|, offsets[starts[k]]);
    }
  }

  lemma Associate(a: seq<byte>, b: seq<byte>, c: seq<byte>)
    ensures a + b + c == a + (b + c)
  {
  }

  lemma OffsetsOf(items: seq<Item>) returns (offsets: seq<nat>)
    ensures |offsets| == |items| + 1 && offsets[0] == 0 && offsets[|items|] == |ItemsBytes(items)|
    ensures forall i :: 0 <= i <= |items| ==> offsets[i] == Offset(items, i)
    ensures forall i, j :: 0 <= i < j < |offsets| ==> offsets[i] < offsets[j]
  {
    offsets := seq(|items| + 1, i requires 0 <= i <= |items| => Offset(items, i));
    OffsetOfAll(items);
    forall i, j | 0 <= i < j < |offsets| ensures offsets[i] < offsets[j] {
      OffsetsGrow(items, i, j);
    }
  }

  lemma EntriesAreThere(items: seq<Item>, tail: seq<byte>, entries: seq<Entry>, offsets: seq<nat>)
    requires Encodes(items, entries)
    requires |offsets| == |items| + 1 && forall i :: 0 <= i <= |items| ==> offsets[i] == Offset(items, i)
    ensures forall i :: 0 <= i < |entries| ==> EntryAt(ItemsBytes(items) + tail, |ItemsBytes(items)|, offsets, entries, i)
  {
    forall i | 0 <= i < |entries| ensures EntryAt(ItemsBytes(items) + tail, |ItemsBytes(items)|, offsets, entries, i) {
      assert EncodesOne(items[i], PreviousKey(entries, i), entries[i]);
      EntryIsThere(items, tail, offsets, entries, i);
    }
  }

  lemma EntryIsThere(items: seq<Item>, tail: seq<byte>, offsets: seq<nat>, entries: seq<Entry>, i: nat)
    requires i < |items| == |entries| && |offsets| == |items| + 1
    requires offsets[i] == Offset(items, i) && offsets[i + 1] == Offset(items, i + 1)
    requires EncodesOne(items[i], PreviousKey(entries, i), entries[i])
    ensures EntryAt(ItemsBytes(items) + tail, |ItemsBytes(items)|, offsets, entries, i)
  {
    var item := items[i];
    ItemWithin(items, tail, i);
    var rest := item.delta + item.value + ItemsBytes(items[i + 1..]);
    assert rest[..|item.delta|] == item.delta && rest[|item.delta|..|item.delta| + |item.value|] == item.value;
  }

  lemma RestartsAreThere(items: seq<Item>, starts: seq<nat>, restarts: seq<Word>, offsets: seq<nat>)
    requires AreOffsets(items, starts, restarts) && |restarts| < 0x1_0000_0000
    requires |offsets| == |items| + 1 && forall i :: 0 <= i <= |items| ==> offsets[i] == Offset(items, i)
    requires forall i :: 0 <= i <= |items| ==> offsets[i] <= |ItemsBytes(items)|
    ensures forall k :: 0 <= k < |starts| ==> starts[k] <= |items|
    ensures forall k :: 0 <= k < |starts| ==>
      RestartIs(ItemsBytes(items) + EncodeWords(restarts) + EncodeFixed32(|restarts|), |ItemsBytes(items)|, |starts|, k,
                offsets[starts[k]])
  {
    var a, c := ItemsBytes(items), EncodeFixed32(|restarts|);
    forall k | 0 <= k < |starts|
      ensures starts[k] <= |items| && RestartIs(a + EncodeWords(restarts) + c, |a|, |starts|, k, offsets[starts[k]])
    {
      assert restarts[k] == offsets[starts[k]];
      WordIsThere(a, restarts, c, k);
    }
  }

  lemma WordIsThere(a: seq<byte>, restarts: seq<Word>, c: seq<byte>, k: nat)
    requires k < |restarts| && |c| == 4 && restarts[k] <= |a|
    ensures RestartIs(a + EncodeWords(restarts) + c, |a|, |restarts|, k, restarts[k])
  {
    WordWithin(a, restarts, c, k);
  }

  lemma WholeKeysAreThere(items: seq<Item>, tail: seq<byte>, starts: seq<nat>, entries: seq<Entry>, offsets: seq<nat>)
    requires Encodes(items, entries) && IsRestarts(items, starts)
    requires |offsets| == |items| + 1 && forall i :: 0 <= i <= |items| ==> offsets[i] == Offset(items, i)
    ensures forall k :: 0 <= k < |starts| && starts[k] < |items| ==>
      WholeKeyAt(ItemsBytes(items) + tail, |ItemsBytes(items)|, offsets[starts[k]])
  {
    forall k | 0 <= k < |starts| && starts[k] < |items|
      ensures WholeKeyAt(ItemsBytes(items) + tail, |ItemsBytes(items)|, offsets[starts[k]])
    {
      var i := starts[k];
      assert EncodesOne(items[i], PreviousKey(entries, i), entries[i]);
      WholeKeyIsThere(items, tail, i);
    }
  }

  lemma WholeKeyIsThere(items: seq<Item>, tail: seq<byte>, i: nat)
    requires i < |items| && SmallItem(items[i]) && items[i].shared == 0
    ensures WholeKeyAt(ItemsBytes(items) + tail, |ItemsBytes(items)|, Offset(items, i))
  {
    ItemWithin(items, tail, i);
  }

  // ----- the cursor -----

  class Iter {
    const less: Order
    const data: seq<byte>
    /** restarts_ and num_restarts_ */
    const limit: nat
    const numRestarts: nat
    var current: nat
    var restartIndex: nat
    var key: seq<byte>
    /** The value is a slice of the block. */
    var valueStart: nat
    var valueLength: nat
    ghost const offsets: seq<nat>
    ghost const starts: seq<nat>
    ghost const entries: seq<Entry>

    ghost predicate Good() {
      Readable(data, limit, offsets, starts, entries) && numRestarts == |starts|
    }

    /** The restart index is that of the last restart point before the entry, or at it. */
    ghost predicate InRegion(index: nat, i: nat) {
      index < |starts| && starts[index] <= i && (index + 1 < |starts| ==> i <= starts[index + 1])
    }

    /** The cursor stands on the i-th entry, or past the end. */
    ghost predicate At(i: nat)
      reads this
    {
      Good() && i <= |entries| && if i < |entries| then
        && current == offsets[i] && key == entries[i].key
        && valueStart + valueLength == offsets[i + 1] <= |data|
        && data[valueStart..valueStart + valueLength] == entries[i].value
        && InRegion(restartIndex, i)
      else
        current == limit && restartIndex == numRestarts
    }

    /** ParseNextKey will find the i-th entry, if there is one. */
    ghost predicate Ready(i: nat)
      reads this
    {
      && Good() && i <= |entries|
      && valueStart + valueLength == offsets[i]
      && (key == PreviousKey(entries, i) || exists k :: 0 <= k < |starts| && starts[k] == i)
      && restartIndex < |starts| && starts[restartIndex] <= i
    }

    constructor (less: Order, data: seq<byte>, limit: nat, numRestarts: nat,
                 ghost offsets: seq<nat>, ghost starts: seq<nat>, ghost entries: seq<Entry>)
      requires Readable(data, limit, offsets, starts, entries) && numRestarts == |starts|
      ensures At(|entries|) && this.entries == entries && this.less == less
    {
      this.less, this.data, this.limit, this.numRestarts := less, data, limit, numRestarts;
      this.offsets, this.starts, this.entries := offsets, starts, entries;
      current, restartIndex, key, valueStart, valueLength := limit, numRestarts, [], 0, 0;
    }

    /** Valid(), and what key() and value() give then. */
    method Current(ghost i: nat) returns (entry: Option<Entry>)
      requires At(i)
      ensures entry == if i < |entries| then Some(entries[i]) else None
    {
      if current < limit {
        entry := Some(Entry(key, data[valueStart..valueStart + valueLength]));
      } else {
        entry := None;
      }
    }

    method GetRestartPoint(index: nat) returns (offset: nat)
      requires Good() && index < numRestarts
      ensures starts[index] <= |entries| && offset == offsets[starts[index]]
    {
      assert RestartsAt(data, limit, offsets, starts, index);
      offset := DecodeFixed32(data[limit + 4 * index..]);
    }

    method SeekToRestartPoint(index: nat)
      requires Good() && index < numRestarts
      modifies this
      ensures starts[index] <= |entries| && Ready(starts[index]) && restartIndex == index
    {
      key := [];
      restartIndex := index;
      var offset := GetRestartPoint(index);
      valueStart, valueLength := offset, 0;
    }

    /** Decodes the entry at an offset, whose key goes on from the key before, or is whole. */
    method Decode(p: nat, before: seq<byte>, ghost i: nat) returns (key': seq<byte>, start: nat, length: nat)
      requires Good() && i < |entries| && p == offsets[i]
      requires before == PreviousKey(entries, i) || exists k :: 0 <= k < |starts| && starts[k] == i
      ensures key' == entries[i].key && start + length == offsets[i + 1] <= |data|
      ensures data[start..start + length] == entries[i].value
    {
      assert EntryAt(data, limit, offsets, entries, i);
      if before != PreviousKey(entries, i) {
        ghost var k :| 0 <= k < |starts| && starts[k] == i;
        assert RestartsAt(data, limit, offsets, starts, k);
      }
      var entry := DecodeEntry(data[p..limit]);
      var (shared, nonShared, valueLength, rest) := entry.value;
      key' := before[..shared] + rest[..nonShared];
      start, length := limit - |rest| + nonShared, valueLength;
      RestIsThere(data, p, limit, rest, nonShared, valueLength);
      assert shared == 0 ==> before[..0] == PreviousKey(entries, i)[..0];
    }

    /** Moves to the i-th entry, which follows the value, or past the end. */
    method ParseNextKey(ghost i: nat) returns (ok: bool)
      requires Ready(i)
      modifies this
      ensures At(i) && ok == (i < |entries|)
    {
      current := valueStart + valueLength;
      if current >= limit {
        current, restartIndex := limit, numRestarts;
        return false;
      }
      key, valueStart, valueLength := Decode(current, key, i);
      while restartIndex + 1 < numRestarts
        invariant restartIndex < |starts| && starts[restartIndex] <= i
        modifies this`restartIndex
        decreases numRestarts - restartIndex
      {
        var next := GetRestartPoint(restartIndex + 1);
        if next >= current {
          break;
        }
        restartIndex := restartIndex + 1;
      }
      return true;
    }

    method Next(ghost i: nat)
      requires At(i) && i < |entries|
      modifies this
      ensures At(i + 1)
    {
      var _ := ParseNextKey(i + 1);
    }

    /** Goes back to the last restart point before the entry, and forward from there. */
    method Prev(ghost i: nat)
      requires At(i) && i < |entries|
      modifies this
      ensures At(if i > 0 then i - 1 else |entries|)
    {
      var original := current;
      var point := GetRestartPoint(restartIndex);
      while point >= original
        invariant restartIndex < |starts| && starts[restartIndex] <= i && point == offsets[starts[restartIndex]]
        modifies this`restartIndex, this`current
        decreases restartIndex
      {
        if restartIndex == 0 {
          current, restartIndex := limit, numRestarts;
          return;
        }
        restartIndex := restartIndex - 1;
        point := GetRestartPoint(restartIndex);
      }
      SeekToRestartPoint(restartIndex);
      ghost var j: nat := starts[restartIndex];
      var more := ParseNextKey(j);
      while more && valueStart + valueLength < original
        invariant j < i && At(j) && more
        decreases i - j
      {
        j := j + 1;
        more := ParseNextKey(j);
      }
    }

    method SeekToFirst()
      requires Good()
      modifies this
      ensures At(0)
    {
      SeekToRestartPoint(0);
      var _ := ParseNextKey(0);
    }

    method SeekToLast()
      requires Good()
      modifies this
      ensures At(if |entries| > 0 then |entries| - 1 else 0)
    {
      SeekToRestartPoint(numRestarts - 1);
      ghost var j: nat := starts[numRestarts - 1];
      var more := ParseNextKey(j);
      while more && valueStart + valueLength < limit
        invariant j <= |entries| && At(j) && more == (j < |entries|) && (|entries| > 0 ==> more)
        decreases |entries| - j
      {
        j := j + 1;
        more := ParseNextKey(j);
      }
    }

    /** The whole key at a restart point. */
    method KeyAtRestart(index: nat) returns (k: seq<byte>)
      requires Good() && index < numRestarts && starts[index] < |entries|
      ensures k == entries[starts[index]].key
    {
      var offset := GetRestartPoint(index);
      var midKey, _, _ := Decode(offset, [], starts[index]);
      k := midKey;
    }

    /** The binary search of Seek: every key before the restart point `left` is smaller than the target, and
        every key from the restart point after it on is not. */
    method FindRegion(target: seq<byte>) returns (left: nat)
      requires Good() && Transitive(less) && Ascending(entries, less)
      ensures left < numRestarts
      ensures forall j :: 0 <= j < starts[left] && j < |entries| ==> less(entries[j].key, target)
      ensures left + 1 < numRestarts ==> !less(entries[starts[left + 1]].key, target)
    {
      left := 0;
      var right := numRestarts - 1;
      while left < right
        invariant 0 <= left <= right < numRestarts
        invariant left > 0 ==> less(entries[starts[left]].key, target)
        invariant right + 1 < numRestarts ==> !less(entries[starts[right + 1]].key, target)
        decreases right - left
      {
        var mid := (left + right + 1) / 2;
        var midKey := KeyAtRestart(mid);
        if less(midKey, target) {
          left := mid;
        } else {
          right := mid - 1;
        }
      }
    }

    /** Seek: the first entry at or after the target. */
    method Seek(target: seq<byte>) returns (ghost i: nat)
      requires Good() && Transitive(less) && Ascending(entries, less)
      modifies this
      ensures IsFirstFrom(entries, less, target, i) && At(i)
    {
      var left := FindRegion(target);
      SeekToRestartPoint(left);
      i := starts[left];
      while true
        invariant i <= |entries| && Ready(i)
        invariant forall j :: 0 <= j < i ==> less(entries[j].key, target)
        decreases |entries| - i
      {
        var more := ParseNextKey(i);
        if !more || !less(key, target) {
          return;
        }
        i := i + 1;
      }
    }
  }

  lemma RestIsThere(data: seq<byte>, p: nat, limit: nat, rest: seq<byte>, from: nat, length: nat)
    requires p <= limit <= |data| && DecodeEntry(data[p..limit]).Some? && DecodeEntry(data[p..limit]).value.3 == rest
    requires from + length <= |rest|
    ensures |rest| <= limit
    ensures data[limit - |rest| + from..limit - |rest| + from + length] == rest[from..from + length]
  {
    RestIsTail(data[p..limit]);
  }

  /** What follows the lengths is the tail of the input. */
  lemma {:induction false} RestIsTail(s: seq<byte>)
    requires DecodeEntry(s).Some?
    ensures var rest := DecodeEntry(s).value.3; |rest| <= |s| && rest == s[|s| - |rest|..]
  {
    if !(s[0] < 128 && s[1] < 128 && s[2] < 128) {
      var s1 := GetVarint32(s).value.1;
      var s2 := GetVarint32(s1).value.1;
      var s3 := GetVarint32(s2).value.1;
      RestOfVarint32(s);
      RestOfVarint32(s1);
      RestOfVarint32(s2);
      TailsOfTails(s, s1, s2, s3);
    }
  }

  lemma RestOfVarint32(s: seq<byte>)
    requires GetVarint32(s).Some?
    ensures var rest := GetVarint32(s).value.1; |rest| <= |s| && rest == s[|s| - |rest|..]
  {
    RestOfVarint(s, 5);
  }

  lemma TailsOfTails(s: seq<byte>, s1: seq<byte>, s2: seq<byte>, s3: seq<byte>)
    requires |s3| <= |s2| <= |s1| <= |s|
    requires s1 == s[|s| - |s1|..] && s2 == s1[|s1| - |s2|..] && s3 == s2[|s2| - |s3|..]
    ensures s3 == s[|s| - |s3|..]
  {
    assert s2 == s[|s| - |s2|..];
  }
}
