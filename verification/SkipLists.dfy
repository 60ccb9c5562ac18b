/**
 The skip list of the memtable (db/skiplist.h): one writer links a new node level by level, one pointer
 store at a time, while readers search without a lock. Keys are ranks in comparator order.
 */
module SkipLists {

  const MAX_HEIGHT := 12
  const HEAD: nat := 0

  datatype Ptr = Null | At(node: nat)

  /** What readers and the writer share: the key and the links of each node, and max_height_. */
  datatype Heap = Heap(keys: seq<int>, next: seq<seq<Ptr>>, maxHeight: nat)

  /** The nodes linked at each level, in order, without the head. */
  type Lists = seq<seq<nat>>

  function Pred(list: seq<nat>, i: nat): nat
    requires i <= |list|
  {
    if i == 0 then HEAD else list[i - 1]
  }

  function Succ(list: seq<nat>, i: nat): Ptr
    requires i <= |list|
  {
    if i == |list| then Null else At(list[i])
  }

  predicate HasLink(h: Heap, node: nat, level: nat) {
    node < |h.keys| && node < |h.next| && level < |h.next[node]|
  }

  /** The links of a level run through the list, from the head to the end. */
  predicate Linked(h: Heap, level: nat, list: seq<nat>) {
    forall i :: 0 <= i <= |list| ==> HasLink(h, Pred(list, i), level) && h.next[Pred(list, i)][level] == Succ(list, i)
  }

  predicate Ascending(h: Heap, list: seq<nat>) {
    && (forall i :: 0 <= i < |list| ==> HEAD < list[i] < |h.keys|)
    && (forall i, j :: 0 <= i < j < |list| ==> h.keys[list[i]] < h.keys[list[j]])
  }

  predicate Within(upper: seq<nat>, lower: seq<nat>) {
    forall n :: n in upper ==> n in lower
  }

  /** Every level is a sorted list, and a sublist of the one below. */
  ghost predicate Shape(h: Heap, lists: Lists) {
    && |lists| == MAX_HEIGHT && 1 <= h.maxHeight <= MAX_HEIGHT && |h.keys| == |h.next| > 0
    && (forall l :: 0 <= l < MAX_HEIGHT ==> Ascending(h, lists[l]) && Linked(h, l, lists[l]))
    && (forall l, m :: 0 <= l < m < MAX_HEIGHT ==> Within(lists[m], lists[l]))
    && (forall l :: h.maxHeight <= l < MAX_HEIGHT ==> lists[l] == [])
  }

  ghost predicate Grows(h: Heap, lists: Lists, h': Heap, lists': Lists) {
    && h.keys <= h'.keys
    && |lists| == |lists'| == MAX_HEIGHT
    && forall l, n :: 0 <= l < MAX_HEIGHT && n in lists[l] ==> n in lists'[l]
  }

  /** A run of the writer, as the readers may see it. */
  ghost predicate Run(heaps: seq<Heap>, lists: seq<Lists>) {
    && |heaps| == |lists| > 0
    && (forall t :: 0 <= t < |heaps| ==> Shape(heaps[t], lists[t]))
    && (forall t, u :: 0 <= t <= u < |heaps| ==> Grows(heaps[t], lists[t], heaps[u], lists[u]))
  }

  lemma RunOfOne(h: Heap, lists: Lists)
    requires Shape(h, lists)
    ensures Run([h], [lists])
  {
  }

  lemma RunExtended(heaps: seq<Heap>, lists: seq<Lists>, h: Heap, ls: Lists)
    requires Run(heaps, lists) && Shape(h, ls) && Grows(heaps[|heaps| - 1], lists[|heaps| - 1], h, ls)
    ensures Run(heaps + [h], lists + [ls])
  {
    var hs, lss, n := heaps + [h], lists + [ls], |heaps|;
    forall t, u | 0 <= t <= u < |hs| ensures Grows(hs[t], lss[t], hs[u], lss[u]) {
      if u == n && t < n {
        assert Grows(heaps[t], lists[t], heaps[n - 1], lists[n - 1]);
      }
    }
  }

  // ----- searches -----

  ghost predicate Before(h: Heap, node: nat, key: int) {
    node == HEAD || (node < |h.keys| && h.keys[node] < key)
  }

  /** The node is the head, or stands at this level. */
  ghost predicate OnLevel(lists: Lists, level: nat, node: nat) {
    node == HEAD || (level < |lists| && node in lists[level])
  }

  /** The first node at or after the key, if there is one. */
  ghost predicate IsFirstFrom(h: Heap, list: seq<nat>, key: int, p: Ptr) {
    match p
    case Null => forall n :: n in list && n < |h.keys| ==> h.keys[n] < key
    case At(m) =>
      && m in list && m < |h.keys| && h.keys[m] >= key
      && forall n :: n in list && n < |h.keys| && h.keys[n] >= key ==> h.keys[m] <= h.keys[n]
  }

  /** The last node before the key, or the head. */
  ghost predicate IsLastBefore(h: Heap, list: seq<nat>, key: int, m: nat) {
    && (m == HEAD || m in list) && Before(h, m, key)
    && forall n :: n in list && n < |h.keys| && h.keys[n] < key ==> m != HEAD && m < |h.keys| && h.keys[n] <= h.keys[m]
  }

  /** One load of a reader that stands before the key: it moves on before the key, or is at the right place. */
  lemma Load(h: Heap, lists: Lists, level: nat, x: nat, key: int)
    requires Shape(h, lists) && level < MAX_HEIGHT && OnLevel(lists, level, x) && Before(h, x, key)
    ensures HasLink(h, x, level)
    ensures var next := h.next[x][level];
      && (next.At? ==> next.node in lists[level] && next.node < |h.keys| && (x == HEAD || h.keys[x] < h.keys[next.node]))
      && (next.Null? || h.keys[next.node] >= key ==>
            IsFirstFrom(h, lists[level], key, next) && IsLastBefore(h, lists[level], key, x))
  {
    var list := lists[level];
    assert Ascending(h, list) && Linked(h, level, list);
    var i: nat := 0;
    if x != HEAD {
      var j :| 0 <= j < |list| && list[j] == x;
      i := j + 1;
    }
    assert Pred(list, i) == x;
    forall n | n in list ensures n < |h.keys| && (h.keys[n] < key || (i < |list| && h.keys[list[i]] <= h.keys[n])) {
      var k :| 0 <= k < |list| && list[k] == n;
      assert k < i - 1 ==> h.keys[n] < h.keys[x];
    }
  }

  /** Later, and lower down, the reader still stands well. */
  lemma StillStands(heaps: seq<Heap>, lists: seq<Lists>, t: nat, u: nat, level: nat, x: nat, key: int)
    requires Run(heaps, lists) && t <= u < |heaps| && level < MAX_HEIGHT
    requires OnLevel(lists[t], level, x) && Before(heaps[t], x, key)
    ensures OnLevel(lists[u], level, x) && Before(heaps[u], x, key)
    ensures x < |heaps[t].keys| ==> x < |heaps[u].keys| && heaps[u].keys[x] == heaps[t].keys[x]
    ensures level > 0 ==> OnLevel(lists[u], level - 1, x)
  {
    assert Grows(heaps[t], lists[t], heaps[u], lists[u]) && Shape(heaps[u], lists[u]);
  }

  /** FindGreaterOrEqual, with every load at some moment of the run, no earlier than the one before.
      Returned is the answer, the predecessors, and the moments of the loads that decided them. */
  method FindGreaterOrEqual(heaps: seq<Heap>, ghost lists: seq<Lists>, key: int, start: nat)
    returns (node: Ptr, prev: seq<nat>, ghost moments: seq<nat>)
    requires Run(heaps, lists) && start < |heaps|
    ensures |prev| == MAX_HEIGHT == |moments|
    ensures start <= moments[0] < |heaps| && IsFirstFrom(heaps[moments[0]], lists[moments[0]][0], key, node)
    ensures forall l :: 0 <= l < heaps[start].maxHeight ==>
      start <= moments[l] < |heaps| && IsLastBefore(heaps[moments[l]], lists[moments[l]][l], key, prev[l])
  {
    var x: nat, now: nat := HEAD, start;
    assert Shape(heaps[start], lists[start]);
    var level: nat := heaps[start].maxHeight - 1;
    prev := seq(MAX_HEIGHT, _ => HEAD);
    moments := seq(MAX_HEIGHT, _ => start);
    while true
      invariant start <= now < |heaps| && 0 <= level < heaps[start].maxHeight <= MAX_HEIGHT
      invariant OnLevel(lists[now], level, x) && Before(heaps[now], x, key)
      invariant |prev| == MAX_HEIGHT == |moments|
      invariant forall l :: level < l < heaps[start].maxHeight ==>
        start <= moments[l] < |heaps| && IsLastBefore(heaps[moments[l]], lists[moments[l]][l], key, prev[l])
      decreases level, if x == HEAD then 1 else 0, if x == HEAD || x >= |heaps[now].keys| then 0 else key - heaps[now].keys[x]
    {
      var later: nat :| now <= later < |heaps|;
      StillStands(heaps, lists, now, later, level, x, key);
      now := later;
      Load(heaps[now], lists[now], level, x, key);
      var next := heaps[now].next[x][level];
      if next.At? && heaps[now].keys[next.node] < key {
        x := next.node;
      } else {
        prev, moments := prev[level := x], moments[level := now];
        if level == 0 {
          return next, prev, moments;
        }
        StillStands(heaps, lists, now, now, level, x, key);
        level := level - 1;
      }
    }
  }

  /** FindLessThan, in the same setting. */
  method FindLessThan(heaps: seq<Heap>, ghost lists: seq<Lists>, key: int, start: nat) returns (node: nat, ghost moment: nat)
    requires Run(heaps, lists) && start < |heaps|
    ensures start <= moment < |heaps| && IsLastBefore(heaps[moment], lists[moment][0], key, node)
  {
    var x: nat, now: nat := HEAD, start;
    assert Shape(heaps[start], lists[start]);
    var level: nat := heaps[start].maxHeight - 1;
    while true
      invariant start <= now < |heaps| && level < MAX_HEIGHT
      invariant OnLevel(lists[now], level, x) && Before(heaps[now], x, key)
      decreases level, if x == HEAD then 1 else 0, if x == HEAD || x >= |heaps[now].keys| then 0 else key - heaps[now].keys[x]
    {
      var later: nat :| now <= later < |heaps|;
      StillStands(heaps, lists, now, later, level, x, key);
      now := later;
      Load(heaps[now], lists[now], level, x, key);
      var next := heaps[now].next[x][level];
      if next.Null? || heaps[now].keys[next.node] >= key {
        if level == 0 {
          return x, now;
        }
        StillStands(heaps, lists, now, now, level, x, key);
        level := level - 1;
      } else {
        x := next.node;
      }
    }
  }

  /** What was there when the search began is not missed. */
  lemma NothingMissed(heaps: seq<Heap>, lists: seq<Lists>, start: nat, moment: nat, key: int, node: Ptr, present: nat)
    requires Run(heaps, lists) && start <= moment < |heaps|
    requires IsFirstFrom(heaps[moment], lists[moment][0], key, node)
    requires present in lists[start][0] && present < |heaps[start].keys| && heaps[start].keys[present] >= key
    ensures node.At? && node.node < |heaps[moment].keys| && heaps[moment].keys[node.node] <= heaps[start].keys[present]
  {
    assert Grows(heaps[start], lists[start], heaps[moment], lists[moment]);
    assert Shape(heaps[start], lists[start]);
    assert present in lists[moment][0];
  }

  // ----- the writer -----

  function SetLink(h: Heap, node: nat, level: nat, p: Ptr): Heap
    requires HasLink(h, node, level)
  {
    h.(next := h.next[node := h.next[node][level := p]])
  }

  /** The links of a node that is not yet at a level may be written there. */
  lemma UnlinkedStore(h: Heap, lists: Lists, node: nat, level: nat, p: Ptr)
    requires Shape(h, lists) && level < MAX_HEIGHT && HasLink(h, node, level) && node != HEAD && node !in lists[level]
    ensures Shape(SetLink(h, node, level, p), lists)
  {
    var h' := SetLink(h, node, level, p);
    forall l | 0 <= l < MAX_HEIGHT ensures Ascending(h', lists[l]) && Linked(h', l, lists[l]) {
      assert Ascending(h, lists[l]) && Linked(h, l, lists[l]);
    }
  }

  function InsertAt(list: seq<nat>, i: nat, node: nat): (r: seq<nat>)
    requires i <= |list|
    ensures forall n :: n in r <==> n in list || n == node
  {
    assert list == list[..i] + list[i..];
    list[..i] + [node] + list[i..]
  }

  /** Where the new node belongs in a level. */
  lemma PositionAfter(h: Heap, list: seq<nat>, key: int, p: nat) returns (i: nat)
    requires Ascending(h, list) && IsLastBefore(h, list, key, p)
    requires forall n :: n in list ==> h.keys[n] != key
    ensures i <= |list| && Pred(list, i) == p
    ensures forall k :: 0 <= k < i ==> h.keys[list[k]] < key
    ensures forall k :: i <= k < |list| ==> h.keys[list[k]] > key
  {
    i := 0;
    if p != HEAD {
      var j :| 0 <= j < |list| && list[j] == p;
      i := j + 1;
    }
    forall k | i <= k < |list| ensures h.keys[list[k]] > key {
      assert list[k] in list;
      assert i > 0 ==> h.keys[list[i - 1]] < h.keys[list[k]];
    }
  }

  lemma LevelWithNode(h: Heap, level: nat, list: seq<nat>, node: nat, p: nat, i: nat)
    requires Ascending(h, list) && Linked(h, level, list) && i <= |list| && Pred(list, i) == p
    requires HEAD < node < |h.keys| && HasLink(h, node, level) && node !in list && h.next[node][level] == h.next[p][level]
    requires forall k :: 0 <= k < i ==> h.keys[list[k]] < h.keys[node]
    requires forall k :: i <= k < |list| ==> h.keys[list[k]] > h.keys[node]
    ensures HasLink(h, p, level)
    ensures var h', list' := SetLink(h, p, level, At(node)), InsertAt(list, i, node);
      Ascending(h', list') && Linked(h', level, list')
  {
    var h', list' := SetLink(h, p, level, At(node)), InsertAt(list, i, node);
    LinksAround(list, i, node);
    forall k | 0 <= k <= |list'|
      ensures HasLink(h', Pred(list', k), level) && h'.next[Pred(list', k)][level] == Succ(list', k)
    {
      if k < i {
        assert Pred(list, k) != p && h.next[Pred(list, k)][level] == Succ(list, k);
      } else if k > i + 1 {
        assert Pred(list, k - 1) != p && h.next[Pred(list, k - 1)][level] == Succ(list, k - 1);
      }
    }
    SortedAround(h', list, i, node);
  }

  /** The neighbours in a list with one more member. */
  lemma LinksAround(list: seq<nat>, i: nat, node: nat)
    requires i <= |list|
    ensures var list' := InsertAt(list, i, node);
      && (forall k :: 0 <= k <= i ==> Pred(list', k) == Pred(list, k)) && Pred(list', i + 1) == node
      && (forall k :: i + 1 < k <= |list'| ==> Pred(list', k) == Pred(list, k - 1) && Succ(list', k) == Succ(list, k - 1))
      && (forall k :: 0 <= k < i ==> Succ(list', k) == Succ(list, k))
      && Succ(list', i) == At(node) && Succ(list', i + 1) == Succ(list, i)
  {
  }

  lemma SortedAround(h: Heap, list: seq<nat>, i: nat, node: nat)
    requires Ascending(h, list) && i <= |list| && HEAD < node < |h.keys|
    requires forall k :: 0 <= k < i ==> h.keys[list[k]] < h.keys[node]
    requires forall k :: i <= k < |list| ==> h.keys[list[k]] > h.keys[node]
    ensures Ascending(h, InsertAt(list, i, node))
  {
  }

  /** The store that links the node at a level. */
  lemma LinkingStore(h: Heap, lists: Lists, node: nat, level: nat, p: nat) returns (ls: Lists)
    requires Shape(h, lists) && level < h.maxHeight
    requires HEAD < node < |h.keys| && HasLink(h, node, level) && node !in lists[level]
    requires forall l :: 0 <= l < level ==> node in lists[l]
    requires forall l :: level < l < MAX_HEIGHT ==> node !in lists[l]
    requires IsLastBefore(h, lists[level], h.keys[node], p)
    requires forall n :: n in lists[level] ==> n < |h.keys| && h.keys[n] != h.keys[node]
    requires HasLink(h, p, level) && h.next[node][level] == h.next[p][level]
    ensures Shape(SetLink(h, p, level, At(node)), ls) && |ls| == |lists|
    ensures forall l :: 0 <= l < MAX_HEIGHT && l != level ==> ls[l] == lists[l]
    ensures forall n :: n in ls[level] <==> n in lists[level] || n == node
  {
    var list := lists[level];
    assert Ascending(h, list) && Linked(h, level, list);
    var i := PositionAfter(h, list, h.keys[node], p);
    LevelWithNode(h, level, list, node, p, i);
    ls := lists[level := InsertAt(list, i, node)];
    var h' := SetLink(h, p, level, At(node));
    forall l | 0 <= l < MAX_HEIGHT ensures Ascending(h', ls[l]) && Linked(h', l, ls[l]) {
      assert Ascending(h, lists[l]) && Linked(h, l, lists[l]);
      if l != level {
        OtherLevel(h, l, lists[l], p, level, At(node));
      }
    }
    StillWithin(lists, ls, level, node);
  }

  /** A store at one level does not touch the others. */
  lemma OtherLevel(h: Heap, l: nat, list: seq<nat>, p: nat, level: nat, to: Ptr)
    requires Ascending(h, list) && Linked(h, l, list) && HasLink(h, p, level) && l != level
    ensures Ascending(SetLink(h, p, level, to), list) && Linked(SetLink(h, p, level, to), l, list)
  {
  }

  lemma StillWithin(lists: Lists, ls: Lists, level: nat, node: nat)
    requires |lists| == |ls| == MAX_HEIGHT && level < MAX_HEIGHT
    requires forall l, m :: 0 <= l < m < MAX_HEIGHT ==> Within(lists[m], lists[l])
    requires forall l :: 0 <= l < level ==> node in lists[l]
    requires forall l :: 0 <= l < MAX_HEIGHT && l != level ==> ls[l] == lists[l]
    requires forall n :: n in ls[level] <==> n in lists[level] || n == node
    ensures forall l, m :: 0 <= l < m < MAX_HEIGHT ==> Within(ls[m], ls[l])
  {
    forall l, m | 0 <= l < m < MAX_HEIGHT ensures Within(ls[m], ls[l]) {
      assert Within(lists[m], lists[l]);
    }
  }

  class SkipList {
    var heap: Heap
    ghost var lists: Lists
    /** Every state since the list was made, for the readers. */
    ghost var heaps: seq<Heap>
    ghost var listings: seq<Lists>

    ghost predicate Valid()
      reads this
    {
      Run(heaps, listings) && heaps[|heaps| - 1] == heap && listings[|heaps| - 1] == lists
    }

    constructor ()
      ensures Valid() && lists == seq(MAX_HEIGHT, _ => [])
    {
      heap := Heap([0], [seq(MAX_HEIGHT, _ => Null)], 1);
      lists := seq(MAX_HEIGHT, _ => []);
      new;
      heaps, listings := [heap], [lists];
    }

    /** Any store: the readers may look at the list before and after it. */
    method Store(h: Heap, ghost ls: Lists)
      requires Valid() && Shape(h, ls) && Grows(heap, lists, h, ls)
      modifies this
      ensures Valid() && heap == h && lists == ls
      ensures heaps == old(heaps) + [h] && listings == old(listings) + [ls]
    {
      RunExtended(heaps, listings, h, ls);
      heap, lists := h, ls;
      heaps, listings := heaps + [h], listings + [ls];
    }

    /** Insert: after each of its stores the list is in shape, and the last of them all leaves exactly
        the nodes of before and the new one. `height` stands for RandomHeight(). */
    method Insert(key: int, height: nat)
      requires Valid() && 1 <= height <= MAX_HEIGHT
      requires forall n :: n in lists[0] && n < |heap.keys| ==> heap.keys[n] != key
      modifies this
      ensures Valid() && old(heaps) <= heaps && old(listings) <= listings
      ensures heap.keys == old(heap.keys) + [key]
      ensures |lists| == MAX_HEIGHT && LinkedUpTo(lists, old(lists), |old(heap.keys)|, height)
    {
      assert Shape(heap, lists);
      ghost var before := lists;
      var prev := FindPrevious(key, height);
      var node := NewNode(key, height);
      NoKeyTwice(heap, lists, key, node);
      for i := 0 to height
        invariant Valid() && old(heaps) <= heaps && old(listings) <= listings
        invariant heap.keys == old(heap.keys) + [key] && height <= heap.maxHeight && |heap.keys| == |heap.next|
        invariant |heap.next[node]| == height && |lists| == MAX_HEIGHT
        invariant LinkedUpTo(lists, before, node, i)
      {
        LinkLevel(node, key, prev[i], i, before);
      }
    }

    /** The predecessors at the levels of the new node, which raises max_height_ if it is the highest. */
    method FindPrevious(key: int, height: nat) returns (prev: seq<nat>)
      requires Valid() && 1 <= height <= MAX_HEIGHT
      modifies this
      ensures Valid() && old(heaps) <= heaps && old(listings) <= listings
      ensures lists == old(lists) && heap.keys == old(heap.keys) && height <= heap.maxHeight
      ensures |prev| == MAX_HEIGHT
      ensures forall l :: 0 <= l < height ==> IsLastBefore(heap, lists[l], key, prev[l])
    {
      assert Shape(heap, lists);
      RunOfOne(heap, lists);
      var x, found: seq<nat>, _ := FindGreaterOrEqual([heap], [lists], key, 0);
      prev := found;
      if height > heap.maxHeight {
        var i := heap.maxHeight;
        while i < height
          invariant heap.maxHeight <= i <= height && |prev| == MAX_HEIGHT
          invariant forall l :: 0 <= l < heap.maxHeight ==> prev[l] == found[l]
          invariant forall l :: heap.maxHeight <= l < i ==> prev[l] == HEAD
        {
          prev := prev[i := HEAD];
          i := i + 1;
        }
        HeadIsLast(heap, lists, key);
        HigherShape(heap, lists, height);
        Store(heap.(maxHeight := height), lists);
      }
    }

    /** The new node, which nobody can reach yet. */
    method NewNode(key: int, height: nat) returns (node: nat)
      requires Valid() && height <= MAX_HEIGHT
      modifies this
      ensures Valid() && lists == old(lists) && heaps == old(heaps) + [heap] && listings == old(listings) + [lists]
      ensures node == |old(heap.keys)| && heap.keys == old(heap.keys) + [key] && heap.maxHeight == old(heap.maxHeight)
      ensures |heap.next[node]| == height
    {
      node := |heap.keys|;
      var h := Heap(heap.keys + [key], heap.next + [seq(height, _ => Null)], heap.maxHeight);
      NewNodeShape(heap, lists, h);
      Store(h, lists);
    }

    /** One turn of the loop of Insert: two stores, of which only the second one shows. */
    method LinkLevel(node: nat, key: int, prev: nat, level: nat, ghost before: Lists)
      requires Valid() && level < heap.maxHeight && |before| == MAX_HEIGHT
      requires HEAD < node < |heap.keys| && heap.keys[node] == key && HasLink(heap, node, level)
      requires IsLastBefore(heap, before[level], key, prev)
      requires |lists| == MAX_HEIGHT && LinkedUpTo(lists, before, node, level)
      requires forall l, n :: 0 <= l < MAX_HEIGHT && n in before[l] ==> n < node && heap.keys[n] != key
      modifies this
      ensures Valid() && old(heaps) <= heaps && old(listings) <= listings
      ensures heap.keys == old(heap.keys) && heap.maxHeight == old(heap.maxHeight) && |heap.next| == |old(heap.next)|
      ensures |heap.next[node]| == |old(heap.next)[node]| && |lists| == MAX_HEIGHT
      ensures LinkedUpTo(lists, before, node, level + 1)
    {
      assert Shape(heap, lists);
      LastIsLinked(heap, lists, level, key, prev);
      var after := heap.next[prev][level];
      UnlinkedStore(heap, lists, node, level, after);
      Store(SetLink(heap, node, level, after), lists);
      ghost var ls := LinkingStore(heap, lists, node, level, prev);
      Store(SetLink(heap, prev, level, At(node)), ls);
    }
  }

  /** The levels below `count` have the nodes they had and the new one, the others what they had. */
  ghost predicate LinkedUpTo(lists: Lists, before: Lists, node: nat, count: nat)
    requires |lists| == |before| == MAX_HEIGHT
  {
    && (forall l, n :: 0 <= l < count && l < MAX_HEIGHT ==> (n in lists[l] <==> n in before[l] || n == node))
    && (forall l :: count <= l < MAX_HEIGHT ==> lists[l] == before[l])
  }

  lemma HeadIsLast(h: Heap, lists: Lists, key: int)
    requires Shape(h, lists)
    ensures forall l :: h.maxHeight <= l < MAX_HEIGHT ==> IsLastBefore(h, lists[l], key, HEAD)
  {
  }

  lemma HigherShape(h: Heap, lists: Lists, height: nat)
    requires Shape(h, lists) && h.maxHeight <= height <= MAX_HEIGHT
    ensures Shape(h.(maxHeight := height), lists)
  {
    var h' := h.(maxHeight := height);
    forall l | 0 <= l < MAX_HEIGHT ensures Ascending(h', lists[l]) && Linked(h', l, lists[l]) {
      assert Ascending(h, lists[l]) && Linked(h, l, lists[l]);
    }
  }

  lemma LastIsLinked(h: Heap, lists: Lists, level: nat, key: int, p: nat)
    requires Shape(h, lists) && level < MAX_HEIGHT && IsLastBefore(h, lists[level], key, p)
    ensures HasLink(h, p, level)
  {
    var list := lists[level];
    assert Ascending(h, list) && Linked(h, level, list);
    if p != HEAD {
      var j :| 0 <= j < |list| && list[j] == p;
      assert Pred(list, j + 1) == p;
    } else {
      assert Pred(list, 0) == p;
    }
  }

  lemma NewNodeShape(h: Heap, lists: Lists, h': Heap)
    requires Shape(h, lists) && h.keys <= h'.keys && h.next <= h'.next && |h'.keys| == |h'.next| && h'.maxHeight == h.maxHeight
    ensures Shape(h', lists)
  {
    forall l | 0 <= l < MAX_HEIGHT ensures Ascending(h', lists[l]) && Linked(h', l, lists[l]) {
      assert Ascending(h, lists[l]) && Linked(h, l, lists[l]);
    }
  }

  lemma NoKeyTwice(h: Heap, lists: Lists, key: int, node: nat)
    requires node <= |h.keys| && |lists| == MAX_HEIGHT && forall l :: 0 <= l < MAX_HEIGHT ==> Within(lists[l], lists[0])
    requires forall n :: n in lists[0] ==> n < node && h.keys[n] != key
    ensures forall l, n :: 0 <= l < MAX_HEIGHT && n in lists[l] ==> n < node && h.keys[n] != key
  {
  }
}
