/**
 The two input lists of a compaction (VersionSet::PickCompaction, CompactRange and
 SetupOtherInputs in db/version_set.cc), and what they promise to the compaction itself.
 */
module Selection {
  import opened Common
  import opened InternalKeys
  import opened Versions
  import opened Inputs

  function TotalFileSize(files: seq<File>): nat {
    if files == [] then 0 else files[0].size + TotalFileSize(files[1..])
  }

  /** [smallest, largest] is the least range of internal keys around the files. */
  ghost predicate IsRange(files: seq<File>, smallest: IKey, largest: IKey) {
    && (exists f :: f in files && f.smallest == smallest)
    && (forall f :: f in files ==> !Less(f.smallest, smallest))
    && IsLargestKey(files, largest)
  }

  /** GetRange */
  method GetRange(files: seq<File>) returns (smallest: IKey, largest: IKey)
    requires files != []
    ensures IsRange(files, smallest, largest)
  {
    smallest, largest := files[0].smallest, files[0].largest;
    for i := 1 to |files|
      invariant exists f :: f in files && f.smallest == smallest
      invariant forall k :: 0 <= k < i ==> !Less(files[k].smallest, smallest)
      invariant exists f :: f in files && f.largest == largest
      invariant forall k :: 0 <= k < i ==> !Less(largest, files[k].largest)
    {
      if Less(files[i].smallest, smallest) {
        smallest := files[i].smallest;
      }
      if Less(largest, files[i].largest) {
        largest := files[i].largest;
      }
    }
  }

  // ----- the files a compaction starts from -----

  /** Files of one level that a compaction may start from: at level 0 everything overlapping a
      range that no file sticks out of, deeper down a run of neighbouring files. */
  ghost predicate Chosen(files: Level, levelZero: bool, chosen: seq<File>) {
    && chosen != []
    && if levelZero then
         exists b, e :: ClosedRange(files, b, e) && chosen == Overlapping(files, b, e)
       else
         exists p, q :: 0 <= p < q <= |files| && chosen == files[p..q]
  }

  lemma OverlappingInputsAreChosen(files: Level, levelZero: bool, begin: Option<UserKey>, end: Option<UserKey>,
                                   inputs: seq<File>)
    requires OverlappingInputs(files, levelZero, begin, end, inputs) && inputs != []
    requires !levelZero ==> UserSorted(files)
    ensures Chosen(files, levelZero, inputs)
  {
    if !levelZero {
      var p, q := OverlappingIsSlice(files, begin, end);
    }
  }

  ghost predicate Past(f: File, pointer: Option<IKey>) {
    pointer.None? || Less(pointer.value, f.largest)
  }

  /** The first file past the compaction pointer; the first file of all when none is. */
  ghost predicate AfterPointer(files: Level, pointer: Option<IKey>, i: nat) {
    && i < |files|
    && (forall k :: 0 <= k < i ==> !Past(files[k], pointer))
    && (!Past(files[i], pointer) ==> i == 0 && forall f :: f in files ==> !Past(f, pointer))
  }

  /** What becomes of one file picked at a level: at level 0 it brings along what it overlaps. */
  ghost predicate PickedWith(files: Level, levelZero: bool, f: File, chosen: seq<File>) {
    && f in chosen
    && if levelZero then
         OverlappingInputs(files, true, Some(f.smallest.user), Some(f.largest.user), chosen)
       else
         chosen == [f]
  }

  /** PickCompaction, once it has settled on a level: the first file after the compaction
      pointer, or the first file of the level when the pointer is past them all. */
  method PickAfterPointer(files: Level, levelZero: bool, pointer: Option<IKey>) returns (chosen: seq<File>)
    requires files != [] && ValidFiles(files)
    requires !levelZero ==> Disjoint(files)
    ensures Chosen(files, levelZero, chosen)
    ensures exists i: nat :: AfterPointer(files, pointer, i) && PickedWith(files, levelZero, files[i], chosen)
  {
    var i: nat := 0;
    while i < |files| && pointer.Some? && !Less(pointer.value, files[i].largest)
      invariant i <= |files|
      invariant forall k :: 0 <= k < i ==> !Past(files[k], pointer)
    {
      i := i + 1;
    }
    if i == |files| {
      i := 0;
    }
    assert AfterPointer(files, pointer, i);
    chosen := PickFile(files, levelZero, i);
  }

  /** The end of PickCompaction: a level-0 file brings along everything it overlaps. */
  method PickFile(files: Level, levelZero: bool, i: nat) returns (chosen: seq<File>)
    requires i < |files| && ValidFiles(files)
    requires !levelZero ==> Disjoint(files)
    ensures Chosen(files, levelZero, chosen) && PickedWith(files, levelZero, files[i], chosen)
  {
    chosen := [files[i]];
    assert chosen == files[i..i + 1];
    if levelZero {
      var smallest, largest := GetRange(chosen);
      assert chosen[0] in chosen && smallest == files[i].smallest && largest == files[i].largest;
      chosen := GetOverlappingInputs(files, true, Some(smallest.user), Some(largest.user));
      PickedIsOverlapping(files, files[i], chosen);
    }
  }

  lemma PickedIsOverlapping(files: Level, f: File, chosen: seq<File>)
    requires f in files && ValidFile(f)
    requires OverlappingInputs(files, true, Some(f.smallest.user), Some(f.largest.user), chosen)
    ensures f in chosen
  {
    var b, e :| LeastClosedRange(files, Some(f.smallest.user), Some(f.largest.user), b, e)
                && chosen == Overlapping(files, b, e);
    FileBounds(f, f.entries[0]);
    OverlappingMembers(files, b, e);
  }

  lemma {:induction false} TotalOfPrefix(files: seq<File>, n: nat)
    requires n < |files|
    ensures TotalFileSize(files[..n + 1]) == TotalFileSize(files[..n]) + files[n].size
  {
    if n == 0 {
      assert files[..1] == [files[0]] && files[..0] == [] && [files[0]][1..] == [];
    } else {
      TotalOfPrefix(files[1..], n - 1);
      assert files[..n + 1][1..] == files[1..][..n] && files[..n][1..] == files[1..][..n - 1];
    }
  }

  /** Below level 0 a large choice is cut after the file that reaches the limit, and not before. */
  ghost predicate CutAtLimit(all: seq<File>, levelZero: bool, limit: nat, chosen: seq<File>) {
    && |chosen| <= |all| && chosen == all[..|chosen|]
    && (all != [] ==> chosen != [])
    && (levelZero ==> chosen == all)
    && (forall n :: 0 < n < |chosen| && !levelZero ==> TotalFileSize(all[..n]) < limit)
    && (chosen != all ==> TotalFileSize(chosen) >= limit)
  }

  /** Nothing is gathered for a range exactly when no file overlaps it, on level 0 too. */
  lemma NothingOverlaps(files: Level, levelZero: bool, begin: Option<UserKey>, end: Option<UserKey>, inputs: seq<File>)
    requires OverlappingInputs(files, levelZero, begin, end, inputs)
    ensures inputs == [] <==> forall f :: f in files ==> !Overlaps(f, begin, end)
  {
    OverlappingMembers(files, begin, end);
    if levelZero {
      var b, e :| LeastClosedRange(files, begin, end, b, e) && inputs == Overlapping(files, b, e);
      OverlappingMembers(files, b, e);
      if forall f :: f in files ==> !Overlaps(f, begin, end) {
        assert ClosedRange(files, begin, end) && Contains(begin, end, begin, end);
        if inputs != [] {
          assert inputs[0] in inputs;
        }
      } else {
        var f :| f in files && Overlaps(f, begin, end);
        assert Overlaps(f, b, e);
      }
    } else if inputs != [] {
      assert inputs[0] in inputs;
    }
  }

  /** CompactRange: below level 0 a large range is cut after the file that reaches the limit. */
  method CompactRange(files: Level, levelZero: bool, begin: Option<UserKey>, end: Option<UserKey>, limit: nat)
    returns (chosen: seq<File>)
    requires ValidFiles(files)
    requires !levelZero ==> Disjoint(files)
    ensures chosen == [] <==> forall f :: f in files ==> !Overlaps(f, begin, end)
    ensures chosen != [] ==> Chosen(files, levelZero, chosen)
    ensures exists all :: OverlappingInputs(files, levelZero, begin, end, all) && CutAtLimit(all, levelZero, limit, chosen)
  {
    var all := GetOverlappingInputs(files, levelZero, begin, end);
    NothingOverlaps(files, levelZero, begin, end, all);
    chosen := all;
    assert all[..|all|] == all;
    if chosen == [] {
      return;
    }
    if levelZero {
      OverlappingInputsAreChosen(files, levelZero, begin, end, chosen);
    } else {
      DisjointIsUserSorted(files);
      OverlappingInputsAreChosen(files, levelZero, begin, end, chosen);
      chosen := CutRange(files, all, limit);
    }
  }

  lemma PrefixIsChosen(files: Level, all: seq<File>, n: nat)
    requires Chosen(files, false, all) && 0 < n <= |all|
    ensures Chosen(files, false, all[..n])
  {
    var p, q :| 0 <= p < q <= |files| && all == files[p..q];
    assert all[..n] == files[p..p + n];
  }

  /** The loop of CompactRange over a run of neighbouring files. */
  method CutRange(files: Level, all: seq<File>, limit: nat) returns (chosen: seq<File>)
    requires all != [] && Chosen(files, false, all)
    ensures CutAtLimit(all, false, limit, chosen) && Chosen(files, false, chosen)
  {
    chosen := all;
    assert all[..|all|] == all;
    var total := 0;
    for i := 0 to |all|
      invariant total == TotalFileSize(all[..i])
      invariant forall n :: 0 < n <= i ==> TotalFileSize(all[..n]) < limit
    {
      total := total + all[i].size;
      TotalOfPrefix(all, i);
      if total >= limit {
        chosen := all[..i + 1];
        PrefixIsChosen(files, all, i + 1);
        return;
      }
    }
  }

  // ----- SetupOtherInputs -----

  /** The chosen files with their boundary files, and the next level's files they overlap. */
  ghost predicate Grown(files: Level, next: Level, chosen: seq<File>, inputs0: seq<File>, inputs1: seq<File>) {
    && WithBoundary(files, chosen, inputs0)
    && exists smallest, largest :: IsRange(inputs0, smallest, largest)
                                && inputs1 == Overlapping(next, Some(smallest.user), Some(largest.user))
  }

  /** The inputs grown again from everything in the level that overlaps the first attempt, when
      that pulls in no more files of the next level. */
  ghost predicate Regrown(files: Level, next: Level, levelZero: bool, base0: seq<File>, base1: seq<File>,
                          more: seq<File>, inputs0: seq<File>, inputs1: seq<File>) {
    && (exists smallest, largest :: IsRange(base0 + base1, smallest, largest)
          && OverlappingInputs(files, levelZero, Some(smallest.user), Some(largest.user), more))
    && Grown(files, next, more, inputs0, inputs1)
    && |inputs0| > |base0| && |inputs1| == |base1| != 0
  }

  /** What SetupOtherInputs makes of the chosen files. */
  ghost predicate SelectedInputs(files: Level, next: Level, levelZero: bool, chosen: seq<File>,
                                 inputs0: seq<File>, inputs1: seq<File>) {
    || Grown(files, next, chosen, inputs0, inputs1)
    || exists base0, base1, more :: Grown(files, next, chosen, base0, base1)
                                 && Regrown(files, next, levelZero, base0, base1, more, inputs0, inputs1)
  }

  method GrowInputs(files: Level, next: Level, chosen: seq<File>) returns (inputs0: seq<File>, inputs1: seq<File>)
    requires ValidFiles(files) && chosen != []
    ensures Grown(files, next, chosen, inputs0, inputs1) && inputs0 != []
  {
    inputs0 := AddBoundaryInputs(files, chosen);
    var smallest, largest := GetRange(inputs0);
    inputs1 := GetOverlappingInputs(next, false, Some(smallest.user), Some(largest.user));
  }

  /** All of the level that overlaps the range of the first inputs, with its boundary files. */
  ghost predicate Expanded(files: Level, levelZero: bool, base: seq<File>, more: seq<File>, wide: seq<File>) {
    && (exists smallest, largest :: IsRange(base, smallest, largest)
          && OverlappingInputs(files, levelZero, Some(smallest.user), Some(largest.user), more))
    && WithBoundary(files, more, wide)
  }

  /** Growing is worth while: more files of the level, and not too many bytes. */
  ghost predicate WorthGrowing(base0: seq<File>, base1: seq<File>, wide0: seq<File>, limit: nat) {
    |wide0| > |base0| && TotalFileSize(base1) + TotalFileSize(wide0) < limit
  }

  /** The wider inputs, or the first ones where growing is not worth while or would pull in more
      files of the next level. */
  ghost predicate Decided(files: Level, next: Level, base0: seq<File>, base1: seq<File>, more: seq<File>, wide0: seq<File>,
                          limit: nat, inputs0: seq<File>, inputs1: seq<File>) {
    if !WorthGrowing(base0, base1, wide0, limit) then inputs0 == base0 && inputs1 == base1 else
      exists wide1 :: Grown(files, next, more, wide0, wide1)
        && if |wide1| == |base1| then inputs0 == wide0 && inputs1 == wide1 else inputs0 == base0 && inputs1 == base1
  }

  ghost predicate GrownOrNot(files: Level, next: Level, levelZero: bool, base0: seq<File>, base1: seq<File>,
                             limit: nat, inputs0: seq<File>, inputs1: seq<File>) {
    exists more, wide0 :: Expanded(files, levelZero, base0 + base1, more, wide0)
                       && Decided(files, next, base0, base1, more, wide0, limit, inputs0, inputs1)
  }

  /** Exactly what SetupOtherInputs does, decision by decision. */
  ghost predicate SetUp(files: Level, next: Level, levelZero: bool, chosen: seq<File>, limit: nat,
                        inputs0: seq<File>, inputs1: seq<File>) {
    exists base0, base1 :: Grown(files, next, chosen, base0, base1)
      && if base1 == [] then inputs0 == base0 && inputs1 == base1
         else GrownOrNot(files, next, levelZero, base0, base1, limit, inputs0, inputs1)
  }

  lemma SetUpSelects(files: Level, next: Level, levelZero: bool, chosen: seq<File>, limit: nat,
                     inputs0: seq<File>, inputs1: seq<File>)
    requires SetUp(files, next, levelZero, chosen, limit, inputs0, inputs1)
    ensures SelectedInputs(files, next, levelZero, chosen, inputs0, inputs1)
  {
    var base0, base1 :| Grown(files, next, chosen, base0, base1)
      && if base1 == [] then inputs0 == base0 && inputs1 == base1
         else GrownOrNot(files, next, levelZero, base0, base1, limit, inputs0, inputs1);
    if !Grown(files, next, chosen, inputs0, inputs1) {
      var more, wide0 :| Expanded(files, levelZero, base0 + base1, more, wide0)
                         && Decided(files, next, base0, base1, more, wide0, limit, inputs0, inputs1);
      assert Regrown(files, next, levelZero, base0, base1, more, inputs0, inputs1);
    }
  }

  method SetupOtherInputs(files: Level, next: Level, levelZero: bool, chosen: seq<File>, limit: nat)
    returns (inputs0: seq<File>, inputs1: seq<File>)
    requires ValidFiles(files) && chosen != []
    ensures SetUp(files, next, levelZero, chosen, limit, inputs0, inputs1)
    ensures SelectedInputs(files, next, levelZero, chosen, inputs0, inputs1)
  {
    ghost var base0, base1;
    inputs0, inputs1 := GrowInputs(files, next, chosen);
    base0, base1 := inputs0, inputs1;
    if inputs1 != [] {
      inputs0, inputs1 := GrowAgain(files, next, levelZero, inputs0, inputs1, limit);
    }
    assert Grown(files, next, chosen, base0, base1);
    SetUpSelects(files, next, levelZero, chosen, limit, inputs0, inputs1);
  }

  /** The attempt to grow the inputs of `level`. */
  method GrowAgain(files: Level, next: Level, levelZero: bool, base0: seq<File>, base1: seq<File>, limit: nat)
    returns (inputs0: seq<File>, inputs1: seq<File>)
    requires ValidFiles(files) && base0 != []
    ensures GrownOrNot(files, next, levelZero, base0, base1, limit, inputs0, inputs1)
  {
    var allStart, allLimit := GetRange(base0 + base1);
    var more := GetOverlappingInputs(files, levelZero, Some(allStart.user), Some(allLimit.user));
    var expanded0 := AddBoundaryInputs(files, more);
    inputs0, inputs1 := Decide(files, next, base0, base1, more, expanded0, limit);
    assert Expanded(files, levelZero, base0 + base1, more, expanded0);
  }

  method Decide(files: Level, next: Level, base0: seq<File>, base1: seq<File>, ghost more: seq<File>, expanded0: seq<File>,
                limit: nat) returns (inputs0: seq<File>, inputs1: seq<File>)
    requires WithBoundary(files, more, expanded0)
    ensures Decided(files, next, base0, base1, more, expanded0, limit, inputs0, inputs1)
  {
    inputs0, inputs1 := base0, base1;
    if |expanded0| > |base0| && TotalFileSize(base1) + TotalFileSize(expanded0) < limit {
      var newStart, newLimit := GetRange(expanded0);
      var expanded1 := GetOverlappingInputs(next, false, Some(newStart.user), Some(newLimit.user));
      assert Grown(files, next, more, expanded0, expanded1);
      if |expanded1| == |base1| {
        inputs0, inputs1 := expanded0, expanded1;
      }
    }
  }

  /** A wider range gathers the same files, or more of them. */
  lemma {:induction false} WiderOverlap(files: Level, b: UserKey, e: UserKey, x: UserKey, y: UserKey, n: nat)
    requires n <= |files| && x <= b && e <= y
    ensures var narrow := OverlappingUpTo(files, Some(b), Some(e), n);
      var wide := OverlappingUpTo(files, Some(x), Some(y), n);
      |narrow| <= |wide| && (|narrow| == |wide| ==> narrow == wide)
  {
    if n != 0 {
      WiderOverlap(files, b, e, x, y, n - 1);
    }
  }

  lemma RangeWithin(small: seq<File>, large: seq<File>, s: IKey, l: IKey, s': IKey, l': IKey)
    requires IsRange(small, s, l) && IsRange(large, s', l') && forall f :: f in small ==> f in large
    ensures s'.user <= s.user && l.user <= l'.user
  {
  }

  /** Growing `level` leaves the very same files of `level + 1`. */
  lemma RegrownKeepsNext(files: Level, next: Level, levelZero: bool, chosen: seq<File>, base0: seq<File>, base1: seq<File>,
                         more: seq<File>, inputs0: seq<File>, inputs1: seq<File>)
    requires ValidFiles(files) && (forall f :: f in base0 ==> f in files)
    requires Grown(files, next, chosen, base0, base1)
    requires Regrown(files, next, levelZero, base0, base1, more, inputs0, inputs1)
    ensures inputs1 == base1 && forall f :: f in base0 ==> f in inputs0
  {
    var s, l :| IsRange(base0, s, l) && base1 == Overlapping(next, Some(s.user), Some(l.user));
    var s', l' :| IsRange(inputs0, s', l') && inputs1 == Overlapping(next, Some(s'.user), Some(l'.user));
    BaseIsGathered(files, levelZero, base0, base1, more);
    WithBoundaryHasAll(files, more, inputs0);
    RangeWithin(base0, inputs0, s, l, s', l');
    WiderOverlap(next, s.user, l.user, s'.user, l'.user, |next|);
  }

  lemma WithBoundaryHasAll(files: Level, chosen: seq<File>, r: seq<File>)
    requires WithBoundary(files, chosen, r)
    ensures forall f :: f in chosen ==> f in r
  {
  }

  lemma BaseIsGathered(files: Level, levelZero: bool, base0: seq<File>, base1: seq<File>, more: seq<File>)
    requires ValidFiles(files) && (forall f :: f in base0 ==> f in files)
    requires exists s, l :: IsRange(base0 + base1, s, l)
               && OverlappingInputs(files, levelZero, Some(s.user), Some(l.user), more)
    ensures forall f :: f in base0 ==> f in more
  {
    var s, l :| IsRange(base0 + base1, s, l)
                && OverlappingInputs(files, levelZero, Some(s.user), Some(l.user), more);
    forall f | f in base0 ensures f in more {
      assert f in base0 + base1;
      FileBounds(f, f.entries[0]);
      OverlapsIsGathered(files, levelZero, Some(s.user), Some(l.user), more, f);
    }
  }

  lemma OverlapsIsGathered(files: Level, levelZero: bool, begin: Option<UserKey>, end: Option<UserKey>,
                           inputs: seq<File>, f: File)
    requires OverlappingInputs(files, levelZero, begin, end, inputs) && f in files && Overlaps(f, begin, end)
    ensures f in inputs
  {
    OverlappingMembers(files, begin, end);
    if levelZero {
      var b, e :| LeastClosedRange(files, begin, end, b, e) && inputs == Overlapping(files, b, e);
      OverlappingMembers(files, b, e);
    }
  }

  // ----- what the selection promises -----

  /** No file left behind holds older entries for a user key that moves down. */
  ghost predicate NothingOlderLeft(files: Level, inputs: seq<File>) {
    forall f, g :: f in files && f !in inputs && g in inputs ==> NewerThan(Elements(f.entries), Elements(g.entries))
  }

  /** Every file of the next level that may hold a user key moving down is an input. */
  ghost predicate CoversNextLevel(next: Level, inputs0: seq<File>, inputs1: seq<File>) {
    forall e, h :: e in LevelEntries(inputs0) && h in next && h.smallest.user <= e.ikey.user <= h.largest.user
                   ==> h in inputs1
  }

  ghost predicate AllBefore(h: File, inputs: seq<File>) {
    forall e :: e in LevelEntries(inputs) ==> Less(h.largest, e.ikey)
  }

  ghost predicate AllAfter(h: File, inputs: seq<File>) {
    forall e :: e in LevelEntries(inputs) ==> Less(e.ikey, h.smallest)
  }

  /** A file of the next level left behind lies wholly before or wholly after the inputs. */
  ghost predicate Separated(next: Level, inputs0: seq<File>, inputs1: seq<File>) {
    forall h :: h in next && h !in inputs1 ==>
      (AllBefore(h, inputs0) && AllBefore(h, inputs1)) || (AllAfter(h, inputs0) && AllAfter(h, inputs1))
  }

  ghost predicate ValidInputs(files: Level, next: Level, inputs0: seq<File>, inputs1: seq<File>) {
    && inputs0 != []
    && (forall f :: f in inputs0 ==> f in files)
    && (forall f :: f in inputs1 ==> f in next)
    && NothingOlderLeft(files, inputs0)
    && CoversNextLevel(next, inputs0, inputs1)
    && Separated(next, inputs0, inputs1)
  }

  lemma BoundaryChainMembers(files: Level, key: IKey, added: seq<File>)
    requires BoundaryChain(files, key, added)
    ensures forall f :: f in added ==> f in files
    decreases |added|
  {
    if added != [] {
      BoundaryChainMembers(files, added[0].largest, added[1..]);
    }
  }

  lemma UsersAfterRun(files: Level, q: nat, j: nat, i: nat)
    requires UserSorted(files) && j < q <= i < |files|
    requires files[q].smallest.user != files[q - 1].largest.user
    ensures files[j].largest.user < files[i].smallest.user
  {
    assert q < i ==> files[q].largest.user <= files[i].smallest.user;
    assert j < q - 1 ==> files[j].largest.user <= files[q - 1].smallest.user;
    assert files[q - 1].largest.user <= files[q].smallest.user;
  }

  /** What a run of neighbours leaves behind is before it, or starts a later user key. */
  lemma OutsideRunIsNewer(files: Level, p: nat, q: nat, i: nat, j: nat)
    requires ValidFiles(files) && Disjoint(files) && Distinct(LevelEntries(files))
    requires p <= j < q <= |files| && i < |files| && !(p <= i < q)
    requires q < |files| ==> files[q].smallest.user != files[q - 1].largest.user
    ensures NewerThan(Elements(files[i].entries), Elements(files[j].entries))
  {
    DisjointIsUserSorted(files);
    assert files[i] in files && files[j] in files;
    forall x, y | x in files[i].entries && y in files[j].entries && x.ikey.user == y.ikey.user
      ensures x.ikey.seqno > y.ikey.seqno
    {
      FileBounds(files[i], x);
      FileBounds(files[j], y);
      assert x in LevelEntries(files) && y in LevelEntries(files);
      if i < p {
        assert Less(files[i].largest, files[j].smallest);
      } else {
        UsersAfterRun(files, q, j, i);
      }
    }
  }

  /** A run of neighbours that ends where a new user key starts leaves nothing older behind. */
  lemma RunLeavesNothingOlder(files: Level, p: nat, q: nat)
    requires ValidFiles(files) && Disjoint(files) && Distinct(LevelEntries(files))
    requires p < q <= |files|
    requires q < |files| ==> files[q].smallest.user != files[q - 1].largest.user
    ensures NothingOlderLeft(files, files[p..q])
  {
    var inputs := files[p..q];
    forall k | p <= k < q ensures files[k] in inputs {
      assert inputs[k - p] == files[k];
    }
    forall f, g | f in files && f !in inputs && g in inputs
      ensures NewerThan(Elements(f.entries), Elements(g.entries))
    {
      var i :| 0 <= i < |files| && files[i] == f;
      var j :| p <= j < q && files[j] == g;
      OutsideRunIsNewer(files, p, q, i, j);
    }
  }

  /** The largest key of a run of neighbours is that of its last file. */
  lemma LargestOfRun(files: Level, p: nat, q: nat, key: IKey)
    requires ValidFiles(files) && Disjoint(files)
    requires p < q <= |files| && IsLargestKey(files[p..q], key)
    ensures key == files[q - 1].largest
  {
    assert files[p..q][q - 1 - p] == files[q - 1];
    var f :| f in files[p..q] && f.largest == key;
    var j :| p <= j < q && files[j] == f;
    LargestIncreases(files, q - 1);
  }

  /** At level 0 a closed choice has no boundary files left to add. */
  lemma ClosedChainIsEmpty(files: Level, b: Option<UserKey>, e: Option<UserKey>, chosen: seq<File>,
                           key: IKey, added: seq<File>)
    requires ValidFiles(files) && ClosedRange(files, b, e) && chosen == Overlapping(files, b, e)
    requires IsLargestKey(chosen, key) && BoundaryChain(files, key, added)
    ensures added == []
  {
    OverlappingMembers(files, b, e);
    var g :| g in chosen && g.largest == key;
    FileBounds(g, g.entries[0]);
    assert Inside(g, b, e);
    forall f | f in files ensures !BoundaryFile(f, key) {
      FileBounds(f, f.entries[0]);
      FileBounds(f, f.entries[|f.entries| - 1]);
      assert BoundaryFile(f, key) ==> Overlaps(f, b, e);
    }
  }

  /** The files outside a closed level-0 choice share no user key with it. */
  lemma ClosedLeavesNothingOlder(files: Level, b: Option<UserKey>, e: Option<UserKey>)
    requires ValidFiles(files) && ClosedRange(files, b, e)
    ensures NothingOlderLeft(files, Overlapping(files, b, e))
  {
    var chosen := Overlapping(files, b, e);
    OverlappingMembers(files, b, e);
    forall f, g, x, y | f in files && f !in chosen && g in chosen && x in f.entries && y in g.entries
      ensures x.ikey.user != y.ikey.user
    {
      assert Inside(g, b, e);
      FileBounds(f, x);
      FileBounds(g, y);
    }
  }

  lemma ExtendedRun(files: Level, p: nat, q: nat, added: seq<File>) returns (r: nat)
    requires ValidFiles(files) && Disjoint(files)
    requires p < q <= |files| && BoundaryChain(files, files[q - 1].largest, added)
    ensures q <= r <= |files| && files[p..q] + added == files[p..r]
    ensures r < |files| ==> files[r].smallest.user != files[r - 1].largest.user
  {
    ChainExtendsSlice(files, q, added);
    r := q + |added|;
    assert files[p..q] + files[q..r] == files[p..r];
  }

  lemma RunWithChain(files: Level, p: nat, q: nat, key: IKey, added: seq<File>)
    requires ValidFiles(files) && Disjoint(files) && Distinct(LevelEntries(files))
    requires p < q <= |files| && IsLargestKey(files[p..q], key) && BoundaryChain(files, key, added)
    ensures NothingOlderLeft(files, files[p..q] + added)
  {
    LargestOfRun(files, p, q, key);
    var r := ExtendedRun(files, p, q, added);
    RunLeavesNothingOlder(files, p, r);
  }

  lemma RunWithItsChain(files: Level, p: nat, q: nat, key: IKey, added: seq<File>)
    requires ValidFiles(files) && Disjoint(files) && Distinct(LevelEntries(files))
    requires p < q <= |files| && IsLargestKey(files[p..q], key) && BoundaryChain(files, key, added)
    ensures var inputs0 := files[p..q] + added;
      inputs0 != [] && (forall f :: f in inputs0 ==> f in files) && NothingOlderLeft(files, inputs0)
  {
    BoundaryChainMembers(files, key, added);
    RunWithChain(files, p, q, key, added);
  }

  lemma GrownFromRun(files: Level, p: nat, q: nat, inputs0: seq<File>)
    requires ValidFiles(files) && Disjoint(files) && Distinct(LevelEntries(files))
    requires p < q <= |files| && WithBoundary(files, files[p..q], inputs0)
    ensures inputs0 != [] && (forall f :: f in inputs0 ==> f in files)
    ensures NothingOlderLeft(files, inputs0)
  {
    assert files[p..q][0] == files[p];
    var key, added :| IsLargestKey(files[p..q], key) && BoundaryChain(files, key, added) && inputs0 == files[p..q] + added;
    RunWithItsChain(files, p, q, key, added);
  }

  lemma GrownFromRange(files: Level, b: Option<UserKey>, e: Option<UserKey>, inputs0: seq<File>)
    requires ValidFiles(files) && ClosedRange(files, b, e)
    requires Overlapping(files, b, e) != [] && WithBoundary(files, Overlapping(files, b, e), inputs0)
    ensures inputs0 != [] && (forall f :: f in inputs0 ==> f in files)
    ensures NothingOlderLeft(files, inputs0)
  {
    var chosen := Overlapping(files, b, e);
    var key, added :| IsLargestKey(chosen, key) && BoundaryChain(files, key, added) && inputs0 == chosen + added;
    OverlappingMembers(files, b, e);
    ClosedChainIsEmpty(files, b, e, chosen, key, added);
    assert inputs0 == chosen;
    ClosedLeavesNothingOlder(files, b, e);
  }

  lemma GrownIsClosed(files: Level, levelZero: bool, chosen: seq<File>, inputs0: seq<File>)
    requires ValidFiles(files) && Distinct(LevelEntries(files))
    requires !levelZero ==> Disjoint(files)
    requires Chosen(files, levelZero, chosen) && WithBoundary(files, chosen, inputs0)
    ensures inputs0 != [] && (forall f :: f in inputs0 ==> f in files)
    ensures NothingOlderLeft(files, inputs0)
  {
    if levelZero {
      var b, e :| ClosedRange(files, b, e) && chosen == Overlapping(files, b, e);
      GrownFromRange(files, b, e, inputs0);
    } else {
      var p, q :| 0 <= p < q <= |files| && chosen == files[p..q];
      GrownFromRun(files, p, q, inputs0);
    }
  }

  /** A file outside a slice of a disjoint level is before or after everything in the slice. */
  lemma SeparatedFromSlice(files: Level, p: nat, q: nat, i: nat)
    requires ValidFiles(files) && Disjoint(files)
    requires p <= q <= |files| && i < |files|
    ensures i < p ==> AllBefore(files[i], files[p..q])
    ensures i >= q ==> AllAfter(files[i], files[p..q])
  {
    forall e | e in LevelEntries(files[p..q])
      ensures i < p ==> Less(files[i].largest, e.ikey)
      ensures i >= q ==> Less(e.ikey, files[i].smallest)
    {
      var f :| f in files[p..q] && e in f.entries;
      var j :| p <= j < q && files[j] == f;
      assert ValidFile(files[j]);
      FileBounds(f, e);
      assert i < j ==> Less(files[i].largest, files[j].smallest);
      assert j < i ==> Less(files[j].largest, files[i].smallest);
    }
  }

  lemma GrownCoversNextLevel(files: Level, next: Level, chosen: seq<File>, inputs0: seq<File>, inputs1: seq<File>)
    requires ValidFiles(files) && ValidFiles(next) && Disjoint(next)
    requires Grown(files, next, chosen, inputs0, inputs1)
    requires forall f :: f in inputs0 ==> f in files
    ensures forall f :: f in inputs1 ==> f in next
    ensures CoversNextLevel(next, inputs0, inputs1)
    ensures Separated(next, inputs0, inputs1)
  {
    var smallest, largest :| IsRange(inputs0, smallest, largest)
                             && inputs1 == Overlapping(next, Some(smallest.user), Some(largest.user));
    forall e | e in LevelEntries(inputs0) ensures smallest.user <= e.ikey.user <= largest.user {
      var f :| f in inputs0 && e in f.entries;
      assert ValidFile(f);
      FileBounds(f, e);
    }
    OverlappingMembers(next, Some(smallest.user), Some(largest.user));
    DisjointIsUserSorted(next);
    var p, q := OverlappingIsSlice(next, Some(smallest.user), Some(largest.user));
    forall h | h in next && h !in inputs1
      ensures (AllBefore(h, inputs0) && AllBefore(h, inputs1)) || (AllAfter(h, inputs0) && AllAfter(h, inputs1))
    {
      var i :| 0 <= i < |next| && next[i] == h;
      SeparatedFromSlice(next, p, q, i);
    }
  }

  lemma RegrownFromChosen(files: Level, next: Level, levelZero: bool, base0: seq<File>, base1: seq<File>,
                          more: seq<File>, inputs0: seq<File>, inputs1: seq<File>)
    requires ValidFiles(files)
    requires !levelZero ==> Disjoint(files)
    requires Regrown(files, next, levelZero, base0, base1, more, inputs0, inputs1)
    ensures Chosen(files, levelZero, more)
  {
    var smallest, largest :| IsRange(base0 + base1, smallest, largest)
                             && OverlappingInputs(files, levelZero, Some(smallest.user), Some(largest.user), more);
    if !levelZero {
      DisjointIsUserSorted(files);
    }
    OverlappingInputsAreChosen(files, levelZero, Some(smallest.user), Some(largest.user), more);
  }

  lemma GrownIsValid(files: Level, next: Level, levelZero: bool, chosen: seq<File>,
                     inputs0: seq<File>, inputs1: seq<File>)
    requires ValidFiles(files) && Distinct(LevelEntries(files)) && ValidFiles(next) && Disjoint(next)
    requires !levelZero ==> Disjoint(files)
    requires Chosen(files, levelZero, chosen) && Grown(files, next, chosen, inputs0, inputs1)
    ensures ValidInputs(files, next, inputs0, inputs1)
  {
    GrownIsClosed(files, levelZero, chosen, inputs0);
    GrownCoversNextLevel(files, next, chosen, inputs0, inputs1);
  }

  /** Whatever SetupOtherInputs selects keeps every promise, at every level. */
  lemma SelectedIsValid(files: Level, next: Level, levelZero: bool, chosen: seq<File>,
                        inputs0: seq<File>, inputs1: seq<File>)
    requires ValidFiles(files) && Distinct(LevelEntries(files)) && ValidFiles(next) && Disjoint(next)
    requires !levelZero ==> Disjoint(files)
    requires Chosen(files, levelZero, chosen)
    requires SelectedInputs(files, next, levelZero, chosen, inputs0, inputs1)
    ensures ValidInputs(files, next, inputs0, inputs1)
  {
    if Grown(files, next, chosen, inputs0, inputs1) {
      GrownIsValid(files, next, levelZero, chosen, inputs0, inputs1);
    } else {
      var base0, base1, more :| Grown(files, next, chosen, base0, base1)
                                && Regrown(files, next, levelZero, base0, base1, more, inputs0, inputs1);
      RegrownFromChosen(files, next, levelZero, base0, base1, more, inputs0, inputs1);
      GrownIsValid(files, next, levelZero, more, inputs0, inputs1);
    }
  }
}
