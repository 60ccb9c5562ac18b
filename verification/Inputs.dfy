/**
 Choosing the files of a compaction (db/version_set.cc): which files overlap a key range, which
 files must come along because a user key continues into them, and the two input lists.
 */
module Inputs {
  import opened Common
  import opened InternalKeys
  import opened Versions

  /** The files among the first `n` that overlap a user-key range, in the level's order. */
  function OverlappingUpTo(files: Level, begin: Option<UserKey>, end: Option<UserKey>, n: nat): seq<File>
    requires n <= |files|
  {
    if n == 0 then [] else
      OverlappingUpTo(files, begin, end, n - 1) + if Overlaps(files[n - 1], begin, end) then [files[n - 1]] else []
  }

  function Overlapping(files: Level, begin: Option<UserKey>, end: Option<UserKey>): seq<File> {
    OverlappingUpTo(files, begin, end, |files|)
  }

  lemma {:induction false} OverlappingMembersUpTo(files: Level, begin: Option<UserKey>, end: Option<UserKey>, n: nat)
    requires n <= |files|
    ensures forall f :: f in OverlappingUpTo(files, begin, end, n) <==> f in files[..n] && Overlaps(f, begin, end)
  {
    if n != 0 {
      OverlappingMembersUpTo(files, begin, end, n - 1);
      assert files[..n] == files[..n - 1] + [files[n - 1]];
    }
  }

  lemma OverlappingMembers(files: Level, begin: Option<UserKey>, end: Option<UserKey>)
    ensures forall f :: f in Overlapping(files, begin, end) <==> f in files && Overlaps(f, begin, end)
  {
    OverlappingMembersUpTo(files, begin, end, |files|);
    assert files[..|files|] == files;
  }

  /** A range that no file sticks out of: every file overlapping it lies inside it. */
  ghost predicate ClosedRange(files: Level, begin: Option<UserKey>, end: Option<UserKey>) {
    forall f :: f in files && Overlaps(f, begin, end) ==> Inside(f, begin, end)
  }

  ghost predicate Inside(f: File, begin: Option<UserKey>, end: Option<UserKey>) {
    && (begin.Some? ==> begin.value <= f.smallest.user)
    && (end.Some? ==> f.largest.user <= end.value)
  }

  /** [b, e] contains [begin, end]; a missing bound stays missing. */
  ghost predicate Contains(b: Option<UserKey>, e: Option<UserKey>, begin: Option<UserKey>, end: Option<UserKey>) {
    && b.Some? == begin.Some? && (b.Some? ==> b.value <= begin.value)
    && e.Some? == end.Some? && (e.Some? ==> end.value <= e.value)
  }

  /** [b, e] is the least closed range around [begin, end]. */
  ghost predicate LeastClosedRange(files: Level, begin: Option<UserKey>, end: Option<UserKey>,
                                   b: Option<UserKey>, e: Option<UserKey>) {
    && Contains(b, e, begin, end)
    && ClosedRange(files, b, e)
    && forall x, y :: Contains(x, y, begin, end) && ClosedRange(files, x, y) ==> Contains(x, y, b, e)
  }

  /** What GetOverlappingInputs returns. Level-0 files may overlap each other, so there the
      range is first widened until no overlapping file sticks out of it. */
  ghost predicate OverlappingInputs(files: Level, levelZero: bool, begin: Option<UserKey>, end: Option<UserKey>,
                                    inputs: seq<File>) {
    if levelZero then
      exists b, e :: LeastClosedRange(files, begin, end, b, e) && inputs == Overlapping(files, b, e)
    else
      inputs == Overlapping(files, begin, end)
  }

  ghost function StartsBefore(files: Level, begin: Option<UserKey>): set<nat> {
    set k | 0 <= k < |files| && begin.Some? && files[k].smallest.user < begin.value
  }

  ghost function EndsAfter(files: Level, end: Option<UserKey>): set<nat> {
    set k | 0 <= k < |files| && end.Some? && files[k].largest.user > end.value
  }

  /** A file overlapping the range found so far lies inside every closed range around it. */
  lemma ClosedRangesHold(files: Level, begin: Option<UserKey>, end: Option<UserKey>,
                         b: Option<UserKey>, e: Option<UserKey>, f: File)
    requires f in files && Overlaps(f, b, e)
    requires forall x, y :: Contains(x, y, begin, end) && ClosedRange(files, x, y) ==> Contains(x, y, b, e)
    ensures forall x, y :: Contains(x, y, begin, end) && ClosedRange(files, x, y) ==> Inside(f, x, y)
  {
    forall x, y | Contains(x, y, begin, end) && ClosedRange(files, x, y) ensures Inside(f, x, y) {
      assert Contains(x, y, b, e);
      assert Overlaps(f, x, y);
    }
  }

  /** Version::GetOverlappingInputs, with its restarts. */
  method GetOverlappingInputs(files: Level, levelZero: bool, begin: Option<UserKey>, end: Option<UserKey>)
    returns (inputs: seq<File>)
    ensures OverlappingInputs(files, levelZero, begin, end, inputs)
  {
    inputs := [];
    var userBegin, userEnd := begin, end;
    var i := 0;
    while i < |files|
      invariant 0 <= i <= |files|
      invariant !levelZero ==> userBegin == begin && userEnd == end
      invariant Contains(userBegin, userEnd, begin, end)
      invariant inputs == OverlappingUpTo(files, userBegin, userEnd, i)
      invariant levelZero ==> ClosedRange(files[..i], userBegin, userEnd)
      invariant forall x, y :: Contains(x, y, begin, end) && ClosedRange(files, x, y) ==> Contains(x, y, userBegin, userEnd)
      decreases StartsBefore(files, userBegin), EndsAfter(files, userEnd), |files| - i
    {
      var f := files[i];
      i := i + 1;
      if userBegin.Some? && f.largest.user < userBegin.value {
      } else if userEnd.Some? && f.smallest.user > userEnd.value {
      } else {
        inputs := inputs + [f];
        ghost var k := i - 1;
        ClosedRangesHold(files, begin, end, userBegin, userEnd, f);
        if levelZero {
          if userBegin.Some? && f.smallest.user < userBegin.value {
            assert k in StartsBefore(files, userBegin);
            userBegin := Some(f.smallest.user);
            assert k !in StartsBefore(files, userBegin);
            inputs := [];
            i := 0;
          } else if userEnd.Some? && f.largest.user > userEnd.value {
            assert k in EndsAfter(files, userEnd);
            userEnd := Some(f.largest.user);
            assert k !in EndsAfter(files, userEnd);
            inputs := [];
            i := 0;
          }
        }
      }
    }
    assert files[..i] == files;
    assert levelZero ==> LeastClosedRange(files, begin, end, userBegin, userEnd);
  }

  /** The user-key ranges of the files follow each other, sharing at most their end points. */
  ghost predicate UserSorted(files: Level) {
    && (forall i :: 0 <= i < |files| ==> files[i].smallest.user <= files[i].largest.user)
    && forall i, j :: 0 <= i < j < |files| ==> files[i].largest.user <= files[j].smallest.user
  }

  lemma DisjointIsUserSorted(files: Level)
    requires ValidFiles(files) && Disjoint(files)
    ensures UserSorted(files)
  {
    forall i | 0 <= i < |files| ensures files[i].smallest.user <= files[i].largest.user {
      assert ValidFile(files[i]);
      FileBounds(files[i], files[i].entries[0]);
    }
  }

  lemma {:induction false} SliceOverlaps(files: Level, begin: Option<UserKey>, end: Option<UserKey>,
                                         p: nat, q: nat, n: nat)
    requires p <= q <= n <= |files|
    requires forall i :: 0 <= i < n ==> (Overlaps(files[i], begin, end) <==> p <= i < q)
    ensures OverlappingUpTo(files, begin, end, n) == files[p..q]
  {
    if n != 0 {
      SliceOverlaps(files, begin, end, if p == n then n - 1 else p, if q == n then n - 1 else q, n - 1);
      if q == n && p < q {
        assert files[p..q] == files[p..n - 1] + [files[n - 1]];
      }
    }
  }

  /** On a disjoint level the overlapping files are one slice of it. */
  lemma OverlappingIsSlice(files: Level, begin: Option<UserKey>, end: Option<UserKey>)
    returns (p: nat, q: nat)
    requires UserSorted(files)
    ensures p <= q <= |files| && Overlapping(files, begin, end) == files[p..q]
    ensures forall i :: 0 <= i < p ==> AfterFile(begin, files[i])
    ensures forall i :: p <= i < q ==> Overlaps(files[i], begin, end)
    ensures forall i :: q <= i < |files| ==> BeforeFile(end, files[i]) && !AfterFile(begin, files[i])
  {
    p := 0;
    while p < |files| && AfterFile(begin, files[p])
      invariant p <= |files|
      invariant forall i :: 0 <= i < p ==> AfterFile(begin, files[i])
    {
      p := p + 1;
    }
    forall i | p <= i < |files| ensures !AfterFile(begin, files[i]) {
      assert p < i ==> files[p].largest.user <= files[i].smallest.user;
    }
    q := p;
    while q < |files| && !BeforeFile(end, files[q])
      invariant p <= q <= |files|
      invariant forall i :: p <= i < q ==> !BeforeFile(end, files[i])
    {
      q := q + 1;
    }
    forall i | q <= i < |files| ensures BeforeFile(end, files[i]) {
      assert q < i ==> files[q].largest.user <= files[i].smallest.user;
    }
    SliceOverlaps(files, begin, end, p, q, |files|);
  }

  // ----- boundary files -----

  ghost predicate IsLargestKey(files: seq<File>, key: IKey) {
    && (exists f :: f in files && f.largest == key)
    && forall f :: f in files ==> !Less(key, f.largest)
  }

  /** FindLargestKey */
  method FindLargestKey(files: seq<File>) returns (r: Option<IKey>)
    ensures r.None? <==> files == []
    ensures r.Some? ==> IsLargestKey(files, r.value)
  {
    if files == [] {
      return None;
    }
    var largest := files[0].largest;
    for i := 1 to |files|
      invariant exists f :: f in files && f.largest == largest
      invariant forall k :: 0 <= k < i ==> !Less(largest, files[k].largest)
    {
      if Less(largest, files[i].largest) {
        largest := files[i].largest;
      }
    }
    r := Some(largest);
  }

  /** A file that starts after `key` with the same user key: it holds older entries for it. */
  predicate BoundaryFile(f: File, key: IKey) {
    Less(key, f.smallest) && f.smallest.user == key.user
  }

  ghost predicate SmallestBoundaryFile(files: Level, key: IKey, f: File) {
    && f in files && BoundaryFile(f, key)
    && forall g :: g in files && BoundaryFile(g, key) ==> !Less(g.smallest, f.smallest)
  }

  /** FindSmallestBoundaryFile */
  method FindSmallestBoundaryFile(files: Level, key: IKey) returns (r: Option<File>)
    ensures r.Some? ==> SmallestBoundaryFile(files, key, r.value)
    ensures r.None? ==> forall f :: f in files ==> !BoundaryFile(f, key)
  {
    r := None;
    for i := 0 to |files|
      invariant r.Some? ==> SmallestBoundaryFile(files[..i], key, r.value)
      invariant r.None? ==> forall k :: 0 <= k < i ==> !BoundaryFile(files[k], key)
    {
      assert forall g :: g in files[..i + 1] <==> g in files[..i] || g == files[i];
      if BoundaryFile(files[i], key) {
        if r.None? || Less(files[i].smallest, r.value.smallest) {
          r := Some(files[i]);
        }
      }
    }
    assert files[..|files|] == files;
  }

  /** `added` follows the boundary from `key` until no file continues it. */
  ghost predicate BoundaryChain(files: Level, key: IKey, added: seq<File>)
    decreases |added|
  {
    if added == [] then
      forall f :: f in files ==> !BoundaryFile(f, key)
    else
      SmallestBoundaryFile(files, key, added[0]) && BoundaryChain(files, added[0].largest, added[1..])
  }

  /** What AddBoundaryInputs makes of the files already chosen. */
  ghost predicate WithBoundary(files: Level, chosen: seq<File>, r: seq<File>) {
    if chosen == [] then r == [] else
      exists key, added :: IsLargestKey(chosen, key) && BoundaryChain(files, key, added) && r == chosen + added
  }

  ghost function StartsPast(files: Level, key: IKey): set<nat> {
    set k | 0 <= k < |files| && Less(key, files[k].smallest)
  }

  /** Any chain from `key` on, put behind `added`, is a chain from `first` on. */
  ghost predicate LeadsTo(files: Level, first: IKey, added: seq<File>, key: IKey) {
    forall rest :: BoundaryChain(files, key, rest) ==> BoundaryChain(files, first, added + rest)
  }

  lemma ChainGrows(files: Level, first: IKey, key: IKey, added: seq<File>, f: File)
    requires LeadsTo(files, first, added, key) && SmallestBoundaryFile(files, key, f)
    ensures LeadsTo(files, first, added + [f], f.largest)
  {
    forall rest | BoundaryChain(files, f.largest, rest)
      ensures BoundaryChain(files, first, added + [f] + rest)
    {
      var longer := [f] + rest;
      assert longer[1..] == rest;
      assert BoundaryChain(files, key, longer);
      assert added + longer == added + [f] + rest;
    }
  }

  /** AddBoundaryInputs. The largest key strictly increases, so the search ends. */
  method AddBoundaryInputs(files: Level, chosen: seq<File>) returns (r: seq<File>)
    requires ValidFiles(files)
    ensures WithBoundary(files, chosen, r)
  {
    r := chosen;
    var largest := FindLargestKey(chosen);
    if largest.None? {
      return;
    }
    ghost var first := largest.value;
    var key := largest.value;
    ghost var added := [];
    var searching := true;
    assert forall rest: seq<File> :: [] + rest == rest;
    while searching
      invariant r == chosen + added
      invariant LeadsTo(files, first, added, key)
      invariant !searching ==> BoundaryChain(files, key, [])
      decreases searching, StartsPast(files, key)
    {
      var next := FindSmallestBoundaryFile(files, key);
      if next.Some? {
        var f := next.value;
        ghost var k :| 0 <= k < |files| && files[k] == f;
        assert k in StartsPast(files, key) && k !in StartsPast(files, f.largest);
        FileBounds(f, f.entries[0]);
        FileBounds(f, f.entries[|f.entries| - 1]);
        ChainGrows(files, first, key, added, f);
        r := r + [f];
        added := added + [f];
        key := f.largest;
      } else {
        searching := false;
      }
    }
    assert added + [] == added;
  }

  /** On a disjoint level the chain is the run of files that follow the chosen slice while its
      last user key continues; it stops where a new user key starts. */
  lemma {:induction false} ChainExtendsSlice(files: Level, q: nat, added: seq<File>)
    requires ValidFiles(files) && Disjoint(files)
    requires 0 < q <= |files| && BoundaryChain(files, files[q - 1].largest, added)
    ensures q + |added| <= |files| && added == files[q..q + |added|]
    ensures q + |added| < |files| ==> files[q + |added|].smallest.user != files[q + |added| - 1].largest.user
    decreases |added|
  {
    if q < |files| {
      NextIsSmallestBoundary(files, q);
    }
    if added == [] {
      assert q < |files| ==> files[q] in files;
    } else {
      FirstOfChain(files, q, added[0]);
      ChainExtendsSlice(files, q + 1, added[1..]);
      assert added == [files[q]] + added[1..];
      assert files[q..q + |added|] == [files[q]] + files[q + 1..q + |added|];
    }
  }

  lemma FileEnds(f: File)
    requires ValidFile(f)
    ensures !Less(f.largest, f.smallest)
  {
    FileBounds(f, f.entries[0]);
  }

  lemma NextIsSmallestBoundary(files: Level, q: nat)
    requires ValidFiles(files) && Disjoint(files) && 0 < q < |files|
    ensures Less(files[q - 1].largest, files[q].smallest)
    ensures BoundaryFile(files[q], files[q - 1].largest) <==> files[q].smallest.user == files[q - 1].largest.user
  {
  }

  /** A boundary file of a slice's last file that starts first is the file after the slice. */
  lemma FirstOfChain(files: Level, q: nat, f: File)
    requires ValidFiles(files) && Disjoint(files) && 0 < q <= |files|
    requires SmallestBoundaryFile(files, files[q - 1].largest, f)
    ensures q < |files| && f == files[q]
  {
    var key := files[q - 1].largest;
    var k :| 0 <= k < |files| && files[k] == f;
    forall i | 0 <= i < q ensures !Less(key, files[i].smallest) {
      FileEnds(files[i]);
      assert i < q - 1 ==> Less(files[i].largest, files[q - 1].smallest);
      FileEnds(files[q - 1]);
    }
    assert q <= k;
    FileEnds(files[q]);
    assert Less(key, files[q].smallest);
    assert q < k ==> Less(files[q].largest, files[k].smallest);
    assert files[q] in files && BoundaryFile(files[q], key);
  }
}
