/**
 Table files, versions and the read path through them (db/version_set.cc).
 */
module Versions {
  import opened Common
  import opened InternalKeys

  /** FileMetaData, together with the entries stored in the table it names. */
  datatype File = File(number: nat, size: nat, smallest: IKey, largest: IKey, entries: seq<Entry>)

  ghost predicate ValidFile(f: File) {
    && f.entries != []
    && Sorted(f.entries)
    && f.smallest == f.entries[0].ikey
    && f.largest == f.entries[|f.entries| - 1].ikey
  }

  lemma FileBounds(f: File, e: Entry)
    requires ValidFile(f) && e in f.entries
    ensures !Less(e.ikey, f.smallest) && !Less(f.largest, e.ikey)
    ensures f.smallest.user <= e.ikey.user <= f.largest.user
  {
  }

  /** The files of one level, in the order the version lists them. */
  type Level = seq<File>

  /** One list of files a level. */
  type Version = seq<Level>

  ghost function LevelEntries(files: Level): set<Entry> {
    set f, e | f in files && e in f.entries :: e
  }

  ghost function VersionEntries(v: Version): set<Entry> {
    set i, e | 0 <= i < |v| && e in LevelEntries(v[i]) :: e
  }

  /** Builder::BySmallestKey */
  predicate BySmallestKey(f: File, g: File) {
    Less(f.smallest, g.smallest) || (!Less(g.smallest, f.smallest) && f.number < g.number)
  }

  ghost predicate Ordered(files: Level) {
    forall i, j :: 0 <= i < j < |files| ==> BySmallestKey(files[i], files[j])
  }

  /** Files are in key order and no two of them overlap. */
  ghost predicate Disjoint(files: Level) {
    forall i, j :: 0 <= i < j < |files| ==> Less(files[i].largest, files[j].smallest)
  }

  ghost predicate ValidFiles(files: Level) {
    forall f :: f in files ==> ValidFile(f)
  }

  /** For each user key, everything in `a` was written after everything in `b`. */
  ghost predicate NewerThan(a: set<Entry>, b: set<Entry>) {
    forall x, y :: x in a && y in b && x.ikey.user == y.ikey.user ==> x.ikey.seqno > y.ikey.seqno
  }

  /** A level-0 file holds newer entries than every level-0 file with a smaller number. */
  ghost predicate NumbersFollowAge(files: Level) {
    forall f, g :: f in files && g in files && f.number > g.number
                   ==> NewerThan(Elements(f.entries), Elements(g.entries))
  }

  ghost predicate UniqueNumbers(v: Version) {
    forall i, f, j, g :: 0 <= i < |v| && f in v[i] && 0 <= j < |v| && g in v[j] && f.number == g.number
                         ==> i == j && f == g
  }

  ghost predicate LevelsFollowAge(v: Version) {
    forall i, j :: 0 <= i < j < |v| ==> NewerThan(LevelEntries(v[i]), LevelEntries(v[j]))
  }

  /** The shape of every version: what the searches below rely on. */
  ghost predicate ValidVersion(v: Version) {
    && |v| == NUM_LEVELS
    && (forall i :: 0 <= i < |v| ==> ValidFiles(v[i]) && Ordered(v[i]))
    && (forall i :: 1 <= i < |v| ==> Disjoint(v[i]))
    && UniqueNumbers(v)
    && NumbersFollowAge(v[0])
    && LevelsFollowAge(v)
  }

  // ----- binary search over the files of a level -----

  /** The first file that may hold `key` or anything after it. */
  method FindFile(files: Level, key: IKey) returns (r: nat)
    requires ValidFiles(files) && Disjoint(files)
    ensures r <= |files|
    ensures forall i :: 0 <= i < r ==> Less(files[i].largest, key)
    ensures forall i :: r <= i < |files| ==> !Less(files[i].largest, key)
  {
    var left, right := 0, |files|;
    while left < right
      invariant 0 <= left <= right <= |files|
      invariant forall i :: 0 <= i < left ==> Less(files[i].largest, key)
      invariant forall i :: right <= i < |files| ==> !Less(files[i].largest, key)
    {
      var mid := (left + right) / 2;
      LargestIncreases(files, mid);
      if Less(files[mid].largest, key) {
        left := mid + 1;
      } else {
        right := mid;
      }
    }
    r := right;
  }

  lemma LargestIncreases(files: Level, mid: nat)
    requires ValidFiles(files) && Disjoint(files) && mid < |files|
    ensures forall i :: 0 <= i < mid ==> Less(files[i].largest, files[mid].largest)
    ensures forall i :: mid < i < |files| ==> Less(files[mid].largest, files[i].largest)
  {
    forall i | 0 <= i < |files| ensures !Less(files[i].largest, files[i].smallest) {
      assert ValidFile(files[i]);
      FileBounds(files[i], files[i].entries[0]);
    }
  }

  /** AfterFile: the user key `begin` (None comes before every key) lies after the file. */
  predicate AfterFile(begin: Option<UserKey>, f: File) {
    begin.Some? && begin.value > f.largest.user
  }

  /** BeforeFile: the user key `end` (None comes after every key) lies before the file. */
  predicate BeforeFile(end: Option<UserKey>, f: File) {
    end.Some? && end.value < f.smallest.user
  }

  predicate Overlaps(f: File, begin: Option<UserKey>, end: Option<UserKey>) {
    !AfterFile(begin, f) && !BeforeFile(end, f)
  }

  /** SomeFileOverlapsRange: the binary search answers the same question as the full scan. */
  method SomeFileOverlapsRange(disjointSorted: bool, files: Level, begin: Option<UserKey>, end: Option<UserKey>)
    returns (r: bool)
    requires ValidFiles(files)
    requires disjointSorted ==> Disjoint(files)
    requires forall f :: f in files ==> f.largest.seqno <= MAX_SEQUENCE
    ensures r == exists f :: f in files && Overlaps(f, begin, end)
  {
    if !disjointSorted {
      for i := 0 to |files|
        invariant forall k :: 0 <= k < i ==> !Overlaps(files[k], begin, end)
      {
        if AfterFile(begin, files[i]) || BeforeFile(end, files[i]) {
        } else {
          assert Overlaps(files[i], begin, end);
          return true;
        }
      }
      return false;
    }
    var index := 0;
    if begin.Some? {
      index := FindFile(files, SeekKey(begin.value, MAX_SEQUENCE));
    }
    if index >= |files| {
      return false;
    }
    r := !BeforeFile(end, files[index]);
    if r {
      assert Overlaps(files[index], begin, end);
    } else {
      forall i | index < i < |files| ensures BeforeFile(end, files[i]) {
        assert Less(files[index].largest, files[i].smallest);
        assert ValidFile(files[index]);
        FileBounds(files[index], files[index].entries[0]);
      }
    }
  }

  // ----- the read path -----

  ghost predicate FallingNumbers(files: seq<File>) {
    forall i, j :: 0 <= i < j < |files| ==> files[i].number >= files[j].number
  }

  function InsertNewestFirst(f: File, files: seq<File>): seq<File> {
    if files == [] || f.number >= files[0].number then [f] + files
    else [files[0]] + InsertNewestFirst(f, files[1..])
  }

  /** std::sort with NewestFirst. */
  function SortNewestFirst(files: seq<File>): seq<File> {
    if files == [] then [] else InsertNewestFirst(files[0], SortNewestFirst(files[1..]))
  }

  lemma FirstOfMultiset(files: seq<File>)
    requires files != []
    ensures multiset(files) == multiset{files[0]} + multiset(files[1..])
  {
    assert files == [files[0]] + files[1..];
  }

  lemma {:induction false} InsertedIsPermutation(f: File, files: seq<File>)
    ensures multiset(InsertNewestFirst(f, files)) == multiset{f} + multiset(files)
  {
    if files == [] || f.number >= files[0].number {
      FirstOfMultiset([f] + files);
    } else {
      var r := InsertNewestFirst(f, files);
      InsertedIsPermutation(f, files[1..]);
      FirstOfMultiset(files);
      FirstOfMultiset(r);
    }
  }

  lemma {:induction false} InsertedFalls(f: File, files: seq<File>)
    requires FallingNumbers(files)
    ensures FallingNumbers(InsertNewestFirst(f, files))
  {
    if files != [] && f.number < files[0].number {
      var rest := InsertNewestFirst(f, files[1..]);
      InsertedFalls(f, files[1..]);
      InsertedIsPermutation(f, files[1..]);
      forall i | 0 <= i < |rest| ensures rest[i].number <= files[0].number {
        assert rest[i] in multiset(rest);
      }
    }
  }

  /** Sorting is a permutation, by falling file number. */
  lemma {:induction false} SortIsNewestFirst(files: seq<File>)
    ensures FallingNumbers(SortNewestFirst(files)) && multiset(SortNewestFirst(files)) == multiset(files)
  {
    if files != [] {
      SortIsNewestFirst(files[1..]);
      InsertedFalls(files[0], SortNewestFirst(files[1..]));
      InsertedIsPermutation(files[0], SortNewestFirst(files[1..]));
      FirstOfMultiset(files);
    }
  }

  /** FindFile then a seek inside the file found: the newest visible entry of a disjoint level. */
  method LevelGet(files: Level, user: UserKey, snapshot: nat) returns (r: Option<Entry>)
    requires ValidFiles(files) && Disjoint(files)
    ensures r.Some? ==> IsNewest(LevelEntries(files), user, snapshot, r.value)
    ensures r.None? ==> forall e :: e in LevelEntries(files) ==> !Visible(e, user, snapshot)
  {
    var k := SeekKey(user, snapshot);
    var index := FindFile(files, k);
    // Files before the one found end before the lookup key.
    forall i, e | 0 <= i < index && e in files[i].entries ensures !Visible(e, user, snapshot) {
      assert ValidFile(files[i]);
      FileBounds(files[i], e);
    }
    if index >= |files| {
      return None;
    }
    var f := files[index];
    assert ValidFile(f);
    if user < f.smallest.user {
      forall i, e | index <= i < |files| && e in files[i].entries ensures !Visible(e, user, snapshot) {
        assert ValidFile(files[i]);
        FileBounds(files[i], e);
        FileBounds(f, f.entries[0]);
        assert i == index || Less(f.largest, files[i].smallest);
      }
      return None;
    }
    r := RunGet(f.entries, user, snapshot);
    RunGetIsNewest(f.entries, user, snapshot);
    // Files after it hold only keys after its largest one, which is not before the lookup key.
    forall i, e | index < i < |files| && e in files[i].entries && Visible(e, user, snapshot)
      ensures r.Some? && e.ikey.seqno <= r.value.ikey.seqno
    {
      assert ValidFile(files[i]);
      FileBounds(files[i], e);
      assert Less(f.largest, files[i].smallest);
      var last := f.entries[|f.entries| - 1];
      FileBounds(f, last);
      assert last in f.entries && Visible(last, user, snapshot);
    }
  }

  lemma NewestInFileIsNewest(files: Level, sorted: seq<File>, i: nat, user: UserKey, snapshot: nat, e: Entry)
    requires NumbersFollowAge(files) && i < |sorted|
    requires forall f, g :: f in files && g in files && f.number == g.number ==> f == g
    requires forall k, l :: 0 <= k < l < |sorted| ==> sorted[k].number >= sorted[l].number
    requires forall f :: f in sorted ==> f in files
    requires forall f, x :: f in files && f !in sorted && x in f.entries ==> !Visible(x, user, snapshot)
    requires forall k, x :: 0 <= k < i && x in sorted[k].entries ==> !Visible(x, user, snapshot)
    requires IsNewest(Elements(sorted[i].entries), user, snapshot, e)
    ensures IsNewest(LevelEntries(files), user, snapshot, e)
  {
    var own := sorted[i];
    forall x | x in LevelEntries(files) && Visible(x, user, snapshot)
      ensures x.ikey.seqno <= e.ikey.seqno
    {
      var f :| f in files && x in f.entries;
      var k :| 0 <= k < |sorted| && sorted[k] == f;
      if f.number < own.number {
        assert NewerThan(Elements(own.entries), Elements(f.entries));
        assert x in Elements(f.entries);
      } else {
        assert f == own;
        assert x in Elements(own.entries);
      }
    }
  }

  /** The newest visible entry of the first level that has one is the newest in the version. */
  lemma NewestInLevelIsNewest(v: Version, level: nat, user: UserKey, snapshot: nat, e: Entry)
    requires LevelsFollowAge(v) && level < |v|
    requires forall i, x :: 0 <= i < level && x in LevelEntries(v[i]) ==> !Visible(x, user, snapshot)
    requires IsNewest(LevelEntries(v[level]), user, snapshot, e)
    ensures IsNewest(VersionEntries(v), user, snapshot, e)
  {
    forall x | x in VersionEntries(v) && Visible(x, user, snapshot)
      ensures x.ikey.seqno <= e.ikey.seqno
    {
      var i :| 0 <= i < |v| && x in LevelEntries(v[i]);
      if i > level {
        assert NewerThan(LevelEntries(v[level]), LevelEntries(v[i]));
      }
    }
  }

  /** Version::Get: level 0 newest file first, then one file of each deeper level. The entry
      returned is the newest visible one in the whole version. */
  method Get(v: Version, user: UserKey, snapshot: nat) returns (r: Option<Entry>)
    requires ValidVersion(v)
    ensures r.Some? ==> IsNewest(VersionEntries(v), user, snapshot, r.value)
    ensures r.None? ==> forall e :: e in VersionEntries(v) ==> !Visible(e, user, snapshot)
  {
    for level := 0 to NUM_LEVELS
      invariant forall i, e :: 0 <= i < level && e in LevelEntries(v[i]) ==> !Visible(e, user, snapshot)
    {
      if level == 0 {
        r := LevelZeroGet(v[0], user, snapshot);
      } else {
        r := LevelGet(v[level], user, snapshot);
      }
      if r.Some? {
        NewestInLevelIsNewest(v, level, user, snapshot, r.value);
        return;
      }
    }
    return None;
  }

  /** The level-0 files whose user-key range contains `user`. */
  method FilesAround(files: Level, user: UserKey) returns (r: seq<File>)
    requires ValidFiles(files)
    ensures forall f :: f in r <==> f in files && f.smallest.user <= user <= f.largest.user
    ensures forall f, e :: f in files && f !in r && e in f.entries ==> e.ikey.user != user
  {
    r := [];
    for i := 0 to |files|
      invariant forall f :: f in r <==> f in files[..i] && f.smallest.user <= user <= f.largest.user
    {
      if files[i].smallest.user <= user <= files[i].largest.user {
        r := r + [files[i]];
      }
    }
    assert files[..|files|] == files;
    forall f, e | f in files && f !in r && e in f.entries ensures e.ikey.user != user {
      FileBounds(f, e);
    }
  }

  /** The level-0 part of Version::Get. */
  method LevelZeroGet(files: Level, user: UserKey, snapshot: nat) returns (r: Option<Entry>)
    requires ValidFiles(files) && NumbersFollowAge(files)
    requires forall f, g :: f in files && g in files && f.number == g.number ==> f == g
    ensures r.Some? ==> IsNewest(LevelEntries(files), user, snapshot, r.value)
    ensures r.None? ==> forall e :: e in LevelEntries(files) ==> !Visible(e, user, snapshot)
  {
    var tmp := FilesAround(files, user);
    var sorted := SortNewestFirst(tmp);
    SortIsNewestFirst(tmp);
    assert forall f :: f in sorted <==> f in tmp by {
      assert forall f :: f in sorted <==> f in multiset(sorted);
    }
    var i;
    r, i := SearchInOrder(sorted, user, snapshot);
    if r.Some? {
      NewestInFileIsNewest(files, sorted, i, user, snapshot, r.value);
    } else {
      forall f, e | f in files && e in f.entries ensures !Visible(e, user, snapshot) {
        if f in tmp {
          var k :| 0 <= k < |sorted| && sorted[k] == f;
        }
      }
    }
  }

  /** Looks through the files one after the other until one has a visible entry. */
  method SearchInOrder(files: seq<File>, user: UserKey, snapshot: nat) returns (r: Option<Entry>, i: nat)
    requires ValidFiles(files)
    ensures i <= |files| && (r.Some? <==> i < |files|)
    ensures r.Some? ==> IsNewest(Elements(files[i].entries), user, snapshot, r.value)
    ensures forall k, e :: 0 <= k < i && e in files[k].entries ==> !Visible(e, user, snapshot)
  {
    for j := 0 to |files|
      invariant forall k, e :: 0 <= k < j && e in files[k].entries ==> !Visible(e, user, snapshot)
    {
      assert ValidFile(files[j]);
      RunGetIsNewest(files[j].entries, user, snapshot);
      r := RunGet(files[j].entries, user, snapshot);
      if r.Some? {
        return r, j;
      }
    }
    return None, |files|;
  }
}
