/**
 Scans: the cursors of a database put together. What DBImpl::NewInternalIterator merges are the entries
 of the database, and what DBIter shows of them at a snapshot is the map as it was then, key by key.
 */
module Scans {
  import opened Common
  import opened InternalKeys
  import opened Versions
  import opened Compaction
  import opened Database
  import opened Refinement
  import opened Merger
  import DbIter

  // ----- the children of the merging iterator -----

  /** Version::AddIterators: one child for each file of level 0, and one for each deeper level. */
  function FileRuns(files: Level): seq<seq<Entry>> {
    seq(|files|, i requires 0 <= i < |files| => files[i].entries)
  }

  function LevelRun(files: Level): seq<Entry> {
    Flatten(FileRuns(files))
  }

  function DeepRuns(v: Version, l: nat): seq<seq<Entry>>
    requires l <= |v|
    decreases |v| - l
  {
    if l == |v| then [] else (if v[l] == [] then [] else [LevelRun(v[l])]) + DeepRuns(v, l + 1)
  }

  /** DBImpl::NewInternalIterator: the memtable, the immutable memtable, and those of the version. */
  function Children(db: DB): seq<seq<Entry>>
    requires |db.version| == NUM_LEVELS
  {
    [db.mem] + ((if db.imm.Some? then [db.imm.value] else []) + (FileRuns(db.version[0]) + DeepRuns(db.version, 1)))
  }

  ghost function RunEntries(runs: seq<seq<Entry>>): set<Entry> {
    set i, e | 0 <= i < |runs| && e in runs[i] :: e
  }

  ghost predicate ShareNothing(x: seq<Entry>, y: seq<Entry>) {
    forall e :: e in x ==> e !in y
  }

  /** Sorted runs, no two of which have an entry in common. */
  ghost predicate Separate(runs: seq<seq<Entry>>) {
    && (forall i :: 0 <= i < |runs| ==> Sorted(runs[i]))
    && (forall i, j :: 0 <= i < j < |runs| ==> ShareNothing(runs[i], runs[j]))
  }

  lemma OneRun(run: seq<Entry>)
    requires Sorted(run)
    ensures Separate([run]) && RunEntries([run]) == Elements(run)
  {
    forall e ensures e in RunEntries([run]) <==> e in Elements(run) {
      assert e in run ==> e in [run][0];
    }
  }

  lemma NoRuns()
    ensures Separate([]) && RunEntries([]) == {}
  {
  }

  lemma JoinedRuns(x: seq<seq<Entry>>, y: seq<seq<Entry>>)
    requires Separate(x) && Separate(y) && RunEntries(x) !! RunEntries(y)
    ensures Separate(x + y) && RunEntries(x + y) == RunEntries(x) + RunEntries(y)
  {
    var z := x + y;
    assert forall i :: 0 <= i < |x| ==> z[i] == x[i];
    assert forall j :: 0 <= j < |y| ==> z[|x| + j] == y[j];
    forall e ensures e in RunEntries(z) <==> e in RunEntries(x) || e in RunEntries(y) {
      if e in RunEntries(y) {
        var j :| 0 <= j < |y| && e in y[j];
        assert e in z[|x| + j];
      }
      if e in RunEntries(x) {
        var i :| 0 <= i < |x| && e in x[i];
        assert e in z[i];
      }
    }
    forall i, j, e | 0 <= i < |x| && 0 <= j < |y| && e in x[i] ensures e !in y[j] {
      assert e in RunEntries(x);
      assert e in y[j] ==> e in RunEntries(y);
    }
    forall i, j | 0 <= i < j < |z| ensures ShareNothing(z[i], z[j]) {
      if i < |x| <= j {
        assert z[j] == y[j - |x|];
      } else if |x| <= i {
        assert z[i] == y[i - |x|] && z[j] == y[j - |x|];
      }
    }
  }

  // ----- level 0 -----

  lemma NewerShareNothing(x: seq<Entry>, y: seq<Entry>)
    requires NewerThan(Elements(x), Elements(y)) || NewerThan(Elements(y), Elements(x))
    ensures ShareNothing(x, y)
  {
    assert forall e :: e in x ==> e in Elements(x);
    assert forall e :: e in y ==> e in Elements(y);
  }

  lemma FilesShareNothing(files: Level, i: nat, j: nat)
    requires i < j < |files| && Ordered(files) && NumbersFollowAge(files)
    requires forall f, g :: f in files && g in files && f.number == g.number ==> f == g
    ensures ShareNothing(files[i].entries, files[j].entries)
  {
    assert BySmallestKey(files[i], files[j]);
    assert files[i] in files && files[j] in files && files[i].number != files[j].number;
    NewerShareNothing(files[i].entries, files[j].entries);
  }

  lemma FileRunsSeparate(files: Level)
    requires ValidFiles(files) && Ordered(files) && NumbersFollowAge(files)
    requires forall f, g :: f in files && g in files && f.number == g.number ==> f == g
    ensures Separate(FileRuns(files)) && RunEntries(FileRuns(files)) == LevelEntries(files)
  {
    var runs := FileRuns(files);
    forall i, j | 0 <= i < j < |runs| ensures ShareNothing(runs[i], runs[j]) {
      FilesShareNothing(files, i, j);
    }
    forall i | 0 <= i < |runs| ensures Sorted(runs[i]) {
      assert files[i] in files;
    }
    forall e ensures e in RunEntries(runs) <==> e in LevelEntries(files) {
      if e in LevelEntries(files) {
        var f :| f in files && e in f.entries;
        var i :| 0 <= i < |files| && files[i] == f;
        assert e in runs[i];
      }
      if e in RunEntries(runs) {
        var i :| 0 <= i < |runs| && e in runs[i];
        assert files[i] in files;
      }
    }
  }

  // ----- deeper levels -----

  lemma SortedConcat(x: seq<Entry>, y: seq<Entry>)
    requires Sorted(x) && Sorted(y) && forall e, f :: e in x && f in y ==> Less(e.ikey, f.ikey)
    ensures Sorted(x + y)
  {
    var z := x + y;
    forall i, j | 0 <= i < j < |z| ensures Less(z[i].ikey, z[j].ikey) {
      if i < |x| <= j {
        assert x[i] in x && y[j - |x|] in y;
      }
    }
  }

  lemma EarlierFileIsSmaller(files: Level, k: nat, e: Entry, f: Entry)
    requires ValidFiles(files) && Disjoint(files) && k < |files|
    requires e in LevelEntries(files[..k]) && f in files[k].entries
    ensures Less(e.ikey, f.ikey)
  {
    var g :| g in files[..k] && e in g.entries;
    var i :| 0 <= i < k && files[i] == g;
    assert files[i] in files && files[k] in files && Less(files[i].largest, files[k].smallest);
    FileBounds(files[i], e);
    FileBounds(files[k], f);
  }

  lemma {:induction false} LevelRunIsSorted(files: Level)
    requires ValidFiles(files) && Disjoint(files)
    ensures Sorted(LevelRun(files)) && Elements(LevelRun(files)) == LevelEntries(files)
  {
    if files != [] {
      var k := |files| - 1;
      var front, last := files[..k], files[k];
      LevelRunIsSorted(front);
      assert FileRuns(files)[..k] == FileRuns(front);
      assert files == front + [last] && last in files;
      forall e, f | e in LevelRun(front) && f in last.entries ensures Less(e.ikey, f.ikey) {
        assert e in Elements(LevelRun(front));
        EarlierFileIsSmaller(files, k, e, f);
      }
      SortedConcat(LevelRun(front), last.entries);
      LevelEntriesOneMore(front, last);
    } else {
      assert LevelEntries([]) == {} && Elements([]) == {};
    }
  }

  lemma LevelEntriesOneMore(front: Level, last: File)
    ensures LevelEntries(front + [last]) == LevelEntries(front) + Elements(last.entries)
  {
    assert forall f :: f in front + [last] <==> f in front || f == last;
  }

  ghost function EntriesFrom(v: Version, l: nat): set<Entry> {
    set k, e | l <= k < |v| && e in LevelEntries(v[k]) :: e
  }

  lemma LevelApartFromDeeper(v: Version, l: nat)
    requires LevelsFollowAge(v) && l < |v|
    ensures LevelEntries(v[l]) !! EntriesFrom(v, l + 1)
    ensures EntriesFrom(v, l) == LevelEntries(v[l]) + EntriesFrom(v, l + 1)
  {
    forall k, e | l + 1 <= k < |v| && e in LevelEntries(v[k]) ensures e !in LevelEntries(v[l]) {
      assert NewerThan(LevelEntries(v[l]), LevelEntries(v[k]));
    }
  }

  lemma {:induction false} DeepRunsSeparate(v: Version, l: nat)
    requires l <= |v| && LevelsFollowAge(v) && forall k :: l <= k < |v| ==> ValidFiles(v[k]) && Disjoint(v[k])
    ensures Separate(DeepRuns(v, l)) && RunEntries(DeepRuns(v, l)) == EntriesFrom(v, l)
    decreases |v| - l
  {
    if l == |v| {
      NoRuns();
    } else {
      DeepRunsSeparate(v, l + 1);
      LevelApartFromDeeper(v, l);
      if v[l] == [] {
        assert LevelEntries([]) == {};
        assert [] + DeepRuns(v, l + 1) == DeepRuns(v, l + 1);
      } else {
        LevelRunIsSorted(v[l]);
        OneRun(LevelRun(v[l]));
        JoinedRuns([LevelRun(v[l])], DeepRuns(v, l + 1));
      }
    }
  }

  lemma VersionRunsSeparate(v: Version)
    requires ValidVersion(v)
    ensures var runs := FileRuns(v[0]) + DeepRuns(v, 1);
      Separate(runs) && RunEntries(runs) == VersionEntries(v)
  {
    FileRunsSeparate(v[0]);
    DeepRunsSeparate(v, 1);
    LevelApartFromDeeper(v, 0);
    JoinedRuns(FileRuns(v[0]), DeepRuns(v, 1));
    assert EntriesFrom(v, 0) == VersionEntries(v);
  }

  // ----- the whole database -----

  lemma NewerAreApart(x: set<Entry>, y: set<Entry>)
    requires NewerThan(x, y)
    ensures x !! y
  {
  }

  lemma LayersSeparate(mem: seq<Entry>, imm: Option<seq<Entry>>, runs: seq<seq<Entry>>)
    requires Sorted(mem) && (imm.Some? ==> Sorted(imm.value)) && Separate(runs)
    requires var older := if imm.Some? then Elements(imm.value) else {};
      NewerThan(Elements(mem), older) && NewerThan(Elements(mem), RunEntries(runs)) && NewerThan(older, RunEntries(runs))
    ensures var older := if imm.Some? then [imm.value] else [];
      var all := [mem] + (older + runs);
      Separate(all) && RunEntries(all) == Elements(mem) + (if imm.Some? then Elements(imm.value) else {}) + RunEntries(runs)
  {
    var older := if imm.Some? then [imm.value] else [];
    if imm.Some? {
      OneRun(imm.value);
    } else {
      NoRuns();
    }
    NewerAreApart(RunEntries(older), RunEntries(runs));
    JoinedRuns(older, runs);
    OneRun(mem);
    NewerAreApart(Elements(mem), RunEntries(older));
    NewerAreApart(Elements(mem), RunEntries(runs));
    JoinedRuns([mem], older + runs);
  }

  lemma ChildrenSeparate(db: DB)
    requires Invariant(db)
    ensures Separate(Children(db)) && RunEntries(Children(db)) == AllEntries(db)
  {
    VersionRunsSeparate(db.version);
    LayersSeparate(db.mem, db.imm, FileRuns(db.version[0]) + DeepRuns(db.version, 1));
  }

  // ----- their merge -----

  lemma SortedIn(run: seq<Entry>, e: Entry) returns (r: seq<Entry>)
    requires Sorted(run) && forall x :: x in run ==> x.ikey.user != e.ikey.user || x.ikey.seqno != e.ikey.seqno
    ensures Sorted(r) && Elements(r) == Elements(run) + {e}
  {
    var i := LowerBound(run, e.ikey);
    LowerBoundSplits(run, e.ikey);
    forall j | i <= j < |run| ensures Less(e.ikey, run[j].ikey) {
      assert run[j] in run && !Less(run[j].ikey, e.ikey);
    }
    SplicedSorted(run, i, e);
    r := run[..i] + [e] + run[i..];
  }

  lemma {:induction false} SortedListExists(entries: set<Entry>) returns (r: seq<Entry>)
    requires Distinct(entries)
    ensures Sorted(r) && Elements(r) == entries
  {
    if entries == {} {
      r := [];
    } else {
      var e :| e in entries;
      var rest := SortedListExists(entries - {e});
      assert forall x :: x in rest ==> x in Elements(rest);
      r := SortedIn(rest, e);
      assert entries - {e} + {e} == entries;
    }
  }

  lemma SortedIsMerge(runs: seq<seq<Entry>>, merged: seq<Entry>)
    requires Separate(runs) && Sorted(merged) && Elements(merged) == RunEntries(runs)
    ensures IsMerge(runs, merged)
  {
    forall i, a | 0 <= i < |runs| && 0 <= a < |runs[i]| ensures runs[i][a] in merged {
      assert runs[i][a] in runs[i];
      assert runs[i][a] in Elements(merged);
    }
    forall e | e in merged ensures exists i :: 0 <= i < |runs| && e in runs[i] {
      assert e in RunEntries(runs);
    }
    forall i, j, e | 0 <= i < |runs| && 0 <= j < |runs| && e in runs[i] && e in runs[j] ensures i == j {
      assert i < j ==> ShareNothing(runs[i], runs[j]);
      assert j < i ==> ShareNothing(runs[j], runs[i]);
    }
  }

  lemma MergeHasAll(runs: seq<seq<Entry>>, merged: seq<Entry>)
    requires IsMerge(runs, merged)
    ensures Elements(merged) == RunEntries(runs)
  {
    forall e | e in RunEntries(runs) ensures e in merged {
      var i :| 0 <= i < |runs| && e in runs[i];
      var a :| 0 <= a < |runs[i]| && runs[i][a] == e;
      assert runs[i][a] in merged;
    }
  }

  lemma EntriesDistinct(db: DB)
    requires MemoryInvariant(db)
    ensures Distinct(AllEntries(db))
  {
  }

  /** The children of the internal iterator have a merge. */
  lemma ChildrenMerge(db: DB) returns (merged: seq<Entry>)
    requires Invariant(db)
    ensures IsMerge(Children(db), merged)
  {
    ChildrenSeparate(db);
    EntriesDistinct(db);
    merged := SortedListExists(AllEntries(db));
    SortedIsMerge(Children(db), merged);
  }

  /** Whatever their merge is, it holds the entries of the database and no others. */
  lemma MergeIsDatabase(db: DB, merged: seq<Entry>)
    requires Invariant(db) && IsMerge(Children(db), merged)
    ensures Sorted(merged) && Elements(merged) == AllEntries(db)
  {
    ChildrenSeparate(db);
    MergeHasAll(Children(db), merged);
  }

  // ----- what a scan shows -----

  /** The entries shown are the items of the map, each once, in the order of the keys. */
  ghost predicate ShowsExactly(merged: seq<Entry>, snapshot: nat, view: map<UserKey, Value>) {
    && (forall i: nat :: DbIter.Shown(merged, snapshot, i)
          ==> merged[i].ikey.user in view && view[merged[i].ikey.user] == merged[i].value)
    && (forall user :: user in view ==> exists i: nat :: DbIter.Shown(merged, snapshot, i) && merged[i].ikey.user == user)
    && (forall i: nat, j: nat :: DbIter.Shown(merged, snapshot, i) && DbIter.Shown(merged, snapshot, j) && i < j
          ==> merged[i].ikey.user < merged[j].ikey.user)
  }

  lemma ShownIsView(merged: seq<Entry>, snapshot: nat, view: map<UserKey, Value>)
    requires Sorted(merged) && Distinct(Elements(merged)) && Reads(Elements(merged), snapshot, view)
    ensures ShowsExactly(merged, snapshot, view)
  {
    forall i: nat | DbIter.Shown(merged, snapshot, i)
      ensures merged[i].ikey.user in view && view[merged[i].ikey.user] == merged[i].value
    {
      DbIter.ShownIsFound(merged, snapshot, merged[i].ikey.user);
      assert ReadAt(Elements(merged), merged[i].ikey.user, snapshot) == Lookup(view, merged[i].ikey.user);
    }
    forall user | user in view ensures exists i: nat :: DbIter.Shown(merged, snapshot, i) && merged[i].ikey.user == user {
      DbIter.ShownIsFound(merged, snapshot, user);
      assert ReadAt(Elements(merged), user, snapshot) == Lookup(view, user);
    }
    forall i: nat, j: nat | DbIter.Shown(merged, snapshot, i) && DbIter.Shown(merged, snapshot, j) && i < j
      ensures merged[i].ikey.user < merged[j].ikey.user
    {
      DbIter.ShownInOrder(merged, snapshot, i, j);
    }
  }

  /** A scan of the database shows the map now, and at a live snapshot the map as it was then. */
  lemma ScanIsTheMap(db: DB, spec: Spec, merged: seq<Entry>)
    requires Invariant(db) && Represents(db, spec) && IsMerge(Children(db), merged)
    ensures ShowsExactly(merged, db.lastSequence, spec.view)
    ensures forall i :: 0 <= i < |db.snapshots| ==> ShowsExactly(merged, db.snapshots[i], spec.frozen[i])
  {
    MergeIsDatabase(db, merged);
    EntriesDistinct(db);
    ShownIsView(merged, db.lastSequence, spec.view);
    forall i | 0 <= i < |db.snapshots| ensures ShowsExactly(merged, db.snapshots[i], spec.frozen[i]) {
      ShownIsView(merged, db.snapshots[i], spec.frozen[i]);
    }
  }

  /** The same over every run from an empty database in which every compaction is harmless. */
  lemma EveryScanIsTheMap(steps: seq<Step>, db: DB, merged: seq<Entry>) returns (spec: Spec)
    requires Reaches(INITIAL_DB, steps, db)
    requires |db.version| == NUM_LEVELS && IsMerge(Children(db), merged)
    ensures SpecReaches(INITIAL_SPEC, steps, spec)
    ensures ShowsExactly(merged, db.lastSequence, spec.view) && |spec.frozen| == |db.snapshots|
    ensures forall i :: 0 <= i < |db.snapshots| ==> ShowsExactly(merged, db.snapshots[i], spec.frozen[i])
  {
    spec := EveryRunIsAMap(steps, db);
    ScanIsTheMap(db, spec, merged);
  }
}
