/**
 VersionSet::Builder (db/version_set.cc): applying version edits to a version and saving the
 result, for one edit (LogAndApply) or for a whole descriptor log (Recover).
 */
module VersionBuilder {
  import opened Common
  import opened InternalKeys
  import opened Versions

  /** VersionEdit: the files it deletes (level, number) and the files it adds (level, file). */
  datatype VersionEdit = VersionEdit(deletedFiles: seq<(nat, nat)>, newFiles: seq<(nat, File)>)

  ghost predicate LevelsInRange(edit: VersionEdit) {
    && (forall d :: d in edit.deletedFiles ==> d.0 < NUM_LEVELS)
    && (forall a :: a in edit.newFiles ==> a.0 < NUM_LEVELS)
  }

  /** Builder::LevelState: the numbers deleted and the files added (a set ordered by smallest key). */
  datatype LevelState = LevelState(deleted: set<nat>, added: seq<File>)

  /** Inserting into the ordered set: an equivalent file already there stays. */
  function InsertFile(f: File, files: seq<File>): (r: seq<File>) {
    if files == [] then [f]
    else if BySmallestKey(f, files[0]) then [f] + files
    else if BySmallestKey(files[0], f) then [files[0]] + InsertFile(f, files[1..])
    else files
  }

  // ----- what one edit does to the state of one level -----

  function WithDeleted(deleted: set<nat>, list: seq<(nat, nat)>, level: nat, n: nat): set<nat>
    requires n <= |list|
  {
    if n == 0 then deleted else
      var rest := WithDeleted(deleted, list, level, n - 1);
      if list[n - 1].0 == level then rest + {list[n - 1].1} else rest
  }

  function WithAdded(state: LevelState, list: seq<(nat, File)>, level: nat, n: nat): LevelState
    requires n <= |list|
  {
    if n == 0 then state else
      var rest := WithAdded(state, list, level, n - 1);
      if list[n - 1].0 == level then
        LevelState(rest.deleted - {list[n - 1].1.number}, InsertFile(list[n - 1].1, rest.added))
      else
        rest
  }

  function ApplyToLevel(state: LevelState, edit: VersionEdit, level: nat): LevelState {
    var deleted := WithDeleted(state.deleted, edit.deletedFiles, level, |edit.deletedFiles|);
    WithAdded(state.(deleted := deleted), edit.newFiles, level, |edit.newFiles|)
  }

  // ----- what saving makes of one level -----

  /** std::upper_bound over base[b..]: the first file ordered after `f`. */
  function UpperBound(base: seq<File>, b: nat, f: File): (k: nat)
    requires b <= |base|
    ensures b <= k <= |base|
    ensures forall i :: b <= i < k ==> !BySmallestKey(f, base[i])
    ensures k < |base| ==> BySmallestKey(f, base[k])
    decreases |base| - b
  {
    if b == |base| || BySmallestKey(f, base[b]) then b else UpperBound(base, b + 1, f)
  }

  /** base[b..] and added[a..] merged; of equivalent files the base one comes first. */
  function Merge(base: seq<File>, b: nat, added: seq<File>, a: nat): seq<File>
    requires b <= |base| && a <= |added|
    decreases |added| - a
  {
    if a == |added| then base[b..] else
      var k := UpperBound(base, b, added[a]);
      base[b..k] + ([added[a]] + Merge(base, k, added, a + 1))
  }

  /** The files whose numbers are not deleted. */
  function Survivors(files: seq<File>, deleted: set<nat>): seq<File> {
    if files == [] then []
    else if files[0].number in deleted then Survivors(files[1..], deleted)
    else [files[0]] + Survivors(files[1..], deleted)
  }

  lemma {:induction false} SurvivorsOfConcat(x: seq<File>, y: seq<File>, deleted: set<nat>)
    ensures Survivors(x + y, deleted) == Survivors(x, deleted) + Survivors(y, deleted)
  {
    if x == [] {
      assert x + y == y;
    } else {
      var z := x + y;
      assert z[1..] == x[1..] + y;
      assert z[0] == x[0];
      SurvivorsOfConcat(x[1..], y, deleted);
    }
  }

  lemma MergeStep(base: seq<File>, b: nat, added: seq<File>, a: nat, deleted: set<nat>)
    requires b <= |base| && a < |added|
    ensures var k := UpperBound(base, b, added[a]);
      Survivors(Merge(base, b, added, a), deleted)
        == Survivors(base[b..k], deleted) + Survivors([added[a]], deleted) + Survivors(Merge(base, k, added, a + 1), deleted)
  {
    var k := UpperBound(base, b, added[a]);
    var rest := Merge(base, k, added, a + 1);
    SurvivorsOfConcat(base[b..k], [added[a]] + rest, deleted);
    SurvivorsOfConcat([added[a]], rest, deleted);
  }

  function SaveLevel(base: Level, state: LevelState): Level {
    Survivors(Merge(base, 0, state.added, 0), state.deleted)
  }

  class Builder {
    const base: Version
    const deleted: array<set<nat>>
    const added: array<seq<File>>

    ghost predicate Valid()
      reads this
    {
      |base| == deleted.Length == added.Length == NUM_LEVELS
    }

    ghost function State(level: nat): LevelState
      requires Valid() && level < NUM_LEVELS
      reads this, deleted, added
    {
      LevelState(deleted[level], added[level])
    }

    constructor (base: Version)
      requires |base| == NUM_LEVELS
      ensures Valid() && this.base == base && fresh(deleted) && fresh(added)
      ensures forall l :: 0 <= l < NUM_LEVELS ==> State(l) == LevelState({}, [])
    {
      this.base := base;
      deleted := new set<nat>[NUM_LEVELS](_ => {});
      added := new seq<File>[NUM_LEVELS](_ => []);
    }

    /** Builder::Apply */
    method Apply(edit: VersionEdit)
      requires Valid() && LevelsInRange(edit)
      modifies deleted, added
      ensures forall l :: 0 <= l < NUM_LEVELS ==> State(l) == ApplyToLevel(old(State(l)), edit, l)
    {
      for i := 0 to |edit.deletedFiles|
        invariant forall l :: 0 <= l < NUM_LEVELS ==>
                    deleted[l] == WithDeleted(old(deleted[l]), edit.deletedFiles, l, i) && added[l] == old(added[l])
      {
        var (level, number) := edit.deletedFiles[i];
        assert edit.deletedFiles[i] in edit.deletedFiles;
        deleted[level] := deleted[level] + {number};
      }
      ghost var mid := deleted[..];
      for i := 0 to |edit.newFiles|
        invariant forall l :: 0 <= l < NUM_LEVELS ==>
                    State(l) == WithAdded(LevelState(mid[l], old(added[l])), edit.newFiles, l, i)
      {
        var (level, f) := edit.newFiles[i];
        assert edit.newFiles[i] in edit.newFiles;
        deleted[level] := deleted[level] - {f.number};
        added[level] := InsertFile(f, added[level]);
      }
    }

    /** The body of the loop of Builder::SaveTo for one level. */
    method SaveOneLevel(level: nat) returns (files: Level)
      requires Valid() && level < NUM_LEVELS
      ensures files == SaveLevel(base[level], State(level))
    {
      files := MergeSurvivors(base[level], added[level], deleted[level]);
    }

    method MergeSurvivors(baseFiles: seq<File>, addedFiles: seq<File>, gone: set<nat>) returns (files: Level)
      ensures files == Survivors(Merge(baseFiles, 0, addedFiles, 0), gone)
    {
      files := [];
      var b := 0;
      for a := 0 to |addedFiles|
        invariant 0 <= b <= |baseFiles|
        invariant Survivors(Merge(baseFiles, 0, addedFiles, 0), gone)
               == files + Survivors(Merge(baseFiles, b, addedFiles, a), gone)
      {
        b, files := MergeOne(files, baseFiles, b, addedFiles, a, gone);
      }
      assert baseFiles[b..|baseFiles|] == baseFiles[b..];
      files := AddBaseFiles(files, baseFiles, b, |baseFiles|, gone);
    }

    /** One added file, and the base files that come before it. */
    method MergeOne(files: Level, base: seq<File>, b: nat, added: seq<File>, a: nat, gone: set<nat>)
      returns (k: nat, r: Level)
      requires b <= |base| && a < |added|
      ensures b <= k <= |base|
      ensures files + Survivors(Merge(base, b, added, a), gone) == r + Survivors(Merge(base, k, added, a + 1), gone)
    {
      k := UpperBound(base, b, added[a]);
      MergeStep(base, b, added, a, gone);
      var before := AddBaseFiles(files, base, b, k, gone);
      r := MaybeAddFile(before, added[a], gone);
    }

    /** The loops of SaveTo over base_iter. */
    method AddBaseFiles(files: Level, base: seq<File>, b: nat, k: nat, gone: set<nat>) returns (r: Level)
      requires b <= k <= |base|
      ensures r == files + Survivors(base[b..k], gone)
    {
      r := files;
      for i := b to k
        invariant r == files + Survivors(base[b..i], gone)
      {
        r := MaybeAddFile(r, base[i], gone);
        assert base[b..i + 1] == base[b..i] + [base[i]];
        SurvivorsOfConcat(base[b..i], [base[i]], gone);
      }
    }

    /** Builder::MaybeAddFile */
    method MaybeAddFile(files: Level, f: File, gone: set<nat>) returns (r: Level)
      ensures r == files + Survivors([f], gone)
    {
      r := if f.number in gone then files else files + [f];
    }

    /** Builder::SaveTo */
    method SaveTo() returns (v: Version)
      requires Valid()
      ensures |v| == NUM_LEVELS
      ensures forall l :: 0 <= l < NUM_LEVELS ==> v[l] == SaveLevel(base[l], State(l))
    {
      v := [];
      for l := 0 to NUM_LEVELS
        invariant |v| == l
        invariant forall k :: 0 <= k < l ==> v[k] == SaveLevel(base[k], State(k))
      {
        var files := SaveOneLevel(l);
        v := v + [files];
      }
    }
  }

  // ----- saving, as a set of files in order -----

  /** A file is known by its number. */
  ghost predicate NumberedOnce(files: set<File>) {
    forall f, g :: f in files && g in files && f.number == g.number ==> f == g
  }

  ghost function FileSet(files: seq<File>): set<File> {
    set f | f in files
  }

  lemma {:induction false} OrderedListsAgree(a: seq<File>, b: seq<File>)
    requires Ordered(a) && Ordered(b) && FileSet(a) == FileSet(b)
    ensures a == b
  {
    if a == [] {
      assert forall i :: 0 <= i < |b| ==> b[i] in FileSet(b);
    } else {
      assert a[0] in FileSet(b) && b != [] && b[0] in FileSet(a);
      var i :| 0 <= i < |b| && b[i] == a[0];
      var j :| 0 <= j < |a| && a[j] == b[0];
      assert a[0] == b[0];
      forall f ensures f in a[1..] <==> f in b[1..] {
        assert f in FileSet(a) <==> f in FileSet(b);
      }
      OrderedListsAgree(a[1..], b[1..]);
    }
  }

  lemma {:induction false} SurvivorsInOrder(files: seq<File>, deleted: set<nat>)
    ensures forall f :: f in Survivors(files, deleted) <==> f in files && f.number !in deleted
    ensures Ordered(files) ==> Ordered(Survivors(files, deleted))
  {
    if files != [] {
      SurvivorsInOrder(files[1..], deleted);
      var rest := Survivors(files[1..], deleted);
      if Ordered(files) {
        forall i | 0 <= i < |rest| ensures BySmallestKey(files[0], rest[i]) {
          assert rest[i] in files[1..];
        }
      }
    }
  }

  lemma {:induction false} MergeMembers(base: seq<File>, b: nat, added: seq<File>, a: nat)
    requires b <= |base| && a <= |added|
    ensures forall f :: f in Merge(base, b, added, a) <==> f in base[b..] || f in added[a..]
    decreases |added| - a
  {
    if a != |added| {
      var k := UpperBound(base, b, added[a]);
      MergeMembers(base, k, added, a + 1);
      assert base[b..] == base[b..k] + base[k..];
      assert added[a..] == [added[a]] + added[a + 1..];
    }
  }

  lemma TailIsLater(files: seq<File>, k: nat, f: File)
    requires k <= |files| && Ordered(files) && (k < |files| ==> BySmallestKey(f, files[k]))
    ensures forall g :: g in files[k..] ==> BySmallestKey(f, g)
  {
    forall i | k <= i < |files| ensures BySmallestKey(f, files[i]) {
      assert k < i ==> BySmallestKey(files[k], files[i]);
    }
  }

  lemma RestIsLater(base: seq<File>, k: nat, added: seq<File>, a: nat)
    requires k <= |base| && a < |added| && Ordered(base) && Ordered(added)
    requires k < |base| ==> BySmallestKey(added[a], base[k])
    ensures forall g :: g in Merge(base, k, added, a + 1) ==> BySmallestKey(added[a], g)
  {
    TailIsLater(base, k, added[a]);
    TailIsLater(added, a + 1, added[a]);
    MergeMembers(base, k, added, a + 1);
  }

  /** A number stands for one file among those added, and for the same one in the base. */
  ghost predicate SameByNumber(base: set<File>, added: set<File>) {
    NumberedOnce(added) && forall f, g :: f in base && g in added && f.number == g.number ==> f == g
  }

  /** No file of both lists survives. */
  ghost predicate SurviveOnce(base: seq<File>, added: seq<File>, deleted: set<nat>) {
    forall f :: f in base && f in added ==> f.number in deleted
  }

  /** A file that is not after `f`, and is not `f` where that survives, comes before what follows. */
  lemma {:induction false} SurvivorsConcat(x: seq<File>, f: File, y: seq<File>, deleted: set<nat>)
    requires Ordered(x) && Ordered(Survivors(y, deleted))
    requires forall g :: g in x ==> !BySmallestKey(f, g) && (g.number == f.number ==> f.number in deleted)
    requires forall g :: g in y ==> BySmallestKey(f, g)
    ensures Ordered(Survivors(x, deleted) + Survivors([f], deleted) + Survivors(y, deleted))
  {
    var u, v := Survivors(x, deleted), Survivors(y, deleted);
    SurvivorsInOrder(x, deleted);
    SurvivorsInOrder(y, deleted);
    forall i | 0 <= i < |u| ensures u[i] in x { assert u[i] in u; }
    forall i | 0 <= i < |v| ensures v[i] in y { assert v[i] in v; }
    if f.number in deleted {
      assert Survivors([f], deleted) == [];
      forall i, j | 0 <= i < |u| && 0 <= j < |v| ensures BySmallestKey(u[i], v[j]) {
        assert BySmallestKey(f, v[j]) && !BySmallestKey(f, u[i]);
      }
      assert u + [] + v == u + v;
    } else {
      assert Survivors([f], deleted) == [f];
      OrderedConcat(u, f, v);
      assert u + [f] + v == u + ([f] + v);
    }
  }

  lemma OrderedConcat(x: seq<File>, f: File, y: seq<File>)
    requires Ordered(x) && Ordered(y)
    requires forall i :: 0 <= i < |x| ==> BySmallestKey(x[i], f)
    requires forall g :: g in y ==> BySmallestKey(f, g)
    ensures Ordered(x + ([f] + y))
  {
    var z := x + ([f] + y);
    forall i, j | 0 <= i < j < |z| ensures BySmallestKey(z[i], z[j]) {
      assert j > |x| ==> z[j] == y[j - |x| - 1] && z[j] in y;
      assert i > |x| ==> z[i] == y[i - |x| - 1];
    }
  }

  lemma {:induction false} MergeInOrder(base: seq<File>, b: nat, added: seq<File>, a: nat, deleted: set<nat>)
    requires b <= |base| && a <= |added| && Ordered(base) && Ordered(added)
    requires SameByNumber(FileSet(base), FileSet(added)) && SurviveOnce(base, added, deleted)
    ensures Ordered(Survivors(Merge(base, b, added, a), deleted))
    decreases |added| - a
  {
    if a == |added| {
      SurvivorsInOrder(base[b..], deleted);
    } else {
      var f := added[a];
      var k := UpperBound(base, b, f);
      MergeInOrder(base, k, added, a + 1, deleted);
      RestIsLater(base, k, added, a);
      forall g | g in base[b..k] ensures !BySmallestKey(f, g) && (g.number == f.number ==> f.number in deleted) {
        assert g in FileSet(base) && f in FileSet(added);
      }
      SurvivorsConcat(base[b..k], f, Merge(base, k, added, a + 1), deleted);
      MergeStep(base, b, added, a, deleted);
    }
  }

  lemma TwiceNotInOrder(x: seq<File>, y: seq<File>, f: File)
    requires f in x && f in y
    ensures !Ordered(x + y)
  {
    var z := x + y;
    var i :| 0 <= i < |x| && x[i] == f;
    var j :| 0 <= j < |y| && y[j] == f;
    assert z[i] == f && z[|x| + j] == f;
  }

  lemma TailNotInOrder(x: seq<File>, y: seq<File>)
    requires !Ordered(y)
    ensures !Ordered(x + y)
  {
    var z := x + y;
    var i, j :| 0 <= i < j < |y| && !BySmallestKey(y[i], y[j]);
    assert z[|x| + i] == y[i] && z[|x| + j] == y[j];
  }

  lemma PiecesNotInOrder(x: seq<File>, y: seq<File>, z: seq<File>, f: File)
    requires (f in x && (f in y || f in z)) || !Ordered(z)
    ensures !Ordered(x + y + z)
  {
    if !Ordered(z) {
      TailNotInOrder(x + y, z);
    } else {
      TwiceNotInOrder(x, y + z, f);
      assert x + y + z == x + (y + z);
    }
  }

  lemma WhereInBase(base: seq<File>, b: nat, k: nat, f: File)
    requires b <= k <= |base| && f in base[b..]
    ensures f in base[b..k] || f in base[k..]
  {
    var i :| 0 <= i < |base[b..]| && base[b..][i] == f;
    assert b + i < k ==> base[b..k][i] == f;
    assert b + i >= k ==> base[k..][b + i - k] == f;
  }

  lemma {:induction false} ListedTwice(base: seq<File>, b: nat, added: seq<File>, a: nat, deleted: set<nat>, f: File)
    requires b <= |base| && a <= |added| && Ordered(base)
    requires f in base[b..] && f in added[a..] && f.number !in deleted
    ensures !Ordered(Survivors(Merge(base, b, added, a), deleted))
    decreases |added| - a
  {
    var k, g := UpperBound(base, b, added[a]), added[a];
    WhereInBase(base, b, k, f);
    SurvivorsInOrder(base[b..k], deleted);
    SurvivorsInOrder([g], deleted);
    SurvivorsInOrder(Merge(base, k, added, a + 1), deleted);
    if g == f {
      TailIsLater(base, k, f);
    } else {
      assert f in added[a + 1..];
      if f in base[b..k] {
        MergeMembers(base, k, added, a + 1);
      } else {
        ListedTwice(base, k, added, a + 1, deleted, f);
      }
    }
    PiecesNotInOrder(Survivors(base[b..k], deleted), Survivors([g], deleted),
                     Survivors(Merge(base, k, added, a + 1), deleted), f);
    MergeStep(base, b, added, a, deleted);
  }

  /** Saving keeps exactly the base and added files whose numbers are not deleted. They are in order,
      each listed once, exactly when no added file that stays was in the base already. */
  lemma SaveLevelIs(base: Level, state: LevelState)
    requires Ordered(base) && Ordered(state.added) && SameByNumber(FileSet(base), FileSet(state.added))
    ensures forall f :: f in SaveLevel(base, state) <==> (f in base || f in state.added) && f.number !in state.deleted
    ensures Ordered(SaveLevel(base, state)) <==> SurviveOnce(base, state.added, state.deleted)
  {
    MergeMembers(base, 0, state.added, 0);
    SurvivorsInOrder(Merge(base, 0, state.added, 0), state.deleted);
    if SurviveOnce(base, state.added, state.deleted) {
      MergeInOrder(base, 0, state.added, 0, state.deleted);
    } else {
      var f :| f in base && f in state.added && f.number !in state.deleted;
      ListedTwice(base, 0, state.added, 0, state.deleted, f);
    }
  }

  // ----- applying edits -----

  ghost function DeletedNumbers(list: seq<(nat, nat)>, level: nat): set<nat> {
    set d | d in list && d.0 == level :: d.1
  }

  ghost function AddedFiles(list: seq<(nat, File)>, level: nat): set<File> {
    set a | a in list && a.0 == level :: a.1
  }

  ghost function Numbers(files: set<File>): set<nat> {
    set f | f in files :: f.number
  }

  lemma {:induction false} WithDeletedIs(deleted: set<nat>, list: seq<(nat, nat)>, level: nat, n: nat)
    requires n <= |list|
    ensures WithDeleted(deleted, list, level, n) == deleted + DeletedNumbers(list[..n], level)
  {
    if n != 0 {
      WithDeletedIs(deleted, list, level, n - 1);
      assert list[..n] == list[..n - 1] + [list[n - 1]];
      assert forall d :: d in list[..n] <==> d in list[..n - 1] || d == list[n - 1];
    }
  }

  ghost predicate AllAfter(f: File, files: set<File>) {
    forall g :: g in files ==> BySmallestKey(f, g)
  }

  lemma FirstThenRest(first: File, rest: seq<File>)
    requires Ordered(rest) && AllAfter(first, FileSet(rest))
    ensures Ordered([first] + rest) && FileSet([first] + rest) == {first} + FileSet(rest)
  {
    forall i | 0 <= i < |rest| ensures BySmallestKey(first, rest[i]) {
      assert rest[i] in FileSet(rest);
    }
    assert forall g :: g in [first] + rest <==> g == first || g in FileSet(rest);
  }

  lemma FirstOfOrdered(files: seq<File>)
    requires Ordered(files) && files != []
    ensures Ordered(files[1..]) && AllAfter(files[0], FileSet(files[1..]))
    ensures FileSet(files) == {files[0]} + FileSet(files[1..])
  {
    assert files == [files[0]] + files[1..];
    FirstThenRest(files[0], files[1..]);
  }

  lemma BeforeTheFirst(f: File, first: File, rest: set<File>)
    requires BySmallestKey(f, first) && AllAfter(first, rest)
    ensures AllAfter(f, {first} + rest)
  {
  }

  /** Inserting a file that is there already changes nothing. */
  lemma {:induction false} InsertFileIs(f: File, files: seq<File>)
    requires Ordered(files) && forall g :: g in FileSet(files) && g.number == f.number ==> g == f
    ensures Ordered(InsertFile(f, files)) && FileSet(InsertFile(f, files)) == FileSet(files) + {f}
  {
    if files == [] {
      assert FileSet([f]) == {f};
    } else {
      var first, rest := files[0], files[1..];
      FirstOfOrdered(files);
      if BySmallestKey(f, first) {
        BeforeTheFirst(f, first, FileSet(rest));
        FirstThenRest(f, files);
      } else if BySmallestKey(first, f) {
        InsertFileIs(f, rest);
        FirstThenRest(first, InsertFile(f, rest));
      }
    }
  }

  lemma {:induction false} WithAddedIs(state: LevelState, list: seq<(nat, File)>, level: nat, n: nat)
    requires n <= |list| && Ordered(state.added) && NumberedOnce(FileSet(state.added) + AddedFiles(list, level))
    ensures var r := WithAdded(state, list, level, n);
      var more := AddedFiles(list[..n], level);
      Ordered(r.added) && FileSet(r.added) == FileSet(state.added) + more && r.deleted == state.deleted - Numbers(more)
  {
    assert AddedFiles(list[..0], level) == {};
    if n != 0 {
      WithAddedIs(state, list, level, n - 1);
      var rest := WithAdded(state, list, level, n - 1);
      var before, more := AddedFiles(list[..n - 1], level), AddedFiles(list[..n], level);
      assert forall a :: a in list[..n] <==> a in list[..n - 1] || a == list[n - 1];
      if list[n - 1].0 == level {
        var f := list[n - 1].1;
        assert list[n - 1] in list && f in AddedFiles(list, level);
        assert before <= AddedFiles(list, level);
        InsertFileIs(f, rest.added);
        assert more == before + {f};
        assert Numbers(more) == Numbers(before) + {f.number};
      } else {
        assert more == before;
      }
    }
  }

  /** What one edit does to a level's state: added files are no longer deleted. */
  lemma ApplyToLevelIs(state: LevelState, edit: VersionEdit, level: nat)
    requires Ordered(state.added) && NumberedOnce(FileSet(state.added) + AddedFiles(edit.newFiles, level))
    ensures var r := ApplyToLevel(state, edit, level);
      var more := AddedFiles(edit.newFiles, level);
      && Ordered(r.added) && FileSet(r.added) == FileSet(state.added) + more
      && r.deleted == state.deleted + DeletedNumbers(edit.deletedFiles, level) - Numbers(more)
  {
    var n, m := |edit.deletedFiles|, |edit.newFiles|;
    WithDeletedIs(state.deleted, edit.deletedFiles, level, n);
    var deleted := WithDeleted(state.deleted, edit.deletedFiles, level, n);
    WithAddedIs(state.(deleted := deleted), edit.newFiles, level, m);
    assert edit.deletedFiles[..n] == edit.deletedFiles && edit.newFiles[..m] == edit.newFiles;
  }

  // ----- one builder for many edits -----

  const EMPTY := LevelState({}, [])

  /** The state of a level after applying the edits to one builder, one after the other. */
  function ApplyAll(edits: seq<VersionEdit>, level: nat): LevelState {
    if edits == [] then EMPTY else
      ApplyToLevel(ApplyAll(edits[..|edits| - 1], level), edits[|edits| - 1], level)
  }

  /** LogAndApply for each edit in turn: a new builder, one edit, one save. */
  function SaveEach(base: Level, edits: seq<VersionEdit>, level: nat): Level {
    if edits == [] then base else
      SaveLevel(SaveEach(base, edits[..|edits| - 1], level), ApplyToLevel(EMPTY, edits[|edits| - 1], level))
  }

  /** Every file that the edits add at a level. */
  ghost function AllAdded(edits: seq<VersionEdit>, level: nat): set<File> {
    if edits == [] then {} else
      AllAdded(edits[..|edits| - 1], level) + AddedFiles(edits[|edits| - 1].newFiles, level)
  }

  /** The edit adds a number that the list already has. */
  ghost predicate AddsListed(files: Level, edit: VersionEdit, level: nat) {
    exists f, g :: f in files && g in AddedFiles(edit.newFiles, level) && f.number == g.number
  }

  /** The added files are known by their numbers, and none has a number of the base. */
  ghost predicate Apart(base: Level, added: set<File>) {
    NumberedOnce(added) && forall f, g :: f in base && g in added ==> f.number != g.number
  }

  lemma SavedIs(base: Level, state: LevelState)
    requires Ordered(base) && Ordered(state.added) && Apart(base, FileSet(state.added))
    ensures var saved := SaveLevel(base, state);
      Ordered(saved) && forall f :: f in saved <==> (f in base || f in FileSet(state.added)) && f.number !in state.deleted
  {
    assert forall f :: f in FileSet(state.added) <==> f in state.added;
    SaveLevelIs(base, state);
  }

  /** One edit, saved: the list has each file once exactly when the edit adds none that is listed. */
  lemma EditOnListIs(saved: Level, edit: VersionEdit, level: nat)
    requires Ordered(saved) && SameByNumber(FileSet(saved), AddedFiles(edit.newFiles, level))
    ensures var r := SaveLevel(saved, ApplyToLevel(EMPTY, edit, level));
      var more := AddedFiles(edit.newFiles, level);
      && (Ordered(r) <==> !AddsListed(saved, edit, level))
      && forall f :: f in r
           <==> (f in saved || f in more) && f.number !in DeletedNumbers(edit.deletedFiles, level) - Numbers(more)
  {
    var more := AddedFiles(edit.newFiles, level);
    var alone := ApplyToLevel(EMPTY, edit, level);
    assert FileSet([]) == {} && {} + more == more;
    ApplyToLevelIs(EMPTY, edit, level);
    assert FileSet(alone.added) == more;
    assert forall f :: f in alone.added <==> f in FileSet(alone.added);
    SaveLevelIs(saved, alone);
    if AddsListed(saved, edit, level) {
      var f, g :| f in saved && g in more && f.number == g.number;
      assert f in FileSet(saved) && f == g && f.number in Numbers(more);
      assert !SurviveOnce(saved, alone.added, alone.deleted);
    }
  }

  /** Applying one more edit to the builder gives what saving and then applying it gives, if and
      only if it adds no number that is listed at that moment. */
  lemma SaveThenEdit(base: Level, state: LevelState, edit: VersionEdit, level: nat)
    requires Ordered(base) && Ordered(state.added)
    requires Apart(base, FileSet(state.added) + AddedFiles(edit.newFiles, level))
    ensures var saved := SaveLevel(base, state);
      (SaveLevel(base, ApplyToLevel(state, edit, level)) == SaveLevel(saved, ApplyToLevel(EMPTY, edit, level)))
      <==> !AddsListed(saved, edit, level)
  {
    var more := AddedFiles(edit.newFiles, level);
    var all := FileSet(state.added) + more;
    var saved, next := SaveLevel(base, state), ApplyToLevel(state, edit, level);
    var stepwise := SaveLevel(saved, ApplyToLevel(EMPTY, edit, level));
    SavedIs(base, state);
    ApplyToLevelIs(state, edit, level);
    SavedIs(base, next);
    EditOnListIs(saved, edit, level);
    if !AddsListed(saved, edit, level) {
      forall f ensures f in SaveLevel(base, next) <==> f in stepwise {
        SameSurvivors(base, state, edit, level, f);
      }
      OrderedListsAgree(SaveLevel(base, next), stepwise);
    }
  }

  /** Membership on both sides of SaveThenEdit. */
  lemma SameSurvivors(base: Level, state: LevelState, edit: VersionEdit, level: nat, f: File)
    requires Apart(base, FileSet(state.added) + AddedFiles(edit.newFiles, level))
    ensures var more := AddedFiles(edit.newFiles, level);
      var gone := DeletedNumbers(edit.deletedFiles, level);
      (f in base || f in FileSet(state.added) || f in more) && f.number !in state.deleted + gone - Numbers(more)
      <==> (((f in base || f in FileSet(state.added)) && f.number !in state.deleted) || f in more)
           && f.number !in gone - Numbers(more)
  {
    var more := AddedFiles(edit.newFiles, level);
    if f.number in Numbers(more) && (f in base || f in FileSet(state.added)) {
      var g :| g in more && g.number == f.number;
      assert f == g;
    }
    assert f in more ==> f.number in Numbers(more);
  }

  lemma {:induction false} ApplyAllIs(edits: seq<VersionEdit>, level: nat)
    requires NumberedOnce(AllAdded(edits, level))
    ensures var r := ApplyAll(edits, level); Ordered(r.added) && FileSet(r.added) == AllAdded(edits, level)
  {
    if edits != [] {
      var init := edits[..|edits| - 1];
      ApplyAllIs(init, level);
      ApplyToLevelIs(ApplyAll(init, level), edits[|edits| - 1], level);
    } else {
      assert FileSet([]) == {};
    }
  }

  /** One save at the end gives what a save after each edit gives. */
  ghost predicate Agree(base: Level, edits: seq<VersionEdit>, level: nat) {
    SaveLevel(base, ApplyAll(edits, level)) == SaveEach(base, edits, level)
  }

  lemma {:induction false} AddedByPrefix(edits: seq<VersionEdit>, n: nat, level: nat)
    requires n <= |edits|
    ensures AllAdded(edits[..n], level) <= AllAdded(edits, level)
    decreases |edits|
  {
    if n == |edits| {
      assert edits[..n] == edits;
    } else {
      var init := edits[..|edits| - 1];
      assert init[..n] == edits[..n];
      AddedByPrefix(init, n, level);
    }
  }

  /** Where the two agree, they still do after the next edit if and only if it adds no listed number. */
  lemma AgreeOnce(base: Level, edits: seq<VersionEdit>, n: nat, level: nat)
    requires n < |edits| && Ordered(base) && Apart(base, AllAdded(edits, level)) && Agree(base, edits[..n], level)
    ensures Agree(base, edits[..n + 1], level) <==> !AddsListed(SaveEach(base, edits[..n], level), edits[n], level)
  {
    var init, more := edits[..n], edits[..n + 1];
    assert more[..n] == init && more[n] == edits[n];
    AddedByPrefix(edits, n + 1, level);
    AddedByPrefix(more, n, level);
    ApplyAllIs(init, level);
    SaveThenEdit(base, ApplyAll(init, level), edits[n], level);
  }

  lemma {:induction false} AgreeWhile(base: Level, edits: seq<VersionEdit>, n: nat, level: nat)
    requires n <= |edits| && Ordered(base) && Apart(base, AllAdded(edits, level))
    requires forall m :: 0 <= m < n ==> !AddsListed(SaveEach(base, edits[..m], level), edits[m], level)
    ensures Agree(base, edits[..n], level)
  {
    if n == 0 {
      assert edits[..0] == [];
      assert SaveLevel(base, EMPTY) == base by {
        SurvivorsOfAll(base);
        assert base[0..] == base;
      }
    } else {
      AgreeWhile(base, edits, n - 1, level);
      AgreeOnce(base, edits, n - 1, level);
    }
  }

  lemma {:induction false} SurvivorsOfAll(files: seq<File>)
    ensures Survivors(files, {}) == files
  {
    if files != [] {
      SurvivorsOfAll(files[1..]);
      assert files == [files[0]] + files[1..];
    }
  }

  /** Over a base that no edit adds to again: one save gives what saving after each edit gives, for
      every prefix of the edits, if and only if no edit adds a number that is listed just before it. */
  lemma ReplayOverBase(base: Level, edits: seq<VersionEdit>, level: nat)
    requires Ordered(base) && Apart(base, AllAdded(edits, level))
    ensures (forall n :: 0 <= n <= |edits| ==> Agree(base, edits[..n], level))
       <==> (forall n :: 0 <= n < |edits| ==> !AddsListed(SaveEach(base, edits[..n], level), edits[n], level))
  {
    if forall n :: 0 <= n <= |edits| ==> Agree(base, edits[..n], level) {
      forall n | 0 <= n < |edits| ensures !AddsListed(SaveEach(base, edits[..n], level), edits[n], level) {
        AgreeOnce(base, edits, n, level);
      }
    }
    if forall n :: 0 <= n < |edits| ==> !AddsListed(SaveEach(base, edits[..n], level), edits[n], level) {
      forall n | 0 <= n <= |edits| ensures Agree(base, edits[..n], level) {
        AgreeWhile(base, edits, n, level);
      }
    }
  }

  /** Recover replays a whole descriptor log into one builder over an empty version. What it saves is
      what LogAndApply saved after each of the edits, at every moment, if and only if no edit ever
      added a number that was listed just before it. A number that is gone may come back. */
  lemma ReplayIsStepwise(edits: seq<VersionEdit>, level: nat)
    requires NumberedOnce(AllAdded(edits, level))
    ensures (forall n :: 0 <= n <= |edits| ==> Agree([], edits[..n], level))
       <==> (forall n :: 0 <= n < |edits| ==> !AddsListed(SaveEach([], edits[..n], level), edits[n], level))
  {
    ReplayOverBase([], edits, level);
  }

  lemma AddOneFile(state: LevelState, f: File, level: nat)
    requires state.added == [] || state.added == [f]
    ensures ApplyToLevel(state, VersionEdit([], [(level, f)]), level) == LevelState(state.deleted - {f.number}, [f])
  {
    var edit := VersionEdit([], [(level, f)]);
    assert WithAdded(state, edit.newFiles, level, 0) == state;
    assert InsertFile(f, state.added) == [f];
  }

  /** A file added while it is listed: saved after each edit it is listed twice, replayed it is
      listed once. */
  lemma AddingTwice(f: File, level: nat)
    ensures var add := VersionEdit([], [(level, f)]);
      && SaveEach([], [add, add], level) == [f, f]
      && SaveLevel([], ApplyAll([add, add], level)) == [f]
  {
    var add := VersionEdit([], [(level, f)]);
    var edits := [add, add];
    AddOneFile(EMPTY, f, level);
    AddOneFile(LevelState({}, [f]), f, level);
    assert edits[..1] == [add] && [add][..0] == [] && [f][1..] == [] && [f][0..] == [f] && [f, f][1..] == [f];
    assert ApplyAll([], level) == EMPTY && {} - {f.number} == {};
    assert ApplyAll([add], level) == LevelState({}, [f]) && ApplyAll(edits, level) == LevelState({}, [f]);
    assert UpperBound([], 0, f) == 0 && Merge([], 0, [f], 1) == [] && Merge([], 0, [f], 0) == [f];
    SurvivorsOfAll([f]);
    assert SaveEach([], [], level) == [] && SaveEach([], [add], level) == [f];
    assert UpperBound([f], 0, f) == 1 && Merge([f], 1, [f], 1) == [] && Merge([f], 0, [f], 0) == [f, f];
    SurvivorsOfAll([f, f]);
  }

  function Tagged(files: Level, level: nat): seq<(nat, File)> {
    seq(|files|, i requires 0 <= i < |files| => (level, files[i]))
  }

  /** VersionSet::WriteSnapshot: one edit that adds every file of the first `n` levels. */
  function SnapshotFiles(v: Version, n: nat): seq<(nat, File)>
    requires n <= |v|
  {
    if n == 0 then [] else SnapshotFiles(v, n - 1) + Tagged(v[n - 1], n - 1)
  }

  ghost predicate DistinctNumbers(files: Level) {
    forall i, j :: 0 <= i < j < |files| ==> files[i].number != files[j].number
  }

  lemma {:induction false} SnapshotFilesAt(v: Version, n: nat, level: nat)
    requires n <= |v| && level < |v| && DistinctNumbers(v[level])
    ensures AddedFiles(SnapshotFiles(v, n), level) == if level < n then FileSet(v[level]) else {}
    ensures n <= level ==> forall a :: a in SnapshotFiles(v, n) ==> a.0 != level
  {
    if n != 0 {
      SnapshotFilesAt(v, n - 1, level);
      var init, tail := SnapshotFiles(v, n - 1), Tagged(v[n - 1], n - 1);
      var list := init + tail;
      if level == n - 1 {
        forall f ensures f in AddedFiles(list, level) <==> f in v[level] {
          if f in v[level] {
            var i :| 0 <= i < |v[level]| && v[level][i] == f;
            assert list[|init| + i] == (level, f);
          }
        }
      } else {
        assert forall a :: a in list && a.0 == level <==> a in init && a.0 == level;
      }
    }
  }

  /** Replaying the snapshot record into an empty version rebuilds every level exactly. */
  lemma SnapshotRebuilds(v: Version, level: nat)
    requires level < |v| && Ordered(v[level]) && DistinctNumbers(v[level])
    ensures var edit := VersionEdit([], SnapshotFiles(v, |v|));
      SaveLevel([], ApplyToLevel(EMPTY, edit, level)) == v[level]
  {
    var edit := VersionEdit([], SnapshotFiles(v, |v|));
    SnapshotFilesAt(v, |v|, level);
    assert FileSet([]) == {} && DeletedNumbers([], level) == {};
    assert SaveLevel([], EMPTY) == [] by {
      SurvivorsOfAll([]);
    }
    EditOnListIs([], edit, level);
    OrderedListsAgree(SaveLevel([], ApplyToLevel(EMPTY, edit, level)), v[level]);
  }

  lemma {:induction false} SaveEachAfter(first: VersionEdit, edits: seq<VersionEdit>, level: nat)
    ensures SaveEach([], [first] + edits, level) == SaveEach(SaveLevel([], ApplyToLevel(EMPTY, first, level)), edits, level)
    ensures AllAdded([first] + edits, level) == AddedFiles(first.newFiles, level) + AllAdded(edits, level)
  {
    var all := [first] + edits;
    if edits == [] {
      assert all[..0] == [];
      assert SaveEach([], [], level) == [] && AllAdded([], level) == {};
    } else {
      var init := edits[..|edits| - 1];
      assert all[..|all| - 1] == [first] + init;
      SaveEachAfter(first, init, level);
    }
  }

  /** What holds of the edits since a snapshot record holds of the log that begins with it. */
  lemma AfterSnapshot(first: VersionEdit, files: Level, edits: seq<VersionEdit>, level: nat)
    requires SaveLevel([], ApplyToLevel(EMPTY, first, level)) == files
    requires forall n :: 0 <= n < |edits| ==> !AddsListed(SaveEach(files, edits[..n], level), edits[n], level)
    ensures var log := [first] + edits;
      forall m :: 0 <= m < |log| ==> !AddsListed(SaveEach([], log[..m], level), log[m], level)
  {
    var log := [first] + edits;
    forall m | 0 <= m < |log| ensures !AddsListed(SaveEach([], log[..m], level), log[m], level) {
      if m == 0 {
        assert log[..0] == [] && SaveEach([], [], level) == [];
      } else {
        assert log[..m] == [first] + edits[..m - 1] && log[m] == edits[m - 1];
        SaveEachAfter(first, edits[..m - 1], level);
      }
    }
  }

  /** A manifest: a snapshot of a version and the edits since then. Where no edit adds a listed
      number, Recover rebuilds the level that LogAndApply had made, edit by edit. */
  lemma ManifestRebuilds(v: Version, edits: seq<VersionEdit>, level: nat)
    requires level < |v| && Ordered(v[level]) && DistinctNumbers(v[level])
    requires NumberedOnce(FileSet(v[level]) + AllAdded(edits, level))
    requires forall n :: 0 <= n < |edits| ==> !AddsListed(SaveEach(v[level], edits[..n], level), edits[n], level)
    ensures var log := [VersionEdit([], SnapshotFiles(v, |v|))] + edits;
      SaveLevel([], ApplyAll(log, level)) == SaveEach(v[level], edits, level)
  {
    var first := VersionEdit([], SnapshotFiles(v, |v|));
    var log := [first] + edits;
    SnapshotFilesAt(v, |v|, level);
    SnapshotRebuilds(v, level);
    SaveEachAfter(first, edits, level);
    AfterSnapshot(first, v[level], edits, level);
    ReplayedWhole(log, level);
  }

  lemma ReplayedWhole(log: seq<VersionEdit>, level: nat)
    requires NumberedOnce(AllAdded(log, level))
    requires forall m :: 0 <= m < |log| ==> !AddsListed(SaveEach([], log[..m], level), log[m], level)
    ensures Agree([], log, level)
  {
    AgreeWhile([], log, |log|, level);
    assert log[..|log|] == log;
  }
}
