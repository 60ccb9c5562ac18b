/**
 Internal keys and sorted runs (db/dbformat.h, db/dbformat.cc, db/memtable.cc).

 Every write becomes an entry tagged with a user key, a sequence number and a kind.
 A memtable and a table file are both strictly sorted runs of entries.
 */
module InternalKeys {
  import opened Common

  /** A user key, given by its rank in the user comparator's total order. The core never
      looks inside a user key: it only asks the comparator how two keys are ordered. */
  type UserKey = int

  type Value = string

  /** kTypeDeletion (0) and kTypeValue (1). */
  datatype Kind = Deletion | Put

  datatype IKey = IKey(user: UserKey, seqno: nat, kind: Kind) {
    /** PackSequenceAndType */
    function Tag(): nat {
      seqno * 256 + if kind.Put? then 1 else 0
    }
  }

  /** InternalKeyComparator::Compare(a, b) < 0: user keys ascending, then tags descending. */
  predicate Less(a: IKey, b: IKey) {
    a.user < b.user || (a.user == b.user && a.Tag() > b.Tag())
  }

  /** The key that a lookup of `user` at sequence number `seqno` seeks to (kValueTypeForSeek). */
  function SeekKey(user: UserKey, seqno: nat): IKey {
    IKey(user, seqno, Put)
  }

  datatype Entry = Entry(ikey: IKey, value: Value)

  ghost predicate Sorted(run: seq<Entry>) {
    forall i, j :: 0 <= i < j < |run| ==> Less(run[i].ikey, run[j].ikey)
  }

  ghost function Elements(run: seq<Entry>): set<Entry> {
    set e | e in run
  }

  /** What a reader sees. */
  datatype GetResult = Found(value: Value) | NotFound

  function Outcome(e: Entry): GetResult {
    if e.ikey.kind.Put? then Found(e.value) else NotFound
  }

  // ----- the meaning of a read: the newest entry at or below the snapshot -----

  predicate Visible(e: Entry, user: UserKey, snapshot: nat) {
    e.ikey.user == user && e.ikey.seqno <= snapshot
  }

  /** No user key has two entries with the same sequence number. */
  ghost predicate Distinct(entries: set<Entry>) {
    forall x, y :: x in entries && y in entries && x.ikey.user == y.ikey.user && x.ikey.seqno == y.ikey.seqno
                   ==> x == y
  }

  ghost predicate IsNewest(entries: set<Entry>, user: UserKey, snapshot: nat, e: Entry) {
    && e in entries
    && Visible(e, user, snapshot)
    && forall x :: x in entries && Visible(x, user, snapshot) ==> x.ikey.seqno <= e.ikey.seqno
  }

  ghost function ReadAt(entries: set<Entry>, user: UserKey, snapshot: nat): GetResult {
    if exists e :: IsNewest(entries, user, snapshot, e) then
      var e :| IsNewest(entries, user, snapshot, e);
      Outcome(e)
    else
      NotFound
  }

  lemma ReadAtNewest(entries: set<Entry>, user: UserKey, snapshot: nat, e: Entry)
    requires Distinct(entries) && IsNewest(entries, user, snapshot, e)
    ensures ReadAt(entries, user, snapshot) == Outcome(e)
  {
    var n :| IsNewest(entries, user, snapshot, n) && ReadAt(entries, user, snapshot) == Outcome(n);
    assert IsNewest(entries, user, snapshot, n);
    assert n.ikey.seqno <= e.ikey.seqno;
  }

  /** Either some entry is the newest visible one, or none is visible at all. */
  lemma NewestExists(entries: set<Entry>, user: UserKey, snapshot: nat)
    ensures (exists e :: IsNewest(entries, user, snapshot, e))
         || (forall e :: e in entries ==> !Visible(e, user, snapshot))
    decreases |entries|
  {
    if x :| x in entries && Visible(x, user, snapshot) {
      var rest := entries - {x};
      NewestExists(rest, user, snapshot);
      if e :| IsNewest(rest, user, snapshot, e) && e.ikey.seqno > x.ikey.seqno {
        assert IsNewest(entries, user, snapshot, e);
      } else {
        assert IsNewest(entries, user, snapshot, x);
      }
    }
  }

  // ----- searching one sorted run -----

  /** The least index at or after `from` whose key is not below `k` (a run's Seek). */
  function LowerBound(run: seq<Entry>, k: IKey, from: nat := 0): (r: nat)
    requires from <= |run|
    ensures from <= r <= |run|
    ensures forall i :: from <= i < r ==> Less(run[i].ikey, k)
    ensures r < |run| ==> !Less(run[r].ikey, k)
    decreases |run| - from
  {
    if from < |run| && Less(run[from].ikey, k) then LowerBound(run, k, from + 1) else from
  }

  /** In a sorted run a seek splits it: what is before the place found is smaller than the key, and
      nothing from there on is. */
  lemma LowerBoundSplits(run: seq<Entry>, k: IKey)
    requires Sorted(run)
    ensures forall i :: 0 <= i < |run| ==> (Less(run[i].ikey, k) <==> i < LowerBound(run, k))
  {
    var r := LowerBound(run, k);
    forall i | r <= i < |run| ensures !Less(run[i].ikey, k) {
      assert r < i ==> Less(run[r].ikey, run[i].ikey);
    }
  }

  /** MemTable::Get, and Table::InternalGet with the SaveValue callback: seek to the lookup
      key and take the entry found there if it belongs to the user key looked up. */
  function RunGet(run: seq<Entry>, user: UserKey, snapshot: nat): Option<Entry> {
    var i := LowerBound(run, SeekKey(user, snapshot));
    if i < |run| && run[i].ikey.user == user then Some(run[i]) else None
  }

  /** A seek finds exactly the newest visible entry of the run. */
  lemma RunGetIsNewest(run: seq<Entry>, user: UserKey, snapshot: nat)
    requires Sorted(run)
    ensures var r := RunGet(run, user, snapshot);
      if r.Some? then IsNewest(Elements(run), user, snapshot, r.value)
      else forall e :: e in run ==> !Visible(e, user, snapshot)
  {
    var k := SeekKey(user, snapshot);
    var i := LowerBound(run, k);
    forall e | e in run && Visible(e, user, snapshot)
      ensures i < |run| && run[i].ikey.user == user && e.ikey.seqno <= run[i].ikey.seqno
    {
      var j :| 0 <= j < |run| && run[j] == e;
      assert i <= j;
      assert i == j || Less(run[i].ikey, run[j].ikey);
    }
  }
}
