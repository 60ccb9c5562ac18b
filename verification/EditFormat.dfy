/**
 Version edits as bytes (db/version_edit.cc): a record for each thing an edit says.
 */
module EditFormat {
  import opened Common
  import opened Coding

  type Bytes = seq<byte>

  datatype NewFile = NewFile(level: nat, number: Long, size: Long, smallest: Bytes, largest: Bytes)

  /** VersionEdit; a field without its has_ flag is None. */
  datatype Edit = Edit(
    comparator: Option<Bytes>, logNumber: Option<Long>, prevLogNumber: Option<Long>,
    nextFileNumber: Option<Long>, lastSequence: Option<Long>,
    compactPointers: seq<(nat, Bytes)>, deletedFiles: set<(nat, Long)>, newFiles: seq<NewFile>)

  const EMPTY := Edit(None, None, None, None, None, [], {}, [])

  datatype Record =
    | Comparator(name: Bytes)
    | LogNumber(number: Long)
    | PrevLogNumber(number: Long)
    | NextFileNumber(number: Long)
    | LastSequence(number: Long)
    | CompactPointer(level: nat, key: Bytes)
    | DeletedFile(level: nat, number: Long)
    | AddedFile(file: NewFile)

  // ----- writing -----

  predicate Writable(r: Record) {
    match r
    case Comparator(name) => |name| < 0x1_0000_0000
    case CompactPointer(level, key) => level < NUM_LEVELS && |key| < 0x1_0000_0000
    case DeletedFile(level, _) => level < NUM_LEVELS
    case AddedFile(f) => f.level < NUM_LEVELS && |f.smallest| < 0x1_0000_0000 && |f.largest| < 0x1_0000_0000
    case _ => true
  }

  function TagOf(r: Record): nat {
    match r
    case Comparator(_) => 1
    case LogNumber(_) => 2
    case NextFileNumber(_) => 3
    case LastSequence(_) => 4
    case CompactPointer(_, _) => 5
    case DeletedFile(_, _) => 6
    case AddedFile(_) => 7
    case PrevLogNumber(_) => 9
  }

  function BodyBytes(r: Record): Bytes {
    match r
    case Comparator(name) => Prefixed(name)
    case LogNumber(n) => Varint(n)
    case PrevLogNumber(n) => Varint(n)
    case NextFileNumber(n) => Varint(n)
    case LastSequence(n) => Varint(n)
    case CompactPointer(level, key) => Varint(level) + Prefixed(key)
    case DeletedFile(level, n) => Varint(level) + Varint(n)
    case AddedFile(f) => (Varint(f.level) + Varint(f.number)) + (Varint(f.size) + (Prefixed(f.smallest) + Prefixed(f.largest)))
  }

  function RecordsBytes(records: seq<Record>): Bytes {
    if records == [] then [] else
      Varint(TagOf(records[0])) + BodyBytes(records[0]) + RecordsBytes(records[1..])
  }

  // ----- reading -----

  function GetLevel(s: Bytes): (r: Option<(nat, Bytes)>)
    ensures r.Some? ==> |r.value.1| < |s|
  {
    match GetVarint32(s)
    case None => None
    case Some((v, rest)) => if v < NUM_LEVELS then Some((v as nat, rest)) else None
  }

  /** A level and a file number. */
  function GetLevelAndNumber(s: Bytes): (r: Option<(nat, Long, Bytes)>)
    ensures r.Some? ==> |r.value.2| < |s|
  {
    match GetLevel(s)
    case None => None
    case Some((level, s)) =>
      match GetVarint64(s)
      case None => None
      case Some((n, s)) => Some((level, n, s))
  }

  /** The smallest and the largest key of a file. */
  function GetKeys(s: Bytes): (r: Option<(Bytes, Bytes, Bytes)>)
    ensures r.Some? ==> |r.value.2| < |s|
  {
    match GetPrefixed(s)
    case None => None
    case Some((smallest, s)) =>
      match GetPrefixed(s)
      case None => None
      case Some((largest, s)) => Some((smallest, largest, s))
  }

  function ReadNewFile(s: Bytes): (r: Option<(NewFile, Bytes)>)
    ensures r.Some? ==> |r.value.1| < |s|
  {
    match GetLevelAndNumber(s)
    case None => None
    case Some((level, number, s)) =>
      match GetVarint64(s)
      case None => None
      case Some((size, s)) =>
        match GetKeys(s)
        case None => None
        case Some((smallest, largest, s)) => Some((NewFile(level, number, size, smallest, largest), s))
  }

  /** What follows a tag. */
  function ReadBody(tag: nat, s: Bytes): (r: Option<(Record, Bytes)>)
    ensures r.Some? ==> |r.value.1| < |s|
  {
    if tag == 1 then
      match GetPrefixed(s)
      case None => None
      case Some((name, s)) => Some((Comparator(name), s))
    else if tag == 2 || tag == 3 || tag == 4 || tag == 9 then
      match GetVarint64(s)
      case None => None
      case Some((n, s)) =>
        Some((if tag == 2 then LogNumber(n) else if tag == 3 then NextFileNumber(n) else if tag == 4 then LastSequence(n)
              else PrevLogNumber(n), s))
    else if tag == 5 then
      match GetLevel(s)
      case None => None
      case Some((level, s)) =>
        (match GetPrefixed(s)
         case None => None
         case Some((key, s)) => Some((CompactPointer(level, key), s)))
    else if tag == 6 then
      match GetLevelAndNumber(s)
      case None => None
      case Some((level, n, s)) => Some((DeletedFile(level, n), s))
    else if tag == 7 then
      match ReadNewFile(s)
      case None => None
      case Some((f, s)) => Some((AddedFile(f), s))
    else None
  }

  function Apply(e: Edit, r: Record): Edit {
    match r
    case Comparator(name) => e.(comparator := Some(name))
    case LogNumber(n) => e.(logNumber := Some(n))
    case PrevLogNumber(n) => e.(prevLogNumber := Some(n))
    case NextFileNumber(n) => e.(nextFileNumber := Some(n))
    case LastSequence(n) => e.(lastSequence := Some(n))
    case CompactPointer(level, key) => e.(compactPointers := e.compactPointers + [(level, key)])
    case DeletedFile(level, n) => e.(deletedFiles := e.deletedFiles + {(level, n)})
    case AddedFile(f) => e.(newFiles := e.newFiles + [f])
  }

  /** The loop of DecodeFrom: what was read before an error stays. */
  function DecodeAll(s: Bytes, e: Edit): (bool, Edit)
    decreases |s|
  {
    match GetVarint32(s)
    case None => (s == [], e)
    case Some((tag, rest)) =>
      match ReadBody(tag, rest)
      case None => (false, e)
      case Some((r, rest)) => DecodeAll(rest, Apply(e, r))
  }

  function ApplyAll(e: Edit, records: seq<Record>): Edit
    decreases |records|
  {
    if records == [] then e else ApplyAll(Apply(e, records[0]), records[1..])
  }

  // ----- a record read back -----

  lemma Joined(a: Bytes, b: Bytes, tail: Bytes)
    ensures (a + b) + tail == a + (b + tail)
  {
  }

  lemma LevelAndNumberRoundTrip(level: nat, n: Long, tail: Bytes)
    requires level < NUM_LEVELS
    ensures GetLevelAndNumber((Varint(level) + Varint(n)) + tail) == Some((level, n, tail))
  {
    Joined(Varint(level), Varint(n), tail);
    Varint32RoundTrip(level, Varint(n) + tail);
    Varint64RoundTrip(n, tail);
  }

  lemma KeysRoundTrip(smallest: Bytes, largest: Bytes, tail: Bytes)
    requires |smallest| < 0x1_0000_0000 && |largest| < 0x1_0000_0000
    ensures GetKeys((Prefixed(smallest) + Prefixed(largest)) + tail) == Some((smallest, largest, tail))
  {
    Joined(Prefixed(smallest), Prefixed(largest), tail);
    PrefixedRoundTrip(smallest, Prefixed(largest) + tail);
    PrefixedRoundTrip(largest, tail);
  }

  lemma NewFileRoundTrip(f: NewFile, tail: Bytes)
    requires Writable(AddedFile(f))
    ensures ReadNewFile(BodyBytes(AddedFile(f)) + tail) == Some((f, tail))
  {
    var place, size, keys := Varint(f.level) + Varint(f.number), Varint(f.size), Prefixed(f.smallest) + Prefixed(f.largest);
    Joined(place, size + keys, tail);
    Joined(size, keys, tail);
    LevelAndNumberRoundTrip(f.level, f.number, size + (keys + tail));
    Varint64RoundTrip(f.size, keys + tail);
    KeysRoundTrip(f.smallest, f.largest, tail);
  }

  lemma PointerRoundTrip(level: nat, key: Bytes, tail: Bytes)
    requires level < NUM_LEVELS && |key| < 0x1_0000_0000
    ensures ReadBody(5, (Varint(level) + Prefixed(key)) + tail) == Some((CompactPointer(level, key), tail))
  {
    Joined(Varint(level), Prefixed(key), tail);
    Varint32RoundTrip(level, Prefixed(key) + tail);
    PrefixedRoundTrip(key, tail);
  }

  lemma BodyRoundTrip(r: Record, tail: Bytes)
    requires Writable(r)
    ensures ReadBody(TagOf(r), BodyBytes(r) + tail) == Some((r, tail))
  {
    match r
    case Comparator(name) => PrefixedRoundTrip(name, tail);
    case LogNumber(n) => Varint64RoundTrip(n, tail);
    case PrevLogNumber(n) => Varint64RoundTrip(n, tail);
    case NextFileNumber(n) => Varint64RoundTrip(n, tail);
    case LastSequence(n) => Varint64RoundTrip(n, tail);
    case CompactPointer(level, key) => PointerRoundTrip(level, key, tail);
    case DeletedFile(level, n) => LevelAndNumberRoundTrip(level, n, tail);
    case AddedFile(f) => NewFileRoundTrip(f, tail);
  }

  lemma {:induction false} RecordsRoundTrip(records: seq<Record>, e: Edit)
    requires forall r :: r in records ==> Writable(r)
    ensures DecodeAll(RecordsBytes(records), e) == (true, ApplyAll(e, records))
  {
    if records != [] {
      var r, rest := records[0], RecordsBytes(records[1..]);
      Joined(Varint(TagOf(r)), BodyBytes(r), rest);
      Varint32RoundTrip(TagOf(r), BodyBytes(r) + rest);
      BodyRoundTrip(r, rest);
      RecordsRoundTrip(records[1..], Apply(e, r));
    }
  }

  // ----- edits -----

  function OneIf(present: bool, r: Record): seq<Record> {
    if present then [r] else []
  }

  function Value(n: Option<Long>): Long {
    if n.Some? then n.value else 0
  }

  /** The records of the fields with a has_ flag. */
  function Heads(e: Edit): seq<Record> {
    OneIf(e.comparator.Some?, Comparator(if e.comparator.Some? then e.comparator.value else []))
    + (OneIf(e.logNumber.Some?, LogNumber(Value(e.logNumber)))
    + (OneIf(e.prevLogNumber.Some?, PrevLogNumber(Value(e.prevLogNumber)))
    + (OneIf(e.nextFileNumber.Some?, NextFileNumber(Value(e.nextFileNumber)))
    + OneIf(e.lastSequence.Some?, LastSequence(Value(e.lastSequence))))))
  }

  /** The records of an edit, in the order in which EncodeTo writes them; `deleted` enumerates a set. */
  function RecordsOf(e: Edit, deleted: seq<(nat, Long)>): seq<Record> {
    Heads(e) + (Pointers(e.compactPointers) + (Deletions(deleted) + Additions(e.newFiles)))
  }

  /** The members of a std::set of pairs, each once, by level and then by number. */
  ghost predicate Iterates(list: seq<(nat, Long)>, members: set<(nat, Long)>) {
    && members == (set d | d in list)
    && forall i, j :: 0 <= i < j < |list| ==>
         list[i].0 < list[j].0 || (list[i].0 == list[j].0 && list[i].1 < list[j].1)
  }

  function Pointers(pointers: seq<(nat, Bytes)>): seq<Record> {
    if pointers == [] then [] else [CompactPointer(pointers[0].0, pointers[0].1)] + Pointers(pointers[1..])
  }

  function Deletions(deleted: seq<(nat, Long)>): seq<Record> {
    if deleted == [] then [] else [DeletedFile(deleted[0].0, deleted[0].1)] + Deletions(deleted[1..])
  }

  function Additions(files: seq<NewFile>): seq<Record> {
    if files == [] then [] else [AddedFile(files[0])] + Additions(files[1..])
  }

  /** Levels that exist, and keys whose length fits 32 bits. */
  predicate WritableEdit(e: Edit) {
    && (e.comparator.Some? ==> |e.comparator.value| < 0x1_0000_0000)
    && (forall p :: p in e.compactPointers ==> p.0 < NUM_LEVELS && |p.1| < 0x1_0000_0000)
    && (forall d :: d in e.deletedFiles ==> d.0 < NUM_LEVELS)
    && (forall f :: f in e.newFiles ==> Writable(AddedFile(f)))
  }

  lemma {:induction false} ApplyConcat(e: Edit, x: seq<Record>, y: seq<Record>)
    ensures ApplyAll(e, x + y) == ApplyAll(ApplyAll(e, x), y)
    decreases |x|
  {
    if x == [] {
      assert x + y == y;
    } else {
      var z := x + y;
      assert z[0] == x[0];
      assert z[1..] == x[1..] + y;
      ApplyConcat(Apply(e, x[0]), x[1..], y);
    }
  }

  lemma ApplyCons(e: Edit, r: Record, rest: seq<Record>)
    ensures ApplyAll(e, [r] + rest) == ApplyAll(Apply(e, r), rest)
  {
    assert ([r] + rest)[1..] == rest;
  }

  lemma ApplyOneIf(e: Edit, present: bool, r: Record, rest: seq<Record>)
    ensures ApplyAll(e, OneIf(present, r) + rest) == ApplyAll(if present then Apply(e, r) else e, rest)
  {
    if present {
      ApplyCons(e, r, rest);
    } else {
      assert [] + rest == rest;
    }
  }

  lemma ApplyHeads(e: Edit, start: Edit)
    requires start == EMPTY.(compactPointers := start.compactPointers)
    ensures ApplyAll(start, Heads(e))
         == Edit(e.comparator, e.logNumber, e.prevLogNumber, e.nextFileNumber, e.lastSequence, start.compactPointers, {}, [])
  {
    var r1, r2 := LogNumber(Value(e.logNumber)), PrevLogNumber(Value(e.prevLogNumber));
    var r3, r4 := NextFileNumber(Value(e.nextFileNumber)), LastSequence(Value(e.lastSequence));
    var h4 := OneIf(e.lastSequence.Some?, r4);
    var h3 := OneIf(e.nextFileNumber.Some?, r3) + h4;
    var h2 := OneIf(e.prevLogNumber.Some?, r2) + h3;
    var h1 := OneIf(e.logNumber.Some?, r1) + h2;
    var e0 := start.(comparator := e.comparator);
    var e1 := e0.(logNumber := e.logNumber);
    var e2 := e1.(prevLogNumber := e.prevLogNumber);
    var e3 := e2.(nextFileNumber := e.nextFileNumber);
    ApplyOneIf(start, e.comparator.Some?, Comparator(if e.comparator.Some? then e.comparator.value else []), h1);
    ApplyOneIf(e0, e.logNumber.Some?, r1, h2);
    ApplyOneIf(e1, e.prevLogNumber.Some?, r2, h3);
    ApplyOneIf(e2, e.nextFileNumber.Some?, r3, h4);
    ApplyOneIf(e3, e.lastSequence.Some?, r4, []);
    assert h4 + [] == h4;
  }

  lemma {:induction false} ApplyPointers(e: Edit, pointers: seq<(nat, Bytes)>)
    ensures ApplyAll(e, Pointers(pointers)) == e.(compactPointers := e.compactPointers + pointers)
    decreases |pointers|
  {
    if pointers == [] {
      assert e.compactPointers + pointers == e.compactPointers;
    } else {
      var r := CompactPointer(pointers[0].0, pointers[0].1);
      ApplyCons(e, r, Pointers(pointers[1..]));
      ApplyPointers(Apply(e, r), pointers[1..]);
      assert (e.compactPointers + [pointers[0]]) + pointers[1..] == e.compactPointers + pointers;
    }
  }

  lemma {:induction false} ApplyDeletions(e: Edit, deleted: seq<(nat, Long)>)
    ensures ApplyAll(e, Deletions(deleted)) == e.(deletedFiles := e.deletedFiles + set d | d in deleted)
    decreases |deleted|
  {
    if deleted == [] {
      assert e.deletedFiles + (set d | d in deleted) == e.deletedFiles;
    } else {
      var r := DeletedFile(deleted[0].0, deleted[0].1);
      ApplyCons(e, r, Deletions(deleted[1..]));
      ApplyDeletions(Apply(e, r), deleted[1..]);
      assert (e.deletedFiles + {deleted[0]}) + (set d | d in deleted[1..]) == e.deletedFiles + set d | d in deleted;
    }
  }

  lemma {:induction false} ApplyAdditions(e: Edit, files: seq<NewFile>)
    ensures ApplyAll(e, Additions(files)) == e.(newFiles := e.newFiles + files)
    decreases |files|
  {
    if files == [] {
      assert e.newFiles + files == e.newFiles;
    } else {
      ApplyCons(e, AddedFile(files[0]), Additions(files[1..]));
      ApplyAdditions(Apply(e, AddedFile(files[0])), files[1..]);
      assert (e.newFiles + [files[0]]) + files[1..] == e.newFiles + files;
    }
  }

  /** Clear() leaves the compaction pointers as they are. */
  function Cleared(e: Edit): Edit {
    EMPTY.(compactPointers := e.compactPointers)
  }

  lemma AppliesAll(e: Edit, deleted: seq<(nat, Long)>, start: Edit)
    requires e.deletedFiles == set d | d in deleted
    ensures ApplyAll(Cleared(start), RecordsOf(e, deleted)) == e.(compactPointers := start.compactPointers + e.compactPointers)
  {
    var pointers, deletions, additions := Pointers(e.compactPointers), Deletions(deleted), Additions(e.newFiles);
    ApplyConcat(Cleared(start), Heads(e), pointers + (deletions + additions));
    ApplyHeads(e, Cleared(start));
    var e1 := ApplyAll(Cleared(start), Heads(e));
    ApplyConcat(e1, pointers, deletions + additions);
    ApplyPointers(e1, e.compactPointers);
    var e2 := e1.(compactPointers := e1.compactPointers + e.compactPointers);
    ApplyConcat(e2, deletions, additions);
    ApplyDeletions(e2, deleted);
    ApplyAdditions(e2.(deletedFiles := e2.deletedFiles + set d | d in deleted), e.newFiles);
    assert {} + (set d | d in deleted) == e.deletedFiles && [] + e.newFiles == e.newFiles;
  }

  lemma {:induction false} AllWritable(e: Edit, deleted: seq<(nat, Long)>)
    requires WritableEdit(e) && e.deletedFiles == set d | d in deleted
    ensures forall r :: r in RecordsOf(e, deleted) ==> Writable(r)
  {
    PointersWritable(e.compactPointers);
    DeletionsWritable(deleted);
    AdditionsWritable(e.newFiles);
  }

  lemma {:induction false} PointersWritable(pointers: seq<(nat, Bytes)>)
    requires forall p :: p in pointers ==> p.0 < NUM_LEVELS && |p.1| < 0x1_0000_0000
    ensures forall r :: r in Pointers(pointers) ==> Writable(r)
  {
    if pointers != [] {
      PointersWritable(pointers[1..]);
    }
  }

  lemma {:induction false} DeletionsWritable(deleted: seq<(nat, Long)>)
    requires forall d :: d in deleted ==> d.0 < NUM_LEVELS
    ensures forall r :: r in Deletions(deleted) ==> Writable(r)
  {
    if deleted != [] {
      DeletionsWritable(deleted[1..]);
    }
  }

  lemma {:induction false} AdditionsWritable(files: seq<NewFile>)
    requires forall f :: f in files ==> Writable(AddedFile(f))
    ensures forall r :: r in Additions(files) ==> Writable(r)
  {
    if files != [] {
      AdditionsWritable(files[1..]);
    }
  }

  // ----- VersionEdit -----

  class VersionEdit {
    var edit: Edit

    constructor ()
      ensures edit == EMPTY
    {
      edit := EMPTY;
    }

    /** EncodeTo; `deleted` lists the set of deleted files as its iterator does. */
    method EncodeTo(dst: Bytes, deleted: seq<(nat, Long)>) returns (dst': Bytes)
      requires Iterates(deleted, edit.deletedFiles)
      ensures dst' == dst + RecordsBytes(RecordsOf(edit, deleted))
      ensures WritableEdit(edit) ==> DecodeAll(dst'[|dst|..], EMPTY) == (true, edit)
    {
      var records := RecordsOf(edit, deleted);
      dst' := dst;
      for i := 0 to |records|
        invariant dst' == dst + RecordsBytes(records[..i])
      {
        BytesOneMore(dst, records, i);
        dst' := dst' + Varint(TagOf(records[i]));
        dst' := dst' + BodyBytes(records[i]);
      }
      assert records[..|records|] == records;
      assert dst'[|dst|..] == RecordsBytes(records);
      if WritableEdit(edit) {
        DecodeInvertsEncode(edit, deleted, EMPTY);
      }
    }

    /** DecodeFrom: what an edit was encoded to gives the edit back, except that the compaction pointers of
        a version edit that was used before come first. */
    method DecodeFrom(src: Bytes) returns (ok: bool)
      modifies this
      ensures (ok, edit) == DecodeAll(src, Cleared(old(edit)))
    {
      edit := Cleared(edit);
      var input := src;
      while true
        invariant DecodeAll(src, Cleared(old(edit))) == DecodeAll(input, edit)
        decreases |input|
      {
        var tag := GetVarint32(input);
        if tag.None? {
          return input == [];
        }
        var body := ReadBody(tag.value.0, tag.value.1);
        if body.None? {
          return false;
        }
        edit, input := Apply(edit, body.value.0), body.value.1;
      }
    }
  }

  lemma {:induction false} BytesConcat(x: seq<Record>, r: Record)
    ensures RecordsBytes(x + [r]) == RecordsBytes(x) + (Varint(TagOf(r)) + BodyBytes(r))
    decreases |x|
  {
    var z := x + [r];
    if x == [] {
      assert z[1..] == [];
    } else {
      assert z[0] == x[0];
      assert z[1..] == x[1..] + [r];
      BytesConcat(x[1..], r);
      Joined(Varint(TagOf(x[0])) + BodyBytes(x[0]), RecordsBytes(x[1..]), Varint(TagOf(r)) + BodyBytes(r));
    }
  }

  lemma BytesOneMore(dst: Bytes, records: seq<Record>, i: nat)
    requires i < |records|
    ensures dst + RecordsBytes(records[..i + 1])
         == dst + RecordsBytes(records[..i]) + Varint(TagOf(records[i])) + BodyBytes(records[i])
  {
    assert records[..i + 1] == records[..i] + [records[i]];
    BytesConcat(records[..i], records[i]);
  }

  /** Decoding inverts encoding exactly when the version edit that is decoded into has no compaction
      pointers: DecodeFrom starts with Clear(), and Clear() does not clear them. */
  lemma DecodeInvertsEncode(e: Edit, deleted: seq<(nat, Long)>, before: Edit)
    requires WritableEdit(e) && e.deletedFiles == set d | d in deleted
    ensures var (ok, decoded) := DecodeAll(RecordsBytes(RecordsOf(e, deleted)), Cleared(before));
      && ok && decoded == e.(compactPointers := before.compactPointers + e.compactPointers)
      && (decoded == e <==> before.compactPointers == [])
  {
    AllWritable(e, deleted);
    RecordsRoundTrip(RecordsOf(e, deleted), Cleared(before));
    AppliesAll(e, deleted, before);
    PrependedIsLonger(before.compactPointers, e.compactPointers);
  }

  lemma PrependedIsLonger<T>(x: seq<T>, y: seq<T>)
    ensures x + y == y <==> x == []
  {
    if x + y == y {
      assert |x + y| == |x| + |y|;
    }
  }
}
