/**
 The record directory: which files count as records, what they say, and the sorted scan every operation reads.

 Stated for any record format that reads back what it writes; DiskFormat shows the actual one does.
 */
module JournalStore {
  import opened Bytes
  import opened SessionRecord
  import opened DiskRecord

  const MAX_RECORDS := 1024

  const RECORD_SUFFIX: Text := ".session"
  const TEMP_SUFFIX: Text := ".tmp"

  const MAX_ROOT_BYTES := 32768

  type Directory = map<Text, Text>

  /** How a caller names a journal: where it is and how many records it keeps. */
  datatype Handle = Handle(root: Text, maximumRecords: nat)

  /** ulk_session_journal_validate_v1 */
  predicate HandleValid(h: Handle) {
    ViewFits(h.root, MAX_ROOT_BYTES, false) && h.maximumRecords <= MAX_RECORDS
  }

  // ----- the record format -----

  datatype Format = Format(emit: Record -> Text, parse: Text -> Parsed)

  ghost predicate ReadsBack(f: Format) {
    forall r :: Fits(r) && r.commitOrder > 0 ==>
      |f.emit(r)| <= MAX_FILE_BYTES && f.parse(f.emit(r)) == Ok(r)
  }

  /** Reading refuses an oversized file before parsing it. */
  function ReadRecord(f: Format, file: Text): Parsed {
    if |file| > MAX_FILE_BYTES then Corrupt else f.parse(file)
  }

  // ----- names -----

  predicate IsRecordName(name: Text) {
    |name| > |RECORD_SUFFIX| && name[|name| - |RECORD_SUFFIX|..] == RECORD_SUFFIX
  }

  function TargetName(sessionId: Text): Text { sessionId + RECORD_SUFFIX }

  function TempName(target: Text): Text { target + TEMP_SUFFIX }

  lemma TargetNameInjective(a: Text, b: Text)
    ensures TargetName(a) == TargetName(b) ==> a == b
  {
    if TargetName(a) == TargetName(b) {
      assert a == TargetName(a)[..|TargetName(a)| - 8];
      assert b == TargetName(b)[..|TargetName(b)| - 8];
    }
  }

  /** A temporary name is never taken for a record, whatever the session is called. */
  lemma TempIsNotRecordName(target: Text)
    ensures !IsRecordName(TempName(target))
  {
    var t := TempName(target);
    assert t[|t| - 1] == 'p' && RECORD_SUFFIX[7] == 'n';
  }

  // ----- the view -----

  /** What the directory says: the record in each readable record file. */
  ghost function View(f: Format, dir: Directory): map<Text, Record> {
    map name | name in dir && IsRecordName(name) && ReadRecord(f, dir[name]).Ok? :: ReadRecord(f, dir[name]).record
  }

  ghost predicate AllReadable(f: Format, dir: Directory) {
    forall name :: name in dir && IsRecordName(name) ==> ReadRecord(f, dir[name]).Ok?
  }

  /** Records sit under their own names; attempts and issued orders belong to one session each. */
  ghost predicate ViewOk(v: map<Text, Record>) {
    && (forall n :: n in v ==> n == TargetName(v[n].sessionId) && v[n].sessionId != [] && Fits(v[n]) && v[n].commitOrder >= 0)
    && (forall m, n :: m in v && n in v && m != n ==>
          !SameAttempt(v[m], v[n]) && (v[m].commitOrder > 0 ==> v[m].commitOrder != v[n].commitOrder))
  }

  ghost predicate StoreOk(f: Format, dir: Directory) {
    AllReadable(f, dir) && ViewOk(View(f, dir))
  }

  lemma ViewIgnoresTemp(f: Format, dir: Directory, target: Text, content: Text)
    ensures View(f, dir[TempName(target) := content]) == View(f, dir)
    ensures View(f, dir - {TempName(target)}) == View(f, dir)
    ensures AllReadable(f, dir) ==>
              AllReadable(f, dir[TempName(target) := content]) && AllReadable(f, dir - {TempName(target)})
  {
    TempIsNotRecordName(target);
  }

  lemma ViewOfWrite(f: Format, dir: Directory, r: Record)
    requires ReadsBack(f) && Fits(r) && r.commitOrder > 0 && r.sessionId != []
    ensures View(f, dir[TargetName(r.sessionId) := f.emit(r)]) == View(f, dir)[TargetName(r.sessionId) := r]
    ensures AllReadable(f, dir) ==> AllReadable(f, dir[TargetName(r.sessionId) := f.emit(r)])
  {}

  lemma ViewOfDelete(f: Format, dir: Directory, name: Text)
    ensures View(f, dir - {name}) == View(f, dir) - {name}
    ensures AllReadable(f, dir) ==> AllReadable(f, dir - {name})
  {}

  lemma GrowthOfUpdate(v: map<Text, Record>, n: Text, r: Record)
    ensures |v[n := r]| == |v| + if n in v then 0 else 1
  {}

  // ----- listings -----

  ghost predicate NewestFirst(s: seq<Record>) {
    forall i, j :: 0 <= i < j < |s| ==> Newer(s[i], s[j])
  }

  /** `s` lists exactly the records of `v`, newest first. */
  ghost predicate IsListing(s: seq<Record>, v: map<Text, Record>) {
    && NewestFirst(s)
    && (forall r :: r in s ==> TargetName(r.sessionId) in v && v[TargetName(r.sessionId)] == r)
    && (forall n :: n in v ==> v[n] in s)
  }

  /** Two newest-first lists of the same records are the same list. */
  lemma {:induction false} NewestFirstUnique(s: seq<Record>, t: seq<Record>)
    requires NewestFirst(s) && NewestFirst(t)
    requires forall r :: r in s <==> r in t
    ensures s == t
    decreases |s|
  {
    if t != [] {
      assert t[0] in t;
    }
    if s != [] {
      assert s[0] in s;
      if s[0] != t[0] {
        NewestHead(s, t[0]);
        NewestHead(t, s[0]);
        NewerTotal(s[0], t[0]);
        assert false;
      }
      forall r
        ensures r in s[1..] <==> r in t[1..]
      {
        TailMember(s, r);
        TailMember(t, r);
      }
      NewestFirstUnique(s[1..], t[1..]);
    }
  }

  lemma NewestHead(s: seq<Record>, r: Record)
    requires NewestFirst(s) && s != [] && r in s && r != s[0]
    ensures Newer(s[0], r)
  {}

  lemma TailMember(s: seq<Record>, r: Record)
    requires NewestFirst(s) && s != []
    ensures r in s[1..] <==> r in s && r != s[0]
  {
    if r in s[1..] {
      var k :| 0 <= k < |s[1..]| && s[1..][k] == r;
      assert s[k + 1] == r && Newer(s[0], s[k + 1]);
      NewerTotal(s[0], r);
    }
    if r in s && r != s[0] {
      var j :| 0 <= j < |s| && s[j] == r;
      assert s[1..][j - 1] == r;
    }
  }

  lemma ListingUnique(s: seq<Record>, t: seq<Record>, v: map<Text, Record>)
    requires IsListing(s, v) && IsListing(t, v)
    ensures s == t
  {
    NewestFirstUnique(s, t);
  }

  // ----- the scan -----

  datatype Load = Loaded(records: seq<Record>) | Failed(incompatible: bool)

  /** `names` is what the directory enumeration yields: every entry once, in any order. */
  ghost predicate Enumerates(names: seq<Text>, dir: Directory) {
    (forall i, j :: 0 <= i < j < |names| ==> names[i] != names[j]) && (forall n :: n in names <==> n in dir)
  }

  /** Files are read in enumeration order; the first unreadable one, or the record past the growth cap, stops the scan. */
  function LoadRecords(f: Format, dir: Directory, names: seq<Text>): Load
    requires forall n :: n in names ==> n in dir
    decreases |names|
  {
    if names == [] then Loaded([])
    else
      var last := names[|names| - 1];
      match LoadRecords(f, dir, names[..|names| - 1])
      case Failed(incompatible) => Failed(incompatible)
      case Loaded(rs) =>
        if !IsRecordName(last) then Loaded(rs)
        else
          match ReadRecord(f, dir[last])
          case Corrupt => Failed(false)
          case Incompatible => Failed(true)
          case Ok(r) => if |rs| == MAX_RECORDS then Failed(false) else Loaded(rs + [r])
  }

  function Insert(r: Record, s: seq<Record>): seq<Record> {
    if s == [] then [r]
    else if Newer(r, s[0]) then [r] + s
    else [s[0]] + Insert(r, s[1..])
  }

  function SortNewestFirst(rs: seq<Record>): seq<Record> {
    if rs == [] then [] else Insert(rs[|rs| - 1], SortNewestFirst(rs[..|rs| - 1]))
  }

  /** ulk_scan_records */
  function Scan(f: Format, dir: Directory, names: seq<Text>): Load
    requires forall n :: n in names ==> n in dir
  {
    match LoadRecords(f, dir, names)
    case Failed(incompatible) => Failed(incompatible)
    case Loaded(rs) => Loaded(SortNewestFirst(rs))
  }

  function RecordNames(names: seq<Text>): seq<Text> {
    if names == [] then []
    else RecordNames(names[..|names| - 1]) + if IsRecordName(names[|names| - 1]) then [names[|names| - 1]] else []
  }

  ghost predicate Distinct<T>(s: seq<T>) {
    forall i, j :: 0 <= i < j < |s| ==> s[i] != s[j]
  }

  lemma {:induction false} RecordNamesMembers(names: seq<Text>)
    ensures forall n :: n in RecordNames(names) <==> n in names && IsRecordName(n)
    ensures Distinct(names) ==> Distinct(RecordNames(names))
  {
    if names != [] {
      RecordNamesMembers(names[..|names| - 1]);
      assert names == names[..|names| - 1] + [names[|names| - 1]];
    }
  }

  lemma {:induction false} DistinctCount<T>(s: seq<T>, all: set<T>)
    requires Distinct(s) && forall x :: x in s <==> x in all
    ensures |s| == |all|
    decreases |s|
  {
    if s == [] {
      assert all == {};
    } else {
      var last := s[|s| - 1];
      assert s == s[..|s| - 1] + [last];
      assert last in s;
      DistinctCount(s[..|s| - 1], all - {last});
    }
  }

  lemma {:induction false} DistinctWithin<T>(s: seq<T>, all: set<T>)
    requires Distinct(s) && forall x :: x in s ==> x in all
    ensures |s| <= |all|
  {
    if s != [] {
      var n := |s| - 1;
      assert s == s[..n] + [s[n]];
      DistinctWithin(s[..n], all - {s[n]});
    }
  }

  lemma {:induction false} Listed(left: set<Text>) returns (names: seq<Text>)
    ensures Distinct(names) && forall n :: n in names <==> n in left
    decreases |left|
  {
    if left == {} {
      names := [];
    } else {
      var n :| n in left;
      var rest := Listed(left - {n});
      names := [n] + rest;
    }
  }

  /** Loading succeeds exactly on readable files within the cap, and then reads the files in order. */
  ghost predicate LoadAgrees(f: Format, dir: Directory, found: seq<Text>, load: Load) {
    && (forall n :: n in found ==> n in dir)
    && (load.Loaded? <==> |found| <= MAX_RECORDS && forall n :: n in found ==> ReadRecord(f, dir[n]).Ok?)
    && (load.Loaded? ==>
          |load.records| == |found| &&
          forall i :: 0 <= i < |found| ==> ReadRecord(f, dir[found[i]]) == Ok(load.records[i]))
  }

  lemma {:induction false} LoadMeaning(f: Format, dir: Directory, names: seq<Text>)
    requires forall n :: n in names ==> n in dir
    ensures LoadAgrees(f, dir, RecordNames(names), LoadRecords(f, dir, names))
    decreases |names|
  {
    if names != [] {
      LoadMeaning(f, dir, names[..|names| - 1]);
      LoadSnoc(f, dir, names);
    }
  }

  lemma LoadSnoc(f: Format, dir: Directory, names: seq<Text>)
    requires names != [] && forall n :: n in names ==> n in dir
    requires LoadAgrees(f, dir, RecordNames(names[..|names| - 1]), LoadRecords(f, dir, names[..|names| - 1]))
    ensures LoadAgrees(f, dir, RecordNames(names), LoadRecords(f, dir, names))
  {
    var last := names[|names| - 1];
    var before, found := RecordNames(names[..|names| - 1]), RecordNames(names);
    if IsRecordName(last) {
      assert found == before + [last] && last in found;
      assert forall n :: n in found <==> n in before || n == last;
    } else {
      assert found == before;
    }
  }

  // ----- the scan as a listing -----

  lemma {:induction false} InsertMembers(r: Record, s: seq<Record>)
    ensures |Insert(r, s)| == |s| + 1
    ensures forall x :: x in Insert(r, s) <==> x == r || x in s
    decreases |s|
  {
    if s != [] && !Newer(r, s[0]) {
      InsertMembers(r, s[1..]);
      assert s == [s[0]] + s[1..];
    }
  }

  lemma {:induction false} InsertSorted(r: Record, s: seq<Record>)
    requires NewestFirst(s) && forall x :: x in s ==> x.sessionId != r.sessionId
    ensures NewestFirst(Insert(r, s))
    decreases |s|
  {
    if s != [] {
      assert s[0] in s;
      NewerTotal(r, s[0]);
      if Newer(r, s[0]) {
        forall j | 1 <= j < |s|
          ensures Newer(r, s[j])
        {
          NewerTransitive(r, s[0], s[j]);
        }
      } else {
        assert forall x :: x in s[1..] ==> x in s;
        InsertSorted(r, s[1..]);
        InsertMembers(r, s[1..]);
        var t := Insert(r, s[1..]);
        forall j | 0 <= j < |t|
          ensures Newer(s[0], t[j])
        {
          assert t[j] in t;
          if t[j] in s[1..] {
            var k :| 0 <= k < |s| - 1 && s[1..][k] == t[j];
            assert s[k + 1] == t[j];
          }
        }
      }
    }
  }

  ghost predicate DistinctIds(rs: seq<Record>) {
    forall i, j :: 0 <= i < j < |rs| ==> rs[i].sessionId != rs[j].sessionId
  }

  lemma {:induction false} SortMembers(rs: seq<Record>)
    ensures |SortNewestFirst(rs)| == |rs|
    ensures forall x :: x in SortNewestFirst(rs) <==> x in rs
    decreases |rs|
  {
    if rs != [] {
      var init, last := rs[..|rs| - 1], rs[|rs| - 1];
      SortMembers(init);
      InsertMembers(last, SortNewestFirst(init));
      assert rs == init + [last];
    }
  }

  lemma {:induction false} SortSorts(rs: seq<Record>)
    requires DistinctIds(rs)
    ensures NewestFirst(SortNewestFirst(rs))
    decreases |rs|
  {
    if rs != [] {
      var init, last := rs[..|rs| - 1], rs[|rs| - 1];
      SortSorts(init);
      SortMembers(init);
      forall x | x in SortNewestFirst(init)
        ensures x.sessionId != last.sessionId
      {
        var k :| 0 <= k < |init| && init[k] == x;
        assert rs[k] == x;
      }
      InsertSorted(last, SortNewestFirst(init));
    }
  }

  lemma SortMeaning(rs: seq<Record>)
    ensures |SortNewestFirst(rs)| == |rs|
    ensures forall x :: x in SortNewestFirst(rs) <==> x in rs
    ensures DistinctIds(rs) ==> NewestFirst(SortNewestFirst(rs))
  {
    SortMembers(rs);
    if DistinctIds(rs) {
      SortSorts(rs);
    }
  }

  lemma FoundAreViewed(f: Format, dir: Directory, names: seq<Text>)
    requires Enumerates(names, dir) && AllReadable(f, dir)
    ensures forall n :: n in RecordNames(names) <==> n in View(f, dir)
    ensures Distinct(RecordNames(names)) && |RecordNames(names)| == |View(f, dir)|
  {
    RecordNamesMembers(names);
    DistinctCount(RecordNames(names), View(f, dir).Keys);
  }

  /** On a sound store the scan succeeds exactly up to the growth cap, and is then the listing of the view. */
  lemma ScanIsListing(f: Format, dir: Directory, names: seq<Text>)
    requires StoreOk(f, dir) && Enumerates(names, dir)
    ensures Scan(f, dir, names).Loaded? <==> |View(f, dir)| <= MAX_RECORDS
    ensures Scan(f, dir, names).Loaded? ==>
              |Scan(f, dir, names).records| == |View(f, dir)| && IsListing(Scan(f, dir, names).records, View(f, dir))
  {
    var v, found := View(f, dir), RecordNames(names);
    FoundAreViewed(f, dir, names);
    LoadMeaning(f, dir, names);
    var load := LoadRecords(f, dir, names);
    if load.Loaded? {
      var rs := load.records;
      assert forall i :: 0 <= i < |rs| ==> found[i] in v && rs[i] == v[found[i]];
      LoadedListing(v, found, rs);
    }
  }

  lemma LoadedListing(v: map<Text, Record>, found: seq<Text>, rs: seq<Record>)
    requires ViewOk(v) && Distinct(found) && |found| == |rs|
    requires forall n :: n in found <==> n in v
    requires forall i :: 0 <= i < |rs| ==> found[i] in v && rs[i] == v[found[i]]
    ensures |SortNewestFirst(rs)| == |rs| && IsListing(SortNewestFirst(rs), v)
  {
    SortMeaning(rs);
    forall i, j | 0 <= i < j < |rs|
      ensures rs[i].sessionId != rs[j].sessionId
    {
      assert found[i] == TargetName(rs[i].sessionId) && found[j] == TargetName(rs[j].sessionId);
    }
    forall n | n in v
      ensures v[n] in rs
    {
      var i :| 0 <= i < |found| && found[i] == n;
      assert rs[i] == v[n];
    }
  }

  /** The scan does not depend on the order in which the directory is enumerated. */
  lemma ScanOrderIndependent(f: Format, dir: Directory, names: seq<Text>, names': seq<Text>)
    requires Enumerates(names, dir) && Enumerates(names', dir)
    ensures Scan(f, dir, names).Loaded? <==> Scan(f, dir, names').Loaded?
    ensures StoreOk(f, dir) && Scan(f, dir, names).Loaded? ==> Scan(f, dir, names) == Scan(f, dir, names')
  {
    LoadMeaning(f, dir, names);
    LoadMeaning(f, dir, names');
    RecordNamesMembers(names);
    RecordNamesMembers(names');
    DistinctCount(RecordNames(names), set n | n in dir && IsRecordName(n));
    DistinctCount(RecordNames(names'), set n | n in dir && IsRecordName(n));
    if StoreOk(f, dir) && Scan(f, dir, names).Loaded? {
      ScanIsListing(f, dir, names);
      ScanIsListing(f, dir, names');
      ListingUnique(Scan(f, dir, names).records, Scan(f, dir, names').records, View(f, dir));
    }
  }
}
