/** Why a scan fails, and when the reason it gives depends on the order in which the directory is enumerated. */
module ScanFailure {
  import opened Bytes
  import opened SessionRecord
  import opened DiskRecord
  import opened JournalStore

  lemma {:induction false} FailedLoadStays(f: Format, dir: Directory, names: seq<Text>, more: seq<Text>)
    requires (forall n :: n in names ==> n in dir) && (forall n :: n in more ==> n in dir)
    requires LoadRecords(f, dir, names).Failed?
    ensures forall n :: n in names + more ==> n in dir
    ensures LoadRecords(f, dir, names + more) == LoadRecords(f, dir, names)
    decreases |more|
  {
    if more == [] {
      assert names + more == names;
    } else {
      var init := more[..|more| - 1];
      FailedLoadStays(f, dir, names, init);
      assert (names + more)[..|names + more| - 1] == names + init;
    }
  }

  // ----- causes -----

  ghost predicate IncompatibleAt(f: Format, dir: Directory, n: Text) {
    n in dir && IsRecordName(n) && ReadRecord(f, dir[n]).Incompatible?
  }

  ghost predicate CorruptAt(f: Format, dir: Directory, n: Text) {
    n in dir && IsRecordName(n) && ReadRecord(f, dir[n]).Corrupt?
  }

  /** A file of a later version is there. */
  ghost predicate HasIncompatible(f: Format, dir: Directory) { exists n :: IncompatibleAt(f, dir, n) }

  ghost predicate HasCorrupt(f: Format, dir: Directory) { exists n :: CorruptAt(f, dir, n) }

  /** More readable records than a scan can hold. */
  ghost predicate Overfull(f: Format, dir: Directory) { |View(f, dir)| > MAX_RECORDS }

  /** A loaded prefix and one readable record more than the cap allows are more readable records than the cap allows. */
  lemma FullPrefix(f: Format, dir: Directory, names: seq<Text>, last: Text, rs: seq<Record>)
    requires Distinct(names + [last]) && forall n :: n in names + [last] ==> n in dir
    requires (forall n :: n in names ==> n in dir) && LoadRecords(f, dir, names) == Loaded(rs) && |rs| == MAX_RECORDS
    requires IsRecordName(last) && ReadRecord(f, dir[last]).Ok?
    ensures Overfull(f, dir)
  {
    LoadMeaning(f, dir, names);
    RecordNamesMembers(names);
    var found := RecordNames(names) + [last];
    assert Distinct(names) by {
      assert forall i :: 0 <= i < |names| ==> (names + [last])[i] == names[i];
    }
    assert last !in names by {
      assert (names + [last])[|names|] == last;
      assert forall i :: 0 <= i < |names| ==> (names + [last])[i] == names[i];
    }
    assert Distinct(found);
    DistinctWithin(found, View(f, dir).Keys);
  }

  /** Every failure has its cause in the directory. */
  ghost predicate Caused(f: Format, dir: Directory, load: Load) {
    load.Failed? ==> if load.incompatible then HasIncompatible(f, dir) else HasCorrupt(f, dir) || Overfull(f, dir)
  }

  lemma {:induction false} FailureCause(f: Format, dir: Directory, names: seq<Text>)
    requires Distinct(names) && forall n :: n in names ==> n in dir
    ensures Caused(f, dir, LoadRecords(f, dir, names))
    decreases |names|
  {
    if names != [] {
      var n := |names| - 1;
      FailureCause(f, dir, names[..n]);
      LastCause(f, dir, names[..n], names[n]);
      assert names == names[..n] + [names[n]];
    }
  }

  lemma LastCause(f: Format, dir: Directory, names: seq<Text>, last: Text)
    requires Distinct(names + [last]) && forall n :: n in names + [last] ==> n in dir
    requires (forall n :: n in names ==> n in dir) && Caused(f, dir, LoadRecords(f, dir, names))
    ensures Caused(f, dir, LoadRecords(f, dir, names + [last]))
  {
    assert last in names + [last] && (names + [last])[..|names|] == names && (names + [last])[|names|] == last;
    var before := LoadRecords(f, dir, names);
    if before.Loaded? && IsRecordName(last) {
      match ReadRecord(f, dir[last])
      case Incompatible => assert IncompatibleAt(f, dir, last);
      case Corrupt => assert CorruptAt(f, dir, last);
      case Ok(_) =>
        if |before.records| == MAX_RECORDS {
          FullPrefix(f, dir, names, last, before.records);
        }
    }
  }

  /** A record file that cannot be read, or more readable ones than a scan can hold. */
  ghost predicate Unscannable(f: Format, dir: Directory) { !AllReadable(f, dir) || Overfull(f, dir) }

  /** Such a directory fails every scan, and no other fails any. */
  lemma UnscannableFails(f: Format, dir: Directory, names: seq<Text>)
    requires Enumerates(names, dir)
    ensures Scan(f, dir, names).Failed? <==> Unscannable(f, dir)
    ensures Caused(f, dir, Scan(f, dir, names))
  {
    LoadMeaning(f, dir, names);
    RecordNamesMembers(names);
    FailureCause(f, dir, names);
    if AllReadable(f, dir) {
      FoundAreViewed(f, dir, names);
    }
  }

  // ----- choosing an order -----

  /** Some enumeration starts with `first`. */
  lemma StartingWith(dir: Directory, first: seq<Text>) returns (names: seq<Text>)
    requires Distinct(first) && forall n :: n in first ==> n in dir
    ensures Enumerates(first + names, dir)
  {
    names := Listed(dir.Keys - set n | n in first);
    var all := first + names;
    forall i, j | 0 <= i < j < |all|
      ensures all[i] != all[j]
    {
      if i < |first| <= j {
        assert first[i] in first && names[j - |first|] in names;
      }
    }
  }

  lemma UnreadableFirst(f: Format, dir: Directory, n: Text) returns (names: seq<Text>)
    requires IncompatibleAt(f, dir, n) || CorruptAt(f, dir, n)
    ensures Enumerates(names, dir) && Scan(f, dir, names) == Failed(IncompatibleAt(f, dir, n))
  {
    var rest := StartingWith(dir, [n]);
    assert [n][..0] == [] && n in [n];
    assert LoadRecords(f, dir, [n]) == Failed(IncompatibleAt(f, dir, n));
    FailedLoadStays(f, dir, [n], rest);
    names := [n] + rest;
  }

  /** With all readable records first, the cap stops the scan before anything unreadable is met. */
  lemma ReadableFirst(f: Format, dir: Directory) returns (names: seq<Text>)
    requires Overfull(f, dir)
    ensures Enumerates(names, dir) && Scan(f, dir, names) == Failed(false)
  {
    var first := Listed(View(f, dir).Keys);
    var rest := StartingWith(dir, first);
    ReadableStops(f, dir, first);
    FailedLoadStays(f, dir, first, rest);
    names := first + rest;
  }

  lemma ReadableStops(f: Format, dir: Directory, first: seq<Text>)
    requires Overfull(f, dir) && Distinct(first) && forall n :: n in first <==> n in View(f, dir)
    ensures forall n :: n in first ==> n in dir
    ensures LoadRecords(f, dir, first) == Failed(false)
  {
    RecordNamesMembers(first);
    DistinctCount(RecordNames(first), View(f, dir).Keys);
    LoadMeaning(f, dir, first);
    ReadableReason(f, dir, first);
  }

  /** Readable files alone are never called incompatible. */
  lemma {:induction false} ReadableReason(f: Format, dir: Directory, names: seq<Text>)
    requires (forall n :: n in names ==> n in dir) && forall n :: n in names ==> n in View(f, dir)
    ensures LoadRecords(f, dir, names) != Failed(true)
    decreases |names|
  {
    if names != [] {
      assert names[|names| - 1] in names;
      ReadableReason(f, dir, names[..|names| - 1]);
    }
  }

  // ----- the reason -----

  ghost predicate Fails(f: Format, dir: Directory) {
    exists names :: Enumerates(names, dir) && Scan(f, dir, names).Failed?
  }

  ghost predicate ReasonFixed(f: Format, dir: Directory) {
    forall names, names' :: Enumerates(names, dir) && Enumerates(names', dir) ==> Scan(f, dir, names) == Scan(f, dir, names')
  }

  /** A later version's file and another cause beside it. */
  ghost predicate TwoCauses(f: Format, dir: Directory) {
    HasIncompatible(f, dir) && (HasCorrupt(f, dir) || Overfull(f, dir))
  }

  lemma OneCause(f: Format, dir: Directory, names: seq<Text>, names': seq<Text>)
    requires Fails(f, dir) && !TwoCauses(f, dir) && Enumerates(names, dir) && Enumerates(names', dir)
    ensures Scan(f, dir, names) == Scan(f, dir, names')
  {
    var failing :| Enumerates(failing, dir) && Scan(f, dir, failing).Failed?;
    ScanOrderIndependent(f, dir, failing, names);
    ScanOrderIndependent(f, dir, failing, names');
    FailureCause(f, dir, names);
    FailureCause(f, dir, names');
  }

  lemma TwoReasons(f: Format, dir: Directory) returns (names: seq<Text>, names': seq<Text>)
    requires TwoCauses(f, dir)
    ensures Enumerates(names, dir) && Enumerates(names', dir)
    ensures Scan(f, dir, names) == Failed(true) && Scan(f, dir, names') == Failed(false)
  {
    var n :| IncompatibleAt(f, dir, n);
    names := UnreadableFirst(f, dir, n);
    if HasCorrupt(f, dir) {
      var c :| CorruptAt(f, dir, c);
      names' := UnreadableFirst(f, dir, c);
    } else {
      names' := ReadableFirst(f, dir);
    }
  }

  /** The reason a failing scan gives is the same for every enumeration if and only if there are not two causes for it. */
  lemma ReasonIndependence(f: Format, dir: Directory)
    requires Fails(f, dir)
    ensures ReasonFixed(f, dir) <==> !TwoCauses(f, dir)
  {
    if TwoCauses(f, dir) {
      var names, names' := TwoReasons(f, dir);
      assert !ReasonFixed(f, dir);
    } else {
      forall names, names' | Enumerates(names, dir) && Enumerates(names', dir)
        ensures Scan(f, dir, names) == Scan(f, dir, names')
      {
        OneCause(f, dir, names, names');
      }
    }
  }
}
