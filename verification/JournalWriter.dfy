/**
 The write itself: one call of ulk_session_journal_write_v1 from the lock to its release.

 Every change to the files is accompanied by the protocol step it performs, so a call is a run of the protocol; its
 contract says what the call as a whole does to the records. Each operating system call may fail.
 */
module JournalWriter {
  import opened Bytes
  import opened SessionRecord
  import opened DiskRecord
  import opened JournalStore
  import opened ScanFailure
  import opened JournalDecision
  import opened JournalProtocol
  import opened JournalSafety
  import opened JournalGuarantees
  import opened JournalLastRun

  // ----- the scan -----

  /** The entries seen so far and those still to come. */
  ghost predicate Enumerating(names: seq<Text>, left: set<Text>, dir: Directory) {
    && Distinct(names) && (forall n :: n in names ==> n in dir && n !in left) && (forall n :: n in left ==> n in dir)
    && (forall n :: n in dir ==> n in names || n in left)
  }

  lemma SeenOne(names: seq<Text>, left: set<Text>, dir: Directory, name: Text)
    requires Enumerating(names, left, dir) && name in left
    ensures Enumerating(names + [name], left - {name}, dir)
  {}

  lemma SeenAll(names: seq<Text>, rest: seq<Text>, left: set<Text>, dir: Directory)
    requires Enumerating(names, left, dir) && Distinct(rest) && forall n :: n in rest <==> n in left
    ensures Enumerates(names + rest, dir)
  {
    var all := names + rest;
    forall i, j | 0 <= i < j < |all|
      ensures all[i] != all[j]
    {
      if i < |names| <= j {
        assert names[i] in names && rest[j - |names|] in rest;
      }
    }
  }

  lemma LoadNext(f: Format, dir: Directory, names: seq<Text>, name: Text, records: seq<Record>)
    requires (forall n :: n in names ==> n in dir) && name in dir && LoadRecords(f, dir, names) == Loaded(records)
    ensures forall n :: n in names + [name] ==> n in dir
    ensures LoadRecords(f, dir, names + [name]) ==
            if !IsRecordName(name) then Loaded(records)
            else
              match ReadRecord(f, dir[name])
              case Corrupt => Failed(false)
              case Incompatible => Failed(true)
              case Ok(r) => if |records| == MAX_RECORDS then Failed(false) else Loaded(records + [r])
  {}

  /** An obstacle ends the loading, whatever the directory still holds. */
  lemma FailedEarly(f: Format, dir: Directory, names: seq<Text>, left: set<Text>) returns (all: seq<Text>)
    requires Enumerating(names, left, dir) && LoadRecords(f, dir, names).Failed?
    ensures Enumerates(all, dir) && Scan(f, dir, all) == LoadRecords(f, dir, names)
  {
    var rest := Listed(left);
    FailedLoadStays(f, dir, names, rest);
    SeenAll(names, rest, left, dir);
    all := names + rest;
  }

  /** Reads the record files as the directory yields them, stopping at the first obstacle, then sorts. */
  method ScanRecords(f: Format, files: Directory) returns (load: Load, ghost names: seq<Text>)
    ensures Enumerates(names, files) && load == Scan(f, files, names)
    ensures load.Loaded? ==> |load.records| <= MAX_RECORDS
    ensures StoreOk(f, files) ==> (load.Loaded? <==> |View(f, files)| <= MAX_RECORDS)
    ensures StoreOk(f, files) && load.Loaded? ==> IsListing(load.records, View(f, files))
  {
    var left, records: seq<Record> := files.Keys, [];
    names := [];
    while left != {}
      invariant Enumerating(names, left, files) && LoadRecords(f, files, names) == Loaded(records)
      invariant |records| <= MAX_RECORDS
      decreases left
    {
      var name :| name in left;
      LoadNext(f, files, names, name, records);
      SeenOne(names, left, files, name);
      left, names := left - {name}, names + [name];
      if IsRecordName(name) {
        var parsed := ReadRecord(f, files[name]);
        if !parsed.Ok? || |records| == MAX_RECORDS {
          names := FailedEarly(f, files, names, left);
          ScanAnswers(f, files, names);
          return Failed(parsed.Incompatible?), names;
        }
        records := records + [parsed.record];
      }
    }
    SeenAll(names, [], left, files);
    assert names + [] == names;
    load := Loaded(SortNewestFirst(records));
    SortMeaning(records);
    ScanAnswers(f, files, names);
  }

  lemma ScanAnswers(f: Format, dir: Directory, names: seq<Text>)
    requires Enumerates(names, dir)
    ensures StoreOk(f, dir) ==> (Scan(f, dir, names).Loaded? <==> |View(f, dir)| <= MAX_RECORDS)
    ensures StoreOk(f, dir) && Scan(f, dir, names).Loaded? ==> IsListing(Scan(f, dir, names).records, View(f, dir))
  {
    if StoreOk(f, dir) {
      ScanIsListing(f, dir, names);
    }
  }

  // ----- what a call does to the records -----

  datatype Outcome =
    | Done
    | Unreadable(incompatible: bool)
    | Refused(reason: Refusal)
    | NotSerialized
    | NotWritten
    | NotVerified
    | NotPruned

  ghost predicate Added(v: map<Text, Record>, v': map<Text, Record>, request: Record) {
    exists r: Record :: MayCommit(v, r) && SameContent(r, request) && v' == v[TargetName(r.sessionId) := r]
  }

  /** The records left of the listing `s` once its entries from `limit` up to `end` are deleted. */
  ghost predicate Pruned(v: map<Text, Record>, s: seq<Record>, limit: nat, end: nat) {
    limit <= end <= |s| && Holds(v, s[..limit] + s[end..])
  }

  /** The records `v`, listed as `s`, cut down to the `limit` newest, or part of the way there. */
  ghost predicate CutDown(
    v: map<Text, Record>, v': map<Text, Record>, s: seq<Record>, limit: nat, end: nat, complete: bool)
  {
    IsListing(s, v) && if |s| <= limit then v' == v && complete else Pruned(v', s, limit, end) && (complete ==> end == |s|)
  }

  /** Committed, and then cut down. */
  ghost predicate AddedAndCutDown(
    v: map<Text, Record>, v': map<Text, Record>, request: Record, limit: nat, complete: bool)
  {
    exists mid, s, end: nat :: Added(v, mid, request) && CutDown(mid, v', s, limit, end, complete)
  }

  /** One more session would be more than a scan can hold. */
  ghost predicate FullAndNew(v: map<Text, Record>, request: Record) {
    |v| == MAX_RECORDS && TargetName(request.sessionId) !in v
  }

  /** What the caller may conclude from the outcome about the records before and after. */
  ghost predicate WriteMeans(
    f: Format, before: Directory, after: Directory, request: Record, limit: nat, outcome: Outcome)
  {
    var v, v' := View(f, before), View(f, after);
    match outcome
    case Done =>
      if Replayed(v, request) then after == before
      else !FullAndNew(v, request) && AddedAndCutDown(v, v', request, limit, true)
    case Refused(reason) => after == before && RefusedFor(v, request, reason)
    case Unreadable(incompatible) => after == before && |v| > MAX_RECORDS && !incompatible
    case NotSerialized => after == before && !Replayed(v, request) && Admissible(v, request)
    case NotWritten => v' == v && !Replayed(v, request) && Admissible(v, request)
    case NotVerified => FullAndNew(v, request) && Added(v, v', request)
    case NotPruned => !FullAndNew(v, request) && AddedAndCutDown(v, v', request, limit, false)
  }

  /** What the part after the commit does to the committed records `v`, listed as `s`. */
  ghost predicate RetentionMeans(
    v: map<Text, Record>, v': map<Text, Record>, limit: nat, outcome: Outcome, s: seq<Record>, end: nat)
  {
    if outcome.NotVerified? then v' == v && |v| > MAX_RECORDS
    else |v| <= MAX_RECORDS && (outcome.Done? || outcome.NotPruned?) && CutDown(v, v', s, limit, end, outcome.Done?)
  }

  lemma StoredMeans(
    f: Format, before: Directory, mid: map<Text, Record>, after: Directory, request: Record, limit: nat, r: Record,
    outcome: Outcome, s: seq<Record>, end: nat)
    requires MayCommit(View(f, before), r) && SameContent(r, request) && !Replayed(View(f, before), request)
    requires |View(f, before)| <= MAX_RECORDS
    requires mid == View(f, before)[TargetName(r.sessionId) := r]
    requires RetentionMeans(mid, View(f, after), limit, outcome, s, end)
    ensures WriteMeans(f, before, after, request, limit, outcome)
  {
    assert Added(View(f, before), mid, request);
    GrowthOfUpdate(View(f, before), TargetName(r.sessionId), r);
  }

  /** Deleting the entry at `end` extends the deleted stretch by one. */
  lemma PruneNext(v: map<Text, Record>, v': map<Text, Record>, s: seq<Record>, limit: nat, end: nat)
    requires Pruned(v, s, limit, end) && end < |s| && DistinctIds(s)
    requires v' == v - {TargetName(s[end].sessionId)}
    ensures Pruned(v', s, limit, end + 1)
  {
    var gone := s[end];
    forall r
      ensures Retained(v', r) <==> r in s[..limit] + s[end + 1..]
    {
      assert s[end..] == [gone] + s[end + 1..];
      assert Retained(v, r) <==> r in s[..limit] + s[end..];
      if r in s[..limit] + s[end + 1..] {
        OtherId(s, limit, end, r);
        TargetNameInjective(r.sessionId, gone.sessionId);
      }
    }
  }

  lemma PruneNextFile(f: Format, dir: Directory, s: seq<Record>, limit: nat, end: nat)
    requires Pruned(View(f, dir), s, limit, end) && end < |s| && DistinctIds(s)
    ensures Pruned(View(f, dir - {TargetName(s[end].sessionId)}), s, limit, end + 1)
  {
    ViewOfDelete(f, dir, TargetName(s[end].sessionId));
    PruneNext(View(f, dir), View(f, dir - {TargetName(s[end].sessionId)}), s, limit, end);
  }

  lemma OtherId(s: seq<Record>, limit: nat, end: nat, r: Record)
    requires DistinctIds(s) && limit <= end < |s| && r in s[..limit] + s[end + 1..]
    ensures r.sessionId != s[end].sessionId
  {}

  lemma PruneNone(v: map<Text, Record>, s: seq<Record>, limit: nat)
    requires IsListing(s, v) && limit <= |s|
    ensures Pruned(v, s, limit, limit)
  {}

  // ----- the journal object -----

  class Journal {
    const f: Format
    var files: Directory
    ghost var worlds: seq<World>
    ghost var taken: seq<Action>

    ghost function Now(): World
      reads this
      requires worlds != []
    {
      worlds[|worlds| - 1]
    }

    /** The steps taken so far are a run of the protocol. */
    ghost predicate OnCourse()
      reads this
    {
      ReadsBack(f) && worlds != [] && IsRunFromStart(f, worlds, taken)
    }

    /** And the files are those of its last world. */
    ghost predicate Valid()
      reads this
    {
      OnCourse() && Now().dir == files
    }

    /** Client `c` has the lock and is in phase `p`; the others are as given. */
    ghost predicate At(c: Client, p: Phase, others: map<Client, Phase>)
      reads this
    {
      worlds != [] && c !in others && Now().lock == Some(c) && Now().phases == others[c := p]
    }

    ghost predicate Idle(others: map<Client, Phase>)
      reads this
    {
      worlds != [] && Now().lock.None? && Now().phases == others
    }

    twostate predicate Continues()
      reads this
    {
      |old(worlds)| <= |worlds| && worlds[..|old(worlds)|] == old(worlds)
    }

    /** A journal over whatever the disk holds. */
    constructor Over(f: Format, files: Directory)
      ensures this.f == f && this.files == files && worlds == []
    {
      this.f, this.files := f, files;
      worlds, taken := [], [];
    }

    constructor (f: Format, start: World)
      requires ReadsBack(f) && Initial(f, start)
      ensures Valid() && worlds == [start] && this.f == f && files == start.dir
    {
      this.f := f;
      files := start.dir;
      worlds, taken := [start], [];
    }

    ghost method Take(a: Action)
      requires OnCourse() && Enabled(f, Now(), a)
      modifies `worlds, `taken
      ensures OnCourse() && worlds == old(worlds) + [Apply(f, old(Now()), a)]
    {
      RunNext(f, worlds, taken, a, Apply(f, Now(), a));
      RunStarts(f, worlds, taken);
      worlds, taken := worlds + [Apply(f, Now(), a)], taken + [a];
    }

    /** Whatever holds in every reachable world holds now. */
    lemma NowSound()
      requires OnCourse()
      ensures Sound(f, Now())
    {
      RunStarts(f, worlds, taken);
      RunSound(f, worlds, taken, |worlds| - 1);
    }

    ghost method Leave(c: Client, others: map<Client, Phase>)
      requires Valid() && At(c, Finished, others)
      modifies `worlds, `taken
      ensures Valid() && Idle(others) && Continues()
    {
      Take(Release(c));
    }

    ghost method GiveUp(c: Client, p: Phase, others: map<Client, Phase>)
      requires Valid() && At(c, p, others) && !p.Waiting? && !p.Finished? && (p.Deleting? ==> p.victims != [])
      modifies `worlds, `taken
      ensures Valid() && Idle(others) && Continues()
    {
      Take(Fail(c, false));
      Leave(c, others);
    }

    ghost method Enter(c: Client, request: Record, limit: nat, others: map<Client, Phase>)
      requires Valid() && Idle(others) && c !in others && IsRequest(request, limit)
      modifies `worlds, `taken
      ensures Valid() && At(c, Scanning(request, limit), others) && Continues()
    {
      Take(Submit(c, request, limit));
      Take(Acquire(c));
    }

    ghost method TakeChoose(
      c: Client, request: Record, limit: nat, r: Record, names: seq<Text>, others: map<Client, Phase>)
      requires OnCourse() && At(c, Scanning(request, limit), others)
      requires Enumerates(names, Now().dir) && Scan(f, Now().dir, names).Loaded?
      requires Decide(Scan(f, Now().dir, names).records, request) == Commit(r)
      modifies `worlds, `taken
      ensures OnCourse() && Continues() && At(c, Writing(r, limit, 0), others)
      ensures Now().dir == old(Now().dir)[TempOf(r) := []]
    {
      Take(Choose(c, names));
    }

    /** ulk_write_file_atomic: a temporary file, flushed and renamed over the record, or removed again if it can be. */
    method WriteAtomic(
      c: Client, request: Record, limit: nat, r: Record, ghost names: seq<Text>, ghost others: map<Client, Phase>)
      returns (ok: bool)
      requires Valid() && At(c, Scanning(request, limit), others)
      requires Enumerates(names, files) && Scan(f, files, names).Loaded?
      requires Decide(Scan(f, files, names).records, request) == Commit(r)
      modifies this
      ensures Valid() && Continues()
      ensures ok ==> At(c, Verifying(limit), others)
      ensures ok ==> View(f, files) == View(f, old(files))[TargetName(r.sessionId) := r]
      ensures !ok ==> Idle(others) && View(f, files) == View(f, old(files))
    {
      var temporary, text := TempName(TargetName(r.sessionId)), f.emit(r);
      var created: bool := *;
      if !created {
        GiveUp(c, Scanning(request, limit), others);
        return false;
      }
      files := files[temporary := []];
      ViewIgnoresTemp(f, old(files), TargetName(r.sessionId), []);
      TakeChoose(c, request, limit, r, names, others);
      ok := FillAndRename(c, r, limit, temporary, text, others);
    }

    ghost method TakeRename(c: Client, r: Record, limit: nat, others: map<Client, Phase>)
      requires Valid() && At(c, Writing(r, limit, |f.emit(r)|), others)
      modifies `worlds, `taken
      ensures OnCourse() && Continues() && At(c, Verifying(limit), others)
      ensures Now().dir == (files - {TempOf(r)})[TargetName(r.sessionId) := f.emit(r)]
      ensures View(f, Now().dir) == View(f, files)[TargetName(r.sessionId) := r]
    {
      CanRename(c, r, limit, others);
      Take(Rename(c));
    }

    lemma CanRename(c: Client, r: Record, limit: nat, others: map<Client, Phase>)
      requires Valid() && At(c, Writing(r, limit, |f.emit(r)|), others)
      ensures Enabled(f, Now(), Rename(c)) && files[TempOf(r)] == f.emit(r)
      ensures View(f, Apply(f, Now(), Rename(c)).dir) == View(f, files)[TargetName(r.sessionId) := r]
    {
      NowSound();
      RenamedView(f, Now(), c, r, limit);
    }

    ghost method TakeWrite(c: Client, r: Record, limit: nat, n: nat, others: map<Client, Phase>)
      requires OnCourse() && At(c, Writing(r, limit, 0), others) && n <= |f.emit(r)|
      modifies `worlds, `taken
      ensures OnCourse() && Continues() && At(c, Writing(r, limit, n), others)
      ensures Now().dir == old(Now().dir)[TempOf(r) := f.emit(r)[..n]]
    {
      Take(WriteTemp(c, n));
    }

    ghost method TakeDiscard(c: Client, r: Record, limit: nat, n: nat, removed: bool, others: map<Client, Phase>)
      requires OnCourse() && At(c, Writing(r, limit, n), others)
      modifies `worlds, `taken
      ensures OnCourse() && Continues() && Idle(others)
      ensures Now().dir == if removed then old(Now().dir) - {TempOf(r)} else old(Now().dir)
    {
      Take(Fail(c, removed));
      Take(Release(c));
    }

    ghost method TakeDelete(
      c: Client, victims: seq<Text>, limit: nat, kept: seq<Record>, others: map<Client, Phase>)
      requires OnCourse() && At(c, Deleting(victims, limit, kept), others) && victims != []
      modifies `worlds, `taken
      ensures OnCourse() && Continues() && At(c, Deleting(victims[1..], limit, kept), others)
      ensures Now().dir == old(Now().dir) - {victims[0]}
    {
      Take(Delete(c));
    }

    method Fill(c: Client, r: Record, limit: nat, temporary: Text, text: Text, ghost others: map<Client, Phase>)
      returns (written: nat)
      requires Valid() && At(c, Writing(r, limit, 0), others) && temporary == TempOf(r) && text == f.emit(r)
      modifies this
      ensures Valid() && Continues() && written <= |text| && At(c, Writing(r, limit, written), others)
      ensures files == old(files)[temporary := text[..written]]
    {
      var accepted: int := *;
      written := if 0 <= accepted <= |text| then accepted else |text|;
      files := files[temporary := text[..written]];
      TakeWrite(c, r, limit, written, others);
    }

    method Replace(c: Client, r: Record, limit: nat, temporary: Text, text: Text, ghost others: map<Client, Phase>)
      requires Valid() && At(c, Writing(r, limit, |text|), others) && temporary == TempOf(r) && text == f.emit(r)
      modifies this
      ensures Valid() && Continues() && At(c, Verifying(limit), others)
      ensures View(f, files) == View(f, old(files))[TargetName(r.sessionId) := r]
    {
      TakeRename(c, r, limit, others);
      files := (files - {temporary})[TargetName(r.sessionId) := text];
    }

    method Discard(c: Client, r: Record, limit: nat, written: nat, temporary: Text, ghost others: map<Client, Phase>)
      requires Valid() && At(c, Writing(r, limit, written), others) && temporary == TempOf(r)
      modifies this
      ensures Valid() && Continues() && Idle(others)
      ensures View(f, files) == View(f, old(files))
    {
      var removed: bool := *;
      ViewIgnoresTemp(f, files, TargetName(r.sessionId), []);
      TakeDiscard(c, r, limit, written, removed, others);
      if removed {
        files := files - {temporary};
      }
    }

    method FillAndRename(
      c: Client, r: Record, limit: nat, temporary: Text, text: Text, ghost others: map<Client, Phase>)
      returns (ok: bool)
      requires Valid() && At(c, Writing(r, limit, 0), others) && temporary == TempOf(r) && text == f.emit(r)
      modifies this
      ensures Valid() && Continues()
      ensures if ok then At(c, Verifying(limit), others) else Idle(others)
      ensures View(f, files) ==
              if ok then View(f, old(files))[TargetName(r.sessionId) := r] else View(f, old(files))
    {
      var written := Fill(c, r, limit, temporary, text, others);
      ViewIgnoresTemp(f, old(files), TargetName(r.sessionId), text[..written]);
      var renamed: bool := *;
      ok := renamed && written == |text|;
      if ok {
        Replace(c, r, limit, temporary, text, others);
      } else {
        Discard(c, r, limit, written, temporary, others);
      }
    }

    method DeleteOne(
      c: Client, s: seq<Record>, limit: nat, index: nat, ghost kept: seq<Record>, ghost others: map<Client, Phase>)
      requires Valid() && limit <= index < |s| && DistinctIds(s) && Pruned(View(f, files), s, limit, index)
      requires At(c, Deleting(Victims(s, limit)[index - limit..], limit, kept), others)
      modifies this
      ensures Valid() && Continues() && Pruned(View(f, files), s, limit, index + 1)
      ensures At(c, Deleting(Victims(s, limit)[index + 1 - limit..], limit, kept), others)
    {
      var target := TargetName(s[index].sessionId);
      ghost var victims := Victims(s, limit)[index - limit..];
      assert victims[0] == target && victims[1..] == Victims(s, limit)[index + 1 - limit..];
      PruneNextFile(f, files, s, limit, index);
      TakeDelete(c, victims, limit, kept, others);
      files := files - {target};
    }

    /** Deletes the listed records past the limit, from the cut towards the oldest, until one deletion fails. */
    method Prune(c: Client, s: seq<Record>, limit: nat, ghost others: map<Client, Phase>)
      returns (ok: bool, ghost end: nat)
      requires Valid() && DistinctIds(s) && |s| > limit && Pruned(View(f, files), s, limit, limit)
      requires At(c, StartOfRetention(s, limit), others)
      modifies this
      ensures Valid() && Continues() && Idle(others) && Pruned(View(f, files), s, limit, end) && (ok ==> end == |s|)
    {
      ghost var kept := StartOfRetention(s, limit).kept;
      ok, end := true, |s|;
      for index := limit to |s|
        invariant Valid() && Continues() && Pruned(View(f, files), s, limit, index) && ok && end == |s|
        invariant At(c, Deleting(Victims(s, limit)[index - limit..], limit, kept), others)
      {
        ok := *;
        if !ok {
          end := index;
          GiveUp(c, Deleting(Victims(s, limit)[index - limit..], limit, kept), others);
          return;
        }
        DeleteOne(c, s, limit, index, kept, others);
      }
      assert Victims(s, limit)[|s| - limit..] == [];
      FinishPruning(c, Deleting([], limit, kept), others);
    }

    ghost method TakeRescan(c: Client, limit: nat, names: seq<Text>, others: map<Client, Phase>)
      requires Valid() && At(c, Verifying(limit), others) && Enumerates(names, files) && Scan(f, files, names).Loaded?
      modifies `worlds, `taken
      ensures Valid() && Continues()
      ensures At(c, StartOfRetention(Scan(f, files, names).records, limit), others)
    {
      Take(Rescan(c, names));
    }

    ghost method FinishPruning(c: Client, p: Phase, others: map<Client, Phase>)
      requires Valid() && At(c, p, others) && p.Deleting? && p.victims == []
      modifies `worlds, `taken
      ensures Valid() && Continues() && Idle(others)
    {
      Take(Release(c));
    }

    /** What a scan of the files yields now. */
    lemma ScanNow(names: seq<Text>)
      requires Valid() && Enumerates(names, files)
      ensures var load := Scan(f, files, names);
              if |View(f, files)| > MAX_RECORDS then load.Failed?
              else load.Loaded? && IsListing(load.records, View(f, files)) && DistinctIds(load.records)
    {
      NowSound();
      ScanIsListing(f, files, names);
      if Scan(f, files, names).Loaded? {
        ListingIds(Scan(f, files, names).records, View(f, files));
      }
    }

    /** What the decision taken on such a scan means now. */
    lemma DecideNow(s: seq<Record>, request: Record, limit: nat)
      requires Valid() && IsListing(s, View(f, files)) && IsRequest(request, limit)
      ensures Decide(s, request) == Replay <==> Replayed(View(f, files), request)
      ensures Decide(s, request).Commit? ==>
                && MayCommit(View(f, files), Decide(s, request).record) && SameContent(Decide(s, request).record, request)
                && Admissible(View(f, files), request)
      ensures Decide(s, request).Refuse? ==> RefusedFor(View(f, files), request, Decide(s, request).reason)
    {
      NowSound();
      DecideMeaning(s, View(f, files), request);
      if Decide(s, request).Refuse? {
        RefusalMeaning(s, View(f, files), request, Decide(s, request).reason);
      }
    }

    /** After the commit: read everything again, then enforce the limit. */
    method Retain(c: Client, limit: nat, ghost others: map<Client, Phase>)
      returns (outcome: Outcome, ghost s: seq<Record>, ghost end: nat)
      requires Valid() && At(c, Verifying(limit), others)
      modifies this
      ensures Valid() && Continues() && Idle(others)
      ensures RetentionMeans(View(f, old(files)), View(f, files), limit, outcome, s, end)
    {
      var load;
      ghost var names;
      load, names := ScanRecords(f, files);
      ScanNow(names);
      if load.Failed? {
        GiveUp(c, Verifying(limit), others);
        return NotVerified, [], 0;
      }
      s := load.records;
      TakeRescan(c, limit, names, others);
      outcome, end := RetainListed(c, load.records, limit, others);
    }

    method RetainListed(c: Client, s: seq<Record>, limit: nat, ghost others: map<Client, Phase>)
      returns (outcome: Outcome, ghost end: nat)
      requires Valid() && At(c, StartOfRetention(s, limit), others)
      requires IsListing(s, View(f, files)) && DistinctIds(s)
      modifies this
      ensures Valid() && Continues() && Idle(others) && (outcome.Done? || outcome.NotPruned?)
      ensures CutDown(View(f, old(files)), View(f, files), s, limit, end, outcome.Done?)
    {
      if |s| <= limit {
        FinishPruning(c, StartOfRetention(s, limit), others);
        return Done, 0;
      }
      PruneNone(View(f, files), s, limit);
      var ok;
      ok, end := Prune(c, s, limit, others);
      outcome := if ok then Done else NotPruned;
    }

    /** The lock is free, and `c` is no client yet. */
    ghost predicate Open(c: Client, others: map<Client, Phase>)
      reads this
    {
      Valid() && Idle(others) && c !in others
    }

    /**
     One whole write, on a journal of the protocol's or on any directory that no scan can read: that one is refused,
     with the reason the files give, and every file is left alone.
     */
    method Write(c: Client, request: Record, limit: nat, ghost others: map<Client, Phase>) returns (outcome: Outcome)
      requires IsRequest(request, limit) && (Open(c, others) || Unscannable(f, files))
      modifies this
      ensures old(Open(c, others)) ==> Valid() && Continues() && Idle(others)
      ensures old(Open(c, others)) ==> WriteMeans(f, old(files), files, request, limit, outcome)
      ensures Unscannable(f, old(files)) <==> outcome.Unreadable?
      ensures outcome.Unreadable? ==> files == old(files) && Caused(f, files, Failed(outcome.incompatible))
    {
      var load;
      ghost var names;
      load, names := ScanRecords(f, files);
      UnscannableFails(f, files, names);
      if load.Failed? {
        RefuseUnreadable(c, request, limit, others);
        return Unreadable(load.incompatible);
      }
      Enter(c, request, limit, others);
      ScanNow(names);
      outcome := Act(c, request, limit, load.records, names, others);
    }

    ghost method RefuseUnreadable(c: Client, request: Record, limit: nat, others: map<Client, Phase>)
      requires IsRequest(request, limit) && Unscannable(f, files)
      modifies `worlds, `taken
      ensures old(Open(c, others)) ==> Valid() && Continues() && Idle(others) && StoreOk(f, files)
    {
      if Open(c, others) {
        NowSound();
        Enter(c, request, limit, others);
        GiveUp(c, Scanning(request, limit), others);
      }
    }

    method Act(
      c: Client, request: Record, limit: nat, s: seq<Record>, ghost names: seq<Text>, ghost others: map<Client, Phase>)
      returns (outcome: Outcome)
      requires Valid() && At(c, Scanning(request, limit), others) && IsRequest(request, limit)
      requires Enumerates(names, files) && Scan(f, files, names) == Loaded(s) && IsListing(s, View(f, files))
      requires |View(f, files)| <= MAX_RECORDS
      modifies this
      ensures Valid() && Continues() && Idle(others)
      ensures WriteMeans(f, old(files), files, request, limit, outcome) && !outcome.Unreadable?
    {
      var decision := DecideLoop(s, request);
      DecideNow(s, request, limit);
      match decision {
        case Replay =>
          TakeNothing(c, request, limit, names, others);
          outcome := Done;
        case Refuse(reason) =>
          TakeNothing(c, request, limit, names, others);
          outcome := Refused(reason);
        case Commit(r) =>
          outcome := Store(c, request, limit, r, names, others);
      }
    }

    ghost method TakeNothing(c: Client, request: Record, limit: nat, names: seq<Text>, others: map<Client, Phase>)
      requires Valid() && At(c, Scanning(request, limit), others)
      requires Enumerates(names, files) && Scan(f, files, names).Loaded?
      requires !Decide(Scan(f, files, names).records, request).Commit?
      modifies `worlds, `taken
      ensures Valid() && Continues() && Idle(others)
    {
      Take(Choose(c, names));
      Leave(c, others);
    }

    /** The part of a write that changes files. */
    method Store(
      c: Client, request: Record, limit: nat, r: Record, ghost names: seq<Text>, ghost others: map<Client, Phase>)
      returns (outcome: Outcome)
      requires Valid() && At(c, Scanning(request, limit), others)
      requires Enumerates(names, files) && Scan(f, files, names).Loaded?
      requires Decide(Scan(f, files, names).records, request) == Commit(r)
      requires MayCommit(View(f, files), r) && SameContent(r, request) && !Replayed(View(f, files), request)
      requires Admissible(View(f, files), request) && |View(f, files)| <= MAX_RECORDS
      modifies this
      ensures Valid() && Continues() && Idle(others)
      ensures WriteMeans(f, old(files), files, request, limit, outcome)
    {
      var serialized: bool := *;
      if !serialized {
        GiveUp(c, Scanning(request, limit), others);
        return NotSerialized;
      }
      var ok := WriteAtomic(c, request, limit, r, names, others);
      if !ok {
        return NotWritten;
      }
      outcome := RetainStored(c, request, limit, r, old(files), others);
    }

    /** The rest of a write whose record is committed. */
    method RetainStored(
      c: Client, request: Record, limit: nat, r: Record, ghost before: Directory, ghost others: map<Client, Phase>)
      returns (outcome: Outcome)
      requires Valid() && At(c, Verifying(limit), others)
      requires MayCommit(View(f, before), r) && SameContent(r, request) && !Replayed(View(f, before), request)
      requires |View(f, before)| <= MAX_RECORDS && View(f, files) == View(f, before)[TargetName(r.sessionId) := r]
      modifies this
      ensures Valid() && Continues() && Idle(others)
      ensures WriteMeans(f, before, files, request, limit, outcome)
    {
      ghost var mid := View(f, files);
      ghost var s, end;
      outcome, s, end := Retain(c, limit, others);
      StoredMeans(f, before, mid, files, request, limit, r, outcome, s, end);
    }
  }
}
