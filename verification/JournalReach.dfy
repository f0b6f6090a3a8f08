/** Runs put together step by step: which worlds a journal really gets into. */
module JournalReach {
  import opened Bytes
  import opened SessionRecord
  import opened JournalStore
  import opened JournalDecision
  import opened JournalProtocol
  import opened JournalSafety
  import opened JournalGuarantees

  ghost predicate LimitsWithin(actions: seq<Action>, lo: nat, hi: nat) {
    forall k :: 0 <= k < |actions| && actions[k].Submit? ==> lo <= actions[k].limit <= hi
  }

  /** Some run leads from `start` to `w`, all its limits from `lo` to `hi`. */
  ghost predicate Reaches(f: Format, start: World, lo: nat, hi: nat, w: World) {
    exists ws, actions: seq<Action> ::
      IsRun(f, ws, actions) && ws[0] == start && ws[|ws| - 1] == w && LimitsWithin(actions, lo, hi)
  }

  lemma ReachStart(f: Format, start: World, lo: nat, hi: nat)
    ensures Reaches(f, start, lo, hi, start)
  {
    assert IsRun(f, [start], []) && LimitsWithin([], lo, hi);
  }

  lemma ReachNext(f: Format, start: World, lo: nat, hi: nat, w: World, a: Action, w': World)
    requires Reaches(f, start, lo, hi, w) && Step(f, w, a, w') && (a.Submit? ==> lo <= a.limit <= hi)
    ensures Reaches(f, start, lo, hi, w')
  {
    var ws, actions: seq<Action> :|
      IsRun(f, ws, actions) && ws[0] == start && ws[|ws| - 1] == w && LimitsWithin(actions, lo, hi);
    RunNext(f, ws, actions, a, w');
    var ws', actions' := ws + [w'], actions + [a];
    assert ws'[0] == start && ws'[|ws'| - 1] == w' && LimitsWithin(actions', lo, hi);
  }

  lemma ReachSound(f: Format, start: World, lo: nat, hi: nat, w: World)
    requires ReadsBack(f) && Initial(f, start) && Reaches(f, start, lo, hi, w)
    ensures Sound(f, w)
  {
    var ws, actions: seq<Action> :|
      IsRun(f, ws, actions) && ws[0] == start && ws[|ws| - 1] == w && LimitsWithin(actions, lo, hi);
    RunSound(f, ws, actions, |ws| - 1);
  }

  // ----- one client at work -----

  ghost predicate Alone(w: World, c: Client, p: Phase) {
    w.lock == Some(c) && w.phases == map[c := p]
  }

  ghost predicate Idle(w: World) { w.lock.None? && w.phases == map[] }

  lemma Enters(f: Format, w: World, c: Client, request: Record, limit: nat) returns (w1: World, w2: World)
    requires Idle(w) && IsRequest(request, limit)
    ensures Step(f, w, Submit(c, request, limit), w1) && Step(f, w1, Acquire(c), w2)
    ensures Alone(w2, c, Scanning(request, limit)) && w2.dir == w.dir && w2.log == w.log
  {
    w1 := Apply(f, w, Submit(c, request, limit));
    w2 := Apply(f, w1, Acquire(c));
  }

  lemma Chooses(f: Format, w: World, c: Client, request: Record, limit: nat, names: seq<Text>, r: Record) returns (w': World)
    requires Alone(w, c, Scanning(request, limit)) && Enumerates(names, w.dir) && Scan(f, w.dir, names).Loaded?
    requires Decide(Scan(f, w.dir, names).records, request) == Commit(r)
    ensures Step(f, w, Choose(c, names), w')
    ensures Alone(w', c, Writing(r, limit, 0)) && w'.dir == w.dir[TempOf(r) := []] && w'.log == w.log
  {
    w' := Apply(f, w, Choose(c, names));
  }

  lemma Fills(f: Format, w: World, c: Client, limit: nat, r: Record) returns (w': World)
    requires Alone(w, c, Writing(r, limit, 0))
    ensures Step(f, w, WriteTemp(c, |f.emit(r)|), w')
    ensures Alone(w', c, Writing(r, limit, |f.emit(r)|)) && w'.dir == w.dir[TempOf(r) := f.emit(r)] && w'.log == w.log
  {
    w' := Apply(f, w, WriteTemp(c, |f.emit(r)|));
    assert f.emit(r)[..|f.emit(r)|] == f.emit(r);
  }

  lemma Commits(f: Format, w: World, c: Client, limit: nat, r: Record) returns (w': World)
    requires ReadsBack(f) && Inv(f, w) && Alone(w, c, Writing(r, limit, |f.emit(r)|))
    ensures Step(f, w, Rename(c), w')
    ensures Alone(w', c, Verifying(limit)) && w'.log == Admit(w.log, r)
    ensures View(f, w'.dir) == View(f, w.dir)[TargetName(r.sessionId) := r]
  {
    RenamedView(f, w, c, r, limit);
    w' := Apply(f, w, Rename(c));
    AloneAfterRename(f, w, c, limit, r);
  }

  lemma AloneAfterRename(f: Format, w: World, c: Client, limit: nat, r: Record)
    requires Alone(w, c, Writing(r, limit, |f.emit(r)|)) && Enabled(f, w, Rename(c))
    ensures var w' := Apply(f, w, Rename(c)); Alone(w', c, Verifying(limit)) && w'.log == Admit(w.log, r)
  {}

  lemma Rescans(f: Format, w: World, c: Client, limit: nat, names: seq<Text>) returns (w': World)
    requires Alone(w, c, Verifying(limit)) && Enumerates(names, w.dir) && Scan(f, w.dir, names).Loaded?
    ensures Step(f, w, Rescan(c, names), w')
    ensures Alone(w', c, StartOfRetention(Scan(f, w.dir, names).records, limit)) && w'.dir == w.dir && w'.log == w.log
  {
    w' := Apply(f, w, Rescan(c, names));
  }

  lemma Leaves(f: Format, w: World, c: Client, p: Phase) returns (w': World)
    requires Alone(w, c, p) && (p.Finished? || (p.Deleting? && p.victims == []))
    ensures Step(f, w, Release(c), w') && Idle(w') && w'.dir == w.dir && w'.log == w.log
  {
    w' := Apply(f, w, Release(c));
  }

  /** From an idle world, a request that is decided to be committed can be, up to the second scan. */
  lemma ReachCommitted(
    f: Format, start: World, lo: nat, hi: nat, w: World, c: Client, request: Record, limit: nat, s: seq<Record>, r: Record)
    returns (w': World)
    requires ReadsBack(f) && Initial(f, start) && Reaches(f, start, lo, hi, w) && Idle(w)
    requires IsRequest(request, limit) && lo <= limit <= hi
    requires IsListing(s, View(f, w.dir)) && |View(f, w.dir)| <= MAX_RECORDS && Decide(s, request) == Commit(r)
    ensures Reaches(f, start, lo, hi, w') && Alone(w', c, Verifying(limit))
    ensures View(f, w'.dir) == View(f, w.dir)[TargetName(r.sessionId) := r] && w'.log == Admit(w.log, r)
  {
    ReachSound(f, start, lo, hi, w);
    var w1, w2 := Enters(f, w, c, request, limit);
    ReachNext(f, start, lo, hi, w, Submit(c, request, limit), w1);
    ReachNext(f, start, lo, hi, w1, Acquire(c), w2);
    var names := ListedScan(f, w2.dir, s);
    var w3 := Chooses(f, w2, c, request, limit, names, r);
    ReachNext(f, start, lo, hi, w2, Choose(c, names), w3);
    w' := ReachWritten(f, start, lo, hi, w3, c, limit, r);
    ViewIgnoresTemp(f, w.dir, TargetName(r.sessionId), []);
  }

  lemma ReachWritten(f: Format, start: World, lo: nat, hi: nat, w: World, c: Client, limit: nat, r: Record) returns (w': World)
    requires ReadsBack(f) && Initial(f, start) && Reaches(f, start, lo, hi, w) && Alone(w, c, Writing(r, limit, 0))
    ensures Reaches(f, start, lo, hi, w') && Alone(w', c, Verifying(limit))
    ensures View(f, w'.dir) == View(f, w.dir)[TargetName(r.sessionId) := r] && w'.log == Admit(w.log, r)
  {
    var w1 := Fills(f, w, c, limit, r);
    ReachNext(f, start, lo, hi, w, WriteTemp(c, |f.emit(r)|), w1);
    ReachSound(f, start, lo, hi, w1);
    ViewIgnoresTemp(f, w.dir, TargetName(r.sessionId), f.emit(r));
    w' := Commits(f, w1, c, limit, r);
    ReachNext(f, start, lo, hi, w1, Rename(c), w');
  }

  /** Some enumeration of a sound directory scans to its listing. */
  lemma ListedScan(f: Format, dir: Directory, s: seq<Record>) returns (names: seq<Text>)
    requires StoreOk(f, dir) && IsListing(s, View(f, dir)) && |View(f, dir)| <= MAX_RECORDS
    ensures Enumerates(names, dir) && Scan(f, dir, names) == Loaded(s)
  {
    names := Listed(dir.Keys);
    ScanIsListing(f, dir, names);
    ListingUnique(Scan(f, dir, names).records, s, View(f, dir));
  }

  /** A committed write with nothing to delete goes back to idle. */
  lemma ReachReleased(
    f: Format, start: World, lo: nat, hi: nat, w: World, c: Client, limit: nat, s: seq<Record>) returns (w': World)
    requires ReadsBack(f) && Initial(f, start) && Reaches(f, start, lo, hi, w) && Alone(w, c, Verifying(limit))
    requires IsListing(s, View(f, w.dir)) && |View(f, w.dir)| <= MAX_RECORDS && |s| <= limit
    ensures Reaches(f, start, lo, hi, w') && Idle(w') && w'.dir == w.dir && w'.log == w.log
  {
    ReachSound(f, start, lo, hi, w);
    var names := ListedScan(f, w.dir, s);
    var w1 := Rescans(f, w, c, limit, names);
    ReachNext(f, start, lo, hi, w, Rescan(c, names), w1);
    w' := Leaves(f, w1, c, StartOfRetention(s, limit));
    ReachNext(f, start, lo, hi, w1, Release(c), w');
  }
}
