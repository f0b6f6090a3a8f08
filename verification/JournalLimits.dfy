/** The edges of the journal's promises: a retention pass cut short, and directories no scan can read. */
module JournalLimits {
  import opened Bytes
  import opened SessionRecord
  import opened JournalStore
  import opened ScanFailure
  import opened JournalDecision
  import opened JournalProtocol
  import opened JournalSafety
  import opened JournalGuarantees
  import opened JournalLastRun
  import opened JournalHistory
  import Runs

  // ----- a retention pass cut short -----

  ghost predicate Has(s: seq<Record>, runnable: Text) {
    exists r :: r in s && r.runnable == runnable
  }

  /** An answer that is not wrong: nothing, or the most recent admission ever. */
  ghost predicate Current(log: seq<Record>, found: Option<Record>) {
    found.Some? ==> MostRecent(log, found.value)
  }

  lemma SplitLog(log: seq<Record>, from: nat, left: nat, cut: nat, r: Record)
    requires from + left <= cut <= |log|
    ensures r in log <==> r in log[..from] || r in log[from..from + left] || r in log[from + left..cut] || r in log[cut..]
    ensures r in GapLog(log, from, left, cut) <==> r in log[from..from + left] || r in log[cut..]
  {}

  /** With entries missing between `from + left` and `cut`, the newest kept match is the newest match of the log. */
  lemma KeptIsMostRecent(log: seq<Record>, from: nat, left: nat, cut: nat, r: Record)
    requires Ascending(log) && from + left <= cut <= |log| && r in GapLog(log, from, left, cut)
    requires forall x :: x in GapLog(log, from, left, cut) && x.runnable == r.runnable ==> x.commitOrder <= r.commitOrder
    ensures MostRecent(log, r) <==> r in log[cut..] || !Has(log[from + left..cut], r.runnable)
  {}

  /** The runnable was admitted among the kept, or not among the deleted, or not among those left over. */
  ghost predicate AnswersAcross(log: seq<Record>, from: nat, left: nat, cut: nat, runnable: Text)
    requires from + left <= cut <= |log|
  {
    Has(log[cut..], runnable) || !Has(log[from + left..cut], runnable) || !Has(log[from..from + left], runnable)
  }

  /**
   When a pass was cut short with `left` victims to go, Last Run is still right exactly unless a deleted
   admission of the runnable is newer than every kept one and older ones are still there to be found instead.
   */
  lemma LastRunAcrossGap(log: seq<Record>, from: nat, left: nat, cut: nat, runnable: Text)
    requires Ascending(log) && from + left <= cut <= |log|
    ensures Current(log, LastRun(Reverse(GapLog(log, from, left, cut)), runnable)) <==>
            AnswersAcross(log, from, left, cut, runnable)
  {
    var g := GapLog(log, from, left, cut);
    var s := Reverse(g);
    ReverseMembers(g);
    assert NewestFirst(s);
    LastRunMeaning(s, runnable);
    var found := LastRun(s, runnable);
    if found.Some? {
      var r := found.value;
      assert forall x :: x in s && x.runnable == runnable && x != r ==> Newer(r, x);
      KeptIsMostRecent(log, from, left, cut, r);
      SplitLog(log, from, left, cut, r);
      NewestSide(log, from, left, cut, r);
    } else {
      assert forall y :: y in log[from..from + left] ==> y in g;
    }
  }

  lemma NewerAcross(log: seq<Record>, from: nat, left: nat, cut: nat, r: Record, y: Record)
    requires Ascending(log) && from + left <= cut <= |log| && y in log[cut..]
    ensures r in log[from..from + left] ==> r.commitOrder < y.commitOrder
  {}

  /** If there is a match behind the gap, the newest match is there. */
  lemma NewestSide(log: seq<Record>, from: nat, left: nat, cut: nat, r: Record)
    requires Ascending(log) && from + left <= cut <= |log| && r in GapLog(log, from, left, cut)
    requires forall x :: x in GapLog(log, from, left, cut) && x.runnable == r.runnable ==> x.commitOrder <= r.commitOrder
    ensures Has(log[cut..], r.runnable) ==> r in log[cut..]
  {
    SplitLog(log, from, left, cut, r);
    if Has(log[cut..], r.runnable) {
      var y :| y in log[cut..] && y.runnable == r.runnable;
      SplitLog(log, from, left, cut, y);
      NewerAcross(log, from, left, cut, r, y);
    }
  }

  /** The view of a log from which the entries between `from + left` and `cut` are gone. */
  ghost predicate GapView(v: map<Text, Record>, log: seq<Record>, from: nat, left: nat, cut: nat) {
    ViewOk(v) && Ascending(log) && from + left <= cut <= |log| && Holds(v, GapLog(log, from, left, cut))
  }

  /** A crash or failed deletion in the middle of a pass with `left` victims to go leaves such a gap behind. */
  lemma CutShortView(f: Format, w: World, a: Action, w': World, left: nat, cut: int)
    requires ReadsBack(f) && Sound(f, w) && HistoryOk(f, w) && AllIssued(View(f, w.dir)) && !w.gapped && Pruning(w)
    requires Step(f, w, a, w') && w.lock == Some(a.client) && (a.Crash? || a.Fail?)
    requires left == |w.phases[a.client].victims| && cut == |w.log| - w.phases[a.client].limit
    ensures cut >= 0 && GapView(View(f, w'.dir), w'.log, w'.from, left, cut)
  {
    EndedInPlace(f, w, a, w');
    GapDuringPass(f, w, left, cut);
  }

  lemma EndedInPlace(f: Format, w: World, a: Action, w': World)
    requires Pruning(w) && Step(f, w, a, w') && w.lock == Some(a.client) && (a.Crash? || a.Fail?)
    ensures w'.dir == w.dir && w'.log == w.log && w'.from == w.from
  {}

  lemma GapDuringPass(f: Format, w: World, left: nat, cut: int)
    requires Sound(f, w) && HistoryOk(f, w) && AllIssued(View(f, w.dir)) && !w.gapped && Pruning(w)
    requires left == |w.phases[w.lock.value].victims| && cut == |w.log| - w.phases[w.lock.value].limit
    ensures cut >= 0 && GapView(View(f, w.dir), w.log, w.from, left, cut)
  {
    var p := w.phases[w.lock.value];
    HolderOf(f, w, w.lock.value);
    AllVictimsIssued(View(f, w.dir), w.log, w.from, p.victims, p.limit);
  }

  /** Without legacy records every victim is an admission. */
  lemma AllVictimsIssued(v: map<Text, Record>, log: seq<Record>, from: nat, victims: seq<Text>, limit: nat)
    requires AllIssued(v) && victims != [] && PruningOk(v, log, from, victims, limit)
    requires forall i :: 0 <= i < |victims| ==> victims[i] in v
    ensures limit <= |log| && from + |victims| <= |log| - limit
    ensures Holds(v, GapLog(log, from, |victims|, |log| - limit))
  {
    AllIssuedPart(v);
    var left: nat :| PruningAt(v, log, from, victims, limit, left);
    assert victims[|victims| - 1] in IssuedPart(v);
  }

  lemma GapAnswers(
    v: map<Text, Record>, log: seq<Record>, from: nat, left: nat, cut: nat, s: seq<Record>, runnable: Text)
    requires GapView(v, log, from, left, cut) && IsListing(s, v)
    ensures Current(log, LastRun(s, runnable)) <==> AnswersAcross(log, from, left, cut, runnable)
  {
    GapAscending(log, from, left, cut);
    HeldListing(s, v, GapLog(log, from, left, cut));
    LastRunAcrossGap(log, from, left, cut, runnable);
  }

  /** What Last Run is worth after such a crash, whatever is listed then. */
  lemma CutShort(
    f: Format, w: World, a: Action, w': World, left: nat, cut: int, s: seq<Record>, runnable: Text)
    requires ReadsBack(f) && Sound(f, w) && HistoryOk(f, w) && AllIssued(View(f, w.dir)) && !w.gapped && Pruning(w)
    requires Step(f, w, a, w') && w.lock == Some(a.client) && (a.Crash? || a.Fail?)
    requires left == |w.phases[a.client].victims| && cut == |w.log| - w.phases[a.client].limit
    requires IsListing(s, View(f, w'.dir))
    ensures 0 <= w'.from + left <= cut <= |w'.log|
    ensures Current(w'.log, LastRun(s, runnable)) <==> AnswersAcross(w'.log, w'.from, left, cut, runnable)
  {
    CutShortView(f, w, a, w', left, cut);
    GapAnswers(View(f, w'.dir), w'.log, w'.from, left, cut, s, runnable);
  }

  lemma GapAscending(log: seq<Record>, from: nat, left: nat, cut: nat)
    requires Ascending(log) && from + left <= cut <= |log|
    ensures Ascending(GapLog(log, from, left, cut))
  {}

  // ----- the growth cap -----

  ghost predicate NobodyChanging(w: World) {
    forall c :: c in w.phases ==> !w.phases[c].Writing? && !(w.phases[c].Deleting? && w.phases[c].victims != [])
  }

  /** Where no scan succeeds and no write or deletion is in flight, no step touches a file. */
  lemma UnscannableIsStuck(f: Format, w: World, a: Action, w': World)
    requires Step(f, w, a, w') && Unscannable(f, w.dir) && NobodyChanging(w)
    ensures w'.dir == w.dir && NobodyChanging(w') && !a.Choose? && !a.Rescan?
  {
    if a.Choose? || a.Rescan? {
      UnscannableFails(f, w.dir, a.names);
    }
    StillNobodyChanging(f, w, a, w');
  }

  lemma StillNobodyChanging(f: Format, w: World, a: Action, w': World)
    requires NobodyChanging(w) && Step(f, w, a, w') && !a.Choose? && !a.Rescan?
    ensures NobodyChanging(w') && w'.dir == w.dir
  {}

  /**
   It stays so for good: a directory with an unreadable record file, or with more records than the cap, keeps every
   file as it is through any run of any clients, and no scan of it ever succeeds. It need not be one that the protocol
   leads to.
   */
  lemma UnscannableForever(f: Format, ws: seq<World>, actions: seq<Action>, i: nat, j: nat)
    requires IsRun(f, ws, actions) && i <= j < |ws| && Unscannable(f, ws[i].dir) && NobodyChanging(ws[i])
    ensures ws[j].dir == ws[i].dir && NobodyChanging(ws[j])
    ensures forall names :: Enumerates(names, ws[j].dir) ==> Scan(f, ws[j].dir, names).Failed?
  {
    var dir := ws[i].dir;
    var keeps := (w: World) => w.dir == dir && NobodyChanging(w);
    var step := (w: World, a: Action, w': World) => Step(f, w, a, w');
    forall w, a, w' | keeps(w) && step(w, a, w')
      ensures keeps(w')
    {
      UnscannableIsStuck(f, w, a, w');
    }
    forall k: nat | i <= k < j
      ensures step(ws[k], actions[k], ws[k + 1])
    {
      RunStep(f, ws, actions, k);
    }
    Runs.RunKeeps(step, keeps, ws, actions, i, j);
    forall names | Enumerates(names, dir)
      ensures Scan(f, dir, names).Failed?
    {
      UnscannableFails(f, dir, names);
    }
  }

  /** The record that does it: a fresh session committed into a full journal. */
  lemma FreshCommitGrows(f: Format, w: World, a: Action, w': World)
    requires ReadsBack(f) && Inv(f, w) && Step(f, w, a, w') && a.Rename?
    ensures |View(f, w'.dir)| ==
            |View(f, w.dir)| + if TargetName(w.phases[a.client].record.sessionId) in View(f, w.dir) then 0 else 1
  {
    RenameKeeps(f, w, a, w');
    GrowthOfUpdate(View(f, w.dir), TargetName(w.phases[a.client].record.sessionId), w.phases[a.client].record);
  }

  lemma ShrinkOfRemoval(v: map<Text, Record>, n: Text)
    requires n in v
    ensures |v - {n}| == |v| - 1
  {}

  /** The commit that passes the cap: exactly that of a new session into a full journal, and then nothing is in flight. */
  lemma FullJournalOverflows(f: Format, w: World, a: Action, w': World)
    requires ReadsBack(f) && Sound(f, w) && Step(f, w, a, w') && a.Rename? && |View(f, w.dir)| <= MAX_RECORDS
    ensures |View(f, w'.dir)| > MAX_RECORDS <==>
            |View(f, w.dir)| == MAX_RECORDS && TargetName(w.phases[a.client].record.sessionId) !in View(f, w.dir)
    ensures Sound(f, w') && NobodyChanging(w')
  {
    FreshCommitGrows(f, w, a, w');
    StepSound(f, w, a, w');
    AfterRename(f, w, a, w');
  }

  lemma AfterRename(f: Format, w: World, a: Action, w': World)
    requires MutexOk(w) && Step(f, w, a, w') && a.Rename?
    ensures NobodyChanging(w')
  {}

  // ----- within the cap -----

  predicate LimitAtMost(p: Phase, most: nat) {
    match p
    case Waiting(_, limit) => limit <= most
    case Scanning(_, limit) => limit <= most
    case Writing(_, limit, _) => limit <= most
    case Verifying(limit) => limit <= most
    case Deleting(_, limit, _) => limit <= most
    case Finished => true
  }

  ghost predicate LimitsAtMost(w: World, most: nat) {
    forall c :: c in w.phases ==> LimitAtMost(w.phases[c], most)
  }

  /** How many records beyond the limit the lock holder's phase accounts for. */
  function Allowance(w: World): nat {
    if w.lock.Some? && w.lock.value in w.phases then
      match w.phases[w.lock.value]
      case Verifying(_) => 1
      case Deleting(victims, _, _) => |victims|
      case _ => 0
    else 0
  }

  /** While every commit has had its whole retention, only a write in progress takes the count past the largest limit. */
  ghost predicate Tidy(f: Format, w: World, most: nat) {
    LimitsAtMost(w, most) && (!w.interrupted && !w.skipped ==> |View(f, w.dir)| <= most + Allowance(w))
  }

  /** With limits of at most 1023 and no pass skipped or cut short, every scan a writer makes fits the cap. */
  lemma TidyScans(f: Format, w: World, c: Client, most: nat, names: seq<Text>)
    requires Inv(f, w) && Tidy(f, w, most) && most <= MAX_RECORDS - 1 && !w.interrupted && !w.skipped
    requires c in w.phases && (w.phases[c].Scanning? || w.phases[c].Verifying?) && Enumerates(names, w.dir)
    ensures Scan(f, w.dir, names).Loaded?
  {
    HolderOf(f, w, c);
    ScanIsListing(f, w.dir, names);
  }

  lemma RenameAllowance(f: Format, w: World, a: Action, w': World)
    requires MutexOk(w) && Step(f, w, a, w') && a.Rename?
    ensures Allowance(w) == 0 && Allowance(w') == 1 && w'.interrupted == w.interrupted && w'.skipped == w.skipped
  {}

  lemma RescanAllowance(f: Format, w: World, a: Action, w': World)
    requires MutexOk(w) && Step(f, w, a, w') && a.Rescan?
    ensures Allowance(w') == |Victims(Scan(f, w.dir, a.names).records, w.phases[a.client].limit)|
    ensures w'.interrupted == w.interrupted && w'.skipped == w.skipped
  {
    assert w.lock == Some(a.client);
  }

  lemma DeleteAllowance(f: Format, w: World, a: Action, w': World)
    requires MutexOk(w) && Step(f, w, a, w') && a.Delete?
    ensures Allowance(w') == Allowance(w) - 1 && w'.interrupted == w.interrupted && w'.skipped == w.skipped
  {}

  lemma RescanCount(f: Format, w: World, a: Action, w': World, most: nat)
    requires Inv(f, w) && LimitsAtMost(w, most) && Step(f, w, a, w') && a.Rescan?
    ensures |View(f, w.dir)| <= most + |Victims(Scan(f, w.dir, a.names).records, w.phases[a.client].limit)|
  {
    ScanIsListing(f, w.dir, a.names);
    assert LimitAtMost(w.phases[a.client], most);
  }

  lemma DeleteCount(f: Format, w: World, a: Action, w': World)
    requires Inv(f, w) && Step(f, w, a, w') && a.Delete?
    ensures |View(f, w'.dir)| == |View(f, w.dir)| - 1
  {
    HolderOf(f, w, a.client);
    DeleteKeeps(f, w, a, w');
    ShrinkOfRemoval(View(f, w.dir), w.phases[a.client].victims[0]);
  }

  lemma StepCount(f: Format, w: World, a: Action, w': World, most: nat)
    requires ReadsBack(f) && Sound(f, w) && Tidy(f, w, most) && Step(f, w, a, w')
    ensures !w'.interrupted && !w'.skipped ==> |View(f, w'.dir)| <= most + Allowance(w')
  {
    if a.Rename? {
      FreshCommitGrows(f, w, a, w');
      RenameAllowance(f, w, a, w');
    } else if a.Rescan? {
      RescanCount(f, w, a, w', most);
      RescanAllowance(f, w, a, w');
    } else if a.Delete? {
      DeleteCount(f, w, a, w');
      DeleteAllowance(f, w, a, w');
    } else {
      VisibleStep(f, w, a, w');
      OtherAllowance(f, w, a, w');
    }
  }

  lemma OtherAllowance(f: Format, w: World, a: Action, w': World)
    requires MutexOk(w) && Step(f, w, a, w') && !a.Rename? && !a.Rescan? && !a.Delete?
    ensures !w'.interrupted && !w'.skipped ==> !w.interrupted && !w.skipped && Allowance(w') == Allowance(w)
  {
    if a.client in w.phases && HoldsLock(w.phases[a.client]) {
      assert w.lock == Some(a.client);
    }
  }

  lemma StepLimits(f: Format, w: World, a: Action, w': World, most: nat)
    requires LimitsAtMost(w, most) && Step(f, w, a, w') && (a.Submit? ==> a.limit <= most)
    ensures LimitsAtMost(w', most)
  {
    if a.client in w.phases {
      assert LimitAtMost(w.phases[a.client], most);
    }
  }

  /** Every step keeps a journal tidy as long as the limits asked for stay within `most`. */
  lemma StepTidy(f: Format, w: World, a: Action, w': World, most: nat)
    requires ReadsBack(f) && Sound(f, w) && Tidy(f, w, most) && Step(f, w, a, w') && (a.Submit? ==> a.limit <= most)
    ensures Tidy(f, w', most)
  {
    StepLimits(f, w, a, w', most);
    StepCount(f, w, a, w', most);
  }

  ghost predicate SoundAndTidy(f: Format, w: World, most: nat) {
    Sound(f, w) && Tidy(f, w, most)
  }

  lemma StepSoundAndTidy(f: Format, w: World, a: Action, w': World, most: nat)
    requires ReadsBack(f) && SoundAndTidy(f, w, most) && Step(f, w, a, w') && (a.Submit? ==> a.limit <= most)
    ensures SoundAndTidy(f, w', most)
  {
    StepSound(f, w, a, w');
    StepTidy(f, w, a, w', most);
  }

  lemma InitialTidy(f: Format, w: World, most: nat)
    requires Initial(f, w) && |View(f, w.dir)| <= most
    ensures SoundAndTidy(f, w, most)
  {
    InitialInv(f, w);
  }

  lemma RunTidy(f: Format, ws: seq<World>, actions: seq<Action>, most: nat, i: nat)
    requires ReadsBack(f) && IsRun(f, ws, actions) && Initial(f, ws[0]) && |View(f, ws[0].dir)| <= most && i < |ws|
    requires forall k :: 0 <= k < |actions| && actions[k].Submit? ==> actions[k].limit <= most
    ensures SoundAndTidy(f, ws[i], most)
  {
    InitialTidy(f, ws[0], most);
    var keeps := (w: World) => SoundAndTidy(f, w, most);
    var step := (w: World, a: Action, w': World) => Step(f, w, a, w') && (a.Submit? ==> a.limit <= most);
    forall w, a, w' | keeps(w) && step(w, a, w')
      ensures keeps(w')
    {
      StepSoundAndTidy(f, w, a, w', most);
    }
    forall k: nat | 0 <= k < i
      ensures step(ws[k], actions[k], ws[k + 1])
    {
      RunStep(f, ws, actions, k);
    }
    Runs.RunKeeps(step, keeps, ws, actions, 0, i);
  }

  /** In runs whose commits all got their retention, with limits of at most 1023, no writer's scan meets the cap. */
  lemma EveryScanFits(
    f: Format, ws: seq<World>, actions: seq<Action>, most: nat, i: nat, c: Client, names: seq<Text>)
    requires ReadsBack(f) && IsRun(f, ws, actions) && Initial(f, ws[0]) && |View(f, ws[0].dir)| <= most <= MAX_RECORDS - 1
    requires forall k :: 0 <= k < |actions| && actions[k].Submit? ==> actions[k].limit <= most
    requires i < |ws| && !ws[i].interrupted && !ws[i].skipped && Enumerates(names, ws[i].dir)
    requires c in ws[i].phases && (ws[i].phases[c].Scanning? || ws[i].phases[c].Verifying?)
    ensures Scan(f, ws[i].dir, names).Loaded?
  {
    RunTidy(f, ws, actions, most, i);
    TidyScans(f, ws[i], c, most, names);
  }
}
