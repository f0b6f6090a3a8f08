/**
 Last Run in every reachable world, however many passes were cut short.

 What is missing from the log is a beginning and, behind it, stretches of entries with retained ones on either side.
 Each such stretch goes back to a pass that was cut short: a pass deletes from its cut towards the oldest entry, so it
 adds one stretch at most, and one that finishes joins everything before its cut to the missing beginning.
 */
module JournalStretches {
  import opened Bytes
  import opened SessionRecord
  import opened JournalStore
  import opened JournalDecision
  import opened JournalProtocol
  import opened JournalSafety
  import opened JournalGuarantees
  import opened JournalLastRun
  import opened JournalHistory
  import opened JournalRecovery
  import Runs

  // ----- exactly when Last Run is right -----

  /** The newest admission of the runnable is still there. */
  ghost predicate NewestKept(v: map<Text, Record>, log: seq<Record>, runnable: Text) {
    exists i ::
      && 0 <= i < |log| && log[i].runnable == runnable && Retained(v, log[i])
      && forall j :: i < j < |log| ==> log[j].runnable != runnable
  }

  ghost predicate NoneLeft(v: map<Text, Record>, runnable: Text) {
    forall n :: n in v ==> v[n].runnable != runnable
  }

  lemma OnlyNewestIsMostRecent(log: seq<Record>, i: nat, r: Record)
    requires Ascending(log) && i < |log| && log[i].runnable == r.runnable
    requires forall j :: i < j < |log| ==> log[j].runnable != r.runnable
    ensures MostRecent(log, r) ==> r == log[i]
  {
    assert log[i] in log;
    if r in log {
      var k :| 0 <= k < |log| && log[k] == r;
    }
  }

  /** Last Run is right exactly if the runnable's newest admission is left, or nothing of the runnable, or it has none. */
  lemma LastRunDecided(log: seq<Record>, v: map<Text, Record>, s: seq<Record>, runnable: Text)
    requires IsListing(s, v) && ViewOk(v) && LogOk(log, v)
    ensures Truthful(log, runnable, LastRun(s, runnable)) <==>
            !AdmittedIn(log, runnable) || NewestKept(v, log, runnable) || NoneLeft(v, runnable)
  {
    LastRunMeaning(s, runnable);
    if AdmittedIn(log, runnable) {
      var i := NewestAdmission(log, runnable);
      if Retained(v, log[i]) {
        KeptAnswers(log, v, s, runnable, i);
      } else {
        LostMisleads(log, v, s, runnable, i);
      }
    } else {
      NeverAdmitted(log, v, s, runnable);
    }
  }

  lemma NeverAdmitted(log: seq<Record>, v: map<Text, Record>, s: seq<Record>, runnable: Text)
    requires IsListing(s, v) && ViewOk(v) && LogOk(log, v) && !AdmittedIn(log, runnable)
    ensures Truthful(log, runnable, LastRun(s, runnable))
  {
    LastRunMeaning(s, runnable);
    ListedIsLogged(log, v, s);
  }

  lemma ListedIsLogged(log: seq<Record>, v: map<Text, Record>, s: seq<Record>)
    requires IsListing(s, v) && LogOk(log, v)
    ensures forall r :: r in s && r.commitOrder > 0 ==> r in log
  {}

  lemma KeptAnswers(log: seq<Record>, v: map<Text, Record>, s: seq<Record>, runnable: Text, i: nat)
    requires IsListing(s, v) && ViewOk(v) && LogOk(log, v) && i < |log| && Retained(v, log[i])
    requires log[i].runnable == runnable && forall j :: i < j < |log| ==> log[j].runnable != runnable
    ensures Truthful(log, runnable, LastRun(s, runnable)) && NewestKept(v, log, runnable)
  {
    RetainedAdmissionAnswers(log, v, s, runnable, i);
  }

  lemma LostMisleads(log: seq<Record>, v: map<Text, Record>, s: seq<Record>, runnable: Text, i: nat)
    requires IsListing(s, v) && ViewOk(v) && LogOk(log, v) && i < |log| && !Retained(v, log[i])
    requires log[i].runnable == runnable && forall j :: i < j < |log| ==> log[j].runnable != runnable
    ensures !NewestKept(v, log, runnable)
    ensures Truthful(log, runnable, LastRun(s, runnable)) <==> NoneLeft(v, runnable)
  {
    LastRunMeaning(s, runnable);
    var found := LastRun(s, runnable);
    assert log[i] in log;
    if found.Some? {
      assert Retained(v, found.value);
      OnlyNewestIsMostRecent(log, i, found.value);
    } else {
      forall n | n in v
        ensures v[n].runnable != runnable
      {
        assert v[n] in s;
      }
    }
  }

  /** So it is in every world of every run, whatever was cut short before and whatever legacy records there are. */
  lemma RunLastRunDecided(f: Format, ws: seq<World>, actions: seq<Action>, i: nat, s: seq<Record>, runnable: Text)
    requires ReadsBack(f) && IsRun(f, ws, actions) && Initial(f, ws[0]) && i < |ws| && IsListing(s, View(f, ws[i].dir))
    ensures var v, log := View(f, ws[i].dir), ws[i].log;
            Truthful(log, runnable, LastRun(s, runnable)) <==>
            !AdmittedIn(log, runnable) || NewestKept(v, log, runnable) || NoneLeft(v, runnable)
  {
    RunSound(f, ws, actions, i);
    LastRunDecided(ws[i].log, View(f, ws[i].dir), s, runnable);
  }

  // ----- missing stretches -----

  /** A missing stretch begins behind a retained entry. */
  ghost predicate StretchAt(v: map<Text, Record>, log: seq<Record>, i: nat) {
    0 < i < |log| && Retained(v, log[i - 1]) && !Retained(v, log[i])
  }

  /** Where the stretches begin that have retained entries on either side. */
  ghost function Stretches(v: map<Text, Record>, log: seq<Record>): set<nat> {
    set i: nat | i < |log| && StretchAt(v, log, i)
  }

  predicate IsVictim(victims: seq<Text>, r: Record) { TargetName(r.sessionId) in victims }

  /** A stretch among or behind what a pass keeps. */
  ghost predicate KeptStretchAt(v: map<Text, Record>, log: seq<Record>, victims: seq<Text>, i: nat) {
    StretchAt(v, log, i) && !IsVictim(victims, log[i - 1])
  }

  ghost function KeptStretches(v: map<Text, Record>, log: seq<Record>, victims: seq<Text>): set<nat> {
    set i: nat | i < |log| && KeptStretchAt(v, log, victims, i)
  }

  /** The stretches as if the last entry before the cut were missing already. */
  ghost predicate BorderAt(v: map<Text, Record>, log: seq<Record>, victims: seq<Text>, i: nat) {
    && 0 < i < |log| && Retained(v, log[i - 1])
    && if IsVictim(victims, log[i - 1]) then !(Retained(v, log[i]) && IsVictim(victims, log[i])) else !Retained(v, log[i])
  }

  ghost function Borders(v: map<Text, Record>, log: seq<Record>, victims: seq<Text>): set<nat> {
    set i: nat | i < |log| && BorderAt(v, log, victims, i)
  }

  lemma SubsetSize<T>(a: set<T>, b: set<T>)
    requires a <= b
    ensures |a| <= |b|
  {
    if a != b {
      assert |b - a| > 0 && |a| + |b - a| == |a + (b - a)| && a + (b - a) == b;
    }
  }

  // ----- a pass -----

  ghost predicate VictimsSorted(v: map<Text, Record>, victims: seq<Text>) {
    && (forall i :: 0 <= i < |victims| ==> victims[i] in v)
    && forall i, j :: 0 <= i < j < |victims| ==> Newer(v[victims[i]], v[victims[j]])
  }

  lemma VictimsAreSorted(s: seq<Record>, v: map<Text, Record>, limit: nat)
    requires IsListing(s, v)
    ensures VictimsSorted(v, Victims(s, limit))
  {
    var names := Victims(s, limit);
    forall i | 0 <= i < |names|
      ensures names[i] in v && v[names[i]] == s[limit + i]
    {
      assert s[limit + i] in s;
    }
  }

  lemma FewerSorted(v: map<Text, Record>, victims: seq<Text>)
    requires VictimsSorted(v, victims) && victims != [] && Distinct(victims)
    ensures VictimsSorted(v - {victims[0]}, victims[1..])
  {
    forall j | 0 <= j < |victims| - 1
      ensures victims[1..][j] == victims[j + 1] != victims[0]
    {}
  }

  /** A retained entry that is no victim is newer than every retained one that is. */
  lemma VictimsAreOlder(v: map<Text, Record>, log: seq<Record>, p: Phase, a: nat, b: nat)
    requires Ascending(log) && p.Deleting? && BehindCut(v, p) && a < |log| && b < |log|
    requires Retained(v, log[a]) && !IsVictim(p.victims, log[a]) && Retained(v, log[b]) && IsVictim(p.victims, log[b])
    ensures a > b
  {
    assert log[a] in p.kept;
    var i :| 0 <= i < |p.kept| && p.kept[i] == log[a];
    var j :| 0 <= j < |p.victims| && p.victims[j] == TargetName(log[b].sessionId);
    assert Newer(p.kept[i], v[p.victims[j]]);
  }

  /** At its start a pass has one border more than there are stretches. */
  lemma BordersAtStart(v: map<Text, Record>, log: seq<Record>, p: Phase)
    requires Ascending(log) && p.Deleting? && BehindCut(v, p)
    ensures |Borders(v, log, p.victims)| <= |Stretches(v, log)| + 1
    ensures |KeptStretches(v, log, p.victims)| <= |Stretches(v, log)|
  {
    SubsetSize(KeptStretches(v, log, p.victims), Stretches(v, log));
    var rest := Borders(v, log, p.victims) - Stretches(v, log);
    forall i, j | i in rest && j in rest
      ensures i == j
    {
      OneCut(v, log, p, i, j);
      OneCut(v, log, p, j, i);
    }
    AtMostOne(rest);
    SubsetSize(Borders(v, log, p.victims), Stretches(v, log) + rest);
  }

  lemma AtMostOne<T>(s: set<T>)
    requires forall x, y :: x in s && y in s ==> x == y
    ensures |s| <= 1
  {
    if x :| x in s {
      assert s == {x};
    }
  }

  lemma OneCut(v: map<Text, Record>, log: seq<Record>, p: Phase, i: nat, j: nat)
    requires Ascending(log) && p.Deleting? && BehindCut(v, p)
    requires BorderAt(v, log, p.victims, i) && !StretchAt(v, log, i)
    requires BorderAt(v, log, p.victims, j) && !StretchAt(v, log, j)
    ensures i >= j
  {
    VictimsAreOlder(v, log, p, i, j - 1);
  }

  /** While a pass is under way, no deletion adds a border. */
  lemma BordersAfter(v: map<Text, Record>, log: seq<Record>, p: Phase, v': map<Text, Record>)
    requires LogOk(log, v) && ViewOk(v) && p.Deleting? && p.victims != [] && Distinct(p.victims)
    requires BehindCut(v, p) && VictimsSorted(v, p.victims) && v' == v - {p.victims[0]}
    requires log != [] ==> !IsVictim(p.victims, log[|log| - 1])
    ensures |Borders(v', log, p.victims[1..])| <= |Borders(v, log, p.victims)|
    ensures |KeptStretches(v', log, p.victims[1..])| <= |KeptStretches(v, log, p.victims)|
  {
    if k: nat :| k < |log| && Retained(v, log[k]) && TargetName(log[k].sessionId) == p.victims[0] {
      BordersAfterEntry(v, log, p, v', k);
    } else {
      BordersAfterLegacy(v, log, p, v');
    }
  }

  lemma StillVictim(victims: seq<Text>, r: Record)
    requires victims != [] && TargetName(r.sessionId) != victims[0]
    ensures IsVictim(victims[1..], r) == IsVictim(victims, r)
  {
    assert victims == [victims[0]] + victims[1..];
  }

  lemma BordersAfterLegacy(v: map<Text, Record>, log: seq<Record>, p: Phase, v': map<Text, Record>)
    requires p.Deleting? && p.victims != [] && v' == v - {p.victims[0]}
    requires forall k: nat :: k < |log| && Retained(v, log[k]) ==> TargetName(log[k].sessionId) != p.victims[0]
    ensures |Borders(v', log, p.victims[1..])| <= |Borders(v, log, p.victims)|
    ensures |KeptStretches(v', log, p.victims[1..])| <= |KeptStretches(v, log, p.victims)|
  {
    forall i: nat | i < |log|
      ensures Retained(v', log[i]) == Retained(v, log[i])
      ensures Retained(v, log[i]) ==> IsVictim(p.victims[1..], log[i]) == IsVictim(p.victims, log[i])
    {
      if Retained(v, log[i]) {
        StillVictim(p.victims, log[i]);
      }
    }
    SubsetSize(Borders(v', log, p.victims[1..]), Borders(v, log, p.victims));
    SubsetSize(KeptStretches(v', log, p.victims[1..]), KeptStretches(v, log, p.victims));
  }

  /** The deleted entry is the newest victim: the border above it moves below it. */
  lemma BordersAfterEntry(v: map<Text, Record>, log: seq<Record>, p: Phase, v': map<Text, Record>, k: nat)
    requires LogOk(log, v) && ViewOk(v) && p.Deleting? && p.victims != []
    requires BehindCut(v, p) && VictimsSorted(v, p.victims) && v' == v - {p.victims[0]}
    requires k < |log| && Retained(v, log[k]) && TargetName(log[k].sessionId) == p.victims[0]
    requires !IsVictim(p.victims, log[|log| - 1])
    ensures |Borders(v', log, p.victims[1..])| <= |Borders(v, log, p.victims)|
    ensures |KeptStretches(v', log, p.victims[1..])| <= |KeptStretches(v, log, p.victims)|
  {
    BorderAbove(v, log, p, k);
    forall i | i in Borders(v', log, p.victims[1..]) && i != k
      ensures i in Borders(v, log, p.victims) && i != k + 1
    {
      BorderStays(v, log, p, v', k, i);
    }
    MovedSize(Borders(v, log, p.victims), Borders(v', log, p.victims[1..]), k);
    forall i | i in KeptStretches(v', log, p.victims[1..])
      ensures i in KeptStretches(v, log, p.victims)
    {
      KeptStretchStays(v, log, p, v', k, i);
    }
    SubsetSize(KeptStretches(v', log, p.victims[1..]), KeptStretches(v, log, p.victims));
  }

  lemma MovedSize(before: set<nat>, after: set<nat>, k: nat)
    requires k + 1 in before && forall i :: i in after && i != k ==> i in before && i != k + 1
    ensures |after| <= |before|
  {
    SubsetSize(after, (before - {k + 1}) + {k});
  }

  lemma BorderAbove(v: map<Text, Record>, log: seq<Record>, p: Phase, k: nat)
    requires LogOk(log, v) && p.Deleting? && p.victims != [] && VictimsSorted(v, p.victims)
    requires k < |log| && Retained(v, log[k]) && TargetName(log[k].sessionId) == p.victims[0]
    requires !IsVictim(p.victims, log[|log| - 1])
    ensures k + 1 in Borders(v, log, p.victims)
  {
    assert k + 1 < |log|;
    if Retained(v, log[k + 1]) && IsVictim(p.victims, log[k + 1]) {
      var j :| 0 <= j < |p.victims| && p.victims[j] == TargetName(log[k + 1].sessionId);
      assert log[k].commitOrder < log[k + 1].commitOrder;
      assert j > 0 ==> Newer(v[p.victims[0]], v[p.victims[j]]);
    }
  }

  lemma OthersStay(v: map<Text, Record>, log: seq<Record>, victims: seq<Text>, v': map<Text, Record>, k: nat, i: nat)
    requires Ascending(log) && victims != [] && v' == v - {victims[0]} && i < |log| && i != k
    requires k < |log| && Retained(v, log[k]) && TargetName(log[k].sessionId) == victims[0]
    ensures Retained(v', log[i]) == Retained(v, log[i])
    ensures Retained(v, log[i]) ==> IsVictim(victims[1..], log[i]) == IsVictim(victims, log[i])
  {
    assert log[i].commitOrder != log[k].commitOrder;
    if Retained(v, log[i]) {
      StillVictim(victims, log[i]);
    }
  }

  lemma BorderStays(v: map<Text, Record>, log: seq<Record>, p: Phase, v': map<Text, Record>, k: nat, i: nat)
    requires Ascending(log) && p.Deleting? && p.victims != [] && v' == v - {p.victims[0]}
    requires k < |log| && Retained(v, log[k]) && TargetName(log[k].sessionId) == p.victims[0]
    requires BorderAt(v', log, p.victims[1..], i) && i != k
    ensures BorderAt(v, log, p.victims, i) && i != k + 1
  {
    OthersStay(v, log, p.victims, v', k, i);
    assert i - 1 != k;
    OthersStay(v, log, p.victims, v', k, i - 1);
  }

  lemma KeptStretchStays(v: map<Text, Record>, log: seq<Record>, p: Phase, v': map<Text, Record>, k: nat, i: nat)
    requires Ascending(log) && p.Deleting? && p.victims != [] && BehindCut(v, p) && v' == v - {p.victims[0]}
    requires k < |log| && Retained(v, log[k]) && TargetName(log[k].sessionId) == p.victims[0]
    requires KeptStretchAt(v', log, p.victims[1..], i)
    ensures KeptStretchAt(v, log, p.victims, i)
  {
    assert i - 1 != k;
    OthersStay(v, log, p.victims, v', k, i - 1);
    VictimsAreOlder(v, log, p, i - 1, k);
    OthersStay(v, log, p.victims, v', k, i);
  }

  // ----- a commit -----

  lemma CommitStretches(v: map<Text, Record>, log: seq<Record>, r: Record)
    requires ViewOk(v) && MayCommit(v, r) && LogOk(log, v)
    ensures |Stretches(v[TargetName(r.sessionId) := r], Admit(log, r))| <= |Stretches(v, log)|
  {
    var v', log' := v[TargetName(r.sessionId) := r], Admit(log, r);
    forall i | i in Stretches(v', log')
      ensures i in Stretches(v, log)
    {
      CommitEntry(v, log, r, i);
      CommitEntry(v, log, r, i - 1);
    }
    SubsetSize(Stretches(v', log'), Stretches(v, log));
  }

  /** A commit leaves every earlier entry retained or missing as it was, and its own entry retained. */
  lemma CommitEntry(v: map<Text, Record>, log: seq<Record>, r: Record, i: nat)
    requires ViewOk(v) && MayCommit(v, r) && LogOk(log, v) && i < |Admit(log, r)|
    ensures var v' := v[TargetName(r.sessionId) := r];
            Retained(v', Admit(log, r)[i]) == if i < |log| then Retained(v, log[i]) else true
  {
    var target := TargetName(r.sessionId);
    if target in v && v[target].commitOrder > 0 {
      var k :| 0 <= k < |log| && log[k] == v[target];
      AdmitReplaces(log, r, k);
      ReplacedEntry(v, log, r, k, i);
    } else {
      ExceedsIssued(log, v, r);
      if i < |log| {
        assert log[i].commitOrder < r.commitOrder;
      }
    }
  }

  lemma ReplacedEntry(v: map<Text, Record>, log: seq<Record>, r: Record, k: nat, i: nat)
    requires Ascending(log) && k < |log| && i < |log| && TargetName(r.sessionId) in v && log[k] == v[TargetName(r.sessionId)]
    requires ViewOk(v) && r.commitOrder == log[k].commitOrder
    ensures Retained(v[TargetName(r.sessionId) := r], log[k := r][i]) == Retained(v, log[i])
  {
    if i != k {
      assert log[i].commitOrder != log[k].commitOrder;
    }
  }

  // ----- every step and every run -----

  /** At most `n` stretches, or one more while a pass is under way that may still be cut short. */
  ghost predicate StretchesOk(f: Format, w: World, n: nat) {
    var v := View(f, w.dir);
    if Pruning(w) then
      var victims := w.phases[w.lock.value].victims;
      && VictimsSorted(v, victims)
      && |KeptStretches(v, w.log, victims)| <= n && |Borders(v, w.log, victims)| <= n + 1
    else |Stretches(v, w.log)| <= n
  }

  lemma StretchesAreBorders(v: map<Text, Record>, log: seq<Record>, victims: seq<Text>)
    ensures |Stretches(v, log)| <= |Borders(v, log, victims)|
    ensures |Stretches(v, log)| == |KeptStretches(v, log, [])|
  {
    SubsetSize(Stretches(v, log), Borders(v, log, victims));
    assert KeptStretches(v, log, []) == Stretches(v, log);
  }

  lemma InitialStretches(f: Format, w: World)
    requires Initial(f, w)
    ensures StretchesOk(f, w, 0)
  {
    assert Stretches(View(f, w.dir), w.log) == {};
  }

  lemma RenameStretches(f: Format, w: World, a: Action, w': World, n: nat)
    requires ReadsBack(f) && Sound(f, w) && StretchesOk(f, w, n) && Step(f, w, a, w') && a.Rename?
    ensures StretchesOk(f, w', n)
  {
    HolderOf(f, w, a.client);
    RenameKeeps(f, w, a, w');
    CommitStretches(View(f, w.dir), w.log, w.phases[a.client].record);
  }

  lemma RescanStretches(f: Format, w: World, a: Action, w': World, n: nat)
    requires ReadsBack(f) && Sound(f, w) && Sound(f, w') && StretchesOk(f, w, n) && Step(f, w, a, w') && a.Rescan?
    ensures StretchesOk(f, w', n)
  {
    HolderOf(f, w, a.client);
    ScanIsListing(f, w.dir, a.names);
    RescanStarts(f, w, w', a.client, Scan(f, w.dir, a.names).records, w.phases[a.client].limit, n);
  }

  lemma RescanStarts(f: Format, w: World, w': World, c: Client, s: seq<Record>, limit: nat, n: nat)
    requires StretchesOk(f, w, n) && w.lock == Some(c) && c in w.phases && w.phases[c].Verifying?
    requires IsListing(s, View(f, w.dir)) && w'.dir == w.dir && w'.log == w.log && w'.lock == w.lock
    requires w'.phases == w.phases[c := StartOfRetention(s, limit)] && Ascending(w.log) && CutOk(f, w')
    ensures StretchesOk(f, w', n)
  {
    VictimsAreSorted(s, View(f, w.dir), limit);
    if |s| > limit {
      BordersAtStart(View(f, w.dir), w.log, w'.phases[c]);
    }
  }

  lemma DeleteStretches(f: Format, w: World, a: Action, w': World, n: nat)
    requires ReadsBack(f) && Sound(f, w) && StretchesOk(f, w, n) && Step(f, w, a, w') && a.Delete?
    ensures StretchesOk(f, w', n)
  {
    HolderOf(f, w, a.client);
    DeleteKeeps(f, w, a, w');
    DeletedStretches(f, w, w', a.client, n);
  }

  lemma DeletedStretches(f: Format, w: World, w': World, c: Client, n: nat)
    requires Inv(f, w) && StretchesOk(f, w, n) && w.lock == Some(c) && c in w.phases && w.phases[c].Deleting?
    requires w.phases[c].victims != [] && BehindCut(View(f, w.dir), w.phases[c])
    requires w' == Deleted(w, c) && View(f, w'.dir) == View(f, w.dir) - {w.phases[c].victims[0]}
    ensures StretchesOk(f, w', n)
  {
    DeletedPhase(w, c);
    NewestIsNoVictim(f, w, c);
    PassGoesOn(View(f, w.dir), w.log, w.phases[c], View(f, w'.dir), n);
  }

  lemma NewestIsNoVictim(f: Format, w: World, c: Client)
    requires Inv(f, w) && c in w.phases && w.phases[c].Deleting?
    ensures Distinct(w.phases[c].victims) && (w.log != [] ==> !IsVictim(w.phases[c].victims, w.log[|w.log| - 1]))
  {
    assert PhaseOk(f, w, w.phases[c]);
  }

  lemma PassGoesOn(v: map<Text, Record>, log: seq<Record>, p: Phase, v': map<Text, Record>, n: nat)
    requires LogOk(log, v) && ViewOk(v) && p.Deleting? && p.victims != [] && Distinct(p.victims)
    requires BehindCut(v, p) && VictimsSorted(v, p.victims) && v' == v - {p.victims[0]}
    requires log != [] ==> !IsVictim(p.victims, log[|log| - 1])
    requires |KeptStretches(v, log, p.victims)| <= n && |Borders(v, log, p.victims)| <= n + 1
    ensures VictimsSorted(v', p.victims[1..])
    ensures |KeptStretches(v', log, p.victims[1..])| <= n && |Borders(v', log, p.victims[1..])| <= n + 1
    ensures |p.victims| == 1 ==> |Stretches(v', log)| <= n
  {
    FewerSorted(v, p.victims);
    BordersAfter(v, log, p, v');
    if |p.victims| == 1 {
      assert p.victims[1..] == [];
      StretchesAreBorders(v', log, []);
    }
  }

  lemma OtherStretches(f: Format, w: World, a: Action, w': World, n: nat)
    requires ReadsBack(f) && Sound(f, w) && StretchesOk(f, w, n) && Step(f, w, a, w')
    requires !a.Rename? && !a.Rescan? && !a.Delete?
    ensures StretchesOk(f, w', if CutsShort(w, a) then n + 1 else n)
  {
    VisibleStep(f, w, a, w');
    SamePass(f, w, a, w');
    if CutsShort(w, a) {
      StretchesAreBorders(View(f, w.dir), w.log, w.phases[w.lock.value].victims);
    }
  }

  lemma SamePass(f: Format, w: World, a: Action, w': World)
    requires MutexOk(w) && Step(f, w, a, w') && !a.Rename? && !a.Rescan? && !a.Delete?
    ensures w'.log == w.log && (CutsShort(w, a) ==> !Pruning(w'))
    ensures !CutsShort(w, a) ==> Pruning(w') == Pruning(w)
    ensures Pruning(w) && !CutsShort(w, a) ==> w'.lock == w.lock && w'.phases[w.lock.value] == w.phases[w.lock.value]
  {
    if Pruning(w) && a.client in w.phases && HoldsLock(w.phases[a.client]) {
      assert w.lock == Some(a.client);
    }
  }

  lemma StepStretches(f: Format, w: World, a: Action, w': World, n: nat)
    requires ReadsBack(f) && Sound(f, w) && StretchesOk(f, w, n) && Step(f, w, a, w')
    ensures StretchesOk(f, w', if CutsShort(w, a) then n + 1 else n)
  {
    match a
    case Rename(_) => RenameStretches(f, w, a, w', n);
    case Rescan(_, _) =>
      StepSound(f, w, a, w');
      RescanStretches(f, w, a, w', n);
    case Delete(_) => DeleteStretches(f, w, a, w', n);
    case _ => OtherStretches(f, w, a, w', n);
  }

  /** How many passes were cut short before world `i`. */
  ghost function CutsBefore(ws: seq<World>, actions: seq<Action>, i: nat): nat
    requires i <= |actions| < |ws|
  {
    Runs.Count((w: World, a: Action) => CutsShort(w, a), ws, actions, i)
  }

  lemma RunStretchesOk(f: Format, ws: seq<World>, actions: seq<Action>, i: nat)
    requires ReadsBack(f) && IsRun(f, ws, actions) && Initial(f, ws[0]) && i < |ws|
    ensures StretchesOk(f, ws[i], CutsBefore(ws, actions, i))
  {
    InitialInv(f, ws[0]);
    InitialStretches(f, ws[0]);
    var keeps := (w: World, n: nat) => Sound(f, w) && StretchesOk(f, w, n);
    var step := (w: World, a: Action, w': World) => Step(f, w, a, w');
    var hit := (w: World, a: Action) => CutsShort(w, a);
    forall w, a, w', n: nat | keeps(w, n) && step(w, a, w')
      ensures keeps(w', if hit(w, a) then n + 1 else n)
    {
      StepSound(f, w, a, w');
      StepStretches(f, w, a, w', n);
    }
    forall k: nat | 0 <= k < i
      ensures step(ws[k], actions[k], ws[k + 1])
    {
      RunStep(f, ws, actions, k);
    }
    Runs.RunKeepsCount(step, hit, keeps, ws, actions, i);
  }

  /** Between passes there are at most as many stretches missing, besides a beginning, as passes were cut short. */
  lemma RunStretches(f: Format, ws: seq<World>, actions: seq<Action>, i: nat)
    requires ReadsBack(f) && IsRun(f, ws, actions) && Initial(f, ws[0]) && i < |ws|
    ensures |Stretches(View(f, ws[i].dir), ws[i].log)| <= CutsBefore(ws, actions, i) + if Pruning(ws[i]) then 1 else 0
  {
    RunStretchesOk(f, ws, actions, i);
    if Pruning(ws[i]) {
      StretchesAreBorders(View(f, ws[i].dir), ws[i].log, ws[i].phases[ws[i].lock.value].victims);
    }
  }
}
