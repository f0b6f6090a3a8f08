/** Last Run beyond the first accident: what stays right through crashes, and when a gap is closed for good. */
module JournalRecovery {
  import opened Bytes
  import opened SessionRecord
  import opened JournalStore
  import opened JournalDecision
  import opened JournalProtocol
  import opened JournalSafety
  import opened JournalGuarantees
  import opened JournalIntact
  import opened JournalLastRun
  import opened JournalHistory

  // ----- runnables among the newest admissions -----

  predicate AdmittedIn(log: seq<Record>, runnable: Text) {
    exists i :: 0 <= i < |log| && log[i].runnable == runnable
  }

  lemma {:induction false} NewestAdmission(log: seq<Record>, runnable: Text) returns (i: nat)
    requires AdmittedIn(log, runnable)
    ensures i < |log| && log[i].runnable == runnable
    ensures forall j :: i < j < |log| ==> log[j].runnable != runnable
  {
    var n := |log| - 1;
    if log[n].runnable == runnable {
      i := n;
    } else {
      i := NewestAdmission(log[..n], runnable);
    }
  }

  lemma NotLater(log: seq<Record>, i: nat, x: Record)
    requires i < |log| && forall j :: i < j < |log| ==> log[j].runnable != x.runnable
    ensures x !in log[i + 1..]
  {
    var later := log[i + 1..];
    forall k | 0 <= k < |later|
      ensures later[k] != x
    {
      assert later[k] == log[i + 1 + k];
    }
  }

  /** The newest admission of a runnable, if it is retained, is what the listing answers with. */
  lemma RetainedAdmissionAnswers(log: seq<Record>, v: map<Text, Record>, s: seq<Record>, runnable: Text, i: nat)
    requires IsListing(s, v) && ViewOk(v) && LogOk(log, v) && i < |log| && Retained(v, log[i])
    requires log[i].runnable == runnable && forall j :: i < j < |log| ==> log[j].runnable != runnable
    ensures LastRun(s, runnable) == Some(log[i]) && MostRecent(log, log[i])
  {
    NewestIsMostRecent(log, i);
    LastRunMeaning(s, runnable);
    assert v[TargetName(log[i].sessionId)] in s;
    var found := LastRun(s, runnable).value;
    NotLater(log, i, found);
    if found != log[i] {
      assert Newer(found, log[i]) && Retained(v, found);
      NewerIsLater(log, v, i, found);
    }
  }

  lemma NewestIsMostRecent(log: seq<Record>, i: nat)
    requires Ascending(log) && i < |log| && forall j :: i < j < |log| ==> log[j].runnable != log[i].runnable
    ensures MostRecent(log, log[i])
  {
    forall x | x in log && x.runnable == log[i].runnable
      ensures x.commitOrder <= log[i].commitOrder
    {
      var k :| 0 <= k < |log| && log[k] == x;
    }
  }

  /** Last Run is right for every runnable with an admission among the intact entries, and then never not found. */
  lemma IntactAdmissionAnswers(f: Format, w: World, s: seq<Record>, runnable: Text)
    requires SoundAndIntact(f, w) && IsListing(s, View(f, w.dir))
    requires AdmittedIn(w.log[|w.log| - w.intact..], runnable)
    ensures LastRun(s, runnable).Some? && MostRecent(w.log, LastRun(s, runnable).value)
  {
    var newest := w.log[|w.log| - w.intact..];
    var k :| 0 <= k < |newest| && newest[k].runnable == runnable;
    assert w.log[|w.log| - w.intact + k].runnable == runnable;
    var i := NewestAdmission(w.log, runnable);
    RetainedAdmissionAnswers(w.log, View(f, w.dir), s, runnable, i);
  }

  function Recent(log: seq<Record>, n: nat): seq<Record> {
    if n <= |log| then log[|log| - n..] else log
  }

  lemma RecentAnswers(f: Format, w: World, n: nat, s: seq<Record>, runnable: Text)
    requires SoundAndIntact(f, w) && (w.intact >= n || w.intact == |w.log|) && IsListing(s, View(f, w.dir))
    requires AdmittedIn(Recent(w.log, n), runnable)
    ensures LastRun(s, runnable).Some? && MostRecent(w.log, LastRun(s, runnable).value)
  {
    if n <= |w.log| {
      WithinIntact(w.log, n, w.intact, runnable);
    } else {
      assert w.log[|w.log| - w.intact..] == w.log;
    }
    IntactAdmissionAnswers(f, w, s, runnable);
  }

  /**
   If every limit is at least `n`, Last Run is right in every reachable world for every runnable that was admitted
   among the last `n` admissions, whatever was cut short before, and whether or not the journal holds legacy records.
   */
  lemma RecentAdmissionsAnswer(
    f: Format, ws: seq<World>, actions: seq<Action>, i: nat, n: nat, s: seq<Record>, runnable: Text)
    requires ReadsBack(f) && IsRun(f, ws, actions) && Initial(f, ws[0]) && i < |ws|
    requires forall k :: 0 <= k < |actions| && actions[k].Submit? ==> actions[k].limit >= n
    requires IsListing(s, View(f, ws[i].dir)) && AdmittedIn(Recent(ws[i].log, n), runnable)
    ensures LastRun(s, runnable).Some? && MostRecent(ws[i].log, LastRun(s, runnable).value)
  {
    RunIntact(f, ws, actions, i);
    RunLimitsAtLeast(f, ws, actions, i, n);
    RecentAnswers(f, ws[i], n, s, runnable);
  }

  lemma WithinIntact(log: seq<Record>, n: nat, m: nat, runnable: Text)
    requires n <= m <= |log| && AdmittedIn(log[|log| - n..], runnable)
    ensures AdmittedIn(log[|log| - m..], runnable)
  {
    var k :| 0 <= k < n && log[|log| - n..][k].runnable == runnable;
    assert log[|log| - m..][m - n + k] == log[|log| - n..][k];
  }

  // ----- a pass that finishes -----

  /** A pass of this limit leaves nothing in front of its cut that is not certain to be there. */
  ghost predicate WithinReach(w: World, limit: nat) { limit <= w.intact || w.intact == |w.log| }

  /** The step ends a retention pass within the intact entries by finishing it. */
  ghost predicate FinishesPass(f: Format, w: World, a: Action)
    requires Enabled(f, w, a)
  {
    || (a.Delete? && |w.phases[a.client].victims| == 1 && WithinReach(w, w.phases[a.client].limit))
    || (a.Rescan? && |Scan(f, w.dir, a.names).records| <= w.phases[a.client].limit &&
        WithinReach(w, w.phases[a.client].limit))
  }

  lemma FinishedPassMends(f: Format, w: World, a: Action, w': World)
    requires MutexOk(w) && w.intact <= |w.log| && Step(f, w, a, w') && FinishesPass(f, w, a)
    ensures !w'.gapped && !Pruning(w')
  {
    assert w.lock == Some(a.client);
  }

  /**
   A pass within the intact entries that finishes leaves the listing the newest-first view of a suffix of the log,
   whatever was cut short before; Last Run is then the most recent admission ever, or nothing.
   */
  lemma LastRunAfterMending(f: Format, ws: seq<World>, actions: seq<Action>, i: nat, s: seq<Record>, runnable: Text)
    requires ReadsBack(f) && IsRun(f, ws, actions) && Initial(f, ws[0])
    requires i < |actions| && Enabled(f, ws[i], actions[i]) && FinishesPass(f, ws[i], actions[i])
    requires IsListing(s, View(f, ws[i + 1].dir))
    ensures !ws[i + 1].gapped && Answers(ws[i + 1], s, runnable)
    ensures AllIssued(View(f, ws[0].dir)) ==> s == Reverse(ws[i + 1].log[ws[i + 1].from..])
  {
    RunMends(f, ws, actions, i);
    RunAnswers(f, ws, actions, i + 1, s, runnable);
  }

  lemma RunMends(f: Format, ws: seq<World>, actions: seq<Action>, i: nat)
    requires ReadsBack(f) && IsRun(f, ws, actions) && Initial(f, ws[0])
    requires i < |actions| && Enabled(f, ws[i], actions[i]) && FinishesPass(f, ws[i], actions[i])
    ensures !ws[i + 1].gapped && !Pruning(ws[i + 1])
  {
    RunIntact(f, ws, actions, i);
    RunStep(f, ws, actions, i);
    FinishedPassMends(f, ws[i], actions[i], ws[i + 1]);
  }

  /** A finished pass of limit `limit`. */
  ghost predicate FinishesPassOf(f: Format, w: World, a: Action, limit: nat)
    requires Enabled(f, w, a)
  {
    || (a.Delete? && |w.phases[a.client].victims| == 1 && w.phases[a.client].limit == limit)
    || (a.Rescan? && |Scan(f, w.dir, a.names).records| <= w.phases[a.client].limit == limit)
  }

  /** If every limit is at least `n`, every pass of limit at most `n` that finishes does so. */
  lemma LastRunAfterPass(
    f: Format, ws: seq<World>, actions: seq<Action>, i: nat, n: nat, limit: nat, s: seq<Record>, runnable: Text)
    requires ReadsBack(f) && IsRun(f, ws, actions) && Initial(f, ws[0])
    requires forall k :: 0 <= k < |actions| && actions[k].Submit? ==> actions[k].limit >= n
    requires i < |actions| && Enabled(f, ws[i], actions[i]) && FinishesPassOf(f, ws[i], actions[i], limit) && limit <= n
    requires IsListing(s, View(f, ws[i + 1].dir))
    ensures !ws[i + 1].gapped && Answers(ws[i + 1], s, runnable)
    ensures AllIssued(View(f, ws[0].dir)) ==> s == Reverse(ws[i + 1].log[ws[i + 1].from..])
  {
    RunLimitsAtLeast(f, ws, actions, i, n);
    LastRunAfterMending(f, ws, actions, i, s, runnable);
  }

  // ----- until the next accident -----

  /** An error or a crash of the lock holder inside its pass. */
  ghost predicate CutsShort(w: World, a: Action) {
    Pruning(w) && w.lock == Some(a.client) && (a.Crash? || a.Fail?)
  }

  /** A gap has no other cause. */
  lemma GapHasCause(f: Format, w: World, a: Action, w': World)
    requires MutexOk(w) && Step(f, w, a, w') && !w.gapped && w'.gapped
    ensures CutsShort(w, a)
  {}

  ghost predicate NoneCutShort(ws: seq<World>, actions: seq<Action>, i: nat, j: nat)
    requires |actions| < |ws|
  {
    i <= j < |ws| && j <= |actions| && forall k :: i <= k < j ==> !CutsShort(ws[k], actions[k])
  }

  /** As long as no pass is cut short, no gap opens. */
  lemma {:induction false} RunUngapped(f: Format, ws: seq<World>, actions: seq<Action>, i: nat, j: nat)
    requires ReadsBack(f) && IsRun(f, ws, actions) && Initial(f, ws[0])
    requires NoneCutShort(ws, actions, i, j) && !ws[i].gapped
    ensures !ws[j].gapped
    decreases j
  {
    if i < j {
      RunUngapped(f, ws, actions, i, j - 1);
      RunSound(f, ws, actions, j - 1);
      RunStep(f, ws, actions, j - 1);
      if ws[j].gapped {
        GapHasCause(f, ws[j - 1], actions[j - 1], ws[j]);
      }
    }
  }

  /** The run starts here, or a pass within the intact entries has just finished. */
  ghost predicate StartsWhole(f: Format, ws: seq<World>, actions: seq<Action>, i: nat)
    requires |actions| < |ws|
  {
    i == 0 || (i <= |actions| && Enabled(f, ws[i - 1], actions[i - 1]) && FinishesPass(f, ws[i - 1], actions[i - 1]))
  }

  lemma WholeIsUngapped(f: Format, ws: seq<World>, actions: seq<Action>, i: nat)
    requires ReadsBack(f) && IsRun(f, ws, actions) && Initial(f, ws[0]) && i < |ws| && StartsWhole(f, ws, actions, i)
    ensures !ws[i].gapped
  {
    if i > 0 {
      RunMends(f, ws, actions, i - 1);
    }
  }

  /**
   From the start of a run, or from any pass that finishes within the intact entries, and until a pass is cut short:
   Last Run, between writes, is the most recent admission of the runnable ever made, or a legacy record if it was never
   admitted, or not found. What the clients do decides it, and nothing about the files.
   */
  lemma LastRunUnlessCutShort(
    f: Format, ws: seq<World>, actions: seq<Action>, i: nat, j: nat, s: seq<Record>, runnable: Text)
    requires ReadsBack(f) && IsRun(f, ws, actions) && Initial(f, ws[0])
    requires i < |ws| && StartsWhole(f, ws, actions, i) && NoneCutShort(ws, actions, i, j)
    requires ws[j].lock.None? && IsListing(s, View(f, ws[j].dir))
    ensures Answers(ws[j], s, runnable)
    ensures AllIssued(View(f, ws[0].dir)) ==> s == Reverse(ws[j].log[ws[j].from..])
  {
    WholeIsUngapped(f, ws, actions, i);
    RunUngapped(f, ws, actions, i, j);
    RunAnswers(f, ws, actions, j, s, runnable);
  }

  // ----- journals with legacy records -----

  /** A match with an issued order beats every match without one. */
  lemma {:induction false} IssuedBeatsLegacy(s: seq<Record>, runnable: Text, r: Record)
    requires NewestFirst(s) && r in s && r.runnable == runnable && r.commitOrder > 0
    ensures LastRun(s, runnable).Some? && LastRun(s, runnable).value.commitOrder >= r.commitOrder
  {
    LastRunMeaning(s, runnable);
  }
}
