/**
 What no crash can take away: the newest admissions, up to the smallest limit in use.

 Retention deletes from its cut towards the oldest, so a pass that is cut short can only miss entries behind the
 limit's worth of newest ones. `intact` counts the newest log entries that are certain to be there.
 */
module JournalIntact {
  import opened Bytes
  import opened SessionRecord
  import opened JournalStore
  import opened JournalDecision
  import opened JournalProtocol
  import opened JournalSafety
  import opened JournalGuarantees
  import Runs

  /** The newest `n` entries of the log are retained. */
  ghost predicate NewestRetained(v: map<Text, Record>, log: seq<Record>, n: nat) {
    n <= |log| && forall i :: |log| - n <= i < |log| ==> Retained(v, log[i])
  }

  ghost predicate IntactOk(f: Format, w: World) {
    NewestRetained(View(f, w.dir), w.log, w.intact)
  }

  // ----- counting -----

  lemma {:induction false} MembersAtMost<T>(s: seq<T>)
    ensures |set x | x in s| <= |s|
  {
    if s != [] {
      var n := |s| - 1;
      assert s == s[..n] + [s[n]];
      MembersAtMost(s[..n]);
      assert (set x | x in s) == (set x | x in s[..n]) + {s[n]};
    }
  }

  /** As many distinct members of a sequence as it is long are all of its members. */
  lemma AllMembers<T>(s: seq<T>, t: seq<T>)
    requires Distinct(s) && Distinct(t) && |s| == |t| && forall x :: x in s ==> x in t
    ensures forall x :: x in t ==> x in s
  {
    forall x | x in t
      ensures x in s
    {
      if x !in s {
        var all := set y | y in t;
        DistinctWithin(s, all - {x});
        MembersAtMost(t);
        assert false;
      }
    }
  }

  lemma NewestFirstDistinct(s: seq<Record>)
    requires NewestFirst(s)
    ensures Distinct(s)
  {
    forall i, j | 0 <= i < j < |s|
      ensures s[i] != s[j]
    {
      NewerTotal(s[i], s[j]);
    }
  }

  // ----- deletions -----

  /** A retained record newer than a retained log entry is a later log entry. */
  lemma NewerIsLater(log: seq<Record>, v: map<Text, Record>, i: nat, x: Record)
    requires ViewOk(v) && LogOk(log, v) && i < |log| && Retained(v, log[i]) && Retained(v, x) && Newer(x, log[i])
    ensures x in log[i + 1..]
  {
    NewerTotal(x, log[i]);
    assert TargetName(x.sessionId) != TargetName(log[i].sessionId);
    assert x in log;
    var k :| 0 <= k < |log| && log[k] == x;
    assert log[i + 1..][k - i - 1] == x;
  }

  /** With a limit's worth of newer retained records in front of it, an entry is not among the limit's newest of the log. */
  lemma VictimIsBehind(w: World, v: map<Text, Record>, p: Phase, i: nat)
    requires ViewOk(v) && LogOk(w.log, v) && p.Deleting? && p.victims != [] && KeptNewest(v, p)
    requires i < |w.log| && Retained(v, w.log[i]) && TargetName(w.log[i].sessionId) == p.victims[0]
    ensures i < |w.log| - p.limit
  {
    forall x | x in p.kept
      ensures x in w.log[i + 1..]
    {
      NewerIsLater(w.log, v, i, x);
    }
    NewestFirstDistinct(p.kept);
    var later := w.log[i + 1..];
    DistinctWithin(p.kept, set x | x in later);
    MembersAtMost(later);
  }

  lemma DeletionSpares(w: World, v: map<Text, Record>, p: Phase, n: nat)
    requires ViewOk(v) && LogOk(w.log, v) && p.Deleting? && p.victims != [] && KeptNewest(v, p)
    requires NewestRetained(v, w.log, n)
    ensures NewestRetained(v - {p.victims[0]}, w.log, if n <= p.limit then n else p.limit)
  {
    var least := if n <= p.limit then n else p.limit;
    forall i | |w.log| - least <= i < |w.log|
      ensures Retained(v - {p.victims[0]}, w.log[i])
    {
      if TargetName(w.log[i].sessionId) == p.victims[0] {
        VictimIsBehind(w, v, p, i);
      }
    }
  }

  lemma DeleteIntact(f: Format, w: World, a: Action, w': World)
    requires ReadsBack(f) && Sound(f, w) && IntactOk(f, w) && Step(f, w, a, w') && a.Delete?
    ensures IntactOk(f, w')
  {
    DeleteKeeps(f, w, a, w');
    DeletionSpares(w, View(f, w.dir), w.phases[a.client], w.intact);
  }

  // ----- commits -----

  lemma AppendIntact(v: map<Text, Record>, log: seq<Record>, n: nat, r: Record)
    requires NewestRetained(v, log, n)
    requires forall i :: 0 <= i < |log| && Retained(v, log[i]) ==> TargetName(log[i].sessionId) != TargetName(r.sessionId)
    ensures NewestRetained(v[TargetName(r.sessionId) := r], log + [r], n + 1)
  {}

  lemma ReplaceIntact(v: map<Text, Record>, log: seq<Record>, n: nat, r: Record, k: nat)
    requires NewestRetained(v, log, n) && k < |log|
    requires forall i :: 0 <= i < |log| && Retained(v, log[i]) && TargetName(log[i].sessionId) == TargetName(r.sessionId) ==> i == k
    ensures NewestRetained(v[TargetName(r.sessionId) := r], log[k := r], n)
  {}

  lemma CommitIntact(w: World, v: map<Text, Record>, r: Record, n: nat)
    requires ViewOk(v) && MayCommit(v, r) && LogOk(w.log, v) && NewestRetained(v, w.log, n)
    ensures NewestRetained(v[TargetName(r.sessionId) := r], Admit(w.log, r), n + |Admit(w.log, r)| - |w.log|)
  {
    var target := TargetName(r.sessionId);
    if target in v && v[target].commitOrder > 0 {
      var k :| 0 <= k < |w.log| && w.log[k] == v[target];
      assert Admit(w.log, r) == w.log[k := r];
      ReplaceIntact(v, w.log, n, r, k);
    } else {
      ExceedsIssued(w.log, v, r);
      AppendIntact(v, w.log, n, r);
    }
  }

  lemma RenameIntact(f: Format, w: World, a: Action, w': World)
    requires ReadsBack(f) && Sound(f, w) && IntactOk(f, w) && Step(f, w, a, w') && a.Rename?
    ensures IntactOk(f, w')
  {
    RenameKeeps(f, w, a, w');
    CommitIntact(w, View(f, w.dir), w.phases[a.client].record, w.intact);
  }

  // ----- every step and every run -----

  lemma OtherIntact(f: Format, w: World, a: Action, w': World)
    requires Step(f, w, a, w') && !a.Rename? && !a.Delete?
    ensures w'.log == w.log && w'.intact == w.intact
  {}

  lemma StepIntact(f: Format, w: World, a: Action, w': World)
    requires ReadsBack(f) && Sound(f, w) && IntactOk(f, w) && Step(f, w, a, w')
    ensures IntactOk(f, w')
  {
    if a.Rename? {
      RenameIntact(f, w, a, w');
    } else if a.Delete? {
      DeleteIntact(f, w, a, w');
    } else {
      VisibleStep(f, w, a, w');
      OtherIntact(f, w, a, w');
    }
  }

  ghost predicate SoundAndIntact(f: Format, w: World) { Sound(f, w) && IntactOk(f, w) }

  lemma StepSoundAndIntact(f: Format, w: World, a: Action, w': World)
    requires ReadsBack(f) && SoundAndIntact(f, w) && Step(f, w, a, w')
    ensures SoundAndIntact(f, w')
  {
    StepSound(f, w, a, w');
    StepIntact(f, w, a, w');
  }

  lemma InitialIntact(f: Format, w: World)
    requires Initial(f, w)
    ensures SoundAndIntact(f, w)
  {
    InitialInv(f, w);
  }

  /** In every reachable world, crashes included, the newest `intact` admissions are retained. */
  lemma RunIntact(f: Format, ws: seq<World>, actions: seq<Action>, i: nat)
    requires ReadsBack(f) && IsRun(f, ws, actions) && Initial(f, ws[0]) && i < |ws|
    ensures SoundAndIntact(f, ws[i])
  {
    InitialIntact(f, ws[0]);
    var keeps := (w: World) => SoundAndIntact(f, w);
    var step := (w: World, a: Action, w': World) => Step(f, w, a, w');
    forall w, a, w' | keeps(w) && step(w, a, w')
      ensures keeps(w')
    {
      StepSoundAndIntact(f, w, a, w');
    }
    forall k: nat | 0 <= k < i
      ensures step(ws[k], actions[k], ws[k + 1])
    {
      RunStep(f, ws, actions, k);
    }
    Runs.RunKeeps(step, keeps, ws, actions, 0, i);
  }

  // ----- the smallest limit in use -----

  predicate LimitAtLeast(p: Phase, n: nat) {
    match p
    case Waiting(_, limit) => limit >= n
    case Scanning(_, limit) => limit >= n
    case Writing(_, limit, _) => limit >= n
    case Verifying(limit) => limit >= n
    case Deleting(_, limit, _) => limit >= n
    case Finished => true
  }

  /** No writer has a limit below `n`, and the newest `n` admissions, or all there are, count as intact. */
  ghost predicate LimitsAtLeast(w: World, n: nat) {
    (forall c :: c in w.phases ==> LimitAtLeast(w.phases[c], n)) && (w.intact >= n || w.intact == |w.log|)
  }

  lemma StepLimitsAtLeast(f: Format, w: World, a: Action, w': World, n: nat)
    requires LimitsAtLeast(w, n) && Step(f, w, a, w') && (a.Submit? ==> a.limit >= n)
    ensures LimitsAtLeast(w', n)
  {
    if a.client in w.phases {
      assert LimitAtLeast(w.phases[a.client], n);
    }
    OtherLimits(f, w, a, w');
    if a.Rename? {
      assert |w'.log| >= |w.log| && w'.intact - |w'.log| == w.intact - |w.log|;
    } else if !a.Delete? {
      OtherIntact(f, w, a, w');
    }
  }

  lemma OtherLimits(f: Format, w: World, a: Action, w': World)
    requires Step(f, w, a, w')
    ensures forall c :: c in w'.phases && c != a.client ==> c in w.phases && w'.phases[c] == w.phases[c]
  {}

  lemma RunLimitsAtLeast(f: Format, ws: seq<World>, actions: seq<Action>, i: nat, n: nat)
    requires IsRun(f, ws, actions) && Initial(f, ws[0]) && i < |ws|
    requires forall k :: 0 <= k < |actions| && actions[k].Submit? ==> actions[k].limit >= n
    ensures LimitsAtLeast(ws[i], n)
  {
    var keeps := (w: World) => LimitsAtLeast(w, n);
    var step := (w: World, a: Action, w': World) => Step(f, w, a, w') && (a.Submit? ==> a.limit >= n);
    forall w, a, w' | keeps(w) && step(w, a, w')
      ensures keeps(w')
    {
      StepLimitsAtLeast(f, w, a, w', n);
    }
    forall k: nat | 0 <= k < i
      ensures step(ws[k], actions[k], ws[k + 1])
    {
      RunStep(f, ws, actions, k);
    }
    Runs.RunKeeps(step, keeps, ws, actions, 0, i);
  }

  /** If every limit is at least `n`, the `n` newest admissions are retained in every reachable world, whatever crashed. */
  lemma NewestSurvive(f: Format, ws: seq<World>, actions: seq<Action>, i: nat, n: nat)
    requires ReadsBack(f) && IsRun(f, ws, actions) && Initial(f, ws[0]) && i < |ws|
    requires forall k :: 0 <= k < |actions| && actions[k].Submit? ==> actions[k].limit >= n
    ensures NewestRetained(View(f, ws[i].dir), ws[i].log, if n <= |ws[i].log| then n else |ws[i].log|)
  {
    RunIntact(f, ws, actions, i);
    RunLimitsAtLeast(f, ws, actions, i, n);
  }
}
