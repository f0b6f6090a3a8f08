/**
 The journal against the history it truncates.

 As long as there is no gap, the listing is the newest-first view of a suffix of the admission log, so Last Run is
 the most recent admission of its runnable or nothing. Legacy records stand behind that suffix, and only as long as
 nothing is missing from it. A pass that stops half-way can leave a gap; a later pass that finishes within the intact
 entries closes it again.
 */
module JournalHistory {
  import opened Bytes
  import opened SessionRecord
  import opened JournalStore
  import opened JournalDecision
  import opened JournalProtocol
  import opened JournalSafety
  import opened JournalGuarantees
  import opened JournalIntact
  import opened JournalLastRun
  import Runs

  /** `left` entries from `from` on, then everything from `cut` on. */
  function GapLog(log: seq<Record>, from: nat, left: nat, cut: nat): seq<Record>
    requires from + left <= cut <= |log|
  {
    log[from..from + left] + log[cut..]
  }

  ghost predicate IsSuffixView(v: map<Text, Record>, log: seq<Record>, from: nat) {
    from <= |log| && Holds(v, log[from..])
  }

  /** The issued records are the log from `from` on; once an admission is gone, so is every legacy record. */
  ghost predicate SuffixKept(v: map<Text, Record>, log: seq<Record>, from: nat) {
    IsSuffixView(IssuedPart(v), log, from) && (from > 0 ==> AllIssued(v))
  }

  /** A retention pass is under way. */
  ghost predicate Pruning(w: World) {
    && w.lock.Some? && w.lock.value in w.phases
    && w.phases[w.lock.value].Deleting? && w.phases[w.lock.value].victims != []
  }

  /** Where the kept part of the log begins: at the limit's worth of newest entries, unless they are all there are. */
  function CutOf(log: seq<Record>, from: nat, limit: nat): nat {
    if |log| >= from + limit then |log| - limit else from
  }

  /**
   The first `left` victims are the end of the part of the log that is left, newest first; the rest are legacy records,
   and all of them if the pass takes away admissions. Everything past the cut is kept.
   */
  ghost predicate PruningAt(
    v: map<Text, Record>, log: seq<Record>, from: nat, victims: seq<Text>, limit: nat, left: nat)
  {
    var cut := CutOf(log, from, limit);
    && left <= |victims| && from + left <= cut <= |log| && (|log| < from + limit ==> from == 0)
    && Holds(IssuedPart(v), GapLog(log, from, left, cut))
    && (forall j :: 0 <= j < left ==> victims[j] == TargetName(log[from + left - 1 - j].sessionId))
    && (forall j :: left <= j < |victims| ==> victims[j] !in IssuedPart(v))
    && (cut > 0 ==> forall n :: n in v && n !in IssuedPart(v) ==> n in victims)
  }

  ghost predicate PruningOk(v: map<Text, Record>, log: seq<Record>, from: nat, victims: seq<Text>, limit: nat) {
    exists left: nat :: PruningAt(v, log, from, victims, limit, left)
  }

  ghost predicate HistoryOk(f: Format, w: World) {
    var v := View(f, w.dir);
    !w.gapped ==>
      if Pruning(w) then
        PruningOk(v, w.log, w.from, w.phases[w.lock.value].victims, w.phases[w.lock.value].limit)
      else SuffixKept(v, w.log, w.from)
  }

  lemma InitialHistory(f: Format, w: World)
    requires Initial(f, w)
    ensures HistoryOk(f, w)
  {
    var v := View(f, w.dir);
    forall r
      ensures Retained(IssuedPart(v), r) <==> r in w.log[0..]
    {
      RetainedIssued(v, r);
      assert w.log[0..] == w.log;
      if r in w.log {
        var i :| 0 <= i < |w.log| && w.log[i] == r;
      }
    }
  }

  /** The listing of a suffix, legacy records behind it as long as it is the whole log. */
  ghost predicate ListsSuffix(s: seq<Record>, log: seq<Record>, from: nat) {
    from <= |log| && Lists(s, log[from..]) && (from > 0 ==> |s| == |log| - from)
  }

  lemma KeptListing(s: seq<Record>, v: map<Text, Record>, log: seq<Record>, from: nat)
    requires IsListing(s, v) && ViewOk(v) && Ascending(log) && SuffixKept(v, log, from)
    ensures ListsSuffix(s, log, from) && (AllIssued(v) ==> s == Reverse(log[from..]))
  {
    SuffixAscending(log, from);
    MixedListing(s, v, log[from..]);
  }

  lemma SuffixAscending(log: seq<Record>, from: nat)
    requires Ascending(log) && from <= |log|
    ensures Ascending(log[from..])
  {}

  /** With no pass under way and no gap open, the listing is the newest-first view of a suffix of the log. */
  lemma ListingIsSuffix(f: Format, w: World, s: seq<Record>)
    requires Inv(f, w) && HistoryOk(f, w) && !w.gapped && !Pruning(w) && IsListing(s, View(f, w.dir))
    ensures ListsSuffix(s, w.log, w.from) && (AllIssued(View(f, w.dir)) ==> s == Reverse(w.log[w.from..]))
  {
    KeptListing(s, View(f, w.dir), w.log, w.from);
  }

  // ----- every step keeps the history -----

  lemma QuietHistory(f: Format, w: World, w': World)
    requires HistoryOk(f, w) && View(f, w'.dir) == View(f, w.dir) && w'.log == w.log && w'.from == w.from
    requires w'.gapped || (!w.gapped && !Pruning(w) && !Pruning(w'))
    ensures HistoryOk(f, w')
  {}

  lemma RescanHistory(f: Format, w: World, a: Action, w': World)
    requires Inv(f, w) && IntactOk(f, w) && HistoryOk(f, w) && Step(f, w, a, w') && a.Rescan?
    ensures HistoryOk(f, w')
  {
    HolderOf(f, w, a.client);
    ScanIsListing(f, w.dir, a.names);
    if !w.gapped {
      RescanPrunes(f, w, w', a.client, Scan(f, w.dir, a.names).records, w.phases[a.client].limit);
    } else if !w'.gapped {
      RescanCloses(f, w, w', a.client, Scan(f, w.dir, a.names).records, w.phases[a.client].limit);
    }
  }

  lemma RescanPrunes(f: Format, w: World, w': World, c: Client, s: seq<Record>, limit: nat)
    requires Inv(f, w) && HistoryOk(f, w) && !w.gapped && w.lock == Some(c) && c in w.phases && w.phases[c].Verifying?
    requires IsListing(s, View(f, w.dir)) && w'.dir == w.dir && w'.log == w.log && w'.from == w.from && w'.lock == w.lock
    requires w'.phases == w.phases[c := StartOfRetention(s, limit)] && !w'.gapped
    ensures HistoryOk(f, w')
  {
    ListingIsSuffix(f, w, s);
    if |s| > limit {
      StartPruning(View(f, w.dir), w.log, w.from, s, limit);
    }
  }

  lemma RescanCloses(f: Format, w: World, w': World, c: Client, s: seq<Record>, limit: nat)
    requires Inv(f, w) && IntactOk(f, w) && w.lock == Some(c) && c in w.phases
    requires IsListing(s, View(f, w.dir)) && w'.dir == w.dir && w'.log == w.log && w'.lock == w.lock
    requires w'.phases == w.phases[c := StartOfRetention(s, limit)] && w'.from == |w.log| - w.intact
    requires |s| <= limit && (limit <= w.intact || w.intact == |w.log|)
    ensures HistoryOk(f, w')
  {
    ShortListingIsSuffix(w, View(f, w.dir), s, limit);
  }

  /** A listing no longer than the limit is a suffix of the log when that many entries, or all entries, are intact. */
  lemma ShortListingIsSuffix(w: World, v: map<Text, Record>, s: seq<Record>, limit: nat)
    requires IsListing(s, v) && ViewOk(v) && LogOk(w.log, v) && NewestRetained(v, w.log, w.intact)
    requires |s| <= limit && (limit <= w.intact || w.intact == |w.log|)
    ensures SuffixKept(v, w.log, |w.log| - w.intact)
  {
    if w.intact == |w.log| {
      WholeLogHeld(w.log, v);
    } else {
      NewestHeld(w.log, v, w.intact, s);
      PlainSuffix(w.log, v, |w.log| - w.intact);
    }
  }

  lemma WholeLogHeld(log: seq<Record>, v: map<Text, Record>)
    requires ViewOk(v) && LogOk(log, v) && NewestRetained(v, log, |log|)
    ensures SuffixKept(v, log, 0)
  {
    assert log[0..] == log;
    forall r
      ensures Retained(IssuedPart(v), r) <==> r in log
    {
      RetainedIssued(v, r);
      if r in log {
        var i :| 0 <= i < |log| && log[i] == r;
      }
    }
  }

  /** If the records are a suffix of the log, none of them is a legacy record. */
  lemma PlainSuffix(log: seq<Record>, v: map<Text, Record>, from: nat)
    requires ViewOk(v) && LogOk(log, v) && IsSuffixView(v, log, from)
    ensures SuffixKept(v, log, from)
  {
    forall n | n in v
      ensures v[n].commitOrder > 0
    {
      assert Retained(v, v[n]);
      var g := log[from..];
      var i :| 0 <= i < |g| && g[i] == v[n];
      assert log[from + i] == v[n];
    }
    AllIssuedPart(v);
  }

  lemma NewestListed(log: seq<Record>, v: map<Text, Record>, n: nat, s: seq<Record>, x: Record)
    requires IsListing(s, v) && NewestRetained(v, log, n) && x in log[|log| - n..]
    ensures Retained(v, x) && x in s
  {
    var t := log[|log| - n..];
    var i :| 0 <= i < |t| && t[i] == x;
    assert log[|log| - n + i] == x;
    assert v[TargetName(x.sessionId)] in s;
  }

  /** As many intact entries as there are listed records are all of them. */
  lemma NewestHeld(log: seq<Record>, v: map<Text, Record>, n: nat, s: seq<Record>)
    requires IsListing(s, v) && Ascending(log) && NewestRetained(v, log, n) && |s| <= n
    ensures IsSuffixView(v, log, |log| - n)
  {
    var t := log[|log| - n..];
    forall x | x in t
      ensures Retained(v, x) && x in s
    {
      NewestListed(log, v, n, s, x);
    }
    NewestFirstDistinct(s);
    SuffixDistinct(log, |log| - n);
    SameSize(t, s);
    AllMembers(t, s);
    forall r | Retained(v, r)
      ensures r in t
    {
      assert v[TargetName(r.sessionId)] in s;
    }
  }

  lemma SameSize(t: seq<Record>, s: seq<Record>)
    requires Distinct(t) && |s| <= |t| && forall x :: x in t ==> x in s
    ensures |s| == |t|
  {
    DistinctWithin(t, set x | x in s);
    MembersAtMost(s);
  }

  lemma SuffixDistinct(log: seq<Record>, from: nat)
    requires Ascending(log) && from <= |log|
    ensures Distinct(log[from..])
  {}

  /** After the last deletion only the kept records are left: the newest of the log, if that many are intact. */
  lemma KeptIsSuffix(log: seq<Record>, v: map<Text, Record>, p: Phase, v': map<Text, Record>)
    requires Ascending(log) && p.Deleting? && |p.victims| == 1 && KeptNewest(v, p) && Covered(v, p)
    requires v' == v - {p.victims[0]} && NewestRetained(v', log, p.limit)
    ensures IsSuffixView(v', log, |log| - p.limit)
  {
    var t := log[|log| - p.limit..];
    forall x | x in t
      ensures Retained(v', x) && x in p.kept
    {
      IntactIsKept(log, v, p, v', x);
    }
    NewestFirstDistinct(p.kept);
    SuffixDistinct(log, |log| - p.limit);
    AllMembers(t, p.kept);
    forall r | Retained(v', r)
      ensures r in t
    {
      LeftIsKept(v, p, v', r);
    }
  }

  lemma LeftIsKept(v: map<Text, Record>, p: Phase, v': map<Text, Record>, r: Record)
    requires p.Deleting? && |p.victims| == 1 && Covered(v, p) && v' == v - {p.victims[0]} && Retained(v', r)
    ensures r in p.kept
  {
    assert Retained(v, r);
  }

  lemma IntactIsKept(log: seq<Record>, v: map<Text, Record>, p: Phase, v': map<Text, Record>, x: Record)
    requires p.Deleting? && |p.victims| == 1 && Covered(v, p) && v' == v - {p.victims[0]}
    requires NewestRetained(v', log, p.limit) && x in log[|log| - p.limit..]
    ensures Retained(v', x) && x in p.kept
  {
    var t := log[|log| - p.limit..];
    var i :| 0 <= i < |t| && t[i] == x;
    assert log[|log| - p.limit + i] == x;
    LeftIsKept(v, p, v', x);
  }

  lemma StartPruning(v: map<Text, Record>, log: seq<Record>, from: nat, s: seq<Record>, limit: nat)
    requires IsListing(s, v) && ViewOk(v) && LogOk(log, v) && SuffixKept(v, log, from) && ListsSuffix(s, log, from)
    requires |s| > limit
    ensures PruningOk(v, log, from, Victims(s, limit), limit)
  {
    var left := if |log| - from >= limit then |log| - from - limit else 0;
    NothingMissing(log, from, limit, left);
    IssuedVictims(log, from, s, limit, left);
    LegacyVictims(v, log, from, s, limit, left);
    assert PruningAt(v, log, from, Victims(s, limit), limit, left);
  }

  lemma NothingMissing(log: seq<Record>, from: nat, limit: nat, left: nat)
    requires from <= |log| && left == if |log| - from >= limit then |log| - from - limit else 0
    ensures from + left == CutOf(log, from, limit) <= |log|
    ensures GapLog(log, from, left, CutOf(log, from, limit)) == log[from..]
  {}

  lemma ListedAt(log: seq<Record>, from: nat, s: seq<Record>, i: nat)
    requires ListsSuffix(s, log, from) && from + i < |log|
    ensures s[i] == log[|log| - 1 - i]
  {
    var g := log[from..];
    assert s[i] == s[..|g|][i] == g[|g| - 1 - i];
  }

  lemma IssuedVictims(log: seq<Record>, from: nat, s: seq<Record>, limit: nat, left: nat)
    requires ListsSuffix(s, log, from) && |s| > limit && (left == 0 || limit + left <= |log| - from)
    ensures left <= |s| - limit
    ensures forall j :: 0 <= j < left ==> Victims(s, limit)[j] == TargetName(log[|log| - limit - 1 - j].sessionId)
  {
    forall j | 0 <= j < left
      ensures Victims(s, limit)[j] == TargetName(log[|log| - limit - 1 - j].sessionId)
    {
      ListedAt(log, from, s, limit + j);
    }
  }

  lemma IssuedInFront(log: seq<Record>, from: nat, s: seq<Record>)
    requires ListsSuffix(s, log, from) && forall k :: 0 <= k < |log| ==> log[k].commitOrder > 0
    ensures forall i :: 0 <= i < |log| - from ==> s[i].commitOrder > 0
  {
    forall i | 0 <= i < |log| - from
      ensures s[i].commitOrder > 0
    {
      ListedAt(log, from, s, i);
    }
  }

  lemma LegacyVictims(v: map<Text, Record>, log: seq<Record>, from: nat, s: seq<Record>, limit: nat, left: nat)
    requires IsListing(s, v) && ViewOk(v) && LogOk(log, v) && SuffixKept(v, log, from) && ListsSuffix(s, log, from) && |s| > limit
    requires left == if |log| - from >= limit then |log| - from - limit else 0
    ensures forall j :: left <= j < |Victims(s, limit)| ==> Victims(s, limit)[j] !in IssuedPart(v)
    ensures CutOf(log, from, limit) > 0 ==> forall n :: n in v && n !in IssuedPart(v) ==> n in Victims(s, limit)
  {
    var names := Victims(s, limit);
    IssuedInFront(log, from, s);
    forall j | left <= j < |names|
      ensures names[j] !in IssuedPart(v)
    {
      assert s[limit + j] in s;
    }
    if CutOf(log, from, limit) > 0 {
      forall n | n in v && n !in IssuedPart(v)
        ensures n in names
      {
        var i :| 0 <= i < |s| && s[i] == v[n];
        assert names[i - limit] == TargetName(v[n].sessionId);
        assert n == TargetName(v[n].sessionId);
      }
    }
  }

  lemma OnlyOnce(log: seq<Record>, from: nat, left: nat, cut: nat)
    requires 1 <= left && from + left <= cut <= |log| && Ascending(log)
    ensures log[from + left - 1] !in log[from..from + left - 1] + log[cut..]
  {}

  /** Deleting the newest of the left part moves its end down by one. */
  lemma GapShrinks(v: map<Text, Record>, v': map<Text, Record>, log: seq<Record>, from: nat, left: nat, cut: nat)
    requires 1 <= left && from + left <= cut <= |log| && ViewOk(v) && Ascending(log)
    requires Holds(v, GapLog(log, from, left, cut))
    requires v' == v - {TargetName(log[from + left - 1].sessionId)}
    ensures Holds(v', GapLog(log, from, left - 1, cut))
  {
    var gone := log[from + left - 1];
    var a, b := log[from..from + left - 1], log[cut..];
    assert GapLog(log, from, left, cut) == a + [gone] + b;
    assert Retained(v, gone);
    OnlyOnce(log, from, left, cut);
    HeldWithout(v, v', a, gone, b);
  }

  lemma HeldWithout(v: map<Text, Record>, v': map<Text, Record>, a: seq<Record>, gone: Record, b: seq<Record>)
    requires ViewOk(v) && Holds(v, a + [gone] + b) && Retained(v, gone) && gone !in a + b
    requires v' == v - {TargetName(gone.sessionId)}
    ensures Holds(v', a + b)
  {
    forall r
      ensures Retained(v', r) <==> r in a + b
    {
      assert Retained(v, r) <==> r in a + [gone] + b;
      assert Retained(v', r) <==> Retained(v, r) && r != gone;
    }
  }

  lemma PruneIssued(
    v: map<Text, Record>, v': map<Text, Record>, log: seq<Record>, from: nat, victims: seq<Text>, limit: nat, left: nat)
    requires left > 0 && ViewOk(v) && Ascending(log) && PruningAt(v, log, from, victims, limit, left)
    requires Distinct(victims) && v' == v - {victims[0]}
    ensures PruningAt(v', log, from, victims[1..], limit, left - 1)
  {
    IssuedPartOfRemoval(v, victims[0]);
    IssuedPartViewOk(v);
    assert victims[0] == TargetName(log[from + left - 1].sessionId);
    GapShrinks(IssuedPart(v), IssuedPart(v'), log, from, left, CutOf(log, from, limit));
    StillListed(v, v', victims);
  }

  lemma PruneLegacy(
    v: map<Text, Record>, v': map<Text, Record>, log: seq<Record>, from: nat, victims: seq<Text>, limit: nat)
    requires victims != [] && PruningAt(v, log, from, victims, limit, 0)
    requires Distinct(victims) && v' == v - {victims[0]}
    ensures PruningAt(v', log, from, victims[1..], limit, 0)
  {
    IssuedPartOfRemoval(v, victims[0]);
    assert IssuedPart(v') == IssuedPart(v);
    StillListed(v, v', victims);
  }

  lemma StillListed(v: map<Text, Record>, v': map<Text, Record>, victims: seq<Text>)
    requires victims != [] && v' == v - {victims[0]}
    ensures (forall n :: n in v && n !in IssuedPart(v) ==> n in victims) ==>
              forall n :: n in v' && n !in IssuedPart(v') ==> n in victims[1..]
  {
    assert victims == [victims[0]] + victims[1..];
  }

  lemma PruneOne(v: map<Text, Record>, v': map<Text, Record>, log: seq<Record>, from: nat, victims: seq<Text>, limit: nat)
    requires victims != [] && ViewOk(v) && Ascending(log) && PruningOk(v, log, from, victims, limit)
    requires Distinct(victims) && v' == v - {victims[0]}
    ensures PruningOk(v', log, from, victims[1..], limit)
    ensures |victims| == 1 ==> SuffixKept(v', log, if |log| >= limit then |log| - limit else 0)
  {
    var left: nat :| PruningAt(v, log, from, victims, limit, left);
    if left > 0 {
      PruneIssued(v, v', log, from, victims, limit, left);
    } else {
      PruneLegacy(v, v', log, from, victims, limit);
    }
    var left': nat := if left > 0 then left - 1 else 0;
    assert PruningAt(v', log, from, victims[1..], limit, left');
    if |victims| == 1 {
      PrunedAll(v', log, from, limit);
    }
  }

  lemma PrunedAll(v: map<Text, Record>, log: seq<Record>, from: nat, limit: nat)
    requires PruningAt(v, log, from, [], limit, 0)
    ensures SuffixKept(v, log, if |log| >= limit then |log| - limit else 0)
  {
    assert GapLog(log, from, 0, CutOf(log, from, limit)) == log[CutOf(log, from, limit)..];
  }

  lemma DeleteHistory(f: Format, w: World, a: Action, w': World)
    requires ReadsBack(f) && Sound(f, w) && IntactOk(f, w) && HistoryOk(f, w) && Step(f, w, a, w') && a.Delete?
    ensures HistoryOk(f, w')
  {
    HolderOf(f, w, a.client);
    DeleteKeeps(f, w, a, w');
    if !w.gapped {
      DeletePrunes(f, w, w', a.client);
    } else if !w'.gapped {
      DeleteCloses(f, w, a, w');
    }
  }

  /** The last deletion of a pass within the intact entries closes whatever gap there was. */
  lemma DeleteCloses(f: Format, w: World, a: Action, w': World)
    requires ReadsBack(f) && Sound(f, w) && IntactOk(f, w) && Step(f, w, a, w') && a.Delete? && w.gapped && !w'.gapped
    ensures !Pruning(w') && SuffixKept(View(f, w'.dir), w'.log, w'.from)
  {
    HolderOf(f, w, a.client);
    DeleteKeeps(f, w, a, w');
    DeleteIntact(f, w, a, w');
    LastDeletionCloses(f, w, w', a.client);
  }

  lemma LastDeletionCloses(f: Format, w: World, w': World, c: Client)
    requires MutexOk(w) && c in w.phases && w.phases[c].Deleting? && w.phases[c].victims != []
    requires w' == Deleted(w, c) && w.gapped && !w'.gapped && w.intact <= |w.log| && BehindCut(View(f, w.dir), w.phases[c])
    requires View(f, w'.dir) == View(f, w.dir) - {w.phases[c].victims[0]} && Inv(f, w') && IntactOk(f, w')
    ensures !Pruning(w') && SuffixKept(View(f, w'.dir), w'.log, w'.from)
  {
    LastDeletion(w, c);
    MendedSuffix(w.log, w.intact, View(f, w.dir), w.phases[c], View(f, w'.dir));
  }

  lemma MendedSuffix(log: seq<Record>, intact: nat, v: map<Text, Record>, p: Phase, v': map<Text, Record>)
    requires p.Deleting? && |p.victims| == 1 && BehindCut(v, p) && v' == v - {p.victims[0]}
    requires ViewOk(v') && LogOk(log, v') && (p.limit <= intact || intact == |log|)
    requires NewestRetained(v', log, if intact <= p.limit then intact else p.limit)
    ensures SuffixKept(v', log, if p.limit <= intact then |log| - p.limit else 0)
  {
    if p.limit <= intact {
      KeptIsSuffix(log, v, p, v');
      PlainSuffix(log, v', |log| - p.limit);
    } else {
      WholeLogHeld(log, v');
    }
  }

  lemma LastDeletion(w: World, c: Client)
    requires MutexOk(w) && c in w.phases && w.phases[c].Deleting? && w.phases[c].victims != []
    requires w.gapped && !Deleted(w, c).gapped && w.intact <= |w.log|
    ensures |w.phases[c].victims| == 1 && !Pruning(Deleted(w, c))
    ensures var limit := w.phases[c].limit;
            if limit <= w.intact then Deleted(w, c).intact == limit && Deleted(w, c).from == |w.log| - limit
            else Deleted(w, c).intact == w.intact == |w.log| && Deleted(w, c).from == 0
  {
    assert w.lock == Some(c);
  }

  lemma DeletePrunes(f: Format, w: World, w': World, c: Client)
    requires Inv(f, w) && HistoryOk(f, w) && !w.gapped
    requires c in w.phases && w.phases[c].Deleting? && w.phases[c].victims != [] && w.lock == Some(c)
    requires w' == Deleted(w, c) && View(f, w'.dir) == View(f, w.dir) - {w.phases[c].victims[0]}
    ensures HistoryOk(f, w')
  {
    var p := w.phases[c];
    VictimsDistinct(f, w, c);
    PruneOne(View(f, w.dir), View(f, w'.dir), w.log, w.from, p.victims, p.limit);
    DeletedHistory(f, w, w', c);
  }

  lemma DeletedHistory(f: Format, w: World, w': World, c: Client)
    requires c in w.phases && w.phases[c].Deleting? && w.phases[c].victims != [] && w.lock == Some(c) && w' == Deleted(w, c)
    requires PruningOk(View(f, w'.dir), w.log, w.from, w.phases[c].victims[1..], w.phases[c].limit)
    requires |w.phases[c].victims| == 1 ==>
               var limit := w.phases[c].limit;
               SuffixKept(View(f, w'.dir), w.log, if |w.log| >= limit then |w.log| - limit else 0)
    ensures HistoryOk(f, w')
  {
    DeletedPhase(w, c);
  }

  lemma VictimsDistinct(f: Format, w: World, c: Client)
    requires Inv(f, w) && c in w.phases && w.phases[c].Deleting?
    ensures Distinct(w.phases[c].victims)
  {
    assert PhaseOk(f, w, w.phases[c]);
  }

  lemma DeletedPhase(w: World, c: Client)
    requires c in w.phases && w.phases[c].Deleting? && w.phases[c].victims != [] && w.lock == Some(c)
    ensures var p, w' := w.phases[c], Deleted(w, c);
            && w'.lock == Some(c) && w'.phases[c] == p.(victims := p.victims[1..])
            && (Pruning(w') <==> |p.victims| > 1)
  {}

  lemma RenameHistory(f: Format, w: World, a: Action, w': World)
    requires ReadsBack(f) && Inv(f, w) && HistoryOk(f, w) && Step(f, w, a, w') && a.Rename?
    ensures HistoryOk(f, w')
  {
    HolderOf(f, w, a.client);
    RenameKeeps(f, w, a, w');
    if !w.gapped {
      CommitKept(View(f, w.dir), w.log, w.from, w.phases[a.client].record);
    }
  }

  lemma CommitKept(v: map<Text, Record>, log: seq<Record>, from: nat, r: Record)
    requires ViewOk(v) && LogOk(log, v) && SuffixKept(v, log, from) && MayCommit(v, r)
    ensures SuffixKept(v[TargetName(r.sessionId) := r], Admit(log, r), from)
  {
    IssuedPartSound(log, v);
    MayCommitIssued(v, r);
    CommitHistory(IssuedPart(v), log, from, r);
    IssuedPartOfUpdate(v, TargetName(r.sessionId), r);
  }

  lemma CommitHistory(v: map<Text, Record>, log: seq<Record>, from: nat, r: Record)
    requires ViewOk(v) && LogOk(log, v) && IsSuffixView(v, log, from) && MayCommit(v, r)
    ensures IsSuffixView(v[TargetName(r.sessionId) := r], Admit(log, r), from)
  {
    var target := TargetName(r.sessionId);
    if target in v {
      var k := HeldAt(v, log, from, target);
      ReplaceHeld(v, log, from, r, k);
    } else {
      ExceedsIssued(log, v, r);
      AppendHeld(v, log, from, r);
    }
  }

  lemma HeldAt(v: map<Text, Record>, log: seq<Record>, from: nat, target: Text) returns (k: nat)
    requires ViewOk(v) && IsSuffixView(v, log, from) && target in v
    ensures from + k < |log| && log[from + k] == v[target]
  {
    assert Retained(v, v[target]);
    var g := log[from..];
    k :| 0 <= k < |g| && g[k] == v[target];
  }

  lemma AppendHeld(v: map<Text, Record>, log: seq<Record>, from: nat, r: Record)
    requires from <= |log| && Holds(v, log[from..]) && TargetName(r.sessionId) !in v
    ensures IsSuffixView(v[TargetName(r.sessionId) := r], log + [r], from)
  {
    var v' := v[TargetName(r.sessionId) := r];
    assert (log + [r])[from..] == log[from..] + [r];
    forall x
      ensures Retained(v', x) <==> x in log[from..] + [r]
    {
      assert Retained(v, x) <==> x in log[from..];
    }
  }

  lemma ReplaceHeld(v: map<Text, Record>, log: seq<Record>, from: nat, r: Record, k: nat)
    requires ViewOk(v) && Ascending(log) && from + k < |log| && Holds(v, log[from..])
    requires TargetName(r.sessionId) in v && log[from + k] == v[TargetName(r.sessionId)]
    requires log[from + k].commitOrder == r.commitOrder
    ensures IsSuffixView(v[TargetName(r.sessionId) := r], Admit(log, r), from)
  {
    var target := TargetName(r.sessionId);
    var before, v' := log[from + k], v[target := r];
    AdmitReplaces(log, r, from + k);
    var g := log[from..];
    assert Admit(log, r)[from..] == g[k := r];
    assert g[k := r][k] == r && g[k] == before;
    forall x
      ensures Retained(v', x) <==> x in g[k := r]
    {
      UpdatedMember(g, k, r, x);
      assert Retained(v, x) <==> x in g;
    }
  }

  lemma UpdatedMember(g: seq<Record>, k: nat, r: Record, x: Record)
    requires Ascending(g) && k < |g|
    ensures x in g[k := r] <==> x == r || (x in g && x != g[k])
  {
    assert g[k := r][k] == r;
    if x in g[k := r] && x != r {
      var j :| 0 <= j < |g| && g[k := r][j] == x;
      assert g[j] == x;
    }
    if x in g && x != g[k] {
      var j :| 0 <= j < |g| && g[j] == x;
      assert g[k := r][j] == x;
    }
  }

  lemma StepHistory(f: Format, w: World, a: Action, w': World)
    requires ReadsBack(f) && Explained(f, w) && Step(f, w, a, w')
    ensures HistoryOk(f, w')
  {
    match a
    case Rename(_) => RenameHistory(f, w, a, w');
    case Rescan(_, _) => RescanHistory(f, w, a, w');
    case Delete(_) => DeleteHistory(f, w, a, w');
    case _ =>
      VisibleStep(f, w, a, w');
      OtherHistory(f, w, a, w');
  }

  lemma HolderStep(f: Format, w: World, a: Action, w': World)
    requires MutexOk(w) && Step(f, w, a, w') && w.lock == Some(a.client) && a.client in w.phases
    requires !a.Rename? && !a.Rescan? && !a.Delete? && HoldsLock(w.phases[a.client])
    ensures w'.log == w.log && w'.from == w.from && (w.gapped ==> w'.gapped)
    ensures if Pruning(w) then w'.gapped else !Pruning(w')
  {}

  /** A step of the holder outside retention, or one that cuts retention short. */
  lemma HolderHistory(f: Format, w: World, a: Action, w': World)
    requires Inv(f, w) && HistoryOk(f, w) && Step(f, w, a, w') && w.lock == Some(a.client) && a.client in w.phases
    requires !a.Rename? && !a.Rescan? && !a.Delete? && View(f, w'.dir) == View(f, w.dir)
    requires HoldsLock(w.phases[a.client])
    ensures HistoryOk(f, w')
  {
    HolderStep(f, w, a, w');
    QuietHistory(f, w, w');
  }

  lemma OutsiderStep(f: Format, w: World, a: Action, w': World)
    requires MutexOk(w) && Step(f, w, a, w')
    requires a.Submit? || a.Acquire? || (a.Crash? && w.phases[a.client].Waiting?)
    ensures w'.dir == w.dir && w'.log == w.log && w'.from == w.from && w'.gapped == w.gapped
    ensures Pruning(w') == Pruning(w)
    ensures Pruning(w) ==> w'.lock == w.lock && w'.phases[w.lock.value] == w.phases[w.lock.value]
  {}

  /** A client that does not hold the lock leaves the holder's phase alone. */
  lemma OutsiderHistory(f: Format, w: World, a: Action, w': World)
    requires MutexOk(w) && HistoryOk(f, w) && Step(f, w, a, w')
    requires a.Submit? || a.Acquire? || (a.Crash? && w.phases[a.client].Waiting?)
    ensures HistoryOk(f, w')
  {
    OutsiderStep(f, w, a, w');
  }

  lemma OtherHistory(f: Format, w: World, a: Action, w': World)
    requires Inv(f, w) && HistoryOk(f, w) && Step(f, w, a, w')
    requires !a.Rename? && !a.Rescan? && !a.Delete? && View(f, w'.dir) == View(f, w.dir)
    ensures HistoryOk(f, w')
  {
    if a.client in w.phases && HoldsLock(w.phases[a.client]) {
      HolderOf(f, w, a.client);
      HolderHistory(f, w, a, w');
    } else {
      OutsiderHistory(f, w, a, w');
    }
  }

  /** Sound, and explained by its history. */
  ghost predicate Explained(f: Format, w: World) {
    Sound(f, w) && IntactOk(f, w) && HistoryOk(f, w)
  }

  lemma StepExplained(f: Format, w: World, a: Action, w': World)
    requires ReadsBack(f) && Explained(f, w) && Step(f, w, a, w')
    ensures Explained(f, w')
  {
    StepSound(f, w, a, w');
    StepIntact(f, w, a, w');
    StepHistory(f, w, a, w');
  }

  lemma InitialExplained(f: Format, w: World)
    requires Initial(f, w)
    ensures Explained(f, w)
  {
    InitialIntact(f, w);
    InitialHistory(f, w);
  }

  /** Over every run the view is the history the log and `from` describe, legacy records included. */
  lemma RunExplained(f: Format, ws: seq<World>, actions: seq<Action>, i: nat)
    requires ReadsBack(f) && IsRun(f, ws, actions) && Initial(f, ws[0]) && i < |ws|
    ensures Explained(f, ws[i])
  {
    InitialExplained(f, ws[0]);
    var keeps := (w: World) => Explained(f, w);
    var step := (w: World, a: Action, w': World) => Step(f, w, a, w');
    forall w, a, w' | keeps(w) && step(w, a, w')
      ensures keeps(w')
    {
      StepExplained(f, w, a, w');
    }
    forall k: nat | 0 <= k < i
      ensures step(ws[k], actions[k], ws[k + 1])
    {
      RunStep(f, ws, actions, k);
    }
    Runs.RunKeeps(step, keeps, ws, actions, 0, i);
  }

  lemma StepAllIssued(f: Format, w: World, a: Action, w': World)
    requires ReadsBack(f) && Sound(f, w) && AllIssued(View(f, w.dir)) && Step(f, w, a, w')
    ensures AllIssued(View(f, w'.dir))
  {
    VisibleStep(f, w, a, w');
  }

  /** A journal without legacy records never has any. */
  lemma {:induction false} RunAllIssued(f: Format, ws: seq<World>, actions: seq<Action>, i: nat)
    requires ReadsBack(f) && IsRun(f, ws, actions) && Initial(f, ws[0]) && AllIssued(View(f, ws[0].dir)) && i < |ws|
    ensures AllIssued(View(f, ws[i].dir))
    decreases i
  {
    if i > 0 {
      RunAllIssued(f, ws, actions, i - 1);
      RunSound(f, ws, actions, i - 1);
      RunStep(f, ws, actions, i - 1);
      StepAllIssued(f, ws[i - 1], actions[i - 1], ws[i]);
    }
  }

  /** The listing is that of a suffix of the log, and Last Run on it is right; nothing is not found but what is gone. */
  ghost predicate Answers(w: World, s: seq<Record>, runnable: Text) {
    && ListsSuffix(s, w.log, w.from) && Truthful(w.log, runnable, LastRun(s, runnable))
    && match LastRun(s, runnable)
       case None => forall r :: r in w.log[w.from..] ==> r.runnable != runnable
       case Some(r) => r in s && r.runnable == runnable
  }

  lemma UngappedAnswers(f: Format, w: World, s: seq<Record>, runnable: Text)
    requires Explained(f, w) && !w.gapped && !Pruning(w) && IsListing(s, View(f, w.dir))
    ensures Answers(w, s, runnable) && (AllIssued(View(f, w.dir)) ==> s == Reverse(w.log[w.from..]))
  {
    ListingIsSuffix(f, w, s);
    LastRunOfListing(w.log, w.from, s, runnable);
  }

  lemma RunAnswers(f: Format, ws: seq<World>, actions: seq<Action>, i: nat, s: seq<Record>, runnable: Text)
    requires ReadsBack(f) && IsRun(f, ws, actions) && Initial(f, ws[0]) && i < |ws|
    requires !ws[i].gapped && !Pruning(ws[i]) && IsListing(s, View(f, ws[i].dir))
    ensures Answers(ws[i], s, runnable)
    ensures AllIssued(View(f, ws[0].dir)) ==> s == Reverse(ws[i].log[ws[i].from..])
  {
    RunExplained(f, ws, actions, i);
    if AllIssued(View(f, ws[0].dir)) {
      RunAllIssued(f, ws, actions, i);
    }
    UngappedAnswers(f, ws[i], s, runnable);
  }

  /**
   In every world of a run with no gap open and no write under way, Last Run is the most recent admission of the
   runnable ever made, or a legacy record if it was never admitted, or not found.
   */
  lemma LastRunIsMostRecent(
    f: Format, ws: seq<World>, actions: seq<Action>, i: nat, names: seq<Text>, runnable: Text)
    requires ReadsBack(f) && IsRun(f, ws, actions) && Initial(f, ws[0]) && i < |ws|
    requires !ws[i].gapped && ws[i].lock.None?
    requires Enumerates(names, ws[i].dir) && Scan(f, ws[i].dir, names).Loaded?
    ensures var s := Scan(f, ws[i].dir, names).records;
            Answers(ws[i], s, runnable) && (AllIssued(View(f, ws[0].dir)) ==> s == Reverse(ws[i].log[ws[i].from..]))
  {
    RunSound(f, ws, actions, i);
    ScanIsListing(f, ws[i].dir, names);
    RunAnswers(f, ws, actions, i, Scan(f, ws[i].dir, names).records, runnable);
  }
}
