/**
 The listing of a journal against the admissions it goes back to, and what Last Run makes of it.

 Records of the first version have no issued order. They sort behind all others, so a listing is the newest-first view
 of the admissions that are left, followed by whatever legacy records are left.
 */
module JournalLastRun {
  import opened Bytes
  import opened SessionRecord
  import opened JournalStore
  import opened JournalDecision
  import opened JournalProtocol

  /** The retained records are exactly those of `g`. */
  ghost predicate Holds(v: map<Text, Record>, g: seq<Record>) {
    forall r :: Retained(v, r) <==> r in g
  }

  // ----- issued and legacy records -----

  /** Every record has an issued order: true of an empty journal, and of any journal this version alone has written. */
  ghost predicate AllIssued(v: map<Text, Record>) {
    forall n :: n in v ==> v[n].commitOrder > 0
  }

  ghost function IssuedPart(v: map<Text, Record>): map<Text, Record> {
    map n | n in v && v[n].commitOrder > 0 :: v[n]
  }

  lemma RetainedIssued(v: map<Text, Record>, r: Record)
    ensures Retained(IssuedPart(v), r) <==> Retained(v, r) && r.commitOrder > 0
  {}

  lemma IssuedPartSound(log: seq<Record>, v: map<Text, Record>)
    requires ViewOk(v) && LogOk(log, v)
    ensures ViewOk(IssuedPart(v)) && LogOk(log, IssuedPart(v))
  {}

  lemma IssuedPartOfUpdate(v: map<Text, Record>, n: Text, r: Record)
    requires r.commitOrder > 0
    ensures IssuedPart(v[n := r]) == IssuedPart(v)[n := r]
  {}

  lemma IssuedPartOfRemoval(v: map<Text, Record>, n: Text)
    ensures IssuedPart(v - {n}) == IssuedPart(v) - {n}
  {}

  lemma AllIssuedPart(v: map<Text, Record>)
    requires AllIssued(v)
    ensures IssuedPart(v) == v
  {}

  lemma MayCommitIssued(v: map<Text, Record>, r: Record)
    requires MayCommit(v, r)
    ensures MayCommit(IssuedPart(v), r)
  {}

  // ----- the listing of a suffix -----

  function Reverse<T>(s: seq<T>): (r: seq<T>)
    ensures |r| == |s|
    ensures forall i :: 0 <= i < |s| ==> r[i] == s[|s| - 1 - i]
  {
    seq(|s|, i requires 0 <= i < |s| => s[|s| - 1 - i])
  }

  lemma ReverseMembers<T>(s: seq<T>)
    ensures forall x :: x in Reverse(s) <==> x in s
  {
    forall x | x in s
      ensures x in Reverse(s)
    {
      var i :| 0 <= i < |s| && s[i] == x;
      assert Reverse(s)[|s| - 1 - i] == x;
    }
  }

  lemma HeldListing(s: seq<Record>, v: map<Text, Record>, g: seq<Record>)
    requires IsListing(s, v) && ViewOk(v) && Ascending(g) && Holds(v, g)
    ensures s == Reverse(g)
  {
    ReverseMembers(g);
    forall n | n in v
      ensures v[n] in Reverse(g)
    {
      assert Retained(v, v[n]);
    }
    assert forall r :: r in Reverse(g) ==> Retained(v, r);
    ListingUnique(s, Reverse(g), v);
  }

  /** Where the legacy records of a listing begin. */
  lemma {:induction false} LegacyBegins(s: seq<Record>) returns (k: nat)
    requires NewestFirst(s) && forall i :: 0 <= i < |s| ==> s[i].commitOrder >= 0
    ensures k <= |s|
    ensures forall i :: 0 <= i < k ==> s[i].commitOrder > 0
    ensures forall i :: k <= i < |s| ==> s[i].commitOrder == 0
  {
    if s == [] || s[|s| - 1].commitOrder > 0 {
      k := |s|;
      forall i | 0 <= i < |s|
        ensures s[i].commitOrder > 0
      {
        assert i < |s| - 1 ==> Newer(s[i], s[|s| - 1]);
      }
    } else {
      k := LegacyBegins(s[..|s| - 1]);
    }
  }

  lemma IssuedListing(s: seq<Record>, v: map<Text, Record>, k: nat)
    requires IsListing(s, v) && k <= |s|
    requires (forall i :: 0 <= i < k ==> s[i].commitOrder > 0) && (forall i :: k <= i < |s| ==> s[i].commitOrder == 0)
    ensures IsListing(s[..k], IssuedPart(v))
  {
    forall n | n in IssuedPart(v)
      ensures v[n] in s[..k]
    {
      var i :| 0 <= i < |s| && s[i] == v[n];
      assert i < k && s[..k][i] == v[n];
    }
  }

  /** The newest-first view of `g`, with nothing but legacy records behind it. */
  ghost predicate Lists(s: seq<Record>, g: seq<Record>) {
    && |g| <= |s| && s[..|g|] == Reverse(g)
    && forall i :: |g| <= i < |s| ==> s[i].commitOrder == 0
  }

  lemma MixedListing(s: seq<Record>, v: map<Text, Record>, g: seq<Record>)
    requires IsListing(s, v) && ViewOk(v) && Ascending(g) && Holds(IssuedPart(v), g)
    ensures Lists(s, g) && (AllIssued(v) ==> s == Reverse(g))
  {
    forall i | 0 <= i < |s|
      ensures s[i].commitOrder >= 0
    {
      assert s[i] in s;
    }
    var k := LegacyBegins(s);
    IssuedListing(s, v, k);
    IssuedPartViewOk(v);
    HeldListing(s[..k], IssuedPart(v), g);
    if AllIssued(v) {
      AllIssuedPart(v);
      HeldListing(s, v, g);
    }
  }

  lemma IssuedPartViewOk(v: map<Text, Record>)
    requires ViewOk(v)
    ensures ViewOk(IssuedPart(v))
  {}

  // ----- Last Run -----

  /** The lookup loop: the first listed record with the runnable. */
  function LastRun(s: seq<Record>, runnable: Text): Option<Record>
    decreases |s|
  {
    if s == [] then None else if s[0].runnable == runnable then Some(s[0]) else LastRun(s[1..], runnable)
  }

  method LastRunLoop(s: seq<Record>, runnable: Text) returns (found: Option<Record>)
    ensures found == LastRun(s, runnable)
  {
    for index := 0 to |s|
      invariant LastRun(s[index..], runnable) == LastRun(s, runnable)
    {
      assert s[index..][0] == s[index] && s[index..][1..] == s[index + 1..];
      if s[index].runnable == runnable {
        return Some(s[index]);
      }
    }
    assert s[|s|..] == [];
    return None;
  }

  lemma {:induction false} LastRunMeaning(s: seq<Record>, runnable: Text)
    ensures match LastRun(s, runnable)
            case None => forall r :: r in s ==> r.runnable != runnable
            case Some(r) => r in s && r.runnable == runnable &&
                            forall x :: x in s && x.runnable == runnable && x != r && NewestFirst(s) ==> Newer(r, x)
    decreases |s|
  {
    if s != [] && s[0].runnable != runnable {
      LastRunMeaning(s[1..], runnable);
      assert s == [s[0]] + s[1..];
    } else if s != [] && NewestFirst(s) {
      forall x | x in s && x != s[0]
        ensures Newer(s[0], x)
      {
        NewestHead(s, x);
      }
    }
  }

  /** `r` is the most recent admission of its runnable in the whole history. */
  ghost predicate MostRecent(log: seq<Record>, r: Record) {
    r in log && forall x :: x in log && x.runnable == r.runnable ==> x.commitOrder <= r.commitOrder
  }

  lemma NewestOfSuffix(log: seq<Record>, from: nat, r: Record)
    requires Ascending(log) && from <= |log| && r in log[from..]
    requires forall x :: x in log[from..] && x.runnable == r.runnable ==> x.commitOrder <= r.commitOrder
    ensures MostRecent(log, r)
  {
    var g := log[from..];
    var k :| 0 <= k < |g| && g[k] == r;
    assert log[from + k] == r;
    forall x | x in log && x.runnable == r.runnable
      ensures x.commitOrder <= r.commitOrder
    {
      var i :| 0 <= i < |log| && log[i] == x;
      if i >= from {
        assert g[i - from] == x;
      }
    }
  }

  /** A suffix answers for the whole history: its newest match is the newest match ever. */
  lemma LastRunOfSuffix(log: seq<Record>, from: nat, runnable: Text)
    requires Ascending(log) && from <= |log|
    ensures match LastRun(Reverse(log[from..]), runnable)
            case None => forall r :: r in log[from..] ==> r.runnable != runnable
            case Some(r) => r.runnable == runnable && MostRecent(log, r)
  {
    var s := Reverse(log[from..]);
    ReverseMembers(log[from..]);
    assert NewestFirst(s);
    LastRunMeaning(s, runnable);
    var found := LastRun(s, runnable);
    if found.Some? {
      assert forall x :: x in s && x.runnable == runnable && x != found.value ==> Newer(found.value, x);
      NewestOfSuffix(log, from, found.value);
    }
  }

  // ----- with legacy records -----

  lemma {:induction false} LastRunConcat(s: seq<Record>, t: seq<Record>, runnable: Text)
    ensures LastRun(s + t, runnable) ==
            if LastRun(s, runnable).Some? then LastRun(s, runnable) else LastRun(t, runnable)
    decreases |s|
  {
    if s == [] {
      assert s + t == t;
    } else if s[0].runnable != runnable {
      assert (s + t)[1..] == s[1..] + t;
      LastRunConcat(s[1..], t, runnable);
    }
  }

  /** An answer that is not wrong: nothing, the most recent admission ever, or a legacy record of a runnable never admitted. */
  ghost predicate Truthful(log: seq<Record>, runnable: Text, found: Option<Record>) {
    found.Some? ==>
      if found.value.commitOrder > 0 then MostRecent(log, found.value) else forall x :: x in log ==> x.runnable != runnable
  }

  /** What Last Run answers on a listing of the log from `from` on, legacy records included as long as nothing is gone. */
  lemma LastRunOfListing(log: seq<Record>, from: nat, s: seq<Record>, runnable: Text)
    requires Ascending(log) && from <= |log| && Lists(s, log[from..]) && (from > 0 ==> |s| == |log| - from)
    requires forall i :: 0 <= i < |log| ==> log[i].commitOrder > 0
    ensures Truthful(log, runnable, LastRun(s, runnable))
    ensures match LastRun(s, runnable)
            case None => forall r :: r in log[from..] ==> r.runnable != runnable
            case Some(r) => r in s && r.runnable == runnable
  {
    var g := log[from..];
    var front, legacy := s[..|g|], s[|g|..];
    assert s == front + legacy;
    LastRunConcat(front, legacy, runnable);
    LastRunOfSuffix(log, from, runnable);
    LastRunMeaning(s, runnable);
    if LastRun(front, runnable).None? && LastRun(s, runnable).Some? {
      LastRunMeaning(legacy, runnable);
      assert legacy != [] && from == 0 && log[0..] == log;
    }
  }
}
