/** Journals in trouble, each reached from an empty one by an actual run. */
module JournalScenarios {
  import opened Bytes
  import opened FieldCodec
  import opened SessionRecord
  import opened JournalStore
  import opened JournalDecision
  import opened JournalProtocol
  import opened JournalSafety
  import opened JournalGuarantees
  import opened JournalLastRun
  import opened JournalLimits
  import opened JournalReach
  import opened DiskFormat

  /** No files, no log, nobody there. */
  const EMPTY: World := World(map[], None, map[], [], 0, 0, false, false, false)

  lemma EmptyIsInitial(f: Format)
    ensures Initial(f, EMPTY) && View(f, EMPTY.dir) == map[]
  {}

  function Ordered(r: Record, order: Int64): Record { r.(commitOrder := order) }

  lemma AdmitNew(log: seq<Record>, r: Record)
    requires forall i :: 0 <= i < |log| ==> log[i].commitOrder < r.commitOrder
    ensures Admit(log, r) == log + [r]
  {}

  // ----- a stale Last Run -----

  /** Three requests that do not stand in each other's way, the first two of one runnable. */
  ghost predicate ThreeRequests(a: Record, b: Record, c: Record) {
    && IsRequest(a, 1) && IsRequest(b, 1) && IsRequest(c, 1)
    && a.sessionId != b.sessionId && a.sessionId != c.sessionId && b.sessionId != c.sessionId
    && !SameAttempt(a, b) && !SameAttempt(a, c) && !SameAttempt(b, c)
    && a.runnable == b.runnable != c.runnable
  }

  /** There are such requests. */
  lemma ThreeExist()
    ensures ThreeRequests(Plain("a", "game"), Plain("b", "game"), Plain("c", "tool"))
  {}

  function Plain(id: Text, runnable: Text): Record {
    Record(id, id, "try", runnable, "", RUNNING, "now", "", 0, 0, 0, 0, 0, "", "", "", "", 0)
  }

  lemma TargetsDiffer(a: Record, b: Record)
    requires a.sessionId != b.sessionId
    ensures TargetName(a.sessionId) != TargetName(b.sessionId)
  {
    TargetNameInjective(a.sessionId, b.sessionId);
  }

  function OneView(a: Record): map<Text, Record> { map[TargetName(a.sessionId) := Ordered(a, 1)] }

  function TwoView(a: Record, b: Record): map<Text, Record> { OneView(a)[TargetName(b.sessionId) := Ordered(b, 2)] }

  function ThreeView(a: Record, b: Record, c: Record): map<Text, Record> {
    TwoView(a, b)[TargetName(c.sessionId) := Ordered(c, 3)]
  }

  /** The journal after the first two writes. */
  ghost predicate TwoStored(f: Format, w: World, a: Record, b: Record) {
    Idle(w) && w.log == [Ordered(a, 1), Ordered(b, 2)] && View(f, w.dir) == TwoView(a, b)
  }

  lemma OneListed(a: Record)
    ensures IsListing([Ordered(a, 1)], OneView(a)) && |OneView(a)| == 1
  {}

  lemma FirstWrite(f: Format, a: Record) returns (w: World)
    requires ReadsBack(f) && IsRequest(a, 1)
    ensures Reaches(f, EMPTY, 1, 2, w) && Idle(w) && w.log == [Ordered(a, 1)]
    ensures View(f, w.dir) == OneView(a)
  {
    EmptyIsInitial(f);
    ReachStart(f, EMPTY, 1, 2);
    assert IsListing([], View(f, EMPTY.dir));
    var w1 := ReachCommitted(f, EMPTY, 1, 2, EMPTY, 0, a, 2, [], Ordered(a, 1));
    OneListed(a);
    w := ReachReleased(f, EMPTY, 1, 2, w1, 0, 2, [Ordered(a, 1)]);
  }

  lemma SecondDecision(a: Record, b: Record)
    requires IsRequest(b, 1) && a.sessionId != b.sessionId && !SameAttempt(a, b)
    ensures Decide([Ordered(a, 1)], b) == Commit(Ordered(b, 2))
  {
    assert [Ordered(a, 1)][1..] == [];
    assert DecideFrom([], b, 1, 0) == Commit(Ordered(b, 2));
  }

  lemma TwoListed(a: Record, b: Record, v: map<Text, Record>)
    requires a.sessionId != b.sessionId
    requires v == TwoView(a, b)
    ensures IsListing([Ordered(b, 2), Ordered(a, 1)], v) && |v| == 2
  {
    TargetsDiffer(a, b);
    assert v.Keys == {TargetName(a.sessionId), TargetName(b.sessionId)};
  }

  lemma SecondWrite(f: Format, a: Record, b: Record) returns (w: World)
    requires ReadsBack(f) && IsRequest(a, 1) && IsRequest(b, 1) && a.sessionId != b.sessionId && !SameAttempt(a, b)
    ensures Reaches(f, EMPTY, 1, 2, w) && TwoStored(f, w, a, b)
  {
    EmptyIsInitial(f);
    TargetsDiffer(a, b);
    var w1 := FirstWrite(f, a);
    SecondDecision(a, b);
    AdmitNew([Ordered(a, 1)], Ordered(b, 2));
    OneListed(a);
    var w2 := ReachCommitted(f, EMPTY, 1, 2, w1, 0, b, 2, [Ordered(a, 1)], Ordered(b, 2));
    TwoListed(a, b, View(f, w2.dir));
    w := ReachReleased(f, EMPTY, 1, 2, w2, 0, 2, [Ordered(b, 2), Ordered(a, 1)]);
  }

  lemma ThirdDecision(a: Record, b: Record, c: Record)
    requires ThreeRequests(a, b, c)
    ensures Decide([Ordered(b, 2), Ordered(a, 1)], c) == Commit(Ordered(c, 3))
  {
    assert [Ordered(b, 2), Ordered(a, 1)][1..] == [Ordered(a, 1)];
    assert [Ordered(a, 1)][1..] == [];
    assert DecideFrom([], c, 2, 0) == Commit(Ordered(c, 3));
    assert DecideFrom([Ordered(a, 1)], c, 2, 0) == Commit(Ordered(c, 3));
  }

  function ThreeNewest(a: Record, b: Record, c: Record): seq<Record> { [Ordered(c, 3), Ordered(b, 2), Ordered(a, 1)] }

  lemma ThreeListed(a: Record, b: Record, c: Record)
    requires ThreeRequests(a, b, c)
    ensures IsListing(ThreeNewest(a, b, c), ThreeView(a, b, c)) && |ThreeView(a, b, c)| == 3
  {
    TargetsDiffer(a, b);
    TargetsDiffer(a, c);
    TargetsDiffer(b, c);
    assert ThreeView(a, b, c).Keys == {TargetName(a.sessionId), TargetName(b.sessionId), TargetName(c.sessionId)};
  }

  lemma ThirdAdmitted(a: Record, b: Record, c: Record)
    ensures Admit([Ordered(a, 1), Ordered(b, 2)], Ordered(c, 3)) == [Ordered(a, 1), Ordered(b, 2), Ordered(c, 3)]
  {
    AdmitNew([Ordered(a, 1), Ordered(b, 2)], Ordered(c, 3));
  }

  lemma ThirdCommit(f: Format, a: Record, b: Record, c: Record) returns (w: World)
    requires ReadsBack(f) && ThreeRequests(a, b, c)
    ensures Reaches(f, EMPTY, 1, 2, w) && Alone(w, 0, Verifying(1))
    ensures View(f, w.dir) == ThreeView(a, b, c) && w.log == [Ordered(a, 1), Ordered(b, 2), Ordered(c, 3)]
  {
    EmptyIsInitial(f);
    TargetsDiffer(a, c);
    TargetsDiffer(b, c);
    var w2 := SecondWrite(f, a, b);
    TwoListed(a, b, View(f, w2.dir));
    ThirdDecision(a, b, c);
    ThirdAdmitted(a, b, c);
    w := ReachCommitted(f, EMPTY, 1, 2, w2, 0, c, 1, [Ordered(b, 2), Ordered(a, 1)], Ordered(c, 3));
  }

  lemma DeletesFirst(f: Format, w: World, c: Client, victims: seq<Text>, limit: nat, kept: seq<Record>) returns (w': World)
    requires Alone(w, c, Deleting(victims, limit, kept)) && victims != []
    ensures Step(f, w, Delete(c), w') && w'.lock == w.lock && c in w'.phases
    ensures View(f, w'.dir) == View(f, w.dir) - {victims[0]} && w'.log == w.log
  {
    w' := Apply(f, w, Delete(c));
    ViewOfDelete(f, w.dir, victims[0]);
  }

  lemma Crashes(f: Format, w: World, c: Client) returns (w': World)
    requires w.lock == Some(c) && c in w.phases
    ensures Step(f, w, Crash(c), w') && w'.lock.None? && w'.dir == w.dir && w'.log == w.log
  {
    w' := Apply(f, w, Crash(c));
  }

  lemma FirstVictim(a: Record, b: Record, c: Record)
    ensures Victims(ThreeNewest(a, b, c), 1) != [] && Victims(ThreeNewest(a, b, c), 1)[0] == TargetName(b.sessionId)
  {}

  /** What is left after the crash. */
  lemma LeftBehind(a: Record, b: Record, c: Record, v: map<Text, Record>, s: seq<Record>)
    requires ThreeRequests(a, b, c) && v == ThreeView(a, b, c) - {TargetName(b.sessionId)} && IsListing(s, v)
    ensures LastRun(s, a.runnable) == Some(Ordered(a, 1))
    ensures !MostRecent([Ordered(a, 1), Ordered(b, 2), Ordered(c, 3)], Ordered(a, 1))
  {
    TargetsDiffer(a, b);
    TargetsDiffer(a, c);
    TargetsDiffer(b, c);
    assert v == map[TargetName(a.sessionId) := Ordered(a, 1), TargetName(c.sessionId) := Ordered(c, 3)];
    assert v[TargetName(a.sessionId)] in s;
    LastRunMeaning(s, a.runnable);
    assert [Ordered(a, 1), Ordered(b, 2), Ordered(c, 3)][1] == Ordered(b, 2);
  }

  /**
   Two writes with a limit of two, one with a limit of one, and a crash after its first deletion: from an empty
   journal, and with any such requests, Last Run then answers with an admission that was not the last.
   */
  lemma StaleLastRun(f: Format, a: Record, b: Record, c: Record) returns (w: World)
    requires ReadsBack(f) && ThreeRequests(a, b, c)
    ensures Reaches(f, EMPTY, 1, 2, w) && w.lock.None?
    ensures forall s :: IsListing(s, View(f, w.dir)) ==>
              LastRun(s, a.runnable) == Some(Ordered(a, 1)) && !MostRecent(w.log, Ordered(a, 1))
  {
    EmptyIsInitial(f);
    var w1 := ThirdCommit(f, a, b, c);
    ThreeListed(a, b, c);
    var s := ThreeNewest(a, b, c);
    ReachSound(f, EMPTY, 1, 2, w1);
    var names := ListedScan(f, w1.dir, s);
    var w2 := Rescans(f, w1, 0, 1, names);
    ReachNext(f, EMPTY, 1, 2, w1, Rescan(0, names), w2);
    FirstVictim(a, b, c);
    var w3 := DeletesFirst(f, w2, 0, Victims(s, 1), 1, s[..1]);
    ReachNext(f, EMPTY, 1, 2, w2, Delete(0), w3);
    w := Crashes(f, w3, 0);
    ReachNext(f, EMPTY, 1, 2, w3, Crash(0), w);
    forall s | IsListing(s, View(f, w.dir))
      ensures LastRun(s, a.runnable) == Some(Ordered(a, 1)) && !MostRecent(w.log, Ordered(a, 1))
    {
      LeftBehind(a, b, c, View(f, w.dir), s);
    }
  }

  /** The same on the files the journal writes, with three actual requests and the lookup's own scan. */
  lemma StaleOnDisk() returns (w: World)
    ensures Reaches(V2, EMPTY, 1, 2, w) && w.lock.None?
    ensures forall names :: Enumerates(names, w.dir) && Scan(V2, w.dir, names).Loaded? ==>
              && LastRun(Scan(V2, w.dir, names).records, "game") == Some(Ordered(Plain("a", "game"), 1))
              && !MostRecent(w.log, Ordered(Plain("a", "game"), 1))
  {
    V2ReadsBack();
    ThreeExist();
    w := StaleLastRun(V2, Plain("a", "game"), Plain("b", "game"), Plain("c", "tool"));
    EmptyIsInitial(V2);
    ReachSound(V2, EMPTY, 1, 2, w);
    forall names | Enumerates(names, w.dir) && Scan(V2, w.dir, names).Loaded?
      ensures LastRun(Scan(V2, w.dir, names).records, "game") == Some(Ordered(Plain("a", "game"), 1))
      ensures !MostRecent(w.log, Ordered(Plain("a", "game"), 1))
    {
      ScanIsListing(V2, w.dir, names);
    }
  }

  // ----- a journal past the cap -----

  function Number(i: nat): Text { PrintNat(i) }

  function Numbered(i: nat): Record { Plain(Number(i), "game") }

  lemma NumbersDiffer(i: nat, j: nat)
    ensures Number(i) == Number(j) ==> i == j
  {
    assert DecimalValue(Number(i)) == i && DecimalValue(Number(j)) == j;
  }

  lemma NumberedIsRequest(i: nat)
    requires i <= MAX_RECORDS
    ensures IsRequest(Numbered(i), MAX_RECORDS)
  {
    PrintIntPlain(i);
    assert Power10(4) == 10000;
    PrintNatLength(i, 4, Power10(4));
  }

  ghost predicate NumberedBelow(r: Record, n: nat) {
    0 <= r.commitOrder <= n && exists i :: 0 <= i < n && r.sessionId == Number(i) && r.operationId == Number(i)
  }

  /** An idle journal of `n` numbered sessions. */
  ghost predicate Filled(f: Format, w: World, n: nat) {
    Idle(w) && |View(f, w.dir)| == n && forall m :: m in View(f, w.dir) ==> NumberedBelow(View(f, w.dir)[m], n)
  }

  lemma NextIsNew(v: map<Text, Record>, n: nat)
    requires ViewOk(v) && forall m :: m in v ==> NumberedBelow(v[m], n)
    ensures TargetName(Number(n)) !in v && Admissible(v, Numbered(n)) && !Inherits(v, Numbered(n))
  {
    forall m | m in v
      ensures v[m].sessionId != Number(n) && v[m].operationId != Number(n)
    {
      assert NumberedBelow(v[m], n);
      var i :| 0 <= i < n && v[m].sessionId == Number(i) && v[m].operationId == Number(i);
      NumbersDiffer(i, n);
    }
    forall m | m in v
      ensures m != TargetName(Number(n))
    {
      TargetNameInjective(v[m].sessionId, Number(n));
    }
  }

  lemma NextDecision(s: seq<Record>, v: map<Text, Record>, n: nat) returns (r: Record)
    requires n <= MAX_RECORDS && IsListing(s, v) && ViewOk(v) && forall m :: m in v ==> NumberedBelow(v[m], n)
    ensures Decide(s, Numbered(n)) == Commit(r) && r == Ordered(Numbered(n), r.commitOrder) && 0 < r.commitOrder <= n + 1
  {
    NumberedIsRequest(n);
    NextIsNew(v, n);
    forall x | x in s
      ensures x.commitOrder <= n
    {
      assert v[TargetName(x.sessionId)] == x;
    }
    MaximumReached(s, 0);
    MaximumFromMeaning(s, 0);
    DecideMeaning(s, v, Numbered(n));
    OrderMeaning(s, v, Numbered(n));
    r := Decide(s, Numbered(n)).record;
  }

  lemma SomeListing(f: Format, dir: Directory) returns (s: seq<Record>)
    requires StoreOk(f, dir) && |View(f, dir)| <= MAX_RECORDS
    ensures IsListing(s, View(f, dir)) && |s| == |View(f, dir)|
  {
    var names := Listed(dir.Keys);
    ScanIsListing(f, dir, names);
    s := Scan(f, dir, names).records;
  }

  /** One session more is committed, up to the second scan. */
  lemma CommitNext(f: Format, w: World, n: nat) returns (w': World)
    requires ReadsBack(f) && Reaches(f, EMPTY, MAX_RECORDS, MAX_RECORDS, w) && Filled(f, w, n) && n <= MAX_RECORDS
    ensures Reaches(f, EMPTY, MAX_RECORDS, MAX_RECORDS, w') && Alone(w', 0, Verifying(MAX_RECORDS))
    ensures |View(f, w'.dir)| == n + 1 && forall m :: m in View(f, w'.dir) ==> NumberedBelow(View(f, w'.dir)[m], n + 1)
  {
    EmptyIsInitial(f);
    ReachSound(f, EMPTY, MAX_RECORDS, MAX_RECORDS, w);
    NumberedIsRequest(n);
    var s := SomeListing(f, w.dir);
    var r := NextDecision(s, View(f, w.dir), n);
    w' := ReachCommitted(f, EMPTY, MAX_RECORDS, MAX_RECORDS, w, 0, Numbered(n), MAX_RECORDS, s, r);
    NextIsNew(View(f, w.dir), n);
    OneMore(View(f, w.dir), r, n, View(f, w'.dir));
  }

  lemma OneMore(v: map<Text, Record>, r: Record, n: nat, v': map<Text, Record>)
    requires v' == v[TargetName(r.sessionId) := r] && |v| == n && (forall m :: m in v ==> NumberedBelow(v[m], n)) && TargetName(r.sessionId) !in v
    requires r.sessionId == r.operationId == Number(n) && 0 <= r.commitOrder <= n + 1
    ensures |v'| == n + 1 && forall m :: m in v' ==> NumberedBelow(v'[m], n + 1)
  {
    GrowthOfUpdate(v, TargetName(r.sessionId), r);
    forall m | m in v
      ensures NumberedBelow(v[m], n + 1)
    {
      assert NumberedBelow(v[m], n);
      var i :| 0 <= i < n && v[m].sessionId == Number(i) && v[m].operationId == Number(i);
    }
  }

  /** With a limit of 1024, a journal of any size up to the cap can be reached. */
  lemma {:induction false} Fill(f: Format, n: nat) returns (w: World)
    requires ReadsBack(f) && n <= MAX_RECORDS
    ensures Reaches(f, EMPTY, MAX_RECORDS, MAX_RECORDS, w) && Filled(f, w, n)
  {
    EmptyIsInitial(f);
    if n == 0 {
      ReachStart(f, EMPTY, MAX_RECORDS, MAX_RECORDS);
      w := EMPTY;
    } else {
      var before := Fill(f, n - 1);
      var committed := CommitNext(f, before, n - 1);
      w := ReleaseFilled(f, committed, n);
    }
  }

  lemma ReleaseFilled(f: Format, committed: World, n: nat) returns (w: World)
    requires ReadsBack(f) && n <= MAX_RECORDS
    requires Reaches(f, EMPTY, MAX_RECORDS, MAX_RECORDS, committed) && Alone(committed, 0, Verifying(MAX_RECORDS))
    requires var v := View(f, committed.dir); |v| == n && forall m :: m in v ==> NumberedBelow(v[m], n)
    ensures Reaches(f, EMPTY, MAX_RECORDS, MAX_RECORDS, w) && Filled(f, w, n)
  {
    EmptyIsInitial(f);
    ReachSound(f, EMPTY, MAX_RECORDS, MAX_RECORDS, committed);
    var s := SomeListing(f, committed.dir);
    w := ReachReleased(f, EMPTY, MAX_RECORDS, MAX_RECORDS, committed, 0, MAX_RECORDS, s);
  }

  lemma GivesUp(f: Format, w: World, c: Client, limit: nat) returns (w': World)
    requires Alone(w, c, Verifying(limit))
    ensures Step(f, w, Fail(c, false), w') && Alone(w', c, Finished) && w'.dir == w.dir && w'.log == w.log
  {
    w' := Apply(f, w, Fail(c, false));
  }

  /** A limit of 1024 and 1025 sessions: an idle journal past the cap, which no later step can change. */
  lemma PastTheCap(f: Format) returns (w: World)
    requires ReadsBack(f)
    ensures Reaches(f, EMPTY, MAX_RECORDS, MAX_RECORDS, w) && Idle(w) && Sound(f, w)
    ensures |View(f, w.dir)| == MAX_RECORDS + 1 && NobodyChanging(w)
  {
    EmptyIsInitial(f);
    var full := Fill(f, MAX_RECORDS);
    var w1 := CommitNext(f, full, MAX_RECORDS);
    var w2 := GivesUp(f, w1, 0, MAX_RECORDS);
    ReachNext(f, EMPTY, MAX_RECORDS, MAX_RECORDS, w1, Fail(0, false), w2);
    w := Leaves(f, w2, 0, Finished);
    ReachNext(f, EMPTY, MAX_RECORDS, MAX_RECORDS, w2, Release(0), w);
    ReachSound(f, EMPTY, MAX_RECORDS, MAX_RECORDS, w);
  }
}
