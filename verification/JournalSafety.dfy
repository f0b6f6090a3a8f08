/** Every step of the write protocol keeps the store invariants, whatever the interleaving and wherever a crash falls. */
module JournalSafety {
  import opened Bytes
  import opened SessionRecord
  import opened JournalStore
  import opened JournalDecision
  import opened JournalProtocol

  // ----- the view across each kind of step -----

  ghost predicate Step(f: Format, w: World, a: Action, w': World) {
    Enabled(f, w, a) && w' == Apply(f, w, a)
  }

  lemma HolderOf(f: Format, w: World, c: Client)
    requires Inv(f, w) && c in w.phases && HoldsLock(w.phases[c])
    ensures w.lock == Some(c) && PhaseOk(f, w, w.phases[c])
  {}

  lemma QuietStep(f: Format, w: World, w': World, c: Client)
    requires Inv(f, w) && w'.dir == w.dir && w'.log == w.log
    requires forall d :: d in w'.phases && d != c ==> d in w.phases && w'.phases[d] == w.phases[d]
    requires c in w'.phases ==> PhaseOk(f, w', w'.phases[c])
    requires MutexOk(w')
    ensures Inv(f, w')
  {
    forall d | d in w'.phases && d != c
      ensures PhaseOk(f, w', w'.phases[d])
    {
      assert PhaseOk(f, w, w.phases[d]);
    }
  }

  /** A change by the lock holder that leaves the store, the log and its own phase in order. */
  lemma HolderKeeps(f: Format, w: World, w': World, c: Client)
    requires Inv(f, w) && w.lock == Some(c) && w'.lock == w.lock
    requires forall d :: d in w'.phases && d != c ==> d in w.phases && w'.phases[d] == w.phases[d]
    requires c in w'.phases ==> PhaseOk(f, w', w'.phases[c])
    requires StoreOk(f, w'.dir) && LogOk(w'.log, View(f, w'.dir))
    ensures Inv(f, w')
  {
    OthersUnaffected(f, w, w', c);
  }

  lemma SubmitKeeps(f: Format, w: World, a: Action, w': World)
    requires Inv(f, w) && Step(f, w, a, w') && (a.Submit? || a.Acquire?)
    ensures Inv(f, w')
  {
    if a.Acquire? {
      assert PhaseOk(f, w, w.phases[a.client]);
    }
    QuietStep(f, w, w', a.client);
  }

  lemma EndKeeps(f: Format, w: World, a: Action, w': World)
    requires Inv(f, w) && Step(f, w, a, w') && (a.Release? || a.Crash?)
    ensures Inv(f, w')
  {
    QuietStep(f, w, w', a.client);
  }

  lemma StartWriting(f: Format, w: World, w': World, c: Client, r: Record, limit: nat)
    requires Inv(f, w) && c in w.phases && w.lock == Some(c)
    requires MayCommit(View(f, w.dir), r) && 1 <= limit <= MAX_RECORDS
    requires w' == w.(dir := w.dir[TempOf(r) := []], phases := w.phases[c := Writing(r, limit, 0)])
    ensures Inv(f, w') && View(f, w'.dir) == View(f, w.dir)
  {
    assert f.emit(r)[..0] == [];
    Written(f, w, w', c, r, limit, 0);
  }

  lemma FinishQuietly(f: Format, w: World, w': World, c: Client)
    requires Inv(f, w) && c in w.phases && w.lock == Some(c)
    requires w'.dir == w.dir && w'.log == w.log && w'.lock == w.lock && w'.phases == w.phases[c := Finished]
    ensures Inv(f, w')
  {
    QuietStep(f, w, w', c);
  }

  lemma ChooseKeeps(f: Format, w: World, a: Action, w': World)
    requires Inv(f, w) && Step(f, w, a, w') && a.Choose?
    ensures Inv(f, w') && View(f, w'.dir) == View(f, w.dir)
  {
    var c, p := a.client, w.phases[a.client];
    HolderOf(f, w, c);
    ScanIsListing(f, w.dir, a.names);
    var s := Scan(f, w.dir, a.names).records;
    DecideMeaning(s, View(f, w.dir), p.request);
    DecidedKeeps(f, w, w', c, Decide(s, p.request), p.limit);
  }

  lemma DecidedKeeps(f: Format, w: World, w': World, c: Client, d: Decision, limit: nat)
    requires Inv(f, w) && c in w.phases && w.lock == Some(c) && 1 <= limit <= MAX_RECORDS
    requires d.Commit? ==> MayCommit(View(f, w.dir), d.record)
    requires w' == match d
                   case Commit(r) => w.(dir := w.dir[TempOf(r) := []], phases := w.phases[c := Writing(r, limit, 0)])
                   case _ => w.(phases := w.phases[c := Finished])
    ensures Inv(f, w') && View(f, w'.dir) == View(f, w.dir)
  {
    if d.Commit? {
      StartWriting(f, w, w', c, d.record, limit);
    } else {
      FinishQuietly(f, w, w', c);
    }
  }

  lemma WriteTempKeeps(f: Format, w: World, a: Action, w': World)
    requires Inv(f, w) && Step(f, w, a, w') && a.WriteTemp?
    ensures Inv(f, w') && View(f, w'.dir) == View(f, w.dir)
  {
    var c, p := a.client, w.phases[a.client];
    HolderOf(f, w, c);
    Written(f, w, w', c, p.record, p.limit, a.written);
  }

  lemma Written(f: Format, w: World, w': World, c: Client, r: Record, limit: nat, n: nat)
    requires Inv(f, w) && c in w.phases && w.lock == Some(c)
    requires MayCommit(View(f, w.dir), r) && 1 <= limit <= MAX_RECORDS && n <= |f.emit(r)|
    requires w' == w.(dir := w.dir[TempOf(r) := f.emit(r)[..n]], phases := w.phases[c := Writing(r, limit, n)])
    ensures Inv(f, w') && View(f, w'.dir) == View(f, w.dir)
  {
    ViewIgnoresTemp(f, w.dir, TargetName(r.sessionId), f.emit(r)[..n]);
    HolderKeeps(f, w, w', c);
  }

  lemma CleanTemp(f: Format, w: World, w': World, c: Client, r: Record)
    requires Inv(f, w) && c in w.phases && w.lock == Some(c)
    requires w'.dir == w.dir - {TempOf(r)} && w'.log == w.log && w'.lock == w.lock
    requires w'.phases == w.phases[c := Finished]
    ensures Inv(f, w') && View(f, w'.dir) == View(f, w.dir)
  {
    ViewIgnoresTemp(f, w.dir, TargetName(r.sessionId), []);
    HolderKeeps(f, w, w', c);
  }

  lemma FailKeeps(f: Format, w: World, a: Action, w': World)
    requires Inv(f, w) && Step(f, w, a, w') && a.Fail?
    ensures Inv(f, w') && View(f, w'.dir) == View(f, w.dir)
  {
    var c, p := a.client, w.phases[a.client];
    HolderOf(f, w, c);
    if p.Writing? && a.cleaned {
      CleanTemp(f, w, w', c, p.record);
    } else {
      FinishQuietly(f, w, w', c);
    }
  }

  lemma RescanKeeps(f: Format, w: World, a: Action, w': World)
    requires Inv(f, w) && Step(f, w, a, w') && a.Rescan?
    ensures Inv(f, w') && View(f, w'.dir) == View(f, w.dir)
  {
    HolderOf(f, w, a.client);
    ScanIsListing(f, w.dir, a.names);
    StartDeleting(f, w, w', a.client, Scan(f, w.dir, a.names).records, w.phases[a.client].limit);
  }

  lemma StartDeleting(f: Format, w: World, w': World, c: Client, s: seq<Record>, limit: nat)
    requires Inv(f, w) && c in w.phases && w.lock == Some(c)
    requires IsListing(s, View(f, w.dir)) && 1 <= limit <= MAX_RECORDS
    requires w'.dir == w.dir && w'.log == w.log && w'.lock == w.lock
    requires w'.phases == w.phases[c := StartOfRetention(s, limit)]
    ensures Inv(f, w')
  {
    VictimsOk(s, View(f, w.dir), w, limit);
    QuietStep(f, w, w', c);
  }

  /** The victims are distinct record names, and the head of the listing is not among them. */
  lemma VictimsOk(s: seq<Record>, v: map<Text, Record>, w: World, limit: nat)
    requires IsListing(s, v) && ViewOk(v) && LogOk(w.log, v) && limit >= 1
    ensures var names := Victims(s, limit);
            && Distinct(names) && (forall i :: 0 <= i < |names| ==> names[i] in v)
            && (w.log != [] ==> TargetName(w.log[|w.log| - 1].sessionId) !in names)
  {
    var names := Victims(s, limit);
    ListingIds(s, v);
    forall i | 0 <= i < |names|
      ensures names[i] in v
    {
      assert s[limit + i] in s;
    }
    forall i, j | 0 <= i < j < |names|
      ensures names[i] != names[j]
    {
      TargetNameInjective(s[limit + i].sessionId, s[limit + j].sessionId);
    }
    if w.log != [] {
      HeadIsNewest(s, v, w);
      forall i | 0 <= i < |names|
        ensures names[i] != TargetName(s[0].sessionId)
      {
        TargetNameInjective(s[limit + i].sessionId, s[0].sessionId);
      }
    }
  }

  lemma HeadIsNewest(s: seq<Record>, v: map<Text, Record>, w: World)
    requires IsListing(s, v) && ViewOk(v) && LogOk(w.log, v) && w.log != []
    ensures s != [] && s[0] == w.log[|w.log| - 1]
  {
    var last := w.log[|w.log| - 1];
    assert v[TargetName(last.sessionId)] in s;
    var head := s[0];
    assert head in s;
    assert head.commitOrder > 0 ==> head in w.log;
    NewerTotal(head, last);
    if head != last {
      NewestHead(s, last);
      assert false;
    }
  }

  lemma RenameView(f: Format, dir: Directory, r: Record)
    requires ReadsBack(f) && Fits(r) && r.commitOrder > 0 && r.sessionId != []
    requires TempOf(r) in dir && dir[TempOf(r)] == f.emit(r)
    ensures var dir' := (dir - {TempOf(r)})[TargetName(r.sessionId) := dir[TempOf(r)]];
            && View(f, dir') == View(f, dir)[TargetName(r.sessionId) := r]
            && (AllReadable(f, dir) ==> AllReadable(f, dir'))
  {
    ViewIgnoresTemp(f, dir, TargetName(r.sessionId), []);
    ViewOfWrite(f, dir - {TempOf(r)}, r);
  }

  /** What the commit step finds and leaves, once the temporary file is complete. */
  lemma RenamedView(f: Format, w: World, c: Client, r: Record, limit: nat)
    requires ReadsBack(f) && Inv(f, w) && c in w.phases && w.phases[c] == Writing(r, limit, |f.emit(r)|)
    ensures Enabled(f, w, Rename(c)) && w.dir[TempOf(r)] == f.emit(r)
    ensures View(f, Apply(f, w, Rename(c)).dir) == View(f, w.dir)[TargetName(r.sessionId) := r]
  {
    HolderOf(f, w, c);
    assert f.emit(r)[..|f.emit(r)|] == f.emit(r);
    RenameView(f, w.dir, r);
  }

  /** The commit point: the record appears, or replaces the one it completes, and the log follows. */
  lemma RenameKeeps(f: Format, w: World, a: Action, w': World)
    requires ReadsBack(f) && Inv(f, w) && Step(f, w, a, w') && a.Rename?
    ensures Inv(f, w')
    ensures var r := w.phases[a.client].record;
            MayCommit(View(f, w.dir), r) && View(f, w'.dir) == View(f, w.dir)[TargetName(r.sessionId) := r]
  {
    var c, p := a.client, w.phases[a.client];
    HolderOf(f, w, c);
    assert f.emit(p.record)[..p.written] == f.emit(p.record);
    CommittedKeeps(f, w, w', c, p.record, p.limit);
  }

  lemma CommittedKeeps(f: Format, w: World, w': World, c: Client, r: Record, limit: nat)
    requires ReadsBack(f) && Inv(f, w) && c in w.phases && w.lock == Some(c)
    requires MayCommit(View(f, w.dir), r) && TempOf(r) in w.dir && w.dir[TempOf(r)] == f.emit(r)
    requires 1 <= limit <= MAX_RECORDS
    requires w'.dir == (w.dir - {TempOf(r)})[TargetName(r.sessionId) := w.dir[TempOf(r)]]
    requires w'.phases == w.phases[c := Verifying(limit)] && w'.log == Admit(w.log, r) && w'.lock == w.lock
    ensures Inv(f, w') && View(f, w'.dir) == View(f, w.dir)[TargetName(r.sessionId) := r]
  {
    var v := View(f, w.dir);
    RenameView(f, w.dir, r);
    CommitKeepsView(v, r);
    CommitKeepsLog(w.log, v, r);
    HolderKeeps(f, w, w', c);
  }

  lemma CommitKeepsView(v: map<Text, Record>, r: Record)
    requires ViewOk(v) && MayCommit(v, r)
    ensures ViewOk(v[TargetName(r.sessionId) := r])
  {
    var target := TargetName(r.sessionId);
    var v' := v[target := r];
    forall m, n | m in v' && n in v' && m != n
      ensures !SameAttempt(v'[m], v'[n]) && (v'[m].commitOrder > 0 ==> v'[m].commitOrder != v'[n].commitOrder)
    {
      if m != target && n == target {
        assert !SameAttempt(v[m], r);
      }
    }
  }

  lemma CommitKeepsLog(log: seq<Record>, v: map<Text, Record>, r: Record)
    requires ViewOk(v) && MayCommit(v, r) && LogOk(log, v)
    ensures LogOk(Admit(log, r), v[TargetName(r.sessionId) := r])
  {
    var target := TargetName(r.sessionId);
    if target in v && v[target].commitOrder > 0 {
      var k :| 0 <= k < |log| && log[k] == v[target];
      AdmitReplaces(log, r, k);
      ReplaceInLog(log, v, r, k);
    } else {
      AdmitAppends(log, r);
      AppendToLog(log, v, r);
    }
  }

  lemma AdmitAppends(log: seq<Record>, r: Record)
    requires Ascending(log) && (log != [] ==> r.commitOrder > log[|log| - 1].commitOrder)
    ensures Admit(log, r) == log + [r]
  {}

  lemma AppendToLog(log: seq<Record>, v: map<Text, Record>, r: Record)
    requires LogOk(log, v) && r.commitOrder > 0
    requires log != [] ==> r.commitOrder > log[|log| - 1].commitOrder
    ensures LogOk(log + [r], v[TargetName(r.sessionId) := r])
  {
    var v' := v[TargetName(r.sessionId) := r];
    forall n | n in v' && v'[n].commitOrder > 0
      ensures v'[n] in log + [r]
    {
      if n != TargetName(r.sessionId) {
        assert v[n] in log;
      }
    }
  }

  lemma AdmitReplaces(log: seq<Record>, r: Record, k: nat)
    requires Ascending(log) && k < |log| && log[k].commitOrder == r.commitOrder
    ensures Admit(log, r) == log[k := r]
  {
    forall i | 0 <= i < |log|
      ensures Admit(log, r)[i] == log[k := r][i]
    {
      assert i < k ==> log[i].commitOrder < log[k].commitOrder;
      assert i > k ==> log[k].commitOrder < log[i].commitOrder;
    }
  }

  lemma ReplaceInLog(log: seq<Record>, v: map<Text, Record>, r: Record, k: nat)
    requires ViewOk(v) && LogOk(log, v) && TargetName(r.sessionId) in v
    requires k < |log| && log[k] == v[TargetName(r.sessionId)] && r.commitOrder == log[k].commitOrder
    ensures LogOk(log[k := r], v[TargetName(r.sessionId) := r])
  {
    ReplacedAscends(log, r, k);
    ReplacedIsListed(log, v, r, k);
    ReplacedLast(log, v, r, k);
  }

  lemma ReplacedAscends(log: seq<Record>, r: Record, k: nat)
    requires Ascending(log) && k < |log| && log[k].commitOrder == r.commitOrder
    ensures Ascending(log[k := r])
  {}

  lemma ReplacedLast(log: seq<Record>, v: map<Text, Record>, r: Record, k: nat)
    requires ViewOk(v) && LogOk(log, v) && TargetName(r.sessionId) in v && k < |log| && log[k] == v[TargetName(r.sessionId)]
    ensures Retained(v[TargetName(r.sessionId) := r], log[k := r][|log| - 1])
  {
    if k != |log| - 1 {
      assert log[k].commitOrder < log[|log| - 1].commitOrder;
      assert TargetName(log[|log| - 1].sessionId) != TargetName(r.sessionId);
    }
  }

  lemma ReplacedIsListed(log: seq<Record>, v: map<Text, Record>, r: Record, k: nat)
    requires ViewOk(v) && LogOk(log, v) && TargetName(r.sessionId) in v && k < |log| && log[k] == v[TargetName(r.sessionId)]
    ensures var v' := v[TargetName(r.sessionId) := r];
            forall n :: n in v' && v'[n].commitOrder > 0 ==> v'[n] in log[k := r]
  {
    var target := TargetName(r.sessionId);
    var v' := v[target := r];
    forall n | n in v' && v'[n].commitOrder > 0
      ensures v'[n] in log[k := r]
    {
      if n == target {
        assert log[k := r][k] == r;
      } else {
        var j :| 0 <= j < |log| && log[j] == v[n];
        assert n == TargetName(v[n].sessionId) && j != k;
        assert log[k := r][j] == v[n];
      }
    }
  }

  /** Retention removes one record at a time, never the newest. */
  lemma DeleteKeeps(f: Format, w: World, a: Action, w': World)
    requires Inv(f, w) && Step(f, w, a, w') && a.Delete?
    ensures Inv(f, w') && View(f, w'.dir) == View(f, w.dir) - {w.phases[a.client].victims[0]}
  {
    var c, p := a.client, w.phases[a.client];
    HolderOf(f, w, c);
    DeletedOne(f, w, w', c, p.victims, p.limit, p.kept);
  }

  lemma DeletedOne(
    f: Format, w: World, w': World, c: Client, victims: seq<Text>, limit: nat, kept: seq<Record>)
    requires Inv(f, w) && c in w.phases && w.lock == Some(c)
    requires victims != [] && PhaseOk(f, w, Deleting(victims, limit, kept))
    requires w'.dir == w.dir - {victims[0]} && w'.phases == w.phases[c := Deleting(victims[1..], limit, kept)]
    requires w'.log == w.log && w'.lock == w.lock
    ensures Inv(f, w') && View(f, w'.dir) == View(f, w.dir) - {victims[0]}
  {
    ViewOfDelete(f, w.dir, victims[0]);
    RemovalKeepsView(View(f, w.dir), victims[0], w.log);
    StillDeleting(f, w, w', victims, limit, kept);
    HolderKeeps(f, w, w', c);
  }

  lemma StillDeleting(f: Format, w: World, w': World, victims: seq<Text>, limit: nat, kept: seq<Record>)
    requires victims != [] && PhaseOk(f, w, Deleting(victims, limit, kept))
    requires View(f, w'.dir) == View(f, w.dir) - {victims[0]} && w'.log == w.log
    ensures PhaseOk(f, w', Deleting(victims[1..], limit, kept))
  {
    FewerVictims(View(f, w.dir), victims);
  }

  lemma RemovalKeepsView(v: map<Text, Record>, n: Text, log: seq<Record>)
    requires ViewOk(v) && LogOk(log, v) && (log != [] ==> TargetName(log[|log| - 1].sessionId) != n)
    ensures ViewOk(v - {n}) && LogOk(log, v - {n})
  {}

  lemma FewerVictims(v: map<Text, Record>, victims: seq<Text>)
    requires victims != [] && Distinct(victims)
    requires forall i :: 0 <= i < |victims| ==> victims[i] in v
    ensures Distinct(victims[1..]) && forall i :: 0 <= i < |victims| - 1 ==> victims[1..][i] in v - {victims[0]}
    ensures forall n :: n !in victims ==> n !in victims[1..] && n != victims[0]
  {}

  /** Every step keeps the invariant. */
  lemma StepKeeps(f: Format, w: World, a: Action, w': World)
    requires ReadsBack(f) && Inv(f, w) && Step(f, w, a, w')
    ensures Inv(f, w')
  {
    match a
    case Submit(_, _, _) => SubmitKeeps(f, w, a, w');
    case Acquire(_) => SubmitKeeps(f, w, a, w');
    case Choose(_, _) => ChooseKeeps(f, w, a, w');
    case WriteTemp(_, _) => WriteTempKeeps(f, w, a, w');
    case Rename(_) => RenameKeeps(f, w, a, w');
    case Rescan(_, _) => RescanKeeps(f, w, a, w');
    case Delete(_) => DeleteKeeps(f, w, a, w');
    case Fail(_, _) => FailKeeps(f, w, a, w');
    case Release(_) => EndKeeps(f, w, a, w');
    case Crash(_) => EndKeeps(f, w, a, w');
  }
}
