/** What clients and operators may rely on, over every run: interleavings, refusals, failures and crashes included. */
module JournalGuarantees {
  import opened Bytes
  import opened SessionRecord
  import opened JournalStore
  import opened JournalDecision
  import opened JournalProtocol
  import opened JournalSafety
  import Runs

  // ----- runs -----

  ghost predicate StepAt(f: Format, ws: seq<World>, actions: seq<Action>, i: nat)
    requires i < |actions| < |ws|
  {
    Step(f, ws[i], actions[i], ws[i + 1])
  }

  /** `ws` is the sequence of worlds that the actions pass through. */
  ghost predicate IsRun(f: Format, ws: seq<World>, actions: seq<Action>) {
    |ws| == |actions| + 1 && forall i :: 0 <= i < |actions| ==> StepAt(f, ws, actions, i)
  }

  ghost predicate StartAt(f: Format, ws: seq<World>, i: nat)
    requires i < |ws|
  {
    Initial(f, ws[i])
  }

  /** A run from an initial world; a quantifier over the one index keeps the definition folded until it is wanted. */
  ghost predicate IsRunFromStart(f: Format, ws: seq<World>, actions: seq<Action>) {
    IsRun(f, ws, actions) && forall i :: 0 <= i < |ws| && i == 0 ==> StartAt(f, ws, i)
  }

  lemma RunStarts(f: Format, ws: seq<World>, actions: seq<Action>)
    requires IsRunFromStart(f, ws, actions)
    ensures Initial(f, ws[0])
  {
    assert StartAt(f, ws, 0);
  }

  lemma RunStep(f: Format, ws: seq<World>, actions: seq<Action>, i: nat)
    requires IsRun(f, ws, actions) && i < |actions|
    ensures Step(f, ws[i], actions[i], ws[i + 1])
  {
    assert StepAt(f, ws, actions, i);
  }

  lemma RunNext(f: Format, ws: seq<World>, actions: seq<Action>, a: Action, w': World)
    requires IsRun(f, ws, actions) && Step(f, ws[|ws| - 1], a, w')
    ensures IsRun(f, ws + [w'], actions + [a])
  {
    var ws', actions' := ws + [w'], actions + [a];
    forall i | 0 <= i < |actions'|
      ensures StepAt(f, ws', actions', i)
    {
      if i < |actions| {
        assert StepAt(f, ws, actions, i);
      }
    }
  }

  // ----- the records past the cut -----

  ghost predicate CutOk(f: Format, w: World) {
    forall c :: c in w.phases && w.phases[c].Deleting? && w.phases[c].victims != [] ==>
      BehindCut(View(f, w.dir), w.phases[c])
  }

  ghost predicate BehindCut(v: map<Text, Record>, p: Phase)
    requires p.Deleting?
  {
    KeptNewest(v, p) && Covered(v, p)
  }

  /** The limit's worth of newest records is all there, and every victim is older than all of them. */
  ghost predicate KeptNewest(v: map<Text, Record>, p: Phase)
    requires p.Deleting?
  {
    && |p.kept| == p.limit && NewestFirst(p.kept)
    && (forall i :: 0 <= i < |p.kept| ==> Retained(v, p.kept[i]))
    && (forall j :: 0 <= j < |p.victims| ==> p.victims[j] in v)
    && (forall i, j :: 0 <= i < |p.kept| && 0 <= j < |p.victims| ==> Newer(p.kept[i], v[p.victims[j]]))
  }

  /** There is nothing else. */
  ghost predicate Covered(v: map<Text, Record>, p: Phase)
    requires p.Deleting?
  {
    forall r :: Retained(v, r) ==> TargetName(r.sessionId) in p.victims || r in p.kept
  }

  lemma RetentionKept(s: seq<Record>, v: map<Text, Record>, limit: nat)
    requires IsListing(s, v) && |s| > limit
    ensures KeptNewest(v, StartOfRetention(s, limit))
  {}

  lemma RetentionCovered(s: seq<Record>, v: map<Text, Record>, limit: nat)
    requires IsListing(s, v) && |s| > limit
    ensures Covered(v, StartOfRetention(s, limit))
  {
    var p := StartOfRetention(s, limit);
    forall r | Retained(v, r)
      ensures TargetName(r.sessionId) in p.victims || r in p.kept
    {
      assert v[TargetName(r.sessionId)] in s;
      var k :| 0 <= k < |s| && s[k] == r;
      if k < limit {
        assert p.kept[k] == r;
      } else {
        assert p.victims[k - limit] == TargetName(r.sessionId);
      }
    }
  }

  lemma DeleteKeepsNewest(v: map<Text, Record>, p: Phase, v': map<Text, Record>, p': Phase)
    requires p.Deleting? && |p.victims| > 1 && KeptNewest(v, p) && Distinct(p.victims)
    requires v' == v - {p.victims[0]} && p' == p.(victims := p.victims[1..])
    ensures KeptNewest(v', p')
  {
    forall i | 0 <= i < |p'.kept|
      ensures Retained(v', p'.kept[i])
    {
      NewerTotal(p.kept[i], v[p.victims[0]]);
    }
    forall j | 0 <= j < |p'.victims|
      ensures p'.victims[j] in v' && p'.victims[j] == p.victims[j + 1]
    {
      assert p.victims[0] != p.victims[j + 1];
    }
  }

  lemma DeleteKeepsCovered(v: map<Text, Record>, p: Phase, v': map<Text, Record>, p': Phase)
    requires p.Deleting? && p.victims != [] && Covered(v, p)
    requires v' == v - {p.victims[0]} && p' == p.(victims := p.victims[1..])
    ensures Covered(v', p')
  {
    forall r | Retained(v', r)
      ensures TargetName(r.sessionId) in p'.victims || r in p'.kept
    {
      assert Retained(v, r);
      assert p.victims == [p.victims[0]] + p.victims[1..];
    }
  }

  lemma CutKeeps(f: Format, w: World, a: Action, w': World)
    requires ReadsBack(f) && Inv(f, w) && CutOk(f, w) && Step(f, w, a, w')
    ensures CutOk(f, w')
  {
    forall c | c in w'.phases && w'.phases[c].Deleting? && w'.phases[c].victims != []
      ensures BehindCut(View(f, w'.dir), w'.phases[c])
    {
      if c == a.client {
        OwnCutKeeps(f, w, a, w');
      } else {
        BesideHolder(f, w, a, w', c);
      }
    }
  }

  /** While one client is deleting, no other can touch the directory. */
  lemma BesideHolder(f: Format, w: World, a: Action, w': World, c: Client)
    requires MutexOk(w) && Step(f, w, a, w') && c in w'.phases && w'.phases[c].Deleting? && c != a.client
    ensures c in w.phases && w'.phases[c] == w.phases[c] && w'.dir == w.dir
  {
    assert w.lock == Some(c);
  }

  lemma OwnCutKeeps(f: Format, w: World, a: Action, w': World)
    requires Inv(f, w) && CutOk(f, w) && Step(f, w, a, w')
    requires a.client in w'.phases && w'.phases[a.client].Deleting? && w'.phases[a.client].victims != []
    ensures BehindCut(View(f, w'.dir), w'.phases[a.client])
  {
    OnlyRetentionDeletes(f, w, a, w');
    if a.Rescan? {
      RescanCut(f, w, a, w');
    } else {
      DeleteCut(f, w, a, w');
    }
  }

  lemma OnlyRetentionDeletes(f: Format, w: World, a: Action, w': World)
    requires Step(f, w, a, w') && a.client in w'.phases && w'.phases[a.client].Deleting?
    ensures a.Rescan? || a.Delete?
  {}

  lemma RescanCut(f: Format, w: World, a: Action, w': World)
    requires Inv(f, w) && Step(f, w, a, w') && a.Rescan? && w'.phases[a.client].victims != []
    ensures BehindCut(View(f, w'.dir), w'.phases[a.client])
  {
    ScanIsListing(f, w.dir, a.names);
    var s, limit := Scan(f, w.dir, a.names).records, w.phases[a.client].limit;
    if |s| > limit {
      RetentionKept(s, View(f, w.dir), limit);
      RetentionCovered(s, View(f, w.dir), limit);
    }
  }

  lemma DeleteCut(f: Format, w: World, a: Action, w': World)
    requires Inv(f, w) && CutOk(f, w) && Step(f, w, a, w') && a.Delete? && w'.phases[a.client].victims != []
    ensures BehindCut(View(f, w'.dir), w'.phases[a.client])
  {
    HolderOf(f, w, a.client);
    DeleteKeeps(f, w, a, w');
    DeleteKeepsNewest(View(f, w.dir), w.phases[a.client], View(f, w'.dir), w'.phases[a.client]);
    DeleteKeepsCovered(View(f, w.dir), w.phases[a.client], View(f, w'.dir), w'.phases[a.client]);
  }

  // ----- every reachable world -----

  ghost predicate Sound(f: Format, w: World) {
    Inv(f, w) && CutOk(f, w)
  }

  lemma StepSound(f: Format, w: World, a: Action, w': World)
    requires ReadsBack(f) && Sound(f, w) && Step(f, w, a, w')
    ensures Sound(f, w')
  {
    StepKeeps(f, w, a, w');
    CutKeeps(f, w, a, w');
  }

  /** Every reachable world is sound: a readable store, one active writer, an ascending log whose head is retained. */
  lemma RunSound(f: Format, ws: seq<World>, actions: seq<Action>, i: nat)
    requires ReadsBack(f) && IsRun(f, ws, actions) && Initial(f, ws[0]) && i < |ws|
    ensures Sound(f, ws[i])
  {
    InitialInv(f, ws[0]);
    var keeps := (w: World) => Sound(f, w);
    var step := (w: World, a: Action, w': World) => Step(f, w, a, w');
    forall w, a, w' | keeps(w) && step(w, a, w')
      ensures keeps(w')
    {
      StepSound(f, w, a, w');
    }
    forall k: nat | 0 <= k < i
      ensures step(ws[k], actions[k], ws[k + 1])
    {
      RunStep(f, ws, actions, k);
    }
    Runs.RunKeeps(step, keeps, ws, actions, 0, i);
  }

  // ----- what one step can do to the visible records -----

  /** `n` is past the cut of `limit`: that many retained records are listed before it. */
  ghost predicate PastCut(v: map<Text, Record>, n: Text, limit: nat) {
    n in v && exists kept: seq<Record> ::
      |kept| == limit && NewestFirst(kept) &&
      forall i :: 0 <= i < limit ==> Retained(v, kept[i]) && Newer(kept[i], v[n])
  }

  ghost predicate VisibleChange(v: map<Text, Record>, v': map<Text, Record>, w: World, a: Action)
    requires a.Rename? ==> a.client in w.phases && w.phases[a.client].Writing?
    requires a.Delete? ==> a.client in w.phases && w.phases[a.client].Deleting? && w.phases[a.client].victims != []
  {
    if a.Rename? then
      var r := w.phases[a.client].record;
      MayCommit(v, r) && v' == v[TargetName(r.sessionId) := r]
    else if a.Delete? then
      var n := w.phases[a.client].victims[0];
      v' == v - {n} && PastCut(v, n, w.phases[a.client].limit)
    else v' == v
  }

  lemma DeletePastCut(f: Format, w: World, a: Action, w': World)
    requires Inv(f, w) && CutOk(f, w) && Step(f, w, a, w') && a.Delete?
    ensures VisibleChange(View(f, w.dir), View(f, w'.dir), w, a)
  {
    var p, v := w.phases[a.client], View(f, w.dir);
    DeleteKeeps(f, w, a, w');
    VictimPastCut(v, p);
  }

  lemma VictimPastCut(v: map<Text, Record>, p: Phase)
    requires p.Deleting? && BehindCut(v, p) && p.victims != []
    ensures PastCut(v, p.victims[0], p.limit)
  {}

  /** The visible records stay, gain or replace the one being committed, or lose one past the cut: nothing else. */
  lemma VisibleStep(f: Format, w: World, a: Action, w': World)
    requires ReadsBack(f) && Sound(f, w) && Step(f, w, a, w')
    ensures VisibleChange(View(f, w.dir), View(f, w'.dir), w, a)
  {
    match a
    case Choose(_, _) => ChooseKeeps(f, w, a, w');
    case WriteTemp(_, _) => WriteTempKeeps(f, w, a, w');
    case Rename(_) => RenameKeeps(f, w, a, w');
    case Rescan(_, _) => RescanKeeps(f, w, a, w');
    case Delete(_) => DeletePastCut(f, w, a, w');
    case Fail(_, _) => FailKeeps(f, w, a, w');
    case _ =>
  }

  /** A write that does not commit leaves every file alone; one that fails before its rename leaves the records alone. */
  lemma RefusalIsQuiet(f: Format, w: World, c: Client, names: seq<Text>)
    requires Inv(f, w) && Enabled(f, w, Choose(c, names))
    requires !Decide(Scan(f, w.dir, names).records, w.phases[c].request).Commit?
    ensures Apply(f, w, Choose(c, names)).dir == w.dir
  {}

  // ----- one session over time -----

  /** A retained record is unchanged, or completed once with its order kept if it had one. */
  ghost predicate Evolves(before: Record, after: Record) {
    || after == before
    || (IsTransition(before, after) && (before.commitOrder > 0 ==> after.commitOrder == before.commitOrder))
  }

  lemma EvolvesTransitive(a: Record, b: Record, c: Record)
    requires Evolves(a, b) && Evolves(b, c)
    ensures Evolves(a, c)
  {}

  lemma StepEvolves(f: Format, w: World, a: Action, w': World, n: Text)
    requires ReadsBack(f) && Sound(f, w) && Step(f, w, a, w')
    requires n in View(f, w.dir) && n in View(f, w'.dir)
    ensures Evolves(View(f, w.dir)[n], View(f, w'.dir)[n])
  {
    VisibleStep(f, w, a, w');
  }

  /** The session file `n` is there, and says something `first` can have become. */
  ghost predicate HasEvolved(f: Format, w: World, n: Text, first: Record) {
    n in View(f, w.dir) && Evolves(first, View(f, w.dir)[n])
  }

  ghost predicate Tracked(f: Format, w: World, n: Text, first: Record) {
    Sound(f, w) && HasEvolved(f, w, n, first)
  }

  lemma EvolvesOn(f: Format, w: World, a: Action, w': World, n: Text, first: Record)
    requires ReadsBack(f) && Sound(f, w) && Step(f, w, a, w') && HasEvolved(f, w, n, first) && n in View(f, w'.dir)
    ensures HasEvolved(f, w', n, first)
  {
    StepEvolves(f, w, a, w', n);
    EvolvesTransitive(first, View(f, w.dir)[n], View(f, w'.dir)[n]);
  }

  lemma StepTracked(f: Format, w: World, a: Action, w': World, n: Text, first: Record)
    requires ReadsBack(f) && Tracked(f, w, n, first) && Step(f, w, a, w') && n in View(f, w'.dir)
    ensures Tracked(f, w', n, first)
  {
    StepSound(f, w, a, w');
    EvolvesOn(f, w, a, w', n, first);
  }

  ghost predicate RetainedThroughout(f: Format, ws: seq<World>, n: Text, i: nat, j: nat) {
    i <= j < |ws| && forall k :: i <= k <= j ==> n in View(f, ws[k].dir)
  }

  /** While a session stays retained it goes from running to terminal at most once; a terminal record never changes. */
  lemma RunEvolves(
    f: Format, ws: seq<World>, actions: seq<Action>, n: Text, i: nat, j: nat, first: Record)
    requires ReadsBack(f) && IsRun(f, ws, actions) && Initial(f, ws[0]) && RetainedThroughout(f, ws, n, i, j)
    requires first == View(f, ws[i].dir)[n]
    ensures Tracked(f, ws[j], n, first)
  {
    RunSound(f, ws, actions, i);
    var keeps := (w: World) => Tracked(f, w, n, first);
    var step := (w: World, a: Action, w': World) => Step(f, w, a, w') && n in View(f, w'.dir);
    forall w, a, w' | keeps(w) && step(w, a, w')
      ensures keeps(w')
    {
      StepTracked(f, w, a, w', n, first);
    }
    forall k: nat | i <= k < j
      ensures step(ws[k], actions[k], ws[k + 1])
    {
      RunStep(f, ws, actions, k);
    }
    Runs.RunKeeps(step, keeps, ws, actions, i, j);
  }

  // ----- orders -----

  /** `order` was issued at some point of the history the log records. */
  ghost predicate Issued(log: seq<Record>, order: int) {
    exists i :: 0 <= i < |log| && log[i].commitOrder == order
  }

  lemma IssuedStays(log: seq<Record>, r: Record, order: int)
    requires Issued(log, order)
    ensures Issued(Admit(log, r), order)
  {
    var i :| 0 <= i < |log| && log[i].commitOrder == order;
    assert Admit(log, r)[i].commitOrder == order;
  }

  lemma ExceedsIssued(log: seq<Record>, v: map<Text, Record>, r: Record)
    requires LogOk(log, v) && Exceeds(r.commitOrder, v)
    ensures (forall order :: Issued(log, order) ==> order < r.commitOrder) && Admit(log, r) == log + [r]
  {}

  /** A session admitted afresh gets an order above every order ever issued, evicted ones included. */
  lemma FreshOrder(f: Format, w: World, a: Action, w': World)
    requires ReadsBack(f) && Inv(f, w) && Step(f, w, a, w') && a.Rename?
    ensures var r, v := w.phases[a.client].record, View(f, w.dir);
            var target := TargetName(r.sessionId);
            if target in v && v[target].commitOrder > 0 then
              r.commitOrder == v[target].commitOrder && Issued(w.log, r.commitOrder)
            else
              (forall order :: Issued(w.log, order) ==> order < r.commitOrder) && w'.log == w.log + [r]
  {
    var r, v := w.phases[a.client].record, View(f, w.dir);
    RenameKeeps(f, w, a, w');
    var target := TargetName(r.sessionId);
    if target in v && v[target].commitOrder > 0 {
      var k :| 0 <= k < |w.log| && w.log[k] == v[target];
      assert w.log[k].commitOrder == r.commitOrder;
    } else {
      ExceedsIssued(w.log, v, r);
    }
  }

  /** The log forgets nothing: an order once issued stays issued for the rest of the run. */
  lemma StepKeepsIssued(f: Format, w: World, a: Action, w': World, order: int)
    requires Step(f, w, a, w') && Issued(w.log, order)
    ensures Issued(w'.log, order)
  {
    if a.Rename? {
      IssuedStays(w.log, w.phases[a.client].record, order);
    }
  }

  lemma RunKeepsIssued(f: Format, ws: seq<World>, actions: seq<Action>, order: int, i: nat, j: nat)
    requires IsRun(f, ws, actions) && i <= j < |ws| && Issued(ws[i].log, order)
    ensures Issued(ws[j].log, order)
  {
    var keeps := (w: World) => Issued(w.log, order);
    var step := (w: World, a: Action, w': World) => Step(f, w, a, w');
    forall w, a, w' | keeps(w) && step(w, a, w')
      ensures keeps(w')
    {
      StepKeepsIssued(f, w, a, w', order);
    }
    forall k: nat | i <= k < j
      ensures step(ws[k], actions[k], ws[k + 1])
    {
      RunStep(f, ws, actions, k);
    }
    Runs.RunKeeps(step, keeps, ws, actions, i, j);
  }

  /** Over a whole run: a later fresh admission's order exceeds every order issued at any earlier time. */
  lemma OrdersOnlyGrow(f: Format, ws: seq<World>, actions: seq<Action>, i: nat, j: nat, order: int, r: Record)
    requires ReadsBack(f) && IsRun(f, ws, actions) && Initial(f, ws[0])
    requires i <= j < |actions| && actions[j].Rename? && Issued(ws[i].log, order)
    requires actions[j].client in ws[j].phases && ws[j].phases[actions[j].client].Writing?
    requires r == ws[j].phases[actions[j].client].record && TargetName(r.sessionId) !in View(f, ws[j].dir)
    ensures order < r.commitOrder
  {
    RunKeepsIssued(f, ws, actions, order, i, j);
    RunSound(f, ws, actions, j);
    RunStep(f, ws, actions, j);
    FreshOrder(f, ws[j], actions[j], ws[j + 1]);
  }
}
