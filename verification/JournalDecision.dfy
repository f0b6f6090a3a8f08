/** What a write does with the sorted scan: replay, refuse, or commit under an order. */
module JournalDecision {
  import opened Bytes
  import opened FieldCodec
  import opened SessionRecord
  import opened JournalStore

  datatype Refusal = IdentityConflict | TerminalImmutable | IdempotencyConflict | OrderExhausted

  datatype Decision = Replay | Refuse(reason: Refusal) | Commit(record: Record)

  /** The write loop from some record on, with the largest order seen and the order taken over so far. */
  function DecideFrom(s: seq<Record>, request: Record, maximum: Int64, order: Int64): Decision
    decreases |s|
  {
    if s == [] then
      if order != 0 then Commit(request.(commitOrder := order))
      else if maximum == INT64_MAX then Refuse(OrderExhausted)
      else Commit(request.(commitOrder := maximum + 1))
    else
      var existing := s[0];
      var maximum' := if existing.commitOrder > maximum then existing.commitOrder else maximum;
      if SameAttempt(existing, request) && existing.sessionId != request.sessionId then Refuse(IdentityConflict)
      else if existing.sessionId == request.sessionId then
        if SameContent(existing, request) then Replay
        else if !IsTransition(existing, request) then
          Refuse(if existing.state == TERMINAL then TerminalImmutable else IdempotencyConflict)
        else DecideFrom(s[1..], request, maximum', existing.commitOrder)
      else DecideFrom(s[1..], request, maximum', order)
  }

  function Decide(s: seq<Record>, request: Record): Decision {
    DecideFrom(s, request, 0, 0)
  }

  /** The loop itself: the running maximum and the inherited order are its only state. */
  method DecideLoop(s: seq<Record>, request: Record) returns (decision: Decision)
    ensures decision == Decide(s, request)
  {
    var maximum: Int64, order: Int64 := 0, 0;
    for index := 0 to |s|
      invariant DecideFrom(s[index..], request, maximum, order) == Decide(s, request)
    {
      var existing := s[index];
      assert s[index..][0] == existing && s[index..][1..] == s[index + 1..];
      if existing.commitOrder > maximum {
        maximum := existing.commitOrder;
      }
      if existing.operationId == request.operationId && existing.attemptId == request.attemptId &&
         existing.sessionId != request.sessionId {
        return Refuse(IdentityConflict);
      }
      if existing.sessionId == request.sessionId {
        if SameContent(existing, request) {
          return Replay;
        }
        if !IsTransition(existing, request) {
          return Refuse(if existing.state == TERMINAL then TerminalImmutable else IdempotencyConflict);
        }
        order := existing.commitOrder;
      }
    }
    assert s[|s|..] == [];
    if order == 0 {
      if maximum == INT64_MAX {
        return Refuse(OrderExhausted);
      }
      order := maximum + 1;
    }
    return Commit(request.(commitOrder := order));
  }

  // ----- what the decision means on a sound store -----

  ghost predicate Exceeds(order: int, v: map<Text, Record>) {
    forall n :: n in v ==> order > v[n].commitOrder
  }

  /** A commit of `r` keeps the store sound: a fresh session under a fresh order, or the one transition of a session. */
  ghost predicate MayCommit(v: map<Text, Record>, r: Record) {
    var target := TargetName(r.sessionId);
    && Fits(r) && r.sessionId != [] && r.commitOrder > 0
    && (forall n :: n in v && n != target ==> !SameAttempt(v[n], r))
    && (if target in v && v[target].commitOrder > 0 then
          IsTransition(v[target], r) && r.commitOrder == v[target].commitOrder
        else
          (target in v ==> IsTransition(v[target], r)) && Exceeds(r.commitOrder, v))
  }

  /** Nothing retained stands in the way of the request. */
  ghost predicate Admissible(v: map<Text, Record>, request: Record) {
    var target := TargetName(request.sessionId);
    && (forall n :: n in v && n != target ==> !SameAttempt(v[n], request))
    && (target in v ==> IsTransition(v[target], request))
  }

  ghost predicate Replayed(v: map<Text, Record>, request: Record) {
    var target := TargetName(request.sessionId);
    target in v && SameContent(v[target], request)
  }

  /** The loop ran to its end: nothing scanned stood in the way. */
  predicate RanThrough(d: Decision) { d.Commit? || d == Refuse(OrderExhausted) }

  /** Running to the end means every scanned record was let through. */
  lemma {:induction false} CommitCleared(s: seq<Record>, request: Record, maximum: Int64, order: Int64)
    requires RanThrough(DecideFrom(s, request, maximum, order))
    ensures forall r :: r in s && r.sessionId != request.sessionId ==> !SameAttempt(r, request)
    ensures forall r :: r in s && r.sessionId == request.sessionId ==> IsTransition(r, request)
    decreases |s|
  {
    if s != [] {
      var e := s[0];
      var maximum' := if e.commitOrder > maximum then e.commitOrder else maximum;
      var order' := if e.sessionId == request.sessionId then e.commitOrder else order;
      assert s == [e] + s[1..];
      CommitCleared(s[1..], request, maximum', order');
    }
  }

  /** The largest order among the scanned records, or `maximum` when that is larger. */
  function MaximumFrom(s: seq<Record>, maximum: Int64): Int64
    decreases |s|
  {
    if s == [] then maximum
    else MaximumFrom(s[1..], if s[0].commitOrder > maximum then s[0].commitOrder else maximum)
  }

  lemma {:induction false} MaximumFromMeaning(s: seq<Record>, maximum: Int64)
    ensures MaximumFrom(s, maximum) >= maximum
    ensures forall r :: r in s ==> MaximumFrom(s, maximum) >= r.commitOrder
    decreases |s|
  {
    if s != [] {
      assert s == [s[0]] + s[1..];
      MaximumFromMeaning(s[1..], if s[0].commitOrder > maximum then s[0].commitOrder else maximum);
    }
  }

  /** The order committed: the one taken over if there is one, else one more than the largest seen. */
  function OrderFrom(s: seq<Record>, id: Text, order: Int64): Int64
    decreases |s|
  {
    if s == [] then order
    else OrderFrom(s[1..], id, if s[0].sessionId == id then s[0].commitOrder else order)
  }

  /** What the end of the loop makes of the order taken over and the largest order seen. */
  function Conclude(request: Record, maximum: Int64, order: Int64): Decision {
    if order != 0 then Commit(request.(commitOrder := order))
    else if maximum == INT64_MAX then Refuse(OrderExhausted)
    else Commit(request.(commitOrder := maximum + 1))
  }

  lemma {:induction false} CommitOrder(s: seq<Record>, request: Record, maximum: Int64, order: Int64)
    requires RanThrough(DecideFrom(s, request, maximum, order))
    ensures DecideFrom(s, request, maximum, order) ==
            Conclude(request, MaximumFrom(s, maximum), OrderFrom(s, request.sessionId, order))
    decreases |s|
  {
    if s != [] {
      var e := s[0];
      var maximum' := if e.commitOrder > maximum then e.commitOrder else maximum;
      var order' := if e.sessionId == request.sessionId then e.commitOrder else order;
      CommitOrder(s[1..], request, maximum', order');
    }
  }

  lemma {:induction false} OrderFromMeaning(s: seq<Record>, id: Text, order: Int64)
    requires DistinctIds(s)
    ensures forall r :: r in s && r.sessionId == id ==> OrderFrom(s, id, order) == r.commitOrder
    ensures (forall r :: r in s ==> r.sessionId != id) ==> OrderFrom(s, id, order) == order
    decreases |s|
  {
    if s != [] {
      assert s == [s[0]] + s[1..];
      assert forall r :: r in s[1..] ==> r in s;
      OrderFromMeaning(s[1..], id, if s[0].sessionId == id then s[0].commitOrder else order);
      if s[0].sessionId == id {
        assert forall r :: r in s[1..] ==> r.sessionId != id;
      }
    }
  }

  lemma {:induction false} DecideFromReplay(s: seq<Record>, request: Record, maximum: Int64, order: Int64)
    requires DistinctIds(s)
    requires forall r :: r in s && r.sessionId != request.sessionId ==> !SameAttempt(r, request)
    ensures DecideFrom(s, request, maximum, order) == Replay <==> HoldsReplay(s, request)
    decreases |s|
  {
    if s != [] {
      var e := s[0];
      HoldsReplayStep(s, request);
      assert forall r :: r in s[1..] ==> r in s;
      var maximum' := if e.commitOrder > maximum then e.commitOrder else maximum;
      var order' := if e.sessionId == request.sessionId then e.commitOrder else order;
      DecideFromReplay(s[1..], request, maximum', order');
      if e.sessionId == request.sessionId {
        assert forall r :: r in s[1..] ==> r.sessionId != request.sessionId;
        assert !HoldsReplay(s[1..], request);
      }
    }
  }

  ghost predicate HoldsReplay(s: seq<Record>, request: Record) {
    exists r :: r in s && r.sessionId == request.sessionId && SameContent(r, request)
  }

  lemma HoldsReplayStep(s: seq<Record>, request: Record)
    requires s != []
    ensures HoldsReplay(s, request) <==>
            (s[0].sessionId == request.sessionId && SameContent(s[0], request)) || HoldsReplay(s[1..], request)
  {
    assert s == [s[0]] + s[1..];
  }

  lemma {:induction false} ReplayHasWitness(s: seq<Record>, request: Record, maximum: Int64, order: Int64)
    requires DecideFrom(s, request, maximum, order) == Replay
    ensures exists r :: r in s && r.sessionId == request.sessionId && SameContent(r, request)
    decreases |s|
  {
    var e := s[0];
    assert e in s;
    if e.sessionId != request.sessionId || !SameContent(e, request) {
      var maximum' := if e.commitOrder > maximum then e.commitOrder else maximum;
      var order' := if e.sessionId == request.sessionId then e.commitOrder else order;
      ReplayHasWitness(s[1..], request, maximum', order');
      assert forall r :: r in s[1..] ==> r in s;
    }
  }

  /** Without an obstacle the loop runs to the end. */
  lemma {:induction false} DecideFromAdmissible(s: seq<Record>, request: Record, maximum: Int64, order: Int64)
    requires DistinctIds(s)
    requires forall r :: r in s && r.sessionId != request.sessionId ==> !SameAttempt(r, request)
    requires forall r :: r in s && r.sessionId == request.sessionId ==> IsTransition(r, request)
    ensures RanThrough(DecideFrom(s, request, maximum, order))
    decreases |s|
  {
    if s != [] {
      var e := s[0];
      assert s == [e] + s[1..];
      assert forall r :: r in s[1..] ==> r in s;
      var maximum' := if e.commitOrder > maximum then e.commitOrder else maximum;
      var order' := if e.sessionId == request.sessionId then e.commitOrder else order;
      DecideFromAdmissible(s[1..], request, maximum', order');
    }
  }

  lemma ListingIds(s: seq<Record>, v: map<Text, Record>)
    requires IsListing(s, v)
    ensures DistinctIds(s)
  {
    forall i, j | 0 <= i < j < |s|
      ensures s[i].sessionId != s[j].sessionId
    {
      assert s[i] in s && s[j] in s;
      NewerTotal(s[i], s[j]);
    }
  }

  /** The order a commit of `request` would take over from the retained record of its session. */
  ghost predicate Inherits(v: map<Text, Record>, request: Record) {
    TargetName(request.sessionId) in v && v[TargetName(request.sessionId)].commitOrder > 0
  }

  /**
   On a sound store a request is replayed exactly when its content is there already, gets past every record exactly
   when it is admissible, and is then committed unless it needs a fresh order and none is left.
   */
  lemma DecideMeaning(s: seq<Record>, v: map<Text, Record>, request: Record)
    requires IsListing(s, v) && ViewOk(v) && Fits(request) && request.sessionId != [] && request.commitOrder == 0
    ensures Decide(s, request) == Replay <==> Replayed(v, request)
    ensures RanThrough(Decide(s, request)) <==> Admissible(v, request)
    ensures Decide(s, request) == Refuse(OrderExhausted) <==>
            Admissible(v, request) && !Inherits(v, request) && MaximumFrom(s, 0) == INT64_MAX
    ensures Decide(s, request).Commit? ==>
              SameContent(Decide(s, request).record, request) && MayCommit(v, Decide(s, request).record)
  {
    ListingIds(s, v);
    ReplayMeaning(s, v, request);
    if Admissible(v, request) {
      AdmissibleRuns(s, v, request);
    }
    if RanThrough(Decide(s, request)) {
      RunIsAdmissible(s, v, request);
      OrderMeaning(s, v, request);
    }
    if Decide(s, request).Commit? {
      CommitMeaning(s, v, request);
    }
  }

  lemma AdmissibleRuns(s: seq<Record>, v: map<Text, Record>, request: Record)
    requires IsListing(s, v) && ViewOk(v) && Admissible(v, request)
    ensures RanThrough(Decide(s, request))
  {
    ListingIds(s, v);
    forall r | r in s && r.sessionId != request.sessionId
      ensures !SameAttempt(r, request)
    {
      TargetNameInjective(r.sessionId, request.sessionId);
    }
    DecideFromAdmissible(s, request, 0, 0);
  }

  lemma RunIsAdmissible(s: seq<Record>, v: map<Text, Record>, request: Record)
    requires IsListing(s, v) && ViewOk(v) && RanThrough(Decide(s, request))
    ensures Admissible(v, request)
  {
    CommitCleared(s, request, 0, 0);
    var target := TargetName(request.sessionId);
    forall n | n in v && n != target
      ensures !SameAttempt(v[n], request)
    {
      assert v[n] in s && n == TargetName(v[n].sessionId);
    }
    if target in v {
      assert v[target] in s;
      TargetNameInjective(v[target].sessionId, request.sessionId);
    }
  }

  /** The order found by the loop is the retained record's, or none. */
  lemma OrderMeaning(s: seq<Record>, v: map<Text, Record>, request: Record)
    requires IsListing(s, v) && ViewOk(v) && RanThrough(Decide(s, request))
    ensures Decide(s, request) ==
            Conclude(request, MaximumFrom(s, 0),
                     if Inherits(v, request) then v[TargetName(request.sessionId)].commitOrder else 0)
  {
    ListingIds(s, v);
    CommitOrder(s, request, 0, 0);
    OrderFromMeaning(s, request.sessionId, 0);
    var target := TargetName(request.sessionId);
    if target in v {
      assert v[target] in s;
      TargetNameInjective(v[target].sessionId, request.sessionId);
    }
  }

  lemma ReplayMeaning(s: seq<Record>, v: map<Text, Record>, request: Record)
    requires IsListing(s, v) && ViewOk(v)
    ensures Decide(s, request) == Replay <==> Replayed(v, request)
  {
    ListingIds(s, v);
    var target := TargetName(request.sessionId);
    if Replayed(v, request) {
      forall r | r in s && r.sessionId != request.sessionId
        ensures !SameAttempt(r, request)
      {
        TargetNameInjective(r.sessionId, request.sessionId);
        assert !SameAttempt(v[TargetName(r.sessionId)], v[target]);
      }
      DecideFromReplay(s, request, 0, 0);
      assert v[target] in s;
    } else if Decide(s, request) == Replay {
      ReplayHasWitness(s, request, 0, 0);
    }
  }

  lemma CommitMeaning(s: seq<Record>, v: map<Text, Record>, request: Record)
    requires IsListing(s, v) && ViewOk(v) && Fits(request) && request.sessionId != [] && request.commitOrder == 0
    requires Decide(s, request).Commit?
    ensures SameContent(Decide(s, request).record, request)
    ensures MayCommit(v, Decide(s, request).record)
  {
    RunIsAdmissible(s, v, request);
    OrderMeaning(s, v, request);
    MaximumFromMeaning(s, 0);
    var c := Decide(s, request).record;
    if !Inherits(v, request) {
      forall n | n in v
        ensures c.commitOrder > v[n].commitOrder
      {
        assert v[n] in s;
      }
    }
  }

  // ----- which refusal -----

  /** A scanned record that ends the loop. */
  predicate Obstacle(x: Record, request: Record) {
    if x.sessionId == request.sessionId then !IsTransition(x, request) || SameContent(x, request)
    else SameAttempt(x, request)
  }

  /** What the loop returns at such a record. */
  function Verdict(x: Record, request: Record): Decision {
    if x.sessionId != request.sessionId then Refuse(IdentityConflict)
    else if SameContent(x, request) then Replay
    else Refuse(if x.state == TERMINAL then TerminalImmutable else IdempotencyConflict)
  }

  /** The newest of the retained obstacles. */
  ghost predicate FirstObstacle(v: map<Text, Record>, request: Record, x: Record) {
    && TargetName(x.sessionId) in v && v[TargetName(x.sessionId)] == x && Obstacle(x, request)
    && forall n :: n in v && Obstacle(v[n], request) && v[n] != x ==> Newer(x, v[n])
  }

  lemma {:induction false} DecideAtObstacle(s: seq<Record>, request: Record, maximum: Int64, order: Int64, k: nat)
    requires k < |s| && Obstacle(s[k], request) && forall j :: 0 <= j < k ==> !Obstacle(s[j], request)
    ensures DecideFrom(s, request, maximum, order) == Verdict(s[k], request)
    decreases |s|
  {
    if k > 0 {
      var e := s[0];
      assert !Obstacle(e, request);
      var maximum' := if e.commitOrder > maximum then e.commitOrder else maximum;
      var order' := if e.sessionId == request.sessionId then e.commitOrder else order;
      assert s[1..][k - 1] == s[k];
      DecideAtObstacle(s[1..], request, maximum', order', k - 1);
    }
  }

  lemma FirstObstacleDecides(s: seq<Record>, v: map<Text, Record>, request: Record, x: Record)
    requires IsListing(s, v) && FirstObstacle(v, request, x)
    ensures Decide(s, request) == Verdict(x, request)
  {
    assert v[TargetName(x.sessionId)] in s;
    var k :| 0 <= k < |s| && s[k] == x;
    forall j | 0 <= j < k
      ensures !Obstacle(s[j], request)
    {
      assert s[j] in s;
      NewerTotal(s[j], x);
    }
    DecideAtObstacle(s, request, 0, 0, k);
  }

  lemma {:induction false} FirstIn(s: seq<Record>, request: Record) returns (k: nat)
    requires exists r :: r in s && Obstacle(r, request)
    ensures k < |s| && Obstacle(s[k], request) && forall j :: 0 <= j < k ==> !Obstacle(s[j], request)
    decreases |s|
  {
    if Obstacle(s[0], request) {
      k := 0;
    } else {
      assert s == [s[0]] + s[1..];
      var i := FirstIn(s[1..], request);
      k := i + 1;
      assert s[1..][i] == s[k];
      forall j | 0 <= j < k
        ensures !Obstacle(s[j], request)
      {
        if j > 0 {
          assert s[1..][j - 1] == s[j];
        }
      }
    }
  }

  /** What is not admissible has a first obstacle. */
  lemma HasFirstObstacle(s: seq<Record>, v: map<Text, Record>, request: Record) returns (x: Record)
    requires IsListing(s, v) && ViewOk(v) && !Admissible(v, request)
    ensures FirstObstacle(v, request, x)
  {
    ObstacleInTheWay(s, v, request);
    var k := FirstIn(s, request);
    x := s[k];
    assert x in s;
    forall n | n in v && Obstacle(v[n], request) && v[n] != x
      ensures Newer(x, v[n])
    {
      assert v[n] in s;
      var j :| 0 <= j < |s| && s[j] == v[n];
    }
  }

  lemma ObstacleInTheWay(s: seq<Record>, v: map<Text, Record>, request: Record)
    requires IsListing(s, v) && ViewOk(v) && !Admissible(v, request)
    ensures exists r :: r in s && Obstacle(r, request)
  {
    var target := TargetName(request.sessionId);
    if target in v && !IsTransition(v[target], request) {
      assert v[target] in s;
      TargetNameInjective(v[target].sessionId, request.sessionId);
      assert Obstacle(v[target], request);
    } else {
      var n :| n in v && n != target && SameAttempt(v[n], request);
      assert v[n] in s && n == TargetName(v[n].sessionId);
      assert Obstacle(v[n], request);
    }
  }

  /** Which refusal: the newest retained obstacle decides, and only a want of orders refuses without one. */
  ghost predicate RefusedFor(v: map<Text, Record>, request: Record, reason: Refusal) {
    if reason.OrderExhausted? then
      Admissible(v, request) && !Inherits(v, request) && exists n :: n in v && v[n].commitOrder == INT64_MAX
    else exists x :: FirstObstacle(v, request, x) && Verdict(x, request) == Refuse(reason)
  }

  lemma {:induction false} MaximumReached(s: seq<Record>, maximum: Int64)
    ensures MaximumFrom(s, maximum) == maximum || exists r :: r in s && r.commitOrder == MaximumFrom(s, maximum)
    decreases |s|
  {
    if s != [] {
      assert s == [s[0]] + s[1..];
      MaximumReached(s[1..], if s[0].commitOrder > maximum then s[0].commitOrder else maximum);
      assert s[0] in s;
    }
  }

  lemma OrdersExhausted(s: seq<Record>, v: map<Text, Record>)
    requires IsListing(s, v)
    ensures MaximumFrom(s, 0) == INT64_MAX <==> exists n :: n in v && v[n].commitOrder == INT64_MAX
  {
    MaximumFromMeaning(s, 0);
    MaximumReached(s, 0);
    if n :| n in v && v[n].commitOrder == INT64_MAX {
      assert v[n] in s;
    }
    if MaximumFrom(s, 0) == INT64_MAX {
      var r :| r in s && r.commitOrder == INT64_MAX;
      assert v[TargetName(r.sessionId)] == r;
    }
  }

  lemma RefusalMeaning(s: seq<Record>, v: map<Text, Record>, request: Record, reason: Refusal)
    requires IsListing(s, v) && ViewOk(v) && Fits(request) && request.sessionId != [] && request.commitOrder == 0
    ensures Decide(s, request) == Refuse(reason) <==> RefusedFor(v, request, reason)
  {
    DecideMeaning(s, v, request);
    OrdersExhausted(s, v);
    if !reason.OrderExhausted? {
      if Decide(s, request) == Refuse(reason) {
        var x := HasFirstObstacle(s, v, request);
        FirstObstacleDecides(s, v, request, x);
      }
      if x :| FirstObstacle(v, request, x) && Verdict(x, request) == Refuse(reason) {
        FirstObstacleDecides(s, v, request, x);
      }
    }
  }

  /** A transition keeps the order of the record it completes exactly when that record has one; a legacy record has none. */
  lemma TransitionOrder(s: seq<Record>, v: map<Text, Record>, request: Record)
    requires IsListing(s, v) && ViewOk(v) && Fits(request) && request.sessionId != [] && request.commitOrder == 0
    requires Decide(s, request).Commit? && TargetName(request.sessionId) in v
    ensures Decide(s, request).record.commitOrder == v[TargetName(request.sessionId)].commitOrder <==>
            v[TargetName(request.sessionId)].commitOrder > 0
  {
    OrderMeaning(s, v, request);
    MaximumFromMeaning(s, 0);
    assert v[TargetName(request.sessionId)] in s;
  }
}
