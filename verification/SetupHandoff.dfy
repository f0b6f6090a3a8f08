/** Setup results projected into install references, and the freshness of launch plans bound to them. */
module SetupHandoff {
  import opened Bytes
  import opened Recognisers
  import opened References
  import opened StatusCodes

  datatype Operation = Install | Verify | Repair | Move | Uninstall | Recovery | BadOperation

  datatype ResultStatus = Completed | Refused | Failed | RecoveryRequired | BadResultStatus

  datatype Plan = Plan(
    operation: Operation, reviewed: bool, planId: Text, planDigest: Text, inputDigest: Text, productId: Text,
    installId: Text, provider: Text, providerRevision: Text)

  datatype Request = Request(
    operation: Operation, planId: Text, planDigest: Text, inputDigest: Text, productId: Text, installId: Text,
    provider: Text, providerRevision: Text)

  datatype InstalledState = InstalledState(
    lifecycle: Lifecycle, setupStateRef: Text, installId: Text, productId: Text, exactVersion: Text, entrypoint: Text,
    capabilities: Text, verification: Text, stateRevision: Text)

  datatype Result = Result(
    operation: Operation, status: ResultStatus, resultId: Text, audit: Text, planId: Text, planDigest: Text,
    productId: Text, provider: Text, providerRevision: Text, state: Option<InstalledState>)

  datatype Transition = Created | Refreshed | Archived | Unchanged

  datatype InstanceStatus = Ready | InstallChanged | InstallUnavailable | InstallNeedsRecovery

  // ----- validity -----

  ghost predicate MaybeText(t: Text) { t == [] || IsText(t) }

  ghost predicate PlanValid(p: Plan) {
    && !p.operation.BadOperation? && p.reviewed
    && IsText(p.planId) && IsText(p.planDigest) && IsText(p.inputDigest) && IsText(p.productId)
    && IsText(p.provider) && IsText(p.providerRevision)
    && (if p.operation.Install? then p.installId == [] else IsText(p.installId))
  }

  ghost predicate ReferenceValid(r: InstallReference) {
    && !r.ownership.BadOwnership? && !r.lifecycle.BadLifecycle?
    && IsText(r.installId) && IsText(r.productId) && IsText(r.exactVersion) && IsText(r.entrypoint)
    && IsText(r.capabilities) && IsText(r.verification) && IsText(r.stateRevision)
    && (if r.ownership.Managed? then IsText(r.setupStateRef) else MaybeText(r.setupStateRef))
  }

  ghost predicate StateValid(s: InstalledState) {
    && !s.lifecycle.BadLifecycle?
    && IsText(s.setupStateRef) && IsText(s.installId) && IsText(s.productId) && IsText(s.exactVersion)
    && IsText(s.entrypoint) && IsText(s.capabilities) && IsText(s.verification) && IsText(s.stateRevision)
  }

  ghost predicate ResultMatches(p: Plan, r: Result) {
    && r.operation == p.operation && !r.status.BadResultStatus?
    && IsText(r.resultId) && (if r.status.Completed? then IsText(r.audit) else MaybeText(r.audit))
    && r.planId == p.planId && r.planDigest == p.planDigest && r.productId == p.productId
    && r.provider == p.provider && r.providerRevision == p.providerRevision
  }

  method TextValid(t: Text, allowEmpty: bool) returns (ok: bool)
    ensures ok <==> IsText(t) || (allowEmpty && t == [])
  {
    if |t| == 0 {
      return allowEmpty;
    }
    ok := ScanText(t);
  }

  method TextsValid(texts: seq<Text>) returns (ok: bool)
    ensures ok <==> forall i :: 0 <= i < |texts| ==> IsText(texts[i])
  {
    for i := 0 to |texts|
      invariant forall j :: 0 <= j < i ==> IsText(texts[j])
    {
      ok := TextValid(texts[i], false);
      if !ok {
        return;
      }
    }
    ok := true;
  }

  method ValidatePlan(p: Plan) returns (ok: bool)
    ensures ok <==> PlanValid(p)
  {
    if p.operation.BadOperation? || !p.reviewed {
      return false;
    }
    var texts := [p.planId, p.planDigest, p.inputDigest, p.productId, p.provider, p.providerRevision];
    ok := TextsValid(texts);
    assert ok ==> IsText(texts[0]) && IsText(texts[1]) && IsText(texts[2]) && IsText(texts[3]) && IsText(texts[4]) &&
                  IsText(texts[5]);
    if !ok {
      return;
    }
    if p.operation.Install? {
      return |p.installId| == 0;
    }
    ok := TextValid(p.installId, false);
  }

  method ValidateReference(r: InstallReference) returns (ok: bool)
    ensures ok <==> ReferenceValid(r)
  {
    if r.ownership.BadOwnership? || r.lifecycle.BadLifecycle? {
      return false;
    }
    var texts := [r.installId, r.productId, r.exactVersion, r.entrypoint, r.capabilities, r.verification, r.stateRevision];
    ok := TextsValid(texts);
    assert ok ==> IsText(texts[0]) && IsText(texts[1]) && IsText(texts[2]) && IsText(texts[3]) && IsText(texts[4]) &&
                  IsText(texts[5]) && IsText(texts[6]);
    if ok {
      ok := TextValid(r.setupStateRef, !r.ownership.Managed?);
    }
  }

  method ValidateState(s: InstalledState) returns (ok: bool)
    ensures ok <==> StateValid(s)
  {
    if s.lifecycle.BadLifecycle? {
      return false;
    }
    var texts := [s.setupStateRef, s.installId, s.productId, s.exactVersion, s.entrypoint, s.capabilities, s.verification,
                  s.stateRevision];
    ok := TextsValid(texts);
    assert ok ==> IsText(texts[0]) && IsText(texts[1]) && IsText(texts[2]) && IsText(texts[3]) && IsText(texts[4]) &&
                  IsText(texts[5]) && IsText(texts[6]) && IsText(texts[7]);
  }

  method MatchResult(p: Plan, r: Result) returns (ok: bool)
    ensures ok <==> ResultMatches(p, r)
  {
    if r.operation != p.operation || r.status.BadResultStatus? {
      return false;
    }
    ok := TextValid(r.resultId, false);
    if ok {
      ok := TextValid(r.audit, !r.status.Completed?);
    }
    ok := ok && r.planId == p.planId && r.planDigest == p.planDigest && r.productId == p.productId &&
          r.provider == p.provider && r.providerRevision == p.providerRevision;
  }

  // ----- apply requests -----

  ghost predicate RequestOf(q: Request, p: Plan) {
    q == Request(p.operation, p.planId, p.planDigest, p.inputDigest, p.productId, p.installId, p.provider, p.providerRevision)
  }

  /** Every text a request must have is there. */
  ghost predicate RequestValid(q: Request) {
    && !q.operation.BadOperation?
    && IsText(q.planId) && IsText(q.planDigest) && IsText(q.inputDigest) && IsText(q.productId)
    && IsText(q.provider) && IsText(q.providerRevision)
    && (if q.operation.Install? then MaybeText(q.installId) else IsText(q.installId))
  }

  /** ulk_setup_apply_request_validate_v1: accepted exactly when it carries the identities of a valid reviewed plan. */
  method ValidateRequest(q: Request, p: Plan) returns (status: Status)
    ensures status == StatusOk <==> PlanValid(p) && RequestOf(q, p)
    ensures status == StatusInvalid <==> !PlanValid(p) || !RequestValid(q)
  {
    var ok := ValidatePlan(p);
    if !ok || q.operation.BadOperation? {
      return StatusInvalid;
    }
    var texts := [q.planId, q.planDigest, q.inputDigest, q.productId, q.provider, q.providerRevision];
    ok := TextsValid(texts);
    assert ok ==> IsText(texts[0]) && IsText(texts[1]) && IsText(texts[2]) && IsText(texts[3]) && IsText(texts[4]) &&
                  IsText(texts[5]);
    if !ok {
      return StatusInvalid;
    }
    ok := TextValid(q.installId, q.operation.Install?);
    if !ok {
      return StatusInvalid;
    }
    status := if q.operation != p.operation || q.planId != p.planId || q.planDigest != p.planDigest ||
                 q.inputDigest != p.inputDigest || q.productId != p.productId || q.installId != p.installId ||
                 q.provider != p.provider || q.providerRevision != p.providerRevision
              then StatusError else StatusOk;
  }

  // ----- the projection -----

  /** What a refresh structure holds once a result has been projected into it. */
  datatype Refresh = Refresh(
    transition: Transition, instances: InstanceStatus, plans: PlanStatus, reference: Option<InstallReference>)

  /** The plan and result fit each other and what is installed. */
  ghost predicate Acceptable(p: Plan, current: Option<InstallReference>, r: Result) {
    PlanValid(p) && ResultMatches(p, r) && (current.Some? ==> ReferenceValid(current.value))
  }

  predicate Applicable(p: Plan, current: Option<InstallReference>) {
    if p.operation.Install? then current.None?
    else
      current.Some? && current.value.ownership.Managed? &&
      current.value.installId == p.installId && current.value.productId == p.productId
  }

  function ReferenceOf(s: InstalledState): InstallReference {
    InstallReference(s.installId, s.productId, Managed, s.setupStateRef, s.exactVersion, s.entrypoint, s.capabilities,
                     s.lifecycle, s.verification, s.stateRevision)
  }

  /** A completed operation's state is one the launcher may take over. */
  ghost predicate Adoptable(p: Plan, current: Option<InstallReference>, state: Option<InstalledState>) {
    && state.Some? && StateValid(state.value) && state.value.lifecycle.Active? && state.value.productId == p.productId
    && (current.Some? ==>
          state.value.installId == current.value.installId && state.value.exactVersion == current.value.exactVersion)
  }

  predicate SameState(s: InstalledState, r: InstallReference) {
    s.stateRevision == r.stateRevision && s.verification == r.verification
  }

  ghost predicate ProjectionFails(p: Plan, current: Option<InstallReference>, r: Result) {
    || !Applicable(p, current)
    || (r.status.Completed? &&
        if p.operation.Uninstall? then r.state.Some? else !Adoptable(p, current, r.state))
  }

  /** The refresh of an accepted result. */
  function Projected(p: Plan, current: Option<InstallReference>, r: Result): Refresh
    requires Applicable(p, current)
    requires r.status.Completed? && !p.operation.Uninstall? ==> r.state.Some?
  {
    match r.status
    case RecoveryRequired =>
      if current.None? then Refresh(Unchanged, InstallNeedsRecovery, Stale, None)
      else Refresh(Refreshed, InstallNeedsRecovery, Stale, Some(current.value.(lifecycle := NeedsRecovery)))
    case Completed =>
      if p.operation.Uninstall? then
        Refresh(Archived, InstallUnavailable, Stale, Some(current.value.(lifecycle := Uninstalled)))
      else if p.operation.Install? then Refresh(Created, Ready, Stale, Some(ReferenceOf(r.state.value)))
      else
        Refresh(Refreshed, InstallChanged, if SameState(r.state.value, current.value) then Fresh else Stale,
                Some(ReferenceOf(r.state.value)))
    case _ => Refresh(Unchanged, if current.None? then InstallUnavailable else Ready, Fresh, current)
  }

  /** The caller's refresh structure. */
  class RefreshRecord {
    var transition: Transition
    var instances: InstanceStatus
    var plans: PlanStatus
    var reference: Option<InstallReference>

    function Value(): Refresh
      reads this
    {
      Refresh(transition, instances, plans, reference)
    }

    method Clear(current: Option<InstallReference>)
      modifies this
      ensures Value() == Refresh(Unchanged, if current.None? then InstallUnavailable else Ready, Fresh, current)
    {
      transition := Unchanged;
      instances := if current.None? then InstallUnavailable else Ready;
      plans := Fresh;
      reference := current;
    }

    /** ulk_setup_result_project_v1. A refusal that comes late leaves the structure reset to what is installed. */
    method Project(p: Plan, current: Option<InstallReference>, r: Result) returns (status: Status)
      modifies this
      ensures status == StatusInvalid <==> !Acceptable(p, current, r)
      ensures status == StatusError <==> Acceptable(p, current, r) && ProjectionFails(p, current, r)
      ensures status == StatusOk ==> Value() == Projected(p, current, r)
      ensures status == StatusError && Applicable(p, current) ==>
                Value() == Refresh(Unchanged, if current.None? then InstallUnavailable else Ready, Fresh, current)
      ensures status == StatusInvalid || !Applicable(p, current) ==> unchanged(this)
    {
      var ok := ValidatePlan(p);
      if ok {
        ok := MatchResult(p, r);
      }
      if ok && current.Some? {
        ok := ValidateReference(current.value);
      }
      if !ok {
        return StatusInvalid;
      }
      if !Applicable(p, current) {
        return StatusError;
      }
      Clear(current);
      if r.status.RecoveryRequired? {
        instances, plans := InstallNeedsRecovery, Stale;
        if current.Some? {
          transition := Refreshed;
          reference := Some(current.value.(lifecycle := NeedsRecovery));
        }
        return StatusOk;
      }
      if !r.status.Completed? {
        return StatusOk;
      }
      if p.operation.Uninstall? {
        if r.state.Some? {
          return StatusError;
        }
        transition, instances, plans := Archived, InstallUnavailable, Stale;
        reference := Some(current.value.(lifecycle := Uninstalled));
        return StatusOk;
      }
      ok := CheckState(p, current, r.state);
      if !ok {
        return StatusError;
      }
      Take(p, current, r.state.value);
      return StatusOk;
    }

    method CheckState(p: Plan, current: Option<InstallReference>, state: Option<InstalledState>) returns (ok: bool)
      requires Applicable(p, current)
      ensures ok <==> Adoptable(p, current, state)
    {
      if state.None? {
        return false;
      }
      ok := ValidateState(state.value);
      if !ok || !state.value.lifecycle.Active? || state.value.productId != p.productId {
        return false;
      }
      ok := p.operation.Install? ||
            (state.value.installId == current.value.installId && state.value.exactVersion == current.value.exactVersion);
    }

    method Take(p: Plan, current: Option<InstallReference>, state: InstalledState)
      requires Applicable(p, current)
      modifies this
      ensures Value() ==
              if p.operation.Install? then Refresh(Created, Ready, Stale, Some(ReferenceOf(state)))
              else Refresh(Refreshed, InstallChanged, if SameState(state, current.value) then Fresh else Stale,
                           Some(ReferenceOf(state)))
    {
      transition := if p.operation.Install? then Created else Refreshed;
      instances := if p.operation.Install? then Ready else InstallChanged;
      plans := if current.Some? && state.stateRevision == current.value.stateRevision &&
                  state.verification == current.value.verification then Fresh else Stale;
      reference := Some(ReferenceOf(state));
    }
  }

  // ----- launch plans -----

  datatype Binding = Binding(installId: Text, stateRevision: Text, verification: Text)

  ghost predicate BindingValid(b: Binding) { IsText(b.installId) && IsText(b.stateRevision) && IsText(b.verification) }

  function BindingTo(r: InstallReference): Binding { Binding(r.installId, r.stateRevision, r.verification) }

  function PlanStatusAgainst(b: Binding, r: InstallReference): PlanStatus {
    if r.lifecycle.Active? && b == BindingTo(r) then Fresh else Stale
  }

  /** ulk_launch_plan_install_status_v1 */
  method LaunchPlanStatus(b: Binding, r: InstallReference) returns (status: Option<PlanStatus>)
    ensures status == if ReferenceValid(r) && BindingValid(b) then Some(PlanStatusAgainst(b, r)) else None
  {
    var ok := ValidateReference(r);
    if !ok {
      return None;
    }
    var texts := [b.installId, b.stateRevision, b.verification];
    ok := TextsValid(texts);
    assert ok ==> IsText(texts[0]) && IsText(texts[1]) && IsText(texts[2]);
    if !ok {
      return None;
    }
    status := Some(if r.lifecycle.Active? && b.installId == r.installId && b.stateRevision == r.stateRevision &&
                      b.verification == r.verification then Fresh else Stale);
  }

  ghost predicate Accepted(p: Plan, current: Option<InstallReference>, r: Result) {
    Acceptable(p, current, r) && !ProjectionFails(p, current, r)
  }

  /** For every binding that was fresh, the status the projection reports is its status against the new reference. */
  lemma ReportedStatusIsPlanStatus(p: Plan, current: InstallReference, r: Result, b: Binding)
    requires Accepted(p, Some(current), r) && PlanStatusAgainst(b, current) == Fresh
    ensures Projected(p, Some(current), r).reference.Some?
    ensures PlanStatusAgainst(b, Projected(p, Some(current), r).reference.value) == Projected(p, Some(current), r).plans
  {}

  /**
   For a binding that names the installed state of a reference which was not active, the report can be too good: it is
   right exactly unless the operation was refused or failed.
   */
  lemma ReportOnInactiveReference(p: Plan, current: InstallReference, r: Result)
    requires Accepted(p, Some(current), r) && !current.lifecycle.Active?
    ensures PlanStatusAgainst(BindingTo(current), Projected(p, Some(current), r).reference.value) ==
            Projected(p, Some(current), r).plans
            <==> r.status.Completed? || r.status.RecoveryRequired?
  {}

  /** Whether a result is accepted does not depend on the lifecycle of the reference: an archived one can come back. */
  lemma AcceptanceIgnoresLifecycle(p: Plan, current: InstallReference, r: Result, lifecycle: Lifecycle)
    requires !lifecycle.BadLifecycle? && !current.lifecycle.BadLifecycle?
    ensures Accepted(p, Some(current), r) <==> Accepted(p, Some(current.(lifecycle := lifecycle)), r)
  {}

  // ----- over any sequence of projections -----

  datatype Handoff = Handoff(plan: Plan, result: Result)

  /** Each reference is the projection of the next accepted result onto the one before. */
  ghost predicate IsHistory(refs: seq<InstallReference>, handoffs: seq<Handoff>) {
    && |refs| == |handoffs| + 1
    && forall i :: 0 <= i < |handoffs| ==>
         Accepted(handoffs[i].plan, Some(refs[i]), handoffs[i].result) &&
         Projected(handoffs[i].plan, Some(refs[i]), handoffs[i].result).reference == Some(refs[i + 1])
  }

  predicate SameInstallation(a: InstallReference, b: InstallReference) {
    a.installId == b.installId && a.productId == b.productId && a.exactVersion == b.exactVersion && a.ownership == b.ownership
  }

  lemma ProjectionKeepsIdentity(p: Plan, current: InstallReference, r: Result)
    requires Accepted(p, Some(current), r)
    ensures Projected(p, Some(current), r).reference.Some?
    ensures var next := Projected(p, Some(current), r).reference.value;
            SameInstallation(current, next) && ReferenceValid(next) && next.ownership == Managed
  {}

  lemma CreationIsManaged(p: Plan, r: Result)
    requires Accepted(p, None, r) && Projected(p, None, r).reference.Some?
    ensures var first := Projected(p, None, r).reference.value;
            ReferenceValid(first) && first.ownership == Managed && first.lifecycle == Active && first.productId == p.productId
  {}

  /** Install id, product, exact version and managed ownership never change, however many results are projected. */
  lemma {:induction false} HistoryKeepsIdentity(refs: seq<InstallReference>, handoffs: seq<Handoff>, i: nat)
    requires IsHistory(refs, handoffs) && i < |refs| && ReferenceValid(refs[0])
    ensures SameInstallation(refs[0], refs[i]) && ReferenceValid(refs[i])
    ensures i > 0 ==> refs[i].ownership == Managed
  {
    if i > 0 {
      HistoryKeepsIdentity(refs, handoffs, i - 1);
      ProjectionKeepsIdentity(handoffs[i - 1].plan, refs[i - 1], handoffs[i - 1].result);
    }
  }
}
