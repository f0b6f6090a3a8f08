/** The reference graph: its validator with the issue it reports, and what a projected install reference does to it. */
module ReferenceModel {
  import opened Bytes
  import opened Recognisers
  import opened References
  import opened SetupHandoff

  datatype Product = Product(productId: Text, bindingId: Text)

  datatype Instance = Instance(
    instanceId: Text, productId: Text, installId: Text, profileId: Text, artifactSetId: Text, bindingRevision: Text)

  datatype Profile = Profile(profileId: Text, productId: Text, revision: Text)

  datatype ArtifactSet = ArtifactSet(productId: Text, artifactSetId: Text, lock: Text)

  datatype LaunchPlan = LaunchPlan(
    planId: Text, productId: Text, instanceId: Text, installId: Text, profileId: Text, artifactSetId: Text,
    installStateRevision: Text, instanceBindingRevision: Text, compositionDigest: Text)

  /** The four records every graph needs, and the two it may have. */
  datatype Graph = Graph(
    product: Product, install: InstallReference, instance: Instance, profile: Option<Profile>,
    artifactSet: Option<ArtifactSet>, plan: LaunchPlan)

  datatype Issue =
    | NoIssue | InvalidGraph | InvalidProduct | InvalidInstall | InvalidInstance | InvalidProfile | InvalidArtifactSet
    | InvalidLaunchPlan | ProductMismatch | InstallMismatch | InstanceMismatch | ProfileMismatch | ArtifactSetMismatch

  // ----- records -----

  predicate IsReferenceCharacter(c: Byte) { IsAlphanumeric(c) || c == '.' || c == '_' || c == '-' }

  ghost predicate IsReferenceId(t: Text) {
    1 <= |t| <= 128 && forall i :: 0 <= i < |t| ==> IsReferenceCharacter(t[i])
  }

  ghost predicate MaybeReferenceId(t: Text) { t == [] || IsReferenceId(t) }

  ghost predicate IsPlain(t: Text) { t != [] && Lacks(t, NUL) }

  ghost predicate ProductValid(p: Product) { IsReferenceId(p.productId) && IsReferenceId(p.bindingId) }

  ghost predicate InstallValid(r: InstallReference) {
    && !r.ownership.BadOwnership? && !r.lifecycle.BadLifecycle?
    && IsReferenceId(r.installId) && IsReferenceId(r.productId) && Lacks(r.setupStateRef, NUL)
    && IsPlain(r.exactVersion) && IsPlain(r.entrypoint) && IsPlain(r.capabilities) && IsPlain(r.verification)
    && IsPlain(r.stateRevision) && (r.ownership.Managed? ==> r.setupStateRef != [])
  }

  ghost predicate InstanceValid(i: Instance) {
    && IsReferenceId(i.instanceId) && IsReferenceId(i.productId) && IsReferenceId(i.installId)
    && MaybeReferenceId(i.profileId) && MaybeReferenceId(i.artifactSetId) && IsPlain(i.bindingRevision)
  }

  ghost predicate ProfileValid(p: Profile) {
    IsReferenceId(p.profileId) && IsReferenceId(p.productId) && IsPlain(p.revision)
  }

  ghost predicate ArtifactSetValid(a: ArtifactSet) {
    IsReferenceId(a.productId) && IsReferenceId(a.artifactSetId) && IsPlain(a.lock)
  }

  ghost predicate PlanRecordValid(p: LaunchPlan) {
    && IsReferenceId(p.planId) && IsReferenceId(p.productId) && IsReferenceId(p.instanceId) && IsReferenceId(p.installId)
    && MaybeReferenceId(p.profileId) && MaybeReferenceId(p.artifactSetId)
    && IsPlain(p.installStateRevision) && IsPlain(p.instanceBindingRevision) && IsPlain(p.compositionDigest)
  }

  method ScanReferenceId(t: Text, allowEmpty: bool) returns (ok: bool)
    ensures ok <==> IsReferenceId(t) || (allowEmpty && t == [])
  {
    if |t| == 0 {
      return allowEmpty;
    }
    if |t| > 128 {
      return false;
    }
    for index := 0 to |t|
      invariant forall i :: 0 <= i < index ==> IsReferenceCharacter(t[i])
    {
      if !IsReferenceCharacter(t[index]) {
        return false;
      }
    }
    return true;
  }

  method ScanPlain(t: Text, allowEmpty: bool) returns (ok: bool)
    ensures ok <==> IsPlain(t) || (allowEmpty && t == [])
  {
    if |t| == 0 {
      return allowEmpty;
    }
    for index := 0 to |t|
      invariant forall i :: 0 <= i < index ==> t[i] != NUL
    {
      if t[index] == NUL {
        return false;
      }
    }
    return true;
  }

  method ScanIds(required: seq<Text>, optional: seq<Text>, plain: seq<Text>) returns (ok: bool)
    ensures ok <==>
            && (forall i :: 0 <= i < |required| ==> IsReferenceId(required[i]))
            && (forall i :: 0 <= i < |optional| ==> MaybeReferenceId(optional[i]))
            && (forall i :: 0 <= i < |plain| ==> IsPlain(plain[i]))
  {
    for index := 0 to |required|
      invariant forall i :: 0 <= i < index ==> IsReferenceId(required[i])
    {
      ok := ScanReferenceId(required[index], false);
      if !ok { return; }
    }
    for index := 0 to |optional|
      invariant forall i :: 0 <= i < index ==> MaybeReferenceId(optional[i])
    {
      ok := ScanReferenceId(optional[index], true);
      if !ok { return; }
    }
    for index := 0 to |plain|
      invariant forall i :: 0 <= i < index ==> IsPlain(plain[i])
    {
      ok := ScanPlain(plain[index], false);
      if !ok { return; }
    }
    ok := true;
  }

  // ----- the graph -----

  ghost predicate SameProduct(g: Graph) {
    && g.product.productId == g.install.productId == g.instance.productId == g.plan.productId
    && (g.profile.Some? ==> g.profile.value.productId == g.product.productId)
    && (g.artifactSet.Some? ==> g.artifactSet.value.productId == g.product.productId)
  }

  predicate SameInstall(g: Graph) { g.install.installId == g.instance.installId == g.plan.installId }

  /** An absent record is named by nobody, a present one by the instance and the plan alike. */
  predicate Named(id: Option<Text>, inInstance: Text, inPlan: Text) {
    match id
    case None => inInstance == [] && inPlan == []
    case Some(t) => inInstance == t && inPlan == t
  }

  function ProfileId(g: Graph): Option<Text> { match g.profile { case None => None case Some(p) => Some(p.profileId) } }

  function ArtifactSetId(g: Graph): Option<Text> {
    match g.artifactSet { case None => None case Some(a) => Some(a.artifactSetId) }
  }

  /** The first issue in the fixed order of precedence. */
  ghost function IssueOf(g: Graph): Issue {
    if !ProductValid(g.product) then InvalidProduct
    else if !InstallValid(g.install) then InvalidInstall
    else if !InstanceValid(g.instance) then InvalidInstance
    else if g.profile.Some? && !ProfileValid(g.profile.value) then InvalidProfile
    else if g.artifactSet.Some? && !ArtifactSetValid(g.artifactSet.value) then InvalidArtifactSet
    else if !PlanRecordValid(g.plan) then InvalidLaunchPlan
    else if !SameProduct(g) then ProductMismatch
    else if !SameInstall(g) then InstallMismatch
    else if g.instance.instanceId != g.plan.instanceId then InstanceMismatch
    else if !Named(ProfileId(g), g.instance.profileId, g.plan.profileId) then ProfileMismatch
    else if !Named(ArtifactSetId(g), g.instance.artifactSetId, g.plan.artifactSetId) then ArtifactSetMismatch
    else NoIssue
  }

  function GraphStatus(g: Graph): PlanStatus {
    if g.install.stateRevision == g.plan.installStateRevision && g.instance.bindingRevision == g.plan.instanceBindingRevision
    then Fresh else Stale
  }

  /** The caller's validation structure. */
  class Validation {
    var valid: bool
    var issue: Issue
    var planStatus: PlanStatus

    constructor ()
    {
      valid, issue, planStatus := false, InvalidGraph, Stale;
    }

    method Fail(reason: Issue)
      modifies this
      ensures !valid && issue == reason && planStatus == Stale
    {
      valid, issue, planStatus := false, reason, Stale;
    }

    /** ulk_reference_graph_validate_v1; a missing record is an invalid graph. */
    method Validate(graph: Option<Graph>) returns (ok: bool)
      modifies this
      ensures ok == valid && valid == issue.NoIssue?
      ensures issue == if graph.None? then InvalidGraph else IssueOf(graph.value)
      ensures planStatus == if valid then GraphStatus(graph.value) else Stale
    {
      Fail(InvalidGraph);
      ok := false;
      if graph.None? {
        return;
      }
      var g := graph.value;
      var found := FindInvalid(g);
      if found.NoIssue? {
        found := FindMismatch(g);
      }
      if !found.NoIssue? {
        Fail(found);
        return;
      }
      valid, issue, planStatus := true, NoIssue, GraphStatus(g);
      ok := true;
    }
  }

  method CheckProduct(p: Product) returns (ok: bool)
    ensures ok <==> ProductValid(p)
  {
    var ids := [p.productId, p.bindingId];
    ok := ScanIds(ids, [], []);
    assert ok ==> IsReferenceId(ids[0]) && IsReferenceId(ids[1]);
  }

  method CheckInstall(r: InstallReference) returns (ok: bool)
    ensures ok <==> InstallValid(r)
  {
    if r.ownership.BadOwnership? || r.lifecycle.BadLifecycle? {
      return false;
    }
    var ids, plain := [r.installId, r.productId], [r.exactVersion, r.entrypoint, r.capabilities, r.verification, r.stateRevision];
    ok := ScanIds(ids, [], plain);
    assert ok ==> IsReferenceId(ids[0]) && IsReferenceId(ids[1]) && IsPlain(plain[0]) && IsPlain(plain[1]) &&
                  IsPlain(plain[2]) && IsPlain(plain[3]) && IsPlain(plain[4]);
    if ok {
      ok := ScanPlain(r.setupStateRef, !r.ownership.Managed?);
    }
  }

  method CheckInstance(i: Instance) returns (ok: bool)
    ensures ok <==> InstanceValid(i)
  {
    var ids, optional, plain := [i.instanceId, i.productId, i.installId], [i.profileId, i.artifactSetId], [i.bindingRevision];
    ok := ScanIds(ids, optional, plain);
    assert ok ==> IsReferenceId(ids[0]) && IsReferenceId(ids[1]) && IsReferenceId(ids[2]) &&
                  MaybeReferenceId(optional[0]) && MaybeReferenceId(optional[1]) && IsPlain(plain[0]);
  }

  method CheckProfile(p: Profile) returns (ok: bool)
    ensures ok <==> ProfileValid(p)
  {
    var ids, plain := [p.profileId, p.productId], [p.revision];
    ok := ScanIds(ids, [], plain);
    assert ok ==> IsReferenceId(ids[0]) && IsReferenceId(ids[1]) && IsPlain(plain[0]);
  }

  method CheckArtifactSet(a: ArtifactSet) returns (ok: bool)
    ensures ok <==> ArtifactSetValid(a)
  {
    var ids, plain := [a.productId, a.artifactSetId], [a.lock];
    ok := ScanIds(ids, [], plain);
    assert ok ==> IsReferenceId(ids[0]) && IsReferenceId(ids[1]) && IsPlain(plain[0]);
  }

  method CheckPlan(p: LaunchPlan) returns (ok: bool)
    ensures ok <==> PlanRecordValid(p)
  {
    var ids, optional := [p.planId, p.productId, p.instanceId, p.installId], [p.profileId, p.artifactSetId];
    var plain := [p.installStateRevision, p.instanceBindingRevision, p.compositionDigest];
    ok := ScanIds(ids, optional, plain);
    assert ok ==> IsReferenceId(ids[0]) && IsReferenceId(ids[1]) && IsReferenceId(ids[2]) && IsReferenceId(ids[3]) &&
                  MaybeReferenceId(optional[0]) && MaybeReferenceId(optional[1]) &&
                  IsPlain(plain[0]) && IsPlain(plain[1]) && IsPlain(plain[2]);
  }

  ghost predicate RecordsValid(g: Graph) {
    && ProductValid(g.product) && InstallValid(g.install) && InstanceValid(g.instance)
    && (g.profile.Some? ==> ProfileValid(g.profile.value))
    && (g.artifactSet.Some? ==> ArtifactSetValid(g.artifactSet.value)) && PlanRecordValid(g.plan)
  }

  method FindInvalid(g: Graph) returns (issue: Issue)
    ensures if RecordsValid(g) then issue == NoIssue else issue == IssueOf(g)
  {
    var ok := CheckProduct(g.product);
    if !ok { return InvalidProduct; }
    ok := CheckInstall(g.install);
    if !ok { return InvalidInstall; }
    ok := CheckInstance(g.instance);
    if !ok { return InvalidInstance; }
    if g.profile.Some? {
      ok := CheckProfile(g.profile.value);
      if !ok { return InvalidProfile; }
    }
    if g.artifactSet.Some? {
      ok := CheckArtifactSet(g.artifactSet.value);
      if !ok { return InvalidArtifactSet; }
    }
    ok := CheckPlan(g.plan);
    issue := if ok then NoIssue else InvalidLaunchPlan;
  }

  method FindMismatch(g: Graph) returns (issue: Issue)
    requires RecordsValid(g)
    ensures issue == IssueOf(g)
  {
    if g.product.productId != g.install.productId || g.product.productId != g.instance.productId ||
       g.product.productId != g.plan.productId ||
       (g.profile.Some? && g.product.productId != g.profile.value.productId) ||
       (g.artifactSet.Some? && g.product.productId != g.artifactSet.value.productId) {
      return ProductMismatch;
    }
    if g.install.installId != g.instance.installId || g.install.installId != g.plan.installId {
      return InstallMismatch;
    }
    if g.instance.instanceId != g.plan.instanceId {
      return InstanceMismatch;
    }
    if !Named(ProfileId(g), g.instance.profileId, g.plan.profileId) {
      return ProfileMismatch;
    }
    issue := if Named(ArtifactSetId(g), g.instance.artifactSetId, g.plan.artifactSetId) then NoIssue else ArtifactSetMismatch;
  }

  // ----- projected references in a graph -----

  /** Putting the projected reference into a graph that validated leaves a graph that validates. */
  lemma ProjectionKeepsGraph(g: Graph, p: Plan, r: Result)
    requires IssueOf(g) == NoIssue && Accepted(p, Some(g.install), r)
    ensures Projected(p, Some(g.install), r).reference.Some?
    ensures IssueOf(g.(install := Projected(p, Some(g.install), r).reference.value)) == NoIssue
  {
    ProjectionKeepsIdentity(p, g.install, r);
  }

  /** The graph's verdict on its plan sees only revisions: the report and the graph differ exactly here. */
  ghost predicate RevisionAloneMisleads(g: Graph, p: Plan, r: Result) {
    || r.status.RecoveryRequired?
    || (r.status.Completed? && p.operation.Uninstall?)
    || (r.status.Completed? && !p.operation.Uninstall? && r.state.Some? &&
        r.state.value.stateRevision == g.install.stateRevision && r.state.value.verification != g.install.verification)
  }

  /** For a graph whose plan was fresh, the new verdict is the reported status exactly unless the revision alone misleads. */
  lemma GraphVerdict(g: Graph, p: Plan, r: Result)
    requires IssueOf(g) == NoIssue && GraphStatus(g) == Fresh && Accepted(p, Some(g.install), r)
    ensures var refresh := Projected(p, Some(g.install), r);
            GraphStatus(g.(install := refresh.reference.value)) == refresh.plans <==> !RevisionAloneMisleads(g, p, r)
  {}

  /** Where they differ the graph still says fresh of a plan reported stale: it never says stale of a fresh one. */
  lemma GraphErrsTowardsFresh(g: Graph, p: Plan, r: Result)
    requires IssueOf(g) == NoIssue && GraphStatus(g) == Fresh && Accepted(p, Some(g.install), r)
    ensures Projected(p, Some(g.install), r).plans == Fresh ==>
              GraphStatus(g.(install := Projected(p, Some(g.install), r).reference.value)) == Fresh
  {}

  /** Over any history of projections a graph that validated at its start validates at every point of it. */
  lemma {:induction false} HistoryKeepsGraph(g: Graph, refs: seq<InstallReference>, handoffs: seq<Handoff>, i: nat)
    requires IsHistory(refs, handoffs) && i < |refs| && g.install == refs[0] && IssueOf(g) == NoIssue
    ensures IssueOf(g.(install := refs[i])) == NoIssue
  {
    if i > 0 {
      HistoryKeepsGraph(g, refs, handoffs, i - 1);
      ProjectionKeepsGraph(g.(install := refs[i - 1]), handoffs[i - 1].plan, handoffs[i - 1].result);
    }
  }
}
