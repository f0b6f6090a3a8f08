/** Session records: what callers submit, what is stored, and the relations the journal decides by. */
module SessionRecord {
  import opened Bytes
  import opened FieldCodec
  import opened Recognisers

  const RUNNING := 1
  const TERMINAL := 2

  const CANCELLED_BEFORE_DISPATCH := 1
  const REFUSED_BEFORE_EFFECTS := 2
  const COMPLETED := 3
  const CANCELLATION_REQUESTED_BUT_COMPLETED := 4
  const RECOVERY_REQUIRED := 5
  const OUTCOME_UNKNOWN := 6

  type Int32 = x: int | INT32_MIN <= x <= INT32_MAX
  type Int64 = x: int | INT64_MIN <= x <= INT64_MAX

  datatype TerminalResult = TerminalResult(
    operationId: Text, attemptId: Text, outcome: Int32, effects: Int32,
    recoveryRequired: Int32, transactionId: Text, inspectCommand: Text)

  /** A caller's record. Views may hold any bytes, a NUL included. */
  datatype PublicRecord = PublicRecord(
    sessionId: Text, operationId: Text, attemptId: Text, runnable: Text, process: Text, state: Int32,
    startedAt: Text, endedAt: Text, exitKnown: Int32, exitCode: Int64, terminal: Option<TerminalResult>,
    recoveryReference: Text, relaunchReference: Text)

  /** A stored record. Every text is what its C buffer denotes. */
  datatype Record = Record(
    sessionId: Text, operationId: Text, attemptId: Text, runnable: Text, process: Text, state: Int32,
    startedAt: Text, endedAt: Text, exitKnown: Int32, exitCode: Int64,
    outcome: Int32, effects: Int32, recoveryRequired: Int32,
    recoveryTransaction: Text, recoveryInspect: Text, recoveryReference: Text, relaunchReference: Text,
    commitOrder: Int64)

  // ----- validation -----

  predicate ViewFits(t: Text, maximum: nat, allowEmpty: bool) {
    if t == [] then allowEmpty else |t| <= maximum
  }

  /** ulk_operation_result_validate_v1 */
  ghost predicate ValidResult(r: TerminalResult) {
    && IsIdentifier(r.operationId) && IsIdentifier(r.attemptId)
    && CANCELLED_BEFORE_DISPATCH <= r.outcome <= OUTCOME_UNKNOWN
    && 0 <= r.effects <= 1 && 0 <= r.recoveryRequired <= 1
    && (r.transactionId == [] || IsIdentifier(r.transactionId))
    && (r.outcome == CANCELLED_BEFORE_DISPATCH || r.outcome == REFUSED_BEFORE_EFFECTS ==>
          r.effects == 0 && r.recoveryRequired == 0)
    && (if r.outcome == RECOVERY_REQUIRED || r.outcome == OUTCOME_UNKNOWN then
          r.effects == 1 && r.recoveryRequired == 1 && IsCommandName(r.inspectCommand)
        else
          r.recoveryRequired == 0 && r.transactionId == [] && r.inspectCommand == [])
  }

  /** ulk_session_record_validate_v1 */
  ghost predicate ValidPublic(p: PublicRecord) {
    && IsIdentifier(p.sessionId) && IsIdentifier(p.operationId) && IsIdentifier(p.attemptId)
    && ViewFits(p.runnable, 4096, false) && ViewFits(p.process, 1024, true)
    && ViewFits(p.startedAt, 64, false) && ViewFits(p.endedAt, 64, true)
    && ViewFits(p.recoveryReference, 128, true) && ViewFits(p.relaunchReference, 128, true)
    && 0 <= p.exitKnown <= 1
    && (if p.state == RUNNING then
          p.terminal.None? && p.endedAt == [] && p.exitKnown == 0 &&
          p.recoveryReference == [] && p.relaunchReference == []
        else
          && p.state == TERMINAL && p.terminal.Some? && p.endedAt != []
          && ValidResult(p.terminal.value)
          && p.operationId == p.terminal.value.operationId && p.attemptId == p.terminal.value.attemptId
          && (p.terminal.value.recoveryRequired == 1 ==> p.recoveryReference != []))
  }

  // ----- conversion -----

  /** A view copied into a buffer of `capacity` bytes reads back as a C string, or does not fit. */
  function CopyView(t: Text, capacity: nat): Option<Text> {
    if |t| >= capacity then None else Some(CString(t))
  }

  /** ulk_record_from_public */
  function FromPublic(p: PublicRecord): Option<Record> {
    var sessionId :- CopyView(p.sessionId, 129);
    var operationId :- CopyView(p.operationId, 129);
    var attemptId :- CopyView(p.attemptId, 129);
    var runnable :- CopyView(p.runnable, 4097);
    var process :- CopyView(p.process, 1025);
    var startedAt :- CopyView(p.startedAt, 65);
    var endedAt :- CopyView(p.endedAt, 65);
    var recoveryReference :- CopyView(p.recoveryReference, 129);
    var relaunchReference :- CopyView(p.relaunchReference, 129);
    var r := Record(sessionId, operationId, attemptId, runnable, process, p.state, startedAt, endedAt,
                    p.exitKnown, p.exitCode, 0, 0, 0, [], [], recoveryReference, relaunchReference, 0);
    match p.terminal
    case None => Some(r)
    case Some(result) =>
      var transaction :- CopyView(result.transactionId, 129);
      var inspect :- CopyView(result.inspectCommand, 129);
      Some(r.(outcome := result.outcome, effects := result.effects, recoveryRequired := result.recoveryRequired,
              recoveryTransaction := transaction, recoveryInspect := inspect))
  }

  /** The caller's view of a stored record, as ulk_validate_owned_record rebuilds it. */
  function ToPublic(r: Record): PublicRecord {
    PublicRecord(r.sessionId, r.operationId, r.attemptId, r.runnable, r.process, r.state, r.startedAt, r.endedAt,
                 r.exitKnown, r.exitCode,
                 if r.state == TERMINAL then
                   Some(TerminalResult(r.operationId, r.attemptId, r.outcome, r.effects, r.recoveryRequired,
                                       r.recoveryTransaction, r.recoveryInspect))
                 else None,
                 r.recoveryReference, r.relaunchReference)
  }

  ghost predicate ValidStored(r: Record) {
    ValidPublic(ToPublic(r))
  }

  predicate FitsBuffer(t: Text, capacity: nat) {
    Lacks(t, NUL) && |t| < capacity
  }

  /** Every text is a C string within its buffer. */
  predicate Fits(r: Record) {
    && FitsBuffer(r.sessionId, 129) && FitsBuffer(r.operationId, 129) && FitsBuffer(r.attemptId, 129)
    && FitsBuffer(r.runnable, 4097) && FitsBuffer(r.process, 1025)
    && FitsBuffer(r.startedAt, 65) && FitsBuffer(r.endedAt, 65)
    && FitsBuffer(r.recoveryTransaction, 129) && FitsBuffer(r.recoveryInspect, 129)
    && FitsBuffer(r.recoveryReference, 129) && FitsBuffer(r.relaunchReference, 129)
  }

  lemma CStringWhole(t: Text)
    requires Lacks(t, NUL)
    ensures CString(t) == t
  {}

  lemma IdentifierIsCString(t: Text)
    requires IsIdentifier(t)
    ensures CString(t) == t
  {}

  lemma CommandNameIsCString(t: Text)
    requires IsCommandName(t)
    ensures CString(t) == t
  {
    forall i | 0 <= i < |t|
      ensures t[i] != NUL
    {
      ScanStep(t, '.', i);
    }
    CStringWhole(t);
  }

  /** Everything the validator accepts is stored, and fits. */
  lemma AcceptedConverts(p: PublicRecord)
    requires ValidPublic(p)
    ensures FromPublic(p).Some? && Fits(FromPublic(p).value) && FromPublic(p).value.commitOrder == 0
    ensures FromPublic(p).value.sessionId == p.sessionId && IsIdentifier(p.sessionId)
  {
    IdentifierIsCString(p.sessionId);
  }

  /** No required field starts with a NUL: the views the validator measures are not the strings it stores. */
  predicate NoRequiredFieldStartsWithNul(p: PublicRecord) {
    && (p.runnable != [] ==> p.runnable[0] != NUL)
    && (p.startedAt != [] ==> p.startedAt[0] != NUL)
    && (p.state == TERMINAL && p.endedAt != [] ==> p.endedAt[0] != NUL)
    && (p.terminal.Some? && p.terminal.value.recoveryRequired == 1 && p.recoveryReference != [] ==>
          p.recoveryReference[0] != NUL)
  }

  lemma AcceptedResult(result: TerminalResult)
    requires ValidResult(result)
    ensures CString(result.operationId) == result.operationId && CString(result.attemptId) == result.attemptId
    ensures CString(result.transactionId) == result.transactionId && CString(result.inspectCommand) == result.inspectCommand
  {
    IdentifierIsCString(result.operationId);
    IdentifierIsCString(result.attemptId);
    if result.transactionId != [] {
      IdentifierIsCString(result.transactionId);
    }
    if result.inspectCommand != [] {
      CommandNameIsCString(result.inspectCommand);
    }
  }

  /** What is stored of an accepted record: the same, with its free texts cut at their first NUL. */
  lemma AcceptedStores(p: PublicRecord)
    requires ValidPublic(p)
    ensures FromPublic(p).Some?
    ensures ToPublic(FromPublic(p).value) ==
            p.(runnable := CString(p.runnable), process := CString(p.process), startedAt := CString(p.startedAt),
               endedAt := CString(p.endedAt), recoveryReference := CString(p.recoveryReference),
               relaunchReference := CString(p.relaunchReference))
  {
    AcceptedConverts(p);
    IdentifierIsCString(p.sessionId);
    IdentifierIsCString(p.operationId);
    IdentifierIsCString(p.attemptId);
    if p.terminal.Some? {
      ResultStores(p);
    }
  }

  lemma ResultStores(p: PublicRecord)
    requires ValidPublic(p) && p.terminal.Some? && FromPublic(p).Some?
    ensures ToPublic(FromPublic(p).value).terminal == p.terminal
  {
    AcceptedResult(p.terminal.value);
    IdentifierIsCString(p.operationId);
    IdentifierIsCString(p.attemptId);
  }

  /** An accepted record can be rendered again exactly when no required field starts with a NUL. */
  lemma AcceptedStaysValid(p: PublicRecord)
    requires ValidPublic(p)
    ensures FromPublic(p).Some?
    ensures ValidStored(FromPublic(p).value) <==> NoRequiredFieldStartsWithNul(p)
  {
    AcceptedStores(p);
  }

  // ----- the journal's relations -----

  /** ulk_record_equal: everything but the commit order. */
  predicate SameContent(l: Record, r: Record) {
    l.(commitOrder := 0) == r.(commitOrder := 0)
  }

  /** ulk_record_transition_valid */
  predicate IsTransition(before: Record, after: Record) {
    && before.state == RUNNING && after.state == TERMINAL
    && before.sessionId == after.sessionId && before.operationId == after.operationId
    && before.attemptId == after.attemptId && before.runnable == after.runnable
    && before.process == after.process && before.startedAt == after.startedAt
  }

  /** One attempt of one durable operation. */
  predicate SameAttempt(l: Record, r: Record) {
    l.operationId == r.operationId && l.attemptId == r.attemptId
  }

  /** The sign of ulk_record_compare_descending: `l` is listed before `r`. */
  predicate Newer(l: Record, r: Record) {
    if l.commitOrder != r.commitOrder then l.commitOrder > r.commitOrder
    else if l.startedAt != r.startedAt then Less(r.startedAt, l.startedAt)
    else Less(r.sessionId, l.sessionId)
  }

  /** Newer is a strict total order on records with distinct session ids. */
  lemma NewerTotal(l: Record, r: Record)
    ensures l.sessionId != r.sessionId ==> Newer(l, r) || Newer(r, l)
    ensures Newer(l, r) ==> !Newer(r, l) && l != r
  {
    LessTotal(l.startedAt, r.startedAt);
    LessTotal(l.sessionId, r.sessionId);
    if Less(l.startedAt, r.startedAt) {
      LessAsymmetric(l.startedAt, r.startedAt);
    }
    if Less(r.startedAt, l.startedAt) {
      LessAsymmetric(r.startedAt, l.startedAt);
    }
    if Less(l.sessionId, r.sessionId) {
      LessAsymmetric(l.sessionId, r.sessionId);
    }
    if Less(r.sessionId, l.sessionId) {
      LessAsymmetric(r.sessionId, l.sessionId);
    }
  }

  lemma NewerTransitive(a: Record, b: Record, c: Record)
    requires Newer(a, b) && Newer(b, c)
    ensures Newer(a, c)
  {
    if a.commitOrder == b.commitOrder == c.commitOrder {
      if a.startedAt != b.startedAt && b.startedAt != c.startedAt {
        LessTransitive(c.startedAt, b.startedAt, a.startedAt);
        LessAsymmetric(c.startedAt, a.startedAt);
      } else if a.startedAt == b.startedAt == c.startedAt {
        LessTransitive(c.sessionId, b.sessionId, a.sessionId);
      }
    }
  }
}
