/** The record validators as they run, each exactly the condition the specification states. */
module RecordValidation {
  import opened Bytes
  import opened Recognisers
  import opened SessionRecord

  method ValidateOptionalIdentifier(t: Text) returns (ok: bool)
    ensures ok <==> t == [] || IsIdentifier(t)
  {
    if |t| == 0 {
      return true;
    }
    ok := ScanIdentifier(t);
  }

  /** ulk_operation_result_validate_v1 */
  method ValidateResult(r: TerminalResult) returns (ok: bool)
    ensures ok <==> ValidResult(r)
  {
    ok := ScanIdentifier(r.operationId);
    if !ok { return; }
    ok := ScanIdentifier(r.attemptId);
    if !ok { return; }
    ok := ValidateOptionalIdentifier(r.transactionId);
    if !ok || !(CANCELLED_BEFORE_DISPATCH <= r.outcome <= OUTCOME_UNKNOWN) || !(0 <= r.effects <= 1) ||
       !(0 <= r.recoveryRequired <= 1) {
      return false;
    }
    var beforeEffects := r.outcome == CANCELLED_BEFORE_DISPATCH || r.outcome == REFUSED_BEFORE_EFFECTS;
    var uncertain := r.outcome == RECOVERY_REQUIRED || r.outcome == OUTCOME_UNKNOWN;
    if beforeEffects && (r.effects != 0 || r.recoveryRequired != 0) {
      return false;
    }
    if uncertain {
      if r.effects != 1 || r.recoveryRequired != 1 {
        return false;
      }
      ok := ScanCommandName(r.inspectCommand);
    } else {
      ok := r.recoveryRequired == 0 && |r.transactionId| == 0 && |r.inspectCommand| == 0;
    }
  }

  /** ulk_session_record_validate_v1 */
  method ValidateRecord(p: PublicRecord) returns (ok: bool)
    ensures ok <==> ValidPublic(p)
  {
    ok := ScanIdentifier(p.sessionId);
    if !ok { return; }
    ok := ScanIdentifier(p.operationId);
    if !ok { return; }
    ok := ScanIdentifier(p.attemptId);
    if !ok || !ViewFits(p.runnable, 4096, false) || !ViewFits(p.process, 1024, true) ||
       !ViewFits(p.startedAt, 64, false) || !ViewFits(p.endedAt, 64, true) ||
       !ViewFits(p.recoveryReference, 128, true) || !ViewFits(p.relaunchReference, 128, true) ||
       (p.exitKnown != 0 && p.exitKnown != 1) {
      return false;
    }
    if p.state == RUNNING {
      return p.terminal.None? && |p.endedAt| == 0 && p.exitKnown == 0 &&
             |p.recoveryReference| == 0 && |p.relaunchReference| == 0;
    }
    if p.state != TERMINAL || p.terminal.None? || |p.endedAt| == 0 {
      return false;
    }
    ok := ValidateResult(p.terminal.value);
    ok := ok && p.operationId == p.terminal.value.operationId && p.attemptId == p.terminal.value.attemptId &&
          (p.terminal.value.recoveryRequired != 0 ==> |p.recoveryReference| != 0);
  }
}
