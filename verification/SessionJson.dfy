/** Session records as JSON documents: what lookups and lists print, and what a reader gets back from it. */
module SessionJson {
  import opened Bytes
  import opened FieldCodec
  import opened SessionRecord
  import opened Json

  // ----- the document of a record -----

  function OutcomeName(outcome: Int32): Text {
    if outcome == CANCELLED_BEFORE_DISPATCH then "cancelled_before_dispatch"
    else if outcome == REFUSED_BEFORE_EFFECTS then "refused_before_effects"
    else if outcome == COMPLETED then "completed"
    else if outcome == CANCELLATION_REQUESTED_BUT_COMPLETED then "cancellation_requested_but_completed"
    else if outcome == RECOVERY_REQUIRED then "recovery_required"
    else if outcome == OUTCOME_UNKNOWN then "outcome_unknown"
    else "unknown"
  }

  function WordsOrNull(t: Text): Doc { if t == [] then Nothing else Words(t) }

  function RecoveryField(r: Record, k: nat): Field {
    match k
    case 0 => Field("required", Flag(r.recoveryRequired != 0))
    case 1 => Field("transaction_id", Words(r.recoveryTransaction))
    case _ => Field("inspect_command", Words(r.recoveryInspect))
  }

  function RecoveryDoc(r: Record): Doc {
    Doc.Record(seq(3, i requires 0 <= i < 3 => RecoveryField(r, i)))
  }

  function TerminalField(r: Record, k: nat): Field {
    match k
    case 0 => Field("schema", Words("ulk.operation_outcome.v1"))
    case 1 => Field("operation_id", Words(r.operationId))
    case 2 => Field("attempt_id", Words(r.attemptId))
    case 3 => Field("outcome", Words(OutcomeName(r.outcome)))
    case 4 => Field("effects_may_have_occurred", Flag(r.effects != 0))
    case _ => Field("recovery", RecoveryDoc(r))
  }

  function TerminalDoc(r: Record): Doc {
    Doc.Record(seq(6, i requires 0 <= i < 6 => TerminalField(r, i)))
  }

  function RecordField(r: Record, k: nat): Field {
    match k
    case 0 => Field("schema", Words("ulk.session_record.v1"))
    case 1 => Field("session_id", Words(r.sessionId))
    case 2 => Field("operation_id", Words(r.operationId))
    case 3 => Field("attempt_id", Words(r.attemptId))
    case 4 => Field("runnable_reference", Words(r.runnable))
    case 5 => Field("process_identity", WordsOrNull(r.process))
    case 6 => Field("state", Words(if r.state == RUNNING then "running" else "terminal"))
    case 7 => Field("started_at", Words(r.startedAt))
    case 8 => Field("ended_at", WordsOrNull(r.endedAt))
    case 9 => Field("exit_code", if r.exitKnown == 0 then Nothing else Integer(r.exitCode))
    case 10 => Field("terminal_result", if r.state == RUNNING then Nothing else TerminalDoc(r))
    case 11 => Field("recovery_reference", WordsOrNull(r.recoveryReference))
    case _ => Field("relaunch_reference", WordsOrNull(r.relaunchReference))
  }

  /** ulk_record_to_json */
  function RecordDoc(r: Record): Doc {
    Doc.Record(seq(13, k requires 0 <= k < 13 => RecordField(r, k)))
  }

  const SCHEMA: Text := "schema"
  const SESSIONS: Text := "sessions"
  const LIST_SCHEMA: Text := "ulk.session_list.v1"

  function Docs(s: seq<Record>): (docs: seq<Doc>)
    ensures |docs| == |s|
  {
    seq(|s|, i requires 0 <= i < |s| => RecordDoc(s[i]))
  }

  function ListOf(docs: seq<Doc>): Doc {
    Doc.Record([Field(SCHEMA, Words(LIST_SCHEMA)), Field(SESSIONS, List(docs))])
  }

  function ListDoc(s: seq<Record>): Doc { ListOf(Docs(s)) }

  // ----- what a reader gets back -----

  lemma RecordDocFaithful(r: Record)
    ensures Faithful(RecordDoc(r))
  {
    assert forall i :: 0 <= i < 3 ==> Faithful(RecoveryField(r, i).doc);
    assert forall i :: 0 <= i < 6 ==> Faithful(TerminalField(r, i).doc);
    assert forall k :: 0 <= k < 13 ==> Faithful(RecordField(r, k).doc);
  }

  /** A printed record is a JSON text whose members are the record's fields, each string unescaped to the stored one. */
  lemma RecordReadsBack(r: Record)
    ensures Parse(Print(RecordDoc(r))) == Some(ValueOf(RecordDoc(r)))
  {
    RecordDocFaithful(r);
    ParsePrinted(RecordDoc(r));
  }

  lemma ListReadsBack(s: seq<Record>)
    ensures Parse(Print(ListDoc(s))) == Some(ValueOf(ListDoc(s)))
  {
    forall i | 0 <= i < |s|
      ensures Faithful(RecordDoc(s[i]))
    {
      RecordDocFaithful(s[i]);
    }
    ParsePrinted(ListDoc(s));
  }

  /** The part of a record that is printed: no order, no exit code that is not known, no result while running. */
  function Visible(r: Record): Record {
    var shown := r.(commitOrder := 0, exitCode := if r.exitKnown == 0 then 0 else r.exitCode);
    if r.state == RUNNING then
      shown.(outcome := 0, effects := 0, recoveryRequired := 0, recoveryTransaction := [], recoveryInspect := [])
    else shown
  }

  lemma PrintIntInjective(m: Int64, n: Int64)
    requires PrintInt(m) == PrintInt(n)
    ensures m == n
  {
    ParsePrintI64(m);
    ParsePrintI64(n);
  }

  lemma OutcomeNamesDiffer(m: Int32, n: Int32)
    requires CANCELLED_BEFORE_DISPATCH <= m <= OUTCOME_UNKNOWN && CANCELLED_BEFORE_DISPATCH <= n <= OUTCOME_UNKNOWN
    requires OutcomeName(m) == OutcomeName(n)
    ensures m == n
  {}

  lemma MemberAt(fields: seq<Field>, k: nat)
    requires k < |fields|
    ensures ValueOf(Doc.Record(fields)).Object? && |ValueOf(Doc.Record(fields)).members| == |fields|
    ensures ValueOf(Doc.Record(fields)).members[k] == Member(fields[k].name, ValueOf(fields[k].doc))
  {}

  lemma FieldsAgree(a: seq<Field>, b: seq<Field>, k: nat)
    requires ValueOf(Doc.Record(a)) == ValueOf(Doc.Record(b)) && k < |a| && k < |b|
    ensures ValueOf(a[k].doc) == ValueOf(b[k].doc)
  {
    MemberAt(a, k);
    MemberAt(b, k);
  }

  lemma WordsOrNullInjective(s: Text, t: Text)
    requires ValueOf(WordsOrNull(s)) == ValueOf(WordsOrNull(t))
    ensures s == t
  {}

  lemma RecordFieldsAgree(a: Record, b: Record, k: nat)
    requires ValueOf(RecordDoc(a)) == ValueOf(RecordDoc(b)) && k < 13
    ensures ValueOf(RecordField(a, k).doc) == ValueOf(RecordField(b, k).doc)
  {
    FieldsAgree(RecordDoc(a).fields, RecordDoc(b).fields, k);
  }

  lemma IdentityAgrees(a: Record, b: Record)
    requires ValueOf(RecordDoc(a)) == ValueOf(RecordDoc(b))
    ensures a.sessionId == b.sessionId && a.operationId == b.operationId && a.attemptId == b.attemptId
    ensures a.runnable == b.runnable && a.startedAt == b.startedAt
  {
    RecordFieldsAgree(a, b, 1);
    RecordFieldsAgree(a, b, 2);
    RecordFieldsAgree(a, b, 3);
    RecordFieldsAgree(a, b, 4);
    RecordFieldsAgree(a, b, 7);
  }

  lemma StateAgrees(a: Record, b: Record)
    requires ValueOf(RecordDoc(a)) == ValueOf(RecordDoc(b))
    ensures a.state == RUNNING <==> b.state == RUNNING
  {
    RecordFieldsAgree(a, b, 6);
    assert |"running"| == 7 && |"terminal"| == 8;
  }

  lemma OptionalFieldsAgree(a: Record, b: Record)
    requires ValueOf(RecordDoc(a)) == ValueOf(RecordDoc(b))
    ensures a.process == b.process && a.endedAt == b.endedAt
    ensures a.recoveryReference == b.recoveryReference && a.relaunchReference == b.relaunchReference
  {
    RecordFieldsAgree(a, b, 5);
    WordsOrNullInjective(a.process, b.process);
    RecordFieldsAgree(a, b, 8);
    WordsOrNullInjective(a.endedAt, b.endedAt);
    RecordFieldsAgree(a, b, 11);
    WordsOrNullInjective(a.recoveryReference, b.recoveryReference);
    RecordFieldsAgree(a, b, 12);
    WordsOrNullInjective(a.relaunchReference, b.relaunchReference);
  }

  lemma ExitAgrees(a: Record, b: Record)
    requires ValueOf(RecordDoc(a)) == ValueOf(RecordDoc(b))
    ensures a.exitKnown == 0 <==> b.exitKnown == 0
    ensures a.exitKnown != 0 ==> a.exitCode == b.exitCode
  {
    RecordFieldsAgree(a, b, 9);
    if a.exitKnown != 0 {
      PrintIntInjective(a.exitCode, b.exitCode);
    }
  }

  lemma TerminalAgrees(a: Record, b: Record)
    requires ValueOf(RecordDoc(a)) == ValueOf(RecordDoc(b)) && a.state == b.state == TERMINAL
    ensures OutcomeName(a.outcome) == OutcomeName(b.outcome)
    ensures a.effects != 0 <==> b.effects != 0
    ensures a.recoveryRequired != 0 <==> b.recoveryRequired != 0
    ensures a.recoveryTransaction == b.recoveryTransaction && a.recoveryInspect == b.recoveryInspect
  {
    RecordFieldsAgree(a, b, 10);
    var s, t := RecordField(a, 10).doc.fields, RecordField(b, 10).doc.fields;
    FieldsAgree(s, t, 3);
    FieldsAgree(s, t, 4);
    FieldsAgree(s, t, 5);
    RecoveryAgrees(a, b);
  }

  lemma RecoveryAgrees(a: Record, b: Record)
    requires ValueOf(RecoveryDoc(a)) == ValueOf(RecoveryDoc(b))
    ensures a.recoveryRequired != 0 <==> b.recoveryRequired != 0
    ensures a.recoveryTransaction == b.recoveryTransaction && a.recoveryInspect == b.recoveryInspect
  {
    var u, v := RecoveryDoc(a).fields, RecoveryDoc(b).fields;
    FieldsAgree(u, v, 0);
    FieldsAgree(u, v, 1);
    FieldsAgree(u, v, 2);
  }

  lemma VisibleDetermines(a: Record, b: Record)
    requires Visible(a) == Visible(b)
    ensures RecordDoc(a) == RecordDoc(b)
  {
    if a.state != RUNNING {
      assert RecoveryDoc(a).fields == RecoveryDoc(b).fields;
      assert TerminalDoc(a).fields == TerminalDoc(b).fields;
    }
    assert RecordDoc(a).fields == RecordDoc(b).fields;
  }

  /** The printed text says everything visible about a record, and nothing else: two records print alike exactly then. */
  lemma TextDeterminesRecord(a: Record, b: Record)
    requires ValidStored(a) && ValidStored(b)
    ensures Print(RecordDoc(a)) == Print(RecordDoc(b)) <==> Visible(a) == Visible(b)
  {
    if Visible(a) == Visible(b) {
      VisibleDetermines(a, b);
    }
    if Print(RecordDoc(a)) == Print(RecordDoc(b)) {
      RecordReadsBack(a);
      RecordReadsBack(b);
      IdentityAgrees(a, b);
      StateAgrees(a, b);
      OptionalFieldsAgree(a, b);
      ExitAgrees(a, b);
      if a.state == TERMINAL {
        TerminalAgrees(a, b);
        OutcomeNamesDiffer(a.outcome, b.outcome);
      }
    }
  }

  // ----- how long a record's text can be -----

  /** Every field of a record prints within this, the terminal result included. */
  const FIELD_MAX: nat := 500_000

  lemma NamedBound(f: Field, bound: nat)
    requires |f.name| <= 30 && |Print(f.doc)| <= bound
    ensures |Named(f.name, Print(f.doc))| <= bound + 200
  {}

  /** The document prints within `bound`: said by the length of the text alone where it is one. */
  predicate Short(d: Doc, bound: nat) {
    match d
    case Nothing => 4 <= bound
    case Flag(_) => 5 <= bound
    case Words(text) => 6 * |text| + 2 <= bound
    case _ => |Print(d)| <= bound
  }

  lemma ShortPrints(d: Doc, bound: nat)
    requires Short(d, bound)
    ensures |Print(d)| <= bound
  {}

  lemma FieldsBound(fields: seq<Field>, bound: nat)
    requires forall i :: 0 <= i < |fields| ==> |fields[i].name| <= 30 && Short(fields[i].doc, bound)
    ensures |Print(Doc.Record(fields))| <= |fields| * (bound + 201) + 2
  {
    var parts := seq(|fields|, i requires 0 <= i < |fields| => Named(fields[i].name, Print(fields[i].doc)));
    forall i | 0 <= i < |parts|
      ensures |parts[i]| <= bound + 200
    {
      ShortPrints(fields[i].doc, bound);
      NamedBound(fields[i], bound);
    }
    CommasBound(parts, bound + 200);
  }

  lemma RecoveryFieldShort(r: Record, k: nat)
    requires |r.recoveryTransaction| <= 4096 && |r.recoveryInspect| <= 4096
    ensures |RecoveryField(r, k).name| <= 30 && Short(RecoveryField(r, k).doc, 24_578)
  {}

  lemma RecoveryBound(r: Record)
    requires |r.recoveryTransaction| <= 4096 && |r.recoveryInspect| <= 4096
    ensures |Print(RecoveryDoc(r))| <= 3 * 24_779 + 2
  {
    var fields := RecoveryDoc(r).fields;
    forall k | 0 <= k < 3
      ensures |fields[k].name| <= 30 && Short(fields[k].doc, 24_578)
    {
      RecoveryFieldShort(r, k);
    }
    FieldsBound(fields, 24_578);
  }

  lemma OutcomeNameShort(outcome: Int32)
    ensures |OutcomeName(outcome)| <= 40
  {}

  lemma TerminalNameShort(r: Record, k: nat)
    ensures |TerminalField(r, k).name| <= 30
  {}

  lemma TerminalFieldShort(r: Record, k: nat)
    requires |r.operationId| <= 4096 && |r.attemptId| <= 4096 && k < 5
    ensures Short(TerminalField(r, k).doc, 24_578)
  {
    OutcomeNameShort(r.outcome);
  }

  lemma TerminalBound(r: Record)
    requires |r.operationId| <= 4096 && |r.attemptId| <= 4096
    requires |r.recoveryTransaction| <= 4096 && |r.recoveryInspect| <= 4096
    ensures |Print(TerminalDoc(r))| <= FIELD_MAX
  {
    RecoveryBound(r);
    var fields := TerminalDoc(r).fields;
    forall k | 0 <= k < 6
      ensures |fields[k].name| <= 30 && Short(fields[k].doc, 75_000)
    {
      TerminalNameShort(r, k);
      if k < 5 {
        TerminalFieldShort(r, k);
      }
    }
    FieldsBound(fields, 75_000);
  }

  /** No text of the record is longer than the longest the validator lets through. */
  predicate TextsShort(r: Record) {
    && |r.sessionId| <= 4096 && |r.operationId| <= 4096 && |r.attemptId| <= 4096 && |r.runnable| <= 4096
    && |r.process| <= 4096 && |r.startedAt| <= 4096 && |r.endedAt| <= 4096
    && |r.recoveryReference| <= 4096 && |r.relaunchReference| <= 4096
    && (r.state != RUNNING ==> |r.recoveryTransaction| <= 4096 && |r.recoveryInspect| <= 4096)
  }

  lemma ValidIsShort(r: Record)
    requires ValidStored(r)
    ensures TextsShort(r)
  {}

  lemma RecordFieldShort(r: Record, k: nat)
    requires TextsShort(r) && (r.state != RUNNING ==> Short(TerminalDoc(r), FIELD_MAX))
    ensures |RecordField(r, k).name| <= 30 && Short(RecordField(r, k).doc, FIELD_MAX)
  {
    PrintIntLength(r.exitCode);
  }

  /** Every valid record prints within a few megabytes, far below any size limit. */
  lemma RecordTextBound(r: Record)
    requires ValidStored(r)
    ensures |Print(RecordDoc(r))| <= 13 * (FIELD_MAX + 201) + 2
  {
    ValidIsShort(r);
    if r.state != RUNNING {
      TerminalBound(r);
    }
    var fields := RecordDoc(r).fields;
    forall k | 0 <= k < 13
      ensures |fields[k].name| <= 30 && Short(fields[k].doc, FIELD_MAX)
    {
      RecordFieldShort(r, k);
    }
    FieldsBound(fields, FIELD_MAX);
  }

  ghost predicate AllValid(s: seq<Record>) {
    forall i :: 0 <= i < |s| ==> ValidStored(s[i])
  }

  lemma TwoFieldsBound(a: Field, b: Field, bound: nat)
    requires |a.name| <= 30 && |b.name| <= 30 && Short(a.doc, bound) && Short(b.doc, bound)
    ensures |Print(Doc.Record([a, b]))| <= 2 * (bound + 201) + 2
  {
    FieldsBound([a, b], bound);
  }

  lemma ListNamesShort()
    ensures |SCHEMA| <= 30 && |SESSIONS| <= 30 && |LIST_SCHEMA| <= 30
  {}

  lemma DocsBound(docs: seq<Doc>, bound: nat)
    requires forall i :: 0 <= i < |docs| ==> |Print(docs[i])| <= bound
    ensures |Print(List(docs))| <= |docs| * (bound + 1) + 2
  {
    var parts := seq(|docs|, i requires 0 <= i < |docs| => Print(docs[i]));
    CommasBound(parts, bound);
  }

  lemma ManyDocs(n: nat, most: nat, bound: nat)
    requires n <= most
    ensures n * bound <= most * bound
  {}

  /** So does every list of as many valid records as a scan can hold. */
  lemma ListTextBound(s: seq<Record>)
    requires AllValid(s) && |s| <= 1024
    ensures |Print(ListDoc(s))| <= 20_000_000_000
  {
    var docs, bound := Docs(s), 13 * (FIELD_MAX + 201) + 2;
    forall i | 0 <= i < |docs|
      ensures |Print(docs[i])| <= bound
    {
      RecordTextBound(s[i]);
    }
    DocsBound(docs, bound);
    ManyDocs(|docs|, 1024, bound + 1);
    ListNamesShort();
    TwoFieldsBound(Field(SCHEMA, Words(LIST_SCHEMA)), Field(SESSIONS, List(docs)), 1024 * (bound + 1) + 2);
  }
}
