/**
 The journal's read operations: Inspect and Last Run by one lookup, and List. Each scans under the lock, renders what
 it found and hands the text out in two calls: one for its size, one for the text.
 */
module JournalReader {
  import opened Bytes
  import opened Recognisers
  import opened SessionRecord
  import opened RecordValidation
  import opened Json
  import opened SessionJson
  import opened SessionOutput
  import opened TextBuilder
  import opened StatusCodes
  import opened JournalStore
  import opened JournalProtocol
  import opened JournalGuarantees
  import opened JournalLastRun
  import opened JournalRecovery
  import opened DiskFormat
  import opened JournalWriter

  // ----- handing out a text -----

  /** What the caller's buffer must hold after a copy of `text`, given its size and what it held. */
  ghost predicate CopiedOut(text: Text, given: bool, capacity: nat, before: seq<Byte>, after: seq<Byte>, status: Status) {
    var required := |text| + 1;
    if !given && capacity == 0 then status == StatusOk && after == before
    else if !given || capacity < required then status == StatusError && after == before
    else status == StatusOk && |after| == |before| >= required && after == text + [NUL] + before[required..]
  }

  /** ulk_copy_json: the size is reported whatever the buffer; a buffer that is too small is left alone. */
  method CopyJson(output: Builder, json: array?<Byte>, capacity: nat) returns (status: Status, required: nat)
    requires output.Valid() && output.data != null && (json == null || json.Length >= capacity) && json != output.data
    modifies if json == null then {} else {json}
    ensures required == |output.Contents()| + 1
    ensures output.Valid() && output.Contents() == old(output.Contents())
    ensures CopiedOut(output.Contents(), json != null, capacity,
                      if json == null then [] else old(json[..]), if json == null then [] else json[..], status)
  {
    required := output.size + 1;
    if json == null {
      return if capacity == 0 then StatusOk else StatusError, required;
    }
    if capacity < required {
      return StatusError, required;
    }
    assert output.data[..required] == output.Contents() + [NUL];
    CopyBytes(output.data, json, required);
    status := StatusOk;
  }

  method CopyBytes(source: array<Byte>, target: array<Byte>, count: nat)
    requires source != target && count <= source.Length && count <= target.Length
    modifies target
    ensures target[..] == source[..count] + old(target[count..])
  {
    for i := 0 to count
      invariant target[..i] == source[..i]
      invariant target[i..] == old(target[i..])
    {
      assert target[i + 1..] == target[i..][1..];
      target[i] := source[i];
    }
    assert target[..] == target[..count] + target[count..];
  }

  // ----- lookups -----

  datatype LookupStatus = FOUND | NOT_FOUND | CORRUPT | INCOMPATIBLE

  /** What a lookup writes to its output parameters. */
  datatype Answer = Answer(lookup: LookupStatus, required: nat)

  predicate Matches(r: Record, key: Text, byRunnable: bool) {
    (if byRunnable then r.runnable else r.sessionId) == key
  }

  function FirstMatch(s: seq<Record>, key: Text, byRunnable: bool): (found: Option<Record>)
    ensures found.Some? ==> found.value in s && Matches(found.value, key, byRunnable)
    ensures found.None? ==> forall r :: r in s ==> !Matches(r, key, byRunnable)
  {
    if s == [] then None
    else if Matches(s[0], key, byRunnable) then Some(s[0])
    else FirstMatch(s[1..], key, byRunnable)
  }

  /** Last Run is the lookup by runnable. */
  lemma {:induction false} FirstMatchIsLastRun(s: seq<Record>, runnable: Text)
    ensures FirstMatch(s, runnable, true) == LastRun(s, runnable)
  {
    if s != [] && s[0].runnable != runnable {
      FirstMatchIsLastRun(s[1..], runnable);
    }
  }

  /** Inspect finds the one retained record of a session. */
  lemma FirstMatchIsSession(s: seq<Record>, v: map<Text, Record>, id: Text)
    requires IsListing(s, v)
    ensures match FirstMatch(s, id, false)
            case None => TargetName(id) !in v || v[TargetName(id)].sessionId != id
            case Some(r) => Retained(v, r) && r.sessionId == id
  {}

  /** What a lookup on the scan result `load` answers, and leaves in the caller's buffer. */
  ghost predicate LookupMeans(
    load: Load, key: Text, byRunnable: bool, given: bool, capacity: nat, before: seq<Byte>, after: seq<Byte>,
    status: Status, answer: Answer)
  {
    match load
    case Failed(incompatible) =>
      status == StatusError && after == before && answer == Answer(if incompatible then INCOMPATIBLE else CORRUPT, 0)
    case Loaded(s) =>
      match FirstMatch(s, key, byRunnable)
      case None => status == StatusOk && after == before && answer == Answer(NOT_FOUND, 0)
      case Some(r) =>
        if answer.lookup == FOUND then
          && ValidStored(r) && answer.required == |Print(RecordDoc(r))| + 1
          && CopiedOut(Print(RecordDoc(r)), given, capacity, before, after, status)
        else status == StatusError && after == before && answer == Answer(CORRUPT, 0)
  }

  /** A valid record can fail to be found only for want of memory while it is rendered. */
  ghost predicate OnlyMemoryFails(load: Load, key: Text, byRunnable: bool, answer: Answer, refusals: nat) {
    load.Loaded? && answer.lookup == CORRUPT && refusals == 0 ==>
      var found := FirstMatch(load.records, key, byRunnable);
      found.Some? && !ValidStored(found.value)
  }

  ghost predicate IsKey(key: Text, byRunnable: bool) {
    if byRunnable then ViewFits(key, 4096, false) else IsIdentifier(key)
  }

  method RenderRecord(r: Record, json: array?<Byte>, capacity: nat)
    returns (status: Status, answer: Answer, ghost refusals: nat)
    requires json == null || json.Length >= capacity
    modifies if json == null then {} else {json}
    ensures var before, after := if json == null then [] else old(json[..]), if json == null then [] else json[..];
            if answer.lookup == FOUND then
              && ValidStored(r) && answer.required == |Print(RecordDoc(r))| + 1
              && CopiedOut(Print(RecordDoc(r)), json != null, capacity, before, after, status)
            else
              status == StatusError && after == before && answer == Answer(CORRUPT, 0) && (refusals > 0 || !ValidStored(r))
  {
    refusals := 0;
    var ok := ValidateRecord(ToPublic(r));
    if !ok {
      return StatusError, Answer(CORRUPT, 0), refusals;
    }
    var output := new Builder();
    RecordTextBound(r);
    ok := AppendDoc(output, RecordDoc(r));
    refusals := output.refusals;
    if !ok {
      return StatusError, Answer(CORRUPT, 0), refusals;
    }
    assert output.Contents() == [] + Print(RecordDoc(r)) == Print(RecordDoc(r));
    var required;
    status, required := CopyJson(output, json, capacity);
    answer := Answer(FOUND, required);
  }

  /** ulk_lookup_common, from the scan on; a key that is no key is refused before anything is written. */
  method Lookup(
    f: Format, files: Directory, handle: Handle, key: Text, byRunnable: bool, json: array?<Byte>, capacity: nat)
    returns (status: Status, answer: Option<Answer>, ghost names: seq<Text>, ghost refusals: nat)
    requires json == null || json.Length >= capacity
    modifies if json == null then {} else {json}
    ensures answer.None? <==> !HandleValid(handle) || !IsKey(key, byRunnable)
    ensures answer.None? ==> status == StatusInvalid && (json != null ==> json[..] == old(json[..]))
    ensures answer.Some? ==>
              var before, after := if json == null then [] else old(json[..]), if json == null then [] else json[..];
              && Enumerates(names, files)
              && LookupMeans(Scan(f, files, names), CString(key), byRunnable, json != null, capacity,
                             before, after, status, answer.value)
              && OnlyMemoryFails(Scan(f, files, names), CString(key), byRunnable, answer.value, refusals)
  {
    refusals, names := 0, [];
    var ok := ViewFits(key, 4096, false);
    if !byRunnable {
      ok := ScanIdentifier(key);
    }
    if !ok || !HandleValid(handle) {
      return StatusInvalid, None, names, refusals;
    }
    var keyText := CString(key);
    var load;
    load, names := ScanRecords(f, files);
    if load.Failed? {
      return StatusError, Some(Answer(if load.incompatible then INCOMPATIBLE else CORRUPT, 0)), names, refusals;
    }
    var s := load.records;
    for index := 0 to |s|
      invariant FirstMatch(s[index..], keyText, byRunnable) == FirstMatch(s, keyText, byRunnable)
      invariant json != null ==> json[..] == old(json[..])
    {
      assert s[index..][0] == s[index] && s[index..][1..] == s[index + 1..];
      if Matches(s[index], keyText, byRunnable) {
        var a;
        status, a, refusals := RenderRecord(s[index], json, capacity);
        return status, Some(a), names, refusals;
      }
    }
    assert s[|s|..] == [];
    return StatusOk, Some(Answer(NOT_FOUND, 0)), names, refusals;
  }

  /** A buffer that is large enough receives the text, terminated, and keeps what is behind it. */
  lemma Delivered(text: Text, capacity: nat, before: seq<Byte>, after: seq<Byte>, status: Status)
    requires CopiedOut(text, true, capacity, before, after, status) && capacity > |text|
    ensures status == StatusOk && |after| == |before| && after[|text| + 1..] == before[|text| + 1..]
    ensures after[..|text|] == text && CString(after) == CString(text)
  {
    CStringOfPrefix(after, text);
  }

  /** A first call for the size, a second with a buffer of at least that size: the second delivers the whole text. */
  lemma TwoCallsDeliver(
    load: Load, key: Text, byRunnable: bool, given: bool, capacity: nat, before: seq<Byte>, after: seq<Byte>,
    status: Status, first: Answer, capacity': nat, before': seq<Byte>, after': seq<Byte>, status': Status, second: Answer)
    requires LookupMeans(load, key, byRunnable, given, capacity, before, after, status, first)
    requires LookupMeans(load, key, byRunnable, true, capacity', before', after', status', second)
    requires first.lookup == second.lookup == FOUND
    ensures second.required == first.required
    ensures capacity' >= first.required ==>
              var text := Print(RecordDoc(FirstMatch(load.records, key, byRunnable).value));
              && status' == StatusOk && |after'| == |before'| && after'[first.required..] == before'[first.required..]
              && after'[..first.required - 1] == text && CString(after') == CString(text)
              && Parse(text) == Some(ValueOf(RecordDoc(FirstMatch(load.records, key, byRunnable).value)))
  {
    var r := FirstMatch(load.records, key, byRunnable).value;
    RecordReadsBack(r);
    if capacity' >= first.required {
      Delivered(Print(RecordDoc(r)), capacity', before', after', status');
    }
  }

  /** A C string reader sees the text up to its terminator. */
  lemma CStringOfPrefix(t: Text, text: Text)
    requires |text| < |t| && t[..|text|] == text && t[|text|] == NUL
    ensures CString(t) == CString(text)
  {}

  /**
   Last Run on the files the journal writes: in every run whose retention passes all finish, between writes, it answers
   with the most recent admission of the runnable ever made, or with a legacy record if it was never admitted, or with
   nothing.
   */
  lemma LookupIsMostRecent(ws: seq<World>, actions: seq<Action>, i: nat, names: seq<Text>, runnable: Text)
    requires IsRun(V2, ws, actions) && Initial(V2, ws[0]) && NoneCutShort(ws, actions, 0, i) && ws[i].lock.None?
    requires Enumerates(names, ws[i].dir) && Scan(V2, ws[i].dir, names).Loaded?
    ensures var w := ws[i];
            w.from <= |w.log| &&
            match FirstMatch(Scan(V2, w.dir, names).records, runnable, true)
            case None => forall r :: r in w.log[w.from..] ==> r.runnable != runnable
            case Some(r) =>
              && r.runnable == runnable
              && if r.commitOrder > 0 then MostRecent(w.log, r) else forall x :: x in w.log ==> x.runnable != runnable
  {
    V2ReadsBack();
    var s := Scan(V2, ws[i].dir, names).records;
    FirstMatchIsLastRun(s, runnable);
    RunSound(V2, ws, actions, i);
    ScanIsListing(V2, ws[i].dir, names);
    LastRunUnlessCutShort(V2, ws, actions, 0, i, s, runnable);
  }

  // ----- lists -----

  /** The text of an object of two members up to the items of a list that is the second. */
  function Opening(name: Text, text: Text, listName: Text): Text {
    ['{'] + Named(name, text) + [','] + (Quote(listName) + [':']) + ['[']
  }

  lemma OpeningText(name: Text, text: Text, listName: Text, items: Text)
    ensures ['{'] + (Named(name, text) + [','] + Named(listName, ['['] + items + [']'])) + ['}'] ==
            Opening(name, text, listName) + items + [']', '}']
  {}

  lemma ListText(docs: seq<Doc>)
    ensures Print(ListOf(docs)) == Opening(SCHEMA, Quote(LIST_SCHEMA), SESSIONS) + Commas(PrintedItems(docs)) + [']', '}']
  {
    TwoFields(Field(SCHEMA, Words(LIST_SCHEMA)), Field(SESSIONS, List(docs)));
    OpeningText(SCHEMA, Quote(LIST_SCHEMA), SESSIONS, Commas(PrintedItems(docs)));
  }

  lemma AllValidSnoc(s: seq<Record>, i: nat)
    requires i < |s|
    ensures AllValid(s[..i + 1]) <==> AllValid(s[..i]) && ValidStored(s[i])
    ensures AllValid(s) ==> ValidStored(s[i])
  {}

  method RenderSessions(output: Builder, s: seq<Record>, docs: seq<Doc>) returns (ok: bool)
    requires output.Valid() && |docs| == |s|
    modifies output, output.data
    ensures output.Readable() && (output.data == old(output.data) || fresh(output.data))
    ensures ok ==>
              AllValid(s) && output.Valid() && output.Contents() == old(output.Contents()) + Commas(PrintedItems(docs))
    ensures AllValid(s) ==> output.Excused(ok, Commas(PrintedItems(docs)))
  {
    ghost var before, parts := output.Contents(), PrintedItems(docs);
    ok := true;
    for i := 0 to |s|
      invariant output.Valid() && ok && AllValid(s[..i]) && output.refusals == old(output.refusals)
      invariant output.data == old(output.data) || fresh(output.data)
      invariant output.Contents() == before + Commas(parts[..i])
    {
      AllValidSnoc(s, i);
      CommasSnoc(parts, i);
      ok := RenderSession(output, s[i], docs, i);
      if !ok {
        return;
      }
      Assoc(before, Commas(parts[..i]), Next(parts, i));
    }
    assert parts[..|s|] == parts && s[..|s|] == s;
  }

  method RenderSession(output: Builder, r: Record, docs: seq<Doc>, i: nat) returns (ok: bool)
    requires output.Valid() && i < |docs|
    modifies output, output.data
    ensures output.Readable() && (output.data == old(output.data) || fresh(output.data))
    ensures ok ==> ValidStored(r) && output.Valid()
    ensures ok ==> output.Contents() == old(output.Contents()) + Next(PrintedItems(docs), i)
    ensures output.refusals >= old(output.refusals) && (ok ==> output.refusals == old(output.refusals))
    ensures ValidStored(r) ==> output.Excused(ok, Next(PrintedItems(docs), i))
  {
    ok := ValidateRecord(ToPublic(r));
    if ok {
      ok := AppendItem(output, docs, i);
    }
  }

  method RenderList(output: Builder, opening: Text, s: seq<Record>, docs: seq<Doc>)
    returns (ok: bool)
    requires output.Valid() && output.data == null && |docs| == |s|
    modifies output
    ensures output.Readable() && (output.data == null || fresh(output.data))
    ensures ok ==>
              AllValid(s) && output.Valid() && output.Contents() == opening + Commas(PrintedItems(docs)) + [']', '}']
    ensures AllValid(s) ==> output.Excused(ok, opening + Commas(PrintedItems(docs)) + [']', '}'])
  {
    ok := output.Append(opening);
    if !ok {
      return;
    }
    assert output.Contents() == [] + opening == opening;
    ok := RenderSessions(output, s, docs);
    if ok {
      ok := output.Append([']', '}']);
    }
  }

  /** Valid records are not listed only for want of memory. */
  method RenderListOf(output: Builder, s: seq<Record>) returns (ok: bool)
    requires output.Valid() && output.data == null && output.refusals == 0 && |s| <= MAX_RECORDS
    modifies output
    ensures output.Readable() && (output.data == null || fresh(output.data))
    ensures ok ==> AllValid(s) && output.Valid() && output.Contents() == Print(ListDoc(s))
    ensures !ok ==> !AllValid(s) || output.refusals > 0
  {
    var docs := Docs(s);
    ListText(docs);
    if AllValid(s) {
      ListTextBound(s);
    }
    ok := RenderList(output, Opening(SCHEMA, Quote(LIST_SCHEMA), SESSIONS), s, docs);
  }

  /** How many of the listed records a limit asks for; none means all. */
  function Bounded(s: seq<Record>, limit: nat): seq<Record> {
    if limit == 0 || limit > |s| then s else s[..limit]
  }

  /** ulk_session_journal_list_v1, from the scan on. The size is written only once there is a text. */
  method ListSessions(f: Format, files: Directory, handle: Handle, limit: nat, json: array?<Byte>, capacity: nat)
    returns (status: Status, required: Option<nat>, ghost names: seq<Text>, ghost refusals: nat)
    requires json == null || json.Length >= capacity
    modifies if json == null then {} else {json}
    ensures !HandleValid(handle) || limit > MAX_RECORDS <==> status == StatusInvalid
    ensures required.None? ==> status != StatusOk && (json != null ==> json[..] == old(json[..]))
    ensures status != StatusInvalid ==> Enumerates(names, files)
    ensures required.Some? ==>
              && status != StatusInvalid && Scan(f, files, names).Loaded?
              && var s := Bounded(Scan(f, files, names).records, limit);
              && AllValid(s) && required.value == |Print(ListDoc(s))| + 1
              && CopiedOut(Print(ListDoc(s)), json != null, capacity,
                           if json == null then [] else old(json[..]), if json == null then [] else json[..], status)
    ensures status != StatusInvalid && required.None? && refusals == 0 ==>
              Scan(f, files, names).Failed? || !AllValid(Bounded(Scan(f, files, names).records, limit))
  {
    refusals, names := 0, [];
    if !HandleValid(handle) || limit > MAX_RECORDS {
      return StatusInvalid, None, names, refusals;
    }
    var load;
    load, names := ScanRecords(f, files);
    if load.Failed? {
      return StatusError, None, names, refusals;
    }
    var output := new Builder();
    var ok := RenderListOf(output, Bounded(load.records, limit));
    refusals := output.refusals;
    if !ok {
      return StatusError, None, names, refusals;
    }
    var size;
    status, size := CopyJson(output, json, capacity);
    required := Some(size);
  }
}
