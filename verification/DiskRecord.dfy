/**
 The record file: bar-separated fields, a CRC-32 over everything up to and including the last bar, a newline.

 Version 2 is written; version 1, which lacks the commit order, is still read.
 */
module DiskRecord {
  import opened Bytes
  import opened FieldCodec
  import opened SessionRecord
  import Crc32

  const MAX_FILE_BYTES := 65536

  const VERSION_1: Text := "ULK_SESSION_RECORD_V1"
  const VERSION_2: Text := "ULK_SESSION_RECORD_V2"
  const VERSION_PREFIX: Text := "ULK_SESSION_RECORD_"

  datatype Parsed = Ok(record: Record) | Corrupt | Incompatible

  // ----- printing -----

  /** The fields before the commit order, in file order. */
  function LeadingField(version: Text, r: Record, k: nat): Text {
    match k
    case 0 => version
    case 1 => EncodeHex(r.sessionId)
    case 2 => EncodeHex(r.operationId)
    case 3 => EncodeHex(r.attemptId)
    case 4 => EncodeHex(r.runnable)
    case 5 => EncodeHex(r.process)
    case 6 => PrintInt(r.state)
    case 7 => EncodeHex(r.startedAt)
    case 8 => EncodeHex(r.endedAt)
    case 9 => PrintInt(r.exitKnown)
    case 10 => PrintInt(r.exitCode)
    case 11 => PrintInt(r.outcome)
    case 12 => PrintInt(r.effects)
    case 13 => PrintInt(r.recoveryRequired)
    case 14 => EncodeHex(r.recoveryTransaction)
    case 15 => EncodeHex(r.recoveryInspect)
    case 16 => EncodeHex(r.recoveryReference)
    case _ => EncodeHex(r.relaunchReference)
  }

  function LeadingFields(version: Text, r: Record): (f: seq<Text>)
    ensures |f| == 18
  {
    seq(18, k requires 0 <= k < 18 => LeadingField(version, r, k))
  }

  function Fields(r: Record): seq<Text> {
    LeadingFields(VERSION_2, r) + [PrintInt(r.commitOrder)]
  }

  // The layout is stated for any 32-bit checksum `sum`; the files themselves use Crc32.Value.

  type ChecksumFunction = Text -> Word32

  /** The checksum and newline after a body that ends in a bar. */
  function Seal(sum: ChecksumFunction, body: Text): Text {
    body + PrintHex(sum(body), 8) + ['\n']
  }

  function SerializeWith(sum: ChecksumFunction, r: Record): Text {
    Seal(sum, Join(Fields(r), '|') + ['|'])
  }

  function SerializeLegacyWith(sum: ChecksumFunction, r: Record): Text {
    Seal(sum, Join(LeadingFields(VERSION_1, r), '|') + ['|'])
  }

  /** ulk_serialize_record, for a record whose order is positive. */
  function Serialize(r: Record): Text {
    SerializeWith(Crc32.Value, r)
  }

  /** The legacy layout of the same record. */
  function SerializeLegacy(r: Record): Text {
    SerializeLegacyWith(Crc32.Value, r)
  }

  // ----- parsing -----

  /** What precedes the last bar, if the eight characters after it are the checksum up to and including it. */
  function CheckedBody(sum: ChecksumFunction, text: Text): Option<Text> {
    var bar :- LastIndex(text, '|');
    if |text| - (bar + 1) != 8 then None
    else
      var expected :- ParseWord(text[bar + 1..]);
      if sum(text[..bar + 1]) != expected then None else Some(text[..bar])
  }

  /** The fields of a file whose checksum holds. */
  function Unseal(sum: ChecksumFunction, file: Text): Option<seq<Text>> {
    if |file| < 2 || file[|file| - 1] != '\n' then None
    else
      var body :- CheckedBody(sum, CString(file[..|file| - 1]));
      Some(Split(body, '|'))
  }

  function ParseFields(f: seq<Text>): Parsed
    requires |f| >= 1
  {
    if |f| > 20 then Corrupt
    else if f[0] == VERSION_1 then
      if |f| != 18 then Corrupt
      else
        match DecodeLeading(f) case None => Corrupt case Some(r) => Ok(r)
    else if f[0] == VERSION_2 then
      if |f| != 19 then Corrupt
      else
        match DecodeLeading(f)
        case None => Corrupt
        case Some(r) =>
          match ParseI64(f[18])
          case None => Corrupt
          case Some(order) => if order <= 0 then Corrupt else Ok(r.(commitOrder := order))
    else if VERSION_PREFIX <= f[0] then Incompatible
    else Corrupt
  }

  function DecodeLeading(f: seq<Text>): Option<Record>
    requires |f| >= 18
  {
    var sessionId :- DecodeHex(f[1], 129);
    var operationId :- DecodeHex(f[2], 129);
    var attemptId :- DecodeHex(f[3], 129);
    var runnable :- DecodeHex(f[4], 4097);
    var process :- DecodeHex(f[5], 1025);
    var state :- ParseInt(f[6]);
    var startedAt :- DecodeHex(f[7], 65);
    var endedAt :- DecodeHex(f[8], 65);
    var exitKnown :- ParseInt(f[9]);
    var exitCode :- ParseI64(f[10]);
    var outcome :- ParseInt(f[11]);
    var effects :- ParseInt(f[12]);
    var recoveryRequired :- ParseInt(f[13]);
    var recoveryTransaction :- DecodeHex(f[14], 129);
    var recoveryInspect :- DecodeHex(f[15], 129);
    var recoveryReference :- DecodeHex(f[16], 129);
    var relaunchReference :- DecodeHex(f[17], 129);
    Some(Record(sessionId, operationId, attemptId, runnable, process, state, startedAt, endedAt, exitKnown, exitCode,
                outcome, effects, recoveryRequired, recoveryTransaction, recoveryInspect,
                recoveryReference, relaunchReference, 0))
  }

  function ParseWith(sum: ChecksumFunction, file: Text): Parsed {
    match Unseal(sum, file)
    case None => Corrupt
    case Some(fields) => ParseFields(fields)
  }

  /** ulk_parse_record */
  function Parse(file: Text): Parsed {
    ParseWith(Crc32.Value, file)
  }

  // ----- round trip -----

  ghost predicate HexAt(f: seq<Text>, k: nat, capacity: nat, value: Text) {
    k < |f| && DecodeHex(f[k], capacity) == Some(value)
  }

  ghost predicate IntAt(f: seq<Text>, k: nat, value: int) {
    k < |f| && ParseInt(f[k]) == Some(value)
  }

  ghost predicate LongAt(f: seq<Text>, k: nat, value: int) {
    k < |f| && ParseI64(f[k]) == Some(value)
  }

  /** Field by field, `f` decodes to `r`. */
  ghost predicate DecodesTo(f: seq<Text>, r: Record) {
    && |f| >= 18
    && HexAt(f, 1, 129, r.sessionId) && HexAt(f, 2, 129, r.operationId) && HexAt(f, 3, 129, r.attemptId)
    && HexAt(f, 4, 4097, r.runnable) && HexAt(f, 5, 1025, r.process) && IntAt(f, 6, r.state)
    && HexAt(f, 7, 65, r.startedAt) && HexAt(f, 8, 65, r.endedAt)
    && IntAt(f, 9, r.exitKnown) && LongAt(f, 10, r.exitCode)
    && IntAt(f, 11, r.outcome) && IntAt(f, 12, r.effects) && IntAt(f, 13, r.recoveryRequired)
    && HexAt(f, 14, 129, r.recoveryTransaction) && HexAt(f, 15, 129, r.recoveryInspect)
    && HexAt(f, 16, 129, r.recoveryReference) && HexAt(f, 17, 129, r.relaunchReference)
  }

  lemma DecodesToDecodes(f: seq<Text>, r: Record)
    requires DecodesTo(f, r)
    ensures DecodeLeading(f) == Some(r.(commitOrder := 0))
  {}

  lemma HexFieldDecodes(f: seq<Text>, k: nat, capacity: nat, value: Text)
    requires k < |f| && f[k] == EncodeHex(value) && FitsBuffer(value, capacity)
    ensures HexAt(f, k, capacity, value)
  {
    DecodeEncode(value, capacity);
  }

  lemma IntFieldDecodes(f: seq<Text>, k: nat, value: Int32)
    requires k < |f| && f[k] == PrintInt(value)
    ensures IntAt(f, k, value)
  {}

  lemma LongFieldDecodes(f: seq<Text>, k: nat, value: Int64)
    requires k < |f| && f[k] == PrintInt(value)
    ensures LongAt(f, k, value)
  {}

  /** Field by field, `f` is the printed form of `r`. */
  ghost predicate EncodedFrom(f: seq<Text>, r: Record) {
    && |f| >= 18
    && f[1] == EncodeHex(r.sessionId) && f[2] == EncodeHex(r.operationId) && f[3] == EncodeHex(r.attemptId)
    && f[4] == EncodeHex(r.runnable) && f[5] == EncodeHex(r.process) && f[6] == PrintInt(r.state)
    && f[7] == EncodeHex(r.startedAt) && f[8] == EncodeHex(r.endedAt)
    && f[9] == PrintInt(r.exitKnown) && f[10] == PrintInt(r.exitCode)
    && f[11] == PrintInt(r.outcome) && f[12] == PrintInt(r.effects) && f[13] == PrintInt(r.recoveryRequired)
    && f[14] == EncodeHex(r.recoveryTransaction) && f[15] == EncodeHex(r.recoveryInspect)
    && f[16] == EncodeHex(r.recoveryReference) && f[17] == EncodeHex(r.relaunchReference)
  }

  lemma LeadingFieldsEncoded(version: Text, r: Record)
    ensures EncodedFrom(LeadingFields(version, r), r)
  {}

  lemma EncodedDecodes(f: seq<Text>, r: Record)
    requires EncodedFrom(f, r) && Fits(r)
    ensures DecodesTo(f, r)
  {
    HexFieldDecodes(f, 1, 129, r.sessionId);
    HexFieldDecodes(f, 2, 129, r.operationId);
    HexFieldDecodes(f, 3, 129, r.attemptId);
    HexFieldDecodes(f, 4, 4097, r.runnable);
    HexFieldDecodes(f, 5, 1025, r.process);
    IntFieldDecodes(f, 6, r.state);
    HexFieldDecodes(f, 7, 65, r.startedAt);
    HexFieldDecodes(f, 8, 65, r.endedAt);
    IntFieldDecodes(f, 9, r.exitKnown);
    LongFieldDecodes(f, 10, r.exitCode);
    IntFieldDecodes(f, 11, r.outcome);
    IntFieldDecodes(f, 12, r.effects);
    IntFieldDecodes(f, 13, r.recoveryRequired);
    HexFieldDecodes(f, 14, 129, r.recoveryTransaction);
    HexFieldDecodes(f, 15, 129, r.recoveryInspect);
    HexFieldDecodes(f, 16, 129, r.recoveryReference);
    HexFieldDecodes(f, 17, 129, r.relaunchReference);
  }

  lemma DecodesToPrefix(f: seq<Text>, more: seq<Text>, r: Record)
    requires DecodesTo(f, r)
    ensures DecodesTo(f + more, r)
  {}

  ghost predicate Plain(f: seq<Text>) {
    forall k :: 0 <= k < |f| ==> Lacks(f[k], '|') && Lacks(f[k], NUL)
  }

  lemma {:induction false} JoinPlain(f: seq<Text>)
    requires |f| >= 1 && Plain(f)
    ensures Lacks(Join(f, '|'), NUL)
  {
    if |f| > 1 {
      JoinPlain(f[1..]);
    }
  }

  lemma PrintHexPlain(n: nat)
    ensures Lacks(PrintHex(n, 8), '|') && Lacks(PrintHex(n, 8), NUL)
  {}

  lemma CheckedBodyOf(sum: ChecksumFunction, inner: Text)
    ensures CheckedBody(sum, inner + ['|'] + PrintHex(sum(inner + ['|']), 8)) == Some(inner)
  {
    var n := sum(inner + ['|']);
    var hex := PrintHex(n, 8);
    var text := inner + ['|'] + hex;
    PrintHexPlain(n);
    assert text[|inner| + 1..] == hex && text[..|inner| + 1] == inner + ['|'] && text[..|inner|] == inner;
    LastIndexIs(text, '|', |inner|);
    ParsePrintWord(n);
  }

  lemma UnsealText(sum: ChecksumFunction, text: Text, inner: Text)
    requires text != [] && Lacks(text, NUL) && CheckedBody(sum, text) == Some(inner)
    ensures Unseal(sum, text + ['\n']) == Some(Split(inner, '|'))
  {
    assert (text + ['\n'])[..|text|] == text;
    CStringWhole(text);
  }

  lemma SealedLacksNul(inner: Text, n: nat)
    requires Lacks(inner, NUL)
    ensures Lacks(inner + ['|'] + PrintHex(n, 8), NUL)
  {
    PrintHexPlain(n);
  }

  lemma UnsealSeal(sum: ChecksumFunction, inner: Text)
    requires Lacks(inner, NUL)
    ensures Unseal(sum, Seal(sum, inner + ['|'])) == Some(Split(inner, '|'))
  {
    var n := sum(inner + ['|']);
    CheckedBodyOf(sum, inner);
    SealedLacksNul(inner, n);
    UnsealText(sum, inner + ['|'] + PrintHex(n, 8), inner);
  }

  lemma UnsealFields(sum: ChecksumFunction, f: seq<Text>)
    requires |f| >= 1 && Plain(f)
    ensures Unseal(sum, Seal(sum, Join(f, '|') + ['|'])) == Some(f)
  {
    JoinPlain(f);
    UnsealSeal(sum, Join(f, '|'));
    SplitJoin(f, '|');
  }

  lemma LeadingFieldPlain(version: Text, r: Record, k: nat)
    requires Lacks(version, '|') && Lacks(version, NUL)
    ensures Lacks(LeadingField(version, r, k), '|') && Lacks(LeadingField(version, r, k), NUL)
  {
    match k
    case 0 =>
    case 1 => EncodeHexPlain(r.sessionId);
    case 2 => EncodeHexPlain(r.operationId);
    case 3 => EncodeHexPlain(r.attemptId);
    case 4 => EncodeHexPlain(r.runnable);
    case 5 => EncodeHexPlain(r.process);
    case 6 => PrintIntPlain(r.state);
    case 7 => EncodeHexPlain(r.startedAt);
    case 8 => EncodeHexPlain(r.endedAt);
    case 9 => PrintIntPlain(r.exitKnown);
    case 10 => PrintIntPlain(r.exitCode);
    case 11 => PrintIntPlain(r.outcome);
    case 12 => PrintIntPlain(r.effects);
    case 13 => PrintIntPlain(r.recoveryRequired);
    case 14 => EncodeHexPlain(r.recoveryTransaction);
    case 15 => EncodeHexPlain(r.recoveryInspect);
    case 16 => EncodeHexPlain(r.recoveryReference);
    case _ => EncodeHexPlain(r.relaunchReference);
  }

  lemma LeadingFieldsPlain(version: Text, r: Record)
    requires Lacks(version, '|') && Lacks(version, NUL)
    ensures Plain(LeadingFields(version, r))
  {
    forall k | 0 <= k < 18
      ensures Lacks(LeadingField(version, r, k), '|') && Lacks(LeadingField(version, r, k), NUL)
    {
      LeadingFieldPlain(version, r, k);
    }
  }

  lemma FieldsPlain(r: Record)
    ensures Plain(Fields(r))
  {
    LeadingFieldsPlain(VERSION_2, r);
    PrintIntPlain(r.commitOrder);
  }

  lemma VersionsDiffer()
    ensures VERSION_1 != VERSION_2
  {}

  lemma FieldsParse(f: seq<Text>, r: Record)
    requires DecodesTo(f, r)
    ensures |f| == 18 && f[0] == VERSION_1 ==> ParseFields(f) == Ok(r.(commitOrder := 0))
    ensures |f| == 19 && f[0] == VERSION_2 && LongAt(f, 18, r.commitOrder) && r.commitOrder > 0 ==>
              ParseFields(f) == Ok(r)
  {
    DecodesToDecodes(f, r);
    VersionsDiffer();
  }

  lemma FieldsVersion(r: Record)
    ensures var f := Fields(r); |f| == 19 && f[0] == VERSION_2 && f[18] == PrintInt(r.commitOrder)
  {}

  lemma FieldsRoundTrip(r: Record)
    requires Fits(r) && r.commitOrder > 0
    ensures ParseFields(Fields(r)) == Ok(r)
  {
    var f, leading := Fields(r), LeadingFields(VERSION_2, r);
    LeadingFieldsEncoded(VERSION_2, r);
    EncodedDecodes(leading, r);
    DecodesToPrefix(leading, [PrintInt(r.commitOrder)], r);
    FieldsVersion(r);
    LongFieldDecodes(f, 18, r.commitOrder);
    FieldsParse(f, r);
  }

  lemma ParseSerializeWith(sum: ChecksumFunction, r: Record)
    requires Fits(r) && r.commitOrder > 0
    ensures ParseWith(sum, SerializeWith(sum, r)) == Ok(r)
  {
    FieldsPlain(r);
    UnsealFields(sum, Fields(r));
    FieldsRoundTrip(r);
  }

  /** Parsing what was printed gives back the same record. */
  lemma ParseSerialize(r: Record)
    requires Fits(r) && r.commitOrder > 0
    ensures Parse(Serialize(r)) == Ok(r)
  {
    ParseSerializeWith(Crc32.Value, r);
  }

  lemma LegacyFieldsRoundTrip(r: Record)
    requires Fits(r)
    ensures ParseFields(LeadingFields(VERSION_1, r)) == Ok(r.(commitOrder := 0))
  {
    LeadingFieldsEncoded(VERSION_1, r);
    EncodedDecodes(LeadingFields(VERSION_1, r), r);
    FieldsParse(LeadingFields(VERSION_1, r), r);
  }

  lemma ParseSerializeLegacyWith(sum: ChecksumFunction, r: Record)
    requires Fits(r)
    ensures ParseWith(sum, SerializeLegacyWith(sum, r)) == Ok(r.(commitOrder := 0))
  {
    var f := LeadingFields(VERSION_1, r);
    LeadingFieldsPlain(VERSION_1, r);
    UnsealFields(sum, f);
    LegacyFieldsRoundTrip(r);
  }

  /** The legacy layout parses to the same record with no commit order. */
  lemma ParseSerializeLegacy(r: Record)
    requires Fits(r)
    ensures Parse(SerializeLegacy(r)) == Ok(r.(commitOrder := 0))
  {
    ParseSerializeLegacyWith(Crc32.Value, r);
  }
}
