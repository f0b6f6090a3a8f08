/** The record file as the C code handles it: printed into a growing buffer, parsed by overwriting separators. */
module DiskBuffer {
  import opened Bytes
  import opened FieldCodec
  import opened Recognisers
  import opened SessionRecord
  import opened DiskRecord
  import opened DiskDamage
  import opened TextBuilder
  import Crc32

  // ----- printing -----

  /** The printed form of the first `k` fields, each closed by a bar. */
  function Closed(f: seq<Text>): Text {
    if f == [] then [] else Closed(f[..|f| - 1]) + f[|f| - 1] + ['|']
  }

  lemma {:induction false} ClosedIsJoin(f: seq<Text>)
    requires f != []
    ensures Closed(f) == Join(f, '|') + ['|']
    decreases |f|
  {
    if |f| == 1 {
      assert f[..0] == [];
    } else {
      var init := f[..|f| - 1];
      ClosedIsJoin(init);
      assert f == init + [f[|f| - 1]];
      JoinConcat(init, [f[|f| - 1]], '|');
    }
  }

  lemma ClosedSnoc(f: seq<Text>, field: Text)
    ensures Closed(f + [field]) == Closed(f) + field + ['|']
  {}

  method AppendLeadingField(output: Builder, r: Record, k: nat) returns (ok: bool)
    requires output.Valid() && k < 18
    modifies output, output.data
    ensures output.Readable()
    ensures ok ==> output.Valid() && output.Contents() == old(output.Contents()) + LeadingField(VERSION_2, r, k)
    ensures output.data == old(output.data) || fresh(output.data)
    ensures output.Excused(ok, LeadingField(VERSION_2, r, k))
  {
    match k
    case 0 => ok := output.Append(VERSION_2);
    case 1 => ok := output.AppendHex(r.sessionId);
    case 2 => ok := output.AppendHex(r.operationId);
    case 3 => ok := output.AppendHex(r.attemptId);
    case 4 => ok := output.AppendHex(r.runnable);
    case 5 => ok := output.AppendHex(r.process);
    case 6 => ok := output.AppendInteger(r.state);
    case 7 => ok := output.AppendHex(r.startedAt);
    case 8 => ok := output.AppendHex(r.endedAt);
    case 9 => ok := output.AppendInteger(r.exitKnown);
    case 10 => ok := output.AppendInteger(r.exitCode);
    case 11 => ok := output.AppendInteger(r.outcome);
    case 12 => ok := output.AppendInteger(r.effects);
    case 13 => ok := output.AppendInteger(r.recoveryRequired);
    case 14 => ok := output.AppendHex(r.recoveryTransaction);
    case 15 => ok := output.AppendHex(r.recoveryInspect);
    case 16 => ok := output.AppendHex(r.recoveryReference);
    case _ => ok := output.AppendHex(r.relaunchReference);
  }

  method AppendClosedField(output: Builder, r: Record, k: nat) returns (ok: bool)
    requires output.Valid() && k < 18
    modifies output, output.data
    ensures output.Readable()
    ensures ok ==> output.Valid() && output.Contents() == old(output.Contents()) + LeadingField(VERSION_2, r, k) + ['|']
    ensures output.data == old(output.data) || fresh(output.data)
    ensures output.Excused(ok, LeadingField(VERSION_2, r, k) + ['|'])
  {
    ok := AppendLeadingField(output, r, k);
    if ok {
      ok := output.Append(['|']);
    }
  }

  lemma ClosedPrefix(f: seq<Text>, k: nat)
    requires k < |f|
    ensures Closed(f[..k + 1]) == Closed(f[..k]) + f[k] + ['|']
    ensures |Closed(f[..k + 1])| <= |Closed(f)|
  {
    assert f[..k + 1] == f[..k] + [f[k]];
    ClosedSnoc(f[..k], f[k]);
    ClosedShorter(f, k + 1);
  }

  lemma {:induction false} ClosedShorter(f: seq<Text>, k: nat)
    requires k <= |f|
    ensures |Closed(f[..k])| <= |Closed(f)|
    decreases |f|
  {
    if k < |f| {
      var n := |f| - 1;
      assert f == f[..n] + [f[n]] && f[..n][..k] == f[..k];
      ClosedSnoc(f[..n], f[n]);
      ClosedShorter(f[..n], k);
    } else {
      assert f[..k] == f;
    }
  }

  /** The eighteen fields before the order, each closed by a bar. */
  method AppendLeadingFields(output: Builder, r: Record) returns (ok: bool)
    requires output.Valid() && output.Contents() == []
    modifies output, output.data
    ensures output.Readable()
    ensures ok ==> output.Valid() && output.Contents() == Closed(LeadingFields(VERSION_2, r))
    ensures output.data == old(output.data) || fresh(output.data)
    ensures output.Excused(ok, Closed(LeadingFields(VERSION_2, r)))
  {
    ghost var f := LeadingFields(VERSION_2, r);
    assert f[..0] == [];
    ok := true;
    for k := 0 to 18
      invariant ok && output.Valid() && output.Contents() == Closed(f[..k])
      invariant output.data == old(output.data) || fresh(output.data)
      invariant output.refusals == old(output.refusals)
    {
      ClosedPrefix(f, k);
      ok := AppendClosedField(output, r, k);
      if !ok {
        return;
      }
    }
    assert f[..18] == f;
  }

  /** The eight digits and the newline behind a body whose checksum is known. */
  method AppendChecksum(output: Builder, ghost sum: ChecksumFunction, checksum: Word32) returns (ok: bool)
    requires output.Valid() && checksum == sum(output.Contents())
    modifies output, output.data
    ensures output.Readable()
    ensures ok ==> output.Valid() && output.Contents() == Seal(sum, old(output.Contents()))
    ensures output.Excused(ok, PrintHex(checksum, 8) + ['\n'])
  {
    var line := PrintHex(checksum, 8) + ['\n'];
    SealIs(sum, output.Contents());
    ok := AppendLine(output, line, Seal(sum, output.Contents()));
  }

  lemma SealIs(sum: ChecksumFunction, body: Text)
    ensures Seal(sum, body) == body + (PrintHex(sum(body), 8) + ['\n'])
  {}

  method AppendLine(output: Builder, line: Text, ghost result: Text) returns (ok: bool)
    requires output.Valid() && result == output.Contents() + line
    modifies output, output.data
    ensures output.Readable()
    ensures ok ==> output.Valid() && output.Contents() == result
    ensures output.Excused(ok, line)
  {
    ok := output.Append(line);
  }

  lemma ClosedFields(r: Record)
    ensures Closed(LeadingFields(VERSION_2, r)) + PrintInt(r.commitOrder) + ['|'] == Join(Fields(r), '|') + ['|']
  {
    ClosedSnoc(LeadingFields(VERSION_2, r), PrintInt(r.commitOrder));
    ClosedIsJoin(Fields(r));
  }

  method AppendOrder(output: Builder, order: Int64) returns (ok: bool)
    requires output.Valid()
    modifies output, output.data
    ensures output.Readable()
    ensures ok ==> output.Valid() && output.Contents() == old(output.Contents()) + PrintInt(order) + ['|']
    ensures output.data == old(output.data) || fresh(output.data)
    ensures output.Excused(ok, PrintInt(order) + ['|'])
  {
    ok := output.AppendInteger(order);
    if ok {
      ok := output.Append(['|']);
    }
  }

  method AppendBody(output: Builder, r: Record) returns (ok: bool)
    requires output.Valid() && output.Contents() == []
    modifies output, output.data
    ensures output.Readable()
    ensures ok ==> output.Valid() && r.commitOrder > 0 && output.Contents() == Join(Fields(r), '|') + ['|']
    ensures output.data == old(output.data) || fresh(output.data)
    ensures r.commitOrder > 0 ==> output.Excused(ok, Join(Fields(r), '|') + ['|'])
    ensures output.refusals >= old(output.refusals) && (ok ==> output.refusals == old(output.refusals))
  {
    ClosedFields(r);
    ok := AppendLeadingFields(output, r);
    if !ok || r.commitOrder <= 0 {
      return false;
    }
    ok := AppendOrder(output, r.commitOrder);
  }

  /** ulk_serialize_record: refuses a record without an order, and gives up only when memory does. */
  method SerializeInto(output: Builder, r: Record) returns (ok: bool)
    requires output.Valid() && output.Contents() == []
    modifies output, output.data
    ensures output.Readable()
    ensures ok ==> r.commitOrder > 0 && output.Contents() == Serialize(r)
    ensures ok ==> output.refusals == old(output.refusals)
    ensures !ok ==> r.commitOrder <= 0 || output.refusals > old(output.refusals) || |Serialize(r)| >= SIZE_MAX
  {
    ghost var body := Join(Fields(r), '|') + ['|'];
    SealLength(Crc32.Value, body);
    ok := AppendBody(output, r);
    if !ok {
      return;
    }
    var checksum := Crc32.ComputeValue(output.Contents());
    ok := AppendChecksum(output, Crc32.Value, checksum);
  }

  lemma SealLength(sum: ChecksumFunction, body: Text)
    ensures |Seal(sum, body)| == |body| + 9
  {}

  /** A record that fits its buffers and has an order is refused only for want of memory. */
  method SerializeStored(output: Builder, r: Record) returns (ok: bool)
    requires output.Valid() && output.Contents() == [] && Fits(r)
    modifies output, output.data
    ensures output.Readable()
    ensures ok <==> r.commitOrder > 0 && output.refusals == old(output.refusals)
    ensures ok ==> output.Contents() == Serialize(r)
  {
    SerializedFits(r);
    ok := SerializeInto(output, r);
  }

  // ----- parsing in place -----

  /** strlen from `start`. */
  method StringLength(text: array<Byte>, start: nat) returns (length: nat)
    requires start < text.Length && text[text.Length - 1] == NUL
    ensures start + length < text.Length && text[start + length] == NUL
    ensures text[start..start + length] == CString(text[start..])
  {
    length := 0;
    while text[start + length] != NUL
      invariant start + length < text.Length
      invariant Lacks(text[start..start + length], NUL)
      decreases text.Length - length
    {
      length := length + 1;
    }
    assert text[start..][..length] == text[start..start + length];
    CStringIs(text[start..], length);
  }

  /** strrchr over the string at the start of the buffer. */
  method FindLastBar(text: array<Byte>, length: nat) returns (bar: Option<nat>)
    requires length <= text.Length
    ensures bar == LastIndex(text[..length], '|')
  {
    bar := None;
    for index := 0 to length
      invariant bar.None? ==> Lacks(text[..index], '|')
      invariant bar.Some? ==> bar.value < index && text[bar.value] == '|' && Lacks(text[bar.value + 1..index], '|')
    {
      if text[index] == '|' {
        bar := Some(index);
      }
    }
    if bar.Some? {
      assert text[..length][bar.value + 1..] == text[bar.value + 1..length];
      LastIndexIs(text[..length], '|', bar.value);
    }
  }

  /** The C string at `start` is `field`. */
  ghost predicate FieldAt(t: Text, start: nat, field: Text) {
    && start + |field| < |t| && t[start..start + |field|] == field && t[start + |field|] == NUL
    && Lacks(field, NUL)
  }

  lemma FieldRead(t: Text, start: nat, field: Text)
    requires FieldAt(t, start, field)
    ensures CString(t[start..]) == field
  {
    assert t[start..][..|field|] == field;
    CStringIs(t[start..], |field|);
  }

  /** The open field runs from `start` to the cursor. */
  ghost predicate OpenAt(t: Text, start: nat, field: Text, index: nat) {
    start + |field| == index <= |t| && t[start..index] == field && Lacks(field, NUL)
  }

  /** Progress of the splitting loop: every piece but the last is terminated, the last ends at the cursor. */
  ghost predicate SplitState(t: Text, s: seq<Text>, index: nat, starts: seq<nat>) {
    && |starts| == |s| >= 1
    && (forall k :: 0 <= k < |s| - 1 ==> starts[k] + |s[k]| < index && FieldAt(t, starts[k], s[k]))
    && OpenAt(t, starts[|s| - 1], s[|s| - 1], index)
  }

  lemma CloseField(t: Text, s: seq<Text>, index: nat, starts: seq<nat>)
    requires index < |t| && SplitState(t, s, index, starts)
    ensures SplitState(t[index := NUL], s + [[]], index + 1, starts + [index + 1])
  {}

  lemma ExtendField(t: Text, s: seq<Text>, index: nat, starts: seq<nat>)
    requires index < |t| && t[index] != NUL && SplitState(t, s, index, starts)
    ensures SplitState(t, s[..|s| - 1] + [s[|s| - 1] + [t[index]]], index + 1, starts)
  {}

  /** Each start leads to its piece. */
  ghost predicate FieldsAre(t: Text, starts: seq<nat>, pieces: seq<Text>) {
    |starts| == |pieces| && forall k :: 0 <= k < |starts| ==> starts[k] < |t| && CString(t[starts[k]..]) == pieces[k]
  }

  lemma FieldsRead(t: Text, s: seq<Text>, index: nat, starts: seq<nat>)
    requires index < |t| && t[index] == NUL && SplitState(t, s, index, starts)
    ensures FieldsAre(t, starts, s)
  {
    assert FieldAt(t, starts[|s| - 1], s[|s| - 1]);
    forall k | 0 <= k < |starts|
      ensures starts[k] < |t| && CString(t[starts[k]..]) == s[k]
    {
      FieldRead(t, starts[k], s[k]);
    }
  }

  /** Where the splitting loop stands after reading `index` bytes of `inner`. */
  ghost predicate Splitting(t: Text, inner: Text, index: nat, fields: seq<nat>) {
    && index <= |inner| < |t| && t[|inner|] == NUL && Lacks(inner, NUL)
    && (forall k :: index <= k < |inner| ==> t[k] == inner[k])
    && SplitState(t, Split(inner[..index], '|'), index, fields)
  }

  lemma SplittingBar(t: Text, inner: Text, index: nat, fields: seq<nat>)
    requires Splitting(t, inner, index, fields) && index < |inner| && t[index] == '|'
    ensures Splitting(t[index := NUL], inner, index + 1, fields + [index + 1])
    ensures |fields| < |Split(inner, '|')|
  {
    ScanStep(inner, '|', index);
    CloseField(t, Split(inner[..index], '|'), index, fields);
  }

  lemma SplittingOther(t: Text, inner: Text, index: nat, fields: seq<nat>)
    requires Splitting(t, inner, index, fields) && index < |inner| && t[index] != '|'
    ensures Splitting(t, inner, index + 1, fields)
  {
    ScanStep(inner, '|', index);
    ExtendField(t, Split(inner[..index], '|'), index, fields);
  }

  lemma SplittingAtEnd(t: Text, inner: Text, index: nat, fields: seq<nat>)
    requires Splitting(t, inner, index, fields) && t[index] == NUL
    ensures index == |inner|
  {}

  lemma SplittingDone(t: Text, inner: Text, fields: seq<nat>)
    requires Splitting(t, inner, |inner|, fields)
    ensures FieldsAre(t, fields, Split(inner, '|'))
  {
    assert inner[..|inner|] == inner;
    FieldsRead(t, Split(inner, '|'), |inner|, fields);
  }

  /** The splitting loop: separators become terminators, field starts are remembered, a twenty-first is refused. */
  method SplitInPlace(text: array<Byte>, length: nat) returns (starts: Option<seq<nat>>)
    requires length < text.Length && text[length] == NUL && Lacks(text[..length], NUL)
    modifies text
    ensures var pieces := Split(old(text[..length]), '|');
            if |pieces| > 20 then starts.None?
            else starts.Some? && FieldsAre(text[..], starts.value, pieces)
  {
    ghost var inner := text[..length];
    var fields: seq<nat>, index: nat := [0], 0;
    assert inner[..0] == [];
    while text[index] != NUL
      invariant Splitting(text[..], inner, index, fields) && |fields| <= 20
      decreases length - index
    {
      if text[index] == '|' {
        SplittingBar(text[..], inner, index, fields);
        ghost var before := text[..];
        text[index] := NUL;
        assert text[..] == before[index := NUL];
        if |fields| >= 20 {
          return None;
        }
        fields := fields + [index + 1];
      } else {
        SplittingOther(text[..], inner, index, fields);
      }
      index := index + 1;
    }
    SplittingAtEnd(text[..], inner, index, fields);
    SplittingDone(text[..], inner, fields);
    return Some(fields);
  }

  /** The final newline becomes a terminator; what is left is a C string. */
  method TerminateLine(text: array<Byte>, size: nat) returns (length: nat)
    requires text.Length == size + 1 && text[size] == NUL && size >= 2
    modifies text
    ensures length <= size - 1 && text[length] == NUL && text[..length] == CString(old(text[..size - 1]))
  {
    ghost var file := text[..size];
    text[size - 1] := NUL;
    assert text[..size - 1] == file[..size - 1];
    length := StringLength(text, 0);
    TerminatedString(text[..], file, length);
  }

  /** The last bar, if what follows it is the checksum of everything up to it; it becomes a terminator. */
  method CheckLine(sum: ChecksumFunction, text: array<Byte>, length: nat) returns (bar: Option<nat>)
    requires length < text.Length
    modifies text
    ensures bar.None? ==> CheckedBody(sum, old(text[..length])).None?
    ensures bar.Some? ==> bar.value < length && text[bar.value] == NUL &&
                          CheckedBody(sum, old(text[..length])) == Some(text[..bar.value])
  {
    ghost var line := text[..length];
    bar := FindLastBar(text, length);
    if bar.None? || length - (bar.value + 1) != 8 {
      return None;
    }
    var tail, head := text[bar.value + 1..length], text[..bar.value + 1];
    assert line[bar.value + 1..] == tail && line[..bar.value + 1] == head;
    if ParseWord(tail) != Some(sum(head)) {
      return None;
    }
    text[bar.value] := NUL;
    assert text[..bar.value] == line[..bar.value];
  }

  lemma ParseLine(sum: ChecksumFunction, file: Text)
    ensures ParseWith(sum, file) ==
            if |file| < 2 || file[|file| - 1] != '\n' then Corrupt
            else
              match CheckedBody(sum, CString(file[..|file| - 1]))
              case None => Corrupt
              case Some(body) => ParseFields(Split(body, '|'))
  {}

  /** From the raw buffer to a terminated, checked body. */
  method CheckInPlace(sum: ChecksumFunction, text: array<Byte>, size: nat) returns (bar: Option<nat>)
    requires text.Length == size + 1 && text[size] == NUL
    modifies text
    ensures bar.None? ==> ParseWith(sum, old(text[..size])) == Corrupt
    ensures bar.Some? ==>
              && bar.value < text.Length && text[bar.value] == NUL && Lacks(text[..bar.value], NUL)
              && ParseWith(sum, old(text[..size])) == ParseFields(Split(text[..bar.value], '|'))
  {
    ghost var file := text[..size];
    ParseLine(sum, file);
    if size < 2 || text[size - 1] != '\n' {
      return None;
    }
    assert file[..|file| - 1] == text[..size - 1];
    var length := TerminateLine(text, size);
    ghost var line := text[..length];
    bar := CheckLine(sum, text, length);
    if bar.Some? {
      BodyIsPrefix(sum, line);
    }
  }

  lemma BodyIsPrefix(sum: ChecksumFunction, line: Text)
    requires Lacks(line, NUL) && CheckedBody(sum, line).Some?
    ensures Lacks(CheckedBody(sum, line).value, NUL)
  {}

  function FieldStrings(text: array<Byte>, starts: seq<nat>): (f: seq<Text>)
    requires forall k :: 0 <= k < |starts| ==> starts[k] < text.Length
    reads text
    ensures |f| == |starts|
    ensures forall k :: 0 <= k < |f| ==> f[k] == CString(text[starts[k]..])
  {
    if starts == [] then [] else [CString(text[starts[0]..])] + FieldStrings(text, starts[1..])
  }

  /** ulk_parse_record, on a buffer that holds the file and one terminator more. */
  method ParseInPlace(text: array<Byte>, size: nat) returns (parsed: Parsed)
    requires text.Length == size + 1 && text[size] == NUL
    modifies text
    ensures parsed == Parse(old(text[..size]))
  {
    var bar := CheckInPlace(Crc32.Value, text, size);
    if bar.None? {
      return Corrupt;
    }
    ghost var pieces := Split(text[..bar.value], '|');
    var starts := SplitInPlace(text, bar.value);
    if starts.None? {
      return Corrupt;
    }
    var fields := FieldStrings(text, starts.value);
    assert forall k :: 0 <= k < |fields| ==> text[starts.value[k]..] == text[..][starts.value[k]..];
    assert fields == pieces;
    parsed := ParseFields(fields);
  }

  lemma TerminatedString(t: Text, file: Text, length: nat)
    requires |t| == |file| + 1 && |file| >= 1 && t[|file| - 1] == NUL && t[..|file| - 1] == file[..|file| - 1]
    requires length < |t| && t[..length] == CString(t[0..])
    ensures t[..length] == CString(file[..|file| - 1])
  {}
}
