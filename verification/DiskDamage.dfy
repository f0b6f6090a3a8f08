/** What damage to a record file the reader is certain to notice, and how long a file can be. */
module DiskDamage {
  import opened Bytes
  import opened FieldCodec
  import opened SessionRecord
  import opened DiskRecord
  import Crc32

  // ----- size -----

  lemma {:induction false} JoinLength(f: seq<Text>)
    requires |f| >= 1 && forall k :: 0 <= k < |f| ==> |f[k]| <= 256
    ensures |Join(f, '|')| <= 257 * |f|
  {
    if |f| > 1 {
      JoinLength(f[1..]);
    }
  }

  lemma FieldLength(r: Record, k: nat)
    requires Fits(r) && k < 18
    ensures |LeadingField(VERSION_2, r, k)| <= if k == 4 then 8192 else if k == 5 then 2048 else 256
  {
    PrintIntLength(r.state);
    PrintIntLength(r.exitKnown);
    PrintIntLength(r.exitCode);
    PrintIntLength(r.outcome);
    PrintIntLength(r.effects);
    PrintIntLength(r.recoveryRequired);
  }

  /** Every file the journal writes is within the limit its own reader enforces. */
  lemma SerializedFits(r: Record)
    requires Fits(r)
    ensures |Serialize(r)| <= MAX_FILE_BYTES
  {
    var f := Fields(r);
    forall k | 0 <= k < 18
      ensures |f[k]| <= if k == 4 then 8192 else if k == 5 then 2048 else 256
    {
      FieldLength(r, k);
    }
    PrintIntLength(r.commitOrder);
    assert f == f[..4] + ([f[4]] + ([f[5]] + f[6..]));
    JoinConcat(f[..4], [f[4]] + ([f[5]] + f[6..]), '|');
    JoinConcat([f[4]], [f[5]] + f[6..], '|');
    JoinConcat([f[5]], f[6..], '|');
    JoinLength(f[..4]);
    JoinLength(f[6..]);
  }

  // ----- damage -----

  /** A sealed file taken apart: `inner`, a bar, eight digits, a newline. */
  function Sealed(inner: Text, hex: Text): Text {
    inner + ['|'] + hex + ['\n']
  }

  ghost predicate IsSealed(sum: ChecksumFunction, inner: Text, hex: Text) {
    Lacks(inner, NUL) && hex == PrintHex(sum(inner + ['|']), 8)
  }

  lemma NoNewlineIsCorrupt(sum: ChecksumFunction, file: Text)
    requires file != [] && file[|file| - 1] != '\n'
    ensures ParseWith(sum, file) == Corrupt
  {}

  /** With a NUL-free text, reading is a matter of the last bar and what surrounds it. */
  lemma ReadAt(sum: ChecksumFunction, text: Text, bar: nat)
    requires Lacks(text, NUL) && bar < |text| && text[bar] == '|' && Lacks(text[bar + 1..], '|')
    ensures var tail := text[bar + 1..];
            ParseWith(sum, text + ['\n']) ==
            if |tail| == 8 && ParseWord(tail) == Some(sum(text[..bar + 1])) then ParseFields(Split(text[..bar], '|'))
            else Corrupt
  {
    ReadLine(sum, text);
    LastIndexIs(text, '|', bar);
  }

  lemma ReadLine(sum: ChecksumFunction, text: Text)
    requires Lacks(text, NUL) && text != []
    ensures ParseWith(sum, text + ['\n']) ==
            match CheckedBody(sum, text) case None => Corrupt case Some(inner) => ParseFields(Split(inner, '|'))
  {
    assert (text + ['\n'])[..|text|] == text;
    CStringWhole(text);
  }

  lemma ReadSealed(sum: ChecksumFunction, inner: Text, tail: Text)
    requires Lacks(inner, NUL) && Lacks(tail, NUL) && Lacks(tail, '|') && |tail| == 8
    ensures ParseWith(sum, Sealed(inner, tail)) ==
            if ParseWord(tail) == Some(sum(inner + ['|'])) then ParseFields(Split(inner, '|')) else Corrupt
  {
    var text := inner + ['|'] + tail;
    assert text[|inner| + 1..] == tail && text[..|inner| + 1] == inner + ['|'] && text[..|inner|] == inner;
    ReadAt(sum, text, |inner|);
  }

  lemma BodySumsDiffer(sum: ChecksumFunction, inner: Text, damaged: Text, at: nat, width: nat)
    requires Crc32.DetectsBursts(sum)
    requires Crc32.DifferWithin(inner, damaged, at, width) && width <= 4 && damaged != inner
    ensures sum(inner + ['|']) != sum(damaged + ['|'])
  {
    var body, body' := inner + ['|'], damaged + ['|'];
    assert body[..|inner|] == inner && body'[..|inner|] == damaged;
    assert Crc32.DifferWithin(body, body', at, width);
  }

  /** Up to four neighbouring bytes of the body changed, none of them to NUL. */
  lemma BodyDamage(sum: ChecksumFunction, inner: Text, hex: Text, damaged: Text, at: nat, width: nat)
    requires Crc32.DetectsBursts(sum) && IsSealed(sum, inner, hex)
    requires Crc32.DifferWithin(inner, damaged, at, width) && width <= 4 && damaged != inner && Lacks(damaged, NUL)
    ensures ParseWith(sum, Sealed(damaged, hex)) == Corrupt
  {
    BodySumsDiffer(sum, inner, damaged, at, width);
    PrintHexPlain(sum(inner + ['|']));
    ParsePrintWord(sum(inner + ['|']));
    ReadSealed(sum, damaged, hex);
  }

  /** The last bar overwritten: whatever bar comes before it is too far from the end. */
  lemma BarDamage(sum: ChecksumFunction, inner: Text, hex: Text, c: Byte)
    requires IsSealed(sum, inner, hex) && c != '|' && c != NUL
    ensures ParseWith(sum, inner + [c] + hex + ['\n']) == Corrupt
  {
    var text := inner + [c] + hex;
    PrintHexPlain(sum(inner + ['|']));
    assert (text + ['\n'])[..|text|] == text;
    CStringWhole(text);
    var bar := LastIndex(text, '|');
    if bar.Some? {
      assert text[bar.value] == '|';
      assert bar.value < |inner|;
    }
  }

  /** One checksum digit changed: it is a bar, or no longer spells the checksum, or spells it another way. */
  lemma DigitDamage(sum: ChecksumFunction, inner: Text, hex: Text, k: nat, c: Byte)
    requires IsSealed(sum, inner, hex) && k < 8 && c != NUL
    ensures ParseWith(sum, Sealed(inner, hex[k := c])) in {Corrupt, ParseFields(Split(inner, '|'))}
  {
    var tail := hex[k := c];
    PrintHexPlain(sum(inner + ['|']));
    if c == '|' {
      var text := inner + ['|'] + tail;
      assert text[|inner| + 1 + k + 1..] == hex[k + 1..];
      ReadAt(sum, text, |inner| + 1 + k);
    } else {
      ReadSealed(sum, inner, tail);
    }
  }

  lemma ReadCut(sum: ChecksumFunction, file: Text, at: nat)
    requires at + 1 < |file| && file[at] == NUL && Lacks(file[..at], NUL) && file[|file| - 1] == '\n'
    ensures ParseWith(sum, file) ==
            match CheckedBody(sum, file[..at]) case None => Corrupt case Some(inner) => ParseFields(Split(inner, '|'))
  {
    assert file[..|file| - 1][..at] == file[..at];
    CStringIs(file[..|file| - 1], at);
  }

  lemma CutBody(sum: ChecksumFunction, inner: Text, hex: Text, at: nat)
    requires |hex| == 8 && Lacks(hex, '|') && at < |inner| + 9
    ensures var r := CheckedBody(sum, (inner + ['|'] + hex)[..at]);
            r.Some? ==> |r.value| < |inner| && inner[|r.value|] == '|' && r.value == inner[..|r.value|]
  {}

  lemma TooFewFields(f: seq<Text>, g: seq<Text>)
    requires |f| == 19 && f[0] == VERSION_2 && |g| >= 1 && g < f
    ensures ParseFields(g) == Corrupt
  {}

  /** A NUL hides the rest of the text, so some field is always missing. */
  lemma NulDamage(sum: ChecksumFunction, f: seq<Text>, hex: Text, at: nat)
    requires |f| == 19 && f[0] == VERSION_2 && Plain(f)
    requires IsSealed(sum, Join(f, '|'), hex) && at < |Join(f, '|')| + 9
    ensures ParseWith(sum, Sealed(Join(f, '|'), hex)[at := NUL]) == Corrupt
  {
    var inner := Join(f, '|');
    var whole := inner + ['|'] + hex;
    var file := Sealed(inner, hex)[at := NUL];
    PrintHexPlain(sum(inner + ['|']));
    assert file[..at] == whole[..at];
    ReadCut(sum, file, at);
    CutBody(sum, inner, hex, at);
    var body := CheckedBody(sum, whole[..at]);
    if body.Some? {
      ShorterSplit(f, |body.value|);
      TooFewFields(f, Split(body.value, '|'));
    }
  }

  /** Cutting the fields at one of their bars leaves a proper prefix of them. */
  lemma ShorterSplit(f: seq<Text>, bar: nat)
    requires |f| >= 1 && Plain(f) && bar < |Join(f, '|')| && Join(f, '|')[bar] == '|'
    ensures Split(Join(f, '|')[..bar], '|') < f
  {
    var inner := Join(f, '|');
    assert inner == inner[..bar] + ['|'] + inner[bar + 1..];
    SplitAround(inner[..bar], inner[bar + 1..], '|');
    SplitJoin(f, '|');
  }

  lemma SealedUpdate(inner: Text, hex: Text, at: nat, c: Byte)
    requires |hex| == 8 && at < |inner| + 9
    ensures Sealed(inner, hex)[at := c] ==
            if at < |inner| then Sealed(inner[at := c], hex)
            else if at == |inner| then inner + [c] + hex + ['\n']
            else Sealed(inner, hex[at - |inner| - 1 := c])
  {}

  lemma SealedByteDamage(sum: ChecksumFunction, f: seq<Text>, hex: Text, at: nat, c: Byte)
    requires Crc32.DetectsBursts(sum) && |f| == 19 && f[0] == VERSION_2 && Plain(f)
    requires IsSealed(sum, Join(f, '|'), hex) && at < |Join(f, '|')| + 10 && Sealed(Join(f, '|'), hex)[at] != c
    ensures ParseWith(sum, Sealed(Join(f, '|'), hex)[at := c]) in {Corrupt, ParseFields(f)}
  {
    var inner := Join(f, '|');
    if at == |inner| + 9 {
      NoNewlineIsCorrupt(sum, Sealed(inner, hex)[at := c]);
    } else if c == NUL {
      NulDamage(sum, f, hex, at);
    } else {
      SealedUpdate(inner, hex, at, c);
      if at < |inner| {
        BodyDamage(sum, inner, hex, inner[at := c], at, 1);
      } else if at == |inner| {
        BarDamage(sum, inner, hex, c);
      } else {
        DigitDamage(sum, inner, hex, at - |inner| - 1, c);
        SplitJoin(f, '|');
      }
    }
  }

  /** Changing one byte of a record file to any other byte is noticed, or changes nothing that is read. */
  lemma ByteDamageWith(sum: ChecksumFunction, r: Record, at: nat, c: Byte)
    requires Crc32.DetectsBursts(sum) && Fits(r) && r.commitOrder > 0 && at < |SerializeWith(sum, r)|
    ensures ParseWith(sum, SerializeWith(sum, r)[at := c]) in {Corrupt, Ok(r)}
  {
    var file := SerializeWith(sum, r);
    if file[at] == c {
      assert file[at := c] == file;
      ParseSerializeWith(sum, r);
    } else {
      FieldsPlain(r);
      FieldsVersion(r);
      JoinPlain(Fields(r));
      SealedByteDamage(sum, Fields(r), PrintHex(sum(Join(Fields(r), '|') + ['|']), 8), at, c);
      FieldsRoundTrip(r);
    }
  }

  lemma ByteDamage(r: Record, at: nat, c: Byte)
    requires Fits(r) && r.commitOrder > 0 && at < |Serialize(r)|
    ensures Parse(Serialize(r)[at := c]) in {Corrupt, Ok(r)}
  {
    Crc32.BurstsDetected();
    ByteDamageWith(Crc32.Value, r, at, c);
  }

  /** Damage to up to four neighbouring bytes before the last bar, introducing no NUL, is always noticed. */
  lemma BurstDamage(r: Record, damaged: Text, at: nat, width: nat)
    requires Fits(r) && r.commitOrder > 0 && width <= 4 && at + width <= |Serialize(r)| - 10
    requires Crc32.DifferWithin(Serialize(r), damaged, at, width) && damaged != Serialize(r) && Lacks(damaged, NUL)
    ensures Parse(damaged) == Corrupt
  {
    Crc32.BurstsDetected();
    BurstDamageWith(Crc32.Value, r, damaged, at, width);
  }

  lemma BurstDamageWith(sum: ChecksumFunction, r: Record, damaged: Text, at: nat, width: nat)
    requires Crc32.DetectsBursts(sum) && Fits(r) && width <= 4 && at + width <= |SerializeWith(sum, r)| - 10
    requires Crc32.DifferWithin(SerializeWith(sum, r), damaged, at, width)
    requires damaged != SerializeWith(sum, r) && Lacks(damaged, NUL)
    ensures ParseWith(sum, damaged) == Corrupt
  {
    var inner := Join(Fields(r), '|');
    FieldsPlain(r);
    JoinPlain(Fields(r));
    SealedBurst(sum, inner, PrintHex(sum(inner + ['|']), 8), SerializeWith(sum, r), damaged, at, width);
  }

  lemma SealedBurst(sum: ChecksumFunction, inner: Text, hex: Text, file: Text, damaged: Text, at: nat, width: nat)
    requires Crc32.DetectsBursts(sum) && IsSealed(sum, inner, hex) && |hex| == 8 && file == Sealed(inner, hex)
    requires width <= 4 && at + width <= |file| - 10 && Crc32.DifferWithin(file, damaged, at, width)
    requires damaged != file && Lacks(damaged, NUL)
    ensures ParseWith(sum, damaged) == Corrupt
  {
    var inner' := damaged[..|inner|];
    assert damaged == Sealed(inner', hex);
    BodyDamage(sum, inner, hex, inner', at, width);
  }
}
