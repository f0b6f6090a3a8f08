/**
 The flag-and-index scanners of the kernel, each against the grammar it is meant to accept.

 The grammars are stated by splitting at the separator and asking something of every piece; the scanners
 walk the characters once, carrying flags.
 */
module Recognisers {
  import opened Bytes

  predicate IsLower(c: Byte) { 'a' <= c <= 'z' }
  predicate IsUpper(c: Byte) { 'A' <= c <= 'Z' }
  predicate IsDigit(c: Byte) { '0' <= c <= '9' }
  predicate IsAlphanumeric(c: Byte) { IsLower(c) || IsUpper(c) || IsDigit(c) }
  predicate IsIdentifierCharacter(c: Byte) {
    IsAlphanumeric(c) || c == '.' || c == '_' || c == ':' || c == '-'
  }

  // ----- identifiers -----

  /** One to 128 identifier characters, the first alphanumeric. */
  ghost predicate IsIdentifier(t: Text) {
    1 <= |t| <= 128 && IsAlphanumeric(t[0]) && forall i :: 0 <= i < |t| ==> IsIdentifierCharacter(t[i])
  }

  method ScanIdentifier(t: Text) returns (ok: bool)
    ensures ok <==> IsIdentifier(t)
  {
    if |t| == 0 || |t| > 128 || !IsAlphanumeric(t[0]) {
      return false;
    }
    for index := 1 to |t|
      invariant forall i :: 0 <= i < index ==> IsIdentifierCharacter(t[i])
    {
      if !IsIdentifierCharacter(t[index]) {
        return false;
      }
    }
    return true;
  }

  // ----- where the pieces of a split lie -----

  ghost predicate PieceBounds(t: Text, sep: Byte, lo: nat, hi: nat) {
    lo <= hi <= |t| && (lo == 0 || t[lo - 1] == sep) && (hi == |t| || t[hi] == sep) && Lacks(t[lo..hi], sep)
  }

  lemma WholePiece(t: Text, sep: Byte)
    requires Lacks(t, sep)
    ensures Split(t, sep) == [t]
  {}

  lemma LastPiece(before: Text, t: Text, sep: Byte)
    requires Lacks(t, sep)
    ensures t in Split(before + [sep] + t, sep)
  {
    SplitAround(before, t, sep);
    WholePiece(t, sep);
    var s := Split(before, sep) + [t];
    assert s[|s| - 1] == t;
  }

  lemma PieceStays(piece: Text, t: Text, after: Text, sep: Byte)
    requires piece in Split(t, sep)
    ensures piece in Split(t + [sep] + after, sep)
  {
    SplitAround(t, after, sep);
  }

  /** A separator-free stretch that cannot be extended is a piece. */
  lemma StretchIsPiece(t: Text, sep: Byte, lo: nat, hi: nat)
    requires PieceBounds(t, sep, lo, hi)
    ensures t[lo..hi] in Split(t, sep)
  {
    if lo > 0 {
      assert t[..hi] == t[..lo - 1] + [sep] + t[lo..hi];
      LastPiece(t[..lo - 1], t[lo..hi], sep);
    } else {
      assert t[..hi] == t[lo..hi];
      WholePiece(t[..hi], sep);
    }
    if hi < |t| {
      assert t == t[..hi] + [sep] + t[hi + 1..];
      PieceStays(t[lo..hi], t[..hi], t[hi + 1..], sep);
    } else {
      assert t == t[..hi];
    }
  }

  lemma BoundsShift(t: Text, sep: Byte, first: Text, lo: nat, hi: nat)
    requires PieceBounds(t, sep, lo, hi)
    ensures var a, whole := |first| + 1, first + [sep] + t;
            PieceBounds(whole, sep, lo + a, hi + a) && whole[lo + a..hi + a] == t[lo..hi]
  {
    var a, whole := |first| + 1, first + [sep] + t;
    assert whole[lo + a..hi + a] == t[lo..hi];
  }

  lemma FirstBounds(first: Text, sep: Byte, rest: Text)
    requires Lacks(first, sep)
    ensures var whole := first + [sep] + rest; PieceBounds(whole, sep, 0, |first|) && whole[0..|first|] == first
  {}

  lemma SplitFirst(t: Text, sep: Byte)
    requires |Split(t, sep)| > 1
    ensures var s := Split(t, sep);
            t == s[0] + [sep] + Join(s[1..], sep) && Split(Join(s[1..], sep), sep) == s[1..]
  {}

  lemma LaterStretch(t: Text, rest: Text, sep: Byte, first: Text, lo: nat, hi: nat) returns (lo': nat, hi': nat)
    requires t == first + [sep] + rest && PieceBounds(rest, sep, lo, hi)
    ensures PieceBounds(t, sep, lo', hi') && t[lo'..hi'] == rest[lo..hi]
  {
    BoundsShift(rest, sep, first, lo, hi);
    lo', hi' := lo + |first| + 1, hi + |first| + 1;
  }

  /** Every piece is such a stretch. */
  lemma {:induction false} PieceIsStretch(t: Text, sep: Byte, k: nat) returns (lo: nat, hi: nat)
    requires k < |Split(t, sep)|
    ensures PieceBounds(t, sep, lo, hi) && t[lo..hi] == Split(t, sep)[k]
    decreases k
  {
    var s := Split(t, sep);
    if |s| == 1 {
      lo, hi := 0, |t|;
    } else {
      SplitFirst(t, sep);
      var rest := Join(s[1..], sep);
      if k == 0 {
        lo, hi := 0, |s[0]|;
        FirstBounds(s[0], sep, rest);
      } else {
        lo, hi := PieceIsStretch(rest, sep, k - 1);
        lo, hi := LaterStretch(t, rest, sep, s[0], lo, hi);
      }
    }
  }

  // ----- relative paths (ulk_product_composition.c) -----

  ghost predicate IsRelativePath(t: Text) {
    t != [] && Lacks(t, NUL) && Lacks(t, '\\') && t[0] != '/' && ".." !in Split(t, '/')
  }

  ghost predicate DotDotAt(t: Text, i: nat) {
    i + 1 < |t| && t[i] == '.' && t[i + 1] == '.' && (i == 0 || t[i - 1] == '/') && (i + 2 == |t| || t[i + 2] == '/')
  }

  lemma DotDotPieceAt(t: Text) returns (i: nat)
    requires ".." in Split(t, '/')
    ensures DotDotAt(t, i)
  {
    var k :| 0 <= k < |Split(t, '/')| && Split(t, '/')[k] == "..";
    var lo, hi := PieceIsStretch(t, '/', k);
    assert t[lo] == t[lo..hi][0] && t[lo + 1] == t[lo..hi][1];
    i := lo;
  }

  lemma DotDotAtIsPiece(t: Text, i: nat)
    requires DotDotAt(t, i)
    ensures ".." in Split(t, '/')
  {
    assert t[i..i + 2] == "..";
    StretchIsPiece(t, '/', i, i + 2);
  }

  method ScanRelativePath(t: Text) returns (ok: bool)
    ensures ok <==> IsRelativePath(t)
  {
    if |t| == 0 {
      return false;
    }
    for index := 0 to |t|
      invariant Lacks(t[..index], NUL)
    {
      if t[index] == NUL {
        return false;
      }
    }
    assert t[..|t|] == t;
    if t[0] == '/' || t[0] == '\\' {
      return false;
    }
    for index := 0 to |t|
      invariant Lacks(t[..index], '\\')
      invariant forall i :: 0 <= i < index ==> !DotDotAt(t, i)
    {
      if t[index] == '\\' {
        return false;
      }
      if t[index] == '.' && index + 1 < |t| && t[index + 1] == '.' && (index == 0 || t[index - 1] == '/') &&
         (index + 2 == |t| || t[index + 2] == '/') {
        DotDotAtIsPiece(t, index);
        return false;
      }
    }
    if ".." in Split(t, '/') {
      ghost var i := DotDotPieceAt(t);
      assert false;
    }
    return true;
  }

  // ----- dotted names -----

  predicate IsNameCharacter(c: Byte) { IsLower(c) || IsDigit(c) || c == '_' }

  /** What is known about the whole text from the split of a prefix: closed pieces stay, the open one may grow. */
  lemma PrefixBefore(s: seq<Text>, c: Byte, sep: Byte, full: seq<Text>)
    requires |s| >= 1
    requires var next := if c == sep then s + [[]] else s[..|s| - 1] + [s[|s| - 1] + [c]];
             IsSplitPrefix(next, full)
    ensures IsSplitPrefix(s, full)
  {}

  /** All pieces but the last are those of the whole, and the last is the beginning of one. */
  ghost predicate IsSplitPrefix(s: seq<Text>, full: seq<Text>) {
    1 <= |s| <= |full| && s[..|s| - 1] == full[..|s| - 1] && s[|s| - 1] <= full[|s| - 1]
  }

  lemma SplitPrefix(t: Text, sep: Byte, k: nat)
    requires k <= |t|
    ensures IsSplitPrefix(Split(t[..k], sep), Split(t, sep))
    decreases |t| - k
  {
    if k < |t| {
      SplitAppend(t[..k], t[k], sep);
      assert t[..k + 1] == t[..k] + [t[k]];
      SplitPrefix(t, sep, k + 1);
      PrefixBefore(Split(t[..k], sep), t[k], sep, Split(t, sep));
    } else {
      assert t[..k] == t;
    }
  }

  /** Appending a character either closes the last piece or extends it. */
  lemma SplitAppend(t: Text, c: Byte, sep: Byte)
    ensures var s := Split(t, sep);
            Split(t + [c], sep) ==
            if c == sep then s + [[]] else s[..|s| - 1] + [s[|s| - 1] + [c]]
  {
    var s := Split(t, sep);
    if c == sep {
      assert t + [c] == t + [sep] + [];
      SplitAround(t, [], sep);
    } else {
      var grown := s[..|s| - 1] + [s[|s| - 1] + [c]];
      JoinExtend(s, c, sep);
      SplitJoin(grown, sep);
    }
  }

  lemma {:induction false} JoinExtend(s: seq<Text>, c: Byte, sep: Byte)
    requires |s| >= 1
    ensures Join(s[..|s| - 1] + [s[|s| - 1] + [c]], sep) == Join(s, sep) + [c]
  {
    var grown := s[..|s| - 1] + [s[|s| - 1] + [c]];
    if |s| > 1 {
      assert grown[1..] == s[1..][..|s| - 2] + [s[1..][|s| - 2] + [c]];
      JoinExtend(s[1..], c, sep);
    }
  }

  /** One step of a scan: how the split of the prefix moves, and what the whole text's split already shows. */
  lemma ScanStep(t: Text, sep: Byte, index: nat)
    requires index < |t|
    ensures var s, next, full := Split(t[..index], sep), Split(t[..index + 1], sep), Split(t, sep);
            if t[index] == sep then
              next == s + [[]] && |s| < |full| && s == full[..|s|]
            else
              var last := s[|s| - 1] + [t[index]];
              next == s[..|s| - 1] + [last] && |s| <= |full| && last <= full[|s| - 1] && last[|last| - 1] == t[index]
  {
    SplitAppend(t[..index], t[index], sep);
    assert t[..index + 1] == t[..index] + [t[index]];
    SplitPrefix(t, sep, index + 1);
  }

  /** Every character that is no separator sits in some piece. */
  lemma CharacterOfPiece(t: Text, sep: Byte, index: nat) returns (k: nat, n: nat)
    requires index < |t| && t[index] != sep
    ensures k < |Split(t, sep)| && n < |Split(t, sep)[k]| && Split(t, sep)[k][n] == t[index]
  {
    ScanStep(t, sep, index);
    var s := Split(t[..index], sep);
    k, n := |s| - 1, |s[|s| - 1]|;
    assert (s[|s| - 1] + [t[index]])[n] == t[index];
  }

  // ----- inspect command names (ulk_operation.c) -----

  ghost predicate IsCommandSegment(t: Text) {
    t != [] && IsLower(t[0]) && forall i :: 0 <= i < |t| ==> IsNameCharacter(t[i])
  }

  ghost predicate AreCommandSegments(s: seq<Text>) {
    forall k :: 0 <= k < |s| ==> IsCommandSegment(s[k])
  }

  /** At least two dot-separated segments, each a lower-case letter followed by name characters. */
  ghost predicate IsCommandName(t: Text) {
    |t| <= 128 && |Split(t, '.')| >= 2 && AreCommandSegments(Split(t, '.'))
  }

  lemma BrokenCommandSegment(t: Text, k: nat, part: Text)
    requires k < |Split(t, '.')| && part <= Split(t, '.')[k] && part != []
    requires !IsLower(part[0]) || !IsNameCharacter(part[|part| - 1])
    ensures !IsCommandName(t)
  {}

  /** The meaning of the two flags: the open segment is empty, and some segment is closed. */
  ghost predicate CommandScan(s: seq<Text>, index: nat, previousWasDot: bool, sawDot: bool) {
    && |s| >= 1 && AreCommandSegments(s[..|s| - 1])
    && (s[|s| - 1] != [] ==> IsCommandSegment(s[|s| - 1]))
    && (s[|s| - 1] == [] <==> index == 0 || previousWasDot)
    && (sawDot <==> |s| >= 2)
  }

  lemma CommandStep(t: Text, index: nat, s: seq<Text>, previousWasDot: bool, sawDot: bool)
    requires index < |t| && s == Split(t[..index], '.') && CommandScan(s, index, previousWasDot, sawDot)
    requires IsLower(t[0])
    ensures var c, next := t[index], Split(t[..index + 1], '.');
            if c == '.' then
              if index == 0 || index + 1 == |t| || previousWasDot then !IsCommandName(t)
              else CommandScan(next, index + 1, true, true)
            else if (previousWasDot && !IsLower(c)) || !IsNameCharacter(c) then !IsCommandName(t)
            else CommandScan(next, index + 1, false, sawDot)
  {
    var c, next := t[index], Split(t[..index + 1], '.');
    ScanStep(t, '.', index);
    if c == '.' {
      CommandDot(t, index, s, previousWasDot, sawDot, next);
    } else if (previousWasDot && !IsLower(c)) || !IsNameCharacter(c) {
      BrokenCommandSegment(t, |s| - 1, s[|s| - 1] + [c]);
    } else {
      CommandLetter(t, index, s, previousWasDot, sawDot, next);
    }
  }

  lemma CommandDot(t: Text, index: nat, s: seq<Text>, previousWasDot: bool, sawDot: bool, next: seq<Text>)
    requires index < |t| && CommandScan(s, index, previousWasDot, sawDot) && t[index] == '.'
    requires next == s + [[]] && next == Split(t[..index + 1], '.')
    requires |s| < |Split(t, '.')| && s == Split(t, '.')[..|s|]
    ensures if index == 0 || index + 1 == |t| || previousWasDot then !IsCommandName(t)
            else CommandScan(next, index + 1, true, true)
  {
    var full := Split(t, '.');
    if index + 1 == |t| {
      assert t[..index + 1] == t;
      assert full[|s|] == [];
    } else if index == 0 || previousWasDot {
      assert full[|s| - 1] == [];
    }
  }

  lemma CommandLetter(t: Text, index: nat, s: seq<Text>, previousWasDot: bool, sawDot: bool, next: seq<Text>)
    requires index < |t| && CommandScan(s, index, previousWasDot, sawDot) && t[index] != '.'
    requires next == s[..|s| - 1] + [s[|s| - 1] + [t[index]]]
    requires (previousWasDot ==> IsLower(t[index])) && IsNameCharacter(t[index]) && IsLower(t[0])
    ensures CommandScan(next, index + 1, false, sawDot)
  {}

  method ScanCommandName(t: Text) returns (ok: bool)
    ensures ok <==> IsCommandName(t)
  {
    if |t| == 0 || |t| > 128 {
      return false;
    }
    if !IsLower(t[0]) {
      ScanStep(t, '.', 0);
      assert t[..0] == [];
      if t[0] != '.' {
        BrokenCommandSegment(t, 0, [t[0]]);
      }
      return false;
    }
    var previousWasDot, sawDot := false, false;
    ghost var s := Split(t[..0], '.');
    for index := 0 to |t|
      invariant s == Split(t[..index], '.') && CommandScan(s, index, previousWasDot, sawDot)
      invariant previousWasDot ==> index < |t|
    {
      var c := t[index];
      CommandStep(t, index, s, previousWasDot, sawDot);
      if c == '.' {
        if index == 0 || index + 1 == |t| || previousWasDot {
          return false;
        }
        previousWasDot, sawDot := true, true;
      } else {
        if (previousWasDot && !IsLower(c)) || !IsNameCharacter(c) {
          return false;
        }
        previousWasDot := false;
      }
      s := Split(t[..index + 1], '.');
    }
    assert t[..|t|] == t;
    return sawDot;
  }

  // ----- registered command ids (ulk_api.c) -----

  const MAX_DESCRIPTOR_TEXT := 4096

  ghost predicate IsText(t: Text) {
    1 <= |t| <= MAX_DESCRIPTOR_TEXT && Lacks(t, NUL)
  }

  ghost predicate IsIdSegment(t: Text) {
    t != [] && forall i :: 0 <= i < |t| ==> IsNameCharacter(t[i])
  }

  ghost predicate AreIdSegments(s: seq<Text>) {
    forall k :: 0 <= k < |s| ==> IsIdSegment(s[k])
  }

  /** Names the frontends map to others and the kernel does not know. */
  predicate IsAlias(t: Text) { t == "instances.list" || t == "diagnostics.report" }

  /** At least two dot-separated non-empty segments of name characters, and not one of the two frontend aliases. */
  ghost predicate IsCanonicalCommandId(t: Text) {
    && |t| <= MAX_DESCRIPTOR_TEXT
    && !IsAlias(t)
    && |Split(t, '.')| >= 2 && AreIdSegments(Split(t, '.'))
  }

  lemma SegmentCharacter(t: Text, i: nat)
    requires AreIdSegments(Split(t, '.')) && i < |t|
    ensures t[i] == '.' || IsNameCharacter(t[i])
  {
    if t[i] != '.' {
      var k, n := CharacterOfPiece(t, '.', i);
      assert IsIdSegment(Split(t, '.')[k]);
    }
  }

  lemma CanonicalIsText(t: Text)
    requires IsCanonicalCommandId(t)
    ensures IsText(t)
  {
    forall i | 0 <= i < |t|
      ensures t[i] != NUL
    {
      SegmentCharacter(t, i);
    }
  }

  method ScanText(t: Text) returns (ok: bool)
    ensures ok <==> IsText(t)
  {
    if |t| == 0 || |t| > MAX_DESCRIPTOR_TEXT {
      return false;
    }
    for index := 0 to |t|
      invariant Lacks(t[..index], NUL)
    {
      if t[index] == NUL {
        return false;
      }
    }
    assert t[..|t|] == t;
    return true;
  }

  ghost predicate IdScan(s: seq<Text>, hasDot: bool, hasSegmentCharacter: bool) {
    && s != [] && AreIdSegments(s[..|s| - 1])
    && (s[|s| - 1] != [] ==> IsIdSegment(s[|s| - 1]))
    && (hasSegmentCharacter <==> s[|s| - 1] != [])
    && (hasDot <==> |s| >= 2)
  }

  lemma IdDot(s: seq<Text>, hasDot: bool)
    requires IdScan(s, hasDot, true)
    ensures IdScan(s + [[]], true, false)
  {}

  lemma IdLetter(s: seq<Text>, c: Byte, hasDot: bool, hasSegmentCharacter: bool)
    requires IdScan(s, hasDot, hasSegmentCharacter) && IsNameCharacter(c)
    ensures IdScan(s[..|s| - 1] + [s[|s| - 1] + [c]], hasDot, true)
  {}

  /** A dot right after a dot, or at the start, leaves an empty segment behind. */
  lemma EmptySegment(t: Text, index: nat)
    requires index < |t| && t[index] == '.'
    requires var s := Split(t[..index], '.'); s[|s| - 1] == []
    ensures !AreIdSegments(Split(t, '.'))
  {
    ScanStep(t, '.', index);
    var s, full := Split(t[..index], '.'), Split(t, '.');
    assert full[|s| - 1] == [];
  }

  lemma BadSegment(t: Text, index: nat)
    requires index < |t| && t[index] != '.' && !IsNameCharacter(t[index])
    ensures !AreIdSegments(Split(t, '.'))
  {
    if AreIdSegments(Split(t, '.')) {
      SegmentCharacter(t, index);
    }
  }

  lemma IdDone(s: seq<Text>, hasDot: bool, hasSegmentCharacter: bool)
    requires IdScan(s, hasDot, hasSegmentCharacter)
    ensures |s| >= 2 && AreIdSegments(s) <==> hasDot && hasSegmentCharacter
  {}

  /** One character of the scan. */
  method ScanIdCharacter(t: Text, index: nat, hasDot: bool, hasSegmentCharacter: bool)
    returns (ok: bool, dot: bool, character: bool)
    requires index < |t| && IdScan(Split(t[..index], '.'), hasDot, hasSegmentCharacter)
    ensures ok ==> IdScan(Split(t[..index + 1], '.'), dot, character)
    ensures !ok ==> !AreIdSegments(Split(t, '.'))
  {
    var c := t[index];
    ghost var s := Split(t[..index], '.');
    if c == '.' {
      if !hasSegmentCharacter {
        EmptySegment(t, index);
        return false, hasDot, hasSegmentCharacter;
      }
      ScanStep(t, '.', index);
      IdDot(s, hasDot);
      return true, true, false;
    }
    if !IsNameCharacter(c) {
      BadSegment(t, index);
      return false, hasDot, hasSegmentCharacter;
    }
    ScanStep(t, '.', index);
    IdLetter(s, c, hasDot, hasSegmentCharacter);
    return true, hasDot, true;
  }

  method ScanSegments(t: Text) returns (ok: bool)
    requires t != []
    ensures ok <==> |Split(t, '.')| >= 2 && AreIdSegments(Split(t, '.'))
  {
    var hasDot, hasSegmentCharacter := false, false;
    for index := 0 to |t|
      invariant IdScan(Split(t[..index], '.'), hasDot, hasSegmentCharacter)
    {
      ok, hasDot, hasSegmentCharacter := ScanIdCharacter(t, index, hasDot, hasSegmentCharacter);
      if !ok {
        return;
      }
    }
    assert t[..|t|] == t;
    IdDone(Split(t, '.'), hasDot, hasSegmentCharacter);
    return hasDot && hasSegmentCharacter;
  }

  method ScanCanonicalCommandId(t: Text) returns (ok: bool)
    ensures ok <==> IsCanonicalCommandId(t)
  {
    var isText := ScanText(t);
    if !isText || IsAlias(t) {
      if IsCanonicalCommandId(t) {
        CanonicalIsText(t);
      }
      return false;
    }
    ok := ScanSegments(t);
  }
}
