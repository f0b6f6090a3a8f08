/** The field encodings of a session record file: lower-case hex strings, decimal integers, the checksum word. */
module FieldCodec {
  import opened Bytes

  const INT32_MIN := -0x8000_0000
  const INT32_MAX := 0x7fff_ffff
  const INT64_MIN := -0x8000_0000_0000_0000
  const INT64_MAX := 0x7fff_ffff_ffff_ffff
  const UINT32_MAX := 0xffff_ffff
  const ULONG_MODULUS := 0x1_0000_0000_0000_0000

  // ----- hex strings -----

  function HexDigit(n: nat): (c: Byte)
    requires n < 16
    ensures HexValue(c) == n
  {
    if n < 10 then (n + '0' as int) as char else (n - 10 + 'a' as int) as char
  }

  /** The value of a lower-case digit, or -1. */
  function HexValue(c: Byte): (n: int)
    ensures -1 <= n < 16
  {
    if '0' <= c <= '9' then c as int - '0' as int
    else if 'a' <= c <= 'f' then c as int - 'a' as int + 10
    else -1
  }

  lemma HexValueInjective(c: Byte, d: Byte)
    requires HexValue(c) == HexValue(d) >= 0
    ensures c == d
  {}

  function EncodeHex(t: Text): (e: Text)
    ensures |e| == 2 * |t|
    decreases |t|
  {
    if t == [] then []
    else [HexDigit(t[0] as int / 16), HexDigit(t[0] as int % 16)] + EncodeHex(t[1..])
  }

  lemma {:induction false} EncodeHexPlain(t: Text)
    ensures Lacks(EncodeHex(t), '|') && Lacks(EncodeHex(t), NUL)
    decreases |t|
  {
    if t != [] {
      EncodeHexPlain(t[1..]);
    }
  }

  /** The digit pairs of `e`, or None for an odd length, a bad digit or a pair that decodes to NUL. */
  function DecodePairs(e: Text): Option<Text>
    decreases |e|
  {
    if e == [] then Some([])
    else if |e| == 1 || HexValue(e[0]) < 0 || HexValue(e[1]) < 0 then None
    else if HexValue(e[0]) * 16 + HexValue(e[1]) == 0 then None
    else
      var rest :- DecodePairs(e[2..]);
      Some([(HexValue(e[0]) * 16 + HexValue(e[1])) as char] + rest)
  }

  /** Decoding into a C buffer of `capacity` bytes, one of which is the terminator. */
  function DecodeHex(e: Text, capacity: nat): Option<Text> {
    if |e| % 2 != 0 || |e| / 2 >= capacity then None else DecodePairs(e)
  }

  lemma {:induction false} DecodePairsLength(e: Text)
    requires DecodePairs(e).Some?
    ensures |e| == 2 * |DecodePairs(e).value|
    decreases |e|
  {
    if e != [] {
      DecodePairsLength(e[2..]);
    }
  }

  lemma {:induction false} DecodeEncodePairs(t: Text)
    ensures DecodePairs(EncodeHex(t)) == if Lacks(t, NUL) then Some(t) else None
    decreases |t|
  {
    if t != [] {
      var e := EncodeHex(t);
      DecodeEncodePairs(t[1..]);
      assert e[2..] == EncodeHex(t[1..]);
      assert Lacks(t, NUL) <==> t[0] != NUL && Lacks(t[1..], NUL);
      assert t == [t[0]] + t[1..];
    }
  }

  lemma {:induction false} EncodeDecodePairs(e: Text)
    requires DecodePairs(e).Some?
    ensures EncodeHex(DecodePairs(e).value) == e && Lacks(DecodePairs(e).value, NUL)
    decreases |e|
  {
    if e != [] {
      EncodeDecodePairs(e[2..]);
      var t := DecodePairs(e).value;
      assert t[1..] == DecodePairs(e[2..]).value;
      HexValueInjective(HexDigit(t[0] as int / 16), e[0]);
      HexValueInjective(HexDigit(t[0] as int % 16), e[1]);
      assert e == [e[0], e[1]] + e[2..];
    }
  }

  lemma DecodeFits(t: Text, e: Text, capacity: nat)
    requires |e| == 2 * |t| && DecodePairs(e) == Some(t) && |t| < capacity
    ensures DecodeHex(e, capacity) == Some(t)
  {}

  lemma DecodeEncode(t: Text, capacity: nat)
    requires Lacks(t, NUL) && |t| < capacity
    ensures DecodeHex(EncodeHex(t), capacity) == Some(t)
  {
    DecodeEncodePairs(t);
    DecodeFits(t, EncodeHex(t), capacity);
  }

  lemma EncodeDecode(e: Text, capacity: nat)
    requires DecodeHex(e, capacity).Some?
    ensures var t := DecodeHex(e, capacity).value; EncodeHex(t) == e && Lacks(t, NUL) && |t| < capacity
  {
    EncodeDecodePairs(e);
    DecodePairsLength(e);
  }

  /** Hex is a bijection between the NUL-free strings that fit a buffer and the encodings accepted for it. */
  lemma HexBijection(t: Text, e: Text, capacity: nat)
    ensures DecodeHex(e, capacity) == Some(t) <==> e == EncodeHex(t) && Lacks(t, NUL) && |t| < capacity
  {
    if DecodeHex(e, capacity) == Some(t) {
      EncodeDecode(e, capacity);
    } else if e == EncodeHex(t) && Lacks(t, NUL) && |t| < capacity {
      DecodeEncode(t, capacity);
    }
  }

  // ----- decimal integers -----

  function IsSpace(c: Byte): bool {
    c == ' ' || '\t' <= c <= '\r'
  }

  function SkipSpace(t: Text): Text
    decreases |t|
  {
    if t != [] && IsSpace(t[0]) then SkipSpace(t[1..]) else t
  }

  function IsDigit(c: Byte): bool { '0' <= c <= '9' }

  predicate AllDigits(t: Text) {
    forall i :: 0 <= i < |t| ==> IsDigit(t[i])
  }

  function DecimalValue(t: Text): nat
    requires AllDigits(t)
    decreases |t|
  {
    if t == [] then 0 else DecimalValue(t[..|t| - 1]) * 10 + (t[|t| - 1] as int - '0' as int)
  }

  /** strtoll in base 10, required to consume the whole string and stay in range. */
  function ParseI64(t: Text): Option<int> {
    var u := SkipSpace(t);
    var negative := u != [] && u[0] == '-';
    var digits := if u != [] && (u[0] == '-' || u[0] == '+') then u[1..] else u;
    if digits == [] || !AllDigits(digits) then None
    else
      var magnitude: int := DecimalValue(digits);
      var value := if negative then -magnitude else magnitude;
      if INT64_MIN <= value <= INT64_MAX then Some(value) else None
  }

  function ParseInt(t: Text): Option<int> {
    var value :- ParseI64(t);
    if INT32_MIN <= value <= INT32_MAX then Some(value) else None
  }

  function PrintNat(n: nat): (t: Text)
    ensures |t| >= 1 && AllDigits(t) && DecimalValue(t) == n
  {
    var last: Text := [HexDigit(n % 10)];
    if n < 10 then last
    else
      var t := PrintNat(n / 10) + last;
      assert t[..|t| - 1] == PrintNat(n / 10);
      t
  }

  function PrintInt(n: int): Text {
    if n < 0 then ['-'] + PrintNat(-n) else PrintNat(n)
  }

  lemma PrintIntPlain(n: int)
    ensures Lacks(PrintInt(n), '|') && Lacks(PrintInt(n), NUL)
  {}

  lemma ParsePrintI64(n: int)
    requires INT64_MIN <= n <= INT64_MAX
    ensures ParseI64(PrintInt(n)) == Some(n)
  {}

  lemma {:induction false} PrintNatLength(n: nat, digits: nat, bound: nat)
    requires digits >= 1 && n < bound && bound == Power10(digits)
    ensures |PrintNat(n)| <= digits
    decreases digits
  {
    if n >= 10 {
      PrintNatLength(n / 10, digits - 1, Power10(digits - 1));
    }
  }

  function Power10(k: nat): nat {
    if k == 0 then 1 else 10 * Power10(k - 1)
  }

  lemma PrintIntLength(n: int)
    requires INT64_MIN <= n <= INT64_MAX
    ensures |PrintInt(n)| <= 20
  {
    assert Power10(10) == 10_000_000_000;
    assert Power10(19) == 10_000_000_000_000_000_000;
    PrintNatLength(if n < 0 then -n else n, 19, Power10(19));
  }

  // ----- the checksum word -----

  /** printf("%0*x"): exactly `width` digits. */
  function PrintHex(n: nat, width: nat): (t: Text)
    ensures |t| == width
    ensures forall i :: 0 <= i < |t| ==> HexValue(t[i]) >= 0
    ensures AllHex(t)
    ensures n < Power16(width) ==> HexNumber(t) == n
    decreases width
  {
    if width == 0 then []
    else
      var t := PrintHex(n / 16, width - 1) + [HexDigit(n % 16)];
      assert t[..|t| - 1] == PrintHex(n / 16, width - 1);
      t
  }

  function Power16(k: nat): nat {
    if k == 0 then 1 else 16 * Power16(k - 1)
  }

  /** strtoul accepts both letter cases. */
  function AnyCaseHexValue(c: Byte): int {
    if 'A' <= c <= 'F' then c as int - 'A' as int + 10 else HexValue(c)
  }

  function HexNumber(t: Text): nat
    requires AllHex(t)
    decreases |t|
  {
    if t == [] then 0 else HexNumber(t[..|t| - 1]) * 16 + AnyCaseHexValue(t[|t| - 1])
  }

  predicate AllHex(t: Text) {
    forall i :: 0 <= i < |t| ==> AnyCaseHexValue(t[i]) >= 0
  }

  /** strtoul in base 16 with a 64-bit unsigned long, required to consume the whole string and fit 32 bits. */
  function ParseWord(t: Text): (r: Option<int>)
    ensures r.Some? ==> 0 <= r.value <= UINT32_MAX
  {
    var u := SkipSpace(t);
    var negative := u != [] && u[0] == '-';
    var v := if u != [] && (u[0] == '-' || u[0] == '+') then u[1..] else u;
    var digits := if |v| >= 2 && v[0] == '0' && (v[1] == 'x' || v[1] == 'X') then v[2..] else v;
    if digits == [] || !AllHex(digits) then None
    else if HexNumber(digits) >= ULONG_MODULUS then None
    else
      var value := if negative then (ULONG_MODULUS - HexNumber(digits)) % ULONG_MODULUS else HexNumber(digits);
      if value <= UINT32_MAX then Some(value) else None
  }

  lemma Power16Eight()
    ensures Power16(8) == 0x1_0000_0000
  {}

  lemma ParsePrintWord(n: nat)
    requires n <= UINT32_MAX
    ensures ParseWord(PrintHex(n, 8)) == Some(n)
  {
    Power16Eight();
    ParseDigits(PrintHex(n, 8), n);
  }

  lemma ParseDigits(t: Text, n: nat)
    requires |t| >= 2 && AllHex(t) && HexNumber(t) == n <= UINT32_MAX
    requires HexValue(t[0]) >= 0 && HexValue(t[1]) >= 0
    ensures ParseWord(t) == Some(n)
  {
    assert SkipSpace(t) == t && t[0] != '-' && t[0] != '+' && t[1] != 'x' && t[1] != 'X';
  }
}
