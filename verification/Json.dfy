/**
 JSON texts (RFC 8259): a reader by its grammar, and the printing shared by the session journal and the command graph.

 The reader works on bytes. It takes a \u escape only below 0x80, where it stands for one byte, so whatever it
 accepts the standard accepts too, provided the bytes from 0x80 up form UTF-8.
 */
module Json {
  import opened Bytes
  import opened FieldCodec

  datatype Value =
    | Null
    | Bool(b: bool)
    | Number(lexeme: Text)
    | String(text: Text)
    | Array(items: seq<Value>)
    | Object(members: seq<Member>)

  datatype Member = Member(name: Text, value: Value)

  datatype Read<+T> = Got(value: T, rest: Text) | Bad

  // ----- the reader: tokens -----

  predicate IsBlank(c: Byte) { c == ' ' || c == '\t' || c == '\n' || c == '\r' }

  function SkipBlank(t: Text): (r: Text)
    ensures |r| <= |t|
    ensures r != [] ==> !IsBlank(r[0])
  {
    if t != [] && IsBlank(t[0]) then SkipBlank(t[1..]) else t
  }

  /** The byte a two-character escape stands for (section 7). */
  function ShortEscape(c: Byte): Option<Byte> {
    if c == '"' || c == '\\' || c == '/' then Some(c)
    else if c == 'b' then Some(8 as char)
    else if c == 'f' then Some(12 as char)
    else if c == 'n' then Some('\n')
    else if c == 'r' then Some('\r')
    else if c == 't' then Some('\t')
    else None
  }

  function LongEscape(t: Text): Option<Byte> {
    if |t| < 4 || !AllHex(t[..4]) || HexNumber(t[..4]) >= 0x80 then None else Some(HexNumber(t[..4]) as char)
  }

  /** The rest of a string, after its opening quote. */
  function ReadChars(t: Text): (r: Read<Text>)
    ensures r.Got? ==> |r.rest| < |t|
  {
    if t == [] then Bad
    else if t[0] == '"' then Got([], t[1..])
    else if t[0] < ' ' then Bad
    else if t[0] != '\\' then Prepend(t[0], ReadChars(t[1..]))
    else if |t| < 2 then Bad
    else if t[1] == 'u' then
      match LongEscape(t[2..])
      case None => Bad
      case Some(c) => Prepend(c, ReadChars(t[6..]))
    else
      match ShortEscape(t[1])
      case None => Bad
      case Some(c) => Prepend(c, ReadChars(t[2..]))
  }

  function Prepend(c: Byte, r: Read<Text>): Read<Text> {
    match r
    case Bad => Bad
    case Got(text, rest) => Got([c] + text, rest)
  }

  predicate IsNumberCharacter(c: Byte) {
    '0' <= c <= '9' || c == '-' || c == '+' || c == '.' || c == 'e' || c == 'E'
  }

  /** How many digits `t` starts with. */
  function DigitRun(t: Text): (n: nat)
    ensures n <= |t|
    ensures n < |t| ==> !('0' <= t[n] <= '9')
  {
    if t != [] && '0' <= t[0] <= '9' then 1 + DigitRun(t[1..]) else 0
  }

  /** number = [ "-" ] int [ frac ] [ exp ] (section 6) */
  predicate IsNumber(t: Text) {
    var u := if t != [] && t[0] == '-' then t[1..] else t;
    var n := DigitRun(u);
    n >= 1 && (u[0] == '0' ==> n == 1) && IsFraction(u[n..])
  }

  predicate IsFraction(t: Text) {
    if t != [] && t[0] == '.' then DigitRun(t[1..]) >= 1 && IsExponent(t[1..][DigitRun(t[1..])..]) else IsExponent(t)
  }

  predicate IsExponent(t: Text) {
    t == [] ||
    ((t[0] == 'e' || t[0] == 'E') &&
     var u := if |t| >= 2 && (t[1] == '+' || t[1] == '-') then t[2..] else t[1..];
     u != [] && DigitRun(u) == |u|)
  }

  function NumberEnd(t: Text): (n: nat)
    ensures n <= |t|
  {
    if t != [] && IsNumberCharacter(t[0]) then 1 + NumberEnd(t[1..]) else 0
  }

  function ReadNumber(t: Text): (r: Read<Value>)
    ensures r.Got? ==> |r.rest| < |t|
  {
    var n := NumberEnd(t);
    if IsNumber(t[..n]) then Got(Number(t[..n]), t[n..]) else Bad
  }

  function ReadWord(t: Text, word: Text, v: Value): (r: Read<Value>)
    requires word != []
    ensures r.Got? ==> |r.rest| < |t|
  {
    if |t| >= |word| && t[..|word|] == word then Got(v, t[|word|..]) else Bad
  }

  function ReadScalar(t: Text): (r: Read<Value>)
    requires t != []
    ensures r.Got? ==> |r.rest| < |t|
  {
    if t[0] == 'n' then ReadWord(t, "null", Null)
    else if t[0] == 't' then ReadWord(t, "true", Bool(true))
    else if t[0] == 'f' then ReadWord(t, "false", Bool(false))
    else ReadNumber(t)
  }

  // ----- the reader: values -----

  function ReadValue(t: Text): (r: Read<Value>)
    ensures r.Got? ==> |r.rest| < |t|
    decreases |t|, 0
  {
    var u := SkipBlank(t);
    if u == [] then Bad
    else if u[0] == '"' then
      match ReadChars(u[1..])
      case Bad => Bad
      case Got(text, rest) => Got(String(text), rest)
    else if u[0] == '[' then
      var v := SkipBlank(u[1..]);
      if v != [] && v[0] == ']' then Got(Array([]), v[1..])
      else
        match ReadItems(u[1..])
        case Bad => Bad
        case Got(items, rest) => Got(Array(items), rest)
    else if u[0] == '{' then
      var v := SkipBlank(u[1..]);
      if v != [] && v[0] == '}' then Got(Object([]), v[1..])
      else
        match ReadMembers(u[1..])
        case Bad => Bad
        case Got(members, rest) => Got(Object(members), rest)
    else ReadScalar(u)
  }

  /** The values of an array after its bracket, at least one. */
  function ReadItems(t: Text): (r: Read<seq<Value>>)
    ensures r.Got? ==> |r.rest| < |t|
    decreases |t|, 1
  {
    match ReadValue(t)
    case Bad => Bad
    case Got(first, more) =>
      var u := SkipBlank(more);
      if u == [] then Bad
      else if u[0] == ']' then Got([first], u[1..])
      else if u[0] != ',' then Bad
      else
        match ReadItems(u[1..])
        case Bad => Bad
        case Got(items, rest) => Got([first] + items, rest)
  }

  function ReadMember(t: Text): (r: Read<Member>)
    ensures r.Got? ==> |r.rest| < |t|
    decreases |t|, 1
  {
    var u := SkipBlank(t);
    if u == [] || u[0] != '"' then Bad
    else
      match ReadChars(u[1..])
      case Bad => Bad
      case Got(name, more) =>
        var v := SkipBlank(more);
        if v == [] || v[0] != ':' then Bad
        else
          match ReadValue(v[1..])
          case Bad => Bad
          case Got(value, rest) => Got(Member(name, value), rest)
  }

  function ReadMembers(t: Text): (r: Read<seq<Member>>)
    ensures r.Got? ==> |r.rest| < |t|
    decreases |t|, 2
  {
    match ReadMember(t)
    case Bad => Bad
    case Got(first, more) =>
      var u := SkipBlank(more);
      if u == [] then Bad
      else if u[0] == '}' then Got([first], u[1..])
      else if u[0] != ',' then Bad
      else
        match ReadMembers(u[1..])
        case Bad => Bad
        case Got(members, rest) => Got([first] + members, rest)
  }

  /** A whole JSON text. */
  function Parse(t: Text): Option<Value> {
    match ReadValue(t)
    case Bad => None
    case Got(value, rest) => if SkipBlank(rest) == [] then Some(value) else None
  }

  // ----- printed strings -----

  /** What both printers write for one byte of a string. */
  function EscapeByte(c: Byte): (e: Text)
    ensures 1 <= |e| <= 6
  {
    if c == '"' || c == '\\' then ['\\', c]
    else if c as int == 8 then ['\\', 'b']
    else if c as int == 12 then ['\\', 'f']
    else if c == '\n' then ['\\', 'n']
    else if c == '\r' then ['\\', 'r']
    else if c == '\t' then ['\\', 't']
    else if c < ' ' then ['\\', 'u', '0', '0', HexDigit(c as int / 16), HexDigit(c as int % 16)]
    else [c]
  }

  function Escape(t: Text): (e: Text)
    ensures |t| <= |e| <= 6 * |t|
  {
    if t == [] then [] else EscapeByte(t[0]) + Escape(t[1..])
  }

  function Quote(t: Text): Text { ['"'] + Escape(t) + ['"'] }

  lemma {:induction false} EscapeConcat(s: Text, t: Text)
    ensures Escape(s + t) == Escape(s) + Escape(t)
  {
    if s == [] {
      assert s + t == t;
    } else {
      assert (s + t)[1..] == s[1..] + t;
      EscapeConcat(s[1..], t);
    }
  }

  lemma EscapeSnoc(t: Text, k: nat)
    requires k < |t|
    ensures Escape(t[..k + 1]) == Escape(t[..k]) + EscapeByte(t[k])
  {
    assert t[..k + 1] == t[..k] + [t[k]];
    EscapeConcat(t[..k], [t[k]]);
    assert Escape([t[k]]) == EscapeByte(t[k]) + Escape([]);
  }

  lemma EscapePrefix(t: Text, k: nat)
    requires k <= |t|
    ensures |Escape(t[..k])| <= |Escape(t)|
  {
    EscapeConcat(t[..k], t[k..]);
    assert t == t[..k] + t[k..];
  }

  lemma LongEscapeOf(c: Byte, more: Text)
    requires c < ' '
    ensures LongEscape(EscapeLow(c) + more) == Some(c)
  {
    var t := EscapeLow(c);
    assert (t + more)[..4] == t;
    assert t[..3] == ['0', '0', t[2]] && t[..3][..2] == ['0', '0'] && t[..3][..2][..1] == ['0'];
    assert HexNumber(['0']) == 0;
    assert HexNumber(['0', '0']) == 0;
    assert HexNumber(t[..3]) == c as int / 16;
    assert HexNumber(t) == c as int;
  }

  function EscapeLow(c: Byte): (t: Text)
    requires c < ' '
    ensures |t| == 4 && AllHex(t)
  {
    ['0', '0', HexDigit(c as int / 16), HexDigit(c as int % 16)]
  }

  lemma ReadEscapedByte(c: Byte, more: Text)
    ensures ReadChars(EscapeByte(c) + more) == Prepend(c, ReadChars(more))
  {
    var t := EscapeByte(c) + more;
    if |EscapeByte(c)| == 6 {
      LongEscapeOf(c, more);
      assert t[2..] == EscapeLow(c) + more;
      assert t[6..] == more;
    } else if |EscapeByte(c)| == 2 {
      assert t[2..] == more;
    } else {
      assert t[1..] == more;
    }
  }

  /** A printed string reads back as the string, whatever bytes it holds. */
  lemma {:induction false} ReadEscaped(s: Text, rest: Text)
    ensures ReadChars(Escape(s) + ['"'] + rest) == Got(s, rest)
  {
    if s == [] {
      assert (['"'] + rest)[1..] == rest;
    } else {
      var more := Escape(s[1..]) + ['"'] + rest;
      assert Escape(s) + ['"'] + rest == EscapeByte(s[0]) + more;
      ReadEscapedByte(s[0], more);
      ReadEscaped(s[1..], rest);
      assert [s[0]] + s[1..] == s;
    }
  }

  // ----- documents -----

  /** What a printer is asked to write; Raw is text written as it is, standing for a value. */
  datatype Doc =
    | Nothing
    | Flag(b: bool)
    | Integer(n: int)
    | Words(text: Text)
    | Raw(text: Text, value: Value)
    | List(items: seq<Doc>)
    | Record(fields: seq<Field>)

  datatype Field = Field(name: Text, doc: Doc)

  function Print(d: Doc): Text {
    match d
    case Nothing => "null"
    case Flag(b) => if b then "true" else "false"
    case Integer(n) => PrintInt(n)
    case Words(text) => Quote(text)
    case Raw(text, _) => text
    case List(items) => ['['] + Commas(seq(|items|, i requires 0 <= i < |items| => Print(items[i]))) + [']']
    case Record(fields) =>
      ['{'] +
      Commas(seq(|fields|, i requires 0 <= i < |fields| => Named(fields[i].name, Print(fields[i].doc)))) +
      ['}']
  }

  function Commas(parts: seq<Text>): Text {
    if parts == [] then [] else Join(parts, ',')
  }

  function Named(name: Text, text: Text): Text { Quote(name) + [':'] + text }

  function ValueOf(d: Doc): Value {
    match d
    case Nothing => Null
    case Flag(b) => Bool(b)
    case Integer(n) => Number(PrintInt(n))
    case Words(text) => String(text)
    case Raw(_, value) => value
    case List(items) => Array(seq(|items|, i requires 0 <= i < |items| => ValueOf(items[i])))
    case Record(fields) =>
      Object(seq(|fields|, i requires 0 <= i < |fields| => Member(fields[i].name, ValueOf(fields[i].doc))))
  }

  /** The text of `t` ends where `rest` begins: a number would go on otherwise. */
  predicate Delimited(rest: Text) { rest == [] || !IsNumberCharacter(rest[0]) }

  predicate Starts(t: Text) {
    var u := SkipBlank(t);
    u != [] && u[0] != ']' && u[0] != '}'
  }

  /** `v` was read, and at most blanks before `rest` are left over. */
  predicate ReadUpTo<T(==)>(r: Read<T>, v: T, rest: Text) {
    r.Got? && r.value == v && SkipBlank(r.rest) == SkipBlank(rest)
  }

  /** Wherever `t` stands as a value, it is read as `v` and nothing after it is consumed. */
  ghost predicate Denotes(t: Text, v: Value) {
    Starts(t) && forall rest :: Delimited(rest) ==> ReadUpTo(ReadValue(t + rest), v, rest)
  }

  ghost predicate DenotesMember(t: Text, m: Member) {
    Starts(t) && forall rest :: Delimited(rest) ==> ReadUpTo(ReadMember(t + rest), m, rest)
  }

  /** Raw texts denote what they stand for. */
  ghost predicate Faithful(d: Doc) {
    match d
    case Raw(text, value) => Denotes(text, value)
    case List(items) => forall i :: 0 <= i < |items| ==> Faithful(items[i])
    case Record(fields) => forall i :: 0 <= i < |fields| ==> Faithful(fields[i].doc)
    case _ => true
  }

  // ----- text in parts, as the printers append it -----

  lemma Assoc(a: Text, b: Text, c: Text)
    ensures (a + b) + c == a + (b + c)
  {}

  /** Part `i` with the comma that separates it from the ones before. */
  function Next(parts: seq<Text>, i: nat): Text
    requires i < |parts|
  {
    if i == 0 then parts[i] else [','] + parts[i]
  }

  lemma CommasSnoc(parts: seq<Text>, i: nat)
    requires i < |parts|
    ensures Commas(parts[..i + 1]) == Commas(parts[..i]) + Next(parts, i)
    ensures |Commas(parts[..i + 1])| <= |Commas(parts)|
  {
    assert parts[..i + 1] == parts[..i] + [parts[i]];
    if i > 0 {
      JoinConcat(parts[..i], [parts[i]], ',');
    }
    if i + 1 < |parts| {
      assert parts == parts[..i + 1] + parts[i + 1..];
      JoinConcat(parts[..i + 1], parts[i + 1..], ',');
    } else {
      assert parts[..i + 1] == parts;
    }
  }

  lemma TwoFields(a: Field, b: Field)
    ensures Print(Doc.Record([a, b])) == ['{'] + (Named(a.name, Print(a.doc)) + [','] + Named(b.name, Print(b.doc))) + ['}']
  {
    var parts := [Named(a.name, Print(a.doc)), Named(b.name, Print(b.doc))];
    var fields := [a, b];
    assert seq(2, i requires 0 <= i < 2 => Named(fields[i].name, Print(fields[i].doc))) == parts;
    assert Join(parts[1..], ',') == parts[1];
  }

  function Total(parts: seq<Text>): nat {
    if parts == [] then 0 else |parts[0]| + Total(parts[1..])
  }

  lemma {:induction false} CommasLength(parts: seq<Text>)
    requires parts != []
    ensures |Commas(parts)| == Total(parts) + |parts| - 1
  {
    if |parts| > 1 {
      CommasLength(parts[1..]);
    }
  }

  lemma {:induction false} TotalBound(parts: seq<Text>, bound: nat)
    requires forall i :: 0 <= i < |parts| ==> |parts[i]| <= bound
    ensures Total(parts) <= |parts| * bound
  {
    if parts != [] {
      TotalBound(parts[1..], bound);
    }
  }

  lemma CommasBound(parts: seq<Text>, bound: nat)
    requires forall i :: 0 <= i < |parts| ==> |parts[i]| <= bound
    ensures |Commas(parts)| <= |parts| * (bound + 1)
  {
    if parts != [] {
      CommasLength(parts);
      TotalBound(parts, bound);
    }
  }

  // ----- printed numbers -----

  lemma {:induction false} PrintNatLeads(n: nat)
    ensures n > 0 ==> PrintNat(n)[0] != '0'
    ensures n == 0 ==> PrintNat(n) == ['0']
  {
    if n >= 10 {
      PrintNatLeads(n / 10);
    }
  }

  lemma {:induction false} AllDigitsRun(t: Text)
    requires AllDigits(t)
    ensures DigitRun(t) == |t|
  {}

  lemma PrintIntIsNumber(n: int)
    ensures IsNumber(PrintInt(n))
    ensures forall i :: 0 <= i < |PrintInt(n)| ==> IsNumberCharacter(PrintInt(n)[i])
  {
    var t := PrintInt(n);
    var u := PrintNat(if n < 0 then -n else n);
    assert u == if t[0] == '-' then t[1..] else t;
    PrintNatLeads(if n < 0 then -n else n);
    AllDigitsRun(u);
    assert u[|u|..] == [];
  }

  lemma {:induction false} NumberEndOf(t: Text, rest: Text)
    requires (forall i :: 0 <= i < |t| ==> IsNumberCharacter(t[i])) && Delimited(rest)
    ensures NumberEnd(t + rest) == |t|
  {
    if t == [] {
      assert t + rest == rest;
    } else {
      assert (t + rest)[1..] == t[1..] + rest;
      NumberEndOf(t[1..], rest);
    }
  }

  predicate StartsScalar(c: Byte) { !IsBlank(c) && c != '"' && c != '[' && c != '{' }

  lemma ReadScalarHere(t: Text)
    requires t != [] && StartsScalar(t[0])
    ensures ReadValue(t) == ReadScalar(t)
  {}

  lemma ReadNumberHere(t: Text, v: Value, rest: Text)
    requires t != [] && IsNumberCharacter(t[0]) && ReadNumber(t) == Got(v, rest)
    ensures ReadValue(t) == Got(v, rest)
  {
    assert StartsScalar(t[0]) && t[0] != 'n' && t[0] != 't' && t[0] != 'f';
    assert ReadScalar(t) == ReadNumber(t);
    ReadScalarHere(t);
  }

  lemma IntegerDenotes(n: int)
    ensures Denotes(PrintInt(n), Number(PrintInt(n)))
  {
    var t := PrintInt(n);
    PrintIntIsNumber(n);
    forall rest: Text | Delimited(rest)
      ensures ReadUpTo(ReadValue(t + rest), Number(t), rest)
    {
      NumberEndOf(t, rest);
      assert (t + rest)[..|t|] == t && (t + rest)[|t|..] == rest;
      ReadNumberHere(t + rest, Number(t), rest);
    }
  }

  // ----- printed words -----

  lemma ReadStringHere(t: Text)
    ensures ReadValue(['"'] + t) ==
            match ReadChars(t) { case Bad => Bad case Got(text, rest) => Got(String(text), rest) }
  {}

  lemma QuoteSplit(s: Text, rest: Text)
    ensures Quote(s) + rest == ['"'] + (Escape(s) + ['"'] + rest)
  {}

  lemma WordsDenotes(s: Text)
    ensures Denotes(Quote(s), String(s))
  {
    forall rest: Text | Delimited(rest)
      ensures ReadUpTo(ReadValue(Quote(s) + rest), String(s), rest)
    {
      QuoteSplit(s, rest);
      ReadEscaped(s, rest);
      ReadStringHere(Escape(s) + ['"'] + rest);
    }
  }

  lemma WordDenotes(word: Text, v: Value)
    requires (word == "null" && v == Null) || (word == "true" && v == Bool(true)) || (word == "false" && v == Bool(false))
    ensures Denotes(word, v)
  {
    forall rest: Text | Delimited(rest)
      ensures ReadUpTo(ReadValue(word + rest), v, rest)
    {
      assert (word + rest)[..|word|] == word && (word + rest)[|word|..] == rest;
      ReadScalarHere(word + rest);
    }
  }

  // ----- printed lists -----

  lemma ReadLastItem(first: Text, v: Value, rest: Text)
    requires Denotes(first, v)
    ensures ReadItems(first + ([']'] + rest)) == Got([v], rest)
  {}

  lemma ReadNextItem(first: Text, v: Value, more: Text, items: seq<Value>, rest: Text)
    requires Denotes(first, v) && ReadItems(more) == Got(items, rest)
    ensures ReadItems(first + ([','] + more)) == Got([v] + items, rest)
  {}

  lemma CommasNext(parts: seq<Text>, close: Text)
    requires |parts| > 1
    ensures Commas(parts) + close == parts[0] + ([','] + (Commas(parts[1..]) + close))
  {}

  ghost predicate ItemsDenote(parts: seq<Text>, values: seq<Value>) {
    |parts| == |values| && forall i :: 0 <= i < |parts| ==> Denotes(parts[i], values[i])
  }

  lemma ItemsDenoteRest(parts: seq<Text>, values: seq<Value>)
    requires ItemsDenote(parts, values) && parts != []
    ensures Denotes(parts[0], values[0]) && ItemsDenote(parts[1..], values[1..])
  {}

  lemma {:induction false} ReadPrintedItems(parts: seq<Text>, values: seq<Value>, rest: Text)
    requires parts != [] && ItemsDenote(parts, values)
    ensures ReadItems(Commas(parts) + ([']'] + rest)) == Got(values, rest)
    decreases |parts|
  {
    ItemsDenoteRest(parts, values);
    if |parts| == 1 {
      ReadLastItem(parts[0], values[0], rest);
      assert values == [values[0]];
    } else {
      ReadPrintedItems(parts[1..], values[1..], rest);
      ReadFirstItem(parts, values, rest);
    }
  }

  lemma ReadFirstItem(parts: seq<Text>, values: seq<Value>, rest: Text)
    requires |parts| == |values| > 1 && Denotes(parts[0], values[0])
    requires ReadItems(Commas(parts[1..]) + ([']'] + rest)) == Got(values[1..], rest)
    ensures ReadItems(Commas(parts) + ([']'] + rest)) == Got(values, rest)
  {
    CommasNext(parts, [']'] + rest);
    ReadNextItem(parts[0], values[0], Commas(parts[1..]) + ([']'] + rest), values[1..], rest);
    assert values == [values[0]] + values[1..];
  }

  lemma {:induction false} SkipBlankAppend(t: Text, more: Text)
    requires SkipBlank(t) != []
    ensures SkipBlank(t + more) == SkipBlank(t) + more
  {
    if IsBlank(t[0]) {
      assert (t + more)[1..] == t[1..] + more;
      SkipBlankAppend(t[1..], more);
    }
  }

  lemma CommasStart(parts: seq<Text>, close: Text)
    requires parts != [] && Starts(parts[0])
    ensures Starts(Commas(parts) + close)
  {
    if |parts| > 1 {
      CommasNext(parts, close);
      SkipBlankAppend(parts[0], [','] + (Commas(parts[1..]) + close));
    } else {
      SkipBlankAppend(parts[0], close);
    }
  }

  lemma ReadListHere(body: Text, items: seq<Value>, rest: Text)
    requires Starts(body) && ReadItems(body) == Got(items, rest)
    ensures ReadValue(['['] + body) == Got(Array(items), rest)
  {}

  lemma ReadEmptyList(rest: Text)
    ensures ReadValue(['['] + ([']'] + rest)) == Got(Array([]), rest)
  {}

  lemma Bracketed(left: Byte, middle: Text, right: Byte, rest: Text)
    ensures [left] + middle + [right] + rest == [left] + (middle + ([right] + rest))
  {}

  lemma ListDenotes(parts: seq<Text>, values: seq<Value>)
    requires ItemsDenote(parts, values)
    ensures Denotes(['['] + Commas(parts) + [']'], Array(values))
  {
    var t := ['['] + Commas(parts) + [']'];
    forall rest: Text | Delimited(rest)
      ensures ReadUpTo(ReadValue(t + rest), Array(values), rest)
    {
      var body := Commas(parts) + ([']'] + rest);
      Bracketed('[', Commas(parts), ']', rest);
      if parts == [] {
        assert body == [']'] + rest;
        ReadEmptyList(rest);
      } else {
        ReadPrintedItems(parts, values, rest);
        CommasStart(parts, [']'] + rest);
        ReadListHere(body, values, rest);
      }
    }
  }

  // ----- printed objects -----

  lemma NamedSplit(name: Text, text: Text, rest: Text)
    ensures Named(name, text) + rest == ['"'] + (Escape(name) + ['"'] + ([':'] + (text + rest)))
  {}

  lemma ReadNamed(name: Text, text: Text, v: Value)
    requires Denotes(text, v)
    ensures DenotesMember(Named(name, text), Member(name, v))
  {
    forall rest: Text | Delimited(rest)
      ensures ReadUpTo(ReadMember(Named(name, text) + rest), Member(name, v), rest)
    {
      NamedSplit(name, text, rest);
      var more := [':'] + (text + rest);
      ReadEscaped(name, more);
      ReadMemberHere(Escape(name) + ['"'] + more, name, text + rest);
    }
  }

  lemma ReadMemberHere(t: Text, name: Text, more: Text)
    requires ReadChars(t) == Got(name, [':'] + more)
    ensures ReadMember(['"'] + t) ==
            match ReadValue(more) { case Bad => Bad case Got(value, rest) => Got(Member(name, value), rest) }
  {}

  lemma ReadLastMember(first: Text, m: Member, rest: Text)
    requires DenotesMember(first, m)
    ensures ReadMembers(first + (['}'] + rest)) == Got([m], rest)
  {}

  lemma ReadNextMember(first: Text, m: Member, more: Text, members: seq<Member>, rest: Text)
    requires DenotesMember(first, m) && ReadMembers(more) == Got(members, rest)
    ensures ReadMembers(first + ([','] + more)) == Got([m] + members, rest)
  {
    var u := [','] + more;
    assert Delimited(u) && SkipBlank(u) == u && u[1..] == more;
  }

  ghost predicate MembersDenote(parts: seq<Text>, members: seq<Member>) {
    |parts| == |members| && forall i :: 0 <= i < |parts| ==> DenotesMember(parts[i], members[i])
  }

  lemma MembersDenoteRest(parts: seq<Text>, members: seq<Member>)
    requires MembersDenote(parts, members) && parts != []
    ensures DenotesMember(parts[0], members[0]) && MembersDenote(parts[1..], members[1..])
  {}

  lemma {:induction false} ReadPrintedMembers(parts: seq<Text>, members: seq<Member>, rest: Text)
    requires parts != [] && MembersDenote(parts, members)
    ensures ReadMembers(Commas(parts) + (['}'] + rest)) == Got(members, rest)
    decreases |parts|
  {
    MembersDenoteRest(parts, members);
    if |parts| == 1 {
      ReadLastMember(parts[0], members[0], rest);
      assert members == [members[0]];
    } else {
      ReadPrintedMembers(parts[1..], members[1..], rest);
      CommasNext(parts, ['}'] + rest);
      ReadFirstMember(parts[0], members, Commas(parts[1..]) + (['}'] + rest), rest);
    }
  }

  lemma ReadFirstMember(first: Text, members: seq<Member>, more: Text, rest: Text)
    requires |members| > 1 && DenotesMember(first, members[0]) && ReadMembers(more) == Got(members[1..], rest)
    ensures ReadMembers(first + ([','] + more)) == Got(members, rest)
  {
    ReadNextMember(first, members[0], more, members[1..], rest);
    assert members == [members[0]] + members[1..];
  }

  lemma ReadObjectHere(body: Text, members: seq<Member>, rest: Text)
    requires Starts(body) && ReadMembers(body) == Got(members, rest)
    ensures ReadValue(['{'] + body) == Got(Object(members), rest)
  {}

  lemma ReadEmptyObject(rest: Text)
    ensures ReadValue(['{'] + (['}'] + rest)) == Got(Object([]), rest)
  {}

  lemma ReadRecord(parts: seq<Text>, members: seq<Member>, rest: Text)
    requires MembersDenote(parts, members)
    ensures ReadValue(['{'] + (Commas(parts) + (['}'] + rest))) == Got(Object(members), rest)
  {
    if parts == [] {
      assert Commas(parts) + (['}'] + rest) == ['}'] + rest;
      ReadEmptyObject(rest);
    } else {
      ReadPrintedMembers(parts, members, rest);
      CommasStart(parts, ['}'] + rest);
      ReadObjectHere(Commas(parts) + (['}'] + rest), members, rest);
    }
  }

  lemma RecordDenotes(parts: seq<Text>, members: seq<Member>)
    requires MembersDenote(parts, members)
    ensures Denotes(['{'] + Commas(parts) + ['}'], Object(members))
  {
    var t := ['{'] + Commas(parts) + ['}'];
    forall rest: Text | Delimited(rest)
      ensures ReadUpTo(ReadValue(t + rest), Object(members), rest)
    {
      Bracketed('{', Commas(parts), '}', rest);
      ReadRecord(parts, members, rest);
    }
  }

  // ----- the round trip -----

  /** Printing then reading gives back every document, whatever its strings, numbers and nesting. */
  lemma {:induction false} PrintDenotes(d: Doc)
    requires Faithful(d)
    ensures Denotes(Print(d), ValueOf(d))
  {
    match d
    case Nothing => WordDenotes("null", Null);
    case Flag(b) => WordDenotes(if b then "true" else "false", Bool(b));
    case Integer(n) => IntegerDenotes(n);
    case Words(text) => WordsDenotes(text);
    case Raw(_, _) =>
    case List(items) =>
      var parts := seq(|items|, i requires 0 <= i < |items| => Print(items[i]));
      var values := seq(|items|, i requires 0 <= i < |items| => ValueOf(items[i]));
      forall i | 0 <= i < |items|
        ensures Denotes(parts[i], values[i])
      {
        PrintDenotes(items[i]);
      }
      ListDenotes(parts, values);
    case Record(fields) =>
      var parts := seq(|fields|, i requires 0 <= i < |fields| => Named(fields[i].name, Print(fields[i].doc)));
      var members := seq(|fields|, i requires 0 <= i < |fields| => Member(fields[i].name, ValueOf(fields[i].doc)));
      forall i | 0 <= i < |fields|
        ensures DenotesMember(parts[i], members[i])
      {
        PrintDenotes(fields[i].doc);
        ReadNamed(fields[i].name, Print(fields[i].doc), ValueOf(fields[i].doc));
      }
      RecordDenotes(parts, members);
  }

  lemma ParsePrinted(d: Doc)
    requires Faithful(d)
    ensures Parse(Print(d)) == Some(ValueOf(d))
  {
    PrintDenotes(d);
    assert Print(d) + [] == Print(d);
  }
}
