/** The command graph: its document, what a JSON reader makes of it, and how much room its text can need. */
module CommandGraph {
  import opened Bytes
  import opened Json
  import opened Effects
  import opened CommandTable

  // ----- the document of an entry -----

  function FieldName(k: nat): Text {
    match k
    case 0 => "command"
    case 1 => "request_schema"
    case 2 => "response_schema"
    case 3 => "result_schema"
    case 4 => "refusal_schema"
    case 5 => "dry_run_behavior"
    case 6 => "availability"
    case 7 => "owner"
    case 8 => "binding"
    case 9 => "handler_status"
    case 10 => "executable"
    case _ => "effects"
  }

  /** The text of the ten string members. */
  function EntryPart(m: Metadata, k: nat): Text {
    if k == 0 then m.descriptor.command else if k == 9 then StatusName(m.status) else m.descriptor.Part(k + 1)
  }

  /** The value an embedded effects text stands for. */
  function EffectsValue(t: Text): Value {
    match ReadValue(t)
    case Bad => Null
    case Got(value, _) => value
  }

  function EntryPartDoc(m: Metadata, k: nat): Doc {
    if k < 10 then Words(EntryPart(m, k))
    else if k == 10 then Flag(true)
    else Raw(m.descriptor.effects, EffectsValue(m.descriptor.effects))
  }

  function EntryField(m: Metadata, k: nat): Field { Field(FieldName(k), EntryPartDoc(m, k)) }

  function EntryDoc(m: Metadata): Doc {
    Doc.Record(seq(12, k requires 0 <= k < 12 => EntryField(m, k)))
  }

  function EntryDocs(entries: seq<Metadata>): (docs: seq<Doc>)
    ensures |docs| == |entries|
  {
    seq(|entries|, i requires 0 <= i < |entries| => EntryDoc(entries[i]))
  }

  // ----- the document around the entries -----

  const SCHEMA: Text := "schema"
  const STATUS: Text := "status"
  const PAYLOAD: Text := "payload"
  const COMMANDS: Text := "commands"
  const ERROR: Text := "error"
  const OK: Text := "ok"
  const RESPONSE_SCHEMA: Text := "ulk.command_response.v1"
  const GRAPH_SCHEMA: Text := "ulk.command_graph.v1"

  function Framed(schema: Field, status: Field, payload: Text, inner: Field, commands: Text, error: Field, docs: seq<Doc>): Doc {
    Doc.Record([schema, status, Field(payload, Doc.Record([inner, Field(commands, List(docs))])), error])
  }

  function GraphOf(docs: seq<Doc>): Doc {
    Framed(Field(SCHEMA, Words(RESPONSE_SCHEMA)), Field(STATUS, Words(OK)), PAYLOAD, Field(SCHEMA, Words(GRAPH_SCHEMA)),
           COMMANDS, Field(ERROR, Nothing), docs)
  }

  /** The text ulk_build_command_graph prints for the listed entries. */
  function GraphText(entries: seq<Metadata>): Text { Print(GraphOf(EntryDocs(entries))) }

  // ----- reading it back -----

  /** A command as a reader of the graph knows it: its ten strings and its effect tokens. */
  datatype Info = Info(parts: seq<Text>, tokens: seq<Text>)

  function DecodeStrings(vs: seq<Value>): Option<seq<Text>> {
    if vs == [] then Some([])
    else if !vs[0].String? then None
    else
      var rest :- DecodeStrings(vs[1..]);
      Some([vs[0].text] + rest)
  }

  function DecodeParts(ms: seq<Member>, k: nat): Option<seq<Text>>
    requires k <= 10 <= |ms|
    decreases 10 - k
  {
    if k == 10 then Some([])
    else if ms[k].name != FieldName(k) || !ms[k].value.String? then None
    else
      var rest :- DecodeParts(ms, k + 1);
      Some([ms[k].value.text] + rest)
  }

  function DecodeEntry(v: Value): Option<Info> {
    if !v.Object? || |v.members| != 12 then None
    else if v.members[10] != Member(FieldName(10), Bool(true)) then None
    else if v.members[11].name != FieldName(11) || !v.members[11].value.Array? then None
    else
      var parts :- DecodeParts(v.members, 0);
      var tokens :- DecodeStrings(v.members[11].value.items);
      Some(Info(parts, tokens))
  }

  function DecodeEntries(vs: seq<Value>): Option<seq<Info>> {
    if vs == [] then Some([])
    else
      var first :- DecodeEntry(vs[0]);
      var rest :- DecodeEntries(vs[1..]);
      Some([first] + rest)
  }

  /** The entries of a graph response, wherever they sit in it. */
  function DecodeGraph(v: Value): Option<seq<Info>> {
    if !v.Object? || |v.members| != 4 || v.members[2].name != PAYLOAD then None
    else
      var payload := v.members[2].value;
      if !payload.Object? || |payload.members| != 2 || payload.members[1].name != COMMANDS then None
      else if !payload.members[1].value.Array? then None
      else DecodeEntries(payload.members[1].value.items)
  }

  function EntryParts(m: Metadata, k: nat): (parts: seq<Text>)
    requires k <= 10
    ensures |parts| == 10 - k
    decreases 10 - k
  {
    if k == 10 then [] else [EntryPart(m, k)] + EntryParts(m, k + 1)
  }

  ghost predicate InfoOf(m: Metadata, i: Info) {
    i.parts == EntryParts(m, 0) && IsEffectsOf(m.descriptor.effects, i.tokens)
  }

  ghost predicate InfosOf(entries: seq<Metadata>, infos: seq<Info>) {
    |infos| == |entries| && forall i :: 0 <= i < |entries| ==> InfoOf(entries[i], infos[i])
  }

  lemma EffectsRead(t: Text, tokens: seq<Text>)
    requires IsEffectsOf(t, tokens)
    ensures Denotes(t, EffectsValue(t)) && EffectsValue(t) == Array(Strings(tokens))
  {
    EffectsDenote(t, tokens);
    assert ReadUpTo(ReadValue(t + []), Array(Strings(tokens)), []);
    assert t + [] == t;
  }

  lemma EntryFaithful(m: Metadata, tokens: seq<Text>)
    requires IsEffectsOf(m.descriptor.effects, tokens)
    ensures Faithful(EntryDoc(m))
  {
    EffectsRead(m.descriptor.effects, tokens);
    assert forall k :: 0 <= k < 12 ==> Faithful(EntryPartDoc(m, k));
  }

  lemma {:induction false} DecodeStringsOf(tokens: seq<Text>)
    ensures DecodeStrings(Strings(tokens)) == Some(tokens)
  {
    if tokens != [] {
      assert Strings(tokens)[1..] == Strings(tokens[1..]);
      DecodeStringsOf(tokens[1..]);
      assert tokens == [tokens[0]] + tokens[1..];
    }
  }

  lemma {:induction false} DecodePartsOf(m: Metadata, ms: seq<Member>, k: nat)
    requires k <= 10 <= |ms| && forall i :: 0 <= i < 10 ==> ms[i] == Member(FieldName(i), String(EntryPart(m, i)))
    ensures DecodeParts(ms, k) == Some(EntryParts(m, k))
    decreases 10 - k
  {
    if k < 10 {
      DecodePartsOf(m, ms, k + 1);
    }
  }

  lemma PartValues(m: Metadata)
    ensures forall k :: 0 <= k < 10 ==> ValueOf(EntryPartDoc(m, k)) == String(EntryPart(m, k))
    ensures ValueOf(EntryPartDoc(m, 10)) == Bool(true)
    ensures ValueOf(EntryPartDoc(m, 11)) == EffectsValue(m.descriptor.effects)
  {}

  lemma DecodeMembers(m: Metadata, ms: seq<Member>, info: Info)
    requires |ms| == 12 && forall k :: 0 <= k < 12 ==> ms[k] == Member(FieldName(k), ValueOf(EntryPartDoc(m, k)))
    requires InfoOf(m, info)
    ensures DecodeEntry(Object(ms)) == Some(info)
  {
    PartValues(m);
    EffectsRead(m.descriptor.effects, info.tokens);
    DecodeStringsOf(info.tokens);
    DecodePartsOf(m, ms, 0);
  }

  lemma DecodeEntryOf(m: Metadata, info: Info)
    requires InfoOf(m, info)
    ensures DecodeEntry(ValueOf(EntryDoc(m))) == Some(info)
  {
    DecodeMembers(m, ValueOf(EntryDoc(m)).members, info);
  }

  function ValuesOf(docs: seq<Doc>): (vs: seq<Value>)
    ensures |vs| == |docs|
  {
    seq(|docs|, i requires 0 <= i < |docs| => ValueOf(docs[i]))
  }

  lemma {:induction false} DecodeEntriesOf(entries: seq<Metadata>, infos: seq<Info>)
    requires InfosOf(entries, infos)
    ensures DecodeEntries(ValuesOf(EntryDocs(entries))) == Some(infos)
  {
    if entries != [] {
      assert ValuesOf(EntryDocs(entries))[1..] == ValuesOf(EntryDocs(entries[1..]));
      DecodeEntryOf(entries[0], infos[0]);
      DecodeEntriesOf(entries[1..], infos[1..]);
      DecodeNextEntry(ValuesOf(EntryDocs(entries)), infos);
    }
  }

  lemma DecodeNextEntry(vs: seq<Value>, infos: seq<Info>)
    requires vs != [] && infos != []
    requires DecodeEntry(vs[0]) == Some(infos[0]) && DecodeEntries(vs[1..]) == Some(infos[1..])
    ensures DecodeEntries(vs) == Some(infos)
  {
    assert infos == [infos[0]] + infos[1..];
  }

  lemma DecodeFramed(a: Field, b: Field, c: Field, e: Field, docs: seq<Doc>)
    ensures DecodeGraph(ValueOf(Framed(a, b, PAYLOAD, c, COMMANDS, e, docs))) == DecodeEntries(ValuesOf(docs))
  {
    var inner := Doc.Record([c, Field(COMMANDS, List(docs))]);
    assert ValueOf(inner).members[1] == Member(COMMANDS, Array(ValuesOf(docs)));
    var v := ValueOf(Framed(a, b, PAYLOAD, c, COMMANDS, e, docs));
    assert v.members[2] == Member(PAYLOAD, ValueOf(inner));
  }

  lemma FramedFaithful(a: Field, b: Field, p: Text, c: Field, n: Text, e: Field, docs: seq<Doc>)
    requires Faithful(a.doc) && Faithful(b.doc) && Faithful(c.doc) && Faithful(e.doc)
    requires forall i :: 0 <= i < |docs| ==> Faithful(docs[i])
    ensures Faithful(Framed(a, b, p, c, n, e, docs))
  {}

  /** The printed graph is a JSON text, and gives back exactly the entries printed, embedded effects included. */
  lemma GraphReadsBack(entries: seq<Metadata>, infos: seq<Info>)
    requires InfosOf(entries, infos)
    ensures Parse(GraphText(entries)).Some? && DecodeGraph(Parse(GraphText(entries)).value) == Some(infos)
  {
    var docs := EntryDocs(entries);
    forall i | 0 <= i < |docs|
      ensures Faithful(docs[i])
    {
      assert InfoOf(entries[i], infos[i]);
      EntryFaithful(entries[i], infos[i].tokens);
    }
    FramedFaithful(Field(SCHEMA, Words(RESPONSE_SCHEMA)), Field(STATUS, Words(OK)), PAYLOAD,
                   Field(SCHEMA, Words(GRAPH_SCHEMA)), COMMANDS, Field(ERROR, Nothing), docs);
    ParsePrinted(GraphOf(docs));
    DecodeFramed(Field(SCHEMA, Words(RESPONSE_SCHEMA)), Field(STATUS, Words(OK)), Field(SCHEMA, Words(GRAPH_SCHEMA)),
                 Field(ERROR, Nothing), docs);
    DecodeEntriesOf(entries, infos);
  }

  // ----- every admitted table has a graph -----

  lemma OneTokenList(token: Text)
    requires IsToken(token)
    ensures IsEffectsOf(['['] + (['"'] + (token + ['"', ']'])), [token])
  {
    var rest: Text := ['"'] + (token + ['"', ']']);
    assert ['"', ']'] == ['"'] + ([] + [']']);
    assert rest == [] + (['"'] + (token + (['"'] + ([] + [']']))));
    assert IsItem(rest, [], [token][0], [], [']']);
    assert IsItems(rest, [token]);
    assert ['['] + rest == [] + (['['] + rest);
  }

  function BuiltinToken(i: nat): Text {
    if i <= 1 then "none" else if i == 4 then "workspace_write" else "workspace_read"
  }

  lemma BuiltinTokenIs(i: nat)
    ensures IsToken(BuiltinToken(i))
  {}

  lemma NoneListed()
    ensures "[\"none\"]" == ['['] + (['"'] + ("none" + ['"', ']']))
  {}

  lemma WriteListed()
    ensures "[\"workspace_write\"]" == ['['] + (['"'] + ("workspace_write" + ['"', ']']))
  {}

  lemma ReadListed()
    ensures "[\"workspace_read\"]" == ['['] + (['"'] + ("workspace_read" + ['"', ']']))
  {}

  lemma BuiltinTokenListed(i: nat)
    ensures BuiltinEffects(i) == ['['] + (['"'] + (BuiltinToken(i) + ['"', ']']))
  {
    NoneListed();
    WriteListed();
    ReadListed();
  }

  lemma BuiltinEffectsOf(i: nat)
    ensures IsEffectsOf(Builtin(i).descriptor.effects, [BuiltinToken(i)])
  {
    BuiltinTokenIs(i);
    BuiltinTokenListed(i);
    OneTokenList(BuiltinToken(i));
  }

  lemma EntryHasInfo(c: seq<Registration>, j: nat) returns (info: Info)
    requires AllAdmitted(c) && NamesDiffer(c) && j < |Entries(c)|
    ensures InfoOf(Entries(c)[j], info)
  {
    var m := Entries(c)[j];
    EntryDescribes(c, j);
    match Dispatched(c, m.descriptor.command) {
      case BuiltIn(i) =>
        BuiltinEffectsOf(i);
        info := Info(EntryParts(m, 0), [BuiltinToken(i)]);
      case Handler(h, u) =>
        var r :| r in c && r.handler == h && r.user == u && m == FromRegistration(r);
        var tokens :| IsEffectsOf(r.descriptor.effects, tokens);
        info := Info(EntryParts(m, 0), tokens);
    }
  }

  ghost predicate HasInfo(m: Metadata) { exists info :: InfoOf(m, info) }

  lemma {:induction false} CollectInfos(entries: seq<Metadata>) returns (infos: seq<Info>)
    requires forall i :: 0 <= i < |entries| ==> HasInfo(entries[i])
    ensures InfosOf(entries, infos)
  {
    infos := [];
    if entries != [] {
      assert HasInfo(entries[0]);
      var first :| InfoOf(entries[0], first);
      var rest := CollectInfos(entries[1..]);
      infos := [first] + rest;
      InfosCons(entries, first, rest);
    }
  }

  lemma InfosCons(entries: seq<Metadata>, first: Info, rest: seq<Info>)
    requires entries != [] && InfoOf(entries[0], first) && InfosOf(entries[1..], rest)
    ensures InfosOf(entries, [first] + rest)
  {}

  lemma EntriesHaveInfos(c: seq<Registration>) returns (infos: seq<Info>)
    requires AllAdmitted(c) && NamesDiffer(c)
    ensures InfosOf(Entries(c), infos)
  {
    forall j | 0 <= j < |Entries(c)|
      ensures HasInfo(Entries(c)[j])
    {
      var info := EntryHasInfo(c, j);
    }
    infos := CollectInfos(Entries(c));
  }

  /** Whatever the validators admitted, the graph of the table reads back as the list of its entries. */
  lemma GraphTellsTable(c: seq<Registration>) returns (infos: seq<Info>)
    requires AllAdmitted(c) && NamesDiffer(c)
    ensures InfosOf(Entries(c), infos)
    ensures Parse(GraphText(Entries(c))).Some? && DecodeGraph(Parse(GraphText(Entries(c))).value) == Some(infos)
  {
    infos := EntriesHaveInfos(c);
    GraphReadsBack(Entries(c), infos);
  }
}
