/** The room computed for a command graph before it is printed, and why it is always enough. */
module GraphRoom {
  import opened Bytes
  import opened Json
  import opened CommandTable
  import opened CommandGraph

  // ----- the computed capacity -----

  const ROOM: nat := 512
  const ESCAPE_FACTOR: nat := 6

  /** Length of the first `k` of the eleven texts of an entry, in the order the capacity pass adds them. */
  function LengthsUpTo(m: Metadata, k: nat): nat
    requires k <= 11
  {
    if k == 0 then 0
    else LengthsUpTo(m, k - 1) + if k == 11 then |StatusName(m.status)| else |m.descriptor.Part(k - 1)|
  }

  function EntryRoom(m: Metadata): nat { ROOM + ESCAPE_FACTOR * LengthsUpTo(m, 11) }

  function EntriesRoom(entries: seq<Metadata>): nat {
    if entries == [] then 0 else EntryRoom(entries[0]) + EntriesRoom(entries[1..])
  }

  /** What the first pass computes. */
  function GraphCapacity(entries: seq<Metadata>): nat { ROOM + EntriesRoom(entries) }

  // ----- lengths of printed texts -----

  predicate Plain(t: Text) {
    forall i :: 0 <= i < |t| ==> t[i] >= ' ' && t[i] != '"' && t[i] != '\\'
  }

  lemma {:induction false} PlainEscape(t: Text)
    requires Plain(t)
    ensures Escape(t) == t
  {
    if t != [] {
      PlainEscape(t[1..]);
      assert t == [t[0]] + t[1..];
    }
  }

  lemma SchemaNamesPlain(k: nat)
    requires k <= 5
    ensures Plain(FieldName(k)) && |FieldName(k)| <= 16
  {}

  lemma OtherNamesPlain(k: nat)
    requires k > 5
    ensures Plain(FieldName(k)) && |FieldName(k)| <= 16
  {}

  lemma FieldNamePlain(k: nat)
    ensures Plain(FieldName(k)) && |FieldName(k)| <= 16
  {
    if k <= 5 {
      SchemaNamesPlain(k);
    } else {
      OtherNamesPlain(k);
    }
  }

  lemma FieldNameQuoted(k: nat)
    ensures |Quote(FieldName(k))| <= 18
  {
    FieldNamePlain(k);
    PlainEscape(FieldName(k));
  }

  // ----- an entry -----

  /** The text of member `k`, before escaping. */
  function Inner(m: Metadata, k: nat): nat {
    if k < 10 then |EntryPart(m, k)| else if k == 10 then 0 else |m.descriptor.effects|
  }

  lemma FieldLength(m: Metadata, k: nat)
    requires k < 12
    ensures |Named(FieldName(k), Print(EntryPartDoc(m, k)))| <= 23 + 6 * Inner(m, k)
  {
    FieldNameQuoted(k);
    assert |"true"| == 4;
  }

  function InnerFrom(m: Metadata, k: nat): nat
    requires k <= 12
    decreases 12 - k
  {
    if k == 12 then 0 else Inner(m, k) + InnerFrom(m, k + 1)
  }

  function EntryTexts(m: Metadata): (parts: seq<Text>)
    ensures |parts| == 12
  {
    seq(12, k requires 0 <= k < 12 => Named(FieldName(k), Print(EntryPartDoc(m, k))))
  }

  lemma {:induction false} TextsLength(m: Metadata, k: nat)
    requires k <= 12
    ensures Total(EntryTexts(m)[k..]) <= 23 * (12 - k) + 6 * InnerFrom(m, k)
    decreases 12 - k
  {
    if k < 12 {
      TextsLength(m, k + 1);
      assert EntryTexts(m)[k..][1..] == EntryTexts(m)[k + 1..];
      FieldLength(m, k);
    }
  }

  /** Both passes see the same eleven texts, in different orders. */
  lemma SameTexts(m: Metadata)
    ensures InnerFrom(m, 0) == LengthsUpTo(m, 11)
  {
    var d := m.descriptor;
    var schemas := |d.requestSchema| + |d.responseSchema| + |d.resultSchema| + |d.refusalSchema|;
    var rest := |d.dryRun| + |d.availability| + |d.owner| + |d.binding|;
    assert InnerFrom(m, 11) == |d.effects|;
    assert InnerFrom(m, 9) == |StatusName(m.status)| + |d.effects|;
    assert InnerFrom(m, 7) == |d.owner| + |d.binding| + InnerFrom(m, 9);
    assert InnerFrom(m, 5) == rest + InnerFrom(m, 9);
    assert InnerFrom(m, 3) == |d.resultSchema| + |d.refusalSchema| + rest + InnerFrom(m, 9);
    assert InnerFrom(m, 1) == schemas + rest + InnerFrom(m, 9);
    assert LengthsUpTo(m, 1) == |d.command|;
    assert LengthsUpTo(m, 3) == |d.command| + |d.effects| + |d.requestSchema|;
    assert LengthsUpTo(m, 5) == |d.command| + |d.effects| + schemas - |d.refusalSchema|;
    assert LengthsUpTo(m, 7) == |d.command| + |d.effects| + schemas + |d.dryRun|;
    assert LengthsUpTo(m, 9) == |d.command| + |d.effects| + schemas + rest - |d.binding|;
    assert LengthsUpTo(m, 10) == |d.command| + |d.effects| + schemas + rest;
  }

  lemma EntryText(m: Metadata)
    ensures Print(EntryDoc(m)) == ['{'] + Commas(EntryTexts(m)) + ['}']
  {
    var fields := EntryDoc(m).fields;
    assert seq(|fields|, i requires 0 <= i < |fields| => Named(fields[i].name, Print(fields[i].doc))) == EntryTexts(m);
  }

  /** An entry and its comma fit the room set aside for it. */
  lemma EntryFits(m: Metadata)
    ensures |Print(EntryDoc(m))| + 1 <= EntryRoom(m)
  {
    EntryText(m);
    CommasLength(EntryTexts(m));
    TextsLength(m, 0);
    assert EntryTexts(m)[0..] == EntryTexts(m);
    SameTexts(m);
  }

  // ----- the whole graph -----

  function EntryPrints(entries: seq<Metadata>): (parts: seq<Text>)
    ensures |parts| == |entries|
  {
    seq(|entries|, i requires 0 <= i < |entries| => Print(EntryDoc(entries[i])))
  }

  lemma {:induction false} EntriesFit(entries: seq<Metadata>)
    ensures Total(EntryPrints(entries)) + |entries| <= EntriesRoom(entries)
  {
    if entries != [] {
      EntriesFit(entries[1..]);
      assert EntryPrints(entries)[1..] == EntryPrints(entries[1..]);
      EntryFits(entries[0]);
    }
  }

  /** Everything before the entries, and everything after. */
  function Head(schema: Text, status: Text, payload: Text, inner: Text, commands: Text): Text {
    ['{'] + schema + [','] + status + [','] + (Quote(payload) + [':']) + ['{'] + inner + [','] +
    (Quote(commands) + [':']) + ['[']
  }

  function Tail(error: Text): Text { [']', '}', ','] + error + ['}'] }

  lemma Nested(schema: Text, status: Text, payload: Text, inner: Text, commands: Text, error: Text, items: Text)
    ensures ['{'] + (schema + [','] + (status + [','] +
              ((payload + (['{'] + (inner + [','] + (commands + (['['] + items + [']']))) + ['}'])) + [','] + error))) + ['}'] ==
            ['{'] + schema + [','] + status + [','] + payload + ['{'] + inner + [','] + commands + ['['] + items +
            ([']', '}', ','] + error + ['}'])
  {
    NestedBody(inner, commands, items);
    NestedFrame(schema, status, payload, ['{'] + inner + [','] + commands + ['['] + items, error);
  }

  lemma NestedBody(inner: Text, commands: Text, items: Text)
    ensures ['{'] + (inner + [','] + (commands + (['['] + items + [']']))) + ['}'] ==
            (['{'] + inner + [','] + commands + ['['] + items) + [']', '}']
  {}

  lemma NestedFrame(schema: Text, status: Text, payload: Text, open: Text, error: Text)
    ensures ['{'] + (schema + [','] + (status + [','] + ((payload + (open + [']', '}'])) + [','] + error))) + ['}'] ==
            ['{'] + schema + [','] + status + [','] + payload + open + ([']', '}', ','] + error + ['}'])
  {}

  lemma FourFields(a: Field, b: Field, p: Field, e: Field)
    ensures Print(Doc.Record([a, b, p, e])) ==
            ['{'] + (Named(a.name, Print(a.doc)) + [','] + (Named(b.name, Print(b.doc)) + [','] +
              (Named(p.name, Print(p.doc)) + [','] + Named(e.name, Print(e.doc))))) + ['}']
  {
    var parts := [Named(a.name, Print(a.doc)), Named(b.name, Print(b.doc)), Named(p.name, Print(p.doc)), Named(e.name, Print(e.doc))];
    var fields := [a, b, p, e];
    assert seq(4, i requires 0 <= i < 4 => Named(fields[i].name, Print(fields[i].doc))) == parts;
    assert Commas(parts[3..]) == parts[3];
    assert parts[2..][1..] == parts[3..] && parts[1..][1..] == parts[2..];
    assert Commas(parts[2..]) == parts[2] + [','] + parts[3];
    assert Commas(parts[1..]) == parts[1] + [','] + Commas(parts[2..]);
  }

  lemma FramedText(a: Field, b: Field, p: Text, c: Field, n: Text, e: Field, docs: seq<Doc>)
    ensures Print(Framed(a, b, p, c, n, e, docs)) ==
            Head(Named(a.name, Print(a.doc)), Named(b.name, Print(b.doc)), p, Named(c.name, Print(c.doc)), n) +
            Commas(seq(|docs|, i requires 0 <= i < |docs| => Print(docs[i]))) + Tail(Named(e.name, Print(e.doc)))
  {
    var list := Field(n, List(docs));
    FourFields(a, b, Field(p, Doc.Record([c, list])), e);
    TwoFields(c, list);
    var items := Commas(seq(|docs|, i requires 0 <= i < |docs| => Print(docs[i])));
    assert Print(list.doc) == ['['] + items + [']'];
    Nested(Named(a.name, Print(a.doc)), Named(b.name, Print(b.doc)), Quote(p) + [':'], Named(c.name, Print(c.doc)),
           Quote(n) + [':'], Named(e.name, Print(e.doc)), items);
  }

  lemma FramedEntries(a: Field, b: Field, p: Text, c: Field, n: Text, e: Field, entries: seq<Metadata>)
    ensures Print(Framed(a, b, p, c, n, e, EntryDocs(entries))) ==
            Head(Named(a.name, Print(a.doc)), Named(b.name, Print(b.doc)), p, Named(c.name, Print(c.doc)), n) +
            Commas(EntryPrints(entries)) + Tail(Named(e.name, Print(e.doc)))
  {
    var docs := EntryDocs(entries);
    FramedText(a, b, p, c, n, e, docs);
    assert seq(|docs|, i requires 0 <= i < |docs| => Print(docs[i])) == EntryPrints(entries);
  }

  lemma FramedWords(
    schema: Text, response: Text, status: Text, ok: Text, payload: Text, graph: Text, commands: Text, error: Text,
    entries: seq<Metadata>)
    ensures Print(Framed(Field(schema, Words(response)), Field(status, Words(ok)), payload, Field(schema, Words(graph)),
                         commands, Field(error, Nothing), EntryDocs(entries))) ==
            Head(Named(schema, Quote(response)), Named(status, Quote(ok)), payload, Named(schema, Quote(graph)), commands) +
            Commas(EntryPrints(entries)) + Tail(Named(error, "null"))
  {
    FramedEntries(Field(schema, Words(response)), Field(status, Words(ok)), payload, Field(schema, Words(graph)),
                  commands, Field(error, Nothing), entries);
  }

  function GraphHead(): Text {
    Head(Named(SCHEMA, Quote(RESPONSE_SCHEMA)), Named(STATUS, Quote(OK)), PAYLOAD, Named(SCHEMA, Quote(GRAPH_SCHEMA)), COMMANDS)
  }

  function GraphTail(): Text { Tail(Named(ERROR, "null")) }

  /** The printed graph, in the pieces the second pass appends. */
  lemma GraphPieces(entries: seq<Metadata>)
    ensures GraphText(entries) == GraphHead() + Commas(EntryPrints(entries)) + GraphTail()
  {
    FramedWords(SCHEMA, RESPONSE_SCHEMA, STATUS, OK, PAYLOAD, GRAPH_SCHEMA, COMMANDS, ERROR, entries);
  }

  lemma HeadLength(schema: Text, status: Text, payload: Text, inner: Text, commands: Text)
    ensures |Head(schema, status, payload, inner, commands)| <=
            |schema| + |status| + |inner| + 6 * (|payload| + |commands|) + 12
  {}

  lemma NamedLength(name: Text, value: Text)
    requires Plain(value)
    ensures |Named(name, Quote(value))| <= 6 * |name| + 5 + |value|
  {
    PlainEscape(value);
  }

  predicate FrameNamesShort(
    schema: Text, response: Text, status: Text, ok: Text, payload: Text, graph: Text, commands: Text, error: Text, none: Text) {
    && Plain(response) && Plain(ok) && Plain(graph) && |response| <= 24 && |graph| <= 24 && |ok| == 2 && |none| == 4
    && |schema| <= 8 && |status| <= 8 && |payload| <= 8 && |commands| <= 8 && |error| <= 8
  }

  lemma SchemasPlain()
    ensures FrameNamesShort(SCHEMA, RESPONSE_SCHEMA, STATUS, OK, PAYLOAD, GRAPH_SCHEMA, COMMANDS, ERROR, "null")
  {}

  lemma FrameLength(
    schema: Text, response: Text, status: Text, ok: Text, payload: Text, graph: Text, commands: Text, error: Text, none: Text)
    requires FrameNamesShort(schema, response, status, ok, payload, graph, commands, error, none)
    ensures |Head(Named(schema, Quote(response)), Named(status, Quote(ok)), payload, Named(schema, Quote(graph)), commands)| +
            |Tail(Named(error, none))| < ROOM
  {
    NamedLength(schema, response);
    NamedLength(status, ok);
    NamedLength(schema, graph);
    HeadLength(Named(schema, Quote(response)), Named(status, Quote(ok)), payload, Named(schema, Quote(graph)), commands);
    assert |Named(error, none)| <= 6 * |error| + 7;
  }

  lemma FrameFits()
    ensures |GraphHead()| + |GraphTail()| < ROOM
  {
    SchemasPlain();
    FrameLength(SCHEMA, RESPONSE_SCHEMA, STATUS, OK, PAYLOAD, GRAPH_SCHEMA, COMMANDS, ERROR, "null");
  }

  lemma PiecesFit(head: Text, parts: seq<Text>, tail: Text, room: nat)
    requires |head| + |tail| < ROOM && Total(parts) + |parts| <= room
    ensures |head + Commas(parts) + tail| < ROOM + room
  {
    if parts != [] {
      CommasLength(parts);
    }
  }

  lemma FramedFits(text: Text, head: Text, tail: Text, entries: seq<Metadata>)
    requires text == head + Commas(EntryPrints(entries)) + tail && |head| + |tail| < ROOM
    ensures |text| < GraphCapacity(entries)
  {
    EntriesFit(entries);
    PiecesFit(head, EntryPrints(entries), tail, EntriesRoom(entries));
  }

  /** The first pass's capacity exceeds the second pass's text, for any entries whatever. */
  lemma GraphFits(entries: seq<Metadata>)
    ensures |GraphText(entries)| < GraphCapacity(entries)
  {
    GraphPieces(entries);
    FrameFits();
    FramedFits(GraphText(entries), GraphHead(), GraphTail(), entries);
  }
}
