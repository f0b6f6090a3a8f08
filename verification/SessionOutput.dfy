/** Rendering a document into the growing text buffer. */
module SessionOutput {
  import opened Bytes
  import opened SessionRecord
  import opened Json
  import opened TextBuilder

  // ----- rendering -----

  lemma NextEscape(before: Text, text: Text, cursor: nat)
    requires cursor < |text|
    ensures (before + Escape(text[..cursor])) + EscapeByte(text[cursor]) == before + Escape(text[..cursor + 1])
    ensures |Escape(text[..cursor])| + |EscapeByte(text[cursor])| <= |Escape(text)|
  {
    EscapeSnoc(text, cursor);
    EscapePrefix(text, cursor + 1);
    Assoc(before, Escape(text[..cursor]), EscapeByte(text[cursor]));
  }

  method AppendEscaped(output: Builder, text: Text) returns (ok: bool)
    requires output.Valid()
    modifies output, output.data
    ensures output.Readable() && (output.data == old(output.data) || fresh(output.data))
    ensures ok ==> output.Valid() && output.Contents() == old(output.Contents()) + Escape(text)
    ensures output.Excused(ok, Escape(text))
  {
    ghost var before := output.Contents();
    ok := true;
    for cursor := 0 to |text|
      invariant output.Valid() && ok && output.refusals == old(output.refusals)
      invariant output.data == old(output.data) || fresh(output.data)
      invariant output.Contents() == before + Escape(text[..cursor])
    {
      NextEscape(before, text, cursor);
      ok := output.Append(EscapeByte(text[cursor]));
      if !ok {
        return;
      }
    }
    assert text[..|text|] == text;
  }

  lemma Enclosed(before: Text, left: Byte, middle: Text, right: Byte)
    ensures before + [left] + middle + [right] == before + ([left] + middle + [right])
  {}

  /** ulk_builder_append_json_string */
  method AppendJsonString(output: Builder, text: Text) returns (ok: bool)
    requires output.Valid()
    modifies output, output.data
    ensures output.Readable() && (output.data == old(output.data) || fresh(output.data))
    ensures ok ==> output.Valid() && output.Contents() == old(output.Contents()) + Quote(text)
    ensures output.Excused(ok, Quote(text))
  {
    Enclosed(output.Contents(), '"', Escape(text), '"');
    ok := output.Append(['"']);
    if ok {
      ok := AppendEscaped(output, text);
      if ok {
        ok := output.Append(['"']);
      }
    }
  }

  function PrintedItems(items: seq<Doc>): (parts: seq<Text>)
    ensures |parts| == |items|
  {
    seq(|items|, i requires 0 <= i < |items| => Print(items[i]))
  }

  function PrintedFields(fields: seq<Field>): (parts: seq<Text>)
    ensures |parts| == |fields|
  {
    seq(|fields|, i requires 0 <= i < |fields| => Named(fields[i].name, Print(fields[i].doc)))
  }

  function Comma(i: nat): Text { if i == 0 then [] else [','] }

  lemma NextPart(before: Text, parts: seq<Text>, i: nat)
    requires i < |parts|
    ensures (before + Comma(i)) + parts[i] == before + Next(parts, i)
    ensures |Next(parts, i)| == |Comma(i)| + |parts[i]|
  {
    Assoc(before, Comma(i), parts[i]);
  }

  method AppendComma(output: Builder, i: nat) returns (ok: bool)
    requires output.Valid()
    modifies output, output.data
    ensures output.Readable() && (output.data == old(output.data) || fresh(output.data))
    ensures ok ==> output.Valid() && output.Contents() == old(output.Contents()) + Comma(i)
    ensures output.Excused(ok, Comma(i))
  {
    ok := true;
    if i != 0 {
      ok := output.Append([',']);
    }
  }

  method AppendItem(output: Builder, items: seq<Doc>, i: nat) returns (ok: bool)
    requires output.Valid() && i < |items|
    modifies output, output.data
    ensures output.Readable() && (output.data == old(output.data) || fresh(output.data))
    ensures ok ==> output.Valid() && output.Contents() == old(output.Contents()) + Next(PrintedItems(items), i)
    ensures output.Excused(ok, Next(PrintedItems(items), i))
    decreases items[i], 2
  {
    NextPart(output.Contents(), PrintedItems(items), i);
    ok := AppendComma(output, i);
    if ok {
      ok := AppendDoc(output, items[i]);
    }
  }

  method AppendItems(output: Builder, items: seq<Doc>) returns (ok: bool)
    requires output.Valid()
    modifies output, output.data
    ensures output.Readable() && (output.data == old(output.data) || fresh(output.data))
    ensures ok ==> output.Valid() && output.Contents() == old(output.Contents()) + Commas(PrintedItems(items))
    ensures output.Excused(ok, Commas(PrintedItems(items)))
    decreases items, 3
  {
    ghost var before, parts := output.Contents(), PrintedItems(items);
    ok := true;
    for i := 0 to |items|
      invariant output.Valid() && ok && output.refusals == old(output.refusals)
      invariant output.data == old(output.data) || fresh(output.data)
      invariant output.Contents() == before + Commas(parts[..i])
    {
      CommasSnoc(parts, i);
      ok := AppendItem(output, items, i);
      if !ok {
        return;
      }
      Assoc(before, Commas(parts[..i]), Next(parts, i));
    }
    assert parts[..|items|] == parts;
  }

  method AppendNamed(output: Builder, name: Text, doc: Doc) returns (ok: bool)
    requires output.Valid()
    modifies output, output.data
    ensures output.Readable() && (output.data == old(output.data) || fresh(output.data))
    ensures ok ==> output.Valid() && output.Contents() == old(output.Contents()) + Named(name, Print(doc))
    ensures output.Excused(ok, Named(name, Print(doc)))
    decreases doc, 2
  {
    ghost var before := output.Contents();
    ok := output.Append(Quote(name) + [':']);
    if ok {
      ok := AppendDoc(output, doc);
      Assoc(before, Quote(name) + [':'], Print(doc));
    }
  }

  method AppendField(output: Builder, fields: seq<Field>, i: nat) returns (ok: bool)
    requires output.Valid() && i < |fields|
    modifies output, output.data
    ensures output.Readable() && (output.data == old(output.data) || fresh(output.data))
    ensures ok ==> output.Valid() && output.Contents() == old(output.Contents()) + Next(PrintedFields(fields), i)
    ensures output.Excused(ok, Next(PrintedFields(fields), i))
    decreases fields[i], 2
  {
    NextPart(output.Contents(), PrintedFields(fields), i);
    ok := AppendComma(output, i);
    if ok {
      ok := AppendNamed(output, fields[i].name, fields[i].doc);
    }
  }

  method AppendFields(output: Builder, fields: seq<Field>) returns (ok: bool)
    requires output.Valid()
    modifies output, output.data
    ensures output.Readable() && (output.data == old(output.data) || fresh(output.data))
    ensures ok ==> output.Valid() && output.Contents() == old(output.Contents()) + Commas(PrintedFields(fields))
    ensures output.Excused(ok, Commas(PrintedFields(fields)))
    decreases fields, 3
  {
    ghost var before, parts := output.Contents(), PrintedFields(fields);
    ok := true;
    for i := 0 to |fields|
      invariant output.Valid() && ok && output.refusals == old(output.refusals)
      invariant output.data == old(output.data) || fresh(output.data)
      invariant output.Contents() == before + Commas(parts[..i])
    {
      CommasSnoc(parts, i);
      ok := AppendField(output, fields, i);
      if !ok {
        return;
      }
      Assoc(before, Commas(parts[..i]), Next(parts, i));
    }
    assert parts[..|fields|] == parts;
  }

  method AppendList(output: Builder, items: seq<Doc>) returns (ok: bool)
    requires output.Valid()
    modifies output, output.data
    ensures output.Readable() && (output.data == old(output.data) || fresh(output.data))
    ensures ok ==>
              output.Valid() && output.Contents() == old(output.Contents()) + (['['] + Commas(PrintedItems(items)) + [']'])
    ensures output.Excused(ok, (['['] + Commas(PrintedItems(items)) + [']']))
    decreases items, 4
  {
    Enclosed(output.Contents(), '[', Commas(PrintedItems(items)), ']');
    ok := output.Append(['[']);
    if ok {
      ok := AppendItems(output, items);
      if ok {
        ok := output.Append([']']);
      }
    }
  }

  method AppendObject(output: Builder, fields: seq<Field>) returns (ok: bool)
    requires output.Valid()
    modifies output, output.data
    ensures output.Readable() && (output.data == old(output.data) || fresh(output.data))
    ensures ok ==>
              output.Valid() && output.Contents() == old(output.Contents()) + (['{'] + Commas(PrintedFields(fields)) + ['}'])
    ensures output.Excused(ok, (['{'] + Commas(PrintedFields(fields)) + ['}']))
    decreases fields, 4
  {
    Enclosed(output.Contents(), '{', Commas(PrintedFields(fields)), '}');
    ok := output.Append(['{']);
    if ok {
      ok := AppendFields(output, fields);
      if ok {
        ok := output.Append(['}']);
      }
    }
  }

  /** Appends the text of a document, or stops at the first refused allocation. */
  method AppendDoc(output: Builder, d: Doc) returns (ok: bool)
    requires output.Valid()
    modifies output, output.data
    ensures output.Readable() && (output.data == old(output.data) || fresh(output.data))
    ensures ok ==> output.Valid() && output.Contents() == old(output.Contents()) + Print(d)
    ensures output.Excused(ok, Print(d))
    decreases d, 1
  {
    match d {
      case Words(text) => ok := AppendJsonString(output, text);
      case Integer(n) => ok := output.AppendInteger(n);
      case List(items) => ok := AppendList(output, items);
      case Record(fields) => ok := AppendObject(output, fields);
      case _ => ok := output.Append(Print(d));
    }
  }
}
