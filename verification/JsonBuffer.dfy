/** The fixed buffer the command graph is printed into: every append succeeds exactly when its text still fits. */
module JsonBuffer {
  import opened Bytes
  import opened Json
  import opened CommandTable
  import opened CommandGraph
  import opened GraphRoom

  class Buffer {
    const data: array<Byte>
    var length: nat

    ghost predicate Valid()
      reads this, data
    {
      length < data.Length && data[length] == NUL
    }

    function Contents(): Text
      reads this, data
      requires Valid()
    {
      data[..length]
    }

    constructor (capacity: nat)
      requires capacity > 0
      ensures Valid() && fresh(data) && data.Length == capacity && Contents() == []
    {
      data := new Byte[capacity](_ => NUL);
      length := 0;
    }

    method AppendChar(value: Byte) returns (ok: bool)
      requires Valid()
      modifies `length, data
      ensures Valid() && ok == (old(length) + 1 < data.Length)
      ensures Contents() == if ok then old(Contents()) + [value] else old(Contents())
    {
      if length + 1 >= data.Length {
        return false;
      }
      data[length] := value;
      length := length + 1;
      data[length] := NUL;
      ok := true;
    }

    method AppendRaw(text: Text) returns (ok: bool)
      requires Valid()
      modifies `length, data
      ensures Valid() && ok == (old(length) + |text| < data.Length)
      ensures Contents() == if ok then old(Contents()) + text else old(Contents())
    {
      if |text| > data.Length - length - 1 {
        return false;
      }
      ghost var before := Contents();
      for i := 0 to |text|
        invariant unchanged(`length) && data[..length] == before && data[length..length + i] == text[..i]
      {
        data[length + i] := text[i];
      }
      data[length + |text|] := NUL;
      length := length + |text|;
      assert data[..length] == before + text;
      ok := true;
    }

    method AppendUnicode(e: Text) returns (ok: bool)
      requires Valid() && |e| == 6
      modifies `length, data
      ensures Valid() && ok == (old(length) + 6 < data.Length)
      ensures ok ==> Contents() == old(Contents()) + e
    {
      ghost var before := Contents();
      ok := AppendRaw(e[..4]);
      if ok {
        ok := AppendChar(e[4]);
        if ok {
          ok := AppendChar(e[5]);
        }
      }
      assert before + e[..4] + [e[4]] + [e[5]] == before + e;
    }

    /** A backslash or a short escape takes two appends, a control character three. */
    method AppendEscaped(value: Byte) returns (ok: bool)
      requires Valid()
      modifies `length, data
      ensures Valid() && ok == (old(length) + |EscapeByte(value)| < data.Length)
      ensures ok ==> Contents() == old(Contents()) + EscapeByte(value)
    {
      var e := EscapeByte(value);
      ghost var before := Contents();
      if |e| == 6 {
        ok := AppendUnicode(e);
      } else if |e| == 2 {
        ok := AppendChar(e[0]);
        if ok {
          ok := AppendChar(e[1]);
        }
        assert before + [e[0]] + [e[1]] == before + e;
      } else {
        ok := AppendChar(e[0]);
        assert [e[0]] == e;
      }
    }

    method AppendBody(text: Text) returns (ok: bool)
      requires Valid()
      modifies `length, data
      ensures Valid() && ok == (old(length) + |Escape(text)| < data.Length)
      ensures ok ==> Contents() == old(Contents()) + Escape(text)
    {
      ghost var before := Contents();
      ok := true;
      for i := 0 to |text|
        invariant Valid() && ok && Contents() == before + Escape(text[..i])
      {
        ok := AppendEscaped(text[i]);
        EscapeSnoc(text, i);
        EscapePrefix(text, i + 1);
        Assoc(before, Escape(text[..i]), EscapeByte(text[i]));
        if !ok {
          return;
        }
      }
      assert text[..|text|] == text;
    }

    /** ulk_json_append_string */
    method AppendString(text: Text) returns (ok: bool)
      requires Valid()
      modifies `length, data
      ensures Valid() && ok == (old(length) + |Quote(text)| < data.Length)
      ensures ok ==> Contents() == old(Contents()) + Quote(text)
    {
      ghost var before := Contents();
      ok := AppendChar('"');
      if ok {
        ok := AppendBody(text);
        Assoc(before, ['"'], Escape(text));
        if ok {
          ok := AppendChar('"');
          Assoc(before, ['"'] + Escape(text), ['"']);
        }
      }
    }

    method AppendName(name: Text) returns (ok: bool)
      requires Valid()
      modifies `length, data
      ensures Valid() && ok == (old(length) + |Quote(name) + [':']| < data.Length)
      ensures ok ==> Contents() == old(Contents()) + (Quote(name) + [':'])
    {
      ghost var before := Contents();
      ok := AppendString(name);
      if ok {
        ok := AppendChar(':');
        Assoc(before, Quote(name), [':']);
      }
    }

    /** One member of an entry: a string, the executable flag, or the effects text as it is. */
    method AppendMember(m: Metadata, k: nat) returns (ok: bool)
      requires Valid() && k < 12
      modifies `length, data
      ensures Valid() && ok == (old(length) + |Named(FieldName(k), Print(EntryPartDoc(m, k)))| < data.Length)
      ensures ok ==> Contents() == old(Contents()) + Named(FieldName(k), Print(EntryPartDoc(m, k)))
    {
      ghost var before, name := Contents(), Quote(FieldName(k)) + [':'];
      ok := AppendName(FieldName(k));
      if ok {
        if k < 10 {
          ok := AppendString(EntryPart(m, k));
        } else if k == 10 {
          ok := AppendRaw("true");
        } else {
          ok := AppendRaw(m.descriptor.effects);
        }
        Assoc(before, name, Print(EntryPartDoc(m, k)));
      }
    }

    method AppendNextMember(m: Metadata, k: nat) returns (ok: bool)
      requires Valid() && k < 12
      modifies `length, data
      ensures Valid() && ok == (old(length) + |Next(EntryTexts(m), k)| < data.Length)
      ensures ok ==> Contents() == old(Contents()) + Next(EntryTexts(m), k)
    {
      ghost var before := Contents();
      ok := true;
      if k > 0 {
        ok := AppendChar(',');
      }
      if ok {
        ok := AppendMember(m, k);
        Assoc(before, [','], Named(FieldName(k), Print(EntryPartDoc(m, k))));
      }
    }

    /** The loop body: one member more, or no room for it. */
    method ExtendMembers(m: Metadata, k: nat, ghost parts: seq<Text>, ghost before: Text) returns (ok: bool)
      requires Valid() && k < 12 && parts == EntryTexts(m) && Contents() == before + Commas(parts[..k])
      modifies `length, data
      ensures Valid() && (ok ==> Contents() == before + Commas(parts[..k + 1]))
      ensures !ok ==> |before| + |Commas(parts)| >= data.Length
    {
      CommasSnoc(parts, k);
      Assoc(before, Commas(parts[..k]), Next(parts, k));
      ok := AppendNextMember(m, k);
    }

    method AppendMembers(m: Metadata) returns (ok: bool)
      requires Valid()
      modifies `length, data
      ensures Valid() && ok == (old(length) + |Commas(EntryTexts(m))| < data.Length)
      ensures ok ==> Contents() == old(Contents()) + Commas(EntryTexts(m))
    {
      ghost var before, parts := Contents(), EntryTexts(m);
      ok := true;
      for k := 0 to 12
        invariant Valid() && ok && Contents() == before + Commas(parts[..k])
      {
        ok := ExtendMembers(m, k, parts, before);
        if !ok {
          return;
        }
      }
      assert parts[..12] == parts;
    }

    method AppendEntry(m: Metadata) returns (ok: bool)
      requires Valid()
      modifies `length, data
      ensures Valid() && ok == (old(length) + |Print(EntryDoc(m))| < data.Length)
      ensures ok ==> Contents() == old(Contents()) + Print(EntryDoc(m))
    {
      ghost var before, members := Contents(), Commas(EntryTexts(m));
      EntryText(m);
      ok := AppendChar('{');
      if ok {
        ok := AppendMembers(m);
        Assoc(before, ['{'], members);
        if ok {
          ok := AppendChar('}');
          Assoc(before, ['{'] + members, ['}']);
        }
      }
    }

    /** ulk_json_append_metadata */
    method AppendMetadata(m: Metadata, prependComma: bool) returns (ok: bool)
      requires Valid()
      modifies `length, data
      ensures Valid()
      ensures var t := if prependComma then [','] + Print(EntryDoc(m)) else Print(EntryDoc(m));
              ok == (old(length) + |t| < data.Length) && (ok ==> Contents() == old(Contents()) + t)
    {
      ghost var before := Contents();
      ok := true;
      if prependComma {
        ok := AppendChar(',');
      }
      if ok {
        ok := AppendEntry(m);
        Assoc(before, [','], Print(EntryDoc(m)));
      }
    }
  }
}
