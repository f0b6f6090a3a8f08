/** The growing text buffer that records and JSON are printed into. */
module TextBuilder {
  import opened Bytes
  import opened FieldCodec

  lemma {:induction false} EncodeHexConcat(s: Text, t: Text)
    ensures EncodeHex(s + t) == EncodeHex(s) + EncodeHex(t)
    decreases |s|
  {
    if s == [] {
      assert s + t == t;
    } else {
      assert (s + t)[1..] == s[1..] + t;
      EncodeHexConcat(s[1..], t);
    }
  }

  lemma EncodeHexSnoc(t: Text, k: nat)
    requires k < |t|
    ensures EncodeHex(t[..k + 1]) ==
            EncodeHex(t[..k]) + [HexDigit(t[k] as int / 16), HexDigit(t[k] as int % 16)]
  {
    assert t[..k + 1] == t[..k] + [t[k]];
    EncodeHexConcat(t[..k], [t[k]]);
    assert EncodeHex([t[k]]) == [HexDigit(t[k] as int / 16), HexDigit(t[k] as int % 16)] + EncodeHex([]);
  }

  lemma NextHex(before: Text, t: Text, k: nat)
    requires k < |t|
    ensures var digits: Text := [HexDigit(t[k] as int / 16), HexDigit(t[k] as int % 16)];
            (before + EncodeHex(t[..k])) + digits == before + EncodeHex(t[..k + 1])
    ensures |EncodeHex(t[..k])| + 2 <= |EncodeHex(t)|
  {
    EncodeHexSnoc(t, k);
  }

  /** A block that doubles until the text and its terminator fit. A refused reallocation leaves the text as it was. */
  class Builder {
    var data: array?<Byte>
    var size: nat
    var capacity: nat
    ghost var refusals: nat

    ghost predicate Readable()
      reads this, data
    {
      if data == null then size == 0 else size < data.Length <= SIZE_MAX && data[size] == NUL
    }

    /** `capacity` is the length of the block; a refused reallocation breaks this, and every caller gives up then. */
    ghost predicate Valid()
      reads this, data
    {
      Readable() && capacity == if data == null then 0 else data.Length
    }

    function Contents(): Text
      reads this, data
      requires Readable()
    {
      if data == null then [] else data[..size]
    }

    constructor ()
      ensures Valid() && data == null && Contents() == [] && refusals == 0
    {
      data, size, capacity, refusals := null, 0, 0, 0;
    }

    /** A failed append has one of two reasons: a refused allocation, or a text too long for any allocation. */
    twostate predicate Excused(ok: bool, text: Text)
      reads this
    {
      && refusals >= old(refusals)
      && (ok ==> refusals == old(refusals))
      && (!ok ==> refusals > old(refusals) || old(size) + |text| >= SIZE_MAX)
    }

    method Reserve(extra: nat) returns (ok: bool)
      requires Valid()
      modifies this
      ensures Readable() && Contents() == old(Contents()) && size == old(size)
      ensures ok ==> Valid() && data != null && size + extra < data.Length && (data == old(data) || fresh(data))
      ensures !ok ==> data == old(data)
      ensures refusals == old(refusals) + if ok || old(size) + extra >= SIZE_MAX then 0 else 1
    {
      if extra > SIZE_MAX - size - 1 {
        return false;
      }
      var required := size + extra + 1;
      if required <= capacity {
        return true;
      }
      if capacity == 0 {
        capacity := 256;
      }
      while capacity < required
        invariant 0 < capacity <= SIZE_MAX
        invariant unchanged(`data) && unchanged(`size) && unchanged(`refusals)
        decreases required - capacity
      {
        if capacity > SIZE_MAX / 2 {
          capacity := required;
          break;
        }
        capacity := capacity * 2;
      }
      var granted: bool := *;
      if !granted {
        refusals := refusals + 1;
        return false;
      }
      var replacement := new Byte[capacity](_ => NUL);
      if data != null {
        var block: array<Byte> := data;
        for i := 0 to size
          invariant unchanged(`data) && unchanged(`size) && unchanged(`refusals) && capacity == replacement.Length && fresh(replacement)
          invariant replacement[..i] == block[..i]
          invariant forall k :: i <= k < replacement.Length ==> replacement[k] == NUL
        {
          replacement[i] := block[i];
        }
      }
      data := replacement;
      return true;
    }

    /** memcpy to `size`, and the terminator behind it. */
    static method WriteAt(block: array<Byte>, size: nat, text: Text)
      requires size + |text| < block.Length
      modifies block
      ensures block[..size + |text|] == old(block[..size]) + text && block[size + |text|] == NUL
    {
      for i := 0 to |text|
        invariant block[..size] == old(block[..size]) && block[size..size + i] == text[..i]
      {
        block[size + i] := text[i];
      }
      block[size + |text|] := NUL;
      assert block[..size + |text|] == block[..size] + block[size..size + |text|];
    }

    method Append(text: Text) returns (ok: bool)
      requires Valid()
      modifies this, data
      ensures Readable() && Contents() == if ok then old(Contents()) + text else old(Contents())
      ensures ok ==> Valid()
      ensures data == old(data) || fresh(data)
      ensures Excused(ok, text)
    {
      ghost var before := Contents();
      ok := Reserve(|text|);
      if ok {
        WriteAt(data, size, text);
        size := size + |text|;
        assert data[..size] == before + text;
      }
    }

    /** Two digits a byte. */
    method AppendHex(text: Text) returns (ok: bool)
      requires Valid()
      modifies this, data
      ensures Readable()
      ensures ok ==> Valid() && Contents() == old(Contents()) + EncodeHex(text)
      ensures data == old(data) || fresh(data)
      ensures Excused(ok, EncodeHex(text))
    {
      ok := true;
      ghost var before := Contents();
      for cursor := 0 to |text|
        invariant Valid() && ok && refusals == old(refusals)
        invariant data == old(data) || fresh(data)
        invariant Contents() == before + EncodeHex(text[..cursor])
      {
        NextHex(before, text, cursor);
        ok := Append([HexDigit(text[cursor] as int / 16), HexDigit(text[cursor] as int % 16)]);
        if !ok {
          return;
        }
      }
      assert text[..|text|] == text;
    }

    method AppendInteger(value: int) returns (ok: bool)
      requires Valid()
      modifies this, data
      ensures Readable()
      ensures ok ==> Valid() && Contents() == old(Contents()) + PrintInt(value)
      ensures data == old(data) || fresh(data)
      ensures Excused(ok, PrintInt(value))
    {
      ok := Append(PrintInt(value));
    }
  }
}
