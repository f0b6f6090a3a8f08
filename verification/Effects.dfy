/** The effects field of a command descriptor: a JSON array of plain tokens, embedded as it is in the command graph. */
module Effects {
  import opened Bytes
  import opened Recognisers
  import opened Json

  predicate IsTokenCharacter(c: Byte) {
    IsLower(c) || IsDigit(c) || c == '_' || c == '.' || c == '-'
  }

  predicate IsToken(t: Text) {
    t != [] && forall i :: 0 <= i < |t| ==> IsTokenCharacter(t[i])
  }

  predicate AllBlank(t: Text) {
    forall i :: 0 <= i < |t| ==> IsBlank(t[i])
  }

  // ----- the grammar -----

  /** `t` is `before`, a quoted token, `after`, and the rest. */
  ghost predicate IsItem(t: Text, before: Text, token: Text, after: Text, rest: Text) {
    AllBlank(before) && IsToken(token) && AllBlank(after) && t == before + (['"'] + (token + (['"'] + (after + rest))))
  }

  /** items = item *( "," item ) "]" ws */
  ghost predicate IsItems(t: Text, tokens: seq<Text>)
    decreases |tokens|
  {
    tokens != [] &&
    exists before: Text, after: Text, rest: Text ::
      && IsItem(t, before, tokens[0], after, rest) && rest != []
      && if |tokens| == 1 then rest[0] == ']' && AllBlank(rest[1..])
         else rest[0] == ',' && IsItems(rest[1..], tokens[1..])
  }

  /** effects = ws "[" items */
  ghost predicate IsEffectsOf(t: Text, tokens: seq<Text>) {
    exists before: Text, rest: Text :: AllBlank(before) && t == before + (['['] + rest) && IsItems(rest, tokens)
  }

  ghost predicate IsEffects(t: Text) {
    IsText(t) && exists tokens :: IsEffectsOf(t, tokens)
  }

  // ----- the grammar is deterministic -----

  lemma {:induction false} SkipBlankOver(before: Text, t: Text)
    requires AllBlank(before)
    ensures SkipBlank(before + t) == SkipBlank(t)
  {
    if before == [] {
      assert before + t == t;
    } else {
      assert (before + t)[1..] == before[1..] + t;
      SkipBlankOver(before[1..], t);
    }
  }

  lemma {:induction false} SkipBlankSplit(t: Text) returns (before: Text)
    ensures AllBlank(before) && t == before + SkipBlank(t)
  {
    if t != [] && IsBlank(t[0]) {
      var more := SkipBlankSplit(t[1..]);
      before := [t[0]] + more;
      assert t == [t[0]] + t[1..] == [t[0]] + (more + SkipBlank(t)) == before + SkipBlank(t);
    } else {
      before := [];
    }
  }

  lemma BlankIffSkipped(t: Text)
    ensures AllBlank(t) <==> SkipBlank(t) == []
  {}

  /** How many token characters `t` starts with. */
  function TokenRun(t: Text): (n: nat)
    ensures n <= |t| && (forall i :: 0 <= i < n ==> IsTokenCharacter(t[i]))
    ensures n < |t| ==> !IsTokenCharacter(t[n])
  {
    if t != [] && IsTokenCharacter(t[0]) then 1 + TokenRun(t[1..]) else 0
  }

  lemma {:induction false} TokenRunIs(token: Text, more: Text)
    requires (forall i :: 0 <= i < |token| ==> IsTokenCharacter(token[i])) && (more == [] || !IsTokenCharacter(more[0]))
    ensures TokenRun(token + more) == |token|
  {
    if token == [] {
      assert token + more == more;
    } else {
      assert (token + more)[1..] == token[1..] + more;
      TokenRunIs(token[1..], more);
    }
  }

  /** What the scanner sees from `u`, after blanks: a quoted token and then `w`, or nothing of the kind. */
  function NextItem(u: Text): Option<(Text, Text)> {
    var v := SkipBlank(u);
    if v == [] || v[0] != '"' then None
    else
      var n := TokenRun(v[1..]);
      if n == 0 || 1 + n >= |v| || v[1 + n] != '"' then None
      else Some((v[1..1 + n], SkipBlank(v[2 + n..])))
  }

  lemma NextItemIs(u: Text, before: Text, token: Text, after: Text, rest: Text)
    requires IsItem(u, before, token, after, rest) && rest != [] && !IsBlank(rest[0])
    ensures NextItem(u) == Some((token, rest))
  {
    var tail := ['"'] + (after + rest);
    var v := ['"'] + (token + tail);
    SkipBlankOver(before, v);
    assert SkipBlank(v) == v && v[1..] == token + tail;
    TokenRunIs(token, tail);
    assert v[1..1 + |token|] == (token + tail)[..|token|] == token && v[1 + |token|] == tail[0];
    assert v[2 + |token|..] == tail[1..] == after + rest;
    SkipBlankOver(after, rest);
  }

  lemma NextItemFits(u: Text) returns (before: Text, after: Text)
    requires NextItem(u).Some?
    ensures IsItem(u, before, NextItem(u).value.0, after, NextItem(u).value.1)
  {
    before := SkipBlankSplit(u);
    var v := SkipBlank(u);
    var n := NextItemAt(u, v);
    after := SkipBlankSplit(v[2 + n..]);
    ItemFrom(u, before, v, n, after, SkipBlank(v[2 + n..]));
  }

  lemma NextItemAt(u: Text, v: Text) returns (n: nat)
    requires v == SkipBlank(u) && NextItem(u).Some?
    ensures 1 + n < |v| && v[0] == '"' == v[1 + n] && IsToken(v[1..1 + n])
    ensures NextItem(u) == Some((v[1..1 + n], SkipBlank(v[2 + n..])))
  {
    n := TokenRun(v[1..]);
    TokenAfterQuote(v, n);
  }

  lemma TokenAfterQuote(v: Text, n: nat)
    requires v != [] && n == TokenRun(v[1..]) > 0
    ensures IsToken(v[1..1 + n])
  {}

  lemma ItemFrom(u: Text, before: Text, v: Text, n: nat, after: Text, rest: Text)
    requires u == before + v && 1 + n < |v| && v[0] == '"' == v[1 + n] && v[2 + n..] == after + rest
    requires AllBlank(before) && IsToken(v[1..1 + n]) && AllBlank(after)
    ensures IsItem(u, before, v[1..1 + n], after, rest)
  {}

  ghost predicate HasItems(u: Text) { exists tokens :: IsItems(u, tokens) }

  /** One turn of the scan: the list goes on after a comma, ends with the bracket, or is broken. */
  lemma ScanTurn(u: Text)
    ensures HasItems(u) <==>
            NextItem(u).Some? &&
            var w := NextItem(u).value.1;
            w != [] && ((w[0] == ']' && AllBlank(w[1..])) || (w[0] == ',' && HasItems(w[1..])))
  {
    if HasItems(u) {
      var tokens :| IsItems(u, tokens);
      var before: Text, after: Text, rest: Text :|
        && IsItem(u, before, tokens[0], after, rest) && rest != []
        && if |tokens| == 1 then rest[0] == ']' && AllBlank(rest[1..])
           else rest[0] == ',' && IsItems(rest[1..], tokens[1..]);
      NextItemIs(u, before, tokens[0], after, rest);
    }
    if NextItem(u).Some? {
      var before, after := NextItemFits(u);
      var token, w := NextItem(u).value.0, NextItem(u).value.1;
      if w != [] && w[0] == ']' && AllBlank(w[1..]) {
        assert IsItem(u, before, [token][0], after, w);
        assert IsItems(u, [token]);
      } else if w != [] && w[0] == ',' && HasItems(w[1..]) {
        var tokens :| IsItems(w[1..], tokens);
        assert IsItem(u, before, ([token] + tokens)[0], after, w) && ([token] + tokens)[1..] == tokens;
        assert IsItems(u, [token] + tokens);
      }
    }
  }

  ghost predicate OpensItems(t: Text) {
    SkipBlank(t) != [] && SkipBlank(t)[0] == '[' && HasItems(SkipBlank(t)[1..])
  }

  lemma EffectsOpen(t: Text, tokens: seq<Text>)
    requires IsEffectsOf(t, tokens)
    ensures OpensItems(t)
  {
    var before: Text, rest: Text :| AllBlank(before) && t == before + (['['] + rest) && IsItems(rest, tokens);
    SkipBlankOver(before, ['['] + rest);
    assert SkipBlank(t) == ['['] + rest && SkipBlank(t)[1..] == rest;
  }

  lemma OpeningHasEffects(t: Text)
    requires OpensItems(t)
    ensures exists tokens :: IsEffectsOf(t, tokens)
  {
    var before := SkipBlankSplit(t);
    var u := SkipBlank(t);
    var tokens :| IsItems(u[1..], tokens);
    assert u == ['['] + u[1..];
    assert IsEffectsOf(t, tokens);
  }

  lemma ScanOpening(t: Text)
    ensures (exists tokens :: IsEffectsOf(t, tokens)) <==> OpensItems(t)
  {
    if tokens :| IsEffectsOf(t, tokens) {
      EffectsOpen(t, tokens);
    }
    if OpensItems(t) {
      OpeningHasEffects(t);
    }
  }

  // ----- the scanner -----

  method SkipSpace(t: Text, start: nat) returns (index: nat)
    requires start <= |t|
    ensures start <= index <= |t| && t[index..] == SkipBlank(t[start..])
  {
    index := start;
    while index < |t| && IsBlank(t[index])
      invariant start <= index <= |t| && SkipBlank(t[index..]) == SkipBlank(t[start..])
    {
      assert t[index..][1..] == t[index + 1..];
      index := index + 1;
    }
  }

  method SkipToken(t: Text, start: nat) returns (index: nat)
    requires start <= |t|
    ensures start <= index <= |t| && index - start == TokenRun(t[start..])
  {
    index := start;
    while index < |t| && IsTokenCharacter(t[index])
      invariant start <= index <= |t| && index - start + TokenRun(t[index..]) == TokenRun(t[start..])
    {
      assert t[index..][1..] == t[index + 1..];
      index := index + 1;
    }
  }

  /** One quoted token with the blanks around it; afterwards `index` is at the separator, if there is one. */
  method ScanItem(t: Text, start: nat) returns (ok: bool, index: nat)
    requires start <= |t|
    ensures start <= index <= |t| && (ok ==> start < index)
    ensures HasItems(t[start..]) <==> ok && ItemsGoOn(t, index)
  {
    ScanTurn(t[start..]);
    ok, index := FindItem(t, start);
    if ok && index < |t| {
      assert t[index..][1..] == t[index + 1..];
    }
  }

  /** The separator at `index` ends the list properly or is followed by more of it. */
  ghost predicate ItemsGoOn(t: Text, index: nat) {
    index < |t| && ((t[index] == ']' && AllBlank(t[index + 1..])) || (t[index] == ',' && HasItems(t[index + 1..])))
  }

  lemma NextItemSeen(u: Text, v: Text, n: nat)
    requires v == SkipBlank(u) && v != [] && v[0] == '"' && n == TokenRun(v[1..])
    ensures NextItem(u) ==
            if n == 0 || 1 + n >= |v| || v[1 + n] != '"' then None else Some((v[1..1 + n], SkipBlank(v[2 + n..])))
  {}

  method FindItem(t: Text, start: nat) returns (ok: bool, index: nat)
    requires start <= |t|
    ensures start <= index <= |t| && ok == NextItem(t[start..]).Some?
    ensures ok ==> start < index && t[index..] == NextItem(t[start..]).value.1
  {
    index := SkipSpace(t, start);
    ghost var v := t[index..];
    if index >= |t| || t[index] != '"' {
      return false, index;
    }
    var first := index + 1;
    assert v[1..] == t[first..];
    index := SkipToken(t, first);
    NextItemSeen(t[start..], v, index - first);
    if index == first || index >= |t| || t[index] != '"' {
      return false, index;
    }
    assert v[2 + (index - first)..] == t[index + 1..];
    index := SkipSpace(t, index + 1);
    ok := true;
  }

  method ScanList(t: Text, start: nat) returns (ok: bool)
    requires start <= |t|
    ensures ok <==> HasItems(t[start..])
  {
    var index := start;
    while true
      invariant start <= index <= |t|
      invariant HasItems(t[index..]) <==> HasItems(t[start..])
      decreases |t| - index
    {
      ok, index := ScanItem(t, index);
      if !ok || index >= |t| {
        return false;
      }
      if t[index] == ']' {
        break;
      }
      if t[index] != ',' {
        return false;
      }
      index := index + 1;
    }
    BlankIffSkipped(t[index + 1..]);
    index := SkipSpace(t, index + 1);
    ok := index == |t|;
  }

  /** ulk_effects_json_is_valid */
  method ScanEffects(t: Text) returns (ok: bool)
    ensures ok <==> IsEffects(t)
  {
    ok := ScanText(t);
    if !ok {
      return;
    }
    ScanOpening(t);
    assert t[0..] == t;
    var index := SkipSpace(t, 0);
    if index >= |t| || t[index] != '[' {
      return false;
    }
    assert SkipBlank(t)[1..] == t[index + 1..];
    ok := ScanList(t, index + 1);
  }

  // ----- what a JSON reader makes of it -----

  function Strings(tokens: seq<Text>): (vs: seq<Value>)
    ensures |vs| == |tokens|
  {
    seq(|tokens|, i requires 0 <= i < |tokens| => String(tokens[i]))
  }

  lemma {:induction false} EscapeToken(token: Text)
    requires forall i :: 0 <= i < |token| ==> IsTokenCharacter(token[i])
    ensures Escape(token) == token
  {
    if token != [] {
      EscapeToken(token[1..]);
      assert token == [token[0]] + token[1..];
    }
  }

  lemma ReadBlank(before: Text, t: Text)
    requires AllBlank(before)
    ensures ReadValue(before + t) == ReadValue(t)
  {
    SkipBlankOver(before, t);
  }

  lemma ReadItemToken(u: Text, before: Text, token: Text, after: Text, rest: Text)
    requires IsItem(u, before, token, after, rest) && rest != [] && (rest[0] == ',' || rest[0] == ']')
    ensures ReadUpTo(ReadValue(u), String(token), rest)
  {
    var more := after + rest;
    EscapeToken(token);
    assert ['"'] + (token + (['"'] + more)) == Quote(token) + more;
    ReadBlank(before, Quote(token) + more);
    assert Delimited(more) by {
      assert more[0] == if after == [] then rest[0] else after[0];
    }
    WordsDenotes(token);
    SkipBlankOver(after, rest);
  }

  lemma ItemAppend(u: Text, before: Text, token: Text, after: Text, rest: Text, more: Text)
    requires IsItem(u, before, token, after, rest)
    ensures IsItem(u + more, before, token, after, rest + more)
  {}

  /** Read up to the bracket; only blanks of the text itself come before what follows it. */
  lemma {:induction false} ReadEffectItems(u: Text, tokens: seq<Text>, more: Text)
    requires IsItems(u, tokens)
    ensures ReadUpTo(ReadItems(u + more), Strings(tokens), more)
    decreases |tokens|
  {
    var before: Text, after: Text, rest: Text :|
      && IsItem(u, before, tokens[0], after, rest) && rest != []
      && if |tokens| == 1 then rest[0] == ']' && AllBlank(rest[1..])
         else rest[0] == ',' && IsItems(rest[1..], tokens[1..]);
    ItemAppend(u, before, tokens[0], after, rest, more);
    ReadItemToken(u + more, before, tokens[0], after, rest + more);
    assert (rest + more)[1..] == rest[1..] + more;
    if |tokens| == 1 {
      SkipBlankOver(rest[1..], more);
      assert Strings(tokens) == [String(tokens[0])];
    } else {
      ReadEffectItems(rest[1..], tokens[1..], more);
      assert Strings(tokens) == [String(tokens[0])] + Strings(tokens[1..]);
    }
  }

  /** An accepted effects text is a JSON array of its tokens, wherever it is embedded. */
  lemma EffectsDenote(t: Text, tokens: seq<Text>)
    requires IsEffectsOf(t, tokens)
    ensures Denotes(t, Array(Strings(tokens)))
  {
    var before: Text, rest: Text :| AllBlank(before) && t == before + (['['] + rest) && IsItems(rest, tokens);
    SkipBlankOver(before, ['['] + rest);
    assert SkipBlank(['['] + rest) == ['['] + rest;
    forall more: Text | Delimited(more)
      ensures ReadUpTo(ReadValue(t + more), Array(Strings(tokens)), more)
    {
      assert t + more == before + (['['] + (rest + more));
      ReadBlank(before, ['['] + (rest + more));
      ReadEffectItems(rest, tokens, more);
      ItemsStart(rest, tokens, more);
      OpenList(rest + more);
    }
  }

  lemma ItemsStart(u: Text, tokens: seq<Text>, more: Text)
    requires IsItems(u, tokens)
    ensures Starts(u + more)
  {
    var before: Text, after: Text, rest: Text :| IsItem(u, before, tokens[0], after, rest);
    ItemAppend(u, before, tokens[0], after, rest, more);
    SkipBlankOver(before, ['"'] + (tokens[0] + (['"'] + (after + (rest + more)))));
  }

  lemma OpenList(body: Text)
    requires Starts(body) && ReadItems(body).Got?
    ensures ReadValue(['['] + body) == Got(Array(ReadItems(body).value), ReadItems(body).rest)
  {}

  /** The tokens an accepted text lists are determined by the text. */
  lemma EffectsUnique(t: Text, tokens: seq<Text>, tokens': seq<Text>)
    requires IsEffectsOf(t, tokens) && IsEffectsOf(t, tokens')
    ensures tokens == tokens'
  {
    EffectsDenote(t, tokens);
    EffectsDenote(t, tokens');
    assert ReadUpTo(ReadValue(t + []), Array(Strings(tokens)), []);
    assert ReadUpTo(ReadValue(t + []), Array(Strings(tokens')), []);
    assert forall i :: 0 <= i < |tokens| ==> Strings(tokens)[i] == String(tokens[i]);
    assert forall i :: 0 <= i < |tokens'| ==> Strings(tokens')[i] == String(tokens'[i]);
  }
}
