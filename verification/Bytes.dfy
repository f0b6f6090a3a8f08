/** Byte strings as the C sources see them, with the few <string.h> operations the modelled code relies on. */
module Bytes {

  /** One byte of a C string or file, written as the character with that code. */
  type Byte = c: char | c < 256 as char

  type Text = seq<Byte>

  /** uint32_t */
  type Word32 = n: int | 0 <= n <= 0xffff_ffff

  const NUL: Byte := 0 as char

  /** Of size_t and ulk_size, on a 64-bit platform. */
  const SIZE_MAX: nat := 0xffff_ffff_ffff_ffff

  datatype Option<+T> = None | Some(value: T) {
    predicate IsFailure() {
      None?
    }

    function PropagateFailure<U>(): Option<U>
      requires None?
    {
      None
    }

    function Extract(): T
      requires Some?
    {
      value
    }
  }

  predicate Lacks(t: Text, b: Byte) {
    forall i :: 0 <= i < |t| ==> t[i] != b
  }

  /** What a `char*` into `t` denotes: everything before the first NUL. */
  function CString(t: Text): (r: Text)
    ensures |r| <= |t| && r == t[..|r|]
    ensures Lacks(r, NUL)
    ensures |r| < |t| ==> t[|r|] == NUL
  {
    if t == [] || t[0] == NUL then [] else [t[0]] + CString(t[1..])
  }

  lemma {:induction false} CStringIs(t: Text, n: nat)
    requires n <= |t| && Lacks(t[..n], NUL)
    requires n < |t| ==> t[n] == NUL
    ensures CString(t) == t[..n]
  {}

  /** strrchr: the position of the last `b`, if any. */
  function LastIndex(t: Text, b: Byte): (r: Option<nat>)
    ensures r.None? ==> Lacks(t, b)
    ensures r.Some? ==> r.value < |t| && t[r.value] == b && Lacks(t[r.value + 1..], b)
  {
    if t == [] then None
    else if t[|t| - 1] == b then Some(|t| - 1)
    else
      var k :- LastIndex(t[..|t| - 1], b);
      Some(k)
  }

  lemma {:induction false} LastIndexIs(t: Text, b: Byte, k: nat)
    requires k < |t| && t[k] == b && Lacks(t[k + 1..], b)
    ensures LastIndex(t, b) == Some(k)
  {}

  /** The pieces of `t` between consecutive separators; there is always at least one. */
  function Split(t: Text, sep: Byte): (r: seq<Text>)
    ensures |r| >= 1
    ensures forall i :: 0 <= i < |r| ==> Lacks(r[i], sep)
    ensures Join(r, sep) == t
  {
    if t == [] then [[]]
    else
      var rest := Split(t[1..], sep);
      if t[0] == sep then
        assert Join([[]] + rest, sep) == [sep] + Join(rest, sep) by {
          assert ([[]] + rest)[1..] == rest;
        }
        [[]] + rest
      else
        assert Join([[t[0]] + rest[0]] + rest[1..], sep) == [t[0]] + Join(rest, sep) by {
          assert ([[t[0]] + rest[0]] + rest[1..])[1..] == rest[1..];
        }
        [[t[0]] + rest[0]] + rest[1..]
  }

  function Join(parts: seq<Text>, sep: Byte): Text
    requires |parts| >= 1
  {
    if |parts| == 1 then parts[0] else parts[0] + [sep] + Join(parts[1..], sep)
  }

  /** Splitting undoes joining when no piece holds the separator, so the two determine each other. */
  lemma {:induction false} SplitJoin(parts: seq<Text>, sep: Byte)
    requires |parts| >= 1
    requires forall i :: 0 <= i < |parts| ==> Lacks(parts[i], sep)
    ensures Split(Join(parts, sep), sep) == parts
    decreases |parts|, |parts[0]|
  {
    var head, t := parts[0], Join(parts, sep);
    if |head| == 0 {
      if |parts| > 1 {
        SplitJoin(parts[1..], sep);
        assert t == [sep] + Join(parts[1..], sep);
        assert t[1..] == Join(parts[1..], sep);
      }
    } else {
      var shorter := [head[1..]] + parts[1..];
      assert shorter[1..] == parts[1..];
      SplitJoin(shorter, sep);
      assert t[0] == head[0];
      assert t[1..] == Join(shorter, sep);
      assert [t[0]] + shorter[0] == parts[0];
      assert [parts[0]] + parts[1..] == parts;
    }
  }

  lemma {:induction false} JoinConcat(p: seq<Text>, q: seq<Text>, sep: Byte)
    requires |p| >= 1 && |q| >= 1
    ensures Join(p + q, sep) == Join(p, sep) + [sep] + Join(q, sep)
  {
    if |p| == 1 {
      assert (p + q)[1..] == q;
    } else {
      assert (p + q)[1..] == p[1..] + q;
      JoinConcat(p[1..], q, sep);
    }
  }

  lemma SplitAround(a: Text, b: Text, sep: Byte)
    ensures Split(a + [sep] + b, sep) == Split(a, sep) + Split(b, sep)
  {
    JoinConcat(Split(a, sep), Split(b, sep), sep);
    SplitJoin(Split(a, sep) + Split(b, sep), sep);
  }

  /** strcmp order: lexicographic on byte values, a proper prefix first. */
  predicate Less(a: Text, b: Text) {
    b != [] && (a == [] || a[0] < b[0] || (a[0] == b[0] && Less(a[1..], b[1..])))
  }

  lemma {:induction false} LessTotal(a: Text, b: Text)
    ensures a == b || Less(a, b) || Less(b, a)
  {
    if a != [] && b != [] && a[0] == b[0] {
      LessTotal(a[1..], b[1..]);
      assert a == [a[0]] + a[1..] && b == [b[0]] + b[1..];
    }
  }

  lemma {:induction false} LessAsymmetric(a: Text, b: Text)
    requires Less(a, b)
    ensures a != b && !Less(b, a)
  {
    if a != [] && a[0] == b[0] {
      LessAsymmetric(a[1..], b[1..]);
    }
  }

  lemma {:induction false} LessTransitive(a: Text, b: Text, c: Text)
    requires Less(a, b) && Less(b, c)
    ensures Less(a, c)
  {
    if a != [] && a[0] == b[0] == c[0] {
      LessTransitive(a[1..], b[1..], c[1..]);
    }
  }
}
