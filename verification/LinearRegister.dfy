/**
 A shift register whose step is linear over an exclusive-or.

 Nothing here depends on the register's width: the laws are stated for any word type, so that the
 32-bit facts about the actual polynomial stay confined to Crc32.
 */
module LinearRegister {

  function Iterate<W>(step: W -> W, x: W, n: nat): W
    decreases n
  {
    if n == 0 then x else Iterate(step, step(x), n - 1)
  }

  /** Feed words one at a time: each is combined into the register, which is then stepped `n` times. */
  function Fold<W>(xor: (W, W) -> W, step: W -> W, n: nat, register: W, words: seq<W>): W
    decreases |words|
  {
    if words == [] then register
    else Fold(xor, step, n, Iterate(step, xor(register, words[0]), n), words[1..])
  }

  /** The two nested loops that compute a fold. */
  method Run<W>(xor: (W, W) -> W, step: W -> W, n: nat, initial: W, words: seq<W>) returns (register: W)
    ensures register == Fold(xor, step, n, initial, words)
  {
    register := initial;
    for index := 0 to |words|
      invariant Fold(xor, step, n, register, words[index..]) == Fold(xor, step, n, initial, words)
    {
      register := xor(register, words[index]);
      ghost var entered := register;
      for bit := 0 to n
        invariant Iterate(step, register, n - bit) == Iterate(step, entered, n)
      {
        register := step(register);
      }
    }
  }

  ghost predicate Linear<W(!new)>(xor: (W, W) -> W, step: W -> W) {
    forall x, y :: step(xor(x, y)) == xor(step(x), step(y))
  }

  ghost predicate Commutes<W(!new)>(xor: (W, W) -> W) {
    forall x, y :: xor(x, y) == xor(y, x)
  }

  ghost predicate Associates<W(!new)>(xor: (W, W) -> W) {
    forall x, y, z :: xor(xor(x, y), z) == xor(x, xor(y, z))
  }

  /** Zero is the unit of the exclusive-or and the only word that steps to zero. */
  ghost predicate Faithful<W(!new)>(xor: (W, W) -> W, step: W -> W, zero: W) {
    (forall x :: xor(x, zero) == x) && (forall x :: step(x) == zero <==> x == zero)
  }

  ghost predicate Differences<W(!new)>(xor: (W, W) -> W, d: seq<W>, v: seq<W>, w: seq<W>) {
    |d| == |v| == |w| && forall i :: 0 <= i < |d| ==> d[i] == xor(v[i], w[i])
  }

  ghost predicate AllZero<W>(d: seq<W>, zero: W) {
    forall i :: 0 <= i < |d| ==> d[i] == zero
  }

  lemma Interchange<W(!new)>(xor: (W, W) -> W, a: W, b: W, c: W, d: W)
    requires Commutes(xor) && Associates(xor)
    ensures xor(xor(a, b), xor(c, d)) == xor(xor(a, c), xor(b, d))
  {}

  lemma {:induction false} IterateLinear<W(!new)>(xor: (W, W) -> W, step: W -> W, x: W, y: W, n: nat)
    requires Linear(xor, step)
    ensures Iterate(step, xor(x, y), n) == xor(Iterate(step, x, n), Iterate(step, y, n))
    decreases n
  {
    if n > 0 {
      IterateLinear(xor, step, step(x), step(y), n - 1);
    }
  }

  lemma {:induction false} IterateZero<W(!new)>(step: W -> W, x: W, n: nat, zero: W)
    requires forall y :: step(y) == zero <==> y == zero
    ensures Iterate(step, x, n) == zero <==> x == zero
    decreases n
  {
    if n > 0 {
      IterateZero(step, step(x), n - 1, zero);
    }
  }

  lemma {:induction false} IterateInjective<W(!new)>(step: W -> W, x: W, y: W, n: nat)
    requires forall u, v :: step(u) == step(v) ==> u == v
    requires Iterate(step, x, n) == Iterate(step, y, n)
    ensures x == y
    decreases n
  {
    if n > 0 {
      IterateInjective(step, step(x), step(y), n - 1);
    }
  }

  /** Two runs differ exactly as a single run over the differences. */
  lemma {:induction false} FoldDifference<W(!new)>(
    xor: (W, W) -> W, step: W -> W, n: nat, x: W, y: W, d: seq<W>, v: seq<W>, w: seq<W>)
    requires Linear(xor, step) && Commutes(xor) && Associates(xor) && Differences(xor, d, v, w)
    ensures Fold(xor, step, n, xor(x, y), d) == xor(Fold(xor, step, n, x, v), Fold(xor, step, n, y, w))
    decreases |d|
  {
    if d != [] {
      Interchange(xor, x, y, v[0], w[0]);
      IterateLinear(xor, step, xor(x, v[0]), xor(y, w[0]), n);
      FoldDifference(xor, step, n, Iterate(step, xor(x, v[0]), n), Iterate(step, xor(y, w[0]), n),
                     d[1..], v[1..], w[1..]);
    }
  }

  lemma {:induction false} FoldZeros<W(!new)>(xor: (W, W) -> W, step: W -> W, n: nat, x: W, d: seq<W>, zero: W)
    requires Faithful(xor, step, zero) && AllZero(d, zero)
    ensures Fold(xor, step, n, x, d) == zero <==> x == zero
    decreases |d|
  {
    if d != [] {
      IterateZero(step, x, n, zero);
      FoldZeros(xor, step, n, Iterate(step, x, n), d[1..], zero);
    }
  }

  lemma {:induction false} FoldConcat<W(!new)>(xor: (W, W) -> W, step: W -> W, n: nat, x: W, d: seq<W>, e: seq<W>)
    ensures Fold(xor, step, n, x, d + e) == Fold(xor, step, n, Fold(xor, step, n, x, d), e)
    decreases |d|
  {
    if d == [] {
      assert d + e == e;
    } else {
      assert (d + e)[1..] == d[1..] + e;
      FoldConcat(xor, step, n, Iterate(step, xor(x, d[0]), n), d[1..], e);
    }
  }

  lemma EqualFolds<W(!new)>(
    xor: (W, W) -> W, step: W -> W, n: nat, initial: W, zero: W, d: seq<W>, v: seq<W>, w: seq<W>)
    requires Linear(xor, step) && Commutes(xor) && Associates(xor) && Differences(xor, d, v, w)
    requires xor(initial, initial) == zero
    requires Fold(xor, step, n, initial, v) == Fold(xor, step, n, initial, w)
    ensures var r := Fold(xor, step, n, initial, v); Fold(xor, step, n, zero, d) == xor(r, r)
  {
    FoldDifference(xor, step, n, initial, initial, d, v, w);
  }

  /** When everything around a window is zero, a run that ends in zero is zero over the window alone. */
  lemma FoldWindow<W(!new)>(xor: (W, W) -> W, step: W -> W, n: nat, zero: W, d: seq<W>, lo: nat, hi: nat)
    requires Faithful(xor, step, zero) && lo <= hi <= |d|
    requires AllZero(d[..lo], zero) && AllZero(d[hi..], zero)
    requires Fold(xor, step, n, zero, d) == zero
    ensures Fold(xor, step, n, zero, d[lo..hi]) == zero
  {
    assert d == d[..lo] + (d[lo..hi] + d[hi..]);
    FoldConcat(xor, step, n, zero, d[..lo], d[lo..hi] + d[hi..]);
    FoldZeros(xor, step, n, zero, d[..lo], zero);
    FoldConcat(xor, step, n, zero, d[lo..hi], d[hi..]);
    FoldZeros(xor, step, n, Fold(xor, step, n, zero, d[lo..hi]), d[hi..], zero);
  }

  lemma AllZeroParts<W>(d: seq<W>, lo: nat, hi: nat, zero: W)
    requires lo <= hi <= |d|
    requires AllZero(d[..lo], zero) && AllZero(d[lo..hi], zero) && AllZero(d[hi..], zero)
    ensures AllZero(d, zero)
  {}
}
