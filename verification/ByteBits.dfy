/** Bytes as eight-bit words, put together from two nibbles: conversions of four bits stay cheap to reason about. */
module ByteBits {
  function Nibble(n: int): bv4
    requires 0 <= n < 16
  {
    n as bv4
  }

  function Join(high: bv4, low: bv4): bv8 {
    (high as bv8 << 4) | low as bv8
  }

  function Of(n: int): bv8
    requires 0 <= n < 256
  {
    Join(Nibble(n / 16), Nibble(n % 16))
  }

  lemma NibbleRoundTrip(n: int)
    requires 0 <= n < 16
    ensures Nibble(n) as int == n
  {}

  lemma JoinInjective(a: bv4, b: bv4, c: bv4, d: bv4)
    requires Join(a, b) == Join(c, d)
    ensures a == c && b == d
  {}

  lemma NibbleInjective(m: int, n: int)
    requires 0 <= m < 16 && 0 <= n < 16 && Nibble(m) == Nibble(n)
    ensures m == n
  {
    NibbleRoundTrip(m);
    NibbleRoundTrip(n);
  }

  lemma Injective(m: int, n: int)
    requires 0 <= m < 256 && 0 <= n < 256 && Of(m) == Of(n)
    ensures m == n
  {
    JoinInjective(Nibble(m / 16), Nibble(m % 16), Nibble(n / 16), Nibble(n % 16));
    NibbleInjective(m / 16, n / 16);
    NibbleInjective(m % 16, n % 16);
  }
}
