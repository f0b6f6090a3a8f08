/**
 The reflected CRC-32 of RFC 1952 section 8, and the errors it is certain to detect.

 The update is linear over exclusive-or, so two messages are compared through the exclusive-or of their
 bytes: a window of at most four bytes acts on the register like one non-zero 32-bit word pushed through
 an injective map.
 */
module Crc32 {
  import opened Bytes
  import opened LinearRegister
  import ByteBits

  function Xor(x: bv32, y: bv32): bv32 { x ^ y }

  /** The register moves right; the reversed polynomial is added when a one falls off. */
  function BitStep(crc: bv32): bv32 {
    (crc >> 1) ^ (if crc & 1 == 1 then 0xedb88320 else 0)
  }

  function ByteStep(crc: bv32): bv32 { Iterate(BitStep, crc, 8) }

  function Word(b: Byte): bv32 { ByteBits.Of(b as int) as bv32 }

  function Words(t: Text): (w: seq<bv32>)
    ensures |w| == |t|
    ensures forall i :: 0 <= i < |t| ==> w[i] == Word(t[i])
  {
    seq(|t|, i requires 0 <= i < |t| => Word(t[i]))
  }

  function Register(t: Text): bv32 { Fold(Xor, BitStep, 8, 0xffffffff, Words(t)) }

  function Complement(x: bv32): bv32 { x ^ 0xffffffff }

  function Checksum(t: Text): bv32 { Complement(Register(t)) }

  /** The checksum as the number that is printed and compared. */
  function Value(t: Text): Word32 { Checksum(t) as int }

  method ComputeChecksum(t: Text) returns (checksum: bv32)
    ensures checksum == Checksum(t)
  {
    var crc := Run(Xor, BitStep, 8, 0xffffffff, Words(t));
    checksum := Complement(crc);
  }

  method ComputeValue(t: Text) returns (n: Word32)
    ensures n == Value(t)
  {
    var checksum := ComputeChecksum(t);
    n := checksum as int;
  }

  // ----- the bit step is linear and injective -----

  lemma LowBit(x: bv32)
    ensures x & 1 == 0 || x & 1 == 1
  {}

  lemma EvenEven(x: bv32, y: bv32)
    requires x & 1 == 0 && y & 1 == 0
    ensures BitStep(x ^ y) == BitStep(x) ^ BitStep(y)
  {}

  lemma EvenOdd(x: bv32, y: bv32)
    requires x & 1 == 0 && y & 1 == 1
    ensures BitStep(x ^ y) == BitStep(x) ^ BitStep(y)
  {}

  lemma OddEven(x: bv32, y: bv32)
    requires x & 1 == 1 && y & 1 == 0
    ensures BitStep(x ^ y) == BitStep(x) ^ BitStep(y)
  {}

  lemma OddOdd(x: bv32, y: bv32)
    requires x & 1 == 1 && y & 1 == 1
    ensures BitStep(x ^ y) == BitStep(x) ^ BitStep(y)
  {}

  lemma BitStepXor(x: bv32, y: bv32)
    ensures BitStep(x ^ y) == BitStep(x) ^ BitStep(y)
  {
    LowBit(x);
    LowBit(y);
    if x & 1 == 0 && y & 1 == 0 {
      EvenEven(x, y);
    } else if x & 1 == 0 {
      EvenOdd(x, y);
    } else if y & 1 == 0 {
      OddEven(x, y);
    } else {
      OddOdd(x, y);
    }
  }

  lemma XorZeroIsEqual(x: bv32, y: bv32)
    ensures x ^ y == 0 <==> x == y
  {}

  /** The bit step is a bijection on 32-bit words: injective on a finite set. */
  lemma BitStepInjective(x: bv32, y: bv32)
    requires BitStep(x) == BitStep(y)
    ensures x == y
  {}

  lemma StepIsLinear()
    ensures Linear(Xor, BitStep)
  {
    forall x, y
      ensures BitStep(Xor(x, y)) == Xor(BitStep(x), BitStep(y))
    {
      BitStepXor(x, y);
    }
  }

  lemma XorCommutes()
    ensures Commutes(Xor)
  {}

  lemma XorAssociates()
    ensures Associates(Xor)
  {}

  lemma StepIsFaithful()
    ensures Faithful(Xor, BitStep, 0)
  {}

  // ----- four bytes fill the register -----

  lemma ByteStepShifted(x: bv32)
    requires x < 0x1000000
    ensures ByteStep(x << 8) == x
  {}

  lemma ByteStepInjective(x: bv32, y: bv32)
    requires ByteStep(x) == ByteStep(y)
    ensures x == y
  {
    forall u, v | BitStep(u) == BitStep(v)
      ensures u == v
    {
      BitStepInjective(u, v);
    }
    IterateInjective(BitStep, x, y, 8);
  }

  /** Up to four bytes as one word, the first byte lowest. */
  function Pack(words: seq<bv32>): bv32
    decreases |words|
  {
    if words == [] then 0 else words[0] ^ (Pack(words[1..]) << 8)
  }

  ghost predicate AreBytes(words: seq<bv32>) {
    forall i :: 0 <= i < |words| ==> words[i] < 256
  }

  lemma JoinZero(w: bv32, p: bv32)
    requires w < 0x100 && p < 0x1000000 && w ^ (p << 8) == 0
    ensures w == 0 && p == 0
  {}

  lemma PackBound(words: seq<bv32>)
    requires AreBytes(words) && |words| <= 3
    ensures Pack(words) < 0x1000000
    ensures |words| <= 2 ==> Pack(words) < 0x10000
    ensures |words| <= 1 ==> Pack(words) < 0x100
    decreases |words|
  {}

  lemma {:induction false} PackZero(words: seq<bv32>)
    requires AreBytes(words) && |words| <= 4 && Pack(words) == 0
    ensures AllZero(words, 0)
    decreases |words|
  {
    if words != [] {
      PackBound(words[1..]);
      JoinZero(words[0], Pack(words[1..]));
      PackZero(words[1..]);
    }
  }

  lemma XorMove(x: bv32, w: bv32, p: bv32)
    ensures x ^ w == p <==> x == w ^ p
  {}

  /** Four bytes clear the register only when together they equal it. */
  lemma {:induction false} FoldPack(x: bv32, words: seq<bv32>)
    requires AreBytes(words) && |words| <= 4
    ensures Fold(Xor, BitStep, 8, x, words) == 0 <==> x == Pack(words)
    decreases |words|
  {
    if words != [] {
      var w, p := words[0], Pack(words[1..]);
      PackBound(words[1..]);
      ByteStepShifted(p);
      FoldPack(ByteStep(Xor(x, w)), words[1..]);
      if ByteStep(Xor(x, w)) == p {
        ByteStepInjective(Xor(x, w), p << 8);
      }
      XorMove(x, w, p << 8);
    }
  }

  // ----- error detection -----

  ghost predicate DifferWithin(a: Text, b: Text, at: nat, width: nat) {
    |a| == |b| && forall i :: 0 <= i < |a| && !(at <= i < at + width) ==> a[i] == b[i]
  }

  lemma WidenInjective(a: bv8, b: bv8)
    requires a as bv32 == b as bv32
    ensures a == b
  {}

  lemma WordInjective(a: Byte, b: Byte)
    requires Word(a) == Word(b)
    ensures a == b
  {
    WidenInjective(ByteBits.Of(a as int), ByteBits.Of(b as int));
    ByteBits.Injective(a as int, b as int);
  }

  lemma WordXorIsByte(a: bv8, b: bv8)
    ensures (a as bv32) ^ (b as bv32) < 256
  {}

  /** The register difference of two messages is one run over their byte differences. */
  function Difference(a: Text, b: Text): (d: seq<bv32>)
    requires |a| == |b|
    ensures Differences(Xor, d, Words(a), Words(b))
  {
    seq(|a|, i requires 0 <= i < |a| => Xor(Word(a[i]), Word(b[i])))
  }

  lemma DifferenceBytes(a: Text, b: Text)
    requires |a| == |b|
    ensures AreBytes(Difference(a, b))
    ensures forall i :: 0 <= i < |a| ==> (Difference(a, b)[i] == 0 <==> a[i] == b[i])
  {
    forall i | 0 <= i < |a|
      ensures Difference(a, b)[i] < 256 && (Difference(a, b)[i] == 0 <==> a[i] == b[i])
    {
      WordXorIsByte(ByteBits.Of(a[i] as int), ByteBits.Of(b[i] as int));
      XorZeroIsEqual(Word(a[i]), Word(b[i]));
      if Word(a[i]) == Word(b[i]) {
        WordInjective(a[i], b[i]);
      }
    }
  }

  lemma ComplementInjective(x: bv32, y: bv32)
    requires Complement(x) == Complement(y)
    ensures x == y
  {}

  lemma XorSelf(x: bv32)
    ensures Xor(x, x) == 0
  {}

  lemma EqualRegisters(a: Text, b: Text)
    requires |a| == |b| && Register(a) == Register(b)
    ensures Fold(Xor, BitStep, 8, 0, Difference(a, b)) == 0
  {
    StepIsLinear();
    XorCommutes();
    XorAssociates();
    XorSelf(0xffffffff);
    XorSelf(Register(a));
    EqualFolds(Xor, BitStep, 8, 0xffffffff, 0, Difference(a, b), Words(a), Words(b));
  }

  lemma WindowIsZero(d: seq<bv32>, lo: nat, hi: nat)
    requires AreBytes(d) && lo <= hi <= |d| && hi - lo <= 4
    requires AllZero(d[..lo], 0) && AllZero(d[hi..], 0)
    requires Fold(Xor, BitStep, 8, 0, d) == 0
    ensures AllZero(d, 0)
  {
    StepIsFaithful();
    FoldWindow(Xor, BitStep, 8, 0, d, lo, hi);
    FoldPack(0, d[lo..hi]);
    PackZero(d[lo..hi]);
    AllZeroParts(d, lo, hi, 0);
  }

  lemma EqualRegistersEqualTexts(a: Text, b: Text, at: nat, width: nat)
    requires DifferWithin(a, b, at, width) && width <= 4 && Register(a) == Register(b)
    ensures a == b
  {
    var d := Difference(a, b);
    DifferenceBytes(a, b);
    EqualRegisters(a, b);
    var lo := if at <= |d| then at else |d|;
    var hi := if at + width <= |d| then at + width else |d|;
    WindowIsZero(d, lo, hi);
  }

  lemma WordRoundTrip(x: bv32)
    ensures (x as int) as bv32 == x
  {}

  lemma ValueIsRegister(a: Text, b: Text)
    requires Value(a) == Value(b)
    ensures Register(a) == Register(b)
  {
    WordRoundTrip(Checksum(a));
    WordRoundTrip(Checksum(b));
    ComplementInjective(Register(a), Register(b));
  }

  /** Distinct byte strings that agree outside a window of at most four bytes have distinct checksums. */
  ghost predicate DetectsBursts(sum: Text -> Word32) {
    forall a, b, at, width :: DifferWithin(a, b, at, width) && width <= 4 && sum(a) == sum(b) ==> a == b
  }

  lemma BurstsDetected()
    ensures DetectsBursts(Value)
  {
    forall a, b, at, width | DifferWithin(a, b, at, width) && width <= 4 && Value(a) == Value(b)
      ensures a == b
    {
      ValueIsRegister(a, b);
      EqualRegistersEqualTexts(a, b, at, width);
    }
  }
}
