/**
 Big-endian bit strings, the bytes that carry them, and the numbers they denote.

 Each recursive function is split in two, so that a mention of it unfolds to the test for the base case
 and no further; the lemma next to it gives the step.
 */
module BitString {
  import Arith

  type byte = x: int | 0 <= x < 0x100
  type u16 = x: int | 0 <= x < 0x1_0000
  type u32 = x: int | 0 <= x < 0x1_0000_0000

  function Pow2(n: nat): (p: nat)
    ensures p > 0
  {
    if n == 0 then 1 else 2 * Pow2(n - 1)
  }

  /** The low `n` bits of `v`, most significant first. */
  function BitsOf(v: nat, n: nat): (b: seq<bool>)
    ensures |b| == n
    decreases n, v, 1
  {
    if n == 0 then [] else BitsOfStep(v, n)
  }

  function BitsOfStep(v: nat, n: nat): (b: seq<bool>)
    requires n > 0
    ensures |b| == n
    decreases n, v, 0
  {
    BitsOf(v / 2, n - 1) + [v % 2 == 1]
  }

  lemma {:induction false} BitsOfLast(v: nat, n: nat)
    requires n > 0
    ensures BitsOf(v, n) == BitsOf(v / 2, n - 1) + [v % 2 == 1]
  {
  }

  function BitNumber(bit: bool): nat {
    if bit then 1 else 0
  }

  /** The number a bit string denotes. */
  function Value(b: seq<bool>): nat
    decreases |b|, 1
  {
    if b == [] then 0 else ValueStep(b)
  }

  function ValueStep(b: seq<bool>): nat
    requires b != []
    decreases |b|, 0
  {
    2 * Value(b[..|b| - 1]) + BitNumber(b[|b| - 1])
  }

  lemma {:induction false} ValueSnoc(b: seq<bool>, bit: bool)
    ensures Value(b + [bit]) == 2 * Value(b) + BitNumber(bit)
  {
    assert (b + [bit])[..|b|] == b;
  }

  lemma {:induction false} ValueLast(b: seq<bool>)
    requires b != []
    ensures Value(b) == 2 * Value(b[..|b| - 1]) + BitNumber(b[|b| - 1])
  {
  }

  /** The bits of a byte string, most significant bit of the first byte first. */
  function Bits(s: seq<byte>): (b: seq<bool>)
    ensures |b| == 8 * |s|
    decreases |s|, 1
  {
    if s == [] then [] else BitsStep(s)
  }

  function BitsStep(s: seq<byte>): (b: seq<bool>)
    requires s != []
    ensures |b| == 8 * |s|
    decreases |s|, 0
  {
    Bits(s[..|s| - 1]) + BitsOf(s[|s| - 1], 8)
  }

  lemma {:induction false} BitsSnoc(s: seq<byte>, v: byte)
    ensures Bits(s + [v]) == Bits(s) + BitsOf(v, 8)
  {
    assert (s + [v])[..|s|] == s;
  }

  function ByteOf(b: seq<bool>): (v: byte)
    requires |b| == 8
    ensures BitsOf(v, 8) == b
  {
    ValueBound(b, 8);
    BitsOfValue(b);
    Value(b)
  }

  /** The `n` bytes that spell a bit string. */
  function Pack(b: seq<bool>, n: nat): (s: seq<byte>)
    requires |b| == 8 * n
    ensures |s| == n
    decreases n, 1
  {
    if n == 0 then [] else PackStep(b, n)
  }

  function PackStep(b: seq<bool>, n: nat): (s: seq<byte>)
    requires |b| == 8 * n && n > 0
    ensures |s| == n
    decreases n, 0
  {
    Pack(b[..8 * (n - 1)], n - 1) + [ByteOf(b[8 * (n - 1)..])]
  }

  function Fill(bit: bool, n: nat): (b: seq<bool>)
    ensures |b| == n && forall i | 0 <= i < n :: b[i] == bit
  {
    seq(n, _ => bit)
  }

  /** The number of bytes that `n` bits take. */
  function BytesFor(n: nat): (c: nat)
    ensures n <= 8 * c < n + 8
  {
    if n == 0 then 0 else if n <= 8 then 1 else 1 + BytesFor(n - 8)
  }

  /** The number of 32-bit words that `n` bits take. */
  function WordsFor(n: nat): (c: nat)
    ensures n <= 32 * c < n + 32
  {
    if n == 0 then 0 else if n <= 32 then 1 else 1 + WordsFor(n - 32)
  }

  /** How many bits are missing from `n` to the next byte. */
  function PadToByte(n: nat): (p: nat)
    ensures p < 8 && n + p == 8 * BytesFor(n)
  {
    8 * BytesFor(n) - n
  }

  /** How many bits are missing from `n` to the next 32-bit word. */
  function PadToWord(n: nat): (p: nat)
    ensures p < 32 && n + p == 32 * WordsFor(n)
  {
    32 * WordsFor(n) - n
  }

  lemma {:induction false} ValueBound(b: seq<bool>, n: nat)
    requires |b| == n
    ensures Value(b) < Pow2(n)
    ensures n == 8 ==> Value(b) < 0x100
  {
    if n > 0 {
      ValueBound(b[..n - 1], n - 1);
      ValueLast(b);
    }
    if n == 8 {
      Pow2Eight();
    }
  }

  lemma {:induction false} Pow2Eight()
    ensures Pow2(8) == 0x100
  {
    assert Pow2(4) == 16;
    assert Pow2(8) == 16 * Pow2(4);
  }

  lemma {:induction false} ValueOfBits(v: nat, n: nat)
    requires v < Pow2(n)
    ensures Value(BitsOf(v, n)) == v
  {
    if n > 0 {
      ValueOfBits(v / 2, n - 1);
      BitsOfLast(v, n);
      ValueSnoc(BitsOf(v / 2, n - 1), v % 2 == 1);
    }
  }

  lemma {:induction false} BitsOfValue(b: seq<bool>)
    ensures BitsOf(Value(b), |b|) == b
  {
    if b != [] {
      BitsOfValue(b[..|b| - 1]);
      ValueLast(b);
      BitsOfLast(Value(b), |b|);
      assert b == b[..|b| - 1] + [b[|b| - 1]];
    }
  }

  /** The test a shift-and-mask reader applies finds the bit. */
  lemma {:induction false} BitByDivision(v: nat, n: nat, k: nat)
    requires k < n
    ensures BitsOf(v, n)[k] == (v / Pow2(n - 1 - k) % 2 == 1)
  {
    BitsOfLast(v, n);
    if k < n - 1 {
      BitByDivision(v / 2, n - 1, k);
      Arith.DivTwice(v, 2, Pow2(n - 2 - k));
    }
  }

  lemma {:induction false} ValueAppend(a: seq<bool>, b: seq<bool>)
    ensures Value(a + b) == Value(a) * Pow2(|b|) + Value(b)
  {
    if b == [] {
      assert a + b == a;
    } else {
      var c, p := b[..|b| - 1], Pow2(|b| - 1);
      ValueAppend(a, c);
      ValueLast(b);
      assert a + b == (a + c) + [b[|b| - 1]];
      ValueSnoc(a + c, b[|b| - 1]);
      Arith.MulTwice(Value(a), p);
    }
  }

  lemma {:induction false} BitsAppend(a: seq<byte>, b: seq<byte>)
    ensures Bits(a + b) == Bits(a) + Bits(b)
  {
    if b == [] {
      assert a + b == a;
    } else {
      var n := |b| - 1;
      BitsAppend(a, b[..n]);
      assert a + b == (a + b[..n]) + [b[n]];
      BitsSnoc(a + b[..n], b[n]);
      BitsSnoc(b[..n], b[n]);
      assert b == b[..n] + [b[n]];
    }
  }

  lemma {:induction false} BitsSlice(s: seq<byte>, i: nat, j: nat)
    requires i <= j <= |s|
    ensures Bits(s[i..j]) == Bits(s)[8 * i..8 * j]
  {
    var x, y, z := s[..i], s[i..j], s[j..];
    assert s == (x + y) + z;
    BitsAppend(x + y, z);
    BitsAppend(x, y);
  }

  lemma {:induction false} BitsOfByte(b: byte)
    ensures Bits([b]) == BitsOf(b, 8)
  {
    BitsSnoc([], b);
    assert [] + [b] == [b];
  }

  lemma {:induction false} OctetBits(s: seq<byte>, i: nat)
    requires i < |s|
    ensures Bits(s)[8 * i..8 * i + 8] == BitsOf(s[i], 8)
  {
    BitsSlice(s, i, i + 1);
    assert s[i..i + 1] == [s[i]];
    BitsOfByte(s[i]);
  }

  lemma {:induction false} BitAt(s: seq<byte>, i: nat, k: nat)
    requires i < |s| && k < 8
    ensures Bits(s)[8 * i + k] == BitsOf(s[i], 8)[k]
  {
    OctetBits(s, i);
    assert Bits(s)[8 * i..8 * i + 8][k] == Bits(s)[8 * i + k];
  }

  lemma {:induction false} BitsOfPack(b: seq<bool>, n: nat)
    requires |b| == 8 * n
    ensures Bits(Pack(b, n)) == b
  {
    if n > 0 {
      var c, d := b[..8 * (n - 1)], b[8 * (n - 1)..];
      BitsOfPack(c, n - 1);
      assert Pack(b, n) == Pack(c, n - 1) + [ByteOf(d)];
      BitsSnoc(Pack(c, n - 1), ByteOf(d));
    }
  }

  lemma {:induction false} BitsOfInjective(a: nat, b: nat, n: nat)
    requires a < Pow2(n) && b < Pow2(n) && BitsOf(a, n) == BitsOf(b, n)
    ensures a == b
  {
    ValueOfBits(a, n);
    ValueOfBits(b, n);
  }

  lemma {:induction false} OctetInjective(a: byte, b: byte)
    requires BitsOf(a, 8) == BitsOf(b, 8)
    ensures a == b
  {
    Pow2Eight();
    BitsOfInjective(a, b, 8);
  }

  lemma {:induction false} BitsInjective(a: seq<byte>, b: seq<byte>)
    requires Bits(a) == Bits(b)
    ensures a == b
  {
    assert |a| == |b|;
    forall i | 0 <= i < |a|
      ensures a[i] == b[i]
    {
      OctetBits(a, i);
      OctetBits(b, i);
      OctetInjective(a[i], b[i]);
    }
  }

  lemma {:induction false} PackOfBits(s: seq<byte>)
    ensures Pack(Bits(s), |s|) == s
  {
    BitsOfPack(Bits(s), |s|);
    BitsInjective(Pack(Bits(s), |s|), s);
  }

  lemma {:induction false} BitsOfZero(n: nat)
    ensures BitsOf(0, n) == Fill(false, n)
  {
    if n > 0 {
      BitsOfZero(n - 1);
      BitsOfLast(0, n);
    }
  }

  lemma {:induction false} ZeroBits(z: seq<byte>)
    requires forall i | 0 <= i < |z| :: z[i] == 0
    ensures forall i | 0 <= i < 8 * |z| :: !Bits(z)[i]
  {
    if z != [] {
      var n := |z| - 1;
      ZeroBits(z[..n]);
      BitsSnoc(z[..n], 0);
      assert z == z[..n] + [0];
      BitsOfZero(8);
    }
  }
}
