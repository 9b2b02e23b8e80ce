/** The Z-order (Morton) key: the bits of two 32-bit coordinates interleaved
    into one 64-bit key, x on the even bit positions and y on the odd ones.
    Unsigned integers are naturals below a power of two; bit i of v is
    `Bit(v, i)`. */
module Morton {

  function Pow2(n: nat): (p: nat)
    ensures p >= 1
  {
    if n == 0 then 1 else 2 * Pow2(n - 1)
  }

  /** A `uint32_t`. */
  newtype uint32 = v: int | 0 <= v < 0x1_0000_0000

  /** Bit i of v (bit 0 is the least significant). */
  function Bit(v: nat, i: nat): (b: nat)
    ensures b < 2
  {
    if i == 0 then v % 2 else Bit(v / 2, i - 1)
  }

  /** The key after the first n rounds of `interleave_bits`: bits i < n of x
      placed at positions 2i, bits i < n of y at positions 2i + 1. */
  function Interleaved(x: nat, y: nat, n: nat): nat {
    if n == 0 then 0
    else Interleaved(x, y, n - 1) + Bit(x, n - 1) * Pow2(2 * n - 2) + Bit(y, n - 1) * Pow2(2 * n - 1)
  }

  /** `interleave_bits`: 32 rounds, each setting bit 2i + 1 from bit i of y
      and bit 2i from bit i of x. Both target bits are still clear when they
      are set (the key so far is below 2^(2i)), so each `|=` adds the bit's
      value. */
  method InterleaveBits(x: uint32, y: uint32) returns (z: nat)
    ensures z == Interleaved(x as nat, y as nat, 32)
    ensures z < Pow2(64)
  {
    z := 0;
    var i := 0;
    while i < 32
      invariant 0 <= i <= 32 && z == Interleaved(x as nat, y as nat, i)
    {
      z := z + Bit(y as nat, i) * Pow2(2 * i + 1);
      z := z + Bit(x as nat, i) * Pow2(2 * i);
      i := i + 1;
    }
    InterleavedBound(x as nat, y as nat, 32);
  }

  lemma {:induction false} InterleavedBound(x: nat, y: nat, n: nat)
    ensures Interleaved(x, y, n) < Pow2(2 * n)
  {
    if n > 0 {
      InterleavedBound(x, y, n - 1);
      assert Pow2(2 * n) == 2 * Pow2(2 * n - 1) == 4 * Pow2(2 * n - 2);
      assert Bit(x, n - 1) * Pow2(2 * n - 2) <= Pow2(2 * n - 2);
      assert Bit(y, n - 1) * Pow2(2 * n - 1) <= Pow2(2 * n - 1);
    }
  }

  /** Adding a multiple of 2^k to a number below 2^k: the low k bits are the
      number's, the bits from k on are the multiplier's. */
  lemma {:induction false} BitOfSum(a: nat, b: nat, k: nat, i: nat)
    requires a < Pow2(k)
    ensures Bit(a + b * Pow2(k), i) == if i < k then Bit(a, i) else Bit(b, i - k)
  {
    if k == 0 {
      assert a == 0;
    } else {
      var half := Pow2(k - 1);
      var v := a + b * Pow2(k);
      var q := a / 2 + b * half;
      assert b * Pow2(k) == 2 * (b * half);
      assert v == 2 * q + a % 2;
      Halve(v, q, a % 2);
      if i > 0 {
        BitOfSum(a / 2, b, k - 1, i - 1);
      }
    }
  }

  lemma Halve(v: nat, q: nat, r: nat)
    requires r < 2 && v == 2 * q + r
    ensures v / 2 == q && v % 2 == r
  {
  }

  /** Round n places two bits as one base-4 digit at position 2n - 2. */
  lemma InterleavedStep(x: nat, y: nat, n: nat)
    requires n > 0
    ensures Interleaved(x, y, n) ==
            Interleaved(x, y, n - 1) + (Bit(x, n - 1) + 2 * Bit(y, n - 1)) * Pow2(2 * n - 2)
  {
    var p := Pow2(2 * n - 2);
    assert Pow2(2 * n - 1) == 2 * p;
    assert Bit(y, n - 1) * (2 * p) == (2 * Bit(y, n - 1)) * p;
  }

  /** Bit 2i of the key is bit i of x and bit 2i + 1 is bit i of y, for every
      round i already done. */
  lemma InterleavedBits(x: nat, y: nat, n: nat, i: nat)
    requires i < n
    ensures Bit(Interleaved(x, y, n), 2 * i) == Bit(x, i)
    ensures Bit(Interleaved(x, y, n), 2 * i + 1) == Bit(y, i)
  {
    InterleavedEvenBit(x, y, n, i);
    InterleavedOddBit(x, y, n, i);
  }

  lemma {:induction false} InterleavedEvenBit(x: nat, y: nat, n: nat, i: nat)
    requires i < n
    ensures Bit(Interleaved(x, y, n), 2 * i) == Bit(x, i)
  {
    var k := 2 * n - 2;
    var low := Interleaved(x, y, n - 1);
    var b := Bit(x, n - 1) + 2 * Bit(y, n - 1);
    var z := Interleaved(x, y, n);
    InterleavedStep(x, y, n);
    InterleavedBound(x, y, n - 1);
    if i < n - 1 {
      BitBelow(z, low, b, k, 2 * i);
      InterleavedEvenBit(x, y, n - 1, i);
    } else {
      BitAbove(z, low, b, k, 2 * i, 0);
      LowDigits(Bit(x, n - 1), Bit(y, n - 1));
      assert i == n - 1;
    }
  }

  lemma {:induction false} InterleavedOddBit(x: nat, y: nat, n: nat, i: nat)
    requires i < n
    ensures Bit(Interleaved(x, y, n), 2 * i + 1) == Bit(y, i)
  {
    var k := 2 * n - 2;
    var low := Interleaved(x, y, n - 1);
    var b := Bit(x, n - 1) + 2 * Bit(y, n - 1);
    var z := Interleaved(x, y, n);
    InterleavedStep(x, y, n);
    InterleavedBound(x, y, n - 1);
    if i < n - 1 {
      BitBelow(z, low, b, k, 2 * i + 1);
      InterleavedOddBit(x, y, n - 1, i);
    } else {
      BitAbove(z, low, b, k, 2 * i + 1, 1);
      LowDigits(Bit(x, n - 1), Bit(y, n - 1));
      assert i == n - 1;
    }
  }

  /** The bits of a + b * 2^k below k are a's. */
  lemma BitBelow(z: nat, a: nat, b: nat, k: nat, i: nat)
    requires a < Pow2(k) && z == a + b * Pow2(k) && i < k
    ensures Bit(z, i) == Bit(a, i)
  {
    BitOfSum(a, b, k, i);
  }

  /** The bits of a + b * 2^k from k on are b's. */
  lemma BitAbove(z: nat, a: nat, b: nat, k: nat, j: nat, d: nat)
    requires a < Pow2(k) && z == a + b * Pow2(k) && j == k + d
    ensures Bit(z, j) == Bit(b, d)
  {
    BitOfSum(a, b, k, j);
  }

  /** The two bits of a base-4 digit. */
  lemma LowDigits(lo: nat, hi: nat)
    requires lo < 2 && hi < 2
    ensures Bit(lo + 2 * hi, 0) == lo && Bit(lo + 2 * hi, 1) == hi
  {
    Halve(lo + 2 * hi, hi, lo);
    assert Bit(lo + 2 * hi, 1) == Bit((lo + 2 * hi) / 2, 0);
  }

  /** Numbers below 2^n are equal when their low n bits are. */
  lemma {:induction false} BitsDetermine(v: nat, w: nat, n: nat)
    requires v < Pow2(n) && w < Pow2(n)
    requires forall i :: 0 <= i < n ==> Bit(v, i) == Bit(w, i)
    ensures v == w
  {
    if n > 0 {
      forall i | 0 <= i < n - 1
        ensures Bit(v / 2, i) == Bit(w / 2, i)
      {
        assert Bit(v, i + 1) == Bit(w, i + 1);
      }
      assert Bit(v, 0) == Bit(w, 0);
      BitsDetermine(v / 2, w / 2, n - 1);
    }
  }

  /** Distinct coordinate pairs get distinct keys. */
  lemma InterleaveInjective(x: uint32, y: uint32, x': uint32, y': uint32)
    requires Interleaved(x as nat, y as nat, 32) == Interleaved(x' as nat, y' as nat, 32)
    ensures x == x' && y == y'
  {
    var xn, yn, xn', yn' := x as nat, y as nat, x' as nat, y' as nat;
    forall i | 0 <= i < 32
      ensures Bit(xn, i) == Bit(xn', i) && Bit(yn, i) == Bit(yn', i)
    {
      InterleavedBits(xn, yn, 32, i);
      InterleavedBits(xn', yn', 32, i);
    }
    Pow2Of32();
    BitsDetermine(xn, xn', 32);
    BitsDetermine(yn, yn', 32);
  }

  lemma Pow2Of32()
    ensures Pow2(32) == 0x1_0000_0000
  {
    assert Pow2(8) == 256;
    assert Pow2(16) == 256 * Pow2(8);
    assert Pow2(24) == 256 * Pow2(16);
    assert Pow2(32) == 256 * Pow2(24);
  }
}
