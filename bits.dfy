/** Integer models of the bit-level primitives the histogram is built from:
    shifts, `__builtin_clzll`, `__builtin_ctz`, bitwise AND and XOR on
    non-negative integers. */
module Bits {
  import opened Arith

  /** 2^n, the value of `1 << n` whenever the shift does not overflow. */
  function Pow2(n: nat): (r: nat)
    ensures r >= 1
  {
    if n == 0 then 1 else 2 * Pow2(n - 1)
  }

  lemma {:induction false} Pow2Add(a: nat, b: nat)
    ensures Pow2(a + b) == Pow2(a) * Pow2(b)
  {
    if a > 0 {
      Pow2Add(a - 1, b);
      assert Pow2(a + b) == 2 * Pow2(a - 1 + b);
    }
  }

  lemma {:induction false} Pow2StrictlyIncreasing(a: nat, b: nat)
    requires a < b
    ensures Pow2(a) < Pow2(b)
  {
    if a + 1 < b {
      Pow2StrictlyIncreasing(a, b - 1);
    }
  }

  lemma Pow2Monotone(a: nat, b: nat)
    requires a <= b
    ensures Pow2(a) <= Pow2(b)
  {
    if a < b {
      Pow2StrictlyIncreasing(a, b);
    }
  }

  lemma Pow2Of64()
    ensures Pow2(64) == 0x1_0000_0000_0000_0000
  {
    Pow2Of16();
    Pow2Add(16, 16);
    Pow2Add(32, 32);
  }

  lemma Pow2Of6()
    ensures Pow2(6) == 64
  {
  }

  lemma Pow2Of16()
    ensures Pow2(16) == 0x1_0000
  {
    assert Pow2(4) == 16;
    Pow2Add(4, 4);
    Pow2Add(8, 8);
  }

  /** `x >> n` on an unsigned word: n single-bit shifts. */
  function ShiftRight(x: nat, n: nat): (r: nat)
    ensures r <= x
  {
    if n == 0 then x else ShiftRight(x / 2, n - 1)
  }

  /** Shifting right by n bits divides by 2^n. */
  lemma {:induction false} ShiftRightDivides(x: nat, n: nat)
    ensures ShiftRight(x, n) == x / Pow2(n)
  {
    if n > 0 {
      ShiftRightDivides(x / 2, n - 1);
      DivDoubling(x, Pow2(n - 1));
    }
  }

  /** The binary logarithm rounded down: the position of the highest set bit. */
  function Log2(x: nat): (r: nat)
    requires x >= 1
    ensures Pow2(r) <= x < Pow2(r + 1)
  {
    if x == 1 then 0 else 1 + Log2(x / 2)
  }

  lemma Log2Unique(x: nat, k: nat)
    requires Pow2(k) <= x < Pow2(k + 1)
    ensures Log2(x) == k
  {
    var r := Log2(x);
    if r < k {
      Pow2StrictlyIncreasing(r, k);
      if r + 1 < k { Pow2StrictlyIncreasing(r + 1, k); }
    } else if k < r {
      if k + 1 < r { Pow2StrictlyIncreasing(k + 1, r); }
    }
  }

  /** The number of bits needed to write x: zero for 0, otherwise one more
      than the position of the highest set bit. */
  function BitLength(x: nat): nat
  {
    if x == 0 then 0 else 1 + BitLength(x / 2)
  }

  /** A non-zero x has its highest set bit at position `BitLength(x) - 1`. */
  lemma {:induction false} BitLengthBracket(x: nat)
    requires x > 0
    ensures BitLength(x) >= 1
    ensures Pow2(BitLength(x) - 1) <= x < Pow2(BitLength(x))
  {
    if x > 1 {
      BitLengthBracket(x / 2);
    }
  }

  /** A value below 2^w needs at most w bits. */
  lemma BitLengthFits(x: nat, w: nat)
    requires x < Pow2(w)
    ensures BitLength(x) <= w
  {
    if x > 0 {
      BitLengthBracket(x);
    }
  }

  /** `__builtin_clz` on a w-bit word: the bits of the word above the
      highest set bit of x. */
  function LeadingZeros(x: nat, w: nat): nat
    requires x < Pow2(w)
  {
    BitLengthFits(x, w);
    w - BitLength(x)
  }

  /** For 0 < x < 2^w, the highest set bit of x is bit `w - 1 - clz`:
      x lies between 2^(w-1-clz) and 2^(w-clz). */
  lemma LeadingZerosBracket(x: nat, w: nat)
    requires 0 < x < Pow2(w)
    ensures LeadingZeros(x, w) < w
    ensures Pow2(w - 1 - LeadingZeros(x, w)) <= x < Pow2(w - LeadingZeros(x, w))
  {
    BitLengthBracket(x);
  }

  /** `__builtin_clz(x) ^ (w - 1)` on a word of w bits. */
  function HighBit(x: nat, w: nat): nat
    requires 1 <= w && x < Pow2(w)
  {
    BitXor(LeadingZeros(x, w), w - 1)
  }

  /** On a word of 2^j bits, XOR of the leading-zero count with the all-ones
      mask `2^j - 1` is the index k of the highest set bit:
      2^k <= x < 2^(k+1). */
  lemma HighBitBracket(x: nat, w: nat, j: nat)
    requires 0 < x < Pow2(w) && w == Pow2(j)
    ensures HighBit(x, w) < w
    ensures Pow2(HighBit(x, w)) <= x < Pow2(HighBit(x, w) + 1)
  {
    LeadingZerosBracket(x, w);
    XorAllOnes(LeadingZeros(x, w), j);
  }

  /** The same index is the binary logarithm. */
  lemma HighBitIsLog2(x: nat, w: nat, j: nat)
    requires 0 < x < Pow2(w) && w == Pow2(j)
    ensures HighBit(x, w) == Log2(x)
  {
    HighBitBracket(x, w, j);
    Log2Unique(x, HighBit(x, w));
  }

  /** The leading-zero count is `w - 1 - floor(log2 x)`. */
  lemma LeadingZerosIsLog(x: nat, w: nat)
    requires 0 < x < Pow2(w)
    ensures LeadingZeros(x, w) == w - 1 - Log2(x)
  {
    LeadingZerosBracket(x, w);
    Log2Unique(x, w - 1 - LeadingZeros(x, w));
  }

  /** `__builtin_ctz`: the number of zero bits below the lowest set bit. */
  function TrailingZeros(x: nat): nat
    requires x > 0
  {
    if x % 2 == 1 then 0 else 1 + TrailingZeros(x / 2)
  }

  /** Bitwise AND of two non-negative integers, bit by bit from the least
      significant one. */
  function BitAnd(a: nat, b: nat): nat
  {
    if a == 0 || b == 0 then 0
    else 2 * BitAnd(a / 2, b / 2) + (if a % 2 == 1 && b % 2 == 1 then 1 else 0)
  }

  /** Bitwise XOR of two non-negative integers, bit by bit. */
  function BitXor(a: nat, b: nat): nat
    decreases a + b
  {
    if a == 0 && b == 0 then 0
    else 2 * BitXor(a / 2, b / 2) + (if a % 2 != b % 2 then 1 else 0)
  }

  lemma BitAndOddStep(x: nat, m: nat)
    requires x > 0 && m % 2 == 1
    ensures BitAnd(x, m) == 2 * BitAnd(x / 2, m / 2) + x % 2
  {
  }

  lemma {:induction false} AndLowMask(x: nat, k: nat)
    ensures BitAnd(x, Pow2(k) - 1) == x % Pow2(k)
  {
    if k == 0 {
    } else if x == 0 {
      DivModUnique(0, Pow2(k), 0, 0);
    } else {
      var p := Pow2(k - 1);
      var m := Pow2(k) - 1;
      assert m == 2 * p - 1;
      assert m / 2 == p - 1 && m % 2 == 1;
      BitAndOddStep(x, m);
      AndLowMask(x / 2, k - 1);
      DivDoubling(x, p);
      assert 2 * p == Pow2(k);
    }
  }

  /** XOR with an all-ones mask of width k subtracts from the mask. */
  lemma {:induction false} XorAllOnes(x: nat, k: nat)
    requires x < Pow2(k)
    ensures BitXor(x, Pow2(k) - 1) == Pow2(k) - 1 - x
  {
    if k > 0 {
      var m := Pow2(k) - 1;
      assert m / 2 == Pow2(k - 1) - 1 && m % 2 == 1;
      XorAllOnes(x / 2, k - 1);
    }
  }
}
