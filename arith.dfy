/** Facts about multiplication, division and remainder on integers that the
    solver does not find by itself once the divisor is not a literal. */
module Arith {

  /** Multiplying by a non-negative factor preserves order. */
  lemma MulMonotone(w: int, a: int, b: int)
    requires w >= 0
    ensures a <= b ==> w * a <= w * b
  {
    if a <= b {
      assert w * b == w * a + w * (b - a);
    }
  }

  /** Quotient and remainder are determined by any decomposition
      `x == d * a + c` with `0 <= c < d`. */
  lemma DivModUnique(x: int, d: int, a: int, c: int)
    requires d > 0 && x == d * a + c && 0 <= c < d
    ensures x / d == a && x % d == c
  {
    var a', c' := x / d, x % d;
    assert x == d * a' + c';
    MulMonotone(d, a + 1, a');
    MulMonotone(d, a' + 1, a);
    assert d * (a + 1) == d * a + d && d * (a' + 1) == d * a' + d;
  }

  /** Dividing a non-negative integer by a positive one gives a quotient
      between zero and the dividend. */
  lemma DivBounds(x: int, d: int)
    requires x >= 0 && d >= 1
    ensures 0 <= x / d <= x
  {
    var q := x / d;
    assert x == d * q + x % d;
    MulMonotone(d, q, -1);
    MulMonotone(d, 1, q);
    MulMonotone(q, 1, d);
  }

  /** Dividing by 2p is dividing by 2, then by p. */
  lemma DivDoubling(x: nat, p: nat)
    requires p >= 1
    ensures x / (2 * p) == (x / 2) / p
    ensures x % (2 * p) == 2 * ((x / 2) % p) + x % 2
  {
    var q := x / 2;
    var a, c := q / p, q % p;
    assert q == p * a + c;
    assert x == (2 * p) * a + (2 * c + x % 2);
    DivModUnique(x, 2 * p, a, 2 * c + x % 2);
  }

  /** The number of whole widths d that fit in a, counted by repeated
      subtraction. */
  function Quot(a: nat, d: nat): nat
    requires d >= 1
    decreases a
  {
    if a < d then 0 else 1 + Quot(a - d, d)
  }

  /** a lies in the Quot(a, d)-th interval of width d. */
  lemma {:induction false} QuotBracket(a: nat, d: nat)
    requires d >= 1
    ensures d * Quot(a, d) <= a < d * Quot(a, d) + d
  {
    if a >= d {
      QuotBracket(a - d, d);
      assert d * Quot(a, d) == d * Quot(a - d, d) + d;
    }
  }

  /** The only interval of width d holding a is the Quot(a, d)-th. */
  lemma QuotUnique(a: nat, d: nat, s: nat)
    requires d >= 1 && d * s <= a < d * s + d
    ensures Quot(a, d) == s
  {
    var q := Quot(a, d);
    QuotBracket(a, d);
    MulMonotone(d, q + 1, s);
    MulMonotone(d, s + 1, q);
    assert d * (q + 1) == d * q + d && d * (s + 1) == d * s + d;
  }

  /** An offset below n widths falls in an interval below the n-th. */
  lemma QuotBelow(a: nat, d: nat, n: nat)
    requires d >= 1 && a < d * n
    ensures Quot(a, d) < n
  {
    QuotBracket(a, d);
    MulMonotone(d, n, Quot(a, d));
  }

  /** Counting widths agrees with integer division. */
  lemma QuotIsDiv(a: nat, d: nat)
    requires d >= 1
    ensures Quot(a, d) == a / d
  {
    QuotBracket(a, d);
    DivModUnique(a, d, Quot(a, d), a - d * Quot(a, d));
  }
}
