/** Integer division that rounds to the nearest integer, halves rounded up,
    and the powers of ten used to change decimal precision. */
module Rounding {

  /** q is the exact quotient n / d rounded to the nearest integer, a tie
      rounded upward: q <= n/d + 1/2 < q + 1, multiplied through by 2d.
      Equivalently |q*d - n| <= d/2, with equality only when q*d > n. */
  ghost predicate IsRoundedQuotient(n: nat, d: nat, q: nat)
  {
    d > 0 && 2 * (q * d) <= 2 * n + d < 2 * (q * d) + 2 * d
  }

  /** a <= b scales to a * d <= b * d. */
  lemma MulMonotone(a: nat, b: nat, d: nat)
    ensures a <= b ==> a * d <= b * d
  {
    if a <= b {
      assert b * d == a * d + (b - a) * d;
    }
  }

  /** Floor division is characterised by its bracket. */
  lemma DivIsUnique(m: nat, d: nat, q: nat)
    requires d > 0
    requires q * d <= m < q * d + d
    ensures m / d == q
  {
    var p := m / d;
    assert p * d <= m < p * d + d;
    assert (p + 1) * d == p * d + d;
    assert (q + 1) * d == q * d + d;
    MulMonotone(p + 1, q, d);
    MulMonotone(q + 1, p, d);
  }

  /** At most one integer is the half-up rounding of n / d. */
  lemma RoundedQuotientUnique(n: nat, d: nat, q1: nat, q2: nat)
    requires IsRoundedQuotient(n, d, q1) && IsRoundedQuotient(n, d, q2)
    ensures q1 == q2
  {
    assert (q1 + 1) * d == q1 * d + d;
    assert (q2 + 1) * d == q2 * d + d;
    MulMonotone(q1 + 1, q2, d);
    MulMonotone(q2 + 1, q1, d);
  }

  /** The expression `n.add(d.div(2)).div(d)`, where the half of an odd
      divisor is itself truncated, rounds n / d half-up for every d > 0. */
  lemma DivHalfUpRounds(n: nat, d: nat)
    requires d > 0
    ensures IsRoundedQuotient(n, d, (n + d / 2) / d)
  {
    var m := n + d / 2;
    var q := m / d;
    assert m == q * d + m % d;
  }

  /** Half-up division as the source writes it. */
  function DivHalfUp(n: nat, d: nat): (q: nat)
    requires d > 0
    ensures q * d <= n + d / 2 < (q + 1) * d
    ensures IsRoundedQuotient(n, d, q)
  {
    DivHalfUpRounds(n, d);
    (n + d / 2) / d
  }

  /** The half-up rounding of n / d, however it is found, is DivHalfUp(n, d). */
  lemma RoundedQuotientIsDivHalfUp(n: nat, d: nat, q: nat)
    requires IsRoundedQuotient(n, d, q)
    ensures q == DivHalfUp(n, d)
  {
    RoundedQuotientUnique(n, d, q, DivHalfUp(n, d));
  }

  /** A multiple of d divides back exactly. */
  lemma DivHalfUpOfMultiple(k: nat, d: nat)
    requires d > 0
    ensures DivHalfUp(k * d, d) == k
  {
    assert IsRoundedQuotient(k * d, d, k);
    RoundedQuotientIsDivHalfUp(k * d, d, k);
  }

  /** Rounding half-up preserves order. */
  lemma DivHalfUpMonotone(n1: nat, n2: nat, d: nat)
    requires d > 0 && n1 <= n2
    ensures DivHalfUp(n1, d) <= DivHalfUp(n2, d)
  {
    var q1, q2 := DivHalfUp(n1, d), DivHalfUp(n2, d);
    assert (q2 + 1) * d == q2 * d + d;
    MulMonotone(q2 + 1, q1, d);
  }

  /** 10^k, as `BigNumber.from(10).pow(k)`. */
  function Pow10(k: nat): (r: nat)
    ensures r >= 1
  {
    if k == 0 then 1 else 10 * Pow10(k - 1)
  }

  /** Exponents add: 10^(a+b) == 10^a * 10^b. */
  lemma {:induction false} Pow10Add(a: nat, b: nat)
    ensures Pow10(a + b) == Pow10(a) * Pow10(b)
  {
    if a > 0 {
      Pow10Add(a - 1, b);
      calc {
        Pow10(a + b);
        10 * Pow10(a - 1 + b);
        10 * (Pow10(a - 1) * Pow10(b));
        (10 * Pow10(a - 1)) * Pow10(b);
        Pow10(a) * Pow10(b);
      }
    }
  }

  /** Scaling by 10^a and then by 10^b is scaling by 10^(a+b). */
  lemma ScalePow10Twice(x: nat, a: nat, b: nat)
    ensures x * Pow10(a) * Pow10(b) == x * Pow10(a + b)
  {
    Pow10Add(a, b);
    assert x * Pow10(a) * Pow10(b) == x * (Pow10(a) * Pow10(b));
  }
}
