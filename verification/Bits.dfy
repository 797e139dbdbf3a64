/**
 Bit lengths, and the bits inside the digits.
 */
module Bits {
  import opened Arith
  import opened Radix
  import opened MpInts

  /** Number of bits of v. */
  function BitLength(v: nat): nat {
    if v == 0 then 0 else 1 + BitLength(v / 2)
  }

  lemma {:induction false} BitLengthBounds(v: nat)
    ensures v < Pow(2, BitLength(v))
    ensures v > 0 ==> BitLength(v) > 0 && Pow(2, BitLength(v) - 1) <= v
  {
    if v > 0 {
      BitLengthBounds(v / 2);
      if v / 2 > 0 {
        assert Pow(2, BitLength(v) - 1) == 2 * Pow(2, BitLength(v / 2) - 1);
      }
    }
  }

  lemma BitLengthUnique(v: nat, n: nat)
    requires n > 0 && Pow(2, n - 1) <= v < Pow(2, n)
    ensures BitLength(v) == n
  {
    BitLengthBounds(v);
    PowPos(2, n - 1);
    if BitLength(v) < n {
      PowMonoExp(2, BitLength(v), n - 1);
    } else if BitLength(v) > n {
      PowMonoExp(2, n, BitLength(v) - 1);
    }
  }

  /** Powers of the base are powers of two. */
  lemma PIsPow2(k: nat)
    ensures DIGIT_BIT * k >= 0 && P(k) == Pow(2, DIGIT_BIT * k)
  {
    PowMul(2, DIGIT_BIT, k);
  }

  /** The top digit d of a number with k digits below it decides the bit length. */
  lemma BitLengthOfTop(v: nat, d: nat, rest: nat, k: nat)
    requires v == d * P(k) + rest && rest < P(k) && d > 0
    ensures DIGIT_BIT * k >= 0
    ensures BitLength(v) == DIGIT_BIT * k + BitLength(d)
  {
    BitLengthBounds(d);
    PIsPow2(k);
    hide *;
    ScaledLength(v, d, rest, BitLength(d), DIGIT_BIT * k, P(k));
  }

  lemma ScaledLength(v: nat, d: nat, rest: nat, n: nat, e: nat, p: nat)
    requires p == Pow(2, e) && v == d * p + rest && rest < p
    requires n > 0 && Pow(2, n - 1) <= d < Pow(2, n)
    ensures BitLength(v) == e + n
  {
    hide *;
    PowAdd(2, e, n);
    PowAdd(2, e, n - 1);
    PowPos(2, n - 1);
    TopBounds(d, p, Pow(2, n - 1), Pow(2, n));
    BitLengthUnique(v, e + n);
  }

  lemma TopBounds(d: int, p: nat, lo: int, hi: int)
    requires lo <= d < hi
    ensures p * lo <= d * p && d * p + p <= p * hi
  {
    MulMono(lo, d, p);
    MulMono(d + 1, hi, p);
  }

  /** mp_count_bits */
  method CountBits(a: MpInt) returns (r: nat)
    requires a.Valid()
    ensures r == BitLength(a.Mag())
  {
    if a.used == 0 {
      return 0;
    }
    MulPos(DIGIT_BIT, a.used - 1);
    r := DIGIT_BIT * (a.used - 1);
    var q := a.dp[a.used - 1];
    SumBound(a.dp, 0, a.used - 1);
    PZero();
    BitLengthOfTop(a.Mag(), q, Sum(a.dp, 0, a.used - 1), a.used - 1);
    ghost var all := BitLength(a.Mag());
    while q > 0
      invariant r + BitLength(q) == all
    {
      r := r + 1;
      q := q / 2;
    }
  }

  // ----- the bits inside the digits

  /** The bits of X above the left lowest bits of digit idx. */
  function Prefix(X: nat, idx: nat, left: nat): (v: nat)
  {
    PowPos(2, left);
    DivNonNeg(X, P(idx));
    DivNonNeg(X / P(idx), Pow(2, left));
    (X / P(idx)) / Pow(2, left)
  }

  /** Bit i of d. */
  function BitOf(d: nat, i: nat): (y: nat)
    ensures y <= 1
  {
    PowPos(2, i);
    DivNonNeg(d, Pow(2, i));
    (d / Pow(2, i)) % 2
  }

  /** The bits of digit idx are the low DIGIT_BIT bits of the prefix at idx. */
  lemma BitOfDigit(X: nat, idx: nat, left: nat)
    requires 1 <= left <= DIGIT_BIT
    ensures Prefix(X, idx, left - 1) % 2 == BitOf(Digit(X, idx), left - 1)
  {
    var p, d, q := Pow(2, left - 1), Digit(X, idx), X / P(idx + 1);
    PowPos(2, left - 1);
    PowAdd(2, DIGIT_BIT - left, left);
    PowPos(2, DIGIT_BIT - left);
    DigitStep(X, idx);
    DivNonNeg(d, p);
    var c := Pow(2, DIGIT_BIT - left);
    assert B == c * (2 * p);
    hide *;
    MulAssoc(q, c, 2 * p);
    MulAssoc(q * c, 2, p);
    ModShift(d, q * c * 2, p);
    ModShift(d / p, q * c, 2);
  }
}
