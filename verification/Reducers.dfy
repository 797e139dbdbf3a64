/**
 The reductions modular exponentiation can choose from, behind one contract: the
 result is in range and congruent to the argument up to a fixed invertible factor.
 */
module Reducers {
  import opened Arith
  import opened Radix
  import opened MpInts
  import opened Bits
  import opened Divisibility
  import opened Montgomery
  import Barrett

  // ----- moduli close to a power of two

  /** One pass over v: its part from 2^p up counts d instead of 2^p. */
  function FoldOnce(v: nat, base: nat, d: nat): (t: nat)
    requires d < base
    ensures t <= v
  {
    DivNonNeg(v, base);
    DivModIdentity(v, base);
    MulPos(v / base, d);
    MulMono(d, base, v / base);
    v % base + (v / base) * d
  }

  /** What folding makes of v: passes, and n taken off after each, until the number is below n. */
  function Folded(v: nat, n: nat, base: nat, d: nat): (a: nat)
    requires n > 0 && d < base
    ensures a < n
  {
    var t := FoldOnce(v, base, d);
    if t >= n then Folded(t - n, n, base, d) else t
  }

  /** mp_reduce_2k and mp_reduce_2k_l */
  method Fold(v: nat, n: nat, base: nat, d: nat) returns (a: nat)
    requires n > 0 && d < base
    ensures a == Folded(v, n, base, d)
  {
    a := v;
    var more := true;
    while more
      invariant if more then Folded(a, n, base, d) == Folded(v, n, base, d) else a == Folded(v, n, base, d)
      decreases more, a
    {
      a := FoldOnce(a, base, d);
      if a >= n {
        a := a - n;
      } else {
        more := false;
      }
    }
  }

  /** Folding keeps the residue modulo every divisor of n that does not tell 2^p from d. */
  lemma {:induction false} FoldedKeeps(v: nat, n: nat, base: nat, d: nat, m: nat)
    requires n > 0 && d < base && m > 0 && Divides(m, n) && Cong(base, d, m)
    ensures Cong(Folded(v, n, base, d), v, m)
    decreases v
  {
    hide FoldOnce, Cong, Divides;
    var t := FoldOnce(v, base, d);
    FoldStep(v, base, d, m);
    if t >= n {
      FoldedKeeps(t - n, n, base, d, m);
      TakeOff(t, n, m);
      CongTrans(Folded(t - n, n, base, d), t - n, t, m);
      CongTrans(Folded(t - n, n, base, d), t, v, m);
    }
  }

  lemma TakeOff(t: int, n: nat, m: nat)
    requires m > 0 && Divides(m, n)
    ensures Cong(t - n, t, m)
  {
    CongNeg(n, 0, m);
    CongAdd(t, t, 0 - n, 0, m);
  }

  lemma FoldStep(a: nat, base: nat, d: nat, m: nat)
    requires m > 0 && d < base && Cong(base, d, m)
    ensures Cong(FoldOnce(a, base, d), a, m)
  {
    var q := a / base;
    DivModIdentity(a, base);
    CongScale(base, d, q, m);
    MulCommutes(base, q);
    MulCommutes(d, q);
    CongAdd(a % base, a % base, q * base, q * d, m);
  }

  /** A number already in range stays. */
  lemma FoldedSmall(v: nat, n: nat, base: nat, d: nat)
    requires n > 0 && d < base && v < n <= base
    ensures Folded(v, n, base, d) == v
  {
    ModSmall(v, base);
    assert 0 * d == 0;
  }

  /** mp_reduce_is_2k on numbers of more than one digit: all bits above the lowest digit are ones. */
  predicate IsTwoK(v: nat) {
    Used(v) == 1 || (Used(v) > 1 && Pow(2, BitLength(v)) - v <= B)
  }

  /** mp_reduce_2k_setup keeps only the low digit of 2^p - n. */
  function TwoKDigit(v: nat): (d: nat)
  {
    DivModIdentity(Pow(2, BitLength(v)) - v, B);
    (Pow(2, BitLength(v)) - v) % B
  }

  /** The modulus is close enough to a power of two for the digit to be the whole distance, or the loss is harmless. */
  ghost predicate TwoKFits(n: nat) {
    n % B != 0 || n == B
  }

  /** With more than one digit, the kept digit serves exactly the moduli TwoKFits describes. */
  lemma TwoKSetupIsRight(n: nat)
    requires Used(n) > 1 && IsTwoK(n)
    ensures n > 0
    ensures Cong(Pow(2, BitLength(n)), TwoKDigit(n), n) <==> TwoKFits(n)
  {
    UsedBounds(n);
    BitLengthBounds(n);
    PZero();
    PMono(1, Used(n) - 1);
    var L := BitLength(n);
    var pw := Pow(2, L);
    BaseDivides(n, L);
    DistanceOfMultiple(n, pw);
    var k := pw - n;
    if n % B != 0 {
      ModSmall(k, B);
      CongIntro(pw, k, n, 1);
    } else {
      DivExact(1, B);
      assert k == B && TwoKDigit(n) == 0;
      WholeDistance(n, pw);
    }
  }

  /** B divides the power of two above a number of more than one digit. */
  lemma BaseDivides(n: nat, L: nat)
    requires n >= B && L == BitLength(n)
    ensures Pow(2, L) % B == 0 && n < Pow(2, L)
  {
    BitLengthBounds(n);
    if L < DIGIT_BIT {
      PowMonoExp(2, L, DIGIT_BIT);
      assert false;
    }
    PowAdd(2, L - DIGIT_BIT, DIGIT_BIT);
    DivExact(Pow(2, L - DIGIT_BIT), B);
  }

  lemma DistanceOfMultiple(n: nat, pw: nat)
    requires pw % B == 0 && n < pw && pw - n <= B
    ensures n % B == 0 <==> pw - n == B
  {
    DivModIdentity(pw, B);
    DivModIdentity(n, B);
    if pw - n == B {
      ModShift(pw, -1, B);
    }
    if n % B == 0 {
      var d := pw / B - n / B;
      assert pw - n == d * B by { assert (pw / B) * B - (n / B) * B == d * B; }
      if d <= 0 {
        MulMono(d, 0, B);
      }
      if d >= 2 {
        MulMono(2, d, B);
      }
    }
  }

  /** Dropping a distance of B: harmless only for n == B. */
  lemma WholeDistance(n: nat, pw: nat)
    requires n >= B && pw == n + B
    ensures Cong(pw, 0, n) <==> n == B
  {
    ModSmall(0, n);
    if n == B {
      CongIntro(pw, 0, n, 2);
    } else {
      DivModUnique(pw, n, 1, B);
    }
  }

  /** 2^p itself goes to 0 when the digit kept is 0. */
  lemma FoldLosesBase(n: nat, base: nat)
    requires 0 < n && 0 < base
    ensures Folded(base, n, base, 0) == 0
  {
    DivExact(1, base);
    assert 1 * 0 == 0;
  }

  /** With the digit kept, the reduction is right on all its inputs exactly for the moduli TwoKFits describes. */
  lemma TwoKReducesRight(n: nat)
    requires Used(n) > 1 && IsTwoK(n)
    ensures n > 0 && TwoKDigit(n) < Pow(2, BitLength(n))
    ensures (forall x: nat :: x < n * n ==> Folded(x, n, Pow(2, BitLength(n)), TwoKDigit(n)) == x % n) <==> TwoKFits(n)
  {
    TwoKSetupIsRight(n);
    DigitBelowBase(n);
    var base, d := Pow(2, BitLength(n)), TwoKDigit(n);
    if TwoKFits(n) {
      forall x: nat | x < n * n
        ensures Folded(x, n, base, d) == x % n
      {
        CongIntro(n, 0, n, 1);
        FoldedKeeps(x, n, base, d, n);
        ModSmall(Folded(x, n, base, d), n);
      }
    } else {
      LostDistance(n);
      FoldLosesBase(n, base);
      hide Pow, BitLength, Folded;
      assert Folded(base, n, base, d) != base % n;
    }
  }

  lemma DigitBelowBase(v: nat)
    requires v > 0
    ensures TwoKDigit(v) < Pow(2, BitLength(v))
  {
    BitLengthBounds(v);
    var k := Pow(2, BitLength(v)) - v;
    DivModIdentity(k, B);
    DivNonNeg(k, B);
    MulPos(k / B, B);
  }

  /** Where the digit does not fit: it is 0, the distance is B, and B is the residue of 2^p. */
  lemma LostDistance(n: nat)
    requires Used(n) > 1 && IsTwoK(n) && !TwoKFits(n)
    ensures TwoKDigit(n) == 0 && Pow(2, BitLength(n)) == n + B && n >= 2 * B
    ensures Pow(2, BitLength(n)) < n * n && Pow(2, BitLength(n)) % n == B
  {
    hide *;
    NotFitting(n);
    AtLeastTwo(n);
    LostAlgebra(n, B);
  }

  lemma NotFitting(n: nat)
    requires Used(n) > 1 && IsTwoK(n) && !TwoKFits(n)
    ensures n % B == 0 && n >= B && n != B && TwoKDigit(n) == 0 && Pow(2, BitLength(n)) == n + B
  {
    UsedBounds(n);
    PZero();
    PMono(1, Used(n) - 1);
    hide Used;
    BaseDivides(n, BitLength(n));
    DistanceOfMultiple(n, Pow(2, BitLength(n)));
    DivExact(1, B);
  }

  lemma LostAlgebra(n: nat, b: nat)
    requires b >= 2 && n >= 2 * b
    ensures n + b < n * n && (n + b) % n == b
  {
    MulMono(2, n, n);
    DivModUnique(n + b, n, 1, b);
  }

  lemma AtLeastTwo(n: nat)
    requires n % B == 0 && n >= B && n != B
    ensures n >= 2 * B
  {
    DivModIdentity(n, B);
    if n / B < 2 {
      MulMono(n / B, 1, B);
    } else {
      MulMono(2, n / B, B);
    }
  }

  // ----- one contract for all

  datatype Reducer = Mont(rho: nat) | Barr(mu: MpInt) | TwoK(base: nat, d: nat)

  /** The factor a reduction divides out besides reducing. */
  ghost function Factor(red: Reducer, len: nat): nat {
    if red.Mont? then P(len) else 1
  }

  /** r is in range and stands for x / R modulo m. */
  ghost predicate Reduced(r: int, x: int, n: int, R: int, m: nat) {
    0 <= r < n && m > 0 && Cong(r * R, x, m)
  }

  /** The reduction is set up for n and keeps residues modulo its divisor m. */
  ghost predicate Ready(red: Reducer, n: MpInt, m: nat)
    reads n, if red.Barr? then {red.mu} else {}
  {
    && n.Valid() && !n.neg && n.Mag() > 0 && m > 0 && Divides(m, n.Mag())
    && match red
       case Mont(rho) => n.Mag() > 1 && n.used > 0 && IsRho(rho, n.dp[0])
       case Barr(mu) =>
         n.Mag() > 1 && mu != n && mu.Valid() && !mu.neg && Barrett.IsReciprocal(mu.Mag(), n.Mag(), n.used)
       case TwoK(base, d) => d < base && n.Mag() <= base && Cong(base, d, m)
  }

  /** Reducing modulo n keeps residues modulo its divisors. */
  lemma KeepsResidue(w: int, v: int, n: nat, R: int, m: nat)
    requires n > 0 && 0 <= w < n && Cong(w * R, v, n) && m > 0 && Divides(m, n)
    ensures Reduced(w, v, n, R, m)
  {
    var k := CongElim(w * R, v, n);
    DividesMultiple(m, n, k);
    CongAdd(v, v, k * n, 0, m);
  }

  /** redux: one call of the selected reduction. */
  method Redux(red: Reducer, n: MpInt, v: nat, ghost m: nat) returns (w: nat)
    requires Ready(red, n, m)
    requires red.TwoK? || v < n.Mag() * n.Mag()
    ensures Reduced(w, v, n.Mag(), Factor(red, n.used), m)
    ensures red.TwoK? ==> w == Folded(v, n.Mag(), red.base, red.d)
  {
    match red
    case Mont(rho) =>
      var x := new MpInt();
      x.StoreMag(v);
      n.UsedIsLength();
      MulMono(n.Mag(), P(n.used), n.Mag());
      Montgomery.Reduce(x, n, rho);
      w := x.Mag();
      KeepsResidue(w, v, n.Mag(), P(n.used), m);
    case Barr(mu) =>
      var x := new MpInt();
      x.StoreMag(v);
      ghost var subs := Barrett.Reduce(x, n, mu);
      DivModIdentity(v, n.Mag());
      CongMod(v, n.Mag());
      w := x.Mag();
      assert w * 1 == w;
      KeepsResidue(w, v, n.Mag(), 1, m);
    case TwoK(base, d) =>
      w := Fold(v, n.Mag(), base, d);
      FoldedKeeps(v, n.Mag(), base, d, m);
      assert w * 1 == w;
  }

  /** The factor is invertible, so reduced values can be compared. */
  lemma FactorInverse(red: Reducer, n: MpInt) returns (k: int)
    requires n.Loose() && Ready(red, n, n.Mag())
    ensures Cong(Factor(red, n.used) * k, 1, n.Mag())
  {
    if red.Mont? {
      LowDigit(n);
      k := RadixInverse(red.rho, n.dp[0], n.Mag(), n.used);
    } else {
      k := 1;
    }
  }
}
