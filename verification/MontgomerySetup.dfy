/**
 The constants Montgomery reduction needs: -1 / n modulo the base, and R modulo n.
 */
module MontgomerySetup {
  import opened Arith
  import opened Radix
  import opened MpInts
  import opened Montgomery
  import opened Bits

  type SpareBits = e: nat | 1 <= e witness 4

  /** Bits an mp_digit has beyond DIGIT_BIT. */
  const SPARE_BIT: SpareBits

  /** One more than the largest mp_digit, which need not be a digit. */
  function DigitLimit(): (m: nat)
    ensures m > 0 && m == Pow(2, DIGIT_BIT + SPARE_BIT)
  {
    PowPos(2, DIGIT_BIT + SPARE_BIT);
    Pow(2, DIGIT_BIT + SPARE_BIT)
  }

  /** How many Newton steps the build's preprocessor symbols select. */
  function NewtonSteps(): nat {
    if DIGIT_BIT <= 8 then 1 else if DIGIT_BIT <= 16 then 2 else if DIGIT_BIT <= 32 then 3 else 4
  }

  /** Correct bits of the inverse after k steps. */
  function CorrectBits(k: nat): (e: nat)
    ensures e <= DIGIT_BIT
  {
    PowPos(2, k);
    Min(4 * Pow(2, k), DIGIT_BIT)
  }

  /** A congruence modulo 2^f is one modulo every smaller power of two. */
  lemma Weaken(a: int, b: int, e: nat, f: nat)
    requires e <= f && Pow(2, e) > 0 && Pow(2, f) > 0 && Cong(a, b, Pow(2, f))
    ensures Cong(a, b, Pow(2, e))
  {
    var k := CongElim(a, b, Pow(2, f));
    PowAdd(2, f - e, e);
    MulAssoc(k, Pow(2, f - e), Pow(2, e));
    CongIntro(a, b, Pow(2, e), k * Pow(2, f - e));
  }

  /** The table-free start: correct to four bits for every odd b. */
  function Seed(b: nat): (x: nat) {
    (if (b + 2) / 4 % 2 == 1 then 8 else 0) + b
  }

  lemma SeedIsInverse(b: nat)
    requires b % 2 == 1
    ensures Cong(Seed(b) * b, 1, 16)
  {
    hide Seed, Cong;
    var q, r := b / 16, b % 16;
    ModShift(r, 8 * q, 2);
    SeedShift(q, r);
    SeedOfResidue(r);
    CongIntro(b, r, 16, q);
    CongIntro(Seed(b), Seed(r), 16, q);
    CongMul(Seed(b), Seed(r), b, r, 16);
    CongTrans(Seed(b) * b, Seed(r) * r, 1, 16);
  }

  lemma SeedShift(q: nat, r: nat)
    requires r < 16
    ensures Seed(16 * q + r) == Seed(r) + q * 16
  {
    var h := (r + 2) / 4;
    ModShift(r + 2, 4 * q, 4);
    ModShift(h, 2 * q, 2);
    assert (16 * q + r + 2) / 4 == h + 4 * q;
  }

  /** The sixteen cases, of which eight are odd. */
  lemma SeedOfResidue(r: nat)
    requires r < 16 && r % 2 == 1
    ensures Cong(Seed(r) * r, 1, 16)
  {
    if r == 1 {
      assert Seed(1) * 1 == 1;
    } else if r == 3 {
      assert Seed(3) * 3 == 33;
    } else if r == 5 {
      assert Seed(5) * 5 == 65;
    } else if r == 7 {
      assert Seed(7) * 7 == 49;
    } else if r == 9 {
      assert Seed(9) * 9 == 81;
    } else if r == 11 {
      assert Seed(11) * 11 == 209;
    } else if r == 13 {
      assert Seed(13) * 13 == 273;
    } else {
      assert Seed(15) * 15 == 225;
    }
  }

  /** One Newton step squares the error. */
  lemma NewtonStep(x: int, b: int, m: nat)
    requires m > 0 && Cong(x * b, 1, m)
    ensures m * m > 0 && Cong(x * (2 - b * x) * b, 1, m * m)
  {
    MulPos(m, m);
    var k := CongElim(x * b, 1, m);
    var z := x * b;
    assert x * (2 - b * x) * b == z * (2 - z) by {
      MulSwap(x, 2 - b * x, b);
      MulCommutes(b, x);
    }
    assert z * (2 - z) == 1 - (z - 1) * (z - 1) by { SquareError(z); }
    assert (k * m) * (k * m) == (k * k) * (m * m) by { SquareProduct(k, m); }
    CongIntro(z * (2 - z), 1, m * m, -(k * k));
  }

  lemma SquareError(z: int)
    ensures z * (2 - z) == 1 - (z - 1) * (z - 1)
  {
  }

  lemma SquareProduct(k: int, m: int)
    ensures (k * m) * (k * m) == (k * k) * (m * m)
  {
    MulAssoc(k, m, k * m);
    MulAssoc(m, k, m);
    MulCommutes(m, k);
    MulAssoc(k, m, m);
    MulAssoc(k, k, m * m);
  }

  /** The step as mp_digit arithmetic does it, wrapping around. */
  function Refine(x: nat, b: nat): (x': nat)
  {
    DivModIdentity(x * (2 - b * x), DigitLimit());
    (x * (2 - b * x)) % DigitLimit()
  }

  lemma RefineDoubles(x: nat, b: nat, k: nat)
    requires Pow(2, CorrectBits(k)) > 0 && Cong(x * b, 1, Pow(2, CorrectBits(k)))
    ensures Pow(2, CorrectBits(k + 1)) > 0 && Cong(Refine(x, b) * b, 1, Pow(2, CorrectBits(k + 1)))
  {
    var e, f := CorrectBits(k), CorrectBits(k + 1);
    PowPos(2, f);
    assert f <= 2 * e by { assert Pow(2, k + 1) == 2 * Pow(2, k); PowPos(2, k); }
    var y := x * (2 - b * x);
    NewtonStep(x, b, Pow(2, e));
    PowSquare(2, e);
    Weaken(y * b, 1, f, 2 * e);
    CongMod(y, DigitLimit());
    Weaken(Refine(x, b), y, f, DIGIT_BIT + SPARE_BIT);
    CongScale(Refine(x, b), y, b, Pow(2, f));
  }

  /** (2^DIGIT_BIT - x), first as an mp_word, then masked. */
  function Negate(x: nat): (rho: nat)
    ensures rho < B
  {
    MulPos(GUARD, B * B);
    MulPos(B, B);
    DivModIdentity((B - x) % WORD, B);
    ((B - x) % WORD) % B
  }

  lemma WordIsMultiple()
    ensures WORD > 0 && WORD == (GUARD * B) * B
  {
    MulPos(B, B);
    MulPos(GUARD, B * B);
    MulAssoc(GUARD, B, B);
  }

  lemma NegateIsMinus(x: nat)
    ensures Cong(Negate(x), 0 - x, B)
  {
    WordIsMultiple();
    var w := (B - x) % WORD;
    CongMod(w, B);
    CongMod(B - x, WORD);
    var k := CongElim(w, B - x, WORD);
    MulAssoc(k, GUARD * B, B);
    CongIntro(w, B - x, B, k * (GUARD * B));
    CongIntro(B - x, 0 - x, B, 1);
  }

  /** A negated inverse of b is what the reducers call rho. */
  lemma NegatedInverse(x: nat, b: nat, rho: nat)
    requires Cong(x * b, 1, B) && rho == Negate(x)
    ensures IsRho(rho, b)
  {
    NegateIsMinus(x);
    CongScale(rho, 0 - x, b, B);
    CongNeg(x * b, 1, B);
    assert (0 - x) * b == -(x * b);
  }

  /** mp_montgomery_setup */
  method Setup(n: MpInt) returns (err: Err, rho: nat)
    requires n.Valid()
    ensures err == Okay <==> n.used > 0 && n.dp[0] % 2 == 1
    ensures err == Okay ==> IsRho(rho, n.dp[0])
    ensures err == Okay ==> rho < B && (rho * n.dp[0]) % B == B - 1
  {
    rho := 0;
    var b := if |n.dp| > 0 then n.dp[0] else 0;
    if b % 2 == 0 {
      return Val, rho;
    }
    var x := Seed(b);
    SeedIsInverse(b);
    SeedBits();
    hide Seed, Refine, CorrectBits, Negate, IsRho, Pow;
    var k := 0;
    while k < NewtonSteps()
      invariant 0 <= k <= NewtonSteps()
      invariant Pow(2, CorrectBits(k)) > 0 && Cong(x * b, 1, Pow(2, CorrectBits(k)))
    {
      RefineDoubles(x, b, k);
      x := Refine(x, b);
      k := k + 1;
    }
    AllBits();
    rho := Negate(x);
    NegatedInverse(x, b, rho);
    RhoMeans(rho, b);
    err := Okay;
  }

  lemma RhoMeans(rho: nat, n0: nat)
    requires IsRho(rho, n0)
    ensures rho < B && (rho * n0) % B == B - 1
  {
    hide Pow;
    ModShift(-1, 1, B);
    ModSmall(B - 1, B);
  }

  lemma SeedBits()
    ensures Pow(2, CorrectBits(0)) == 16
  {
    assert Pow(2, 0) == 1;
    assert Pow(2, 4) == 16;
  }

  lemma AllBits()
    ensures CorrectBits(NewtonSteps()) == DIGIT_BIT
  {
    assert Pow(2, 1) == 2 && Pow(2, 2) == 4 && Pow(2, 3) == 8 && Pow(2, 4) == 16;
  }

  // ----- R modulo n

  /** a is 2^e modulo b, not larger than b, and smaller when b is odd and at least 3. */
  ghost predicate IsPowerUpTo(a: nat, e: nat, b: nat)
    requires b > 0
  {
    a <= b && Cong(a, Pow(2, e), b) && (b % 2 == 1 && b >= 3 ==> a < b)
  }

  /** Doubling and subtracting once. */
  lemma DoubleStep(a: nat, e: nat, b: nat)
    requires b > 0 && IsPowerUpTo(a, e, b)
    ensures IsPowerUpTo(if 2 * a >= b then 2 * a - b else 2 * a, e + 1, b)
  {
    CongScale(a, Pow(2, e), 2, b);
    assert Pow(2, e + 1) == 2 * Pow(2, e);
    assert a * 2 == 2 * a && Pow(2, e) * 2 == 2 * Pow(2, e);
    CongIntro(2 * a - b, 2 * a, b, -1);
  }

  /** The start: a power of two that does not exceed b. */
  lemma StartPower(e: nat, b: nat)
    requires 0 < Pow(2, e) <= b
    ensures IsPowerUpTo(Pow(2, e), e, b)
  {
    if b % 2 == 1 && b >= 3 {
      if e > 0 {
        assert Pow(2, e) % 2 == 0;
      }
    }
  }

  /** mp_montgomery_calc_normalization: a = B^n.used modulo n, by doubling. */
  method CalcNormalization(a: MpInt, n: MpInt)
    requires a.Valid() && n.Valid() && a != n && n.Mag() > 0
    modifies a
    ensures a.Valid() && !a.neg && a.Mag() <= n.Mag() && Cong(a.Mag(), P(n.used), n.Mag())
    ensures n.Mag() % 2 == 1 && n.Mag() >= 3 ==> a.Mag() < n.Mag() && a.Mag() == P(n.used) % n.Mag()
  {
    a.neg := false;
    var len := CountBits(n);
    var bits: int := len % DIGIT_BIT;
    var b := n.Mag();
    StartExponent(n);
    ghost var base := DIGIT_BIT * (n.used - 1);
    assert Pow(2, 0) == 1;
    hide Pow, IsPowerUpTo;
    if n.used > 1 {
      a.StoreMag(Pow(2, DIGIT_BIT * (n.used - 1) + bits - 1));
    } else {
      a.StoreMag(1);
      bits := 1;
    }
    StartPower(base + bits - 1, b);
    var x := bits - 1;
    while x < DIGIT_BIT
      modifies a
      invariant a.Valid() && !a.neg && x <= DIGIT_BIT && base + x >= 0
      invariant IsPowerUpTo(a.Mag(), base + x, b)
    {
      DoubleStep(a.Mag(), base + x, b);
      a.StoreMag(2 * a.Mag());
      if a.Mag() >= n.Mag() {
        a.StoreMag(a.Mag() - n.Mag());
      }
      x := x + 1;
    }
    EndPower(a.Mag(), n.used, b);
  }

  lemma EndPower(a: nat, k: nat, b: nat)
    requires b > 0 && k > 0 && DIGIT_BIT * (k - 1) + DIGIT_BIT >= 0
    requires IsPowerUpTo(a, DIGIT_BIT * (k - 1) + DIGIT_BIT, b)
    ensures a <= b && Cong(a, P(k), b)
    ensures b % 2 == 1 && b >= 3 ==> a < b && a == P(k) % b
  {
    PIsPow2(k);
    assert DIGIT_BIT * (k - 1) + DIGIT_BIT == DIGIT_BIT * k;
    if a < b {
      ModSmall(a, b);
    }
  }

  /** The bit length of n, split at its top digit. */
  lemma TopLength(n: MpInt) returns (t: nat)
    requires n.Valid() && n.used > 0
    ensures DIGIT_BIT * (n.used - 1) >= 0 && n.Mag() > 0
    ensures 1 <= t <= DIGIT_BIT && BitLength(n.Mag()) == DIGIT_BIT * (n.used - 1) + t
  {
    var k := n.used - 1;
    var d := n.dp[k];
    t := BitLength(d);
    SumBound(n.dp, 0, k);
    PZero();
    BitLengthOfTop(n.Mag(), d, Sum(n.dp, 0, k), k);
    n.UsedIsLength();
    BitLengthBounds(d);
    MulPos(DIGIT_BIT, k);
    hide *;
    DigitLength(d, t);
  }

  lemma DigitLength(d: nat, t: nat)
    requires d < B && (t > 0 ==> Pow(2, t - 1) <= d)
    ensures t <= DIGIT_BIT
  {
    if t > DIGIT_BIT {
      PowMonoExp(2, DIGIT_BIT, t - 1);
    }
  }

  /** Where the doubling may start: the leading bit of n, or one bit below its top digit. */
  lemma StartExponent(n: MpInt)
    requires n.Valid() && n.used > 0
    ensures n.Mag() > 0
    ensures n.used > 1 ==> IsStart(DIGIT_BIT * (n.used - 1) + BitLength(n.Mag()) % DIGIT_BIT - 1, n.Mag())
    ensures n.used == 1 ==> DIGIT_BIT * (n.used - 1) == 0
  {
    var t := TopLength(n);
    var k := n.used - 1;
    BitLengthBounds(n.Mag());
    if k > 0 {
      StartBits(k, t, BitLength(n.Mag()), n.Mag());
    }
  }

  ghost predicate IsStart(e: int, v: nat) {
    e >= 0 && 0 < Pow(2, e) <= v
  }

  lemma StartBits(k: nat, t: nat, len: nat, v: nat)
    requires k > 0 && 1 <= t <= DIGIT_BIT && len == DIGIT_BIT * k + t && Pow(2, len - 1) <= v
    ensures IsStart(DIGIT_BIT * k + len % DIGIT_BIT - 1, v)
  {
    hide Pow;
    MulMono(1, k, DIGIT_BIT);
    ModShift(t, k, DIGIT_BIT);
    MulCommutes(k, DIGIT_BIT);
    if t == DIGIT_BIT {
      DivExact(1, DIGIT_BIT);
    } else {
      ModSmall(t, DIGIT_BIT);
    }
    PowMonoExp(2, DIGIT_BIT * k + len % DIGIT_BIT - 1, len - 1);
  }
}
