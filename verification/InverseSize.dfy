/**
 How many passes fast_mp_invmod makes, and how large the inverse comes out that it
 does not bring below the modulus.
 */
module InverseSize {
  import opened Arith
  import opened Bits
  import opened Divisibility
  import opened Invmod

  /** All factors of two out of u and v: the state the comparison sees. */
  function Odded(s: FastState, x: int): FastState {
    var (u1, B1) := Halve2(s.u, s.B, x);
    var (v1, D1) := Halve2(s.v, s.D, x);
    FastState(u1, v1, B1, D1)
  }

  ghost predicate BothOdd(s: FastState) {
    s.u > 0 && s.v > 0 && s.u % 2 == 1 && s.v % 2 == 1
  }

  lemma OddedIsOdd(s: FastState, x: int)
    requires s.u > 0 && s.v > 0
    ensures BothOdd(Odded(s, x)) && Odded(s, x).u <= s.u && Odded(s, x).v <= s.v
  {
    OddPartIs(s.u);
    OddPartIs(s.v);
  }

  /** A pass from s is one from its odd form. */
  lemma OddedPass(s: FastState, x: int)
    requires s.u > 0 && s.v > 0
    ensures FastStep(Odded(s, x), x) == FastStep(s, x)
    ensures Odded(s, x).u > 0 && Odded(s, x).v > 0 && Loop2(Odded(s, x), x) == Loop2(s, x)
  {
    OddedIsOdd(s, x);
  }

  lemma OddedPasses(k: nat, s: FastState, x: int)
    requires k > 0 && s.u > 0 && s.v > 0
    ensures Passes(k, Odded(s, x), x) == Passes(k, s, x)
  {
    hide FastStep, Odded;
    OddedPass(s, x);
  }

  /** A pass from an odd form is a subtraction. */
  lemma OddPass(s: FastState, x: int)
    requires BothOdd(s)
    ensures FastStep(s, x) ==
      if s.u >= s.v then FastState(s.u - s.v, s.v, s.B - s.D, s.D) else FastState(s.u, s.v - s.u, s.B, s.D - s.B)
  {
  }

  // ----- a bound for every modulus

  /** A coefficient of the n-th comparison. */
  ghost predicate Spread(c: int, x: int, n: nat) {
    0 - (n + 3) * x <= 4 * c <= (n + 1) * x
  }

  lemma HalvedSpread(B: int, h: int, x: nat, n: nat)
    requires n > 0 && (2 * h == B || 2 * h == B - x) && Spread(B, x, n)
    ensures Spread(h, x, n)
  {
    MulMono(1, n, x);
    Distribute(n, 3, x);
    Distribute(n, 1, x);
  }

  lemma {:induction false} HalvingKeepsSpread(u: nat, B: int, x: nat, n: nat)
    requires n > 0 && x % 2 == 1 && Spread(B, x, n)
    ensures Spread(Halve2(u, B, x).1, x, n)
  {
    if IsEven(u) {
      HalvedIs(B, x);
      HalvedSpread(B, Halved(B, x), x, n);
      hide Spread;
      HalvingKeepsSpread(u / 2, Halved(B, x), x, n);
    }
  }

  /** The difference of two coefficients spreads further, but it is halved at least once. */
  lemma DifferenceSpread(B: int, D: int, h: int, x: nat, n: nat)
    requires Spread(B, x, n) && Spread(D, x, n) && (2 * h == B - D || 2 * h == B - D - x)
    ensures Spread(h, x, n + 1)
  {
    Distribute(n, 1, x);
    Distribute(n, 2, x);
    Distribute(n, 3, x);
    Distribute(n, 4, x);
  }

  lemma WiderSpread(B: int, x: nat, n: nat)
    requires Spread(B, x, n)
    ensures Spread(B, x, n + 1)
  {
    MulMono(n + 3, n + 4, x);
    MulMono(n + 1, n + 2, x);
  }

  lemma SubtractedSpread(w: nat, B: int, D: int, x: nat, n: nat)
    requires w > 0 && w % 2 == 0 && x % 2 == 1 && Spread(B, x, n) && Spread(D, x, n)
    ensures Spread(Halve2(w, B - D, x).1, x, n + 1)
  {
    HalvedIs(B - D, x);
    DifferenceSpread(B, D, Halved(B - D, x), x, n);
    hide Spread;
    HalvingKeepsSpread(w / 2, Halved(B - D, x), x, n + 1);
  }

  ghost predicate BothSpread(s: FastState, x: int, n: nat) {
    Spread(s.B, x, n) && Spread(s.D, x, n)
  }

  /** From one comparison to the next the coefficients spread by a quarter of x to either side, and u * v halves. */
  lemma NextComparison(s: FastState, x: nat, n: nat)
    requires x % 2 == 1 && BothOdd(s) && BothSpread(s, x, n) && s.u != s.v
    ensures var t := FastStep(s, x);
      t.u > 0 && t.v > 0 && BothOdd(Odded(t, x)) && BothSpread(Odded(t, x), x, n + 1)
      && 2 * (Odded(t, x).u * Odded(t, x).v) <= s.u * s.v
  {
    OddPass(s, x);
    var t := FastStep(s, x);
    OddedIsOdd(t, x);
    WiderSpread(s.B, x, n);
    WiderSpread(s.D, x, n);
    HalfBelow(t.u);
    HalfBelow(t.v);
    hide Spread, FastStep;
    if s.u > s.v {
      SubtractedSpread(t.u, s.B, s.D, x, n);
      ProductHalves(s.u, s.v, OddPart(t.u));
    } else {
      SubtractedSpread(t.v, s.D, s.B, x, n);
      ProductHalves(s.v, s.u, OddPart(t.v));
    }
  }

  lemma HalfBelow(w: nat)
    ensures w > 0 && w % 2 == 0 ==> 2 * OddPart(w) <= w
  {
    OddPartIs(w / 2);
  }

  lemma ProductHalves(u: nat, v: nat, h: nat)
    requires 2 * h <= u - v
    ensures 2 * (h * v) <= u * v && 2 * (v * h) <= v * u
  {
    MulMono(2 * h, u, v);
    MulAssoc(2, h, v);
    MulCommutes(h, v);
  }

  /** From the n-th comparison on: the loop ends with the m-th one, where m is limited by u * v. */
  lemma {:induction false} Run(s: FastState, x: nat, n: nat) returns (m: nat)
    requires n > 0 && x % 2 == 1 && BothOdd(s) && BothSpread(s, x, n)
    ensures m >= n && Pow(2, m - n) <= s.u * s.v && Spread(Loop2(s, x).D, x, m)
    ensures Passes(m - n + 1, s, x) == Loop2(s, x)
    decreases s.u + s.v
  {
    hide Spread, FastStep, Odded;
    OddPass(s, x);
    var t := FastStep(s, x);
    if t.u == 0 {
      m := n;
      MulPos(s.u, s.v);
      assert Pow(2, 0) == 1 && Passes(0, t, x) == t;
    } else {
      FastStepDecreases(s, x);
      NextComparison(s, x, n);
      OddedIsOdd(t, x);
      m := Run(Odded(t, x), x, n + 1);
      OddedPass(t, x);
      OddedPasses(m - n, t, x);
    }
  }

  /** The start: D goes down from 1 to somewhere above -x. */
  lemma {:induction false} FirstHalving(y: nat, D: int, x: nat)
    requires x % 2 == 1 && 0 - x <= D <= 1
    ensures 0 - x <= Halve2(y, D, x).1 <= 1
  {
    if IsEven(y) {
      HalvedIs(D, x);
      FirstHalving(y / 2, Halved(D, x), x);
    }
  }

  /** The residue of a without its factors of two. */
  function OddResidue(a: int, b: int): (v: nat)
    requires b > 0
    ensures a % b != 0 ==> v % 2 == 1
  {
    DivModIdentity(a, b);
    OddPartIs(a % b);
    OddPart(a % b)
  }

  /** What a caller can compute beforehand: the bits of the modulus and of the odd part of the residue. */
  function PassBound(a: int, b: int): nat
    requires b > 0
  {
    BitLength(b) + BitLength(OddResidue(a, b))
  }

  /** The loop makes at most that many passes, and D ends at or below a quarter of b for each of them and one more. */
  lemma PassesAndSize(a: int, b: int)
    requires b > 0 && b % 2 == 1 && a % b != 0
    ensures exists k: nat :: k <= PassBound(a, b) && Passes(k, FastStart(a, b), b).u == 0
    ensures 4 * FastResult(a, b).1 <= (PassBound(a, b) + 1) * b
  {
    DivModIdentity(a, b);
    var s, y: nat := FastStart(a, b), a % b;
    FirstHalving(y, 1, b);
    assert Halve2(b, 0, b) == (b, 0);
    OddedIsOdd(s, b);
    OddedPass(s, b);
    FirstSpread(0, b);
    FirstSpread(Halve2(y, 1, b).1, b);
    hide Spread;
    var m := Run(Odded(s, b), b, 1);
    OddedPasses(m, s, b);
    FewPasses(m, b, OddPart(y));
    LargerSpread(FastResult(a, b).1, b, m, PassBound(a, b));
  }

  lemma FirstSpread(D: int, x: nat)
    requires x > 1 && 0 - x <= D <= 1
    ensures Spread(D, x, 1)
  {
  }

  lemma LargerSpread(D: int, x: nat, m: nat, n: nat)
    requires Spread(D, x, m) && m <= n
    ensures 4 * D <= (n + 1) * x
  {
    MulMono(m + 1, n + 1, x);
  }

  lemma FewPasses(m: nat, u: nat, v: nat)
    requires m > 0 && Pow(2, m - 1) <= u * v
    ensures m <= BitLength(u) + BitLength(v)
  {
    var k, l := BitLength(u), BitLength(v);
    BitLengthBounds(u);
    BitLengthBounds(v);
    PowAdd(2, k, l);
    MulMono(u, Pow(2, k), v);
    PowPos(2, k);
    MulMono(v, Pow(2, l), Pow(2, k));
    if m > k + l {
      PowMonoExp(2, k + l, m - 1);
      ZeroProduct(u, v, Pow(2, k), Pow(2, l));
      assert false;
    }
  }

  lemma ZeroProduct(u: nat, v: nat, p: nat, q: nat)
    requires u < p && v < q
    ensures u * v < p * q
  {
    MulMono(u, p, v);
    MulMono(v + 1, q, p);
    assert p * (v + 1) == p * v + p;
  }

  /** The inverse is at most a quarter of b times the number of passes and one. */
  lemma InverseBound(m: nat, a: int, b: int)
    requires b > 0 && b % 2 == 1 && IsFastInverse(m, a, b)
    ensures 4 * m <= (PassBound(a, b) + 1) * b
  {
    PassesAndSize(a, b);
    if FastResult(a, b).1 < 0 {
      AtLeastThree(a, b);
      MulMono(4, PassBound(a, b) + 1, b);
    }
  }

  lemma AtLeastThree(a: int, b: int)
    requires b > 0 && a % b != 0
    ensures PassBound(a, b) >= 3
  {
    DivModIdentity(a, b);
    OddPartIs(a % b);
    assert b >= 2 && BitLength(b) == 1 + BitLength(b / 2);
    assert BitLength(b / 2) > 0;
  }

  // ----- a condition for an inverse below the modulus

  /**
   Euclid on u and v, with bounds that a caller can compute without the coefficients:
   B >= -(p * x / w + 1) and D <= q * x / w + 1 for every modulus x. Tame when q / w ends below 1.
   */
  predicate Tame(u: nat, v: nat, p: nat, q: nat, w: nat)
    requires u > 0 && v > 0
    decreases u + v
  {
    if u % 2 == 0 then Tame(u / 2, v, p + w, 2 * q, 2 * w)
    else if v % 2 == 0 then Tame(u, v / 2, 2 * p, q, 2 * w)
    else if u == v then q < w
    else if u > v then Tame((u - v) / 2, v, p + q + w, 2 * q, 2 * w)
    else Tame(u, (v - u) / 2, 2 * p, q + p, 2 * w)
  }

  ghost predicate Bounded(s: FastState, x: int, p: nat, q: nat, w: nat) {
    w > 0 && 0 - s.B * w <= p * x + w && s.D * w <= q * x + w
  }

  /** Halving u and then v one factor at a time. */
  lemma HalveU(s: FastState, x: int)
    requires s.u > 0 && s.v > 0 && s.u % 2 == 0
    ensures Loop2(FastState(s.u / 2, s.v, Halved(s.B, x), s.D), x) == Loop2(s, x)
  {
  }

  lemma HalveV(s: FastState, x: int)
    requires s.u > 0 && s.v > 0 && s.v % 2 == 0
    ensures Loop2(FastState(s.u, s.v / 2, s.B, Halved(s.D, x)), x) == Loop2(s, x)
  {
  }

  /** The subtraction together with the halving that follows it. */
  lemma LowerU(s: FastState, x: int)
    requires BothOdd(s) && s.u > s.v
    ensures Loop2(FastState((s.u - s.v) / 2, s.v, Halved(s.B - s.D, x), s.D), x) == Loop2(s, x)
  {
    OddPass(s, x);
    hide FastStep;
    HalveU(FastState(s.u - s.v, s.v, s.B - s.D, s.D), x);
  }

  lemma LowerV(s: FastState, x: int)
    requires BothOdd(s) && s.u < s.v
    ensures Loop2(FastState(s.u, (s.v - s.u) / 2, s.B, Halved(s.D - s.B, x)), x) == Loop2(s, x)
  {
    OddPass(s, x);
    hide FastStep;
    HalveV(FastState(s.u, s.v - s.u, s.B, s.D - s.B), x);
  }

  lemma LowHalf(B: int, h: int, x: nat, p: nat, w: nat, e: nat)
    requires (2 * h == B || 2 * h == B - x) && 0 - B * w <= p * x + e
    ensures 0 - h * (2 * w) <= (p + w) * x + e
  {
    assert h * (2 * w) == (2 * h) * w;
    assert (B - x) * w == B * w - x * w;
    MulCommutes(x, w);
    MulPos(w, x);
    Distribute(p, w, x);
  }

  lemma HighHalf(D: int, h: int, x: nat, q: nat, w: nat, e: nat)
    requires (2 * h == D || 2 * h == D - x) && D * w <= q * x + e
    ensures h * (2 * w) <= q * x + e
  {
    assert h * (2 * w) == (2 * h) * w;
    assert (D - x) * w == D * w - x * w;
    MulPos(x, w);
  }

  /** Doubling the denominator. */
  lemma Rescaled(c: int, x: int, q: nat, w: nat)
    requires c * w <= q * x + w
    ensures c * (2 * w) <= (2 * q) * x + 2 * w
  {
    assert c * (2 * w) == 2 * (c * w) && (2 * q) * x == 2 * (q * x);
  }

  lemma SumBound(B: int, D: int, x: int, p: nat, q: nat, w: nat)
    requires 0 - B * w <= p * x + w && D * w <= q * x + w
    ensures 0 - (B - D) * w <= (p + q) * x + 2 * w
    ensures (D - B) * w <= (q + p) * x + 2 * w
  {
    assert (B - D) * w == B * w - D * w && (D - B) * w == D * w - B * w;
    Distribute(p, q, x);
    Distribute(q, p, x);
  }

  lemma BoundedHalfU(s: FastState, x: nat, p: nat, q: nat, w: nat)
    requires x % 2 == 1 && Bounded(s, x, p, q, w)
    ensures Bounded(FastState(s.u / 2, s.v, Halved(s.B, x), s.D), x, p + w, 2 * q, 2 * w)
  {
    HalvedIs(s.B, x);
    LowHalf(s.B, Halved(s.B, x), x, p, w, w);
    Rescaled(s.D, x, q, w);
  }

  lemma BoundedHalfV(s: FastState, x: nat, p: nat, q: nat, w: nat)
    requires x % 2 == 1 && Bounded(s, x, p, q, w)
    ensures Bounded(FastState(s.u, s.v / 2, s.B, Halved(s.D, x)), x, 2 * p, q, 2 * w)
  {
    HalvedIs(s.D, x);
    HighHalf(s.D, Halved(s.D, x), x, q, w, w);
    Minus(s.B, w);
    Rescaled(-s.B, x, p, w);
    Minus(s.B, 2 * w);
  }

  lemma Minus(c: int, w: int)
    ensures (-c) * w == 0 - c * w
  {
  }

  lemma BoundedLowerU(s: FastState, x: nat, p: nat, q: nat, w: nat)
    requires x % 2 == 1 && s.u > s.v && Bounded(s, x, p, q, w)
    ensures Bounded(FastState((s.u - s.v) / 2, s.v, Halved(s.B - s.D, x), s.D), x, p + q + w, 2 * q, 2 * w)
  {
    HalvedIs(s.B - s.D, x);
    SumBound(s.B, s.D, x, p, q, w);
    LowHalf(s.B - s.D, Halved(s.B - s.D, x), x, p + q, w, 2 * w);
    Rescaled(s.D, x, q, w);
  }

  lemma BoundedLowerV(s: FastState, x: nat, p: nat, q: nat, w: nat)
    requires x % 2 == 1 && s.u < s.v && Bounded(s, x, p, q, w)
    ensures Bounded(FastState(s.u, (s.v - s.u) / 2, s.B, Halved(s.D - s.B, x)), x, 2 * p, q + p, 2 * w)
  {
    HalvedIs(s.D - s.B, x);
    SumBound(s.B, s.D, x, p, q, w);
    HighHalf(s.D - s.B, Halved(s.D - s.B, x), x, q + p, w, 2 * w);
    Minus(s.B, w);
    Rescaled(-s.B, x, p, w);
    Minus(s.B, 2 * w);
  }

  /** From a tame state on, D does not end above x. */
  lemma {:induction false} TameEnds(s: FastState, x: nat, p: nat, q: nat, w: nat)
    requires x % 2 == 1 && s.u > 0 && s.v > 0 && Bounded(s, x, p, q, w) && Tame(s.u, s.v, p, q, w)
    ensures Loop2(s, x).D <= x
    decreases s.u + s.v
  {
    hide Halved, Loop2;
    if s.u % 2 == 0 {
      HalveU(s, x);
      BoundedHalfU(s, x, p, q, w);
      TameEnds(FastState(s.u / 2, s.v, Halved(s.B, x), s.D), x, p + w, 2 * q, 2 * w);
    } else if s.v % 2 == 0 {
      HalveV(s, x);
      BoundedHalfV(s, x, p, q, w);
      TameEnds(FastState(s.u, s.v / 2, s.B, Halved(s.D, x)), x, 2 * p, q, 2 * w);
    } else if s.u == s.v {
      LastPass(s, x);
      EndBound(s.D, x, q, w);
    } else if s.u > s.v {
      LowerU(s, x);
      BoundedLowerU(s, x, p, q, w);
      TameEnds(FastState((s.u - s.v) / 2, s.v, Halved(s.B - s.D, x), s.D), x, p + q + w, 2 * q, 2 * w);
    } else {
      LowerV(s, x);
      BoundedLowerV(s, x, p, q, w);
      TameEnds(FastState(s.u, (s.v - s.u) / 2, s.B, Halved(s.D - s.B, x)), x, 2 * p, q + p, 2 * w);
    }
  }

  lemma LastPass(s: FastState, x: int)
    requires BothOdd(s) && s.u == s.v
    ensures Loop2(s, x).D == s.D
  {
  }

  lemma EndBound(D: int, x: nat, q: nat, w: nat)
    requires x > 0 && D * w <= q * x + w && q < w
    ensures D <= x
  {
    if D >= x + 1 {
      MulMono(x + 1, D, w);
      CountUp(x, w);
      MulMono(q + 1, w, x);
      CountUp(q, x);
      MulCommutes(x, w);
      assert false;
    }
  }

  /** However the first phase leaves u below v, the rest is tame. */
  predicate TameFrom(v: nat)
    requires v > 0
  {
    forall u: nat :: 0 < u < v && u % 2 == 1 ==> Tame(u, v, 1, 0, 1)
  }

  /** As long as u is the larger one, D stays as it is, and B above -x - 2. */
  lemma {:induction false} FirstPhase(s: FastState, x: nat)
    requires x % 2 == 1 && s.u > 0 && s.v > 0 && s.v % 2 == 1 && TameFrom(s.v)
    requires s.D <= 1 && s.B >= 0 - x - 1
    ensures Loop2(s, x).D <= x
    decreases s.u
  {
    hide Halved, Loop2, Tame;
    if s.u % 2 == 0 {
      HalveU(s, x);
      HalvedIs(s.B, x);
      FirstPhase(FastState(s.u / 2, s.v, Halved(s.B, x), s.D), x);
    } else if s.u == s.v {
      LastPass(s, x);
    } else if s.u > s.v {
      LowerU(s, x);
      HalvedIs(s.B - s.D, x);
      FirstPhase(FastState((s.u - s.v) / 2, s.v, Halved(s.B - s.D, x), s.D), x);
    } else {
      assert Bounded(s, x, 1, 0, 1) by { assert 1 * x == x && 0 * x == 0; }
      TameEnds(s, x, 1, 0, 1);
    }
  }

  /** A tame odd part of the residue: the inverse comes out below the modulus. */
  lemma TameReduced(m: nat, a: int, b: int)
    requires b > 0 && b % 2 == 1 && a % b != 0 && Coprime(a, b) && IsFastInverse(m, a, b)
    requires TameFrom(OddResidue(a, b))
    ensures m < b
  {
    hide TameFrom;
    DivModIdentity(a, b);
    var s, y: nat := FastStart(a, b), a % b;
    FirstHalving(y, 1, b);
    assert Halve2(b, 0, b) == (b, 0);
    OddedIsOdd(s, b);
    OddedPass(s, b);
    FirstPhase(Odded(s, b), b);
    FastCorrect(a, b);
    NotTheModulus(a, FastResult(a, b).1, b);
  }

  /** The same for one modulus: Euclid on b and the residue with the bounds alone tells it. */
  lemma TameRunReduced(m: nat, a: int, b: int)
    requires b > 0 && b % 2 == 1 && a % b != 0 && Coprime(a, b) && IsFastInverse(m, a, b)
    requires a % b > 0 && Tame(b, a % b, 0, 0, 1)
    ensures m < b
  {
    var s := FastStart(a, b);
    assert Bounded(s, b, 0, 0, 1) by { assert 0 * b == 0; }
    TameEnds(s, b, 0, 0, 1);
    FastCorrect(a, b);
    NotTheModulus(a, FastResult(a, b).1, b);
  }

  lemma NotTheModulus(a: int, D: int, b: int)
    requires b > 0 && a % b != 0 && Cong(a * D, 1, b)
    ensures D != b
  {
    if D == b {
      DivExact(a, b);
      ModSmall(1, b);
    }
  }

  /** Up to 9 every odd number is tame. */
  lemma TameUpTo9(v: nat)
    requires v % 2 == 1 && v <= 9
    ensures TameFrom(v)
  {
    hide Tame;
    Tame3And5();
    Tame7();
    Tame9();
  }

  lemma Tame3And5()
    ensures Tame(1, 3, 1, 0, 1)
    ensures Tame(1, 5, 1, 0, 1) && Tame(3, 5, 1, 0, 1)
  {
  }

  lemma Tame7()
    ensures Tame(1, 7, 1, 0, 1) && Tame(3, 7, 1, 0, 1) && Tame(5, 7, 1, 0, 1)
  {
  }

  lemma Tame9()
    ensures Tame(1, 9, 1, 0, 1) && Tame(3, 9, 1, 0, 1) && Tame(5, 9, 1, 0, 1) && Tame(7, 9, 1, 0, 1)
  {
  }

  /** A residue that is a power of two times a number up to 9 has its inverse below the modulus. */
  lemma SmallResidueReduced(m: nat, a: int, b: int)
    requires b > 0 && b % 2 == 1 && a % b != 0 && Coprime(a, b) && IsFastInverse(m, a, b)
    requires OddResidue(a, b) <= 9
    ensures m < b
  {
    TameUpTo9(OddResidue(a, b));
    TameReduced(m, a, b);
  }

  lemma OnePass(s: FastState, t: FastState, x: int)
    requires s.u > 0 && s.v > 0 && t == FastStep(s, x)
    ensures if t.u == 0 then Loop2(s, x) == t else t.u > 0 && t.v > 0 && Loop2(s, x) == Loop2(t, x)
  {
    FastStepDecreases(s, x);
  }

  /** The passes for 253 modulo 777. */
  lemma Pass1()
    ensures FastStep(FastState(777, 253, 0, 1), 777) == FastState(524, 253, -1, 1)
  {
    hide OddPart;
  }

  lemma Pass2()
    ensures FastStep(FastState(524, 253, -1, 1), 777) == FastState(131, 122, -583, 584)
  {
    hide OddPart;
    assert Halve2(524, -1, 777) == (131, -583);
  }

  lemma Pass3()
    ensures FastStep(FastState(131, 122, -583, 584), 777) == FastState(70, 61, -875, 292)
  {
    hide OddPart;
    assert Halve2(122, 584, 777) == (61, 292);
  }

  lemma Pass4()
    ensures FastStep(FastState(70, 61, -875, 292), 777) == FastState(35, 26, -826, 1118)
  {
    hide OddPart;
    assert Halve2(70, -875, 777) == (35, -826);
  }

  lemma Pass5()
    ensures FastStep(FastState(35, 26, -826, 1118), 777) == FastState(22, 13, -1385, 559)
  {
    hide OddPart;
    assert Halve2(26, 1118, 777) == (13, 559);
  }

  lemma Pass6()
    ensures FastStep(FastState(22, 13, -1385, 559), 777) == FastState(11, 2, -1081, 1640)
  {
    hide OddPart;
    assert Halve2(22, -1385, 777) == (11, -1081);
  }

  lemma Pass7()
    ensures FastStep(FastState(11, 2, -1081, 1640), 777) == FastState(10, 1, -1901, 820)
  {
    hide OddPart;
    assert Halve2(2, 1640, 777) == (1, 820);
  }

  lemma Pass8()
    ensures FastStep(FastState(10, 1, -1901, 820), 777) == FastState(4, 1, -2159, 820)
  {
    hide OddPart;
    assert Halve2(10, -1901, 777) == (5, -1339);
  }

  lemma Pass9()
    ensures FastStep(FastState(4, 1, -2159, 820), 777) == FastState(0, 1, -1554, 820)
  {
    hide OddPart;
    assert Halve2(4, -2159, 777) == (1, -734);
  }

  /** The inverse of 253 modulo 777 comes out as 820: it is not brought below the modulus. */
  lemma NotReduced()
    ensures FastResult(253, 777) == (1, 820) && IsFastInverse(820, 253, 777) && 820 >= 777
  {
    hide OddPart, FastResult, FastStart, FastStep, Loop2;
    StartOfLoop(253, 777);
    Pass1();
    OnePass(FastState(777, 253, 0, 1), FastState(524, 253, -1, 1), 777);
    Pass2();
    OnePass(FastState(524, 253, -1, 1), FastState(131, 122, -583, 584), 777);
    Pass3();
    OnePass(FastState(131, 122, -583, 584), FastState(70, 61, -875, 292), 777);
    Pass4();
    OnePass(FastState(70, 61, -875, 292), FastState(35, 26, -826, 1118), 777);
    Pass5();
    OnePass(FastState(35, 26, -826, 1118), FastState(22, 13, -1385, 559), 777);
    Pass6();
    OnePass(FastState(22, 13, -1385, 559), FastState(11, 2, -1081, 1640), 777);
    Pass7();
    OnePass(FastState(11, 2, -1081, 1640), FastState(10, 1, -1901, 820), 777);
    Pass8();
    OnePass(FastState(10, 1, -1901, 820), FastState(4, 1, -2159, 820), 777);
    Pass9();
    OnePass(FastState(4, 1, -2159, 820), FastState(0, 1, -1554, 820), 777);
  }
}
