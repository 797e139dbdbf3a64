/**
 Barrett reduction: x mod m from a precomputed reciprocal, with a product whose
 low columns are never computed.
 */
module Barrett {
  import opened Arith
  import opened Radix
  import opened Products
  import opened MpInts
  import opened Multiply
  import Division
  import MpMul

  /** mu is the reciprocal of m, a number of k digits. */
  ghost predicate IsReciprocal(mu: int, m: int, k: nat) {
    m > 0 && mu * m <= P(2 * k) < (mu + 1) * m
  }

  // ----- how far the estimated quotient can be off

  /** From a quotient of the leading digits: the estimate never exceeds x / m. */
  lemma NeverTooLarge(x: nat, m: nat, mu: nat, q1: nat, q: nat, A: nat, D: nat)
    requires A > 0 && D > 0
    requires q1 * A <= x && mu * m <= A * D && q * D <= q1 * mu
    ensures q * m <= x
  {
    MulMono(q * D, q1 * mu, m);
    MulAssoc(q1, mu, m);
    MulMono(mu * m, A * D, q1);
    MulAssoc(q1, A, D);
    MulMono(q1 * A, x, D);
    MulSwap(q, D, m);
    if q * m > x {
      MulMono(x + 1, q * m, D);
      CountUp(x, D);
    }
  }

  /** The leading digits and the reciprocal lose less than 2 * m together. */
  lemma LostByRounding(x: nat, m: nat, mu: nat, q1: nat, A: nat, D: nat)
    requires A > 0 && D > 0 && A <= m && q1 <= D
    requires x < (q1 + 1) * A && A * D < (mu + 1) * m
    ensures x * D < q1 * mu * m + 2 * (m * D)
  {
    Scaled(x, q1, A, D);
    MulMono(A * D, (mu + 1) * m, q1);
    ExpandReciprocal(q1, mu, m);
    MulMono(q1, D, m);
    MulMono(A, m, D);
    MulCommutes(D, m);
  }

  /** The truncated product loses less than (1 + e) * m more. */
  lemma LostByTruncation(m: nat, mu: nat, q1: nat, q: nat, e: nat, D: nat)
    requires D > 0 && q1 * mu - e * D < (q + 1) * D
    ensures q1 * mu * m <= (q + 1 + e) * m * D
  {
    Distribute(q + 1, e, D);
    MulMono(q1 * mu, (q + 1 + e) * D, m);
    MulSwap(q + 1 + e, D, m);
  }

  /** The estimate is short of x / m by less than 3 + e when e * D was dropped from the product. */
  lemma AlmostLargeEnough(x: nat, m: nat, mu: nat, q1: nat, q: nat, e: nat, A: nat, D: nat)
    requires A > 0 && D > 0 && A <= m && q1 <= D
    requires x < (q1 + 1) * A && A * D < (mu + 1) * m
    requires q1 * mu - e * D < (q + 1) * D
    ensures x < q * m + (3 + e) * m
  {
    LostByRounding(x, m, mu, q1, A, D);
    LostByTruncation(m, mu, q1, q, e, D);
    Collect(q, e, m, D);
    if x >= q * m + (3 + e) * m {
      MulMono(q * m + (3 + e) * m, x, D);
      assert false;
    }
  }

  lemma Scaled(x: nat, q1: nat, A: nat, D: nat)
    requires x < (q1 + 1) * A && D > 0
    ensures x * D < q1 * (A * D) + A * D
  {
    MulMono(x + 1, (q1 + 1) * A, D);
    CountUp(x, D);
    MulAssoc(q1 + 1, A, D);
    CountUp(q1, A * D);
  }

  lemma ExpandReciprocal(q1: int, mu: int, m: int)
    ensures q1 * ((mu + 1) * m) == q1 * mu * m + q1 * m
  {
    MulAssoc(q1, mu, m);
    assert (mu + 1) * m == mu * m + m;
  }

  lemma Collect(q: int, e: int, m: int, D: int)
    ensures (q * m + (3 + e) * m) * D == (q + 1 + e) * m * D + 2 * (m * D)
  {
    assert q * m + (3 + e) * m == (q + 1 + e) * m + 2 * m;
    assert ((q + 1 + e) * m + 2 * m) * D == (q + 1 + e) * m * D + 2 * m * D;
    MulAssoc(2, m, D);
  }

  // ----- the pieces of mp_reduce

  /** The number of leading digits of x * mu / B^(k+1) lost to the missing columns. */
  function Missing(k: nat): nat {
    if k > B / 2 then 0 else k
  }

  /** The estimated quotient q, and how far from x / m it is. */
  ghost predicate IsEstimate(q: nat, x: nat, m: nat, k: nat) {
    q * m <= x < q * m + (3 + Missing(k)) * m
  }

  /** Any q2 whose part above column k lies between the truncated and the full product will do. */
  lemma EstimateFrom(x: nat, m: nat, mu: nat, k: nat, q2: nat, q1: nat)
    requires k >= 1 && P(k - 1) <= m < P(k) && IsReciprocal(mu, m, k) && x < m * m
    requires q1 * P(k - 1) <= x < (q1 + 1) * P(k - 1)
    requires q1 * mu - Missing(k) * P(k + 1) <= q2
    requires (q2 / P(k + 1)) * P(k + 1) <= q1 * mu
    ensures q2 / P(k + 1) >= 0 && IsEstimate(q2 / P(k + 1), x, m, k)
  {
    var A, D, q := P(k - 1), P(k + 1), q2 / P(k + 1);
    PAdd(k - 1, k + 1);
    PMono(k - 1, k);
    PStep(k - 1);
    PStep(k);
    DivNonNeg(q2, D);
    DivModIdentity(q2, D);
    CountUp(q, D);
    QuotientFits(x, m, q1, A, P(k), D);
    hide P;
    NeverTooLarge(x, m, mu, q1, q, A, D);
    AlmostLargeEnough(x, m, mu, q1, q, Missing(k), A, D);
  }

  lemma QuotientFits(x: nat, m: nat, q1: nat, A: nat, pk: nat, D: nat)
    requires A > 0 && m < pk && x < m * m && q1 * A <= x && pk == B * A && D == B * pk
    ensures q1 < D
  {
    MulMono(m, pk, m);
    MulMono(m, pk, pk);
    assert pk * pk == D * A by {
      MulAssoc(B, A, pk);
      MulAssoc(B, pk, A);
      MulCommutes(A, pk);
    }
    if q1 >= D {
      MulMono(D, q1, A);
      assert false;
    }
  }

  /** Whatever sits below column k does not reach the digits from k + 1 up. */
  lemma LowDigitsDoNotMatter(h: nat, t: nat, c: nat, k: nat)
    requires h == c * P(k) && h <= t < h + P(k)
    ensures (t / P(k + 1)) * P(k + 1) <= h
  {
    DivModUnique(t, P(k), c, t - h);
    DivNonNeg(t, P(k));
    DivDiv(t, P(k), B);
    PStep(k);
    MulCommutes(P(k), B);
    var q := t / P(k + 1);
    DivModIdentity(c, B);
    assert q == c / B;
    hide P;
    MulMono(q * B, c, P(k));
    MulAssoc(q, B, P(k));
  }

  /** The truncated product meets what EstimateFrom asks. */
  lemma TruncatedProduct(x: seq<nat>, n: nat, y: seq<nat>, m: nat, k: nat, t: nat)
    requires n <= |x| && m <= |y| && AreDigits(x, 0, n) && AreDigits(y, 0, m) && n <= k + 1
    requires High(x, n, y, m, k) <= t < High(x, n, y, m, k) + P(k)
    ensures Sum(x, 0, n) * Sum(y, 0, m) - k * P(k + 1) <= t
    ensures (t / P(k + 1)) * P(k + 1) <= Sum(x, 0, n) * Sum(y, 0, m)
  {
    hide High, Low, P, Sum;
    LowPlusHigh(x, n, y, m, k);
    LowBound(x, n, y, m, k);
    MulMono(Min(n, k), k, P(k + 1));
    var c := HighMultiple(x, n, y, m, k);
    HighNonNeg(x, n, y, m, k);
    if c < 0 {
      MulMono(c, -1, P(k));
    }
    LowDigitsDoNotMatter(c * P(k), t, c, k);
  }

  lemma {:induction false} HighNonNeg(x: seq<int>, n: nat, y: seq<int>, m: nat, d: nat)
    requires n <= |x| && m <= |y| && AreDigits(x, 0, n) && AreDigits(y, 0, m)
    ensures 0 <= High(x, n, y, m, d)
  {
    if n > 0 {
      HighNonNeg(x, n - 1, y, m, d);
      var c := Clip(d - (n - 1), m);
      SumBound(y, c, m);
      PMono(c, m);
      MulPos(x[n - 1], P(n - 1));
      MulPos(x[n - 1] * P(n - 1), Sum(y, c, m));
    }
  }

  /** mp_reduce's quotient: from the leading digits of x and the reciprocal. */
  method EstimateQuotient(x: MpInt, m: MpInt, mu: MpInt) returns (q: MpInt)
    requires x.Valid() && m.Valid() && mu.Valid() && !mu.neg && m.Mag() > 0
    requires x.Mag() < m.Mag() * m.Mag() && IsReciprocal(mu.Mag(), m.Mag(), m.used)
    ensures fresh(q) && q.Valid() && !q.neg && IsEstimate(q.Mag(), x.Mag(), m.Mag(), m.used)
  {
    var k := m.used;
    m.UsedIsLength();
    q := new MpInt();
    q.StoreMag(x.Mag());
    hide P, IsReciprocal, IsEstimate;
    LeadingDigits(x.Mag(), m.Mag(), k);
    q.StoreMag(q.Mag() / P(k - 1));
    ghost var q1 := q.Mag();
    MultiplyHigh(q, mu, k) by {
      ReciprocalLength(mu, m.Mag(), k);
    }
    EstimateFrom(x.Mag(), m.Mag(), mu.Mag(), k, q.Mag(), q1);
    q.StoreMag(q.Mag() / P(k + 1));
  }

  /** q * mu, or its columns from k up when k is small enough for the loss not to matter. */
  method MultiplyHigh(q: MpInt, mu: MpInt, k: nat)
    requires q.Valid() && mu.Valid() && q != mu && !q.neg && !mu.neg && q.used <= k + 1 && k <= mu.used
    modifies q
    ensures q.Valid() && !q.neg
    ensures old(q.Mag()) * mu.Mag() - Missing(k) * P(k + 1) <= q.Mag()
    ensures (q.Mag() / P(k + 1)) * P(k + 1) <= old(q.Mag()) * mu.Mag()
  {
    hide P;
    if k > B / 2 {
      MulPos(q.Mag(), mu.Mag());
      DivModIdentity(q.Mag() * mu.Mag(), P(k + 1));
      assert Missing(k) * P(k + 1) == 0;
      MpMul.Mul(q, mu, q);
      NotNegative(q);
    } else {
      ghost var d, n := q.dp, q.used;
      MulHighDigs(q, mu, q, k);
      TruncatedProduct(d, n, mu.dp, mu.used, k, q.Mag());
    }
  }

  /** The leading digits of x: at most k + 1 of them. */
  lemma LeadingDigits(x: nat, m: nat, k: nat)
    requires k >= 1 && P(k - 1) <= m < P(k) && x < m * m
    ensures x / P(k - 1) >= 0 && Used(x / P(k - 1)) <= k + 1
    ensures (x / P(k - 1)) * P(k - 1) <= x < (x / P(k - 1) + 1) * P(k - 1)
  {
    var A := P(k - 1);
    DivNonNeg(x, A);
    DivModIdentity(x, A);
    CountUp(x / A, A);
    PStep(k - 1);
    PStep(k);
    QuotientFits(x, m, x / A, A, P(k), P(k + 1));
    UsedAtMost(x / A, k + 1);
  }

  /** The reciprocal has more than k digits. */
  lemma ReciprocalLength(mu: MpInt, m: nat, k: nat)
    requires mu.Valid() && IsReciprocal(mu.Mag(), m, k) && m < P(k)
    ensures k <= mu.used
  {
    mu.UsedIsLength();
    if mu.used < k {
      PMono(mu.used, k);
      PAdd(k, k);
      MulMono(mu.Mag() + 1, P(k), m);
      MulMono(m, P(k), P(k));
      MulMono(m + 1, P(k), P(k));
      CountUp(m, P(k));
      MulCommutes(m, P(k));
      PZero();
      assert false;
    }
  }

  /** A difference in range survives reducing both sides modulo D, up to one wrap. */
  lemma WrapDifference(x: int, y: int, D: int)
    requires D > 0 && 0 <= x - y < D
    ensures var d := x % D - y % D; (if d < 0 then d + D else d) == x - y
  {
    DivModIdentity(x, D);
    DivModIdentity(y, D);
    var a, d := x / D - y / D, x % D - y % D;
    assert (x / D) * D - (y / D) * D == a * D;
    ModSmall(x - y, D);
    if d < 0 {
      assert (a - 1) * D == a * D - D;
      DivModUnique(x - y, D, a - 1, d + D);
    } else {
      DivModUnique(x - y, D, a, d);
    }
  }

  /** x - q * m is small enough to be recovered from the low k + 1 digits of both. */
  lemma NotNegative(q: MpInt)
    requires q.Valid() && q.Value() >= 0
    ensures !q.neg && q.Mag() == q.Value()
  {
    if q.used > 0 {
      q.TopIsPositive();
    }
  }

  lemma Recovered(x: nat, q: nat, m: nat, k: nat)
    requires IsEstimate(q, x, m, k) && 0 < m < P(k)
    ensures x % P(k + 1) >= 0
    ensures var d := x % P(k + 1) - ProductMod(q, m, k + 1);
      (if d < 0 then d + P(k + 1) else d) == x - q * m
  {
    var D := P(k + 1);
    PStep(k);
    MulMono(3 + Missing(k), B, m);
    MulMono(m, P(k), B);
    MulCommutes(B, m);
    DivModIdentity(x, D);
    ProductModIs(q, m, k + 1);
    Distance(x, q, m, k);
    hide *;
    WrapDifference(x, q * m, D);
  }

  /** mp_reduce: x = x mod m. subs counts the subtractions of the closing loop. */
  method Reduce(x: MpInt, m: MpInt, mu: MpInt) returns (ghost subs: nat)
    requires x.Valid() && m.Valid() && mu.Valid() && x != m && x != mu && !x.neg && !m.neg && !mu.neg
    requires m.Mag() > 0 && x.Mag() < m.Mag() * m.Mag()
    requires IsReciprocal(mu.Mag(), m.Mag(), m.used)
    modifies x
    ensures x.Valid() && !x.neg
    ensures x.Mag() == old(x.Mag()) % m.Mag()
    ensures subs <= 2 + Missing(m.used)
  {
    ghost var X, N := x.Mag(), m.Mag();
    var k := m.used;
    m.UsedIsLength();
    hide P, IsReciprocal, IsEstimate, ProductMod;
    var q := EstimateQuotient(x, m, mu);
    ghost var q3 := q.Mag();
    Recovered(X, q3, N, k);
    x.StoreMag(x.Mag() % P(k + 1));
    MulDigs(q, m, q, k + 1);
    var d := x.Mag() - q.Mag();
    if d < 0 {
      d := d + P(k + 1);
    }
    Distance(X, q3, N, k);
    x.StoreMag(d);
    subs := SubtractDown(x, m, X, q3, 3 + Missing(k));
  }

  /** The closing loop of mp_reduce, on a number below c * m. */
  method SubtractDown(x: MpInt, m: MpInt, ghost X: nat, ghost q: nat, ghost c: nat) returns (ghost subs: nat)
    requires x.Valid() && m.Valid() && x != m && !x.neg && !m.neg && m.Mag() > 0
    requires c > 0 && x.Mag() == X - q * m.Mag() && x.Mag() < c * m.Mag()
    modifies x
    ensures x.Valid() && !x.neg && x.Mag() == X % m.Mag() && subs < c
  {
    ghost var N := m.Mag();
    subs := 0;
    while x.Mag() >= m.Mag()
      modifies x
      invariant x.Valid() && !x.neg
      invariant x.Mag() == X - (q + subs) * N
      invariant subs < c && x.Mag() < (c - subs) * N
      decreases x.Mag()
    {
      BackOff(X, q, subs, c, N, x.Mag());
      x.StoreMag(x.Mag() - m.Mag());
      subs := subs + 1;
    }
    DivModUnique(X, N, q + subs, x.Mag());
  }

  lemma Distance(x: nat, q: nat, m: nat, k: nat)
    requires IsEstimate(q, x, m, k)
    ensures 0 <= x - q * m < (3 + Missing(k)) * m
  {
  }

  /** One subtraction: still a remainder, and one less to go. */
  lemma BackOff(x: nat, q: nat, s: nat, c: nat, m: nat, r: nat)
    requires m > 0 && r == x - (q + s) * m && m <= r < (c - s) * m && s <= c
    ensures r - m == x - (q + s + 1) * m && r - m < (c - (s + 1)) * m && s + 1 < c
  {
    CountUp(q + s, m);
    Distribute(c - (s + 1), 1, m);
    if s + 1 >= c {
      MulMono(c - s, 1, m);
      assert false;
    }
  }

  /** mp_reduce_setup: the reciprocal B^(2k) / m. */
  method Setup(mu: MpInt, m: MpInt)
    requires mu.Valid() && m.Valid() && mu != m && m.Mag() > 0 && !m.neg
    modifies mu
    ensures mu.Valid() && !mu.neg && IsReciprocal(mu.Mag(), m.Mag(), m.used)
    ensures mu.Mag() == P(2 * m.used) / m.Mag()
  {
    var k := m.used;
    DivNonNeg(P(2 * k), m.Mag());
    DivModIdentity(P(2 * k), m.Mag());
    CountUp(P(2 * k) / m.Mag(), m.Mag());
    mu.neg := false;
    mu.StoreMag(P(2 * k));
    var err := Division.Div(mu, m, mu, null);
    NotNegative(mu);
  }
}
