/**
 mp_mul and the two subquadratic methods it recurses through: Karatsuba and
 three-way Toom-Cook.
 */
module MpMul {
  import opened Arith
  import opened Radix
  import opened MpInts
  import opened Division
  import Multiply

  type KaratsubaCutoff = n: nat | 4 <= n witness 80
  type ToomCutoff = n: nat | 3 <= n witness 350

  /** The cutoffs are variables a caller may tune; below these bounds the recursion would not get anywhere. */
  const KARATSUBA_MUL_CUTOFF: KaratsubaCutoff
  const TOOM_MUL_CUTOFF: ToomCutoff

  // ----- sizes

  /** Adding up to seven times as much costs at most one digit. */
  lemma OneMoreDigit(v: nat, n: nat)
    requires v < 7 * P(n)
    ensures Used(v) <= n + 1
  {
    PStep(n);
    MulMono(7, B, P(n));
    UsedAtMost(v, n + 1);
  }

  lemma UsedOfPart(v: nat, n: nat)
    requires v < P(n)
    ensures Used(v) <= n
  {
    UsedAtMost(v, n);
  }

  // ----- Karatsuba

  /** The middle coefficient of a product of two binomials, from three products. It is never negative. */
  lemma KaratsubaIdentity(x1: nat, x0: nat, y1: nat, y0: nat, p: nat)
    ensures (x1 + x0) * (y1 + y0) - (x1 * y1 + x0 * y0) == x1 * y0 + x0 * y1 >= 0
    ensures (x1 * p + x0) * (y1 * p + y0) == x0 * y0 + (x1 * y0 + x0 * y1) * p + (x1 * y1) * (p * p)
  {
    assert (x1 * p) * (y1 * p) == (x1 * y1) * (p * p) by {
      MulAssoc(x1, p, y1 * p);
      MulSwap(y1, p, p);
      MulCommutes(p, y1 * p);
      MulAssoc(y1, p, p);
      MulAssoc(x1, y1, p * p);
    }
    MulSwap(x1, p, y0);
    MulAssoc(x0, y1, p);
    Distribute(x1 * y0, x0 * y1, p);
  }

  /** The copy loops: the digits lo to hi of a. */
  method CopyDigits(a: MpInt, lo: nat, hi: nat) returns (x: MpInt)
    requires a.Valid() && lo <= hi <= a.used
    ensures fresh(x) && x.Valid() && !x.neg
    ensures x.Mag() == Sum(a.dp[lo..hi], 0, hi - lo)
  {
    var digits: seq<nat>, i := [], lo;
    while i < hi
      invariant lo <= i <= hi && digits == a.dp[lo..i]
    {
      digits, i := digits + [a.dp[i]], i + 1;
    }
    x := new MpInt();
    x.Load(digits, hi - lo);
  }

  /** Cutting a number at digit k. */
  lemma Halves(a: MpInt, k: nat)
    requires a.Valid() && k <= a.used
    ensures a.Loose()
    ensures Sum(a.dp[0..k], 0, k) >= 0 && Sum(a.dp[k..a.used], 0, a.used - k) >= 0
    ensures a.Mag() == Sum(a.dp[k..a.used], 0, a.used - k) * P(k) + Sum(a.dp[0..k], 0, k)
    ensures Sum(a.dp[0..k], 0, k) < P(k) && Sum(a.dp[k..a.used], 0, a.used - k) < P(a.used - k)
  {
    var lo, hi := a.dp[0..k], a.dp[k..a.used];
    PZero();
    SumFrame(a.dp, lo, 0, k);
    SumSplit(a.dp, 0, k, a.used);
    SumShift(a.dp, hi, k, a.used - k);
    MulCommutes(P(k), Sum(hi, 0, a.used - k));
    SumBound(lo, 0, k);
    SumBound(hi, 0, a.used - k);
  }

  /** c = |a| * |b| from three products of half the length. */
  method KaratsubaMul(a: MpInt, b: MpInt, c: MpInt)
    requires a.Valid() && b.Valid() && c.Valid() && Min(a.used, b.used) >= KARATSUBA_MUL_CUTOFF
    modifies c
    ensures c.Valid() && c.Mag() == old(a.Mag()) * old(b.Mag())
    decreases a.used + b.used, 0
  {
    hide *;
    var k := Min(a.used, b.used) / 2;
    KaratsubaSizes(a.used, b.used, k);
    var x0, y0, x1, y1, t1, x0y0, x1y1;
    x1, x0 := CutAt(a, k);
    y1, y0 := CutAt(b, k);
    ghost var u0, v0 := x0, y0;
    HalvesFit(x1, x0, a.used, k);
    HalvesFit(y1, y0, b.used, k);
    x0y0 := MulValues(x0, y0);
    x1y1 := MulValues(x1, y1);
    t1 := x1 + x0;
    x0 := y1 + y0;
    t1 := MulValues(t1, x0);
    x0 := x0y0 + x1y1;
    t1 := t1 - x0;
    KaratsubaIdentity(x1, u0, y1, v0, P(k));
    Doubled(k);
    t1 := t1 * P(k);
    x1y1 := x1y1 * P(2 * k);
    t1 := x0y0 + t1;
    MulPos(x1 * P(k) + u0, y1 * P(k) + v0);
    c.StoreMag(t1 + x1y1);
  }

  lemma KaratsubaSizes(n: nat, m: nat, k: nat)
    requires Min(n, m) >= KARATSUBA_MUL_CUTOFF && k == Min(n, m) / 2
    ensures 2 <= k && 2 * k <= n && 2 * k <= m
  {
  }

  lemma Doubled(k: nat)
    ensures P(2 * k) == P(k) * P(k)
  {
    PAdd(k, k);
  }

  /** Each half and the sum of the halves has at most n - k + 1 digits. */
  lemma HalvesFit(hi: nat, lo: nat, n: nat, k: nat)
    requires 2 * k <= n && lo < P(k) && hi < P(n - k)
    ensures Used(Abs(lo)) <= k && Used(Abs(hi)) <= n - k && Used(Abs(hi + lo)) <= n - k + 1
  {
    UsedOfPart(lo, k);
    UsedOfPart(hi, n - k);
    PMono(k, n - k);
    OneMoreDigit(hi + lo, n - k);
  }

  /** The digits of a from k up and those below. */
  method CutAt(a: MpInt, k: nat) returns (hi: nat, lo: nat)
    requires a.Valid() && k <= a.used
    ensures a.Loose()
    ensures a.Mag() == hi * P(k) + lo && lo < P(k) && hi < P(a.used - k)
  {
    hide *;
    Halves(a, k);
    var x0 := CopyDigits(a, 0, k);
    lo := x0.Mag();
    var x1 := CopyDigits(a, k, a.used);
    hi := x1.Mag();
  }

  // ----- the mutual recursion

  /** mp_mul between temporaries. */
  method MulValues(v: int, w: int) returns (r: int)
    ensures r == v * w
    decreases Used(Abs(v)) + Used(Abs(w)), 2
  {
    var a := new MpInt.Of(v);
    var b := new MpInt.Of(w);
    var c := new MpInt();
    a.UsedIsLength();
    b.UsedIsLength();
    Mul(a, b, c);
    r := c.Value();
  }

  method Mul(a: MpInt, b: MpInt, c: MpInt)
    requires a.Valid() && b.Valid() && c.Valid()
    modifies c
    ensures c.Valid() && c.Value() == old(a.Value()) * old(b.Value())
    decreases a.used + b.used, 1
  {
    var neg := a.neg != b.neg;
    ghost var va, vb := a.Value(), b.Value();
    SignedProduct(a, b);
    if Min(a.used, b.used) >= TOOM_MUL_CUTOFF {
      ToomMul(a, b, c);
    } else if Min(a.used, b.used) >= KARATSUBA_MUL_CUTOFF {
      KaratsubaMul(a, b, c);
    } else {
      BaseMul(a, b, c);
    }
    MagnitudeOf(c);
    c.neg := c.used > 0 && neg;
    SetSign(c, va, vb, neg);
  }

  /** The fast multiplier when the columns fit, the schoolbook one otherwise. */
  method BaseMul(a: MpInt, b: MpInt, c: MpInt)
    requires a.Valid() && b.Valid() && c.Valid()
    modifies c
    ensures c.Valid() && c.Mag() == old(a.Mag()) * old(b.Mag())
  {
    hide Multiply.ProductMod;
    var digs := a.used + b.used + 1;
    WholeProduct(a, b);
    if digs < Multiply.WARRAY && Min(a.used, b.used) <= GUARD {
      Multiply.FastMulDigs(a, b, c, digs);
    } else {
      Multiply.MulDigs(a, b, c, digs);
    }
  }

  lemma WholeProduct(a: MpInt, b: MpInt)
    requires a.Valid() && b.Valid()
    ensures Multiply.ProductMod(a.Mag(), b.Mag(), a.used + b.used + 1) == a.Mag() * b.Mag()
  {
    var v, w, n, m := a.Mag(), b.Mag(), a.used, b.used;
    a.UsedIsLength();
    b.UsedIsLength();
    Multiply.ProductModIs(v, w, n + m + 1);
    Multiply.ProductBelow(v, n, w, m, n + m + 1);
  }

  lemma SignedProduct(a: MpInt, b: MpInt)
    requires a.Valid() && b.Valid()
    ensures a.Value() * b.Value() == if a.neg != b.neg then -(a.Mag() * b.Mag()) else a.Mag() * b.Mag()
    ensures Abs(a.Value() * b.Value()) == a.Mag() * b.Mag()
  {
    Signs(a.Mag(), b.Mag());
    MulPos(a.Mag(), b.Mag());
  }

  lemma MagnitudeOf(c: MpInt)
    requires c.Valid()
    ensures Abs(c.Value()) == c.Mag()
  {
  }

  lemma SetSign(c: MpInt, va: int, vb: int, neg: bool)
    requires c.Loose() && (c.used > 0 ==> c.dp[c.used - 1] != 0) && c.neg == (c.used > 0 && neg)
    requires va * vb == if neg then 0 - c.Mag() else c.Mag()
    ensures c.Valid() && c.Value() == va * vb
  {
    if c.used == 0 {
      PZero();
    }
  }

  // ----- Toom-Cook

  /** The coefficients of the product of two quadratics. */
  datatype Quad = Quad(c0: int, c1: int, c2: int, c3: int, c4: int)

  ghost function Coefficients(a2: int, a1: int, a0: int, b2: int, b1: int, b0: int): Quad {
    Quad(a0 * b0, a0 * b1 + a1 * b0, a0 * b2 + a1 * b1 + a2 * b0, a1 * b2 + a2 * b1, a2 * b2)
  }

  ghost function At(q: Quad, p: int): int {
    q.c0 + q.c1 * p + q.c2 * (p * p) + q.c3 * ((p * p) * p) + q.c4 * ((p * p) * (p * p))
  }

  lemma Expand(a: int, b: int, c: int, x: int, y: int, z: int)
    ensures (a + b + c) * (x + y + z) == (a * x + a * y + a * z) + (b * x + b * y + b * z) + (c * x + c * y + c * z)
  {
    assert (a + b + c) * (x + y + z) == a * (x + y + z) + b * (x + y + z) + c * (x + y + z);
  }

  /** The value at 1/2, times 16; with the operands reversed, the value at 2. */
  lemma EvaluateAtTwo(a2: int, a1: int, a0: int, b2: int, b1: int, b0: int)
    ensures var q := Coefficients(a2, a1, a0, b2, b1, b0);
      (a2 + 2 * (a1 + 2 * a0)) * (b2 + 2 * (b1 + 2 * b0)) == 16 * q.c0 + 8 * q.c1 + 4 * q.c2 + 2 * q.c3 + q.c4
  {
    Expand(a2, 2 * a1, 4 * a0, b2, 2 * b1, 4 * b0);
    Pull(1, a2, 2, b1);
    Pull(1, a2, 4, b0);
    Pull(2, a1, 1, b2);
    Pull(2, a1, 2, b1);
    Pull(2, a1, 4, b0);
    Pull(4, a0, 1, b2);
    Pull(4, a0, 2, b1);
    Pull(4, a0, 4, b0);
  }

  lemma Pull(k: int, a: int, l: int, b: int)
    ensures (k * a) * (l * b) == (k * l) * (a * b)
  {
    MulCommutes(k, a);
    MulCommutes(l, b);
    TwoFactors(a, k, b, l);
    MulCommutes(a * b, k * l);
  }

  lemma EvaluateAtOne(a2: int, a1: int, a0: int, b2: int, b1: int, b0: int)
    ensures var q := Coefficients(a2, a1, a0, b2, b1, b0);
      (a2 + a1 + a0) * (b2 + b1 + b0) == q.c0 + q.c1 + q.c2 + q.c3 + q.c4
  {
    Expand(a2, a1, a0, b2, b1, b0);
  }

  /** Shifting by p, 2p, 3p and 4p digits puts the coefficients together to the product. */
  lemma Recomposed(a2: int, a1: int, a0: int, b2: int, b1: int, b0: int, p: int)
    ensures (a2 * (p * p) + a1 * p + a0) * (b2 * (p * p) + b1 * p + b0) == At(Coefficients(a2, a1, a0, b2, b1, b0), p)
  {
    var s := p * p;
    Expand(a2 * s, a1 * p, a0, b2 * s, b1 * p, b0);
    TwoFactors(a2, s, b2, s);
    TwoFactors(a2, s, b1, p);
    TwoFactors(a1, p, b2, s);
    TwoFactors(a1, p, b1, p);
    MulCommutes(p, s);
    MulSwap(a2, s, b0);
    MulSwap(a1, p, b0);
    MulAssoc(a0, b2, s);
    MulAssoc(a0, b1, p);
    hide *;
    Collect(a2, a1, a0, b2, b1, b0, p, s);
  }

  lemma TwoFactors(a: int, p: int, b: int, q: int)
    ensures (a * p) * (b * q) == (a * b) * (p * q)
  {
    MulAssoc(a, p, b * q);
    MulSwap(b, q, p);
    MulCommutes(p, b * q);
    MulAssoc(b, p, q);
    MulAssoc(a, b, p * q);
  }

  lemma Collect(a2: int, a1: int, a0: int, b2: int, b1: int, b0: int, p: int, s: int)
    requires s == p * p
    ensures At(Coefficients(a2, a1, a0, b2, b1, b0), p)
         == (a2 * b2) * (s * s) + (a2 * b1) * (s * p) + (a2 * b0) * s + (a1 * b2) * (s * p) + (a1 * b1) * s
          + (a1 * b0) * p + (a0 * b2) * s + (a0 * b1) * p + a0 * b0
  {
    Distribute(a0 * b1, a1 * b0, p);
    Distribute(a0 * b2, a1 * b1, s);
    Distribute(a0 * b2 + a1 * b1, a2 * b0, s);
    Distribute(a1 * b2, a2 * b1, s * p);
  }

  /** A number cut at p and p * p; every part has its sign. */
  ghost predicate Cut3(v: int, a2: int, a1: int, a0: int, p: int) {
    v == a2 * (p * p) + a1 * p + a0
  }

  /** mp_mod_2d and mp_rshd, on DIGIT_BIT * k bits and k digits. */
  method CutInThree(v: int, ghost n: nat, k: nat) returns (a2: int, a1: int, a0: int)
    requires Used(Abs(v)) <= n && 3 * k <= n
    ensures Cut3(v, a2, a1, a0, P(k))
    ensures Abs(a2) < P(n - 2 * k) && Abs(a1) < P(k) && Abs(a0) < P(k)
  {
    hide *;
    CutParts(v, n, k);
    a0 := Remainder(v, P(k));
    a1 := Quotient(v, P(k));
    a1 := Remainder(a1, P(k));
    a2 := Quotient(v, P(2 * k));
  }

  lemma CutParts(v: int, n: nat, k: nat)
    requires Used(Abs(v)) <= n && 3 * k <= n
    ensures Cut3(v, Quotient(v, P(2 * k)), Remainder(Quotient(v, P(k)), P(k)), Remainder(v, P(k)), P(k))
    ensures Abs(Quotient(v, P(2 * k))) < P(n - 2 * k)
    ensures Abs(Remainder(Quotient(v, P(k)), P(k))) < P(k) && Abs(Remainder(v, P(k))) < P(k)
  {
    var p, m := P(k), Abs(v);
    hide P, Used;
    UsedAtMost(m, n);
    Doubled(k);
    PAdd(2 * k, n - 2 * k);
    DivDiv(m, p, p);
    DivNonNeg(m, p);
    DivNonNeg(m, p * p);
    DivModIdentity(m, p);
    DivModIdentity(m / p, p);
    DivModIdentity(m, p * p);
    MulAssoc(m / p / p, p, p);
    QuotientBelow(m, p * p, P(n - 2 * k));
    Distribute(m / p / p * p, (m / p) % p, p);
    CutMagnitude(v, m, p);
  }

  lemma QuotientBelow(m: nat, d: nat, t: nat)
    requires d > 0 && m < d * t
    ensures m / d < t
  {
    DivModIdentity(m, d);
    if m / d >= t {
      MulMono(t, m / d, d);
    }
  }

  /** Truncated division acts on magnitudes. */
  lemma CutMagnitude(v: int, m: nat, p: nat)
    requires p > 0 && m == Abs(v) && p * p > 0 && m / p >= 0 && m / (p * p) >= 0
    requires m == (m / (p * p)) * (p * p) + ((m / p) % p) * p + m % p
    requires 0 <= (m / p) % p < p && 0 <= m % p < p
    ensures Cut3(v, Quotient(v, p * p), Remainder(Quotient(v, p), p), Remainder(v, p), p)
    ensures Abs(Quotient(v, p * p)) == m / (p * p) && Abs(Remainder(Quotient(v, p), p)) < p && Abs(Remainder(v, p)) < p
  {
    var q2, r1 := m / (p * p), (m / p) % p;
    Signs(q2, p * p);
    Signs(r1, p);
  }

  /** Halving and dividing by three leave nothing over. */
  lemma Exact(x: int, d: int)
    requires d > 0
    ensures Quotient(d * x, d) == x
  {
    MulCommutes(d, x);
    DivisionUnique(d * x, d, x, 0);
  }

  /** Solving for the coefficients with subtractions, two halvings and two divisions by three. */
  method Interpolate(w0: int, u1: int, u2: int, u3: int, w4: int, ghost q: Quad) returns (w1: int, w2: int, w3: int)
    requires w0 == q.c0 && w4 == q.c4
    requires u1 == 16 * q.c0 + 8 * q.c1 + 4 * q.c2 + 2 * q.c3 + q.c4
    requires u2 == q.c0 + q.c1 + q.c2 + q.c3 + q.c4
    requires u3 == q.c0 + 2 * q.c1 + 4 * q.c2 + 8 * q.c3 + 16 * q.c4
    ensures w1 == q.c1 && w2 == q.c2 && w3 == q.c3
  {
    hide *;
    w1, w2, w3 := u1, u2, u3;
    w1 := w1 - w4;
    w3 := w3 - w0;
    Exact(8 * q.c0 + 4 * q.c1 + 2 * q.c2 + q.c3, 2);
    w1 := Quotient(w1, 2);
    Exact(q.c1 + 2 * q.c2 + 4 * q.c3 + 8 * q.c4, 2);
    w3 := Quotient(w3, 2);
    w2 := w2 - w0;
    w2 := w2 - w4;
    w1 := w1 - w2;
    w3 := w3 - w2;
    var tmp1 := w0 * 8;
    w1 := w1 - tmp1;
    tmp1 := w4 * 8;
    w3 := w3 - tmp1;
    w2 := w2 * 3;
    w2 := w2 - w1;
    w2 := w2 - w3;
    w1 := w1 - w2;
    w3 := w3 - w2;
    Exact(q.c1, 3);
    w1 := Quotient(w1, 3);
    Exact(q.c3, 3);
    w3 := Quotient(w3, 3);
  }

  /** c = a * b from five products of a third of the length. */
  method ToomMul(a: MpInt, b: MpInt, c: MpInt)
    requires a.Valid() && b.Valid() && c.Valid() && Min(a.used, b.used) >= TOOM_MUL_CUTOFF
    modifies c
    ensures c.Valid() && c.Value() == old(a.Value()) * old(b.Value())
    decreases a.used + b.used, 0
  {
    hide *;
    var k := Min(a.used, b.used) / 3;
    ToomSizes(a, b, k);
    ghost var va, vb, n, m, p := a.Value(), b.Value(), a.used, b.used, P(k);
    var a2, a1, a0 := CutInThree(a.Value(), a.used, k);
    var b2, b1, b0 := CutInThree(b.Value(), b.used, k);
    PartsFit(a2, a1, a0, n, k);
    PartsFit(b2, b1, b0, m, k);
    ghost var q := Coefficients(a2, a1, a0, b2, b1, b0);
    var w0 := MulValues(a0, b0);
    var w4 := MulValues(a2, b2);
    var tmp1 := a0 * 2;
    tmp1 := tmp1 + a1;
    tmp1 := tmp1 * 2;
    tmp1 := tmp1 + a2;
    var tmp2 := b0 * 2;
    tmp2 := tmp2 + b1;
    tmp2 := tmp2 * 2;
    tmp2 := tmp2 + b2;
    var w1 := MulValues(tmp1, tmp2);
    tmp1 := a2 * 2;
    tmp1 := tmp1 + a1;
    tmp1 := tmp1 * 2;
    tmp1 := tmp1 + a0;
    tmp2 := b2 * 2;
    tmp2 := tmp2 + b1;
    tmp2 := tmp2 * 2;
    tmp2 := tmp2 + b0;
    var w3 := MulValues(tmp1, tmp2);
    tmp1 := a2 + a1;
    tmp1 := tmp1 + a0;
    tmp2 := b2 + b1;
    tmp2 := tmp2 + b0;
    var w2 := MulValues(tmp1, tmp2);
    Evaluations(a2, a1, a0, b2, b1, b0, q);
    w1, w2, w3 := Interpolate(w0, w1, w2, w3, w4, q);
    AtShifts(q, k);
    Recomposed(a2, a1, a0, b2, b1, b0, p);
    Recut(va, a2, a1, a0, p, vb, b2, b1, b0);
    w1 := w1 * P(k);
    w2 := w2 * P(2 * k);
    w3 := w3 * P(3 * k);
    w4 := w4 * P(4 * k);
    var r := w0 + w1;
    tmp1 := w2 + w3;
    tmp1 := w4 + tmp1;
    r := tmp1 + r;
    StoreValue(c, r);
  }

  method StoreValue(c: MpInt, r: int)
    modifies c
    ensures c.Valid() && c.Value() == r
  {
    c.StoreMag(Abs(r));
    c.neg := r < 0;
    if r != 0 && c.used == 0 {
      PZero();
    }
  }

  lemma ToomSizes(a: MpInt, b: MpInt, k: nat)
    requires a.Valid() && b.Valid() && Min(a.used, b.used) >= TOOM_MUL_CUTOFF && k == Min(a.used, b.used) / 3
    ensures a.Loose() && b.Loose() && 1 <= k && 3 * k <= a.used && 3 * k <= b.used
    ensures Used(Abs(a.Value())) == a.used && Used(Abs(b.Value())) == b.used
  {
    hide Used;
    a.UsedIsLength();
    b.UsedIsLength();
  }

  lemma Recut(v: int, a2: int, a1: int, a0: int, p: int, w: int, b2: int, b1: int, b0: int)
    requires Cut3(v, a2, a1, a0, p) && Cut3(w, b2, b1, b0, p)
    ensures v * w == (a2 * (p * p) + a1 * p + a0) * (b2 * (p * p) + b1 * p + b0)
  {
  }

  lemma AtShifts(q: Quad, k: nat)
    ensures At(q, P(k)) == q.c0 + q.c1 * P(k) + (q.c4 * P(4 * k) + (q.c2 * P(2 * k) + q.c3 * P(3 * k)))
  {
    PAdd(k, k);
    PAdd(2 * k, k);
    PAdd(2 * k, 2 * k);
    hide P;
  }

  lemma Evaluations(a2: int, a1: int, a0: int, b2: int, b1: int, b0: int, q: Quad)
    requires q == Coefficients(a2, a1, a0, b2, b1, b0)
    ensures a0 * b0 == q.c0 && a2 * b2 == q.c4
    ensures (a2 + (a1 + a0 * 2) * 2) * (b2 + (b1 + b0 * 2) * 2) == 16 * q.c0 + 8 * q.c1 + 4 * q.c2 + 2 * q.c3 + q.c4
    ensures (a0 + (a1 + a2 * 2) * 2) * (b0 + (b1 + b2 * 2) * 2) == q.c0 + 2 * q.c1 + 4 * q.c2 + 8 * q.c3 + 16 * q.c4
    ensures (a2 + a1 + a0) * (b2 + b1 + b0) == q.c0 + q.c1 + q.c2 + q.c3 + q.c4
  {
    EvaluateAtTwo(a2, a1, a0, b2, b1, b0);
    EvaluateAtTwo(a0, a1, a2, b0, b1, b2);
    EvaluateAtOne(a2, a1, a0, b2, b1, b0);
  }

  /** The parts and their combinations have at most n - 2k + 1 digits. */
  lemma PartsFit(a2: int, a1: int, a0: int, n: nat, k: nat)
    requires 1 <= k && 3 * k <= n && Abs(a2) < P(n - 2 * k) && Abs(a1) < P(k) && Abs(a0) < P(k)
    ensures Used(Abs(a2)) <= n - 2 * k + 1 && Used(Abs(a0)) <= n - 2 * k + 1
    ensures Used(Abs(a2 + (a1 + a0 * 2) * 2)) <= n - 2 * k + 1
    ensures Used(Abs(a0 + (a1 + a2 * 2) * 2)) <= n - 2 * k + 1
    ensures Used(Abs(a2 + a1 + a0)) <= n - 2 * k + 1
  {
    hide P, Used;
    PMono(k, n - 2 * k);
    OneMoreDigit(Abs(a2), n - 2 * k);
    OneMoreDigit(Abs(a0), n - 2 * k);
    OneMoreDigit(Abs(a2 + (a1 + a0 * 2) * 2), n - 2 * k);
    OneMoreDigit(Abs(a0 + (a1 + a2 * 2) * 2), n - 2 * k);
    OneMoreDigit(Abs(a2 + a1 + a0), n - 2 * k);
  }
}
