/**
 Integer roots by Newton's iteration with truncated division. The numbers held in
 temporaries are modelled by their values; mp_div is Division.Quotient.
 */
module Roots {
  import opened Arith
  import opened Radix
  import opened MpInts
  import opened Division

  /** r is the integer part of the b-th root of m. */
  ghost predicate IsRoot(r: int, m: int, b: nat) {
    0 <= r && Pow(r, b) <= m < Pow(r + 1, b)
  }

  lemma {:induction false} RootExists(m: nat, b: nat) returns (r: nat)
    requires b >= 1
    ensures IsRoot(r, m, b)
  {
    if m == 0 {
      r := 0;
      PowOfOne(b);
      assert Pow(0, b) == 0 * Pow(0, b - 1);
    } else {
      r := RootExists(m - 1, b);
      if Pow(r + 1, b) <= m {
        PowStrictBase(r + 1, r + 2, b);
        r := r + 1;
      }
    }
  }

  lemma RootUnique(r: int, s: int, m: int, b: nat)
    requires b >= 1 && IsRoot(r, m, b) && IsRoot(s, m, b)
    ensures r == s
  {
    if r < s {
      PowMonoBase(r + 1, s, b);
    } else if s < r {
      PowMonoBase(s + 1, r, b);
    }
  }

  /** mp_expt_d: square and multiply from the low bit. */
  method ExptD(a: int, b: nat) returns (c: int)
    ensures c == Pow(a, b)
  {
    var g, e := a, b;
    c := 1;
    while e > 0
      invariant c * Pow(g, e) == Pow(a, b)
    {
      SquareMultiply(c, g, e);
      if e % 2 == 1 {
        c := c * g;
      }
      if e > 1 {
        g := g * g;
      }
      e := e / 2;
    }
  }

  lemma SquareMultiply(c: int, g: int, e: nat)
    requires e > 0
    ensures (if e % 2 == 1 then c * g else c) * Pow(if e > 1 then g * g else g, e / 2) == c * Pow(g, e)
  {
    var h := e / 2;
    if e == 1 {
      assert Pow(g, 1) == g;
    } else {
      assert Pow(g, 2) == g * g by { assert Pow(g, 1) == g; }
      PowMul(g, 2, h);
      if e % 2 == 1 {
        assert Pow(g, e) == g * Pow(g, 2 * h);
        MulAssoc(c, g, Pow(g, 2 * h));
      }
    }
  }

  // ----- the tangent lies below the power

  /** Powers are convex: s^b is at least the tangent at t. */
  lemma {:induction false} Tangent(s: nat, t: nat, b: nat)
    requires b >= 1
    ensures Pow(s, b) >= Pow(t, b) + b * Pow(t, b - 1) * (s - t)
  {
    if b == 1 {
      assert Pow(s, 1) == s * Pow(s, 0) && Pow(t, 1) == t * Pow(t, 0);
      assert 1 * Pow(t, 0) * (s - t) == s - t;
    } else {
      Tangent(s, t, b - 1);
      PowNonNeg(t, b - 2);
      var p, c := Pow(t, b - 2), b - 1;
      assert Pow(t, b - 1) == t * p && Pow(t, b) == t * (t * p) && Pow(s, b) == s * Pow(s, b - 1);
      hide *;
      TangentStep(s, t, p, c, Pow(s, b - 1));
    }
  }

  lemma TangentStep(s: nat, t: nat, p: nat, c: nat, q: int)
    requires q >= t * p + c * p * (s - t)
    ensures s * q >= t * (t * p) + (c + 1) * (t * p) * (s - t)
  {
    var d := s - t;
    MulMono(t * p + c * p * d, q, s);
    MulPos(c, p);
    assert d * d >= 0;
    MulPos(c * p, d * d);
    TangentAlgebra(t, p, c, d);
  }

  lemma TangentAlgebra(t: int, p: int, c: int, d: int)
    ensures (t + d) * (t * p + c * p * d) == t * (t * p) + (c + 1) * (t * p) * d + c * p * (d * d)
  {
    var u, v := t * p, c * p;
    assert (t + d) * (u + v * d) == t * u + t * (v * d) + d * u + d * (v * d);
    assert t * (v * d) == c * u * d by {
      MulAssoc(t, v, d);
      MulAssoc(c, p, t);
      MulCommutes(p, t);
      MulCommutes(t, v);
      MulAssoc(c, t, p);
    }
    assert (c + 1) * u * d == c * u * d + u * d;
    assert d * (v * d) == v * (d * d) by { MulAssoc(v, d, d); MulCommutes(d, v * d); }
  }

  // ----- one Newton step

  /** The divisor of the step, b * x^(b-1). */
  ghost function Slope(x: nat, b: nat): int
    requires b >= 1
  {
    b * Pow(x, b - 1)
  }

  lemma SlopePositive(x: nat, b: nat)
    requires b >= 1 && (b == 1 || x >= 1)
    ensures Slope(x, b) > 0
  {
    if b >= 2 {
      PowPos(x, b - 1);
      MulPos(b, Pow(x, b - 1));
    } else {
      assert Pow(x, 0) == 1;
    }
  }

  /** The next iterate. */
  ghost function Newton(x: nat, m: nat, b: nat): int
    requires b >= 1 && Slope(x, b) != 0
  {
    x - Quotient(Pow(x, b) - m, Slope(x, b))
  }

  /** From above the root: never past it, strictly above it unless m is an exact power. */
  lemma NewtonAbove(x: nat, r: nat, m: nat, b: nat)
    requires b >= 1 && (b == 1 || x >= 1) && IsRoot(r, m, b) && m <= Pow(x, b)
    ensures Slope(x, b) > 0 && r <= Newton(x, m, b) <= x
    ensures Pow(r, b) < m ==> r < Newton(x, m, b)
  {
    SlopePositive(x, b);
    var D, diff := Slope(x, b), Pow(x, b) - m;
    if x < r {
      PowStrictBase(x, r, b);
      assert false;
    }
    Tangent(r, x, b);
    assert b * Pow(x, b - 1) * (r - x) == -((x - r) * D) by { Signs(x - r, D); MulCommutes(D, r - x); }
    DivNonNeg(diff, D);
    DivAtMost(diff, D, x - r);
  }

  lemma DivAtMost(a: nat, n: int, q: int)
    requires n > 0
    ensures a <= q * n ==> a / n <= q
    ensures a < q * n ==> a / n < q
  {
    DivBound(a, n, q + 1);
    DivBound(a, n, q);
    CountUp(q, n);
  }

  /** From below: at least up to the root. */
  lemma NewtonBelow(x: nat, r: nat, m: nat, b: nat)
    requires b >= 1 && (b == 1 || x >= 1) && IsRoot(r, m, b) && Pow(x, b) < m
    ensures Slope(x, b) > 0 && r <= Newton(x, m, b) && x <= Newton(x, m, b)
  {
    SlopePositive(x, b);
    var D, gap := Slope(x, b), m - Pow(x, b);
    Tangent(r, x, b);
    assert b * Pow(x, b - 1) * (r - x) == (r - x) * D by { MulCommutes(D, r - x); }
    DivNonNeg(gap, D);
    DivBound(gap, D, r - x);
    hide Pow, Slope;
    assert Newton(x, m, b) == x + gap / D;
  }

  /** The iterate stays positive, so the next slope is not zero. */
  lemma NewtonPositive(x: nat, r: nat, m: nat, b: nat)
    requires b >= 2 && x >= 1 && IsRoot(r, m, b)
    ensures Slope(x, b) > 0 && Newton(x, m, b) >= 1
  {
    SlopePositive(x, b);
    if Pow(x, b) < m {
      NewtonBelow(x, r, m, b);
    } else {
      NewtonAbove(x, r, m, b);
      var p, diff := Pow(x, b - 1), Pow(x, b) - m;
      PowPos(x, b - 1);
      assert Pow(x, b) == x * p;
      var q := diff / (b * p);
      DivModIdentity(diff, b * p);
      hide Pow;
      MulMono(2, b, p);
      MulMono(2 * p, b * p, x);
      MulPos(x, p);
      assert x * (2 * p) == 2 * (x * p);
      if q >= x {
        MulMono(x, q, b * p);
        assert false;
      }
    }
  }

  /** 0: at or above the root; 1: stuck at its integer part; 2: still below that. */
  ghost function Phase(x: int, r: int, m: int, b: nat): nat {
    if m <= Pow(x, b) then 0 else if x == r then 1 else 2
  }

  /** Every step that moves makes progress, and a step that does not move is not below the root. */
  lemma NewtonProgress(x: nat, r: nat, m: nat, b: nat)
    requires b >= 1 && (b == 1 || x >= 1) && IsRoot(r, m, b)
    ensures Slope(x, b) > 0 && r <= Newton(x, m, b)
    ensures Newton(x, m, b) != x ==>
              || Phase(Newton(x, m, b), r, m, b) < Phase(x, r, m, b)
              || (Phase(Newton(x, m, b), r, m, b) == Phase(x, r, m, b) && Newton(x, m, b) < x)
  {
    if Pow(x, b) < m {
      NewtonBelow(x, r, m, b);
      if Newton(x, m, b) > r {
        PowMonoBase(r + 1, Newton(x, m, b), b);
      }
    } else {
      NewtonAbove(x, r, m, b);
      if Newton(x, m, b) > r {
        PowMonoBase(r + 1, Newton(x, m, b), b);
      }
    }
  }

  // ----- the two routines

  /** What mp_n_root promises in its comment: c^b <= a < (c+1)^b. */
  ghost predicate RootPromise(c: int, a: int, b: nat) {
    Pow(c, b) <= a < Pow(c + 1, b)
  }

  /** mp_n_root: Newton from 2, then down to the root; a's sign is put aside meanwhile. */
  method NRoot(a: MpInt, b: nat, c: MpInt) returns (err: Err)
    requires a.Valid() && c.Valid()
    modifies a, c
    ensures err == Val <==> b == 0 || (b % 2 == 0 && old(a.Value()) < 0)
    ensures err == Val ==> unchanged(a) && unchanged(c)
    ensures err == Okay ==> c.Valid() && IsRoot(Abs(c.Value()), Abs(old(a.Value())), b)
    ensures err == Okay && c.Value() != 0 ==> (c.Value() < 0) == (old(a.Value()) < 0)
    ensures a != c ==> unchanged(a)
  {
    SignsAgree(a);
    if b % 2 == 0 && a.neg {
      return Val;
    }
    var neg := a.neg;
    a.neg := false;
    if b == 0 {
      // whatever t1^(b-1) is, mp_div refuses to divide by b times it
      return Val;
    }
    ghost var r := RootExists(a.Mag(), b);
    var t1 := NewtonLoop(a.Mag(), b, r);
    t1 := CountDown(t1, a.Mag(), b, r);
    a.neg := neg;
    c.neg := neg;
    c.StoreMag(t1);
    SignsAgree(c);
    err := Okay;
  }

  /** The do-while loop of mp_n_root. */
  method NewtonLoop(m: nat, b: nat, ghost r: nat) returns (t1: nat)
    requires b >= 1 && IsRoot(r, m, b)
    ensures t1 >= r
  {
    var t2: nat := 2;
    var more := true;
    t1 := 0;
    while more
      invariant b == 1 || t2 >= 1
      invariant !more ==> t1 >= r
      decreases more, Phase(t2, r, m, b), t2
    {
      t1 := t2;
      var t3 := ExptD(t1, b - 1);
      NewtonProgress(t1, r, m, b);
      if b >= 2 {
        NewtonPositive(t1, r, m, b);
      }
      assert Pow(t1, b) == t1 * Pow(t1, b - 1);
      MulCommutes(t3, t1);
      MulCommutes(t3, b);
      var num := t3 * t1 - m;
      t3 := t3 * b;
      t3 := Quotient(num, t3);
      t2 := t1 - t3;
      more := t1 != t2;
    }
  }

  /** The closing loop of mp_n_root. */
  method CountDown(t0: nat, m: nat, b: nat, ghost r: nat) returns (t1: nat)
    requires b >= 1 && IsRoot(r, m, b) && t0 >= r
    ensures t1 == r
  {
    t1 := t0;
    while true
      invariant t1 >= r
      decreases t1
    {
      var t2 := ExptD(t1, b);
      if t2 > m {
        if t1 == r {
          assert false;
        }
        t1 := t1 - 1;
      } else {
        break;
      }
    }
    if t1 > r {
      PowMonoBase(r + 1, t1, b);
      assert false;
    }
  }

  /** The comment's promise holds of the result exactly when a is not negative or is an exact power. */
  lemma PromiseKept(c: int, a: int, b: nat)
    requires b >= 1 && (b % 2 == 0 ==> a >= 0)
    requires IsRoot(Abs(c), Abs(a), b) && (c != 0 ==> (c < 0) == (a < 0))
    ensures RootPromise(c, a, b) <==> a >= 0 || exists r: nat :: Pow(r, b) == -a
  {
    if a < 0 {
      var s: nat := Abs(c);
      PowOfOne(b);
      OddPower(s, b);
      OddPower(s - 1, b);
      assert c + 1 == -(s - 1);
      PowStrictBase(s - 1, s, b);
      if exists r: nat :: Pow(r, b) == -a {
        var r: nat :| Pow(r, b) == -a;
        PowStrictBase(r, r + 1, b);
        RootUnique(r, s, -a, b);
      }
    }
  }

  /** The result for the cube root of -2 is -1, whose cube is above -2. */
  lemma PromiseBroken(c: int)
    requires IsRoot(Abs(c), Abs(-2), 3) && c <= 0
    ensures c == -1 && !RootPromise(c, -2, 3)
  {
    Cubes();
    RootUnique(1, Abs(c), 2, 3);
  }

  lemma Cubes()
    ensures Pow(1, 3) == 1 && Pow(2, 3) == 8 && Pow(-1, 3) == -1
  {
    assert Pow(2, 1) == 2 && Pow(2, 2) == 4;
    assert Pow(-1, 1) == -1 && Pow(-1, 2) == 1;
    PowOfOne(3);
  }

  lemma {:induction false} OddPower(s: nat, b: nat)
    ensures b % 2 == 1 ==> Pow(0 - s, b) == -Pow(s, b)
    ensures b % 2 == 0 ==> Pow(0 - s, b) == Pow(s, b)
  {
    if b > 0 {
      OddPower(s, b - 1);
      Signs(s, Pow(s, b - 1));
    }
  }

  // ----- square root

  ghost predicate IsSqrt(r: int, n: int) {
    0 <= r && r * r <= n < (r + 1) * (r + 1)
  }

  lemma SqrtIsRoot(r: int, n: int)
    ensures IsSqrt(r, n) <==> IsRoot(r, n, 2)
  {
    assert Pow(r, 1) == r && Pow(r + 1, 1) == r + 1;
    assert Pow(r, 2) == r * r && Pow(r + 1, 2) == (r + 1) * (r + 1);
  }

  /** Of all pairs with sum at most 2s, only s, s has product s * s. */
  lemma Balanced(t: nat, u: nat, s: nat)
    requires t + u <= 2 * s && t * u >= s * s
    ensures t == s && (s > 0 ==> u == s)
  {
    var d := t - s;
    MulMono(u, s - d, t);
    assert (s + d) * (s - d) == s * s - d * d;
    assert d != 0 ==> d * d > 0;
    if d != 0 {
      assert false;
    }
    if s > 0 && u < s {
      MulMono(u + 1, s, s);
      CountUp(u, s);
      assert false;
    }
  }

  /** Averaging never goes below the root. */
  lemma AverageAbove(t: nat, n: nat, r: nat)
    requires t >= 1 && IsSqrt(r, n)
    ensures n / t >= 0 && (t + n / t) / 2 >= r
  {
    var q := n / t;
    DivNonNeg(n, t);
    DivModIdentity(n, t);
    CountUp(q, t);
    MulCommutes(q + 1, t);
    if t + q + 1 <= 2 * r {
      Balanced(t, q + 1, r);
      assert false;
    }
  }

  /** Averaging lands on the root of n = r^2 + 2r only from r + 1, whose quotient is r. */
  lemma OnlyFromAbove(t: nat, n: nat, r: nat)
    requires t >= 1 && n == r * r + 2 * r && n / t >= 0 && (t + n / t) / 2 == r
    ensures t == r + 1 && n / t == r
  {
    var q := n / t;
    DivModIdentity(n, t);
    CountUp(q, t);
    MulCommutes(q + 1, t);
    assert (r + 1) * (r + 1) == r * r + 2 * r + 1;
    Balanced(t, q + 1, r + 1);
  }

  /** The state from which the loop would stop one too high. */
  ghost predicate Trap(t: nat, n: nat, r: nat) {
    t == r && n == r * r + 2 * r
  }

  /** The first guess, the leading half of the digits, is never r + 1 for n = r^2 + 2r. */
  lemma FirstGuessIsSafe(n: nat, r: nat, p: nat)
    requires p > 0 && n == r * r + 2 * r
    ensures n / p != r + 1
  {
    var s := r + 1;
    assert n == (s - 1) * (s + 1) && n == s * s - 1;
    DivModIdentity(n, p);
    if n / p == s {
      CountUp(s, p);
      if p <= s - 1 {
        MulMono(p, s - 1, s + 1);
        assert false;
      } else {
        MulMono(s, p, s);
        assert false;
      }
    }
  }

  /** One round of the loop, away from the trap. */
  lemma SqrtRound(t: nat, n: nat, r: nat)
    requires t >= 1 && IsSqrt(r, n) && r >= 1 && t >= r && !Trap(t, n, r)
    ensures n / t >= 0
    ensures var q := n / t; var t' := (t + q) / 2;
      && t' >= r
      && (t' <= q ==> t' == r)
      && (t' > q ==> t' < t && !Trap(t', n, r))
  {
    var q := n / t;
    AverageAbove(t, n, r);
    assert (r + 1) * (r + 1) == r * r + 2 * r + 1;
    if t > r {
      if q >= r + 1 {
        DivBound(n, t, r + 1);
        MulMono(r + 1, t, r + 1);
        assert false;
      }
      if n == r * r + 2 * r && (t + q) / 2 == r {
        OnlyFromAbove(t, n, r);
      }
    } else {
      DivBound(n, r, r + 2);
      DivBound(n, r, r);
      assert (r + 2) * r == r * r + 2 * r;
    }
  }

  /** mp_sqrt */
  method Sqrt(arg: MpInt, ret: MpInt) returns (err: Err)
    requires arg.Valid() && ret.Valid()
    modifies ret
    ensures err == Val <==> old(arg.Value()) < 0
    ensures err == Val ==> unchanged(ret)
    ensures err == Okay ==> ret.Valid() && IsSqrt(ret.Value(), old(arg.Value()))
  {
    SignsAgree(arg);
    if arg.neg {
      return Val;
    }
    if arg.used == 0 {
      ret.StoreMag(0);
      return Okay;
    }
    var n := arg.Mag();
    ghost var r := RootExists(n, 2);
    SqrtIsRoot(r, n);
    PositiveRoot(arg, n, r);
    var t1 := n / P(arg.used / 2);
    ghost var t0 := t1;
    var t2 := n / t1;
    AverageAbove(t1, n, r);
    FirstStepIsSafe(n, r, P(arg.used / 2));
    t1 := (t1 + t2) / 2;
    var more := true;
    hide IsSqrt, P;
    while more
      invariant t1 >= r && (more ==> !Trap(t1, n, r)) && (!more ==> t1 == r)
      decreases more, t1
    {
      SqrtRound(t1, n, r);
      t2 := n / t1;
      t1 := (t1 + t2) / 2;
      more := t1 > t2;
    }
    ret.neg := false;
    ret.StoreMag(t1);
    err := Okay;
  }

  /** The first average is not the trap. */
  lemma FirstStepIsSafe(n: nat, r: nat, p: nat)
    requires p > 0 && n / p >= 1 && IsSqrt(r, n)
    ensures n / (n / p) >= 0 && !Trap((n / p + n / (n / p)) / 2, n, r)
  {
    var t := n / p;
    AverageAbove(t, n, r);
    if n == r * r + 2 * r && (t + n / t) / 2 == r {
      OnlyFromAbove(t, n, r);
      FirstGuessIsSafe(n, r, p);
    }
  }

  lemma PositiveRoot(arg: MpInt, n: nat, r: nat)
    requires arg.Valid() && arg.used > 0 && n == arg.Mag() && IsSqrt(r, n)
    ensures r >= 1 && n / P(arg.used / 2) >= 1
  {
    arg.UsedIsLength();
    PMono(arg.used / 2, arg.used - 1);
    PZero();
    PMono(0, arg.used - 1);
    DivBound(n, P(arg.used / 2), 1);
  }
}
