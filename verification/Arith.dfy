/**
 Integer powers, Euclidean division and congruences: the mathematics the
 number-theoretic routines of LibTomMath are measured against.
 */
module Arith {

  function Pow(b: int, e: nat): int {
    if e == 0 then 1 else b * Pow(b, e - 1)
  }

  function Min(a: int, b: int): int {
    if a < b then a else b
  }

  function Max(a: int, b: int): int {
    if a > b then a else b
  }

  function Abs(a: int): nat {
    if a < 0 then -a else a
  }

  // ----- monotonicity of multiplication

  lemma MulMono(a: int, b: int, c: int)
    requires a <= b && 0 <= c
    ensures a * c <= b * c && c * a <= c * b
  {
  }

  lemma MulPos(a: int, b: int)
    requires 0 <= a && 0 <= b
    ensures 0 <= a * b
    ensures 0 < a && 0 < b ==> 0 < a * b
  {
  }

  lemma MulCommutes(a: int, b: int)
    ensures a * b == b * a
  {
  }

  lemma Distribute(k: int, l: int, p: int)
    ensures k * p + l * p == (k + l) * p
  {
  }

  lemma CountUp(n: int, p: int)
    ensures n * p + p == (n + 1) * p
  {
  }

  lemma MulSwap(a: int, b: int, c: int)
    ensures (a * b) * c == (a * c) * b
  {
  }

  lemma MulAssoc(a: int, b: int, c: int)
    ensures (a * b) * c == a * (b * c)
  {
  }

  // ----- powers

  lemma {:induction false} PowPos(b: int, e: nat)
    requires b > 0
    ensures Pow(b, e) > 0
  {
    if e > 0 {
      PowPos(b, e - 1);
      MulPos(b, Pow(b, e - 1));
    }
  }

  lemma {:induction false} PowNonNeg(b: int, e: nat)
    requires b >= 0
    ensures Pow(b, e) >= 0
  {
    if e > 0 {
      PowNonNeg(b, e - 1);
      MulPos(b, Pow(b, e - 1));
    }
  }

  lemma {:induction false} PowAdd(b: int, e: nat, f: nat)
    ensures Pow(b, e + f) == Pow(b, e) * Pow(b, f)
  {
    if e > 0 {
      PowAdd(b, e - 1, f);
      MulAssoc(b, Pow(b, e - 1), Pow(b, f));
    }
  }

  lemma {:induction false} PowMul(b: int, e: nat, f: nat)
    ensures e * f >= 0
    ensures Pow(b, e * f) == Pow(Pow(b, e), f)
  {
    MulPos(e, f);
    if f == 0 {
      assert e * f == 0;
    } else {
      PowMul(b, e, f - 1);
      assert e * f == e + e * (f - 1);
      PowAdd(b, e, e * (f - 1));
    }
  }

  lemma PowSquare(b: int, e: nat)
    ensures Pow(b, 2 * e) == Pow(b, e) * Pow(b, e)
  {
    PowAdd(b, e, e);
  }

  lemma {:induction false} PowMonoBase(a: int, b: int, e: nat)
    requires 0 <= a <= b
    ensures 0 <= Pow(a, e) <= Pow(b, e)
  {
    if e > 0 {
      PowMonoBase(a, b, e - 1);
      MulPos(a, Pow(a, e - 1));
      MulMono(a, b, Pow(b, e - 1));
      MulMono(Pow(a, e - 1), Pow(b, e - 1), a);
    }
  }

  lemma {:induction false} PowMonoExp(b: int, e: nat, f: nat)
    requires b >= 1 && e <= f
    ensures 1 <= Pow(b, e) <= Pow(b, f)
    decreases f
  {
    PowPos(b, e);
    if e < f {
      PowMonoExp(b, e, f - 1);
      MulMono(1, b, Pow(b, f - 1));
    }
  }

  lemma {:induction false} PowStrictExp(b: int, e: nat, f: nat)
    requires b >= 2 && e < f
    ensures Pow(b, e) < Pow(b, f)
  {
    PowMonoExp(b, e, f - 1);
    MulMono(2, b, Pow(b, f - 1));
  }

  /** A positive power of a strictly larger base is strictly larger. */
  lemma {:induction false} PowStrictBase(a: int, b: int, e: nat)
    requires 0 <= a < b && e >= 1
    ensures Pow(a, e) < Pow(b, e)
  {
    PowMonoBase(a, b, e - 1);
    PowPos(b, e - 1);
    MulMono(Pow(a, e - 1), Pow(b, e - 1), a);
    assert a * Pow(b, e - 1) < b * Pow(b, e - 1) by {
      MulPos(b - a, Pow(b, e - 1));
    }
  }

  lemma {:induction false} PowOfOne(e: nat)
    ensures Pow(1, e) == 1
  {
    if e > 0 {
      PowOfOne(e - 1);
    }
  }

  // ----- Euclidean division

  lemma DivModIdentity(a: int, n: int)
    requires n > 0
    ensures a == (a / n) * n + a % n && 0 <= a % n < n
  {
  }

  /** Quotient and remainder are the only pair with a remainder in range. */
  lemma DivModUnique(a: int, n: int, q: int, r: int)
    requires n > 0 && a == q * n + r && 0 <= r < n
    ensures a / n == q && a % n == r
  {
    var q', r' := a / n, a % n;
    assert (q - q') * n == r' - r;
    if q - q' >= 1 {
      MulMono(1, q - q', n);
    } else if q - q' <= -1 {
      MulMono(q - q', -1, n);
    }
  }

  lemma ModSmall(a: int, n: int)
    requires 0 <= a < n
    ensures a % n == a && a / n == 0
  {
    DivModUnique(a, n, 0, a);
  }

  lemma ModShift(a: int, k: int, n: int)
    requires n > 0
    ensures (a + k * n) % n == a % n
    ensures (a + k * n) / n == a / n + k
  {
    DivModIdentity(a, n);
    assert a + k * n == (a / n + k) * n + a % n by {
      assert (a / n + k) * n == (a / n) * n + k * n;
    }
    DivModUnique(a + k * n, n, a / n + k, a % n);
  }

  lemma DivExact(k: int, n: int)
    requires n > 0
    ensures (k * n) / n == k && (k * n) % n == 0
  {
    DivModUnique(k * n, n, k, 0);
  }

  lemma DivMono(a: int, b: int, n: int)
    requires n > 0 && a <= b
    ensures a / n <= b / n
  {
    DivModIdentity(a, n);
    DivModIdentity(b, n);
    if a / n > b / n {
      MulMono(b / n + 1, a / n, n);
    }
  }

  lemma DivNonNeg(a: int, n: int)
    requires n > 0 && a >= 0
    ensures a / n >= 0
  {
    DivMono(0, a, n);
  }

  /** q is at most a / n exactly when q * n is at most a. */
  lemma DivBound(a: int, n: int, q: int)
    requires n > 0
    ensures q <= a / n <==> q * n <= a
  {
    DivModIdentity(a, n);
    if q <= a / n {
      MulMono(q, a / n, n);
    } else {
      MulMono(a / n + 1, q, n);
    }
  }

  lemma DivDiv(a: int, m: int, n: int)
    requires m > 0 && n > 0
    ensures m * n > 0
    ensures (a / m) / n == a / (m * n)
  {
    MulPos(m, n);
    var q := a / m;
    var s := q / n;
    DivModIdentity(a, m);
    DivModIdentity(q, n);
    var r := (q % n) * m + a % m;
    assert a == s * (m * n) + r by {
      assert q * m == (s * n + q % n) * m;
      assert (s * n) * m == s * (m * n);
    }
    assert 0 <= r < m * n by {
      MulPos(q % n, m);
      MulMono(q % n, n - 1, m);
      assert (n - 1) * m == m * n - m;
    }
    DivModUnique(a, m * n, s, r);
  }

  // ----- congruence

  ghost predicate Cong(a: int, b: int, n: int)
    requires n > 0
  {
    a % n == b % n
  }

  lemma CongIntro(a: int, b: int, n: int, k: int)
    requires n > 0 && a == b + k * n
    ensures Cong(a, b, n)
  {
    ModShift(b, k, n);
  }

  lemma CongElim(a: int, b: int, n: int) returns (k: int)
    requires n > 0 && Cong(a, b, n)
    ensures a == b + k * n
  {
    DivModIdentity(a, n);
    DivModIdentity(b, n);
    k := a / n - b / n;
    assert (a / n) * n - (b / n) * n == (a / n - b / n) * n;
  }

  lemma CongMod(a: int, n: int)
    requires n > 0
    ensures Cong(a % n, a, n)
  {
    DivModIdentity(a, n);
    CongIntro(a, a % n, n, a / n);
  }

  lemma CongAdd(a: int, b: int, c: int, d: int, n: int)
    requires n > 0 && Cong(a, b, n) && Cong(c, d, n)
    ensures Cong(a + c, b + d, n)
  {
    var k := CongElim(a, b, n);
    var l := CongElim(c, d, n);
    assert k * n + l * n == (k + l) * n;
    CongIntro(a + c, b + d, n, k + l);
  }

  lemma CongScale(a: int, b: int, c: int, n: int)
    requires n > 0 && Cong(a, b, n)
    ensures Cong(a * c, b * c, n)
  {
    var k := CongElim(a, b, n);
    MulSwap(k, n, c);
    assert a * c == b * c + (k * n) * c;
    CongIntro(a * c, b * c, n, k * c);
  }

  lemma CongMul(a: int, b: int, c: int, d: int, n: int)
    requires n > 0 && Cong(a, b, n) && Cong(c, d, n)
    ensures Cong(a * c, b * d, n)
  {
    CongScale(a, b, c, n);
    CongScale(c, d, b, n);
    assert c * b == b * c && d * b == b * d;
  }

  lemma CongTrans(a: int, b: int, c: int, n: int)
    requires n > 0 && Cong(a, b, n) && Cong(b, c, n)
    ensures Cong(a, c, n)
  {
  }

  lemma CongNeg(a: int, b: int, n: int)
    requires n > 0 && Cong(a, b, n)
    ensures Cong(-a, -b, n)
  {
    CongMul(-1, -1, a, b, n);
  }

  lemma {:induction false} CongPow(a: int, b: int, e: nat, n: int)
    requires n > 0 && Cong(a, b, n)
    ensures Cong(Pow(a, e), Pow(b, e), n)
  {
    if e > 0 {
      CongPow(a, b, e - 1, n);
      CongMul(a, b, Pow(a, e - 1), Pow(b, e - 1), n);
    }
  }

  /** Congruent numbers in the same range are equal. */
  lemma CongUnique(a: int, b: int, n: int)
    requires n > 0 && Cong(a, b, n)
    requires 0 <= a < n && 0 <= b < n
    ensures a == b
  {
    ModSmall(a, n);
    ModSmall(b, n);
  }
}
