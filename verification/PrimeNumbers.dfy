/**
 Prime numbers: Euclid's lemma, Fermat's little theorem, and the square roots of one.
 */
module PrimeNumbers {
  import opened Arith
  import opened Divisibility
  import opened Sequences
  import Invmod

  ghost predicate IsPrime(p: int) {
    p > 1 && forall d: int :: 1 < d < p ==> !Divides(d, p)
  }

  ghost predicate IsComposite(n: int) {
    n > 1 && !IsPrime(n)
  }

  lemma DivisorBound(e: int, n: int)
    requires e > 0 && n > 0 && Divides(e, n)
    ensures e <= n
  {
    if e > n {
      ModSmall(n, e);
      ModSmall(0, e);
      assert false;
    }
  }

  lemma DividesTrans(d: int, e: int, n: int)
    requires d > 0 && e > 0 && Divides(d, e) && Divides(e, n)
    ensures Divides(d, n)
  {
    var k := CongElim(n, 0, e);
    DividesMultiple(d, e, k);
  }

  /** A prime that does not divide a has no divisor in common with it. */
  lemma PrimeCoprime(p: int, a: int)
    requires IsPrime(p) && !Divides(p, a)
    ensures Coprime(a, p)
  {
    forall e: int | e > 1 && Divides(e, a)
      ensures !Divides(e, p)
    {
      if Divides(e, p) {
        DivisorBound(e, p);
        assert false;
      }
    }
  }

  /** Modulo a prime everything but zero has an inverse: the one binary extended Euclid finds. */
  lemma InverseModPrime(p: int, a: int) returns (c: int)
    requires IsPrime(p) && !Divides(p, a)
    ensures Cong(a * c, 1, p)
  {
    PrimeCoprime(p, a);
    ModSmall(0, p);
    DivModIdentity(a, p);
    if p % 2 == 0 && p > 2 {
      DividesIntro(2, p, p / 2);
      assert false;
    }
    Invmod.SlowCorrect(a, p);
    c := Invmod.SlowResult(a, p).1;
  }

  /** Euclid's lemma. */
  lemma PrimeDividesProduct(p: int, a: int, b: int)
    requires IsPrime(p) && Divides(p, a * b)
    ensures Divides(p, a) || Divides(p, b)
  {
    if !Divides(p, a) {
      var c := InverseModPrime(p, a);
      CongScale(a * c, 1, b, p);
      DividesMultiple(p, a * b, c);
      MulSwap(a, b, c);
    }
  }

  /** Only 1 and -1 square to 1 modulo a prime. */
  lemma RootsOfOne(p: int, x: int)
    requires IsPrime(p) && 0 <= x < p && Cong(x * x, 1, p)
    ensures x == 1 || x == p - 1
  {
    var k := CongElim(x * x, 1, p);
    assert (x - 1) * (x + 1) == k * p;
    DividesIntro(p, (x - 1) * (x + 1), k);
    PrimeDividesProduct(p, x - 1, x + 1);
    if Divides(p, x - 1) {
      CongAdd(x - 1, 0, 1, 1, p);
      CongUnique(x, 1, p);
    } else {
      CongAdd(x + 1, 0, p - 1, p - 1, p);
      CongIntro(x + p, x, p, 1);
      CongUnique(x, p - 1, p);
    }
  }

  // ----- Fermat's little theorem

  function Prod(s: seq<int>): int {
    if |s| == 0 then 1 else Prod(s[..|s| - 1]) * s[|s| - 1]
  }

  function Factorial(n: nat): (f: int)
    ensures f > 0
  {
    if n == 0 then 1 else
      MulPos(Factorial(n - 1), n);
      Factorial(n - 1) * n
  }

  ghost predicate Within(s: seq<int>, n: int) {
    forall i :: 0 <= i < |s| ==> 1 <= s[i] <= n
  }

  lemma {:induction false} ProdWithout(s: seq<int>, i: nat)
    requires i < |s|
    ensures Prod(s) == Prod(Without(s, i)) * s[i]
  {
    var n := |s| - 1;
    if i == n {
      assert Without(s, i) == s[..n];
    } else {
      ProdWithout(s[..n], i);
      assert Without(s, i)[..n - 1] == Without(s[..n], i);
      MulSwap(Prod(Without(s[..n], i)), s[i], s[n]);
    }
  }

  /** Distinct numbers from 1 to n: at most n of them, and all n multiply to n!. */
  lemma {:induction false} Rearranged(s: seq<int>, n: nat)
    requires Distinct(s) && Within(s, n)
    ensures |s| <= n
    ensures |s| == n ==> Prod(s) == Factorial(n)
  {
    assert |s| == 0 || 1 <= s[0] <= n;
    if n > 0 {
      if i: nat :| i < |s| && s[i] == n {
        Rearranged(Without(s, i), n - 1);
        ProdWithout(s, i);
      } else {
        Rearranged(s, n - 1);
      }
    }
  }

  /** The residues of b, 2b, ..., nb. */
  function Residues(b: int, p: int, n: nat): (s: seq<int>)
    requires p > 0
    ensures |s| == n
    ensures forall i :: 0 <= i < n ==> s[i] == (b * (i + 1)) % p
  {
    if n == 0 then [] else Residues(b, p, n - 1) + [(b * n) % p]
  }

  lemma {:induction false} ProdResidues(b: int, p: int, n: nat)
    requires p > 0
    ensures Cong(Prod(Residues(b, p, n)), Pow(b, n) * Factorial(n), p)
  {
    if n > 0 {
      ProdResidues(b, p, n - 1);
      var s := Residues(b, p, n);
      assert s[..n - 1] == Residues(b, p, n - 1);
      CongMod(b * n, p);
      CongMul(Prod(s[..n - 1]), Pow(b, n - 1) * Factorial(n - 1), s[n - 1], b * n, p);
      RegroupPower(Pow(b, n - 1), Factorial(n - 1), b, n);
    } else {
      assert Prod([]) == 1;
    }
  }

  lemma RegroupPower(x: int, f: int, b: int, n: int)
    ensures (x * f) * (b * n) == (b * x) * (f * n)
  {
    MulAssoc(x, f, b * n);
    MulAssoc(f, b, n);
    MulCommutes(f, b);
    MulAssoc(b, f, n);
    MulAssoc(x, b, f * n);
    MulCommutes(x, b);
  }

  /** A prime divides no product of smaller positive numbers. */
  lemma {:induction false} PrimeNotInFactorial(p: int, n: nat)
    requires IsPrime(p) && n < p
    ensures !Divides(p, Factorial(n))
  {
    if n == 0 {
      ModSmall(1, p);
      ModSmall(0, p);
    } else {
      PrimeNotInFactorial(p, n - 1);
      ModSmall(n, p);
      ModSmall(0, p);
      if Divides(p, Factorial(n)) {
        PrimeDividesProduct(p, Factorial(n - 1), n);
      }
    }
  }

  lemma ResiduesDiffer(b: int, p: int, i: int, j: int)
    requires IsPrime(p) && !Divides(p, b) && 0 < j - i < p
    ensures !Cong(b * j, b * i, p)
  {
    if Cong(b * j, b * i, p) {
      var k := CongElim(b * j, b * i, p);
      assert b * (j - i) == k * p;
      DividesIntro(p, b * (j - i), k);
      PrimeDividesProduct(p, b, j - i);
      ModSmall(j - i, p);
      ModSmall(0, p);
      assert false;
    }
  }

  /** Multiplying by b permutes the non-zero residues. */
  lemma ResiduesPermute(b: int, p: int)
    requires IsPrime(p) && !Divides(p, b)
    ensures Distinct(Residues(b, p, p - 1)) && Within(Residues(b, p, p - 1), p - 1)
  {
    var s := Residues(b, p, p - 1);
    forall i, j | 0 <= i < j < |s|
      ensures s[i] != s[j]
    {
      ResiduesDiffer(b, p, i + 1, j + 1);
    }
    forall i | 0 <= i < |s|
      ensures 1 <= s[i] <= p - 1
    {
      ResiduesDiffer(b, p, 0, i + 1);
      DivModIdentity(b * (i + 1), p);
      ModSmall(0, p);
      assert b * 0 == 0;
    }
  }

  lemma Fermat(b: int, p: int)
    requires IsPrime(p) && !Divides(p, b)
    ensures Cong(Pow(b, p - 1), 1, p)
  {
    var f, x := Factorial(p - 1), Pow(b, p - 1);
    ResiduesPermute(b, p);
    Rearranged(Residues(b, p, p - 1), p - 1);
    ProdResidues(b, p, p - 1);
    var k := CongElim(x * f, f, p);
    assert (x - 1) * f == k * p;
    DividesIntro(p, (x - 1) * f, k);
    PrimeDividesProduct(p, x - 1, f);
    PrimeNotInFactorial(p, p - 1);
    CongAdd(x - 1, 0, 1, 1, p);
  }

  // ----- prime divisors

  lemma {:induction false} PrimeFactor(n: int) returns (p: int)
    requires n > 1
    ensures IsPrime(p) && Divides(p, n) && p <= n
    decreases n
  {
    if IsPrime(n) {
      CongIntro(n, 0, n, 1);
      p := n;
    } else {
      var d :| 1 < d < n && Divides(d, n);
      p := PrimeFactor(d);
      DividesTrans(p, d, n);
    }
  }

  /** A composite number has a prime factor whose square does not exceed it. */
  lemma SmallPrimeFactor(n: int) returns (p: int)
    requires IsComposite(n)
    ensures IsPrime(p) && Divides(p, n) && p * p <= n
  {
    var d :| 1 < d < n && Divides(d, n);
    var k := CongElim(n, 0, d);
    if k <= 0 {
      MulMono(k, 0, d);
    } else if k == 1 {
      assert false;
    }
    MulCommutes(k, d);
    DividesIntro(k, n, d);
    var e := if d <= k then d else k;
    p := PrimeFactor(e);
    DividesTrans(p, e, n);
    MulMono(p, e, p);
    MulMono(p, e, e);
    MulMono(e, d, e);
    MulMono(e, k, d);
    assert p * p <= e * e <= d * k;
  }

  lemma {:induction false} DividesFactorial(p: int, n: nat)
    requires 1 <= p <= n
    ensures Divides(p, Factorial(n))
  {
    if p == n {
      DividesIntro(p, Factorial(n), Factorial(n - 1));
    } else {
      DividesFactorial(p, n - 1);
      DividesMultiple(p, Factorial(n - 1), n);
    }
  }

  /** There is a prime above every number. */
  lemma LargerPrime(n: nat) returns (q: int)
    ensures IsPrime(q) && q > n
  {
    q := PrimeFactor(Factorial(n) + 1);
    if q <= n {
      DividesFactorial(q, n);
      CongNeg(Factorial(n), 0, q);
      CongAdd(Factorial(n) + 1, 0, -Factorial(n), 0, q);
      ModSmall(1, q);
      ModSmall(0, q);
      assert false;
    }
  }

  /** A number congruent to 3 modulo 4 has a prime factor of that form. */
  lemma {:induction false} PrimeFactor3Mod4(n: int) returns (p: int)
    requires n > 1 && n % 4 == 3
    ensures IsPrime(p) && Divides(p, n) && p % 4 == 3
    decreases n
  {
    if IsPrime(n) {
      CongIntro(n, 0, n, 1);
      p := n;
    } else {
      var d :| 1 < d < n && Divides(d, n);
      var k := CongElim(n, 0, d);
      MulCommutes(k, d);
      DividesIntro(k, n, d) by { OtherFactor(n, d, k); }
      OtherFactor(n, d, k);
      OneOfThem(d, k);
      var e := if d % 4 == 3 then d else k;
      p := PrimeFactor3Mod4(e);
      DividesTrans(p, e, n);
    }
  }

  lemma OtherFactor(n: int, d: int, k: int)
    requires n == k * d && 1 < d < n
    ensures 1 < k < n
  {
    if k <= 0 {
      MulMono(k, 0, d);
    } else if k >= n {
      MulMono(2, d, k);
    }
  }

  lemma OneOfThem(d: int, k: int)
    requires (d * k) % 4 == 3
    ensures d % 4 == 3 || k % 4 == 3
  {
    var i, j, r, s := d / 4, k / 4, d % 4, k % 4;
    ProductMod4(i, r, j, s);
    ModShift(r * s, 4 * (i * j) + i * s + r * j, 4);
    if r < 3 && s < 3 {
      NotThree(r, s);
    }
  }

  lemma ProductMod4(i: int, r: int, j: int, s: int)
    ensures (4 * i + r) * (4 * j + s) == r * s + (4 * (i * j) + i * s + r * j) * 4
  {
    Distribute(4 * i, r, 4 * j + s);
    MulAssoc(4, i, 4 * j + s);
    assert i * (4 * j + s) == 4 * (i * j) + i * s;
    assert r * (4 * j + s) == 4 * (r * j) + r * s;
  }

  lemma NotThree(r: int, s: int)
    requires 0 <= r < 3 && 0 <= s < 3
    ensures (r * s) % 4 != 3
  {
    if r == 0 {
      assert r * s == 0;
    } else if r == 1 {
      assert r * s == s;
    } else {
      assert r * s == 2 * s;
    }
  }

  /** There is one of that form above every number. */
  lemma LargerPrime3Mod4(n: nat) returns (q: int)
    ensures IsPrime(q) && q > n && q % 4 == 3
  {
    var f := Factorial(n);
    q := PrimeFactor3Mod4(4 * f - 1);
    if q <= n {
      DividesFactorial(q, n);
      DividesMultiple(q, f, 4);
      CongNeg(4 * f - 1, 0, q);
      CongAdd(4 * f, 0, 1 - 4 * f, 0, q);
      ModSmall(1, q);
      ModSmall(0, q);
      assert false;
    }
  }
}
