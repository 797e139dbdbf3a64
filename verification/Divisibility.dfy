/**
 Divisibility and coprimality.
 */
module Divisibility {
  import opened Arith

  ghost predicate Divides(e: int, n: int)
    requires e > 0
  {
    Cong(n, 0, e)
  }

  lemma DividesIntro(e: int, n: int, k: int)
    requires e > 0 && n == k * e
    ensures Divides(e, n)
  {
    CongIntro(n, 0, e, k);
  }

  lemma DividesSum(e: int, a: int, b: int)
    requires e > 0 && Divides(e, b)
    ensures Divides(e, a) <==> Divides(e, a + b)
  {
    if Divides(e, a) {
      CongAdd(a, 0, b, 0, e);
    }
    if Divides(e, a + b) {
      CongNeg(b, 0, e);
      CongAdd(a + b, 0, -b, 0, e);
    }
  }

  lemma DividesMultiple(e: int, a: int, k: int)
    requires e > 0 && Divides(e, a)
    ensures Divides(e, a * k) && Divides(e, k * a)
  {
    CongScale(a, 0, k, e);
    MulCommutes(a, k);
  }

  ghost predicate Coprime(a: int, b: int) {
    forall e: int :: e > 1 && Divides(e, a) ==> !Divides(e, b)
  }

  /** A Bezout identity for 1 excludes common divisors. */
  lemma BezoutCoprime(a: int, b: int, s: int, t: int)
    requires s * a + t * b == 1
    ensures Coprime(a, b)
  {
    forall e: int | e > 1 && Divides(e, a)
      ensures !Divides(e, b)
    {
      if Divides(e, b) {
        DividesMultiple(e, a, s);
        DividesMultiple(e, b, t);
        DividesSum(e, s * a, t * b);
        ModSmall(1, e);
        ModSmall(0, e);
        assert false;
      }
    }
  }

  /** Coprimality to b only depends on the residue. */
  lemma CoprimeMod(a: int, x: int, b: int)
    requires b > 0 && Cong(a, x, b) && Coprime(a, b)
    ensures Coprime(x, b)
  {
    var k := CongElim(a, x, b);
    forall e: int | e > 1 && Divides(e, x)
      ensures !Divides(e, b)
    {
      if Divides(e, b) {
        DividesMultiple(e, b, k);
        DividesSum(e, x, k * b);
        assert false;
      }
    }
  }
}
