/**
 mp_exptmod with its case for negative exponents: invert the base, then raise it to
 the magnitude of the exponent.
 */
module SignedExponents {
  import opened Arith
  import opened Divisibility
  import opened MpInts
  import opened Radix
  import opened ModulusForms
  import opened Reducers
  import opened DroppedPowers
  import opened Exptmod
  import opened Montgomery
  import Invmod

  lemma {:induction false} PowProduct(a: int, b: int, e: nat)
    ensures Pow(a * b, e) == Pow(a, e) * Pow(b, e)
  {
    if e > 0 {
      PowProduct(a, b, e - 1);
      var p, q := Pow(a, e - 1), Pow(b, e - 1);
      MulAssoc(a, b, p * q);
      MulAssoc(b, p, q);
      MulCommutes(b, p);
      MulAssoc(p, b, q);
      MulAssoc(a, p, b * q);
    }
  }

  /** The sign mp_invmod puts on an inverse modulo n. */
  function InverseSign(G: int, n: nat): int {
    if G < 0 && n % 2 == 1 then -1 else 1
  }

  lemma {:induction false} SignPower(s: int, e: nat)
    requires s == 1 || s == -1
    ensures Pow(s, e) == if s == -1 && e % 2 == 1 then -1 else 1
  {
    if e > 0 {
      SignPower(s, e - 1);
    }
  }

  /** Whether mp_invmod reports success for a positive modulus. */
  ghost predicate Inverts(a: int, b: int)
    requires b > 0
  {
    Invmod.SlowSucceeds(a, b)
  }

  /** What it then finds. */
  ghost predicate IsInverse(c: int, a: int, b: int)
    requires b > 0
  {
    if a % b == 0 then c == 0
    else Cong(a * c, InverseSign(a, b), b) && (b % 2 == 0 ==> 0 <= c < b)
  }

  /** mp_invmod: the two-coefficient routine for an odd modulus, the other one for an even modulus. */
  method Invert(a: MpInt, b: MpInt, c: MpInt) returns (err: Err)
    requires a.Valid() && b.Valid() && c.Valid()
    requires b.Value() > 0 && b.Value() % 2 == 1 ==> a.Value() % b.Value() != 0
    modifies c
    ensures err == Okay <==> old(b.Value()) > 0 && Inverts(old(a.Value()), old(b.Value()))
    ensures err == Val ==> unchanged(c)
    ensures err == Okay ==> c.Valid() && IsInverse(c.Value(), old(a.Value()), old(b.Value()))
  {
    hide Cong, Coprime, Invmod.OddPart, Invmod.SlowResult, Invmod.IsFastInverse;
    PositiveModulus(b);
    if b.neg || b.used == 0 {
      return Val;
    }
    ghost var va, vb := a.Value(), b.Value();
    if b.dp[0] % 2 == 1 {
      err := Invmod.InvmodFast(a, b, c);
    } else {
      err := Invmod.InvmodSlow(a, b, c);
      if err == Okay && va % vb == 0 {
        NullInverse(va, vb, c.Value());
      }
    }
  }

  /** Asked for the inverse of a multiple of a power of two, the slow routine answers 0. */
  lemma NullInverse(a: int, b: int, c: int)
    requires b > 0 && b % 2 == 0 && a % b == 0 && Inverts(a, b)
    requires 0 <= c < b && Cong(c, Invmod.SlowResult(a, b).1, b)
    ensures c == 0
  {
    NullCoefficient(b);
    ModSmall(c, b);
    ModSmall(0, b);
  }

  lemma NullCoefficient(b: nat)
    requires b > 0 && b % 2 == 0 && Invmod.OddPart(b) == 1
    ensures Invmod.Loop4(0, b, 1, 0, 0, 1, 0, b) == (1, 0)
  {
    hide Invmod.OddPart;
    FirstHalving(b);
    OddPartHalf(b);
    EqualHalves(b / 2, b);
  }

  lemma OddPartHalf(b: nat)
    requires b > 0 && b % 2 == 0
    ensures Invmod.OddPart(b / 2) == Invmod.OddPart(b)
  {
  }

  lemma FirstHalving(b: nat)
    requires b > 0 && b % 2 == 0
    ensures Invmod.Halve4(b, 0, 1, 0, b) == Invmod.Halve4(b / 2, b / 2, 0, 0, b)
    ensures Invmod.Halve4(0, 1, 0, 0, b) == (0, 1, 0)
  {
  }

  /** From then on the coefficient equals v. */
  lemma {:induction false} EqualHalves(v: nat, b: int)
    requires Invmod.OddPart(v) == 1
    ensures Invmod.Halve4(v, v, 0, 0, b) == (1, 1, 0)
  {
    if Invmod.IsEven(v) {
      EqualHalves(v / 2, b);
    }
  }

  lemma PositiveModulus(b: MpInt)
    requires b.Valid()
    ensures b.Value() > 0 <==> !b.neg && b.used > 0
    ensures b.used > 0 && !b.neg ==> b.dp[0] % 2 == b.Value() % 2
  {
    ModulusCase(b);
  }

  /** y is the power of G with the negative exponent -e, up to the factor s: times G^e it is s modulo n. */
  ghost predicate IsNegativePower(y: int, G: int, e: nat, s: int, n: nat) {
    n > 0 && 0 <= y < n && Cong(y * Pow(G, e), s, n)
  }

  /** The result modulo a spoiled n: the power of the inverse that dropping 2^p makes, which is right modulo B. */
  ghost predicate SpoiledNegative(y: int, G: int, e: nat, n: nat)
    requires n > 0
  {
    && 0 <= y < n && Cong(y * Pow(G, e), 1, B)
    && exists c: nat :: IsDroppedInverse(y, c, G, e, n)
  }

  ghost predicate IsDroppedInverse(y: int, c: nat, G: int, e: nat, n: nat)
    requires n > 0
  {
    c < n && Cong(G * c, 1, n) && y == DroppedPower(n, c, e)
  }

  /** The result for the exponent -e. */
  ghost predicate NegativeOutcome(y: int, G: int, e: nat, n: nat)
    requires n > 0
  {
    if G % n == 0 then y == 0
    else if IsSpoiled(n) then SpoiledNegative(y, G, e, n)
    else IsNegativePower(y, G, e, Pow(InverseSign(G, n), e), n)
  }

  /** With c an inverse of G up to the sign s, c^e is one of G^e up to s^e. */
  lemma PowerOfInverse(y: int, c: int, G: int, e: nat, s: int, m: nat)
    requires m > 0 && Cong(y, Pow(c, e), m) && Cong(G * c, s, m)
    ensures Cong(y * Pow(G, e), Pow(s, e), m)
  {
    CongScale(y, Pow(c, e), Pow(G, e), m);
    PowProduct(G, c, e);
    MulCommutes(Pow(G, e), Pow(c, e));
    CongPow(G * c, s, e, m);
  }

  lemma PowerOutcome(y: int, c: int, G: int, e: nat, n: nat)
    requires n > 0 && e > 0 && (n % 2 == 1 ==> G % n != 0)
    requires Inverts(G, n) && IsInverse(c, G, n) && Outcome(y, c, e, n)
    ensures NegativeOutcome(y, G, e, n)
  {
    hide *;
    if G % n == 0 {
      PowerOfNull(y, c, G, e, n);
    } else if IsSpoiled(n) {
      SpoiledPower(y, c, G, e, n);
    } else {
      PlainPower(y, c, G, e, n);
    }
  }

  lemma PowerOfNull(y: int, c: int, G: int, e: nat, n: nat)
    requires n > 0 && n % 2 == 0 && e > 0 && G % n == 0
    requires Inverts(G, n) && IsInverse(c, G, n) && Outcome(y, c, e, n)
    ensures NegativeOutcome(y, G, e, n)
  {
    hide IsSpoiled, SpoiledOutcome, Invmod.OddPart;
    if IsSpoiled(n) {
      SpoiledOddPart(n);
      assert false;
    }
    assert Pow(0, e) == 0;
  }

  /** A spoiled modulus is no power of two. */
  lemma SpoiledOddPart(n: nat)
    requires IsSpoiled(n)
    ensures Invmod.OddPart(n) != 1
  {
    var j: nat :| 2 <= j < DIGIT_BIT && n == (Pow(2, j) - 1) * B;
    OnesBelow(j, 1);
    PowMonoExp(2, 2, j);
    assert Pow(2, 1) == 2 && Pow(2, 2) == 4;
    Invmod.OddTimesPower(Pow(2, j) - 1, DIGIT_BIT);
  }

  lemma SpoiledPower(y: int, c: int, G: int, e: nat, n: nat)
    requires n > 0 && G % n != 0 && IsSpoiled(n) && IsInverse(c, G, n) && Outcome(y, c, e, n)
    ensures NegativeOutcome(y, G, e, n)
  {
    hide IsSpoiled, Pow, Cong, DroppedPower;
    SpoiledDivisible(n);
    InverseModulo(G * c, 1, n, B);
    PowerOfInverse(y, c, G, e, 1, B);
    PowOfOne(e);
    ModSmall(c, n);
    assert IsDroppedInverse(y, c, G, e, n);
  }

  lemma SpoiledDivisible(n: nat)
    requires IsSpoiled(n)
    ensures n > 0 && n % 2 == 0 && Divides(B, n)
  {
    hide IsSpoiled;
    SpoiledShape(n);
    MultipleOfBase(n);
  }

  lemma MultipleOfBase(n: nat)
    requires n % B == 0
    ensures n % 2 == 0 && Divides(B, n)
  {
    DivModIdentity(n, B);
    DividesIntro(B, n, n / B);
    MulAssoc(n / B, B / 2, 2);
    DivExact((n / B) * (B / 2), 2);
  }

  lemma InverseModulo(a: int, b: int, n: nat, m: nat)
    requires n > 0 && m > 0 && Divides(m, n) && Cong(a, b, n)
    ensures Cong(a, b, m)
  {
    var k := CongElim(a, b, n);
    DividesMultiple(m, n, k);
    CongAdd(b, b, k * n, 0, m);
  }

  lemma PlainPower(y: int, c: int, G: int, e: nat, n: nat)
    requires n > 0 && G % n != 0 && !IsSpoiled(n) && IsInverse(c, G, n) && Outcome(y, c, e, n)
    ensures NegativeOutcome(y, G, e, n)
  {
    hide IsSpoiled, Pow;
    MoreThanOne(G, n);
    DivModIdentity(Pow(c, e), n);
    CongMod(Pow(c, e), n);
    PowerOfInverse(y, c, G, e, InverseSign(G, n), n);
  }

  /** mp_exptmod. Inverting a multiple of an odd modulus would not end. */
  method SignedExptmod(G: int, X: MpInt, n: MpInt) returns (err: Err, y: nat)
    requires X.Valid() && n.Valid()
    requires X.neg && n.Value() > 0 && n.Value() % 2 == 1 ==> G % n.Value() != 0
    ensures err == Okay <==> n.Value() > 0 && (X.neg ==> Inverts(G, n.Value()))
    ensures err == Okay && !X.neg ==> Outcome(y, G, X.Mag(), n.Mag())
    ensures err == Okay && X.neg ==> NegativeOutcome(y, G, X.Mag(), n.Mag())
  {
    hide Outcome, NegativeOutcome, Inverts;
    PositiveModulus(n);
    if !X.neg {
      err, y := Exptmod.Exptmod(G, X, n);
      return;
    }
    y := 0;
    if n.neg {
      return Val, 0;
    }
    ExponentMagnitude(X);
    err, y := InvertedPower(G, X.Mag(), n);
  }

  lemma ExponentMagnitude(X: MpInt)
    requires X.Valid() && X.neg
    ensures X.Mag() > 0
  {
    ModulusCase(X);
  }

  method InvertedPower(G: int, e: nat, n: MpInt) returns (err: Err, y: nat)
    requires n.Valid() && !n.neg && e > 0 && (n.Mag() % 2 == 1 ==> G % n.Mag() != 0)
    ensures err == Okay <==> n.Mag() > 0 && Inverts(G, n.Mag())
    ensures err == Okay ==> NegativeOutcome(y, G, e, n.Mag())
  {
    hide Outcome, NegativeOutcome, Inverts, IsInverse;
    y := 0;
    var a := new MpInt.Of(G);
    var c := new MpInt();
    PositiveModulus(n);
    err := Invert(a, n, c);
    if err != Okay {
      return;
    }
    ghost var v := c.Value();
    var X := new MpInt.Of(e);
    err, y := Exptmod.Exptmod(c.Value(), X, n);
    PowerOutcome(y, v, G, e, n.Mag());
  }

  lemma MoreThanOne(G: int, n: nat)
    requires n > 0 && G % n != 0
    ensures n > 1
  {
  }

  /**
   Where the inversion succeeds and n is not spoiled, the result is the power wanted exactly when n does
   not divide the base and no sign slips in.
   */
  lemma SignSlips(y: int, G: int, e: nat, n: nat)
    requires n > 1 && !IsSpoiled(n) && Inverts(G, n) && NegativeOutcome(y, G, e, n)
    ensures IsNegativePower(y, G, e, 1, n) <==> G % n != 0 && !(G < 0 && n % 2 == 1 && e % 2 == 1)
  {
    hide IsSpoiled, Invmod.OddPart;
    ModSmall(1, n);
    if G % n == 0 {
      assert 0 * Pow(G, e) == 0;
    } else {
      SignDecides(y, G, e, n);
    }
  }

  lemma SignDecides(y: int, G: int, e: nat, n: nat)
    requires n > 1 && IsNegativePower(y, G, e, Pow(InverseSign(G, n), e), n)
    ensures IsNegativePower(y, G, e, 1, n) <==> !(G < 0 && n % 2 == 1 && e % 2 == 1)
  {
    SignPower(InverseSign(G, n), e);
    if G < 0 && n % 2 == 1 && e % 2 == 1 {
      CongIntro(n - 1, -1, n, 1);
      ModSmall(n - 1, n);
      ModSmall(1, n);
    }
  }

  /** The value where n does not divide the base and is not spoiled: times G^e it is 1, or -1 where the sign slips. */
  lemma NegativeValue(y: int, G: int, e: nat, n: nat)
    requires n > 1 && !IsSpoiled(n) && G % n != 0 && NegativeOutcome(y, G, e, n)
    ensures 0 <= y < n && Cong(y * Pow(G, e), if G < 0 && n % 2 == 1 && e % 2 == 1 then -1 else 1, n)
  {
    hide IsSpoiled;
    SignPower(InverseSign(G, n), e);
  }

  /** There is only one such value for a base coprime to n. */
  lemma NegativeUnique(y: int, z: int, G: int, e: nat, s: int, n: nat)
    requires n > 1 && Coprime(G, n) && 0 <= y < n && 0 <= z < n
    requires Cong(y * Pow(G, e), s, n) && Cong(z * Pow(G, e), s, n)
    ensures y == z
  {
    var c := AnyInverse(G, n);
    CongPow(G * c, 1, e, n);
    PowProduct(G, c, e);
    PowOfOne(e);
    Cancel(y, Pow(G, e), Pow(c, e), n);
    Cancel(z, Pow(G, e), Pow(c, e), n);
    CongScale(y * Pow(G, e), s, Pow(c, e), n);
    CongScale(z * Pow(G, e), s, Pow(c, e), n);
    ModSmall(y, n);
    ModSmall(z, n);
  }

  lemma AnyInverse(G: int, n: nat) returns (c: int)
    requires n > 1 && Coprime(G, n)
    ensures Cong(G * c, 1, n)
  {
    CoprimeInverts(G, n);
    if G % n % 2 == 0 && n % 2 == 0 {
      Invmod.BothEven(G, n);
      assert false;
    }
    Invmod.SlowCorrect(G, n);
    c := Invmod.SlowResult(G, n).1;
  }

  /** The value modulo a spoiled n: the dropped power of the one inverse in range. */
  lemma SpoiledNegativeValue(y: int, G: int, e: nat, n: nat, c: nat)
    requires n > 0 && IsSpoiled(n) && G % n != 0 && NegativeOutcome(y, G, e, n) && c < n && Cong(G * c, 1, n)
    ensures y == DroppedPower(n, c, e)
  {
    hide IsSpoiled, DroppedPower;
    var d: nat :| IsDroppedInverse(y, d, G, e, n);
    CongScale(G * c, 1, d, n);
    CongScale(G * d, 1, c, n);
    MulSwap(G, c, d);
    ModSmall(c, n);
    ModSmall(d, n);
  }

  /** For 4 to the power -1 modulo 4 the result is 0. */
  lemma MultipleSlips(y: int)
    ensures Inverts(4, 4)
    ensures NegativeOutcome(y, 4, 1, 4) <==> y == 0
    ensures !IsNegativePower(0, 4, 1, 1, 4)
  {
    Invmod.FalseInverse();
    assert 0 * Pow(4, 1) == 0;
  }

  /** For -1 to the power -2 modulo a spoiled n the result is 2 * B + 1. */
  lemma SpoiledSlips(n: nat, y: int)
    requires IsSpoiled(n)
    ensures n > 2 * B + 1 && Coprime(-1, n) && Inverts(-1, n)
    ensures NegativeOutcome(y, -1, 2, n) <==> y == 2 * B + 1
    ensures !IsNegativePower(2 * B + 1, -1, 2, 1, n)
  {
    hide IsSpoiled, DroppedPower, Invmod.OddPart;
    SpoiledShape(n);
    MinusOne(n);
    BezoutCoprime(-1, n, -1, 0);
    SpoiledSquare(n, 2 * B + 1);
    ModSmall(n - 1, n);
    assert Pow(-1, 1) == -1 && Pow(-1, 2) == 1;
    hide Pow;
    ModShift(1, 2, B);
    ModSmall(2 * B + 1, n);
    ModSmall(1, n);
    assert IsDroppedInverse(2 * B + 1, n - 1, -1, 2, n);
    forall c: nat | c < n && Cong(-1 * c, 1, n)
      ensures c == n - 1
    {
      OnlyMinusOne(c, n);
    }
  }

  lemma MinusOne(n: nat)
    requires n > 1
    ensures Cong(-1 * (n - 1), 1, n) && (-1) % n == n - 1
  {
    CongIntro(-1 * (n - 1), 1, n, -1);
    DivModUnique(-1, n, -1, n - 1);
  }

  lemma OnlyMinusOne(c: nat, n: nat)
    requires n > 1 && c < n && Cong(-1 * c, 1, n)
    ensures c == n - 1
  {
    CongNeg(-1 * c, 1, n);
    MinusOne(n);
    ModSmall(c, n);
  }

  /** All bases coprime to n and all negative exponents come out right exactly if n is even and not spoiled. */
  lemma NegativeRightExactly(n: nat)
    requires n > 1
    ensures (forall y: int, G: int, e: nat :: e > 0 && Coprime(G, n) && NegativeOutcome(y, G, e, n)
              ==> IsNegativePower(y, G, e, 1, n)) <==> n % 2 == 0 && !IsSpoiled(n)
  {
    hide IsSpoiled, NegativeOutcome, IsNegativePower, Inverts, Coprime;
    if IsSpoiled(n) {
      SpoiledSlips(n, 2 * B + 1);
    } else if n % 2 == 1 {
      OddSlips(n);
    } else {
      forall y: int, G: int, e: nat | e > 0 && Coprime(G, n) && NegativeOutcome(y, G, e, n)
        ensures IsNegativePower(y, G, e, 1, n)
      {
        CoprimeInverts(G, n);
        SignSlips(y, G, e, n);
      }
    }
  }

  lemma CoprimeInverts(G: int, n: nat)
    requires n > 1 && Coprime(G, n)
    ensures G % n != 0 && Inverts(G, n)
  {
    if G % n == 0 {
      DivModIdentity(G, n);
      DividesIntro(n, G, G / n);
      DividesIntro(n, n, 1);
      assert false;
    }
  }

  /** Modulo an odd n, -1 to the power -1 comes out as 1. */
  lemma OddSlips(n: nat)
    requires n > 1 && n % 2 == 1
    ensures Coprime(-1, n) && NegativeOutcome(1, -1, 1, n) && !IsNegativePower(1, -1, 1, 1, n)
  {
    if IsSpoiled(n) {
      SpoiledDivisible(n);
      assert false;
    }
    hide IsSpoiled;
    BezoutCoprime(-1, n, -1, 0);
    MinusOne(n);
    ModSmall(1, n);
    assert Pow(-1, 1) == -1;
  }

  /** For -2 to the power -1 modulo 7 the result is 4, and -2 * 4 is -1 there. */
  lemma SignSlipsOnce(y: int)
    ensures Inverts(-2, 7)
    ensures NegativeOutcome(y, -2, 1, 7) <==> y == 4
    ensures !IsNegativePower(4, -2, 1, 1, 7)
  {
    if IsSpoiled(7) {
      SpoiledDivisible(7);
      assert false;
    }
    hide IsSpoiled;
    BezoutCoprime(-2, 7, 3, 1);
    assert Pow(-2, 1) == -2 * Pow(-2, 0) && Pow(-1, 1) == -1 * Pow(-1, 0);
    assert (-2) % 7 == 5 && (-1) % 7 == 6;
  }
}
