/**
 mp_prime_miller_rabin: one round of the test of Miller and Rabin.
 */
module MillerRabin {
  import opened Arith
  import opened Radix
  import opened MpInts
  import opened Divisibility
  import opened PrimeNumbers
  import opened ModulusForms
  import opened Reducers
  import opened DroppedPowers
  import opened Exptmod
  import opened Invmod

  /** How often 2 divides n; 0 for 0. */
  function Twos(n: nat): nat {
    if n > 0 && n % 2 == 0 then 1 + Twos(n / 2) else 0
  }

  lemma {:induction false} TwosAndOddPart(n: nat)
    ensures n == OddPart(n) * Pow(2, Twos(n))
  {
    if n > 0 && n % 2 == 0 {
      TwosAndOddPart(n / 2);
      MulAssoc(OddPart(n), 2, Pow(2, Twos(n / 2)));
      MulCommutes(OddPart(n), 2);
      MulAssoc(2, OddPart(n), Pow(2, Twos(n / 2)));
    }
  }

  /** b^(r * 2^j) mod a: r-th power, then j squarings. */
  function Squared(b: int, r: nat, j: nat, a: nat): (y: nat)
    requires a > 0
    ensures y < a
  {
    PowPos(2, j);
    MulPos(r, Pow(2, j));
    DivModIdentity(Pow(b, r * Pow(2, j)), a);
    Pow(b, r * Pow(2, j)) % a
  }

  lemma SquaredStart(b: int, r: nat, a: nat)
    requires a > 0
    ensures Squared(b, r, 0, a) == Pow(b, r) % a
  {
    assert Pow(2, 0) == 1;
    assert r * 1 == r;
  }

  lemma SquaredStep(b: int, r: nat, j: nat, a: nat)
    requires a > 0
    ensures Squared(b, r, j + 1, a) == (Squared(b, r, j, a) * Squared(b, r, j, a)) % a
  {
    PowPos(2, j);
    MulPos(r, Pow(2, j));
    var e := r * Pow(2, j);
    assert r * Pow(2, j + 1) == 2 * e by {
      MulAssoc(r, 2, Pow(2, j));
      MulCommutes(r, 2);
      MulAssoc(2, r, Pow(2, j));
    }
    PowSquare(b, e);
    CongMod(Pow(b, e), a);
    CongMul(Pow(b, e) % a, Pow(b, e), Pow(b, e) % a, Pow(b, e), a);
  }

  /** a is a strong probable prime to the base b. */
  ghost predicate Strong(a: int, b: int)
    requires a > 0
  {
    var r, s := OddPart(a - 1), Twos(a - 1);
    Squared(b, r, 0, a) == 1 || exists j: nat :: j < Max(s, 1) && Squared(b, r, j, a) == a - 1
  }

  /** The split into a power of two and an odd number is unique. */
  lemma {:induction false} TwosOfProduct(n: nat, r: nat, s: nat)
    requires r % 2 == 1 && n == r * Pow(2, s)
    ensures Twos(n) == s && OddPart(n) == r
    decreases s
  {
    OddTimesPower(r, s);
    if s == 0 {
      assert Pow(2, 0) == 1;
    } else {
      PowPos(2, s - 1);
      MulPos(r, Pow(2, s - 1));
      DoubledFactor(r, s);
      TwosOfProduct(r * Pow(2, s - 1), r, s - 1);
    }
  }

  lemma DoubledFactor(r: nat, s: nat)
    requires s > 0
    ensures r * Pow(2, s) == 2 * (r * Pow(2, s - 1))
  {
    MulAssoc(r, 2, Pow(2, s - 1));
    MulCommutes(r, 2);
    MulAssoc(2, r, Pow(2, s - 1));
  }

  /** What is left of v without 1 is an odd r times 2^s. */
  ghost predicate IsSplit(v: int, r: nat, s: nat) {
    r % 2 == 1 && v - 1 == r * Pow(2, s)
  }

  /** b^r is 1 or some b^(r * 2^j), j < s or j == 0, is -1 modulo v. */
  ghost predicate PowersPass(v: nat, b: int, r: nat, s: nat)
    requires v > 0
  {
    || Pow(b, r) % v == 1
    || exists j: nat, e: nat :: (j == 0 || j < s) && e == r * Pow(2, j) && Pow(b, e) % v == v - 1
  }

  /** With a - 1 == r * 2^s and r odd, a is a strong probable prime to b exactly if these powers pass. */
  lemma StrongMeans(a: nat, b: int, r: nat, s: nat)
    requires a > 1 && IsSplit(a, r, s)
    ensures Strong(a, b) <==>
      (Pow(b, r) % a == 1
       || exists j: nat, e: nat :: (j == 0 || j < s) && e == r * Pow(2, j) && Pow(b, e) % a == a - 1)
    ensures Strong(a, b) <==> PowersPass(a, b, r, s)
  {
    TwosOfProduct(a - 1, r, s);
    SquaredStart(b, r, a);
    hide Squared, Twos, OddPart, Pow;
    if j: nat :| j < Max(s, 1) && Squared(b, r, j, a) == a - 1 {
      ChainExponent(b, r, j, a);
      var e: nat := r * Pow(2, j);
      assert (j == 0 || j < s) && Pow(b, e) % a == a - 1;
    }
    if j: nat, e: nat :| (j == 0 || j < s) && e == r * Pow(2, j) && Pow(b, e) % a == a - 1 {
      ChainExponent(b, r, j, a);
      assert j < Max(s, 1) && Squared(b, r, j, a) == a - 1;
    }
  }

  lemma ChainExponent(b: int, r: nat, j: nat, a: nat)
    requires a > 0
    ensures r * Pow(2, j) >= 0 && Squared(b, r, j, a) == Pow(b, r * Pow(2, j)) % a
  {
    PowPos(2, j);
    MulPos(r, Pow(2, j));
  }

  /** A number above 2 that passes for b has b^(a-1) == 1. */
  lemma StrongIsFermat(a: nat, b: int)
    requires a > 2 && a % 2 == 1 && Strong(a, b)
    ensures Pow(b, a - 1) % a == 1
  {
    hide *;
    var r, s := OddPart(a - 1), Twos(a - 1);
    LastOfChain(b, a);
    var j := StrongCases(a, b);
    if j < 0 {
      OnesStay(b, r, 0, s, a);
    } else {
      SquaredStep(b, r, j, a);
      MinusOneSquared(a);
      OnesStay(b, r, j + 1, s, a);
    }
  }

  lemma LastOfChain(b: int, a: nat)
    requires a > 0
    ensures Squared(b, OddPart(a - 1), Twos(a - 1), a) == Pow(b, a - 1) % a
  {
    TwosAndOddPart(a - 1);
    ChainExponent(b, OddPart(a - 1), Twos(a - 1), a);
  }

  lemma StrongCases(a: nat, b: int) returns (j: int)
    requires a > 2 && a % 2 == 1 && Strong(a, b)
    ensures if j < 0 then Squared(b, OddPart(a - 1), 0, a) == 1
            else j < Twos(a - 1) && Squared(b, OddPart(a - 1), j, a) == a - 1
  {
    hide Squared, OddPart;
    if Squared(b, OddPart(a - 1), 0, a) == 1 {
      j := -1;
    } else {
      j :| 0 <= j < Max(Twos(a - 1), 1) && Squared(b, OddPart(a - 1), j, a) == a - 1;
    }
  }

  lemma MinusOneSquared(a: nat)
    requires a > 1
    ensures ((a - 1) * (a - 1)) % a == 1
  {
    assert (a - 1) * (a - 1) == (a - 2) * a + 1;
    DivModUnique((a - 1) * (a - 1), a, a - 2, 1);
  }

  /** A 1 in the chain of squares that did not come from -1 came from a 1. */
  lemma {:induction false} ChainToOne(p: nat, b: int, r: nat, j: nat)
    requires IsPrime(p) && Squared(b, r, j, p) == 1
    ensures Squared(b, r, 0, p) == 1 || exists i: nat :: i < j && Squared(b, r, i, p) == p - 1
  {
    if j > 0 {
      var x := Squared(b, r, j - 1, p);
      SquaredStep(b, r, j - 1, p);
      ModSmall(1, p);
      RootsOfOne(p, x);
      if x == 1 {
        ChainToOne(p, b, r, j - 1);
      }
    }
  }

  /** No prime is rejected, whatever the base, unless it divides the base. */
  lemma PrimesAreStrong(p: nat, b: int)
    requires IsPrime(p) && !Divides(p, b)
    ensures Strong(p, b)
  {
    var s, r := Twos(p - 1), OddPart(p - 1);
    Fermat(b, p);
    TwosAndOddPart(p - 1);
    ModSmall(1, p);
    assert Squared(b, r, s, p) == 1;
    ChainToOne(p, b, r, s);
  }

  lemma {:induction false} OnesStay(b: int, r: nat, i: nat, j: nat, a: nat)
    requires a > 1 && i <= j && Squared(b, r, i, a) == 1
    ensures Squared(b, r, j, a) == 1
    decreases j
  {
    if i < j {
      OnesStay(b, r, i, j - 1, a);
      SquaredStep(b, r, j - 1, a);
      ModSmall(1, a);
    }
  }

  /** After j - 1 squarings: neither did the chain start with 1 nor has -1 come up before. */
  ghost predicate Undecided(b: int, r: nat, j: nat, a: nat, y: nat)
    requires a > 0 && j > 0
  {
    && y == Squared(b, r, j - 1, a)
    && Squared(b, r, 0, a) != 1
    && forall i: nat :: i < j - 1 ==> Squared(b, r, i, a) != a - 1
  }

  /**
   What the round says of a: a spoiled modulus has an odd number before it, so that its first power
   decides, and that power is the one mp_exptmod makes.
   */
  ghost predicate PassesRound(a: int, b: int)
    requires a > 0
  {
    if IsSpoiled(a) then
      var y := DroppedPower(a, Residue(b, a), a - 1);
      y == 1 || y == a - 1
    else Strong(a, b)
  }

  /** In full: the strong test, or for a spoiled modulus whether the power mp_exptmod makes is 1 or -1. */
  lemma RoundMeans(a: nat, b: int)
    requires a > 0
    ensures IsSpoiled(a) ==>
      (PassesRound(a, b) <==>
        (DroppedPower(a, Residue(b, a), a - 1) == 1 || DroppedPower(a, Residue(b, a), a - 1) == a - 1))
    ensures !IsSpoiled(a) ==> (PassesRound(a, b) <==> Strong(a, b))
    ensures Residue(b, a) == b % a
  {
    hide DroppedPower, Strong, IsSpoiled;
  }

  /** mp_prime_miller_rabin */
  method MillerRabin(a: MpInt, b: int) returns (err: Err, result: bool)
    requires a.Valid()
    ensures err == Okay <==> b > 1 && a.Value() > 0
    ensures err == Okay ==> (result <==> PassesRound(a.Value(), b))
  {
    hide Squared, Strong, Undecided, IsSpoiled, IsModPower, SpoiledOutcome, Outcome, PassesRound;
    result := false;
    if b <= 1 {
      return Val, false;
    }
    var n := a.Value();
    var n1 := n - 1;
    if n1 < 0 {
      // mp_exptmod has no power modulo a negative number and no inverse modulo zero
      return Val, false;
    }
    ghost var exact := !IsSpoiled(n);
    var r, s := SplitOffTwos(n1);
    var y: nat := BasePower(b, r, a);
    err := Okay;
    FirstPower(b, r, n, y, exact);
    RoundIs(b, r, s, n, y);
    if y != 1 && y != n1 {
      var j := 1;
      while j <= s - 1 && y != n1
        invariant 1 <= j <= Max(s, 1)
        invariant exact ==> Undecided(b, r, j, n, y)
        invariant !exact ==> s == 0 && y != n1
      {
        NextPower(b, r, j, n, s, y, exact);
        y := (y * y) % n;
        if y == 1 {
          return Okay, false;
        }
        j := j + 1;
      }
      LastPower(b, r, j, n, s, y, exact);
      if y != n1 {
        return Okay, false;
      }
    }
    result := true;
  }

  /** What decides the round: the chain of squares, or the first power alone. */
  lemma RoundIs(b: int, r: nat, s: nat, n: nat, y: nat)
    requires n > 0 && r == OddPart(n - 1) && s == Twos(n - 1) && Outcome(y, b, r, n)
    ensures !IsSpoiled(n) ==> (PassesRound(n, b) <==> Strong(n, b))
    ensures IsSpoiled(n) ==> s == 0 && (PassesRound(n, b) <==> y == 1 || y == n - 1)
  {
    hide IsSpoiled, Strong, IsModPower, DroppedPower;
    if IsSpoiled(n) {
      EvenModulus(n);
    }
  }

  lemma EvenModulus(n: nat)
    requires IsSpoiled(n)
    ensures n > 0 && n % 2 == 0 && OddPart(n - 1) == n - 1 && Twos(n - 1) == 0
  {
    hide IsSpoiled;
    SpoiledShape(n);
    DivModIdentity(n, B);
    EvenBase(n / B);
  }

  /** y = b^r mod a. The modulus is positive, so mp_exptmod reports no error. */
  method BasePower(b: int, r: nat, a: MpInt) returns (y: nat)
    requires a.Valid() && a.Value() > 0
    ensures Outcome(y, b, r, a.Value())
  {
    hide IsSpoiled, IsModPower, Outcome;
    var X := new MpInt.Of(r);
    var err;
    err, y := Exptmod.Exptmod(b, X, a);
  }

  /** mp_cnt_lsb and mp_div_2d by the number of bits it finds. */
  method SplitOffTwos(n: nat) returns (r: nat, s: nat)
    ensures r == OddPart(n) && s == Twos(n)
  {
    r, s := n, 0;
    while r > 0 && r % 2 == 0
      invariant OddPart(r) == OddPart(n) && s + Twos(r) == Twos(n)
    {
      r, s := r / 2, s + 1;
    }
  }

  /** The power the round starts from settles the matter when it is 1 or -1. */
  lemma FirstPower(b: int, r: nat, n: nat, y: nat, exact: bool)
    requires n > 0 && r == OddPart(n - 1) && Outcome(y, b, r, n) && (exact ==> !IsSpoiled(n))
    ensures exact && (y == 1 || y == n - 1) ==> Strong(n, b)
    ensures exact && y != 1 && y != n - 1 ==> Undecided(b, r, 1, n, y)
  {
    hide IsSpoiled, SpoiledOutcome;
    SquaredStart(b, r, n);
    if n == 1 {
      assert Squared(b, r, 0, n) == n - 1;
    }
  }

  lemma NextPower(b: int, r: nat, j: nat, n: nat, s: nat, y: nat, exact: bool)
    requires n > 0 && r == OddPart(n - 1) && s == Twos(n - 1) && 1 <= j <= s - 1
    requires y != n - 1 && (exact ==> Undecided(b, r, j, n, y))
    ensures y * y >= 0 && (y * y) % n >= 0
    ensures exact ==> Undecided(b, r, j + 1, n, (y * y) % n)
    ensures exact && (y * y) % n == 1 ==> !Strong(n, b)
  {
    MulPos(y, y);
    DivModIdentity(y * y, n);
    if exact {
      SquaredStep(b, r, j - 1, n);
      if (y * y) % n == 1 {
        TwosAtLeast(n - 1);
        OneTooLate(b, r, j, n, s);
      }
    }
  }

  lemma TwosAtLeast(n: nat)
    requires Twos(n) >= 2
    ensures n >= 4
  {
  }

  // ----- rounds for a spoiled modulus

  /** Modulo 2^k the 2^k-th power of an odd number is 1. */
  lemma {:induction false} OddPower(b: int, k: nat)
    requires b % 2 == 1
    ensures Pow(2, k) > 0 && Pow(b, Pow(2, k)) % 2 == 1 && Cong(Pow(b, Pow(2, k)), 1, Pow(2, k))
  {
    PowPos(2, k);
    if k == 0 {
      assert Pow(2, 0) == 1 && Pow(b, 0) == 1 && Pow(b, 1) == b;
    } else {
      OddPower(b, k - 1);
      PowSquare(b, Pow(2, k - 1));
      assert Pow(2, k) == 2 * Pow(2, k - 1);
      PowPos(2, k - 1);
      OddSquare(Pow(b, Pow(2, k - 1)), Pow(2, k - 1));
    }
  }

  lemma OddSquare(x: int, m: nat)
    requires m > 0 && x % 2 == 1 && Cong(x, 1, m)
    ensures (x * x) % 2 == 1 && Cong(x * x, 1, 2 * m)
  {
    var k := CongElim(x, 1, m);
    SquareOfOdd(x, x / 2);
    SquareMinusOne(x, x / 2, k, m);
    CongIntro(x * x, 1, 2 * m, k * (x / 2 + 1));
  }

  lemma SquareOfOdd(x: int, h: int)
    requires x == 2 * h + 1
    ensures (x * x) % 2 == 1
  {
    assert x * x == (x * h) * 2 + x;
    ModShift(x, x * h, 2);
  }

  lemma SquareMinusOne(x: int, h: int, k: int, m: int)
    requires x == 2 * h + 1 && x == 1 + k * m
    ensures x * x == 1 + (k * (h + 1)) * (2 * m)
  {
    assert x * x - 1 == (x - 1) * (x + 1);
    MulAssoc(k, m, 2 * (h + 1));
    MulAssoc(k, h + 1, 2 * m);
    assert m * (2 * (h + 1)) == (h + 1) * (2 * m);
  }

  /** Modulo B, only 1 and -1 have 1 or -1 for their power of exponent q * B - 1. */
  lemma NotOneModB(b: int, q: nat, e: nat, c: int)
    requires e + 1 == q * B && q > 0 && (c == 1 || c == -1) && Cong(Pow(b, e), c, B)
    ensures b % B == 1 || b % B == B - 1
  {
    hide Pow;
    var k := CongElim(Pow(b, e), c, B);
    if b % 2 == 0 {
      EvenPower(b, e);
      EvenBase(k);
      assert false;
    }
    OddPower(b, DIGIT_BIT);
    PowMul(b, B, q);
    CongPow(Pow(b, B), 1, q, B);
    PowOfOne(q);
    MulCommutes(B, q);
    assert Cong(Pow(b, e + 1), 1, B);
    NextPowerIs(b, e);
    CongScale(Pow(b, e), c, b, B);
    MulCommutes(b, Pow(b, e));
    OneOfTwo(b, c, Pow(b, e + 1));
  }

  lemma NextPowerIs(b: int, e: nat)
    ensures Pow(b, e + 1) == b * Pow(b, e)
  {
  }

  lemma OneOfTwo(b: int, c: int, x: int)
    requires (c == 1 || c == -1) && Cong(x, 1, B) && Cong(x, c * b, B)
    ensures b % B == 1 || b % B == B - 1
  {
    EvenBase(0);
    ModSmall(1, B);
    if c == -1 {
      CongNeg(-b, 1, B);
      ModShift(-1, 1, B);
      ModSmall(B - 1, B);
    }
  }

  lemma EvenBase(k: int)
    ensures B >= 2 && (k * B) % 2 == 0
  {
    var h := Pow(2, DIGIT_BIT - 1);
    PowPos(2, DIGIT_BIT - 1);
    assert B == 2 * h;
    hide Pow;
    MulCommutes(2, h);
    MulAssoc(k, h, 2);
    DivExact(k * h, 2);
  }

  lemma {:induction false} EvenPower(b: int, e: nat)
    requires b % 2 == 0 && e > 0
    ensures Pow(b, e) % 2 == 0
  {
    var h := b / 2;
    NextPowerIs(b, e - 1);
    assert b * Pow(b, e - 1) == 2 * (h * Pow(b, e - 1)) by { MulAssoc(2, h, Pow(b, e - 1)); }
  }

  /** b is 1 or -1 modulo the digit base. */
  ghost predicate Unlucky(b: int) {
    b % B == 1 || b % B == B - 1
  }

  /** For any other base a spoiled modulus fails, as it should. */
  lemma SpoiledRound(b: int, n: nat)
    requires IsSpoiled(n) && !Unlucky(b)
    ensures n > 0 && !PassesRound(n, b) && !Strong(n, b)
  {
    hide IsSpoiled, Pow, IsModPower, DroppedPower, Unlucky;
    EvenModulus(n);
    SpoiledShape(n);
    DivModIdentity(n, B);
    var q := n / B;
    QuotientPositive(n, q);
    var y := DroppedPower(n, Residue(b, n), n - 1);
    PowerModuloBase(b, n - 1, n, q);
    NotUnlucky(b, n, q, y);
    SquaredStart(b, n - 1, n);
    DivModIdentity(Pow(b, n - 1), n);
    ResidueInB(b, n - 1, n, q);
    NotUnlucky(b, n, q, Pow(b, n - 1) % n);
  }

  lemma PowerModuloBase(b: int, e: nat, n: nat, q: nat)
    requires n > 0 && n == q * B
    ensures Cong(DroppedPower(n, Residue(b, n), e), Pow(b, e), B)
  {
    hide Pow, DroppedPower;
    DivExact(q, B);
    RightModuloBase(n, Residue(b, n), e);
    DividesIntro(B, n, q);
    ResidueKeeps(b, n, B);
    CongPow(Residue(b, n), b, e, B);
  }

  lemma QuotientPositive(n: nat, q: int)
    requires n == q * B + 0 && n > 0
    ensures q > 0
  {
    if q <= 0 {
      MulMono(q, 0, B);
    }
  }

  lemma ResidueInB(b: int, r: nat, n: nat, q: nat)
    requires n > 0 && n == q * B
    ensures Cong(Pow(b, r) % n, Pow(b, r), B)
  {
    hide Pow;
    DividesIntro(B, n, q);
    ResidueKeeps(Pow(b, r), n, B);
  }

  lemma NotUnlucky(b: int, n: nat, q: nat, y: int)
    requires n > 0 && q > 0 && n == q * B && !Unlucky(b) && Cong(y, Pow(b, n - 1), B)
    ensures y != 1 && y != n - 1
  {
    hide Pow;
    if y == 1 {
      NotOneModB(b, q, n - 1, 1);
    }
    if y == n - 1 {
      CongIntro(n - 1, -1, B, q);
      NotOneModB(b, q, n - 1, -1);
    }
  }

  /** Once the chain has reached 1 without -1 it stays there. */
  lemma OneTooLate(b: int, r: nat, j: nat, n: nat, s: nat)
    requires n > 2 && Squared(b, r, j, n) == 1
    requires forall i: nat :: i < j ==> Squared(b, r, i, n) != n - 1
    ensures forall i: nat :: Squared(b, r, i, n) != n - 1
  {
    forall i: nat
      ensures Squared(b, r, i, n) != n - 1
    {
      if i >= j {
        OnesStay(b, r, j, i, n);
      }
    }
  }

  lemma LastPower(b: int, r: nat, j: nat, n: nat, s: nat, y: nat, exact: bool)
    requires n > 0 && r == OddPart(n - 1) && s == Twos(n - 1) && 1 <= j <= Max(s, 1)
    requires !(j <= s - 1 && y != n - 1) && (exact ==> Undecided(b, r, j, n, y))
    ensures exact ==> (y == n - 1 <==> Strong(n, b))
  {
  }

  /** A number fails the round with a divisor for the base. */
  lemma DivisorFails(n: nat, b: nat)
    requires n > 0 && b >= 2 && Divides(b, n)
    ensures !Strong(n, b)
  {
    hide Squared;
    DivisorBound(b, n);
    OddPartIs(n - 1);
    var r := OddPart(n - 1);
    forall j: nat
      ensures Squared(b, r, j, n) != 1 && Squared(b, r, j, n) != n - 1
    {
      PowerStaysDivisible(n, b, r, j);
      NeitherOne(n, b, Squared(b, r, j, n));
    }
  }

  lemma PowerStaysDivisible(n: nat, b: nat, r: nat, j: nat)
    requires n > 0 && b >= 2 && Divides(b, n) && r > 0
    ensures Cong(Squared(b, r, j, n), 0, b)
  {
    PowPos(2, j);
    MulPos(r, Pow(2, j));
    var e: nat := r * Pow(2, j);
    NextPowerIs(b, e - 1);
    MulCommutes(b, Pow(b, e - 1));
    DividesIntro(b, Pow(b, e), Pow(b, e - 1));
    hide Pow;
    ResidueKeeps(Pow(b, e), n, b);
  }

  lemma NeitherOne(n: nat, b: nat, y: int)
    requires b >= 2 && Divides(b, n) && Cong(y, 0, b)
    ensures y != 1 && y != n - 1
  {
    ModSmall(1, b);
    ModSmall(0, b);
    if y == n - 1 {
      CongNeg(n - 1, 0, b);
      CongAdd(n, 0, 1 - n, 0, b);
      assert false;
    }
  }

  /** A modulus mp_exptmod gets wrong is even, and 2 is not an unlucky base for it. */
  lemma SpoiledIsEven(n: int)
    requires n > 0 && IsSpoiled(n)
    ensures n >= 2 && n % 2 == 0 && !Unlucky(2)
  {
    hide IsSpoiled;
    SpoiledShape(n);
    DivModIdentity(n, B);
    EvenBase(n / B);
    BaseAboveFour(n);
    ModSmall(2, B);
  }

  lemma BaseAboveFour(n: nat)
    requires IsSpoiled(n)
    ensures B >= 8
  {
    PowMonoExp(2, 3, DIGIT_BIT);
    assert Pow(2, 3) == 8;
  }
}
