/**
 Modular exponentiation: the choice of the reduction, and what comes out.
 */
module Exptmod {
  import opened Arith
  import opened Radix
  import opened MpInts
  import opened Bits
  import opened Divisibility
  import opened Montgomery
  import opened MontgomerySetup
  import opened ModulusForms
  import opened Reducers
  import opened DroppedPowers
  import opened SlidingWindow
  import Barrett

  /** A start value without a factor. */
  lemma PlainStart(g: int, n: nat, t: Track)
    requires n > 0 && t.m > 0 && Divides(t.m, n)
    ensures Rep(1, g, 0, t, 1) && 0 <= g % n < n && Rep(g % n, g, 1, t, 1) && InRange(1, n)
    ensures Cong(1 * 1, 1, t.m)
  {
    hide Cong, Divides;
    assert Pow(g, 0) == 1 && Pow(g, 1) == g;
    assert g * 1 == g;
    DivModIdentity(g, n);
    ResidueKeeps(g, n, t.m);
    CongSelf(1, t.m);
  }

  lemma CongSelf(v: int, m: nat)
    requires m > 0
    ensures Cong(v, v, m)
  {
  }

  lemma ResidueKeeps(g: int, n: nat, m: nat)
    requires n > 0 && m > 0 && Divides(m, n)
    ensures Cong(g % n, g, m)
  {
    DivModIdentity(g, n);
    var k := 0 - g / n;
    DividesMultiple(m, n, k);
    assert g % n == g + k * n by { assert (g / n) * n + k * n == 0; }
    CongAdd(g, g, k * n, 0, m);
  }

  /** A representative in range is the power itself, reduced. */
  lemma PlainEnd(v: nat, g: int, e: nat, n: nat, t: Track)
    requires t.m == n && Rep(v, g, e, t, 1) && v < n
    ensures v == Pow(g, e) % n
  {
    assert Pow(g, e) * 1 == Pow(g, e);
    ModSmall(v, n);
  }

  /** Only residues modulo m matter. */
  function ResidueTrack(m: nat): Track {
    Track(m, false, 0, 0)
  }

  /** Montgomery: R for 1 and g * R for g. */
  lemma FactorStart(g: int, one: nat, g1: nat, n: nat, R: nat)
    requires n > 0 && Cong(one, R, n) && Cong(g1, g * one, n)
    ensures Rep(one, g, 0, ResidueTrack(n), R) && Rep(g1, g, 1, ResidueTrack(n), R)
  {
    assert Pow(g, 0) == 1 && Pow(g, 1) == g;
    CongScale(one, R, g, n);
    MulCommutes(one, g);
    MulCommutes(R, g);
  }

  /** One more reduction takes the factor off. */
  lemma FactorEnd(v: nat, w: nat, g: int, e: nat, n: nat, R: nat, k: int)
    requires Rep(v, g, e, ResidueTrack(n), R) && Cong(R * k, 1, n) && Reduced(w, v, n, R, n)
    ensures w == Pow(g, e) % n
  {
    var p := Pow(g, e);
    CongScale(w * R, p * R, k, n);
    Cancel(w, R, k, n);
    Cancel(p, R, k, n);
    ModSmall(w, n);
  }

  /** The result mp_exptmod should have, except that nothing reduces the start value 1 modulo 1. */
  ghost predicate IsModPower(y: int, g: int, e: nat, n: nat)
    requires n > 0
  {
    y == if n == 1 && e == 0 then 1 else Pow(g, e) % n
  }

  /** mp_exptmod_fast with Montgomery reduction. */
  method ExptmodMontgomery(G: int, X: MpInt, n: MpInt) returns (err: Err, y: nat)
    requires X.Valid() && n.Valid() && !n.neg && n.Mag() > 1
    ensures err == Okay <==> n.Mag() % 2 == 1
    ensures err == Okay ==> IsModPower(y, G, X.Mag(), n.Mag())
  {
    y := 0;
    LowDigitParity(n);
    var rho;
    err, rho := MontgomerySetup.Setup(n);
    if err != Okay {
      return;
    }
    var a := new MpInt();
    CalcNormalization(a, n);
    DivModIdentity(G * a.Mag(), n.Mag());
    CongMod(G * a.Mag(), n.Mag());
    y := MontgomeryPower(G, X, n, rho, a.Mag(), (G * a.Mag()) % n.Mag());
  }

  method MontgomeryPower(G: int, X: MpInt, n: MpInt, rho: nat, one: nat, g1: nat) returns (y: nat)
    requires X.Valid() && n.Valid() && !n.neg && n.Mag() > 1 && n.used > 0 && IsRho(rho, n.dp[0])
    requires one < n.Mag() && Cong(one, P(n.used), n.Mag())
    requires g1 < n.Mag() && Cong(g1, G * one, n.Mag())
    ensures IsModPower(y, G, X.Mag(), n.Mag())
  {
    var red := Mont(rho);
    ghost var R := P(n.used);
    ghost var k := FactorInverse(red, n);
    FactorStart(G, one, g1, n.Mag(), R);
    var res := PowerWindow(red, n, one, g1, X, G, R, k, ResidueTrack(n.Mag()));
    MulMono(1, n.Mag(), n.Mag());
    y := Redux(red, n, res, n.Mag());
    FactorEnd(res, y, G, X.Mag(), n.Mag(), R, k);
  }

  lemma LowDigitParity(n: MpInt)
    requires n.Valid() && n.Mag() > 0
    ensures n.used > 0 && n.dp[0] % 2 == n.Mag() % 2
  {
    LowDigit(n);
    var k := CongElim(n.Mag(), n.dp[0], B);
    MulAssoc(k, B / 2, 2);
    ModShift(n.dp[0], k * (B / 2), 2);
  }

  /** mp_exptmod_fast and s_mp_exptmod with one of the reductions that keep the residue. */
  method ExptmodPlain(red: Reducer, G: int, X: MpInt, n: MpInt, ghost t: Track) returns (y: nat)
    requires X.Valid() && Ready(red, n, t.m) && !red.Mont?
    requires Tracks(red, n.Mag(), t) && (t.exact ==> t.base == G % n.Mag())
    ensures n.Loose() && n.Mag() > 0 && t.m > 0
    ensures InRange(y, n.Mag()) && Cong(y, Pow(G, X.Mag()), t.m)
    ensures Exactly(t, y, DroppedPower(t.n, t.base, X.Mag()))
    ensures t.m == n.Mag() ==> IsModPower(y, G, X.Mag(), n.Mag())
  {
    hide DroppedPower;
    PlainStart(G, n.Mag(), t);
    y := PowerWindow(red, n, 1, G % n.Mag(), X, G, 1, 1, t);
    assert Pow(G, X.Mag()) * 1 == Pow(G, X.Mag());
    if t.m == n.Mag() {
      if n.Mag() > 1 || X.Mag() > 0 {
        PlainEnd(y, G, X.Mag(), n.Mag(), t);
      } else {
        assert Pow(G, 0) == 1;
      }
    }
  }

  // ----- the moduli mp_reduce_2k serves wrongly

  function Residue(g: int, n: nat): (r: nat)
    requires n > 0
    ensures r < n
  {
    DivModIdentity(g, n);
    g % n
  }

  /** The result modulo a spoiled n: the power that dropping 2^p makes, which is right modulo B. */
  ghost predicate SpoiledOutcome(y: int, g: int, e: nat, n: nat)
    requires n > 0
  {
    0 <= y < n && Cong(y, Pow(g, e), B) && y == DroppedPower(n, Residue(g, n), e)
  }

  /** The result of mp_exptmod for a positive modulus and a non-negative exponent. */
  ghost predicate Outcome(y: int, g: int, e: nat, n: nat)
    requires n > 0
  {
    if IsSpoiled(n) then SpoiledOutcome(y, g, e, n) else IsModPower(y, g, e, n)
  }

  /** Modulo every spoiled n, the square of n - 1 comes out as 2 * B + 1 instead of 1. */
  lemma SpoiledSquare(n: nat, y: int)
    requires IsSpoiled(n)
    ensures n > 0 && Pow(n - 1, 2) % n == 1
    ensures Outcome(y, n - 1, 2, n) <==> y == 2 * B + 1
  {
    hide *;
    var w, c := SpoiledFactors(n);
    SquareBelow(n, w, c, B);
    SpoiledPowers(n, y);
  }

  lemma SpoiledFactors(n: nat) returns (w: nat, c: nat)
    requires IsSpoiled(n)
    ensures w >= 4 && B == w * c && n == (w - 1) * B
  {
    hide Pow;
    var j: nat :| 2 <= j < DIGIT_BIT && n == (Pow(2, j) - 1) * B;
    SplitBase(j);
    w, c := Pow(2, j), Pow(2, DIGIT_BIT - j);
  }

  lemma SplitBase(j: nat)
    requires 2 <= j < DIGIT_BIT
    ensures Pow(2, j) >= 4 && Pow(2, DIGIT_BIT - j) > 0 && B == Pow(2, j) * Pow(2, DIGIT_BIT - j)
  {
    PowAdd(2, j, DIGIT_BIT - j);
    PowPos(2, DIGIT_BIT - j);
    PowMonoExp(2, 2, j);
    assert Pow(2, 2) == 4;
  }

  lemma SquareBelow(n: nat, w: nat, c: nat, b: nat)
    requires w >= 4 && b >= 2 && b == w * c && n == (w - 1) * b
    ensures n >= 3 * b && (n - 1) % n == n - 1 && (n - 1) * (n - 1) >= 0 && ((n - 1) * (n - 1)) % n == 1
    ensures ((n - 1) * (n - 1)) % (n + b) == 2 * b + 1
    ensures ((n - 1) * (n - 1)) % b == 1
  {
    MulMono(3, w - 1, b);
    ModSmall(n - 1, n);
    MulPos(n - 1, n - 1);
    assert (n - 1) * (n - 1) == (n - 2) * n + 1;
    DivModUnique((n - 1) * (n - 1), n, n - 2, 1);
    DropsBelow(n, w, c, b);
    var k := w - 1;
    assert (n - 2) * (k * b) == ((n - 2) * k) * b by { MulAssoc(n - 2, k, b); }
    DivModUnique((n - 1) * (n - 1), b, (n - 2) * k, 1);
  }

  lemma DropsBelow(n: nat, w: nat, c: nat, b: nat)
    requires w >= 4 && b >= 2 && b == w * c && n == (w - 1) * b && n >= 3 * b
    ensures ((n - 1) * (n - 1)) % (n + b) == 2 * b + 1
  {
    var q := n + b;
    assert q == w * b by { assert (w - 1) * b == w * b - b; }
    assert b * b == c * q by { MulCommutes(w, c); MulAssoc(c, w, b); }
    assert n - 1 == q - (b + 1);
    SquareOfDifference(q, b + 1);
    assert (b + 1) * (b + 1) == b * b + 2 * b + 1;
    assert (q - 2 * (b + 1) + c) * q == (q - 2 * (b + 1)) * q + c * q by { Distribute(q - 2 * (b + 1), c, q); }
    DivModUnique((n - 1) * (n - 1), q, q - 2 * (b + 1) + c, 2 * b + 1);
  }

  lemma SquareOfDifference(q: int, z: int)
    ensures (q - z) * (q - z) == (q - 2 * z) * q + z * z
  {
    assert (q - z) * (q - z) == q * q - q * z - z * q + z * z;
    assert (q - 2 * z) * q == q * q - (2 * z) * q;
    assert (2 * z) * q == z * q + q * z;
  }

  lemma SpoiledPowers(n: nat, y: int)
    requires IsSpoiled(n) && n >= 3 * B && (n - 1) % n == n - 1 && (n - 1) * (n - 1) >= 0
    requires ((n - 1) * (n - 1)) % (n + B) == 2 * B + 1 && ((n - 1) * (n - 1)) % n == 1
    requires ((n - 1) * (n - 1)) % B == 1
    ensures Pow(n - 1, 2) % n == 1
    ensures Outcome(y, n - 1, 2, n) <==> y == 2 * B + 1
  {
    hide IsSpoiled, DroppedPower;
    assert Pow(n - 1, 1) == n - 1;
    assert Pow(n - 1, 2) == (n - 1) * (n - 1);
    hide Pow;
    FirstPowers(n, n - 1);
    ModShift(1, 2, B);
    ModSmall(1, B);
  }

  /** Modulo 1 the power with the exponent 0 comes out as 1 instead of 0. */
  lemma ModulusOne(y: int, g: int)
    ensures Outcome(y, g, 0, 1) <==> y == 1
    ensures Pow(g, 0) % 1 == 0
  {
    hide DroppedPower, Pow;
    if IsSpoiled(1) {
      SpoiledShape(1);
      assert false;
    }
  }

  /** Modulo a spoiled n the result is the power made by products that drop 2^p. */
  lemma SpoiledValue(y: int, g: int, e: nat, n: nat)
    requires n > 0 && IsSpoiled(n) && Outcome(y, g, e, n)
    ensures g % n >= 0 && y == DroppedPower(n, g % n, e)
  {
    hide IsSpoiled, DroppedPower;
  }

  /** What mp_exptmod promises holds for all bases and exponents exactly for the moduli above 1 that are not spoiled. */
  lemma RightExactly(n: nat)
    requires n > 0
    ensures (forall y: int, g: int, e: nat :: Outcome(y, g, e, n) ==> y == Pow(g, e) % n) <==> n > 1 && !IsSpoiled(n)
  {
    hide IsSpoiled, DroppedPower;
    if IsSpoiled(n) {
      SpoiledSquare(n, 2 * B + 1);
      assert Outcome(2 * B + 1, n - 1, 2, n);
    } else if n == 1 {
      ModulusOne(1, 0);
      assert Outcome(1, 0, 0, n);
    }
  }

  // ----- choosing the reduction

  /** mp_exptmod for a non-negative exponent: Y = G^X mod n, unless n is spoiled. */
  method Exptmod(G: int, X: MpInt, n: MpInt) returns (err: Err, y: nat)
    requires X.Valid() && n.Valid() && !X.neg
    ensures err == Okay <==> n.Value() > 0
    ensures n.Value() > 0 ==> Outcome(y, G, X.Mag(), n.Mag())
  {
    hide IsModPower, SpoiledOutcome, IsTwoK, TwoKFits, Outcome;
    y := 0;
    ModulusCase(n);
    if n.neg || n.used == 0 {
      return Val, y;
    }
    err := Okay;
    var is2kL := ReduceIs2kL(n);
    if is2kL {
      y := ExptmodTwoKL(G, X, n);
      RightOutcome(y, G, X.Mag(), n);
      return;
    }
    var dr := DrIsModulus(n);
    if dr {
      DRIsTwoKL(n.dp, n.used);
      assert false;
    }
    var is2k := ReduceIs2k(n);
    if is2k {
      y := ExptmodTwoK(G, X, n);
      if TwoKFits(n.Mag()) {
        RightOutcome(y, G, X.Mag(), n);
      } else {
        WrongOutcome(y, G, X.Mag(), n);
      }
    } else if n.dp[0] % 2 == 1 {
      err, y := ExptmodMontgomery(G, X, n);
      RightOutcome(y, G, X.Mag(), n);
    } else {
      y := ExptmodBarrett(G, X, n);
      RightOutcome(y, G, X.Mag(), n);
    }
  }

  lemma RightOutcome(y: nat, g: int, e: nat, n: MpInt)
    requires n.Valid() && n.Mag() > 0 && IsModPower(y, g, e, n.Mag())
    requires IsTwoKL(n.dp, n.used) || !IsTwoK(n.Mag()) || TwoKFits(n.Mag())
    ensures Outcome(y, g, e, n.Mag())
  {
    hide IsSpoiled, IsModPower, SpoiledOutcome, IsTwoK, IsTwoKL, TwoKFits;
    SpoiledModuli(n);
  }

  lemma WrongOutcome(y: nat, g: int, e: nat, n: MpInt)
    requires n.Valid() && n.Mag() > 0 && SpoiledOutcome(y, g, e, n.Mag())
    requires !IsTwoKL(n.dp, n.used) && IsTwoK(n.Mag()) && !TwoKFits(n.Mag())
    ensures Outcome(y, g, e, n.Mag())
  {
    hide IsSpoiled, IsModPower, SpoiledOutcome, IsTwoK, IsTwoKL, TwoKFits;
    SpoiledModuli(n);
  }

  lemma ModulusCase(n: MpInt)
    requires n.Valid()
    ensures n.Value() > 0 <==> !n.neg && n.used > 0
    ensures n.used > 0 ==> n.Mag() > 0 && n.dp[0] % 2 == n.Mag() % 2
    ensures n.used > 1 ==> n.Mag() > 1
    ensures n.used == Used(n.Mag())
  {
    n.UsedIsLength();
    if n.used > 0 {
      n.TopIsPositive();
      LowDigitParity(n);
      PZero();
      PMono(1, if n.used > 1 then n.used - 1 else 1);
    }
  }

  method ExptmodTwoKL(G: int, X: MpInt, n: MpInt) returns (y: nat)
    requires X.Valid() && n.Valid() && !n.neg && n.Mag() > 0
    ensures IsModPower(y, G, X.Mag(), n.Mag())
  {
    hide IsModPower, IsRho;
    var len := CountBits(n);
    BitLengthBounds(n.Mag());
    var base := Pow(2, len);
    CongIntro(base, base - n.Mag(), n.Mag(), 1);
    y := ExptmodPlain(TwoK(base, base - n.Mag()), G, X, n, ResidueTrack(n.Mag()));
  }

  /** mp_reduce_2k. For a spoiled modulus the digit kept is 0. */
  method ExptmodTwoK(G: int, X: MpInt, n: MpInt) returns (y: nat)
    requires X.Valid() && n.Valid() && !n.neg && n.used > 1 && IsTwoK(n.Mag())
    ensures n.Mag() > 0
    ensures if TwoKFits(n.Mag()) then IsModPower(y, G, X.Mag(), n.Mag()) else SpoiledOutcome(y, G, X.Mag(), n.Mag())
  {
    hide *;
    Lengths(n);
    var len := CountBits(n);
    PowPos(2, len);
    var base, d := Pow(2, len), TwoKDigit(n.Mag());
    TwoKReady(n, G, base, d);
    ghost var t := TwoKTrack(n.Mag(), G);
    Lengths(X);
    y := ExptmodPlain(TwoK(base, d), G, X, n, t);
    PowerKept(y, X.Mag(), t);
    TwoKEnd(y, G, X.Mag(), n.Mag());
  }

  ghost function TwoKTrack(n: nat, g: int): Track
    requires n > 0
  {
    if TwoKFits(n) then ResidueTrack(n) else Track(B, true, n, Residue(g, n))
  }

  /** Folding by 2^p keeps the residue modulo n; dropping it keeps the one modulo B. */
  lemma TwoKTracks(n: nat, g: int, base: nat, d: nat)
    requires Used(n) > 1 && IsTwoK(n) && base == Pow(2, BitLength(n)) && d == TwoKDigit(n)
    ensures 1 < n <= base && d < base
    ensures var t := TwoKTrack(n, g);
      t.m > 0 && Divides(t.m, n) && Cong(base, d, t.m) && Tracks(TwoK(base, d), n, t) && (t.exact ==> t.base == g % n)
  {
    hide *;
    MoreThanOneDigit(n);
    DigitBelowBase(n);
    if TwoKFits(n) {
      TwoKSetupIsRight(n);
      FittingTrack(n, g, base, d);
    } else {
      LostDistance(n);
      LosingTrack(n, g, base, d);
    }
  }

  lemma MoreThanOneDigit(n: nat)
    requires Used(n) > 1
    ensures 1 < n <= Pow(2, BitLength(n))
  {
    BitLengthBounds(n);
    UsedBounds(n);
    PZero();
    PMono(1, Used(n) - 1);
  }

  lemma FittingTrack(n: nat, g: int, base: nat, d: nat)
    requires 1 < n <= base && d < base && TwoKFits(n) && Cong(base, d, n)
    ensures var t := TwoKTrack(n, g);
      t.m > 0 && Divides(t.m, n) && Cong(base, d, t.m) && Tracks(TwoK(base, d), n, t) && (t.exact ==> t.base == g % n)
  {
    hide Folded;
    CongIntro(n, 0, n, 1);
  }

  lemma LosingTrack(n: nat, g: int, base: nat, d: nat)
    requires !TwoKFits(n) && n >= 2 * B && d == 0 && base == n + B
    ensures var t := TwoKTrack(n, g);
      t.m > 0 && Divides(t.m, n) && Cong(base, d, t.m) && Tracks(TwoK(base, d), n, t) && (t.exact ==> t.base == g % n)
  {
    hide Folded;
    DivModIdentity(n, B);
    CongIntro(n, 0, B, n / B);
    CongIntro(base, 0, B, n / B + 1);
  }

  lemma TwoKReady(n: MpInt, g: int, base: nat, d: nat)
    requires n.Valid() && !n.neg && n.used > 1 && IsTwoK(n.Mag())
    requires base == Pow(2, BitLength(n.Mag())) && d == TwoKDigit(n.Mag())
    ensures n.Loose() && n.Mag() > 0
    ensures var t := TwoKTrack(n.Mag(), g);
      Ready(TwoK(base, d), n, t.m) && Tracks(TwoK(base, d), n.Mag(), t) && (t.exact ==> t.base == g % n.Mag())
  {
    hide Used, BitLength, Pow, IsTwoK, TwoKDigit, Folded, Tracks, TwoKTrack;
    n.UsedIsLength();
    TwoKTracks(n.Mag(), g, base, d);
  }

  ghost predicate KeptPower(y: nat, e: nat, t: Track) {
    Exactly(t, y, DroppedPower(t.n, t.base, e))
  }

  lemma PowerKept(y: nat, e: nat, t: Track)
    requires Exactly(t, y, DroppedPower(t.n, t.base, e))
    ensures KeptPower(y, e, t)
  {
    hide DroppedPower;
  }

  lemma TwoKEnd(y: nat, g: int, e: nat, n: nat)
    requires n > 0 && Used(n) > 1 && IsTwoK(n)
    requires InRange(y, n) && Cong(y, Pow(g, e), TwoKTrack(n, g).m) && KeptPower(y, e, TwoKTrack(n, g))
    requires TwoKTrack(n, g).m == n ==> IsModPower(y, g, e, n)
    ensures if TwoKFits(n) then IsModPower(y, g, e, n) else SpoiledOutcome(y, g, e, n)
  {
    hide Used, BitLength, Pow, IsTwoK, TwoKDigit, Folded, TwoKFits, SpoiledOutcome, IsModPower, InRange, KeptPower;
    if !TwoKFits(n) {
      SpoiledEnd(y, g, e, n);
    }
  }

  lemma SpoiledEnd(y: nat, g: int, e: nat, n: nat)
    requires n > 0 && Used(n) > 1 && IsTwoK(n) && !TwoKFits(n)
    requires InRange(y, n) && Cong(y, Pow(g, e), B) && KeptPower(y, e, TwoKTrack(n, g))
    ensures SpoiledOutcome(y, g, e, n)
  {
    hide Used, BitLength, Pow, IsTwoK, TwoKDigit, Folded, DroppedPower;
    LostDistance(n);
  }

  method ExptmodBarrett(G: int, X: MpInt, n: MpInt) returns (y: nat)
    requires X.Valid() && n.Valid() && !n.neg && n.Mag() > 1
    ensures IsModPower(y, G, X.Mag(), n.Mag())
  {
    hide IsModPower, IsRho;
    var mu := new MpInt();
    Barrett.Setup(mu, n);
    y := ExptmodPlain(Barr(mu), G, X, n, ResidueTrack(n.Mag()));
  }
}
