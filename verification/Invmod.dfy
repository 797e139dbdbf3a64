/**
 Modular inverses by binary extended Euclid: with all four coefficients, and with
 two of them for an odd modulus. Temporaries are modelled by their values.
 */
module Invmod {
  import opened Arith
  import opened Radix
  import opened MpInts
  import opened Bits
  import opened Divisibility
  import opened Division

  /** Every common divisor of u and v divides x and y. */
  ghost predicate Common(u: int, v: int, x: int, y: int) {
    forall e: int :: e > 0 && Divides(e, u) && Divides(e, v) ==> Divides(e, x) && Divides(e, y)
  }

  lemma CommonHalf(u: int, h: int, v: int, x: int, y: int)
    requires u == 2 * h && Common(u, v, x, y)
    ensures Common(h, v, x, y)
  {
    forall e: int | e > 0 && Divides(e, h) && Divides(e, v)
      ensures Divides(e, x) && Divides(e, y)
    {
      DividesMultiple(e, h, 2);
    }
  }

  lemma CommonSwap(u: int, v: int, x: int, y: int)
    requires Common(u, v, x, y)
    ensures Common(v, u, x, y)
  {
  }

  lemma CommonDifference(u: int, v: int, x: int, y: int)
    requires Common(u, v, x, y)
    ensures Common(u - v, v, x, y)
  {
    forall e: int | e > 0 && Divides(e, u - v) && Divides(e, v)
      ensures Divides(e, x) && Divides(e, y)
    {
      DividesSum(e, u - v, v);
    }
  }

  /** At the end u is 0: v itself divides x and y. */
  lemma CommonEnd(v: int, x: int, y: int)
    requires v > 1 && Common(0, v, x, y)
    ensures !Coprime(x, y)
  {
    DividesIntro(v, 0, 0);
    DividesIntro(v, v, 1);
  }

  // ----- the small operations

  /** mp_div_2, truncating. */
  function Half(v: int): int {
    if v < 0 then -(-v / 2) else v / 2
  }

  /** mp_iseven, which is false of zero. */
  predicate IsEven(v: int) {
    v != 0 && v % 2 == 0
  }

  /** mp_isodd */
  predicate IsOdd(v: int) {
    v % 2 == 1
  }

  lemma HalfExact(v: int)
    requires v % 2 == 0
    ensures v == 2 * Half(v)
  {
  }

  /** mp_mod: the truncated remainder, moved into the range of the modulus. */
  function Mod(a: int, b: int): int
    requires b != 0
  {
    var t := Remainder(a, b);
    if t == 0 || (t < 0) == (b < 0) then t else b + t
  }

  lemma ModIsMod(a: int, b: int)
    requires b > 0
    ensures Mod(a, b) == a % b
  {
    DivisionLaw(a, b);
    var q, t := Quotient(a, b), Remainder(a, b);
    if t < 0 {
      CountUp(q - 1, b);
      DivModUnique(a, b, q - 1, t + b);
    } else {
      DivModUnique(a, b, q, t);
    }
  }

  /** u without its factors of two. */
  function OddPart(u: nat): nat {
    if IsEven(u) then OddPart(u / 2) else u
  }

  lemma {:induction false} OddPartIs(u: nat)
    ensures OddPart(u) <= u && (u > 0 ==> OddPart(u) % 2 == 1)
  {
    if IsEven(u) {
      OddPartIs(u / 2);
    }
  }

  /** The odd part of an odd number times a power of two. */
  lemma {:induction false} OddTimesPower(u: nat, k: nat)
    requires u % 2 == 1
    ensures u * Pow(2, k) >= 0 && OddPart(u * Pow(2, k)) == u
  {
    hide Pow, OddPart;
    PowPos(2, k);
    MulPos(u, Pow(2, k));
    if k == 0 {
      TimesUnit(u);
    } else {
      PowPos(2, k - 1);
      MulPos(u, Pow(2, k - 1));
      OddTimesPower(u, k - 1);
      TimesTwo(u, k);
    }
  }

  lemma TimesUnit(u: nat)
    requires u % 2 == 1
    ensures u * Pow(2, 0) == u && OddPart(u) == u
  {
    assert Pow(2, 0) == 1;
  }

  lemma TimesTwo(u: nat, k: nat)
    requires k > 0 && u > 0 && u * Pow(2, k) >= 0 && u * Pow(2, k - 1) >= 0
    ensures OddPart(u * Pow(2, k)) == OddPart(u * Pow(2, k - 1))
  {
    var w: nat := u * Pow(2, k - 1);
    PowPos(2, k - 1);
    MulPos(u, Pow(2, k - 1));
    MulAssoc(u, Pow(2, k - 1), 2);
    MulCommutes(Pow(2, k - 1), 2);
    assert u * Pow(2, k) == w * 2;
    assert (w * 2) / 2 == w && (w * 2) % 2 == 0;
  }

  /** A number is a power of two exactly if its odd part is 1. */
  lemma PowerOfTwoOddPart(u: nat)
    ensures OddPart(u) == 1 <==> exists k: nat :: u == Pow(2, k)
  {
    if OddPart(u) == 1 {
      var k := OddPartTimes(u);
      assert u == Pow(2, k);
    }
    if k: nat :| u == Pow(2, k) {
      OddTimesPower(1, k);
      assert 1 * Pow(2, k) == u;
    }
  }

  lemma {:induction false} OddPartTimes(u: nat) returns (k: nat)
    ensures u == OddPart(u) * Pow(2, k)
  {
    if IsEven(u) {
      k := OddPartTimes(u / 2);
      MulAssoc(OddPart(u), Pow(2, k), 2);
      MulCommutes(Pow(2, k), 2);
      k := k + 1;
    } else {
      k := 0;
    }
  }

  // ----- parities

  lemma ParityProduct(a: int, b: int)
    ensures (a * b) % 2 == (a % 2) * (b % 2)
  {
    var k, l := a / 2, b / 2;
    DivModIdentity(a, 2);
    DivModIdentity(b, 2);
    var r, s := a % 2, b % 2;
    assert a * b == r * s + (2 * k * l + k * s + r * l) * 2 by {
      assert (k * 2 + r) * (l * 2 + s) == k * 2 * (l * 2) + k * 2 * s + r * (l * 2) + r * s;
    }
    ModShift(r * s, 2 * k * l + k * s + r * l, 2);
    assert r * s == 0 || r * s == 1;
  }

  lemma ParitySum(a: int, b: int)
    ensures (a + b) % 2 == 0 <==> a % 2 == b % 2
  {
  }

  /** When u == A*x + B*y is even and x, y are not both even, the adjusted coefficients are. */
  lemma Adjusted(A: int, B: int, x: int, y: int)
    requires (A * x + B * y) % 2 == 0 && (x % 2 == 1 || y % 2 == 1)
    ensures IsOdd(A) || IsOdd(B) ==> (A + y) % 2 == 0 && (B - x) % 2 == 0
  {
    ParityProduct(A, x);
    ParityProduct(B, y);
    ParitySum(A * x, B * y);
    ParitySum(A, y);
    ParitySum(B, -x);
  }

  lemma AdjustedValue(A: int, B: int, x: int, y: int)
    ensures (A + y) * x + (B - x) * y == A * x + B * y
  {
    assert (A + y) * x == A * x + y * x && (B - x) * y == B * y - x * y;
    MulCommutes(x, y);
  }

  /** Halving u and its coefficients keeps u == A*x + B*y exactly. */
  lemma HalvingStep(u: int, A: int, B: int, x: int, y: int)
    requires u % 2 == 0 && u == A * x + B * y && (x % 2 == 1 || y % 2 == 1)
    ensures var A' := if IsOdd(A) || IsOdd(B) then A + y else A;
            var B' := if IsOdd(A) || IsOdd(B) then B - x else B;
      && A' == 2 * Half(A') && B' == 2 * Half(B')
      && Half(u) == Half(A') * x + Half(B') * y
  {
    Adjusted(A, B, x, y);
    var odd := IsOdd(A) || IsOdd(B);
    var A', B' := if odd then A + y else A, if odd then B - x else B;
    HalfExact(u);
    HalfExact(A');
    HalfExact(B');
    AdjustedValue(A, B, x, y);
    assert (2 * Half(A')) * x == 2 * (Half(A') * x) && (2 * Half(B')) * y == 2 * (Half(B') * y);
  }

  // ----- four coefficients

  /** Steps 4 and 5: all factors of two leave u, the coefficients follow. */
  function Halve4(u: nat, A: int, B: int, x: int, y: int): (r: (nat, int, int))
    ensures r.0 == OddPart(u)
  {
    if IsEven(u) then
      var odd := IsOdd(A) || IsOdd(B);
      Halve4(u / 2, Half(if odd then A + y else A), Half(if odd then B - x else B), x, y)
    else (u, A, B)
  }

  lemma {:induction false} Halve4Keeps(u: nat, A: int, B: int, x: int, y: int, v: int)
    requires u == A * x + B * y && (x % 2 == 1 || y % 2 == 1) && Common(u, v, x, y)
    ensures var r := Halve4(u, A, B, x, y);
      r.0 == r.1 * x + r.2 * y && Common(r.0, v, x, y)
  {
    if IsEven(u) {
      HalvingStep(u, A, B, x, y);
      CommonHalf(u, u / 2, v, x, y);
      var odd := IsOdd(A) || IsOdd(B);
      Halve4Keeps(u / 2, Half(if odd then A + y else A), Half(if odd then B - x else B), x, y, v);
    }
  }

  /** The loop between top and the exit test: the last v and its coefficient C. */
  function Loop4(u: nat, v: nat, A: int, B: int, C: int, D: int, x: int, y: int): (nat, int)
    requires v > 0
    decreases u + v
  {
    OddPartIs(u);
    OddPartIs(v);
    var (u1, A1, B1) := Halve4(u, A, B, x, y);
    var (v1, C1, D1) := Halve4(v, C, D, x, y);
    if u1 >= v1 then
      if u1 == v1 then (v1, C1) else Loop4(u1 - v1, v1, A1 - C1, B1 - D1, C1, D1, x, y)
    else if u1 == 0 then (v1, C1 - A1)
    else Loop4(u1, v1 - u1, A1, B1, C1 - A1, D1 - B1, x, y)
  }

  /** The loop ends with v == C*x modulo y, and v is a common divisor of x and y. */
  lemma {:induction false} Loop4Correct(u: nat, v: nat, A: int, B: int, C: int, D: int, x: int, y: int)
    returns (t: int)
    requires u > 0 && v > 0 && (x % 2 == 1 || y % 2 == 1)
    requires u == A * x + B * y && v == C * x + D * y && Common(u, v, x, y)
    ensures var r := Loop4(u, v, A, B, C, D, x, y);
      r.0 > 0 && r.0 == r.1 * x + t * y && Common(0, r.0, x, y)
    decreases u + v
  {
    hide Common, Halve4, OddPart;
    OddPartIs(u);
    OddPartIs(v);
    Halved4(u, v, A, B, C, D, x, y);
    var (u1, A1, B1) := Halve4(u, A, B, x, y);
    var (v1, C1, D1) := Halve4(v, C, D, x, y);
    if u1 >= v1 {
      CommonDifference(u1, v1, x, y);
      Subtract4(A1, B1, C1, D1, x, y);
      if u1 == v1 {
        t := D1;
      } else {
        t := Loop4Correct(u1 - v1, v1, A1 - C1, B1 - D1, C1, D1, x, y);
      }
    } else {
      CommonSwap(u1, v1, x, y);
      CommonDifference(v1, u1, x, y);
      CommonSwap(v1 - u1, u1, x, y);
      Subtract4(C1, D1, A1, B1, x, y);
      t := Loop4Correct(u1, v1 - u1, A1, B1, C1 - A1, D1 - B1, x, y);
    }
  }

  /** Both halving loops keep what the comparison needs. */
  lemma Halved4(u: nat, v: nat, A: int, B: int, C: int, D: int, x: int, y: int)
    requires u > 0 && v > 0 && (x % 2 == 1 || y % 2 == 1)
    requires u == A * x + B * y && v == C * x + D * y && Common(u, v, x, y)
    ensures var (u1, A1, B1), (v1, C1, D1) := Halve4(u, A, B, x, y), Halve4(v, C, D, x, y);
      && u1 == OddPart(u) && v1 == OddPart(v) && Common(u1, v1, x, y)
      && u1 == A1 * x + B1 * y && v1 == C1 * x + D1 * y
  {
    hide Common, Halve4, OddPart;
    Halve4Keeps(u, A, B, x, y, v);
    var u1 := Halve4(u, A, B, x, y).0;
    CommonSwap(u1, v, x, y);
    Halve4Keeps(v, C, D, x, y, u1);
    CommonSwap(Halve4(v, C, D, x, y).0, u1, x, y);
  }

  lemma Subtract4(A: int, B: int, C: int, D: int, x: int, y: int)
    ensures (A - C) * x + (B - D) * y == A * x + B * y - (C * x + D * y)
  {
  }

  /** The value mp_invmod_slow leaves in C, before it is brought into range. */
  function SlowResult(a: int, b: int): (nat, int)
    requires b > 0
  {
    DivModIdentity(a, b);
    Loop4(a % b, b, 1, 0, 0, 1, a % b, b)
  }

  /** With a not a multiple of b: v == 1 exactly when a and b are coprime, and then C is an inverse. */
  lemma SlowCorrect(a: int, b: int)
    requires b > 0 && a % b != 0 && (a % b % 2 == 1 || b % 2 == 1)
    ensures SlowResult(a, b).0 == 1 <==> Coprime(a, b)
    ensures SlowResult(a, b).0 == 1 ==> Cong(a * SlowResult(a, b).1, 1, b)
  {
    var x := a % b;
    DivModIdentity(a, b);
    CongMod(a, b);
    var t := Loop4Correct(x, b, 1, 0, 0, 1, x, b);
    var (v, C) := SlowResult(a, b);
    Ending(a, x, b, v, C, t);
  }

  /** What the exit test on v means. */
  lemma Ending(a: int, x: int, b: int, v: nat, C: int, t: int)
    requires b > 0 && Cong(x, a, b) && v > 0 && v == C * x + t * b && Common(0, v, x, b)
    ensures v == 1 <==> Coprime(a, b)
    ensures v == 1 ==> Cong(a * C, 1, b)
  {
    if v == 1 {
      BezoutCoprime(x, b, C, t);
      CoprimeMod(x, a, b);
      CongScale(x, a, C, b);
      MulCommutes(C, x);
      CongIntro(x * C, 1, b, -t);
    } else {
      CommonEnd(v, x, b);
      if Coprime(a, b) {
        CoprimeMod(a, x, b);
      }
    }
  }

  /** Both x and b even: no inverse. */
  lemma BothEven(a: int, b: int)
    requires b > 0 && a % b % 2 == 0 && b % 2 == 0
    ensures !Coprime(a, b)
  {
    DivModIdentity(a, b);
    DividesMultiple(2, b, a / b) by { ModSmall(0, 2); }
    ModSmall(0, 2);
    assert Divides(2, a % b) && Divides(2, b);
    DividesSum(2, a % b, (a / b) * b);
    assert Divides(2, a);
  }

  /** One of the two halving loops of mp_invmod_slow. */
  method HalvingLoop4(u0: nat, A0: int, B0: int, x: int, y: int) returns (u: nat, A: int, B: int)
    ensures (u, A, B) == Halve4(u0, A0, B0, x, y)
  {
    u, A, B := u0, A0, B0;
    while IsEven(u)
      invariant Halve4(u, A, B, x, y) == Halve4(u0, A0, B0, x, y)
      decreases u
    {
      u := u / 2;
      if IsOdd(A) || IsOdd(B) {
        A := A + y;
        B := B - x;
      }
      A := Half(A);
      B := Half(B);
    }
  }

  /** Adding or subtracting b until the number is in [0, b). */
  method IntoRange(C0: int, b: nat) returns (C: int)
    requires b > 0
    ensures 0 <= C < b && Cong(C, C0, b)
  {
    C := C0;
    while C < 0
      invariant Cong(C, C0, b)
      decreases -C
    {
      CongIntro(C + b, C, b, 1);
      C := C + b;
    }
    while Abs(C) >= b
      invariant 0 <= C && Cong(C, C0, b)
    {
      CongIntro(C - b, C, b, -1);
      C := C - b;
    }
  }

  /** Whether mp_invmod_slow reports success. */
  ghost predicate SlowSucceeds(a: int, b: int)
    requires b > 0
  {
    if a % b == 0 then OddPart(b) == 1 else Coprime(a, b)
  }

  /** mp_invmod_slow */
  method InvmodSlow(a: MpInt, b: MpInt, c: MpInt) returns (err: Err)
    requires a.Valid() && b.Valid() && c.Valid()
    modifies c
    ensures err == Okay <==> old(b.Value()) > 0 && SlowSucceeds(old(a.Value()), old(b.Value()))
    ensures err == Val ==> unchanged(c)
    ensures err == Okay ==> c.Valid() && 0 <= c.Value() < old(b.Value())
    ensures err == Okay ==> Cong(c.Value(), SlowResult(old(a.Value()), old(b.Value())).1, old(b.Value()))
    ensures err == Okay && old(a.Value()) % old(b.Value()) != 0 ==>
              Cong(old(a.Value()) * c.Value(), 1, old(b.Value()))
  {
    SignsAgree(b);
    if b.neg || b.Mag() == 0 {
      return Val;
    }
    ghost var va, vb := a.Value(), b.Value();
    ModIsMod(a.Value(), b.Value());
    DivModIdentity(a.Value(), b.Value());
    var x: nat, y: nat := Mod(a.Value(), b.Value()), b.Mag();
    if IsEven(x) && IsEven(y) {
      BothEven(va, vb);
      return Val;
    }
    var v, C := SlowLoop(x, y);
    SlowOutcome(va, vb);
    if v != 1 {
      return Val;
    }
    var C1 := IntoRange(C, y);
    CongScale(C1, C, va, vb);
    MulCommutes(C1, va);
    MulCommutes(C, va);
    c.neg := false;
    c.StoreMag(C1);
    err := Okay;
  }

  /** The outcome of the loop, a multiple of b included. */
  lemma SlowOutcome(a: int, b: int)
    requires b > 0 && !(IsEven(a % b) && IsEven(b))
    ensures SlowResult(a, b).0 == 1 <==> SlowSucceeds(a, b)
    ensures SlowResult(a, b).0 == 1 && a % b != 0 ==> Cong(a * SlowResult(a, b).1, 1, b)
  {
    DivModIdentity(a, b);
    if a % b == 0 {
      OddPartIs(b);
      OddPartIs(0);
    } else {
      SlowCorrect(a, b);
    }
  }

  /** The main loop of mp_invmod_slow. */
  method SlowLoop(x: nat, y: nat) returns (v: nat, C: int)
    requires y > 0
    ensures (v, C) == Loop4(x, y, 1, 0, 0, 1, x, y)
  {
    var u: nat, A: int, B: int, D: int := x, 1, 0, 1;
    v, C := y, 0;
    hide Halve4, OddPart;
    var done := false;
    while !done
      invariant v > 0
      invariant !done ==> Loop4(u, v, A, B, C, D, x, y) == Loop4(x, y, 1, 0, 0, 1, x, y)
      invariant done ==> (v, C) == Loop4(x, y, 1, 0, 0, 1, x, y)
      decreases !done, u + v
    {
      OddPartIs(u);
      OddPartIs(v);
      u, A, B := HalvingLoop4(u, A, B, x, y);
      v, C, D := HalvingLoop4(v, C, D, x, y);
      if u >= v {
        u, A, B := u - v, A - C, B - D;
      } else {
        v, C, D := v - u, C - A, D - B;
      }
      done := u == 0;
    }
  }

  /** The routine's verdict is right exactly when it is not asked to invert a multiple of a larger power of two. */
  lemma SlowVerdict(a: int, b: int)
    requires b > 0
    ensures (SlowSucceeds(a, b) <==> Coprime(a, b)) <==> !(b > 1 && a % b == 0 && OddPart(b) == 1)
  {
    if a % b == 0 {
      DivModIdentity(a, b);
      if b > 1 {
        DividesIntro(b, a, a / b);
        DividesIntro(b, b, 1);
        assert !Coprime(a, b);
      } else {
        OnlyOne(a);
      }
    }
  }

  lemma OnlyOne(a: int)
    ensures Coprime(a, 1) && OddPart(1) == 1
  {
    forall e: int | e > 1 && Divides(e, a)
      ensures !Divides(e, 1)
    {
      ModSmall(1, e);
      ModSmall(0, e);
    }
  }

  /** Such a case: 0 is reported to be the inverse of 4 modulo 4. */
  lemma FalseInverse()
    ensures SlowSucceeds(4, 4) && !Coprime(4, 4) && SlowResult(4, 4) == (1, 0)
  {
    SlowVerdict(4, 4);
    assert OddPart(4) == 1;
  }

  // ----- two coefficients

  lemma HalfCong(h: int, k: int, n: int)
    requires n > 0 && n % 2 == 1 && Cong(2 * h, 2 * k, n)
    ensures Cong(h, k, n)
  {
    var m := n / 2;
    CongScale(2 * h, 2 * k, m + 1, n);
    assert 2 * h * (m + 1) == h + h * n && 2 * k * (m + 1) == k + k * n by { TwiceHalf(h, m, n); TwiceHalf(k, m, n); }
    CongIntro(h + h * n, h, n, h);
    CongIntro(k + k * n, k, n, k);
  }

  lemma TwiceHalf(h: int, m: int, n: int)
    requires n == 2 * m + 1
    ensures 2 * h * (m + 1) == h + h * n
  {
    assert h * n == h * (2 * m) + h;
    assert h * (2 * m) == 2 * h * m;
  }

  /** For odd x, halving u together with its coefficient keeps u == B*y modulo x. */
  lemma HalvingStep2(u: int, B: int, x: int, y: int)
    requires u % 2 == 0 && x > 0 && x % 2 == 1 && Cong(u, B * y, x)
    ensures Cong(Half(u), Halved(B, x) * y, x)
  {
    var B' := if IsOdd(B) then B - x else B;
    HalfExact(u);
    HalfExact(B');
    assert (B - x) * y == B * y - x * y;
    MulCommutes(x, y);
    CongIntro((B - x) * y, B * y, x, -y);
    assert Cong(u, B' * y, x);
    assert (2 * Half(B')) * y == 2 * (Half(B') * y);
    HalfCong(Half(u), Half(B') * y, x);
  }

  /** What a halving of u makes of its coefficient. */
  function Halved(B: int, x: int): int {
    Half(if IsOdd(B) then B - x else B)
  }

  function Halve2(u: int, B: int, x: int): (r: (int, int))
    ensures u >= 0 ==> r.0 == OddPart(u)
    ensures u < 0 ==> u <= r.0 < 0
    decreases Abs(u)
  {
    if IsEven(u) then Halve2(u / 2, Halved(B, x), x) else (u, B)
  }

  /** All i factors of two leave u, and B becomes (B - m * x) / 2^i for the m below 2^i that makes it even enough. */
  lemma {:induction false} Halve2Means(u: int, B: int, x: int) returns (i: nat, m: nat)
    requires x % 2 == 1 && u != 0
    ensures var r := Halve2(u, B, x);
      u == r.0 * Pow(2, i) && r.0 % 2 == 1 && B - m * x == r.1 * Pow(2, i) && m < Pow(2, i)
    decreases Abs(u)
  {
    hide OddPart, Halved;
    var r := Halve2(u, B, x);
    if IsEven(u) {
      i, m := Halve2Means(u / 2, Halved(B, x), x);
      var p := Pow(2, i);
      assert Pow(2, i + 1) == 2 * p;
      hide *;
      HalvedIs(B, x);
      var odd := if 2 * Halved(B, x) == B then 0 else 1;
      TwiceProduct(r.0, p);
      HalvedOnce(B, Halved(B, x), x, odd, m, r.1, p);
      i, m := i + 1, 2 * m + odd;
    } else {
      i, m := 0, 0;
      assert Pow(2, 0) == 1;
      assert r.0 * 1 == u && r.1 * 1 == B && 0 * x == 0;
    }
  }

  lemma HalvedIs(B: int, x: int)
    requires x % 2 == 1
    ensures 2 * Halved(B, x) == B || 2 * Halved(B, x) == B - x
  {
    HalfExact(if IsOdd(B) then B - x else B);
  }

  lemma HalvedOnce(B: int, h: int, x: int, odd: int, m: int, r: int, p: int)
    requires (odd == 0 && 2 * h == B) || (odd == 1 && 2 * h == B - x)
    requires h - m * x == r * p
    ensures B - (2 * m + odd) * x == r * (2 * p)
  {
    TwiceProduct(m, x);
    TwiceProduct(r, p);
    Distribute(2 * m, odd, x);
    assert odd == 1 ==> odd * x == x;
    assert odd == 0 ==> odd * x == 0;
  }

  lemma TwiceProduct(a: int, b: int)
    ensures a * (2 * b) == 2 * (a * b) && (2 * a) * b == 2 * (a * b)
  {
  }

  lemma {:induction false} Halve2Keeps(u: int, B: int, x: int, y: int, v: int)
    requires x > 0 && x % 2 == 1 && Cong(u, B * y, x) && Common(u, v, x, y)
    ensures var r := Halve2(u, B, x);
      Cong(r.0, r.1 * y, x) && Common(r.0, v, x, y)
    decreases Abs(u)
  {
    if IsEven(u) {
      HalvingStep2(u, B, x, y);
      CommonHalf(u, u / 2, v, x, y);
      Halve2Keeps(u / 2, Halved(B, x), x, y, v);
    }
  }

  /** The variables of the two-coefficient loop. */
  datatype FastState = FastState(u: int, v: int, B: int, D: int)

  /** Steps 4 to 6: one pass of the loop. */
  function FastStep(s: FastState, x: int): FastState {
    var (u1, B1) := Halve2(s.u, s.B, x);
    var (v1, D1) := Halve2(s.v, s.D, x);
    if u1 >= v1 then FastState(u1 - v1, v1, B1 - D1, D1) else FastState(u1, v1 - u1, B1, D1 - B1)
  }

  /** Passes up to the exit test that succeeds. */
  function Loop2(s: FastState, x: int): (r: FastState)
    requires s.u > 0 && s.v > 0
    ensures r.u == 0 && r.v > 0
    decreases s.u + s.v
  {
    OddPartIs(s.u);
    OddPartIs(s.v);
    var t := FastStep(s, x);
    if t.u == 0 then t else Loop2(t, x)
  }

  /** s stands for a pair u == B*y and v == D*y modulo x, and no common divisor has been lost. */
  ghost predicate Keeps(s: FastState, x: int, y: int)
    requires x > 0
  {
    Cong(s.u, s.B * y, x) && Cong(s.v, s.D * y, x) && Common(s.u, s.v, x, y)
  }

  lemma FastStepKeeps(s: FastState, x: int, y: int)
    requires x > 0 && x % 2 == 1 && Keeps(s, x, y)
    ensures Keeps(FastStep(s, x), x, y)
  {
    Halve2Keeps(s.u, s.B, x, y, s.v);
    var (u1, B1) := Halve2(s.u, s.B, x);
    CommonSwap(u1, s.v, x, y);
    Halve2Keeps(s.v, s.D, x, y, u1);
    var (v1, D1) := Halve2(s.v, s.D, x);
    CommonSwap(v1, u1, x, y);
    hide Common, Cong, Halve2;
    if u1 >= v1 {
      CommonDifference(u1, v1, x, y);
      Subtract2(u1, v1, B1, D1, x, y);
    } else {
      CommonSwap(u1, v1, x, y);
      CommonDifference(v1, u1, x, y);
      CommonSwap(v1 - u1, u1, x, y);
      Subtract2(v1, u1, D1, B1, x, y);
    }
  }

  /** A pass in full: the factors of two out of u and v with their coefficients, then the smaller off the larger. */
  lemma FastStepMeans(s: FastState, x: int) returns (i: nat, m: nat, j: nat, k: nat, o: FastState)
    requires x % 2 == 1 && s.u != 0 && s.v != 0
    ensures s.u == o.u * Pow(2, i) && o.u % 2 == 1 && s.B - m * x == o.B * Pow(2, i) && m < Pow(2, i)
    ensures s.v == o.v * Pow(2, j) && o.v % 2 == 1 && s.D - k * x == o.D * Pow(2, j) && k < Pow(2, j)
    ensures FastStep(s, x) ==
      if o.u >= o.v then FastState(o.u - o.v, o.v, o.B - o.D, o.D) else FastState(o.u, o.v - o.u, o.B, o.D - o.B)
  {
    i, m := Halve2Means(s.u, s.B, x);
    j, k := Halve2Means(s.v, s.D, x);
    o := FastState(Halve2(s.u, s.B, x).0, Halve2(s.v, s.D, x).0, Halve2(s.u, s.B, x).1, Halve2(s.v, s.D, x).1);
  }

  /** The loop ends with v == D*y modulo x, and v is a common divisor of x and y. */
  lemma {:induction false} Loop2Correct(s: FastState, x: int, y: int)
    requires s.u > 0 && s.v > 0 && x > 0 && x % 2 == 1 && Keeps(s, x, y)
    ensures Keeps(Loop2(s, x), x, y)
    decreases s.u + s.v
  {
    hide Keeps;
    OddPartIs(s.u);
    OddPartIs(s.v);
    FastStepKeeps(s, x, y);
    if FastStep(s, x).u > 0 {
      Loop2Correct(FastStep(s, x), x, y);
    }
  }

  lemma Subtract2(u: int, v: int, B: int, D: int, x: int, y: int)
    requires x > 0 && Cong(u, B * y, x) && Cong(v, D * y, x)
    ensures Cong(u - v, (B - D) * y, x)
  {
    CongNeg(v, D * y, x);
    CongAdd(u, B * y, -v, -(D * y), x);
    assert (B - D) * y == B * y - D * y;
  }

  /** How fast_mp_invmod starts. */
  function FastStart(a: int, b: int): (s: FastState)
    requires b != 0
    ensures b > 0 ==> s == FastState(b, a % b, 0, 1)
  {
    assert b > 0 ==> Mod(a, b) == a % b by {
      if b > 0 {
        ModIsMod(a, b);
      }
    }
    FastState(b, Mod(a, b), 0, 1)
  }

  /** What the two-coefficient loop makes of a and an odd b: the last v and its coefficient D. */
  function FastResult(a: int, b: int): (nat, int)
    requires b > 0 && a % b != 0
  {
    DivModIdentity(a, b);
    var s := Loop2(FastStart(a, b), b);
    (s.v, s.D)
  }

  lemma StartOfLoop(a: int, b: int)
    requires b > 0 && a % b != 0
    ensures a % b > 0
    ensures var s := Loop2(FastState(b, a % b, 0, 1), b); FastResult(a, b) == (s.v, s.D)
  {
    DivModIdentity(a, b);
  }

  lemma FastCorrect(a: int, b: int)
    requires b > 0 && b % 2 == 1 && a % b != 0
    ensures FastResult(a, b).0 == 1 <==> Coprime(a, b)
    ensures FastResult(a, b).0 == 1 ==> Cong(a * FastResult(a, b).1, 1, b)
  {
    var y := a % b;
    DivModIdentity(a, b);
    CongMod(a, b);
    CongIntro(b, 0 * y, b, 1);
    Loop2Correct(FastStart(a, b), b, y);
    var (v, D) := FastResult(a, b);
    var t := CongElim(v, D * y, b);
    MulCommutes(D, y);
    CommonFlip(v, b, y);
    Ending(a, y, b, v, D, t);
  }

  lemma CommonFlip(v: int, x: int, y: int)
    requires Common(0, v, x, y)
    ensures Common(0, v, y, x)
  {
  }

  /** One of the two halving loops of fast_mp_invmod. */
  method HalvingLoop2(u0: int, B0: int, x: int) returns (u: int, B: int)
    ensures (u, B) == Halve2(u0, B0, x)
  {
    u, B := u0, B0;
    while IsEven(u)
      invariant Halve2(u, B, x) == Halve2(u0, B0, x)
      decreases Abs(u)
    {
      u := u / 2;
      if IsOdd(B) {
        B := B - x;
      }
      B := Half(B);
    }
  }

  /** The body of the main loop of fast_mp_invmod. */
  method FastPass(s: FastState, x: int) returns (t: FastState)
    ensures t == FastStep(s, x)
  {
    var u, B := HalvingLoop2(s.u, s.B, x);
    var v, D := HalvingLoop2(s.v, s.D, x);
    if u >= v {
      u, B := u - v, B - D;
    } else {
      v, D := v - u, D - B;
    }
    t := FastState(u, v, B, D);
  }

  /** The main loop of fast_mp_invmod. */
  method FastLoop(x: nat, y: nat) returns (v: nat, D: int)
    requires x > 0 && y > 0
    ensures var r := Loop2(FastState(x, y, 0, 1), x); v == r.v && D == r.D
  {
    var s := FastState(x, y, 0, 1);
    hide FastStep;
    var done := false;
    while !done
      invariant s.v > 0
      invariant !done ==> s.u > 0 && Loop2(s, x) == Loop2(FastState(x, y, 0, 1), x)
      invariant done ==> s == Loop2(FastState(x, y, 0, 1), x)
      decreases !done, s.u + s.v
    {
      FastStepDecreases(s, x);
      s := FastPass(s, x);
      done := s.u == 0;
    }
    v, D := s.v, s.D;
  }

  lemma FastStepDecreases(s: FastState, x: int)
    requires s.u > 0 && s.v > 0
    ensures FastStep(s, x).u >= 0 && FastStep(s, x).v > 0 && FastStep(s, x).u + FastStep(s, x).v < s.u + s.v
  {
    OddPartIs(s.u);
    OddPartIs(s.v);
  }

  /** m is what the loop finds, brought up to zero or more but not below b. */
  ghost predicate IsFastInverse(m: nat, a: int, b: int) {
    b > 0 && a % b != 0 && var D := FastResult(a, b).1; if D >= 0 then m == D else m < b && Cong(m, D, b)
  }

  /** Adding b until the number is not negative. */
  method OutOfNegative(D0: int, b: nat) returns (D: nat)
    requires b > 0
    ensures Cong(D, D0, b) && (if D0 >= 0 then D == D0 else D < b)
  {
    var E := D0;
    while E < 0
      invariant Cong(E, D0, b) && (if D0 >= 0 then E == D0 else E < b)
      decreases -E
    {
      CongIntro(E + b, E, b, 1);
      E := E + b;
    }
    D := E;
  }

  /** fast_mp_invmod. For an odd modulus that divides a, or a negative one, it would not end. */
  method InvmodFast(a: MpInt, b: MpInt, c: MpInt) returns (err: Err)
    requires a.Valid() && b.Valid() && c.Valid()
    requires b.Value() % 2 == 1 ==> b.Value() > 0 && a.Value() % b.Value() != 0
    modifies c
    ensures err == Okay <==> old(b.Value()) % 2 == 1 && Coprime(old(a.Value()), old(b.Value()))
    ensures err == Val ==> unchanged(c)
    ensures err == Okay ==> c.Valid()
    ensures err == Okay ==> Cong(old(a.Value()) * c.Value(), if old(a.Value()) < 0 then -1 else 1, old(b.Value()))
    ensures err == Okay && c.Value() != 0 ==> (c.Value() < 0) == (old(a.Value()) < 0)
    ensures err == Okay ==> IsFastInverse(c.Mag(), old(a.Value()), old(b.Value()))
  {
    hide Coprime, Cong, IsFastInverse;
    SignsAgree(a);
    SignsAgree(b);
    if IsEven(b.Mag()) {
      return Val;
    }
    if b.Mag() == 0 {
      // mp_mod
      return Val;
    }
    var m;
    err, m := OddInverse(a.Value(), b.Mag());
    if err != Okay {
      return;
    }
    var neg := a.neg;
    c.neg := neg;
    c.StoreMag(m);
    SignsAgree(c);
  }

  /** From the temporaries to the last D, raised out of the negative. */
  method OddInverse(a: int, b: nat) returns (err: Err, m: nat)
    requires b % 2 == 1 && a % b != 0
    ensures err == Okay <==> Coprime(a, b)
    ensures err == Okay ==> Cong(a * m, 1, b) && Cong(a * (0 - m), -1, b) && IsFastInverse(m, a, b)
  {
    hide Coprime, FastResult, Loop2, Mod;
    m := 0;
    ModIsMod(a, b);
    DivModIdentity(a, b);
    var y: nat := Mod(a, b);
    StartOfLoop(a, b);
    var v, D := FastLoop(b, y);
    FastCorrect(a, b);
    if v != 1 {
      return Val, 0;
    }
    m := OutOfNegative(D, b);
    SignedInverse(a, b, m, D);
    err := Okay;
  }

  /** Giving the inverse the sign of a. */
  lemma SignedInverse(a: int, b: int, D: int, D0: int)
    requires b > 0 && Cong(D, D0, b) && Cong(a * D0, 1, b)
    ensures Cong(a * D, 1, b) && Cong(a * (-D), -1, b)
  {
    CongScale(D, D0, a, b);
    MulCommutes(D, a);
    MulCommutes(D0, a);
    CongNeg(a * D, 1, b);
    Signs(a, D);
    MulCommutes(a, -D);
    MulCommutes(a, D);
    Signs(D, a);
  }

  // ----- when the fast loop ends

  /** k passes, whatever the exit test says. */
  function Passes(k: nat, s: FastState, x: int): FastState {
    if k == 0 then s else Passes(k - 1, FastStep(s, x), x)
  }

  /** With v == 0, which is not even for mp_iseven, a pass leaves u and v as they are. */
  lemma {:induction false} Stuck(k: nat, s: FastState, x: int)
    requires s.u > 0 && s.u % 2 == 1 && s.v == 0
    ensures Passes(k, s, x).u == s.u && Passes(k, s, x).v == 0
  {
    if k > 0 {
      assert Halve2(s.u, s.B, x) == (s.u, s.B) && Halve2(0, s.D, x) == (0, s.D);
      Stuck(k - 1, FastStep(s, x), x);
    }
  }

  /** The loop is a number of passes. */
  lemma {:induction false} LoopIsPasses(s: FastState, x: int) returns (k: nat)
    requires s.u > 0 && s.v > 0
    ensures k > 0 && Passes(k, s, x) == Loop2(s, x)
    ensures forall i: nat :: 0 < i < k ==> Passes(i, s, x).u != 0
    decreases s.u + s.v
  {
    hide FastStep;
    FastStepDecreases(s, x);
    var t := FastStep(s, x);
    if t.u == 0 {
      k := 1;
      assert Passes(0, t, x) == t;
    } else {
      k := LoopIsPasses(t, x);
      forall i: nat | 0 < i < k + 1
        ensures Passes(i, s, x).u != 0
      {
        assert i > 1 ==> Passes(i, s, x) == Passes(i - 1, t, x);
        assert i == 1 ==> Passes(1, s, x) == Passes(0, t, x) == t;
      }
      k := k + 1;
    }
  }

  /** What the routine reads off: v and D after the first pass that makes u zero. */
  lemma FastResultMeans(a: int, b: int) returns (k: nat)
    requires b > 0 && a % b != 0
    ensures var s := FastState(b, a % b, 0, 1);
      && k > 0 && Passes(k, s, b).u == 0 && (forall i: nat :: 0 < i < k ==> Passes(i, s, b).u != 0)
      && FastResult(a, b) == (Passes(k, s, b).v, Passes(k, s, b).D)
  {
    DivModIdentity(a, b);
    StartOfLoop(a, b);
    hide FastStep, Passes;
    k := LoopIsPasses(FastState(b, a % b, 0, 1), b);
  }

  /** With u negative and v above it, the test u >= v never succeeds and u stays. */
  lemma {:induction false} StuckBelow(k: nat, s: FastState, x: int)
    requires s.u < 0 && s.u % 2 == 1 && s.u < s.v
    ensures Passes(k, s, x).u == s.u
  {
    if k > 0 {
      assert Halve2(s.u, s.B, x) == (s.u, s.B);
      OddPartIs(if s.v < 0 then 0 else s.v);
      StuckBelow(k - 1, FastStep(s, x), x);
    }
  }

  /** mp_mod takes the sign of a negative modulus. */
  lemma NegativeMod(a: int, b: int)
    requires b < 0
    ensures b < Mod(a, b) <= 0
  {
    DivisionLaw(a, b);
  }

  /** For an odd modulus, the exit test succeeds after some pass exactly if b is positive and does not divide a. */
  lemma FastEnds(a: int, b: int)
    requires b % 2 == 1
    ensures (exists k: nat :: Passes(k, FastStart(a, b), b).u == 0) <==> b > 0 && a % b != 0
  {
    if b < 0 {
      NegativeMod(a, b);
      forall k: nat
        ensures Passes(k, FastStart(a, b), b).u != 0
      {
        StuckBelow(k, FastStart(a, b), b);
      }
    } else if a % b == 0 {
      forall k: nat
        ensures Passes(k, FastStart(a, b), b).u != 0
      {
        Stuck(k, FastStart(a, b), b);
      }
    } else {
      DivModIdentity(a, b);
      var k := LoopIsPasses(FastStart(a, b), b);
    }
  }
}
