/**
 mp_prime_is_divisible and mp_prime_is_prime: trial division by the table, and rounds of
 Miller-Rabin with its entries for bases.
 */
module PrimeTests {
  import opened Arith
  import opened Radix
  import opened MpInts
  import opened Divisibility
  import opened PrimeNumbers
  import opened PrimeTable
  import opened ModulusForms
  import opened Invmod
  import opened MillerRabin

  /** The last entry of the table. */
  function LastPrime(): nat {
    PrimeTab(PRIME_SIZE - 1)
  }

  /** One of the entries from the given index on divides v. */
  ghost predicate TableDivides(v: int, start: nat) {
    exists ix: nat :: DividedBy(v, ix, start)
  }

  ghost predicate DividedBy(v: int, ix: nat, start: nat) {
    start <= ix < PRIME_SIZE && PrimeTab(ix) > 0 && Divides(PrimeTab(ix), v)
  }

  ghost predicate PassesRounds(v: int, t: int)
    requires v > 0 && t <= PRIME_SIZE
  {
    forall ix: nat :: ix < t ==> StrongFor(v, ix)
  }

  ghost predicate StrongFor(v: int, ix: nat)
    requires v > 0 && ix < PRIME_SIZE
  {
    Strong(v, PrimeTab(ix))
  }

  /** What mp_prime_is_prime answers YES to. */
  ghost predicate ProbablyPrime(v: int, t: int)
    requires t <= PRIME_SIZE
  {
    InTable(v, PRIME_SIZE) || (v > 0 && !TableDivides(v, 0) && PassesRounds(v, t))
  }

  lemma EntryIsPrime(ix: nat)
    requires ix < PRIME_SIZE
    ensures IsPrime(PrimeTab(ix)) && 2 <= PrimeTab(ix) <= LastPrime() <= 1619
    ensures PrimeTab(0) == 2 && (ix > 0 ==> PrimeTab(ix) > 2)
  {
    FirstEntry();
    hide *;
    EntryBelow1681(ix);
    EntryBelow1681(PRIME_SIZE - 1);
    NextPrimeEntry(ix);
    Increasing(ix, PRIME_SIZE - 1);
    Increasing(0, ix);
    LastIs();
  }

  lemma FirstEntry()
    ensures PrimeTab(0) == 2
  {
  }

  lemma LastIs()
    ensures LastPrime() == PrimeTab(PRIME_SIZE - 1)
  {
    hide PrimeTab;
  }

  /** A prime divisible by a table entry is that entry. */
  lemma TableDivisorOfPrime(p: nat, ix: nat, start: nat)
    requires IsPrime(p) && DividedBy(p, ix, start)
    ensures InTable(p, PRIME_SIZE)
  {
    hide PrimeTab;
    EntryIsPrime(ix);
    DivisorBound(PrimeTab(ix), p);
    assert ix < PRIME_SIZE && p == PrimeTab(ix);
  }

  /** Every prime passes, for every number of rounds. */
  lemma PrimesPass(p: nat, t: int)
    requires IsPrime(p) && t <= PRIME_SIZE
    ensures ProbablyPrime(p, t)
  {
    hide PrimeTab, Strong;
    if !InTable(p, PRIME_SIZE) {
      forall ix: nat
        ensures !DividedBy(p, ix, 0)
      {
        if DividedBy(p, ix, 0) {
          TableDivisorOfPrime(p, ix, 0);
          assert false;
        }
      }
      forall ix: nat | ix < t
        ensures StrongFor(p, ix)
      {
        OtherPrimeIsStrong(p, ix);
      }
    }
  }

  lemma OtherPrimeIsStrong(p: nat, ix: nat)
    requires IsPrime(p) && ix < PRIME_SIZE && p != PrimeTab(ix)
    ensures StrongFor(p, ix)
  {
    hide PrimeTab, Strong;
    EntryIsPrime(ix);
    if Divides(p, PrimeTab(ix)) {
      DivisorBound(p, PrimeTab(ix));
      assert false;
    }
    PrimesAreStrong(p, PrimeTab(ix));
  }

  /** Up to the square of the largest table entry the verdict is exact, except on 1. */
  lemma SmallVerdict(v: nat, t: int)
    requires 1 < v < LastPrime() * LastPrime() && t <= PRIME_SIZE
    ensures ProbablyPrime(v, t) <==> IsPrime(v)
  {
    hide PrimeTab, Strong, LastPrime;
    if IsPrime(v) {
      PrimesPass(v, t);
    } else {
      var p := SmallPrimeFactor(v);
      LastIs();
      if p > LastPrime() {
        MulMono(LastPrime(), p, p);
        MulMono(LastPrime(), p, LastPrime());
        assert false;
      }
      TableIsComplete(p, PRIME_SIZE);
      var ix: nat :| ix < PRIME_SIZE && p == PrimeTab(ix);
      assert DividedBy(v, ix, 0);
      if InTable(v, PRIME_SIZE) {
        InTableIsPrime(v);
        assert false;
      }
    }
  }

  lemma InTableIsPrime(v: int)
    requires InTable(v, PRIME_SIZE)
    ensures IsPrime(v)
  {
    hide PrimeTab, LastPrime;
    var ix: nat :| ix < PRIME_SIZE && v == PrimeTab(ix);
    EntryIsPrime(ix);
  }

  /** 1 is taken for a prime: no entry divides it, and 1 = b^0 = -1 modulo 1. */
  lemma OneIsCalledPrime(t: int)
    requires t <= PRIME_SIZE
    ensures ProbablyPrime(1, t) && !IsPrime(1)
  {
    hide PrimeTab, LastPrime;
    forall ix: nat
      ensures !DividedBy(1, ix, 0)
    {
      if DividedBy(1, ix, 0) {
        EntryIsPrime(ix);
        DivisorBound(PrimeTab(ix), 1);
        assert false;
      }
    }
    forall ix: nat | ix < t
      ensures StrongFor(1, ix)
    {
      OneIsStrong(PrimeTab(ix));
    }
  }

  lemma OneIsStrong(b: int)
    ensures Strong(1, b)
  {
    assert Squared(b, OddPart(0), 0, 1) == 1 - 1;
  }

  // ----- the verdict in terms of primes and powers

  /** The table has 31 or 256 entries. */
  lemma TableEnds()
    ensures PRIME_SIZE == if DIGIT_BIT <= 7 then 31 else 256
    ensures LastPrime() == if DIGIT_BIT <= 7 then 127 else 1619
  {
  }

  /** An entry from the given place on divides v exactly if a prime in that range does. */
  lemma TableDividesMeans(v: int, start: nat)
    requires start < PRIME_SIZE
    ensures TableDivides(v, start) <==>
      exists p: nat :: IsPrime(p) && PrimeTab(start) <= p <= LastPrime() && Divides(p, v)
  {
    hide PrimeTab, LastPrime;
    LastIs();
    if TableDivides(v, start) {
      var ix: nat :| DividedBy(v, ix, start);
      EntryIsPrime(ix);
      Increasing(start, ix);
      assert PrimeTab(start) <= PrimeTab(ix) <= LastPrime() && IsPrime(PrimeTab(ix)) && Divides(PrimeTab(ix), v);
    }
    if p: nat :| IsPrime(p) && PrimeTab(start) <= p <= LastPrime() && Divides(p, v) {
      TableIsComplete(p, PRIME_SIZE);
      var ix: nat :| ix < PRIME_SIZE && p == PrimeTab(ix);
      if ix < start {
        Increasing(ix, start);
      }
      EntryIsPrime(ix);
      assert DividedBy(v, ix, start);
    }
  }

  /** With v - 1 == r * 2^s and r odd: the rounds are about powers of the first t primes. */
  lemma RoundsMean(v: nat, t: int, r: nat, s: nat)
    requires v > 1 && t <= PRIME_SIZE && IsSplit(v, r, s)
    ensures PassesRounds(v, t) <==> forall ix: nat :: ix < t ==> PowersPass(v, PrimeTab(ix), r, s)
  {
    hide PrimeTab, Strong, IsSplit, PowersPass;
    forall ix: nat | ix < t
      ensures StrongFor(v, ix) <==> PowersPass(v, PrimeTab(ix), r, s)
    {
      StrongMeans(v, PrimeTab(ix), r, s);
    }
  }

  /** Above the table: no prime up to the last entry divides v, and v passes for the first t primes. */
  lemma VerdictMeans(v: nat, t: int, r: nat, s: nat)
    requires v > LastPrime() && t <= PRIME_SIZE && IsSplit(v, r, s)
    ensures ProbablyPrime(v, t) <==>
      (forall p: nat :: IsPrime(p) && p <= LastPrime() ==> !Divides(p, v))
      && (forall ix: nat :: ix < t ==> PowersPass(v, PrimeTab(ix), r, s))
    ensures ProbablyPrime(v, t) <==> Confirmed(v, t, r, s)
  {
    hide PrimeTab, LastPrime, IsPrime, Divides, TableDivides, PassesRounds, IsSplit, InTable, PowersPass;
    AboveTable(v);
    NoSmallPrime(v);
    RoundsMean(v, t, r, s);
  }

  /** No prime up to the last entry divides v, and the powers of the first t primes pass. */
  ghost predicate Confirmed(v: nat, t: int, r: nat, s: nat)
    requires v > 0 && t <= PRIME_SIZE
  {
    && (forall p: nat :: IsPrime(p) && p <= LastPrime() ==> !Divides(p, v))
    && (forall ix: nat :: ix < t ==> PowersPass(v, PrimeTab(ix), r, s))
  }

  lemma NoSmallPrime(v: int)
    ensures TableDivides(v, 0) <==> exists p: nat :: IsPrime(p) && p <= LastPrime() && Divides(p, v)
  {
    hide PrimeTab, LastPrime, TableDivides;
    TableDividesMeans(v, 0);
    if p: nat :| IsPrime(p) && p <= LastPrime() && Divides(p, v) {
      PrimeAtLeastTwo(p);
    }
  }

  lemma PrimeAtLeastTwo(p: nat)
    requires IsPrime(p)
    ensures p >= PrimeTab(0)
  {
    FirstEntry();
    hide PrimeTab;
  }

  lemma AboveTable(v: nat)
    requires v > LastPrime()
    ensures v > 2 && !InTable(v, PRIME_SIZE)
  {
    hide PrimeTab, LastPrime;
    EntryIsPrime(0);
    if InTable(v, PRIME_SIZE) {
      var ix: nat :| ix < PRIME_SIZE && v == PrimeTab(ix);
      EntryIsPrime(ix);
      assert false;
    }
  }

  /** What is called prime above the table satisfies Fermat's congruence for each of the first t primes. */
  lemma PassedIsFermat(v: nat, t: int, ix: nat)
    requires v > LastPrime() && ix < t <= PRIME_SIZE && ProbablyPrime(v, t)
    ensures Pow(PrimeTab(ix), v - 1) % v == 1
  {
    hide PrimeTab, LastPrime, Pow, Strong;
    AboveTable(v);
    assert StrongFor(v, ix);
    if v % 2 == 0 {
      DividesMod(2, v);
      EvenIsDivided(v);
      assert false;
    }
    StrongIsFermat(v, PrimeTab(ix));
  }

  // ----- the routines

  /** t rounds, with the first t primes for bases. */
  method Rounds(a: MpInt, t: nat) returns (err: Err, res: bool)
    requires a.Valid() && 0 < t <= PRIME_SIZE
    ensures err == Okay <==> a.Value() > 0
    ensures err == Okay ==> (res <==> PassesRounds(a.Value(), t))
  {
    hide PrimeTab, Strong, PassesRound;
    var ix := 0;
    res := false;
    err := Okay;
    while ix < t
      invariant ix <= t && (ix > 0 ==> a.Value() > 0)
      invariant err == Okay
      invariant a.Value() > 0 ==> PassesRounds(a.Value(), ix)
      invariant ix > 0 ==> res && StrongFor(a.Value(), 0)
    {
      EntryIsPrime(ix);
      err, res := MillerRabin.MillerRabin(a, PrimeTab(ix));
      if err != Okay {
        return;
      }
      RoundIsStrong(a.Value(), ix);
      assert res == StrongFor(a.Value(), ix);
      if !res {
        return;
      }
      ix := ix + 1;
    }
  }

  /** A spoiled modulus fails the round with base 2. */
  lemma RoundIsStrong(v: int, ix: nat)
    requires v > 0 && ix < PRIME_SIZE && (ix > 0 ==> StrongFor(v, 0))
    ensures PassesRound(v, PrimeTab(ix)) <==> StrongFor(v, ix)
  {
    hide PrimeTab, Strong, IsSpoiled;
    EntryIsPrime(0);
    if IsSpoiled(v) {
      SpoiledIsEven(v);
      SpoiledRound(2, v);
    }
  }

  lemma EvenIsDivided(v: int)
    requires Divides(2, v)
    ensures TableDivides(v, 0)
  {
    hide PrimeTab, LastPrime;
    EntryIsPrime(0);
    assert DividedBy(v, 0, 0);
  }

  method IsProbablyPrime(a: MpInt, t: int) returns (err: Err, result: bool)
    requires a.Valid()
    ensures err == Okay <==>
      (0 < t <= PRIME_SIZE
       && (a.Value() >= 0 || exists p: nat :: IsPrime(p) && p <= LastPrime() && Divides(p, a.Value())))
    ensures err == Okay ==> (result <==> ProbablyPrime(a.Value(), t))
    ensures err == Okay && a.Value() <= 0 ==> !result
    ensures err == Okay && a.Value() == 1 ==> result
    ensures err == Okay && 1 < a.Value() < LastPrime() * LastPrime() ==> (result <==> IsPrime(a.Value()))
    ensures err == Okay && a.Value() > LastPrime() ==>
      forall r: nat, s: nat :: IsSplit(a.Value(), r, s) ==> (result <==> Confirmed(a.Value(), t, r, s))
  {
    hide *;
    HasValue(a);
    NoSmallPrime(a.Value());
    if 0 < t <= PRIME_SIZE {
      SmallVerdicts(a.Value(), t);
    }
    if 0 < t <= PRIME_SIZE && a.Value() > LastPrime() {
      ghost var v := a.Value();
      forall r: nat, s: nat | IsSplit(v, r, s)
        ensures ProbablyPrime(v, t) <==> Confirmed(v, t, r, s)
      {
        VerdictMeans(v, t, r, s);
      }
    }
    err, result := CombinedTest(a, t);
  }

  lemma SmallVerdicts(v: int, t: int)
    requires t <= PRIME_SIZE
    ensures v <= 0 ==> !ProbablyPrime(v, t)
    ensures v == 1 ==> ProbablyPrime(v, t)
    ensures 1 < v < LastPrime() * LastPrime() ==> (ProbablyPrime(v, t) <==> IsPrime(v))
  {
    hide PrimeTab, LastPrime, TableDivides, PassesRounds, IsPrime;
    if v <= 0 {
      NotInTableBelow(v);
    } else if v == 1 {
      OneIsCalledPrime(t);
    } else if v < LastPrime() * LastPrime() {
      SmallVerdict(v, t);
    }
  }

  lemma NotInTableBelow(v: int)
    requires v <= 0
    ensures !InTable(v, PRIME_SIZE)
  {
    hide PrimeTab;
    if InTable(v, PRIME_SIZE) {
      var ix: nat :| ix < PRIME_SIZE && v == PrimeTab(ix);
      EntryIsPrime(ix);
      assert false;
    }
  }

  lemma HasValue(a: MpInt)
    requires a.Valid()
    ensures a.Loose()
  {
  }

  /** Its body. */
  method CombinedTest(a: MpInt, t: int) returns (err: Err, result: bool)
    requires a.Valid()
    ensures err == Okay <==> 0 < t <= PRIME_SIZE && (a.Value() >= 0 || TableDivides(a.Value(), 0))
    ensures err == Okay ==> (result <==> ProbablyPrime(a.Value(), t))
  {
    hide PrimeTab, Strong, LastPrime, PassesRounds;
    if t <= 0 || t > PRIME_SIZE {
      return Val, false;
    }
    var ix := 0;
    while ix < PRIME_SIZE
      invariant ix <= PRIME_SIZE && !InTable(a.Value(), ix)
    {
      if a.Value() == PrimeTab(ix) {
        EntryIsPrime(ix);
        return Okay, true;
      }
      ix := ix + 1;
    }
    var divisible := IsDivisible(a);
    if divisible {
      return Okay, false;
    }
    ZeroIsDivisible(a.Value());
    err, result := Rounds(a, t);
  }

  lemma ZeroIsDivisible(v: int)
    ensures v == 0 ==> TableDivides(v, 0)
  {
    if v == 0 {
      CongIntro(0, 0, 2, 0);
      EvenIsDivided(v);
    }
  }

  /** mp_prime_is_divisible. mp_mod_d reduces the magnitude. */
  method IsDivisible(a: MpInt) returns (result: bool)
    requires a.Valid()
    ensures result <==> TableDivides(a.Value(), 0)
    ensures result <==> exists p: nat :: IsPrime(p) && p <= LastPrime() && Divides(p, a.Value())
  {
    hide PrimeTab, LastPrime, IsPrime;
    NoSmallPrime(a.Value());
    var ix := 0;
    while ix < PRIME_SIZE
      invariant ix <= PRIME_SIZE
      invariant forall i: nat :: i < ix ==> !DividedBy(a.Value(), i, 0)
    {
      EntryIsPrime(ix);
      MagnitudeDivisible(a, PrimeTab(ix));
      if a.Mag() % PrimeTab(ix) == 0 {
        assert DividedBy(a.Value(), ix, 0);
        return true;
      }
      ix := ix + 1;
    }
    return false;
  }

  lemma MagnitudeDivisible(a: MpInt, p: nat)
    requires a.Valid() && p > 0
    ensures a.Mag() % p == 0 <==> Divides(p, a.Value())
  {
    ModSmall(0, p);
    if a.neg {
      if Divides(p, a.Mag()) {
        CongNeg(a.Mag(), 0, p);
      }
      if Divides(p, a.Value()) {
        CongNeg(a.Value(), 0, p);
      }
    }
  }
}
