/**
 mp_prime_next_prime: the next entry of the table, or the sieve with Miller-Rabin.
 */
module NextPrime {
  import opened Arith
  import opened Radix
  import opened MpInts
  import opened Divisibility
  import opened PrimeNumbers
  import opened PrimeTable
  import opened MillerRabin
  import opened PrimeTests

  /** kstep, which is 4 in the mode bbs_style == 1. */
  function Kstep(bbs: bool): (k: nat)
    ensures k == 2 || k == 4
  {
    if bbs then 4 else 2
  }

  /** The first entry whose multiples the sieve finds: with steps of 4 the cell of 3 never becomes 0. */
  function FirstSieved(bbs: bool): (x: nat)
    ensures 1 <= x <= 2
  {
    if bbs then 2 else 1
  }

  /** What the search for the next prime takes. */
  ghost predicate Accepted(n: int, bbs: bool, t: int)
    requires t <= PRIME_SIZE
  {
    if bbs && n > LastPrime() then n % 4 == 3 && !TableDivides(n, 2) && PassesRounds(n, t)
    else (bbs ==> n % 4 == 3) && ProbablyPrime(n, t)
  }

  /** From two rounds on it is what mp_prime_is_prime says, because the round with base 3 finds the multiples of 3. */
  lemma AcceptedIsProbablyPrime(n: int, bbs: bool, t: int)
    requires t <= PRIME_SIZE && (bbs ==> t >= 2)
    ensures Accepted(n, bbs, t) <==> (bbs ==> n % 4 == 3) && ProbablyPrime(n, t)
  {
    hide PrimeTab, LastPrime, Strong, TableDivides;
    if bbs && n > LastPrime() && n % 4 == 3 {
      NotInTable(n);
      OnlyThreeMissing(n);
      if PassesRounds(n, t) {
        assert StrongFor(n, 1);
        PassedBaseThree(n);
      }
    }
  }

  lemma OnlyThreeMissing(n: nat)
    requires n % 2 == 1
    ensures TableDivides(n, 0) <==> DividedBy(n, 1, 1) || TableDivides(n, 2)
  {
    hide PrimeTab, LastPrime;
    forall ix: nat
      ensures DividedBy(n, ix, 2) ==> DividedBy(n, ix, 0)
      ensures DividedBy(n, ix, 0) ==> DividedBy(n, ix, 1)
      ensures DividedBy(n, ix, 1) ==> ix == 1 || DividedBy(n, ix, 2)
    {
      EntryOfOdd(n, ix);
    }
    assert DividedBy(n, 1, 1) ==> DividedBy(n, 1, 0);
  }

  lemma PassedBaseThree(n: nat)
    requires n > 0 && StrongFor(n, 1)
    ensures !DividedBy(n, 1, 1)
  {
    hide PrimeTab, LastPrime, Strong;
    EntryIsPrime(1);
    if DividedBy(n, 1, 1) {
      DivisorFails(n, PrimeTab(1));
    }
  }

  /** No number strictly between lo and hi would be taken. */
  ghost predicate NonePasses(lo: int, hi: int, bbs: bool, t: int)
    requires t <= PRIME_SIZE
  {
    forall n: nat :: lo < n < hi ==> !Accepted(n, bbs, t)
  }

  /** Cell x holds v modulo the x-th prime; cell 0 is not used, nor is cell 1 with steps of 4. */
  ghost predicate Residual(cells: seq<nat>, v: nat, bbs: bool) {
    |cells| == PRIME_SIZE && forall x: nat :: FirstSieved(bbs) <= x < PRIME_SIZE ==> IsResidue(cells[x], v, x)
  }

  ghost predicate IsResidue(c: nat, v: nat, x: nat) {
    x < PRIME_SIZE && PrimeTab(x) > 0 && c == v % PrimeTab(x)
  }

  method ResidueTable(v: nat, ghost bbs: bool) returns (resTab: array<nat>)
    ensures fresh(resTab) && Residual(resTab[..], v, bbs)
  {
    hide PrimeTab, LastPrime;
    resTab := new nat[PRIME_SIZE];
    var x := 1;
    while x < PRIME_SIZE
      invariant 1 <= x <= PRIME_SIZE && resTab.Length == PRIME_SIZE
      invariant forall i: nat :: 1 <= i < x ==> IsResidue(resTab[i], v, i)
    {
      EntryIsPrime(x);
      DivModIdentity(v, PrimeTab(x));
      resTab[x] := v % PrimeTab(x);
      x := x + 1;
    }
  }

  /** A cell after a step: the prime comes off at most once. */
  function Stepped(c: nat, x: nat, k: nat): nat
    requires x < PRIME_SIZE
  {
    if c + k >= PrimeTab(x) then c + k - PrimeTab(x) else c + k
  }

  lemma StepResidue(c: nat, v: nat, x: nat, bbs: bool)
    requires IsResidue(c, v, x) && FirstSieved(bbs) <= x
    ensures IsResidue(Stepped(c, x, Kstep(bbs)), v + Kstep(bbs), x)
    ensures Stepped(c, x, Kstep(bbs)) == 0 <==> DividedBy(v + Kstep(bbs), x, FirstSieved(bbs))
  {
    hide PrimeTab, LastPrime;
    EntryIsPrime(x);
    FromFive(x);
    var p, k := PrimeTab(x), Kstep(bbs);
    DivModIdentity(v, p);
    ModSmall(0, p);
    var q := v / p;
    if c + k >= p {
      CountUp(q, p);
      DivModUnique(v + k, p, q + 1, c + k - p);
    } else {
      DivModUnique(v + k, p, q, c + k);
    }
  }

  lemma FromFive(x: nat)
    requires x < PRIME_SIZE
    ensures PrimeTab(1) == 3 && (x >= 2 ==> PrimeTab(x) >= 5)
  {
    SecondAndThird();
    hide *;
    if x >= 2 {
      Increasing(2, x);
    }
  }

  lemma SecondAndThird()
    ensures PrimeTab(1) == 3 && PrimeTab(2) == 5
  {
  }

  /** With steps of 4 the cell of 3 only grows. */
  lemma ThreeIsMissed(c: nat)
    ensures Stepped(c, 1, 4) == c + 1
  {
    SecondAndThird();
    hide PrimeTab;
  }

  /** Moves every residue one step on, without dividing; reports whether one became zero. */
  method StepResidues(resTab: array<nat>, bbs: bool, ghost v: nat) returns (hit: bool)
    requires Residual(resTab[..], v, bbs)
    modifies resTab
    ensures Residual(resTab[..], v + Kstep(bbs), bbs)
    ensures hit <==> TableDivides(v + Kstep(bbs), FirstSieved(bbs))
  {
    hide PrimeTab, LastPrime, IsResidue, DividedBy, Kstep, FirstSieved;
    var kstep := Kstep(bbs);
    ghost var next, first := v + kstep, FirstSieved(bbs);
    BelowFirst(next, first);
    hit := false;
    var x: nat := 1;
    while x < PRIME_SIZE
      invariant 1 <= x <= PRIME_SIZE && resTab.Length == PRIME_SIZE
      invariant forall i: nat :: first <= i < x ==> IsResidue(resTab[i], next, i)
      invariant forall i: nat :: x <= i < PRIME_SIZE && first <= i ==> IsResidue(resTab[i], v, i)
      invariant !hit ==> forall i: nat :: i < x ==> !DividedBy(next, i, first)
      invariant hit ==> TableDivides(next, first)
    {
      StepCell(resTab[x], v, x, bbs);
      ghost var c := resTab[x];
      resTab[x] := resTab[x] + kstep;
      if resTab[x] >= PrimeTab(x) {
        resTab[x] := resTab[x] - PrimeTab(x);
      }
      assert resTab[x] == Stepped(c, x, kstep);
      if resTab[x] == 0 {
        hit := true;
      }
      x := x + 1;
    }
    OnlyEntries(next, first);
  }

  /** One cell, the one of 3 included. */
  lemma StepCell(c: nat, v: nat, x: nat, bbs: bool)
    requires 1 <= x < PRIME_SIZE && (x >= FirstSieved(bbs) ==> IsResidue(c, v, x))
    ensures x >= FirstSieved(bbs) ==> IsResidue(Stepped(c, x, Kstep(bbs)), v + Kstep(bbs), x)
    ensures Stepped(c, x, Kstep(bbs)) == 0 <==> DividedBy(v + Kstep(bbs), x, FirstSieved(bbs))
  {
    hide PrimeTab, LastPrime, Stepped, IsResidue;
    if x >= FirstSieved(bbs) {
      StepResidue(c, v, x, bbs);
    } else {
      ThreeIsMissed(c);
    }
  }

  lemma BelowFirst(v: nat, first: nat)
    requires first >= 1
    ensures !DividedBy(v, 0, first)
  {
  }

  lemma OnlyEntries(v: nat, first: nat)
    ensures forall i: nat :: i >= PRIME_SIZE ==> !DividedBy(v, i, first)
  {
    hide PrimeTab;
  }

  /** A number above the table that an entry divides does not pass. */
  lemma SievedOut(v: nat, start: nat, t: int)
    requires TableDivides(v, start) && v > LastPrime() && t <= PRIME_SIZE
    ensures !ProbablyPrime(v, t)
  {
    hide PrimeTab, LastPrime, PassesRounds;
    var ix: nat :| DividedBy(v, ix, start);
    assert DividedBy(v, ix, 0);
    NotInTable(v);
  }

  lemma NotInTable(v: nat)
    requires v > LastPrime()
    ensures !InTable(v, PRIME_SIZE)
  {
    hide PrimeTab, LastPrime;
    if ix: nat :| ix < PRIME_SIZE && v == PrimeTab(ix) {
      EntryIsPrime(ix);
      assert false;
    }
  }

  /** What passing over step numbers from v has shown: the candidates before v + step are divisible by an entry. */
  ghost predicate PassedOver(v: nat, step: nat, bbs: bool) {
    forall s: nat :: 0 < s < step && s % Kstep(bbs) == 0 ==> SievedAt(v, s, bbs)
  }

  ghost predicate SievedAt(v: nat, s: nat, bbs: bool) {
    TableDivides(v + s, FirstSieved(bbs))
  }

  /** The do-while loop: on to the first number no entry divides, as far as a digit goes. */
  method NextCandidate(resTab: array<nat>, bbs: bool, ghost v: nat) returns (step: nat, hit: bool)
    requires Residual(resTab[..], v, bbs)
    modifies resTab
    ensures Residual(resTab[..], v + step, bbs)
    ensures step >= Kstep(bbs) && step % Kstep(bbs) == 0 && PassedOver(v, step, bbs)
    ensures hit <==> TableDivides(v + step, FirstSieved(bbs))
    ensures hit ==> step >= B - Kstep(bbs)
  {
    hide Residual, TableDivides, IsPrime;
    var kstep := Kstep(bbs);
    step := 0;
    hit := true;
    while hit && step < B - kstep
      invariant step % kstep == 0 && PassedOver(v, step, bbs) && (step == 0 ==> hit)
      invariant Residual(resTab[..], v + step, bbs)
      invariant step > 0 ==> (hit <==> TableDivides(v + step, FirstSieved(bbs)))
      decreases B - step
    {
      assert step > 0 ==> SievedAt(v, step, bbs);
      step := step + kstep;
      hit := StepResidues(resTab, bbs, v + (step - kstep));
    }
    if step == 0 {
      StepFitsDigit();
      assert false;
    }
  }

  lemma StepFitsDigit()
    ensures B > 4
  {
    PowMonoExp(2, 3, DIGIT_BIT);
    assert Pow(2, 3) == 8;
  }

  lemma SameForm(v: nat, n: nat, k: nat)
    requires (k == 2 || k == 4) && v % k == k - 1 && n >= v
    ensures (n - v) % k == 0 <==> n % k == k - 1
  {
    if k == 2 {
      assert n % 2 == 1 <==> (n - v) % 2 == 0;
    } else {
      assert n % 4 == 3 <==> (n - v) % 4 == 0;
    }
  }

  lemma WrongResidue(n: nat, bbs: bool, t: int)
    requires t <= PRIME_SIZE && n > LastPrime() && n % Kstep(bbs) != Kstep(bbs) - 1
    ensures !Accepted(n, bbs, t)
  {
    hide PrimeTab, ProbablyPrime, TableDivides, LastPrime, PassesRounds;
    if !bbs {
      DividesMod(2, n);
      EvenIsDivided(n);
      SievedOut(n, 0, t);
    }
  }

  lemma SievedAtDivides(v: nat, s: nat, bbs: bool)
    requires SievedAt(v, s, bbs)
    ensures TableDivides(v + s, FirstSieved(bbs))
  {
  }

  /** An odd number no odd entry divides is divided by no entry. */
  lemma OddUndivided(v: nat)
    requires v % 2 == 1 && !TableDivides(v, 1)
    ensures !TableDivides(v, 0)
  {
    hide PrimeTab, LastPrime;
    forall ix: nat
      ensures !DividedBy(v, ix, 0)
    {
      EntryOfOdd(v, ix);
    }
  }

  lemma EntryOfOdd(v: nat, ix: nat)
    requires v % 2 == 1
    ensures DividedBy(v, ix, 0) ==> DividedBy(v, ix, 1)
  {
    hide PrimeTab, LastPrime;
    EntryIsPrime(0);
    DividesMod(2, v);
  }

  /** The search ends at n: the cells, which hold n + shift, are not 0, and n passes the rounds. */
  ghost predicate Taken(n: int, shift: nat, bbs: bool, t: int)
    requires t <= PRIME_SIZE
  {
    n > 0 && !TableDivides(n + shift, FirstSieved(bbs)) && PassesRounds(n, t)
  }

  /** Nor does it end at a candidate between v and n. */
  ghost predicate NoneTaken(v: int, n: int, shift: nat, bbs: bool, t: int)
    requires t <= PRIME_SIZE
  {
    forall m: int :: v < m < n && (m - v) % Kstep(bbs) == 0 ==> !Taken(m, shift, bbs, t)
  }

  /** One pass of the search: from v on to the candidate n, which ends the search or does not. */
  ghost predicate Pass(v: int, n: int, found: bool, shift: nat, bbs: bool, t: int)
    requires t <= PRIME_SIZE
  {
    && v + shift >= 0 && n >= v + Kstep(bbs) && (n - v) % Kstep(bbs) == 0
    && n > 0 && PassedOver(v + shift, n - v, bbs)
    && (TableDivides(n + shift, FirstSieved(bbs)) ==> n - v >= B - Kstep(bbs))
    && (found <==> Taken(n, shift, bbs, t))
  }

  lemma SearchState(a: MpInt)
    requires a.Valid()
    ensures a.Loose()
    ensures a.Value() == if a.neg then 0 - a.Mag() else a.Mag()
  {
  }

  /** The body of the search loop: the sieve to the next candidate, and Miller-Rabin for it. */
  method SearchPass(a: MpInt, resTab: array<nat>, bbs: bool, t: nat, ghost shift: nat) returns (found: bool)
    requires a.Valid() && a.Value() >= -1 && a.Value() + shift >= 0
    requires Residual(resTab[..], a.Value() + shift, bbs) && 0 < t <= PRIME_SIZE
    modifies a, resTab
    ensures a.Valid() && !a.neg && a.Value() + shift >= 0 && Residual(resTab[..], a.Value() + shift, bbs)
    ensures Pass(old(a.Value()), a.Value(), found, shift, bbs, t)
  {
    hide *;
    SearchState(a);
    ghost var v := a.Value();
    Steps(bbs);
    var step, hit := NextCandidate(resTab, bbs, v + shift);
    var n: nat := a.Value() + step;
    a.neg := false;
    a.StoreMag(n);
    SearchState(a);
    found := false;
    if !(hit && step >= B - Kstep(bbs)) {
      var err;
      err, found := Rounds(a, t);
    }
    IsPass(v, step, hit, found, shift, bbs, t);
  }

  lemma IsPass(v: int, step: nat, hit: bool, found: bool, shift: nat, bbs: bool, t: int)
    requires t <= PRIME_SIZE && step >= Kstep(bbs) && step % Kstep(bbs) == 0
    requires v >= -1 && v + shift >= 0 && PassedOver(v + shift, step, bbs)
    requires hit <==> TableDivides(v + shift + step, FirstSieved(bbs))
    requires hit ==> step >= B - Kstep(bbs)
    requires v + step > 0 ==> if hit && step >= B - Kstep(bbs) then !found else found <==> PassesRounds(v + step, t)
    ensures Pass(v, v + step, found, shift, bbs, t)
  {
    hide PassedOver, TableDivides, PassesRounds, FirstSieved;
    assert v + step + shift == v + shift + step;
  }

  /** The sieve with Miller-Rabin, up to q, a number it would end at, at the latest. */
  method Search(a: MpInt, bbs: bool, t: nat, ghost shift: nat, ghost q: int)
    requires a.Valid() && a.Value() >= -1 && a.Value() + shift == a.Mag() && 0 < t <= PRIME_SIZE
    requires a.Value() < q && (q - a.Value()) % Kstep(bbs) == 0 && Taken(q, shift, bbs, t)
    modifies a
    ensures a.Valid() && !a.neg && old(a.Value()) < a.Value() <= q
    ensures (a.Value() - old(a.Value())) % Kstep(bbs) == 0
    ensures Taken(a.Value(), shift, bbs, t) && NoneTaken(old(a.Value()), a.Value(), shift, bbs, t)
  {
    hide *;
    SearchState(a);
    ghost var start := a.Value();
    var resTab := ResidueTable(a.Mag(), bbs);
    var found := false;
    EmptyGap(start, shift, bbs, t);
    while !found
      invariant a.Valid() && a.Loose() && a.Value() >= -1 && a.Value() + shift >= 0 && fresh(resTab)
      invariant Residual(resTab[..], a.Value() + shift, bbs)
      invariant Kstep(bbs) > 0 && (a.Value() - start) % Kstep(bbs) == 0 && start <= a.Value() <= q
      invariant !found ==> a.Value() < q && NoneTaken(start, a.Value() + 1, shift, bbs, t)
      invariant found ==> a.Value() > start && !a.neg && Taken(a.Value(), shift, bbs, t)
      invariant found ==> NoneTaken(start, a.Value(), shift, bbs, t)
      decreases !found, q - a.Value()
    {
      ghost var v := a.Value();
      found := SearchPass(a, resTab, bbs, t, shift);
      SearchState(a);
      AfterPass(start, v, a.Value(), q, found, shift, bbs, t);
    }
  }

  /** What a pass has shown: no candidate it passed over would have ended the search, q among them. */
  lemma AfterPass(start: int, v: int, n: int, q: int, found: bool, shift: nat, bbs: bool, t: nat)
    requires t <= PRIME_SIZE && start <= v < q && Pass(v, n, found, shift, bbs, t)
    requires (v - start) % Kstep(bbs) == 0 && (q - start) % Kstep(bbs) == 0
    requires Taken(q, shift, bbs, t) && NoneTaken(start, v + 1, shift, bbs, t)
    ensures v < n <= q && n > 0 && (n - start) % Kstep(bbs) == 0 && NoneTaken(start, n, shift, bbs, t)
    ensures found ==> Taken(n, shift, bbs, t)
    ensures !found ==> n < q && NoneTaken(start, n + 1, shift, bbs, t)
  {
    hide Taken, TableDivides, PassesRounds, PassedOver;
    var k := Kstep(bbs);
    StepsAdd(start, v, n, k);
    forall m: int | start < m < n && (m - start) % k == 0
      ensures !Taken(m, shift, bbs, t)
    {
      if m > v {
        StepsBetween(start, v, m, k);
        PassedNotTaken(v, m - v, n - v, shift, bbs, t);
      }
    }
  }

  lemma StepsAdd(start: int, v: int, n: int, k: nat)
    requires (k == 2 || k == 4) && (v - start) % k == 0 && (n - v) % k == 0
    ensures (n - start) % k == 0
  {
    if k == 2 {
      assert (n - start) % 2 == 0;
    } else {
      assert (n - start) % 4 == 0;
    }
  }

  lemma StepsBetween(start: int, v: int, m: int, k: nat)
    requires (k == 2 || k == 4) && (v - start) % k == 0 && (m - start) % k == 0
    ensures (m - v) % k == 0
  {
    if k == 2 {
      assert (m - v) % 2 == 0;
    } else {
      assert (m - v) % 4 == 0;
    }
  }

  lemma PassedNotTaken(v: int, s: nat, step: nat, shift: nat, bbs: bool, t: int)
    requires t <= PRIME_SIZE && v + shift >= 0 && PassedOver(v + shift, step, bbs)
    requires 0 < s < step && s % Kstep(bbs) == 0
    ensures !Taken(v + s, shift, bbs, t)
  {
    hide TableDivides, PassesRounds, Kstep, FirstSieved;
    assert SievedAt(v + shift, s, bbs);
    SievedAtDivides(v + shift, s, bbs);
    assert v + shift + s == v + s + shift;
  }

  lemma EmptyGap(lo: int, shift: nat, bbs: bool, t: int)
    requires t <= PRIME_SIZE
    ensures NoneTaken(lo, lo + 1, shift, bbs, t) && Kstep(bbs) > 0 && 0 % Kstep(bbs) == 0
  {
  }

  // ----- from a number above the table

  /** Above the table, and with the right residue, the search takes what is to be taken. */
  lemma TakenIsAccepted(n: nat, bbs: bool, t: int)
    requires t <= PRIME_SIZE && n > LastPrime() && n % Kstep(bbs) == Kstep(bbs) - 1
    ensures Taken(n, 0, bbs, t) <==> Accepted(n, bbs, t)
  {
    hide PrimeTab, LastPrime, TableDivides, PassesRounds;
    if !bbs {
      OddDivided(n);
      NotInTable(n);
    }
  }

  lemma OddDivided(n: nat)
    requires n % 2 == 1
    ensures TableDivides(n, 0) <==> TableDivides(n, 1)
  {
    hide PrimeTab, LastPrime;
    if ix: nat :| DividedBy(n, ix, 1) {
      assert DividedBy(n, ix, 0);
    } else {
      OddUndivided(n);
    }
  }

  lemma NonePassesAbove(v: nat, n: nat, bbs: bool, t: int)
    requires t <= PRIME_SIZE && v >= LastPrime() && v % Kstep(bbs) == Kstep(bbs) - 1 && NoneTaken(v, n, 0, bbs, t)
    ensures NonePasses(v, n, bbs, t)
  {
    hide PrimeTab, LastPrime, Taken, Accepted;
    forall m: nat | v < m < n
      ensures !Accepted(m, bbs, t)
    {
      if m % Kstep(bbs) == Kstep(bbs) - 1 {
        SameForm(v, m, Kstep(bbs));
        TakenIsAccepted(m, bbs, t);
      } else {
        WrongResidue(m, bbs, t);
      }
    }
  }

  /** There is always another number to be found. */
  lemma LargerCandidate(v: nat, bbs: bool, t: int) returns (q: int)
    requires t <= PRIME_SIZE && v >= LastPrime() && v % Kstep(bbs) == Kstep(bbs) - 1
    ensures q > v && (q - v) % Kstep(bbs) == 0 && Taken(q, 0, bbs, t)
  {
    hide LastPrime, Accepted, Taken;
    if bbs {
      q := LargerPrime3Mod4(v);
    } else {
      q := LargerPrime(v);
      LastAboveTwo();
      OddPrime(q);
    }
    PrimesAccepted(q, bbs, t);
    SameForm(v, q, Kstep(bbs));
    TakenIsAccepted(q, bbs, t);
  }

  lemma OddPrime(q: int)
    requires IsPrime(q) && q > 2
    ensures q % 2 == 1
  {
    if q % 2 == 0 {
      EvenNotPrime(q);
    }
  }

  /** n is the first number above start that is taken. */
  ghost predicate IsNext(start: nat, n: nat, bbs: bool, t: int)
    requires t <= PRIME_SIZE
  {
    n > start && Accepted(n, bbs, t) && NonePasses(start, n, bbs, t)
  }

  /** There is only one answer. */
  lemma NextUnique(start: nat, n: nat, m: nat, bbs: bool, t: int)
    requires t <= PRIME_SIZE && IsNext(start, n, bbs, t) && IsNext(start, m, bbs, t)
    ensures n == m
  {
    hide Accepted;
  }

  /** A prime of the form asked for is taken. */
  lemma PrimesAccepted(p: nat, bbs: bool, t: int)
    requires IsPrime(p) && t <= PRIME_SIZE && (bbs ==> p % 4 == 3)
    ensures Accepted(p, bbs, t)
  {
    hide PrimeTab, LastPrime, TableDivides, PassesRounds;
    PrimesPass(p, t);
    if p > LastPrime() {
      NotInTable(p);
      if bbs {
        OnlyThreeMissing(p);
      }
    }
  }

  /**
   No prime of the form asked for is passed over. Below the square of the largest entry the answer is a prime,
   in the mode with steps of 4 if there are two rounds.
   */
  lemma NextSkipsNoPrime(start: nat, n: nat, bbs: bool, t: int)
    requires t <= PRIME_SIZE && start >= 1 && IsNext(start, n, bbs, t)
    ensures forall p: nat :: start < p < n && (bbs ==> p % 4 == 3) ==> !IsPrime(p)
    ensures n < LastPrime() * LastPrime() && (bbs ==> t >= 2) ==> IsPrime(n)
    ensures bbs ==> n % 4 == 3
  {
    hide ProbablyPrime, IsPrime, LastPrime, TableDivides, PassesRounds;
    forall p: nat | start < p < n && (bbs ==> p % 4 == 3)
      ensures !IsPrime(p)
    {
      if IsPrime(p) {
        PrimesAccepted(p, bbs, t);
        assert false;
      }
    }
    if n < LastPrime() * LastPrime() && (bbs ==> t >= 2) {
      AcceptedIsProbablyPrime(n, bbs, t);
      SmallVerdict(n, t);
    }
  }

  /** The largest entry not above v and the next one are both 3 modulo 4. */
  ghost predicate BothThree(v: int) {
    exists x: nat :: Around(v, x) && PrimeTab(x) % 4 == 3 && PrimeTab(x + 1) % 4 == 3
  }

  ghost predicate Around(v: int, x: nat) {
    x + 1 < PRIME_SIZE && PrimeTab(x) <= v < PrimeTab(x + 1)
  }

  /** Where the search for a prime congruent to 3 modulo 4 goes wrong. */
  ghost predicate ScanFails(v: int, bbs: bool) {
    bbs && (v <= 2 || BothThree(v))
  }

  /**
   n is the first of an unbroken row of primes congruent to 3 modulo 4, which begins at or below v and reaches
   beyond v: the prime before n is not of that form.
   */
  ghost predicate IsRunStart(v: nat, n: int) {
    && IsPrime(n) && n <= v
    && (exists up: nat :: IsPrime(up) && v < up && OnlyThrees(n, up))
    && exists low: nat :: IsPrime(low) && low < n && low % 4 != 3 && NoPrimeBetween(low, n)
  }

  ghost predicate OnlyThrees(lo: int, hi: int) {
    forall q: nat :: IsPrime(q) && lo <= q <= hi ==> q % 4 == 3
  }

  ghost predicate NoPrimeBetween(lo: int, hi: int) {
    forall q: nat :: lo < q < hi ==> !IsPrime(q)
  }

  /** There is only one such prime. */
  lemma RunStartUnique(v: nat, n: int, m: int)
    requires IsRunStart(v, n) && IsRunStart(v, m)
    ensures n == m
  {
    if n < m {
      NotTwoStarts(v, n, m);
    } else if m < n {
      NotTwoStarts(v, m, n);
    }
  }

  lemma NotTwoStarts(v: nat, n: int, m: int)
    requires IsRunStart(v, n) && IsRunStart(v, m)
    ensures !(n < m)
  {
    hide IsPrime;
    PrimePositive(n);
  }

  lemma PrimePositive(p: int)
    requires IsPrime(p)
    ensures p > 1
  {
  }

  /** For instance at 7, between 7 and 11: the answer from there is 7 again. */
  lemma SevenFails()
    ensures ScanFails(7, true) && IsRunStart(7, 7)
  {
    SevenInTable();
    hide PrimeTab, IsPrime;
    assert Around(7, 3);
    TrialDivision(5);
    TrialDivision(7);
    TrialDivision(11);
    forall q: nat | IsPrime(q) && 7 <= q <= 11
      ensures q % 4 == 3
    {
      TrialDivision(q);
    }
    forall q: nat | 5 < q < 7
      ensures !IsPrime(q)
    {
      TrialDivision(q);
    }
    assert OnlyThrees(7, 11) && NoPrimeBetween(5, 7);
  }

  lemma SevenInTable()
    ensures PrimeTab(3) == 7 && PrimeTab(4) == 11
  {
  }

  /** The row of entries from y to the one above v, and the entry before y. */
  lemma EntriesAreRun(v: nat, x: nat, y: nat)
    requires Around(v, x) && 1 <= y <= x && PrimeTab(y - 1) % 4 != 3
    requires forall i: nat :: y <= i <= x + 1 ==> PrimeTab(i) % 4 == 3
    ensures IsRunStart(v, PrimeTab(y))
  {
    hide PrimeTab, LastPrime, IsPrime;
    EntryIsPrime(y);
    EntryIsPrime(y - 1);
    EntryIsPrime(x + 1);
    NextPrimeEntry(y);
    Increasing(y, x);
    var n, up := PrimeTab(y), PrimeTab(x + 1);
    forall q: nat | IsPrime(q) && n <= q <= up
      ensures q % 4 == 3
    {
      LastIs();
      TableIsComplete(q, PRIME_SIZE);
      var i: nat :| i < PRIME_SIZE && q == PrimeTab(i);
      if i < y {
        Increasing(i, y);
      }
      if i > x + 1 {
        Increasing(x + 1, i);
      }
    }
    assert OnlyThrees(n, up) && NoPrimeBetween(PrimeTab(y - 1), n);
  }

  lemma LastIsThree()
    ensures LastPrime() % 4 == 3 && LastPrime() == PrimeTab(PRIME_SIZE - 1)
  {
  }

  lemma FindAround(v: int, x: nat) returns (x0: nat)
    requires x + 1 < PRIME_SIZE && PrimeTab(x) <= v < LastPrime()
    ensures x <= x0 && Around(v, x0)
    decreases PRIME_SIZE - x
  {
    hide PrimeTab, LastPrime;
    LastIs();
    if v < PrimeTab(x + 1) {
      x0 := x;
    } else {
      x0 := FindAround(v, x + 1);
    }
  }

  lemma AroundUnique(v: int, x: nat, y: nat)
    requires Around(v, x) && Around(v, y)
    ensures x == y
  {
    hide PrimeTab;
    if x < y {
      Increasing(x + 1, y);
    } else if y < x {
      Increasing(y + 1, x);
    }
  }

  lemma NoBothThree(v: int, x: nat)
    requires Around(v, x) && (PrimeTab(x) % 4 != 3 || PrimeTab(x + 1) % 4 != 3)
    ensures !BothThree(v)
  {
    hide PrimeTab, Around;
    forall y: nat | Around(v, y)
      ensures y == x
    {
      AroundUnique(v, x, y);
    }
  }

  /** The first entry of the form asked for after v is the next number taken. */
  lemma NextOfForm(v: nat, x: nat, y: nat, t: int)
    requires t <= PRIME_SIZE && Around(v, x) && x < y < PRIME_SIZE && PrimeTab(y) % 4 == 3
    requires forall i: nat :: x < i < y ==> PrimeTab(i) % 4 != 3
    ensures IsNext(v, PrimeTab(y), true, t)
  {
    hide PrimeTab, LastPrime, IsPrime, ProbablyPrime;
    EntryIsPrime(x);
    EntryIsPrime(y);
    Increasing(x + 1, y);
    PrimesAccepted(PrimeTab(y), true, t);
    forall n: nat | v < n < PrimeTab(y)
      ensures !Accepted(n, true, t)
    {
      if n % 4 == 3 {
        MulMono(2, LastPrime(), LastPrime());
        SmallVerdict(n, t);
        NotOfForm(n, v, x, y);
      }
    }
  }

  lemma NotOfForm(n: nat, v: nat, x: nat, y: nat)
    requires Around(v, x) && x < y < PRIME_SIZE && v < n < PrimeTab(y) && n % 4 == 3
    requires forall i: nat :: x < i < y ==> PrimeTab(i) % 4 != 3
    ensures !IsPrime(n)
  {
    hide PrimeTab, LastPrime;
    if IsPrime(n) {
      EntryIsPrime(y);
      LastIs();
      TableIsComplete(n, PRIME_SIZE);
      var i: nat :| i < PRIME_SIZE && n == PrimeTab(i);
      if i <= x {
        Increasing(i, x);
      }
      if i >= y {
        Increasing(y, i);
      }
      assert false;
    }
  }

  /** The scan went down to x without an answer because of the forms of the entries it passed. */
  ghost predicate PassedEntries(v: int, x: int) {
    forall i: nat :: x < i <= PRIME_SIZE - 2 && PrimeTab(i) <= v ==> PrimeTab(i + 1) % 4 == 3
  }

  /** Where the scan stops, and when that is the right place. */
  lemma ScanResult(v: nat, x: nat, y: nat, t: int)
    requires t <= PRIME_SIZE && v < LastPrime() && x + 1 < PRIME_SIZE && PrimeTab(x) <= v && PassedEntries(v, x)
    requires PrimeTab(x + 1) % 4 != 3 && x < y < PRIME_SIZE && PrimeTab(y) % 4 == 3
    requires forall i: nat :: x < i < y ==> PrimeTab(i) % 4 != 3
    ensures IsNext(v, PrimeTab(y), true, t) <==> !ScanFails(v, true)
    ensures BothThree(v) ==> IsRunStart(v, PrimeTab(y))
  {
    hide PrimeTab, LastPrime, Accepted, NonePasses, IsRunStart;
    EntryIsPrime(x);
    FromTwo(v, x);
    var x0 := FindAround(v, x);
    if x0 >= x + 2 {
      Increasing(x + 1, x0);
      Increasing(x0 - 1, x0);
      assert PrimeTab(x + 2) % 4 == 3;
      Increasing(y, x0);
      assert PrimeTab(x0 - 1 + 1) % 4 == 3 && PrimeTab(x0 + 1) % 4 == 3;
      assert Around(v, x0);
      RowBehind(v, x, x0);
      EntriesAreRun(v, x0, y);
    } else {
      NoBothThree(v, x0);
      NextOfForm(v, x0, y, t);
    }
  }

  lemma RowBehind(v: nat, x: nat, x0: nat)
    requires PassedEntries(v, x) && Around(v, x0) && x < x0
    ensures forall i: nat :: x + 2 <= i <= x0 + 1 ==> PrimeTab(i) % 4 == 3
  {
    hide PrimeTab;
    forall i: nat | x + 2 <= i <= x0 + 1
      ensures PrimeTab(i) % 4 == 3
    {
      Increasing(i - 1, x0);
      assert PrimeTab(i - 1 + 1) % 4 == 3;
    }
  }

  /** The inner scan of the table. Its last entry is of the form looked for. */
  method FirstOfForm(x: nat) returns (y: nat)
    requires x < PRIME_SIZE
    ensures x <= y < PRIME_SIZE && PrimeTab(y) % 4 == 3
    ensures forall i: nat :: x <= i < y ==> PrimeTab(i) % 4 != 3
  {
    hide PrimeTab, LastPrime;
    LastIsThree();
    y := x;
    while PrimeTab(y) % 4 != 3
      invariant x <= y < PRIME_SIZE
      invariant forall i: nat :: x <= i < y ==> PrimeTab(i) % 4 != 3
      decreases PRIME_SIZE - y
    {
      y := y + 1;
    }
  }

  /**
   Below the last entry the table has the answer, which in the mode with steps of 4 need not be the next one.
   From 0, and in that mode from 2, the scan leaves without one.
   */
  method NextInTable(a: MpInt, bbs: bool, t: int) returns (done: bool)
    requires a.Valid() && !a.neg && a.Mag() < LastPrime() && 0 < t <= PRIME_SIZE
    modifies a
    ensures a.Valid() && !a.neg && (done <==> old(a.Mag()) != 0 && (bbs ==> old(a.Mag()) != 2))
    ensures !done ==> a.Mag() == old(a.Mag())
    ensures done ==> (IsNext(old(a.Mag()), a.Mag(), bbs, t) <==> !ScanFails(old(a.Mag()), bbs))
    ensures done && bbs && BothThree(old(a.Mag())) ==> IsRunStart(old(a.Mag()), a.Mag())
    ensures done && old(a.Mag()) == 1 ==> a.Mag() == 2
  {
    hide IsNext, PrimeTab, LastPrime, BothThree, PassedEntries, IsRunStart;
    ghost var v := a.Mag();
    LastIs();
    var x: int := PRIME_SIZE - 2;
    StartOfScan(v);
    while x >= 0
      invariant a.Valid() && !a.neg && a.Mag() == v == old(a.Mag())
      invariant -1 <= x <= PRIME_SIZE - 2 && PassedEntries(v, x)
      invariant !bbs ==> v < PrimeTab(x + 1)
    {
      EntryIsPrime(x);
      if a.Mag() >= PrimeTab(x) {
        if bbs {
          if PrimeTab(x + 1) % 4 != 3 {
            var y := FirstOfForm(x + 1);
            ScanResult(v, x, y, t);
            a.StoreMag(PrimeTab(y));
            FromTwo(v, x);
            return true;
          }
        } else {
          NextEntry(v, x + 1, t);
          AboveOne(v, x);
          a.StoreMag(PrimeTab(x + 1));
          return true;
        }
      }
      OneMoreEntry(v, x);
      x := x - 1;
    }
    ScanEnds(v, bbs);
    if a.Mag() == 1 {
      OneIsBelow(v);
      NextEntry(1, 0, t);
      TwoNotWanted(t);
      a.StoreMag(2);
      return true;
    }
    done := false;
  }

  lemma AboveOne(v: nat, x: nat)
    requires x < PRIME_SIZE && PrimeTab(x) <= v
    ensures v >= 2
  {
    hide PrimeTab;
    EntryIsPrime(x);
  }

  lemma OneIsBelow(v: nat)
    requires v < 2
    ensures !BothThree(v)
  {
    hide PrimeTab;
    forall x: nat
      ensures !Around(v, x)
    {
      if Around(v, x) {
        EntryIsPrime(x);
        assert false;
      }
    }
  }

  /** Where the scan finds something it has got past 3, or past an entry not above v. */
  lemma FromTwo(v: nat, x: nat)
    requires x < PRIME_SIZE - 1 && PrimeTab(x) <= v && PrimeTab(x + 1) % 4 != 3
    ensures v >= 3
  {
    EntryIsPrime(x);
    SecondAndThird();
    hide PrimeTab;
    if x > 0 {
      EntryIsPrime(x);
    }
  }

  lemma StartOfScan(v: int)
    ensures PassedEntries(v, PRIME_SIZE - 2)
  {
    hide PrimeTab;
  }

  lemma OneMoreEntry(v: int, x: nat)
    requires x <= PRIME_SIZE - 2 && PassedEntries(v, x)
    ensures v < PrimeTab(x) || PrimeTab(x + 1) % 4 == 3 ==> PassedEntries(v, x - 1)
  {
    hide PrimeTab;
  }

  /** From 3 on the entry 5 stops the scan. */
  lemma ScanEnds(v: int, bbs: bool)
    requires v >= 0 && (if bbs then PassedEntries(v, -1) else v < PrimeTab(0))
    ensures (if bbs then v <= 2 else v <= 1) && PrimeTab(0) == 2
  {
    hide PrimeTab, PassedEntries;
    FirstEntry();
    SecondAndThird();
    if bbs {
      PassedSecond(v);
    }
  }

  lemma PassedSecond(v: int)
    requires PassedEntries(v, -1)
    ensures v < PrimeTab(1) || PrimeTab(2) % 4 == 3
  {
    hide PrimeTab;
  }

  lemma TwoNotWanted(t: int)
    requires t <= PRIME_SIZE
    ensures !IsNext(1, 2, true, t)
  {
    hide ProbablyPrime, LastPrime, TableDivides, PassesRounds;
  }

  /** From the last entry on the sieve finds it. */
  method NextBySieve(a: MpInt, bbs: bool, t: int)
    requires a.Valid() && !a.neg && a.Mag() >= LastPrime() && 0 < t <= PRIME_SIZE
    modifies a
    ensures a.Valid() && !a.neg && IsNext(old(a.Mag()), a.Mag(), bbs, t)
  {
    hide *;
    SearchState(a);
    ghost var start := a.Mag();
    FormBelow(start);
    Steps(bbs);
    if bbs {
      if a.Mag() % 4 != 3 {
        a.StoreMag(a.Mag() - (a.Mag() % 4 + 1));
      }
    } else if a.Mag() % 2 == 0 {
      a.StoreMag(a.Mag() - 1);
    }
    SearchState(a);
    ghost var v := a.Mag();
    ghost var q := LargerCandidate(v, bbs, t);
    Search(a, bbs, t, 0, q);
    SearchState(a);
    FromBelow(start, v, a.Mag(), bbs, t);
  }

  lemma Steps(bbs: bool)
    ensures Kstep(bbs) == if bbs then 4 else 2
  {
  }

  /** The last entry is of either form, so the numbers of these forms not above v do not fall below it. */
  lemma FormBelow(v: nat)
    requires v >= LastPrime()
    ensures v % 4 != 3 ==> v >= v % 4 + 1 && v - (v % 4 + 1) >= LastPrime() && (v - (v % 4 + 1)) % 4 == 3
    ensures v % 2 == 0 ==> v > LastPrime() && (v - 1) % 2 == 1
  {
    LastIsThree();
    hide LastPrime;
  }

  /** Starting at the number of the right form not above start makes no difference. */
  lemma FromBelow(start: nat, v: nat, n: nat, bbs: bool, t: int)
    requires t <= PRIME_SIZE && LastPrime() <= v <= start < v + Kstep(bbs) && v % Kstep(bbs) == Kstep(bbs) - 1
    requires n > v && (n - v) % Kstep(bbs) == 0 && Taken(n, 0, bbs, t) && NoneTaken(v, n, 0, bbs, t)
    ensures IsNext(start, n, bbs, t)
  {
    hide Accepted, Taken, NoneTaken, LastPrime;
    SameForm(v, n, Kstep(bbs));
    TakenIsAccepted(n, bbs, t);
    NonePassesAbove(v, n, bbs, t);
    StepAtLeast(n - v, Kstep(bbs));
  }

  lemma StepAtLeast(d: nat, k: nat)
    requires d > 0 && k > 0 && d % k == 0
    ensures d >= k
  {
    if d < k {
      ModSmall(d, k);
    }
  }

  // ----- from 0 and 2 in the mode with steps of 4

  /** The sieve starts at -1 with every cell at 1, and takes the first n of -1 + 4, -1 + 8, ... it does not reject. */
  ghost predicate FromMinusOne(n: int, t: int)
    requires t <= PRIME_SIZE
  {
    n % 4 == 3 && Taken(n, 2, true, t) && NoneTaken(-1, n, 2, true, t)
  }

  lemma FromMinusOneUnique(n: int, m: int, t: int)
    requires t <= PRIME_SIZE && FromMinusOne(n, t) && FromMinusOne(m, t)
    ensures n == m
  {
    hide Taken;
    FormFromMinusOne(n, t);
    FormFromMinusOne(m, t);
  }

  lemma FormFromMinusOne(n: int, t: int)
    requires t <= PRIME_SIZE && FromMinusOne(n, t)
    ensures n > -1 && (n - -1) % Kstep(true) == 0
  {
    hide NoneTaken, TableDivides, PassesRounds;
  }

  /** That n is at most 1667, which like 1669 is a prime above the table. */
  lemma EndsBy1667(t: int)
    requires t <= PRIME_SIZE
    ensures (1667 - -1) % Kstep(true) == 0 && Taken(1667, 2, true, t)
  {
    hide PrimeTab, LastPrime, PassesRounds, Strong;
    TwinPrimes();
    EntryIsPrime(0);
    PrimesPass(1667, t);
    NotInTable(1667);
    forall ix: nat
      ensures !DividedBy(1669, ix, 2)
    {
      if DividedBy(1669, ix, 2) {
        TableDivisorOfPrime(1669, ix, 2);
        NotInTable(1669);
        assert false;
      }
    }
  }

  lemma TwinPrimes()
    ensures IsPrime(1667) && IsPrime(1669)
  {
    hide IsPrime;
    TrialDivision(1667);
    TrialDivision(1669);
  }

  /** It is never 3, because at 3 the cell of 5 becomes 0. */
  lemma ThreePassedOver(n: int, t: int)
    requires t <= PRIME_SIZE && FromMinusOne(n, t)
    ensures n != 3 && Stepped(1, 2, 4) == 0
  {
    hide PrimeTab, PassesRounds, NoneTaken;
    FiveDivides();
  }

  lemma FiveDivides()
    ensures DividedBy(5, 2, 2) && Stepped(1, 2, 4) == 0
  {
    SecondAndThird();
    hide PrimeTab;
    CongIntro(5, 0, 5, 1);
  }

  /** But 3 is the answer wanted from 0 and from 2. */
  lemma ThreeWanted(v: nat, t: int)
    requires v <= 2 && t <= PRIME_SIZE
    ensures IsNext(v, 3, true, t)
  {
    hide PrimeTab, LastPrime, ProbablyPrime, IsPrime;
    ThreeIsPrime();
    PrimesAccepted(3, true, t);
    EntryIsPrime(0);
  }

  lemma ThreeIsPrime()
    ensures IsPrime(3)
  {
    hide IsPrime;
    TrialDivision(3);
  }

  /** With up to three rounds it is 7. */
  lemma SevenFromMinusOne(n: int, t: int)
    requires 0 < t <= 3
    ensures FromMinusOne(n, t) <==> n == 7
  {
    hide PrimeTab, LastPrime, Strong, IsPrime;
    SevenTaken(t);
    FiveDivides();
    assert !Taken(3, 2, true, t);
    assert (7 - -1) % Kstep(true) == 0;
  }

  lemma SevenTaken(t: int)
    requires 0 < t <= 3
    ensures Taken(7, 2, true, t)
  {
    hide PrimeTab, LastPrime, Strong, IsPrime;
    SevenIsPrime();
    forall ix: nat | ix < t
      ensures StrongFor(7, ix)
    {
      FirstThree(ix);
      OtherPrimeIsStrong(7, ix);
    }
    forall ix: nat
      ensures !DividedBy(9, ix, 2)
    {
      if DividedBy(9, ix, 2) {
        FromFive(ix);
        EntryIsPrime(ix);
        PrimeDividesProduct(PrimeTab(ix), 3, 3);
        DivisorBound(PrimeTab(ix), 3);
        assert false;
      }
    }
  }

  lemma FirstThree(ix: nat)
    requires ix < 3
    ensures PrimeTab(ix) <= 5
  {
    assert PrimeTab(0) == 2 && PrimeTab(1) == 3 && PrimeTab(2) == 5;
  }

  lemma SevenIsPrime()
    ensures IsPrime(7)
  {
    hide IsPrime;
    TrialDivision(7);
  }

  /** mp_sub_d to -1, and the search from there. */
  method NextFromMinusOne(a: MpInt, t: int)
    requires a.Valid() && !a.neg && (a.Mag() == 0 || a.Mag() == 2) && 0 < t <= PRIME_SIZE
    modifies a
    ensures a.Valid() && !a.neg && FromMinusOne(a.Value(), t) && a.Value() <= 1667
  {
    hide Taken, NoneTaken, FromMinusOne, Sum;
    a.StoreMag(1);
    a.UsedIsLength();
    PZero();
    a.neg := true;
    EndsBy1667(t);
    Search(a, true, t, 2, 1667);
    FoundFromMinusOne(a.Value(), t);
  }

  lemma FoundFromMinusOne(n: int, t: int)
    requires t <= PRIME_SIZE && (n - -1) % 4 == 0 && Taken(n, 2, true, t) && NoneTaken(-1, n, 2, true, t)
    ensures FromMinusOne(n, t)
  {
    hide Taken, NoneTaken;
  }

  /** So the answer from there is never the next one. */
  lemma MinusOneFails(v: nat, n: int, t: int)
    requires (v == 0 || v == 2) && t <= PRIME_SIZE && FromMinusOne(n, t)
    ensures n >= 0 && !IsNext(v, n, true, t)
  {
    hide IsNext, Taken, NoneTaken, FromMinusOne;
    FoundPositive(n, t);
    ThreePassedOver(n, t);
    ThreeWanted(v, t);
    if IsNext(v, n, true, t) {
      NextUnique(v, n, 3, true, t);
    }
  }

  lemma FoundPositive(n: int, t: int)
    requires t <= PRIME_SIZE && FromMinusOne(n, t)
    ensures n > 0
  {
  }

  /** mp_prime_next_prime. From 0 with steps of 2 it would not end. */
  method NextPrime(a: MpInt, t: int, bbs: bool) returns (err: Err)
    requires a.Valid() && (0 < t <= PRIME_SIZE && !bbs ==> a.Value() != 0)
    modifies a
    ensures err == Okay <==> 0 < t <= PRIME_SIZE
    ensures err == Val ==> unchanged(a)
    ensures err == Okay ==> a.Valid() && !a.neg
    ensures err == Okay ==> (IsNext(Abs(old(a.Value())), a.Value(), bbs, t) <==> !ScanFails(Abs(old(a.Value())), bbs))
    ensures err == Okay && bbs && (old(a.Value()) == 0 || Abs(old(a.Value())) == 2) ==> FromMinusOne(a.Value(), t)
    ensures err == Okay && bbs && BothThree(Abs(old(a.Value()))) ==> IsRunStart(Abs(old(a.Value())), a.Value())
    ensures err == Okay && Abs(old(a.Value())) == 1 ==> a.Value() == 2
  {
    if t <= 0 || t > PRIME_SIZE {
      return Val;
    }
    err := Okay;
    hide IsNext, PrimeTab, LastPrime, BothThree, FromMinusOne, IsRunStart;
    LastIs();
    LastAboveTwo();
    a.neg := false;
    ghost var v := a.Mag();
    if a.Mag() < PrimeTab(PRIME_SIZE - 1) {
      var done := NextInTable(a, bbs, t);
      if done {
        return;
      }
      NotAround(v);
      NextFromMinusOne(a, t);
      MinusOneFails(v, a.Value(), t);
    } else {
      AboveTheTable(a.Mag(), bbs);
      NextBySieve(a, bbs, t);
    }
  }

  /** Below 3 nothing is between two entries of the form. */
  lemma NotAround(v: nat)
    requires v <= 2
    ensures !BothThree(v)
  {
    SecondAndThird();
    FirstEntry();
    hide PrimeTab;
    forall x: nat | Around(v, x)
      ensures PrimeTab(x) % 4 != 3
    {
      if x > 0 {
        EntryIsPrime(x);
        assert false;
      }
    }
  }

  lemma AboveTheTable(v: nat, bbs: bool)
    requires v >= LastPrime()
    ensures !ScanFails(v, bbs) && !BothThree(v)
  {
    hide PrimeTab, LastPrime;
    LastIs();
    LastAboveTwo();
    forall x: nat
      ensures !Around(v, x)
    {
      if Around(v, x) {
        Increasing(x + 1, PRIME_SIZE - 1);
        assert false;
      }
    }
  }

  lemma LastAboveTwo()
    ensures LastPrime() > 2
  {
    hide *;
    LastIs();
    EntryIsPrime(PRIME_SIZE - 1);
  }

  lemma NextEntry(v: nat, ix: nat, t: int)
    requires ix < PRIME_SIZE && t <= PRIME_SIZE && v < PrimeTab(ix) && v >= if ix == 0 then 1 else PrimeTab(ix - 1)
    ensures IsNext(v, PrimeTab(ix), false, t)
  {
    hide PrimeTab, LastPrime, IsPrime, ProbablyPrime;
    EntryIsPrime(ix);
    if ix > 0 {
      EntryIsPrime(ix - 1);
    }
    NextPrimeEntry(ix);
    PrimesPass(PrimeTab(ix), t);
    forall n: nat | v < n < PrimeTab(ix)
      ensures !Accepted(n, false, t)
    {
      MulMono(2, LastPrime(), LastPrime());
      SmallVerdict(n, t);
    }
  }

  // ----- what is taken, in terms of primes and powers

  /** The search takes n if no prime from 3, or 5 with steps of 4, divides what the cells hold, and the powers pass. */
  lemma TakenMeans(n: nat, shift: nat, bbs: bool, t: int, r: nat, s: nat)
    requires n > 1 && t <= PRIME_SIZE && IsSplit(n, r, s)
    ensures Taken(n, shift, bbs, t) <==>
      (forall p: nat :: IsPrime(p) && (if bbs then 5 else 3) <= p <= LastPrime() ==> !Divides(p, n + shift))
      && (forall ix: nat :: ix < t ==> PowersPass(n, PrimeTab(ix), r, s))
  {
    SecondAndThird();
    hide PrimeTab, LastPrime, IsPrime, Divides, TableDivides, PassesRounds, IsSplit, PowersPass;
    TableDividesMeans(n + shift, FirstSieved(bbs));
    RoundsMean(n, t, r, s);
  }

  /** Above the table the next number is the next one without a prime divisor there and with powers that pass. */
  lemma AcceptedMeans(n: nat, bbs: bool, t: int, r: nat, s: nat)
    requires n > LastPrime() && t <= PRIME_SIZE && IsSplit(n, r, s)
    ensures Accepted(n, bbs, t) <==>
      (bbs ==> n % 4 == 3)
      && (forall p: nat :: IsPrime(p) && (if bbs then 5 else 2) <= p <= LastPrime() ==> !Divides(p, n))
      && (forall ix: nat :: ix < t ==> PowersPass(n, PrimeTab(ix), r, s))
  {
    SecondAndThird();
    FirstEntry();
    LastAboveTwo();
    hide PrimeTab, LastPrime, IsPrime, Divides, TableDivides, PassesRounds, IsSplit, PowersPass, InTable;
    TableDividesMeans(n, if bbs then 2 else 0);
    RoundsMean(n, t, r, s);
    NotInTable(n);
  }

  /** A run of the search loop: the numbers it stands at, and what each pass reported. */
  ghost predicate SearchRun(at: seq<nat>, found: seq<bool>, t: int)
    requires t <= PRIME_SIZE
  {
    |at| == |found| + 1 && forall i: nat :: i < |found| ==> Pass(at[i], at[i + 1], found[i], 0, false, t)
  }

  /** From zero the search goes over even numbers only, and however many passes it makes, none of them ends it. */
  lemma {:induction false} ZeroNeverEnds(at: seq<nat>, found: seq<bool>, t: int)
    requires 0 < t <= PRIME_SIZE && SearchRun(at, found, t) && at[0] == 0
    ensures at[|found|] % 2 == 0 && at[|found|] >= 2 * |found|
    ensures forall i: nat :: i < |found| ==> !found[i]
  {
    hide PassesRounds;
    if |found| > 0 {
      var k := |found| - 1;
      ZeroNeverEnds(at[..|at| - 1], found[..k], t);
      EvenPass(at[k], at[k + 1], found[k], t);
      assert forall i: nat :: i < k ==> found[i] == found[..k][i];
    }
  }

  lemma EvenPass(v: nat, n: nat, found: bool, t: int)
    requires 0 < t <= PRIME_SIZE && v % 2 == 0 && Pass(v, n, found, 0, false, t)
    ensures n % 2 == 0 && n >= v + 2 && !found
  {
    hide Strong, PrimeTab, PassedOver, TableDivides;
    if found {
      EntryIsPrime(0);
      assert StrongFor(n, 0);
      DividesMod(2, n);
      DivisorFails(n, 2);
    }
  }
}
