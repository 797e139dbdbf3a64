/**
 The tests that select a reduction by the form of the modulus.
 */
module ModulusForms {
  import opened Arith
  import opened Radix
  import opened MpInts
  import opened Bits
  import opened Reducers

  /** How many of the first n digits are MP_MASK. */
  function MaskDigits(dp: seq<nat>, n: nat): nat
    requires n <= |dp|
  {
    if n == 0 then 0 else MaskDigits(dp, n - 1) + if dp[n - 1] == B - 1 then 1 else 0
  }

  lemma {:induction false} MaskDigitsCounts(dp: seq<nat>, n: nat)
    requires n <= |dp|
    ensures MaskDigits(dp, n) == |set i: nat | i < n && dp[i] == B - 1|
  {
    var s := set i: nat | i < n && dp[i] == B - 1;
    if n == 0 {
      assert s == {};
    } else {
      MaskDigitsCounts(dp, n - 1);
      var t := set i: nat | i < n - 1 && dp[i] == B - 1;
      assert s == if dp[n - 1] == B - 1 then t + {n - 1} else t;
    }
  }

  /** mp_reduce_is_2k_l: a single digit, or at least half of the digits are all ones. */
  predicate IsTwoKL(dp: seq<nat>, used: nat)
    requires used <= |dp|
  {
    used == 1 || (used > 1 && MaskDigits(dp, used) >= used / 2)
  }

  /** mp_dr_is_modulus: all digits but the lowest are all ones. */
  predicate IsDR(dp: seq<nat>, used: nat)
    requires used <= |dp|
  {
    used >= 2 && forall i :: 1 <= i < used ==> dp[i] == B - 1
  }

  /** Every diminished-radix modulus is taken by mp_reduce_2k_l first. */
  lemma {:induction false} DRIsTwoKL(dp: seq<nat>, used: nat)
    requires used <= |dp| && IsDR(dp, used)
    ensures IsTwoKL(dp, used)
  {
    CountMask(dp, used, used);
  }

  lemma {:induction false} CountMask(dp: seq<nat>, n: nat, used: nat)
    requires 1 <= n <= used <= |dp| && forall i :: 1 <= i < n ==> dp[i] == B - 1
    ensures MaskDigits(dp, n) >= n - 1
  {
    if n > 1 {
      CountMask(dp, n - 1, used);
    }
  }

  /** The loops of mp_reduce_is_2k_l. */
  method ReduceIs2kL(a: MpInt) returns (yes: bool)
    requires a.Valid()
    ensures yes == IsTwoKL(a.dp, a.used)
    ensures yes <==> (a.used == 1 || (a.used > 1 && |set i: nat | i < a.used && a.dp[i] == B - 1| >= a.used / 2))
  {
    MaskDigitsCounts(a.dp, a.used);
    if a.used == 0 {
      return false;
    } else if a.used == 1 {
      return true;
    }
    var ix, iy := 0, 0;
    while ix < a.used
      invariant ix <= a.used && iy == MaskDigits(a.dp, ix)
    {
      if a.dp[ix] == B - 1 {
        iy := iy + 1;
      }
      ix := ix + 1;
    }
    yes := iy >= a.used / 2;
  }

  /** mp_dr_is_modulus */
  method DrIsModulus(a: MpInt) returns (yes: bool)
    requires a.Valid()
    ensures yes == IsDR(a.dp, a.used)
    ensures yes <==> (a.used >= 2 && forall i :: 1 <= i < a.used ==> a.dp[i] == B - 1)
  {
    if a.used < 2 {
      return false;
    }
    var ix := 1;
    while ix < a.used
      invariant 1 <= ix <= a.used && forall i :: 1 <= i < ix ==> a.dp[i] == B - 1
    {
      if a.dp[ix] != B - 1 {
        return false;
      }
      ix := ix + 1;
    }
    yes := true;
  }

  // ----- mp_reduce_is_2k, bit by bit

  /** The k low bits of u are ones. */
  ghost predicate Ones(u: nat, k: nat) {
    Pow(2, k) > 0 && u % Pow(2, k) == Pow(2, k) - 1
  }

  lemma OnesStep(u: nat, k: nat)
    requires Ones(u, k)
    ensures u / Pow(2, k) >= 0
    ensures (u / Pow(2, k)) % 2 == 1 <==> Ones(u, k + 1)
  {
    var p := Pow(2, k);
    var q := u / p;
    DivNonNeg(u, p);
    DivModIdentity(u, p);
    DivModIdentity(q, 2);
    assert Pow(2, k + 1) == 2 * p;
    MulAssoc(q / 2, 2, p);
    Distribute((q / 2) * 2, q % 2, p);
    DivModUnique(u, 2 * p, q / 2, (q % 2) * p + (p - 1));
  }

  lemma AllOnes(u: nat, m: nat)
    requires u < Pow(2, m)
    ensures Ones(u, m) <==> u == Pow(2, m) - 1
  {
    PowPos(2, m);
    ModSmall(u, Pow(2, m));
  }

  /** All ones have ones below every position. */
  lemma OnesBelow(m: nat, k: nat)
    requires k <= m
    ensures Pow(2, m) > 0 && Ones(Pow(2, m) - 1, k)
  {
    PowPos(2, k);
    PowPos(2, m - k);
    PowAdd(2, m - k, k);
    var q, p := Pow(2, m - k), Pow(2, k);
    assert (q - 1) * p == q * p - p;
    DivModUnique(q * p - 1, p, q - 1, p - 1);
  }

  /** A number of L bits is close to 2^L exactly if the bits above its lowest digit are all ones. */
  lemma CloseIsOnes(v: nat, L: nat, m: nat)
    requires L == m + DIGIT_BIT && v < Pow(2, L)
    ensures v / B >= 0 && v / B < Pow(2, m)
    ensures Pow(2, L) - v <= B <==> v / B == Pow(2, m) - 1
  {
    PowAdd(2, m, DIGIT_BIT);
    DivNonNeg(v, B);
    DivModIdentity(v, B);
    hide Pow;
    CloseQuotient(v, v / B, v % B, Pow(2, m), B);
  }

  lemma CloseQuotient(v: nat, u: nat, r: nat, w: int, b: nat)
    requires v == u * b + r && r < b && v < w * b
    ensures u < w && (w * b - v <= b <==> u == w - 1)
  {
    assert w * b - v == (w - u) * b - r;
    if w - u <= 0 {
      MulMono(w - u, 0, b);
    } else if w - u >= 2 {
      MulMono(2, w - u, b);
    }
  }

  /** Bit b of digit iw is bit b + DIGIT_BIT * (iw - 1) of the number above the lowest digit. */
  lemma BitAbove(v: nat, iw: nat, b: nat, k: nat)
    requires iw >= 1 && b < DIGIT_BIT && DIGIT_BIT * iw + b == k + DIGIT_BIT
    ensures v / B >= 0 && Pow(2, k) > 0 && (v / B) / Pow(2, k) >= 0
    ensures BitOf(Digit(v, iw), b) == ((v / B) / Pow(2, k)) % 2
  {
    BitOfDigit(v, iw, b + 1);
    PIsPow2(iw);
    PowPos(2, b);
    PowPos(2, k);
    DivNonNeg(v, B);
    DivNonNeg(v / B, Pow(2, k));
    DivDiv(v, P(iw), Pow(2, b));
    DivDiv(v, B, Pow(2, k));
    PowAdd(2, DIGIT_BIT * iw, b);
    PowAdd(2, DIGIT_BIT, k);
  }

  /** One digit, or at most B below the next power of two. */
  lemma IsTwoKMeans(v: nat)
    ensures IsTwoK(v) <==> (0 < v < B || (v >= B && Pow(2, BitLength(v)) - v <= B))
  {
    UsedBounds(v);
    UsedAtMost(v, 0);
    UsedAtMost(v, 1);
    PZero();
  }

  /** mp_reduce_is_2k */
  method ReduceIs2k(a: MpInt) returns (yes: bool)
    requires a.Valid()
    ensures yes == IsTwoK(a.Mag())
    ensures yes <==> (0 < a.Mag() < B || (a.Mag() >= B && Pow(2, BitLength(a.Mag())) - a.Mag() <= B))
  {
    hide *;
    Lengths(a);
    IsTwoKMeans(a.Mag());
    if a.used == 0 {
      return false;
    } else if a.used == 1 {
      return true;
    }
    var iy := CountBits(a);
    ghost var v, b := a.Mag(), 0;
    var ix: nat, iz: nat, iw := DIGIT_BIT, 1, 1;
    FirstBit(v);
    while ix < iy
      invariant DIGIT_BIT <= ix <= iy && 1 <= iw && b < DIGIT_BIT && ix == DIGIT_BIT * iw + b
      invariant iz == Pow(2, b) && v / B >= 0 && Ones(v / B, ix - DIGIT_BIT)
    {
      BitInside(a, ix, iw, b);
      if (a.dp[iw] / iz) % 2 == 0 {
        return false;
      }
      ix := ix + 1;
      iz := iz * 2;
      NextPlace(iw, b);
      b := b + 1;
      if iz > B - 1 {
        iw := iw + 1;
        iz := 1;
        b := 0;
      }
    }
    EnoughOnes(a);
    yes := true;
  }

  lemma Lengths(a: MpInt)
    requires a.Valid()
    ensures a.Loose() && Used(a.Mag()) == a.used
    ensures a.used == 0 ==> !IsTwoK(a.Mag())
    ensures a.used == 1 ==> IsTwoK(a.Mag())
    ensures a.used > 1 ==> BitLength(a.Mag()) >= DIGIT_BIT
  {
    a.UsedIsLength();
    BitLengthBounds(a.Mag());
    if a.used > 1 {
      PZero();
      PMono(1, a.used - 1);
      if BitLength(a.Mag()) < DIGIT_BIT {
        PowMonoExp(2, BitLength(a.Mag()), DIGIT_BIT);
      }
    }
  }

  lemma FirstBit(v: nat)
    ensures v / B >= 0 && Pow(2, 0) == 1 && Ones(v / B, 0) && DIGIT_BIT * 1 + 0 == DIGIT_BIT
  {
    DivNonNeg(v, B);
  }

  /** iz has run through a digit when it exceeds MP_MASK. */
  lemma NextPlace(iw: nat, b: nat)
    requires b < DIGIT_BIT
    ensures Pow(2, b) * 2 == Pow(2, b + 1) && Pow(2, 0) == 1
    ensures Pow(2, b + 1) > B - 1 <==> b + 1 == DIGIT_BIT
    ensures DIGIT_BIT * (iw + 1) + 0 == DIGIT_BIT * iw + DIGIT_BIT
  {
    if b + 1 < DIGIT_BIT {
      PowStrictExp(2, b + 1, DIGIT_BIT);
    }
  }

  /** The bit under test is in the buffer; a zero there rules the form out, a one extends the ones. */
  lemma BitInside(a: MpInt, ix: nat, iw: nat, b: nat)
    requires a.Valid() && a.used > 1 && 1 <= iw && b < DIGIT_BIT && ix == DIGIT_BIT * iw + b
    requires DIGIT_BIT <= ix < BitLength(a.Mag()) && a.Mag() / B >= 0 && Ones(a.Mag() / B, ix - DIGIT_BIT)
    ensures iw < |a.dp| && Pow(2, b) > 0
    ensures if (a.dp[iw] / Pow(2, b)) % 2 == 0 then !IsTwoK(a.Mag()) else Ones(a.Mag() / B, ix + 1 - DIGIT_BIT)
  {
    hide *;
    Lengths(a);
    var v, k := a.Mag(), ix - DIGIT_BIT;
    DigitReached(a, ix, iw);
    PowPos(2, b);
    BitOfIs(a.dp[iw], b);
    BitAbove(v, iw, b, k);
    OnesStep(v / B, k);
    if !Ones(v / B, k + 1) {
      NoOther(v, k);
    }
  }

  lemma BitOfIs(d: nat, i: nat)
    ensures Pow(2, i) > 0 && d / Pow(2, i) >= 0 && BitOf(d, i) == (d / Pow(2, i)) % 2 <= 1
  {
    PowPos(2, i);
    DivNonNeg(d, Pow(2, i));
  }

  /** A zero among the bits rules the form out. */
  lemma NoOther(v: nat, k: nat)
    requires Used(v) > 1 && k + DIGIT_BIT < BitLength(v) && v / B >= 0 && !Ones(v / B, k + 1)
    ensures !IsTwoK(v)
  {
    hide Used, Ones, Pow;
    var L := BitLength(v);
    BitLengthBounds(v);
    CloseIsOnes(v, L, L - DIGIT_BIT);
    OnesBelow(L - DIGIT_BIT, k + 1);
  }

  lemma DigitReached(a: MpInt, ix: nat, iw: nat)
    requires a.Valid() && a.used > 0 && DIGIT_BIT * iw <= ix < BitLength(a.Mag())
    ensures iw < a.used <= |a.dp| && a.dp[iw] == Digit(a.Mag(), iw)
  {
    a.UsedIsLength();
    a.DigitIsStored(iw);
    BitLengthBounds(a.Mag());
    if iw >= a.used {
      PMono(a.used, iw);
      PIsPow2(iw);
      PowMonoExp(2, DIGIT_BIT * iw, BitLength(a.Mag()) - 1);
      assert false;
    }
  }

  lemma EnoughOnes(a: MpInt)
    requires a.Valid() && a.used > 1 && BitLength(a.Mag()) >= DIGIT_BIT
    requires a.Mag() / B >= 0 && Ones(a.Mag() / B, BitLength(a.Mag()) - DIGIT_BIT)
    ensures IsTwoK(a.Mag())
  {
    var v, L := a.Mag(), BitLength(a.Mag());
    a.UsedIsLength();
    BitLengthBounds(v);
    CloseIsOnes(v, L, L - DIGIT_BIT);
    AllOnes(v / B, L - DIGIT_BIT);
  }

  // ----- the moduli mp_reduce_2k is set up wrongly for

  /** What the tests say of a modulus that is given to mp_reduce_2k with the wrong digit. */
  ghost predicate TakenWrongly(n: MpInt)
    requires n.Loose()
    reads n
  {
    !IsTwoKL(n.dp, n.used) && IsTwoK(n.Mag()) && !TwoKFits(n.Mag())
  }

  /** Two digits, the lower one zero, the upper one all ones from bit 0 to j - 1, but neither one bit nor all. */
  ghost predicate IsSpoiled(v: nat) {
    exists j: nat :: 2 <= j < DIGIT_BIT && v == (Pow(2, j) - 1) * B
  }

  /** They are the numbers (2^j - 1) * B with 1 < j < DIGIT_BIT. */
  lemma SpoiledModuli(n: MpInt)
    requires n.Valid()
    ensures TakenWrongly(n) <==> IsSpoiled(n.Mag())
  {
    hide IsSpoiled, TakenWrongly;
    if TakenWrongly(n) {
      WronglyIsSpoiled(n);
    }
    if IsSpoiled(n.Mag()) {
      SpoiledIsWrongly(n);
    }
  }

  lemma WronglyIsSpoiled(n: MpInt)
    requires n.Valid() && TakenWrongly(n)
    ensures IsSpoiled(n.Mag())
  {
    hide IsTwoK, TwoKFits;
    var v, L := n.Mag(), BitLength(n.Mag());
    WronglyLength(n);
    var j := L - DIGIT_BIT;
    PowAdd(2, j, DIGIT_BIT);
    assert (Pow(2, j) - 1) * B == Pow(2, j) * B - B;
    if j >= DIGIT_BIT {
      ManyMasks(n, L);
      assert false;
    }
    assert Pow(2, 0) == 1 && Pow(2, 1) == 2;
  }

  lemma WronglyLength(n: MpInt)
    requires n.Valid() && TakenWrongly(n)
    ensures n.used == Used(n.Mag()) > 1 && BitLength(n.Mag()) >= DIGIT_BIT
    ensures n.Mag() == Pow(2, BitLength(n.Mag())) - B && n.Mag() >= 2 * B
  {
    hide MaskDigits;
    Lengths(n);
    LostDistance(n.Mag());
  }

  /** A digit of 2^L - B above the lowest one is all ones if it lies below bit L. */
  lemma OnesDigit(v: nat, L: nat, i: nat)
    requires i >= 1 && DIGIT_BIT * (i + 1) <= L && v == Pow(2, L) - B
    ensures Digit(v, i) == B - 1
  {
    hide *;
    PlaceOfDigit(L, i);
    OnesQuotient(v, Pow(2, L - DIGIT_BIT * (i + 1)), B, P(i));
    DigitIs(v, i);
  }

  lemma DigitIs(v: nat, i: nat)
    requires P(i) > 0
    ensures Digit(v, i) == (v / P(i)) % B
  {
  }

  lemma PlaceOfDigit(L: nat, i: nat)
    requires i >= 1 && DIGIT_BIT * (i + 1) <= L
    ensures Pow(2, L - DIGIT_BIT * (i + 1)) > 0 && P(i) >= B
    ensures Pow(2, L) == (Pow(2, L - DIGIT_BIT * (i + 1)) * B) * P(i)
  {
    var e: nat := L - DIGIT_BIT * (i + 1);
    PowPos(2, e);
    PZero();
    PMono(1, i);
    PIsPow2(i);
    PowAdd(2, e, DIGIT_BIT);
    PowAdd(2, e + DIGIT_BIT, DIGIT_BIT * i);
    assert L == e + DIGIT_BIT + DIGIT_BIT * i;
  }

  lemma OnesQuotient(v: nat, w: nat, b: nat, p: nat)
    requires w > 0 && 1 <= b <= p && v == (w * b) * p - b
    ensures (v / p) % b == b - 1
  {
    assert (w * b - 1) * p == (w * b) * p - p;
    DivModUnique(v, p, w * b - 1, p - b);
    assert (w - 1) * b == w * b - b;
    DivModUnique(w * b - 1, b, w - 1, b - 1);
  }

  /** From two full digits on there are so many of them that mp_reduce_is_2k_l says yes. */
  lemma ManyMasks(n: MpInt, L: nat)
    requires n.Valid() && n.used == Used(n.Mag()) > 1 && L >= DIGIT_BIT + DIGIT_BIT && n.Mag() == Pow(2, L) - B
    ensures IsTwoKL(n.dp, n.used)
  {
    hide *;
    ghost var u, k: nat := n.used, if n.used == 2 then 2 else n.used - 1;
    HasDigits(n);
    SpanOfDigits(n.Mag(), L, u);
    forall i | 1 <= i < k
      ensures n.dp[i] == B - 1
    {
      DigitBelow(i, k, u, L);
      OnesDigit(n.Mag(), L, i);
      n.DigitIsStored(i);
    }
    CountMask(n.dp, k, u);
    ManyIsTwoKL(n.dp, k, u);
  }

  lemma HasDigits(n: MpInt)
    requires n.Valid()
    ensures n.Loose() && n.used <= |n.dp|
  {
  }

  lemma DigitBelow(i: nat, k: nat, u: nat, L: nat)
    requires u > 1 && k == (if u == 2 then 2 else u - 1) && 1 <= i < k && DIGIT_BIT * (u - 1) <= L
    requires L >= DIGIT_BIT + DIGIT_BIT
    ensures DIGIT_BIT * (i + 1) <= L
  {
    if u > 2 {
      MulMono(i + 1, u - 1, DIGIT_BIT);
    }
  }

  lemma ManyIsTwoKL(dp: seq<nat>, k: nat, used: nat)
    requires 1 < used <= |dp| && k == (if used == 2 then 2 else used - 1) && MaskDigits(dp, k) >= k - 1
    ensures IsTwoKL(dp, used)
  {
    if k == used - 1 {
      assert MaskDigits(dp, used) >= MaskDigits(dp, k);
    }
  }

  /** All but the top digit lie below bit L. */
  lemma SpanOfDigits(v: nat, L: nat, u: nat)
    requires u == Used(v) > 1 && v == Pow(2, L) - B
    ensures DIGIT_BIT * (u - 1) <= L
  {
    UsedBounds(v);
    PIsPow2(u - 1);
    if L < DIGIT_BIT * (u - 1) {
      PowMonoExp(2, L, DIGIT_BIT * (u - 1));
      assert false;
    }
  }

  lemma SpoiledIsWrongly(n: MpInt)
    requires n.Valid() && IsSpoiled(n.Mag())
    ensures TakenWrongly(n)
  {
    var v := n.Mag();
    SpoiledShape(v);
    n.UsedIsLength();
    n.DigitIsStored(0);
    n.DigitIsStored(1);
    hide Used, BitLength, IsSpoiled, Digit;
    assert MaskDigits(n.dp, 0) == 0 && MaskDigits(n.dp, 1) == 0;
    assert MaskDigits(n.dp, 2) == 0;
  }

  /** The digits and the length of a spoiled modulus. */
  lemma SpoiledShape(v: nat)
    requires IsSpoiled(v)
    ensures Used(v) == 2 && Digit(v, 0) == 0 && Digit(v, 1) < B - 1
    ensures v % B == 0 && v >= 3 * B && v == Pow(2, BitLength(v)) - B
  {
    var j: nat :| 2 <= j < DIGIT_BIT && v == (Pow(2, j) - 1) * B;
    var w := Pow(2, j);
    PowMonoExp(2, 2, j);
    assert Pow(2, 2) == 4;
    PowStrictExp(2, j, DIGIT_BIT);
    PowAdd(2, j, DIGIT_BIT);
    PZero();
    hide *;
    assert B == Pow(2, DIGIT_BIT);
    SpoiledNumbers(v, w, j);
  }

  lemma SpoiledNumbers(v: nat, w: nat, j: nat)
    requires 4 <= w == Pow(2, j) < B && v == (w - 1) * B && Pow(2, j + DIGIT_BIT) == w * B
    ensures Used(v) == 2 && Digit(v, 0) == 0 && Digit(v, 1) < B - 1
    ensures v % B == 0 && v >= 3 * B && v == Pow(2, BitLength(v)) - B
  {
    hide *;
    PZero();
    PStep(1);
    SpoiledDivision(v, w, B);
    DigitIs(v, 0);
    DigitIs(v, 1);
    UsedUnique(v, 2);
    HalfOf(j + DIGIT_BIT);
    BitLengthUnique(v, j + DIGIT_BIT);
  }

  lemma HalfOf(e: nat)
    requires e > 0
    ensures Pow(2, e) == 2 * Pow(2, e - 1)
  {
  }

  lemma SpoiledDivision(v: nat, w: nat, b: nat)
    requires 4 <= w < b && v == (w - 1) * b
    ensures v % b == 0 && v / 1 == v && (v / b) % b == w - 1 && 3 * b <= v < b * b && v == w * b - b
    ensures 2 * v >= w * b
  {
    DivExact(w - 1, b);
    DivModUnique(v, 1, v, 0);
    ModSmall(w - 1, b);
    MulMono(3, w - 1, b);
    MulMono(w - 1, b - 1, b);
    assert (w - 1) * b == w * b - b;
  }
}
