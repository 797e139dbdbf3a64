/**
 mp_div: long division with an estimated quotient digit, corrected against three
 digits of the dividend and repaired by at most one add-back.
 */
module Division {
  import opened Arith
  import opened Radix
  import opened MpInts
  import opened Bits

  // ----- the division the routine computes

  /** Quotient truncated towards zero. */
  function Quotient(a: int, b: int): int
    requires b != 0
  {
    if (a < 0) == (b < 0) then Abs(a) / Abs(b) else -(Abs(a) / Abs(b))
  }

  /** What is left, with the sign of the dividend. */
  function Remainder(a: int, b: int): int
    requires b != 0
  {
    if a < 0 then -(Abs(a) % Abs(b)) else Abs(a) % Abs(b)
  }

  /** The two together are the only division with a remainder smaller than b and signed like a. */
  lemma DivisionLaw(a: int, b: int)
    requires b != 0
    ensures a == Quotient(a, b) * b + Remainder(a, b)
    ensures Abs(Remainder(a, b)) < Abs(b)
    ensures Remainder(a, b) != 0 ==> (Remainder(a, b) < 0) == (a < 0)
  {
    var q, m := Abs(a) / Abs(b), Abs(b);
    DivModIdentity(Abs(a), m);
    Signs(q, b);
    Signs(q, m);
  }

  lemma DivisionUnique(a: int, b: int, q: int, r: int)
    requires b != 0 && a == q * b + r && Abs(r) < Abs(b) && (r != 0 ==> (r < 0) == (a < 0))
    ensures q == Quotient(a, b) && r == Remainder(a, b)
  {
    var m := Abs(b);
    Signs(q, b);
    DivModUnique(Abs(a), m, if (a < 0) == (b < 0) then q else -q, if a < 0 then -r else r);
  }

  lemma Signs(q: int, b: int)
    ensures (-q) * b == -(q * b) && q * (-b) == -(q * b) && (-q) * (-b) == q * b
  {
  }

  // ----- one digit of the quotient

  /** The three leading digits of the dividend. */
  function Top3(xi: nat, x1: nat, x2: nat): nat {
    (xi * B + x1) * B + x2
  }

  /** mp_cmp_mag of a clamped product against three unclamped digits: a shorter product is never greater. */
  predicate ExceedsTop3(t1: nat, t2: nat) {
    Used(t1) >= 3 && t1 > t2
  }

  /** The first guess: two digits by one, capped. */
  function FirstGuess(xi: nat, x1: nat, yt: nat): (e: nat)
    requires 0 < yt
    ensures e < B
  {
    MulPos(xi, B);
    DivNonNeg(xi * B + x1, yt);
    if xi == yt then B - 1 else Min((xi * B + x1) / yt, B - 1)
  }

  /** Every quotient digit that fits below the leading digits is at most the first guess. */
  lemma GuessIsLargeEnough(xi: nat, x1: nat, x2: nat, yt: nat, y1: nat, Q: nat)
    requires 0 < yt && x2 < B && Q < B && Q * (yt * B + y1) <= Top3(xi, x1, x2)
    ensures Q <= FirstGuess(xi, x1, yt)
  {
    var u := xi * B + x1;
    MulPos(xi, B);
    MulPos(Q, y1);
    assert Q * (yt * B + y1) == Q * (yt * B) + Q * y1;
    MulAssoc(Q, yt, B);
    MulPos(Q, yt);
    Below(Q * yt, u, B, x2);
    DivBound(u, yt, Q);
  }

  lemma Below(p: nat, u: nat, b: nat, r: nat)
    requires b > 0 && r < b && p * b <= u * b + r
    ensures p <= u
  {
    if p > u {
      MulMono(u + 1, p, b);
      CountUp(u, b);
    }
  }

  /** An estimate the correction loop accepts. */
  ghost predicate Accepted(e: nat, xi: nat, x1: nat, x2: nat, yt: nat, y1: nat) {
    || e * (yt * B + y1) <= Top3(xi, x1, x2)
    || (xi == 0 && e * yt <= x1)
  }

  /** The guess itself is below the two leading digits over yt. */
  lemma GuessBelow(x1: nat, yt: nat, e: nat)
    requires 0 < yt && e <= FirstGuess(0, x1, yt)
    ensures e * yt <= x1
  {
    DivBound(x1, yt, e);
    assert 0 * B == 0;
  }

  /** Leaving the loop without e * v <= u means the comparison was cut short, which needs a zero leading digit. */
  lemma LoopExit(e: nat, xi: nat, x1: nat, x2: nat, yt: nat, y1: nat)
    requires 0 < yt && xi < B && x1 < B && e <= FirstGuess(xi, x1, yt)
    requires e * (yt * B + y1) >= 0 && !ExceedsTop3(e * (yt * B + y1), Top3(xi, x1, x2))
    ensures Accepted(e, xi, x1, x2, yt, y1)
  {
    var t1 := e * (yt * B + y1);
    if t1 > Top3(xi, x1, x2) {
      UsedAtMost(t1, 2);
      PZero();
      PStep(1);
      if xi > 0 {
        MulMono(1, xi, B);
        MulMono(B, xi * B + x1, B);
        assert false;
      }
      GuessBelow(x1, yt, e);
    }
  }

  /** The digit estimate of mp_div: guess, then step down while it is visibly too large. */
  method EstimateDigit(xi: nat, x1: nat, x2: nat, yt: nat, y1: nat, ghost Q: nat) returns (e: nat)
    requires 0 < yt < B && xi < B && x1 < B && x2 < B && y1 < B
    requires Q < B && Q * (yt * B + y1) <= Top3(xi, x1, x2)
    ensures Q <= e < B && Accepted(e, xi, x1, x2, yt, y1)
  {
    GuessIsLargeEnough(xi, x1, x2, yt, y1, Q);
    hide FirstGuess, Top3, ExceedsTop3, Accepted;
    e := FirstGuess(xi, x1, yt);
    ghost var e0 := e;
    StepUp(e);
    e := (e + 1) % B;
    var t2 := Top3(xi, x1, x2);
    var more := true;
    ghost var last := e0 + 1;
    MulPos(yt, B);
    while more
      invariant Q < last <= e0 + 1 || !more
      invariant more ==> e == last % B
      invariant !more ==> Q <= e <= e0 && !ExceedsTop3(Product(e, yt, y1), t2)
      decreases more, last
    {
      StepDown(last);
      e := (e - 1) % B;
      last := last - 1;
      var t1 := Product(e, yt, y1);
      more := ExceedsTop3(t1, t2);
      if more && e == Q {
        QIsAccepted(Q, xi, x1, x2, yt, y1);
        assert false;
      }
    }
    LoopExit(e, xi, x1, x2, yt, y1);
  }

  function Product(e: nat, yt: nat, y1: nat): (t: nat)
    ensures t == e * (yt * B + y1)
  {
    MulPos(yt, B);
    MulPos(e, yt * B + y1);
    e * (yt * B + y1)
  }

  lemma QIsAccepted(Q: nat, xi: nat, x1: nat, x2: nat, yt: nat, y1: nat)
    requires Q * (yt * B + y1) <= Top3(xi, x1, x2)
    ensures !ExceedsTop3(Product(Q, yt, y1), Top3(xi, x1, x2))
  {
  }

  lemma StepUp(e: nat)
    requires e < B
    ensures (e + 1) % B >= 0 && (e + 1) % B == if e == B - 1 then 0 else e + 1
  {
    if e == B - 1 {
      DivExact(1, B);
    } else {
      ModSmall(e + 1, B);
    }
  }

  /** (last & MP_MASK) - 1, masked, is last - 1. */
  lemma StepDown(last: nat)
    requires 0 < last <= B
    ensures (last % B - 1) % B == last - 1 == (last - 1) % B
  {
    ModSmall(last - 1, B);
    if last == B {
      DivExact(1, B);
      DivModUnique(-1, B, -1, B - 1);
    } else {
      ModSmall(last, B);
    }
  }

  // ----- why one add-back is enough

  /** Dividend X and divisor Y seen through a window: all but the leading digits are below w. */
  ghost predicate Window(X: nat, Y: nat, U: nat, v: nat, w: nat) {
    w > 0 && U * w <= X < U * w + w && v * w <= Y < v * w + w
  }

  /** The true digit passes the test against the leading digits. */
  lemma TrueDigitFits(X: nat, Y: nat, U: nat, v: nat, w: nat, Q: nat)
    requires Window(X, Y, U, v, w) && Q * Y <= X
    ensures Q * v <= U
  {
    MulMono(v * w, Y, Q);
    MulAssoc(Q, v, w);
    MulPos(Q, v);
    if Q * v > U {
      MulMono(U + 1, Q * v, w);
      CountUp(U, w);
    }
  }

  /** An accepted estimate is at most one too large. */
  lemma OneTooLarge(X: nat, Y: nat, U: nat, v: nat, w: nat, e: nat, c: nat)
    requires Window(X, Y, U, v, w) && e >= 1 && (e - 1) * c <= U && v + 1 <= c
    ensures (e - 1) * Y <= X
  {
    CountUp(v, w);
    MulMono(v + 1, c, w);
    MulMono(Y, c * w, e - 1);
    MulAssoc(e - 1, c, w);
    MulMono((e - 1) * c, U, w);
  }

  /** The ordinary case: e * v <= U. */
  lemma ExactTest(U: nat, v: nat, e: nat)
    requires 1 <= e <= v && e * v <= U
    ensures (e - 1) * (v + 1) <= U
  {
    assert (e - 1) * (v + 1) == e * v + e - v - 1;
  }

  /** The short comparison: with yt at least a quarter of the base the guess is at most one too large as well. */
  lemma ShortTest(x1: nat, yt: nat, e: nat, b: nat)
    requires 1 <= e && e * yt <= x1 < b && 16 <= b <= 4 * yt
    ensures (e - 1) * (yt + 1) <= x1
  {
    assert (e - 1) * (yt + 1) == e * yt + e - yt - 1;
    if e > yt + 1 {
      MulMono(yt + 2, e, yt);
      assert (yt + 2) * yt == yt * yt + 2 * yt;
      MulMono(4, yt, yt);
      assert false;
    }
  }

  /** Whatever the loop accepts is the true digit or one more. */
  lemma AcceptedIsClose(X: nat, Y: nat, w: nat, e: nat, xi: nat, x1: nat, x2: nat, yt: nat, y1: nat)
    requires 0 < yt < B && x1 < B && y1 < B && e < B && B <= 4 * yt
    requires yt * B + y1 >= 0 && Window(X, Y, Top3(xi, x1, x2), yt * B + y1, w)
    requires Accepted(e, xi, x1, x2, yt, y1) && e >= 1
    ensures (e - 1) * Y <= X
  {
    var v, U := yt * B + y1, Top3(xi, x1, x2);
    MulMono(1, yt, B);
    if e * v <= U {
      ExactTest(U, v, e);
      hide *;
      OneTooLarge(X, Y, U, v, w, e, v + 1);
    } else {
      ShortTest(x1, yt, e, B);
      MulMono((e - 1) * (yt + 1), x1, B);
      MulAssoc(e - 1, yt + 1, B);
      CountUp(yt, B);
      assert U == x1 * B + x2;
      hide *;
      OneTooLarge(X, Y, U, v, w, e, (yt + 1) * B);
    }
  }

  // ----- the windows

  /** Three leading digits of x at position i >= 2, as the quotient by B^(i-2). */
  lemma LeadingThree(x: nat, i: nat)
    requires i >= 2 && x < P(i + 1)
    ensures Window(x, x, Top3(Digit(x, i), Digit(x, i - 1), Digit(x, i - 2)),
                         Top3(Digit(x, i), Digit(x, i - 1), Digit(x, i - 2)), P(i - 2))
  {
    DigitStep(x, i - 2);
    DigitStep(x, i - 1);
    DigitStep(x, i);
    ModSmall(x, P(i + 1));
    assert x / P(i) == Digit(x, i);
    var U := x / P(i - 2);
    DivModIdentity(x, P(i - 2));
    hide P, Digit;
  }

  /** Two leading digits of y at position t, as the quotient by B^(t-1). */
  lemma LeadingTwo(y: nat, t: nat)
    requires t >= 1 && y < P(t + 1)
    ensures Digit(y, t) * B + Digit(y, t - 1) >= 0
    ensures (Digit(y, t) * B + Digit(y, t - 1)) * P(t - 1) <= y
    ensures y < (Digit(y, t) * B + Digit(y, t - 1)) * P(t - 1) + P(t - 1)
  {
    DigitStep(y, t - 1);
    DigitStep(y, t);
    ModSmall(y, P(t + 1));
    MulPos(Digit(y, t), B);
    DivModIdentity(y, P(t - 1));
    assert y / P(t) == 0 * B + Digit(y, t);
    hide P, Digit;
  }

  /** Shifting y up by s digits keeps its window. */
  lemma ShiftWindow(y: nat, v: nat, p: nat, s: nat, q: nat)
    requires p > 0 && s > 0 && q == p * s && v * p <= y < v * p + p
    ensures v * q <= y * s < v * q + q
  {
    MulMono(v * p, y, s);
    MulMono(y + 1, v * p + p, s);
    MulAssoc(v, p, s);
    assert (v * p + p) * s == v * p * s + p * s;
  }

  /** The digits the loop looks at when the divisor has t + 1 digits and the dividend i + 1. */
  function Second(y: nat, t: nat): (d: nat)
    ensures d < B
  {
    if t == 0 then 0 else Digit(y, t - 1)
  }

  function Third(x: nat, i: nat): (d: nat)
    ensures d < B
  {
    if i < 2 then 0 else Digit(x, i - 2)
  }

  /** The leading digits of a divisor of t + 1 digits. */
  function Top2(y: nat, t: nat): (v: nat) {
    MulPos(Digit(y, t), B);
    Digit(y, t) * B + Second(y, t)
  }

  lemma DivisorWindow(y: nat, i: nat, t: nat)
    requires t < i && i >= 2 && y < P(t + 1)
    ensures Top2(y, t) * P(i - 2) <= y * P(i - t - 1) < Top2(y, t) * P(i - 2) + P(i - 2)
  {
    if t >= 1 {
      LeadingTwo(y, t);
      PAdd(t - 1, i - t - 1);
      assert Top2(y, t) == Digit(y, t) * B + Digit(y, t - 1);
      hide *;
      ShiftWindow(y, Top2(y, t), P(t - 1), P(i - t - 1), P(i - 2));
    } else {
      OneDigit(y);
      assert Top2(y, t) == y * B;
      PStep(i - 2);
      hide *;
      MulAssoc(y, B, P(i - 2));
    }
  }

  /** Dividend and shifted divisor seen through the same window, after scaling by g. */
  lemma SameWindow(x: nat, y: nat, i: nat, t: nat) returns (g: nat, w: nat)
    requires t < i && x < P(i + 1) && y < P(t + 1)
    ensures g > 0 && g * x >= 0 && y * P(i - t - 1) >= 0 && g * (y * P(i - t - 1)) >= 0
    ensures Window(g * x, g * (y * P(i - t - 1)),
              Top3(Digit(x, i), Digit(x, i - 1), Third(x, i)), Top2(y, t), w)
  {
    MulPos(y, P(i - t - 1));
    if i >= 2 {
      LeadingThree(x, i);
      DivisorWindow(y, i, t);
      g, w := 1, P(i - 2);
    } else {
      TinyWindow(x, y);
      g, w := B, 1;
      MulPos(B, x);
      MulPos(B, y * P(0));
    }
  }

  /** Two digits by one: the window shows everything. */
  lemma TinyWindow(x: nat, y: nat)
    requires x < P(2) && y < P(1)
    ensures B * x == Top3(Digit(x, 1), Digit(x, 0), 0)
    ensures B * (y * P(0)) == Top2(y, 0)
  {
    OneDigit(y);
    TwoDigits(x);
    PZero();
    assert y * P(0) == y;
    MulCommutes(B, x);
    MulCommutes(B, y);
  }

  lemma OneDigit(y: nat)
    requires y < P(1)
    ensures Digit(y, 0) == y
  {
    PZero();
    DivModUnique(y, 1, y, 0);
    ModSmall(y, B);
  }

  lemma TwoDigits(x: nat)
    requires x < P(2)
    ensures x == Digit(x, 1) * B + Digit(x, 0)
  {
    PZero();
    DigitStep(x, 0);
    DigitStep(x, 1);
    ModSmall(x, P(2));
    DivModUnique(x, 1, x, 0);
  }

  // ----- one round of the loop

  lemma CancelScale(g: nat, a: nat, b: nat)
    requires g > 0 && g * a <= g * b
    ensures a <= b
  {
    if a > b {
      MulMono(b + 1, a, g);
    }
  }

  /** The loop's test on the digits of x at i and of y at t. */
  ghost predicate AcceptedAt(e: nat, x: nat, y: nat, i: nat, t: nat)
    requires i >= 1
  {
    Accepted(e, Digit(x, i), Digit(x, i - 1), Third(x, i), Digit(y, t), Second(y, t))
  }

  /** The quotient digit of x by Y passes the test, and whatever is accepted is at most one larger. */
  lemma DigitTest(x: nat, y: nat, i: nat, t: nat, Y: nat, Q: nat)
    requires t < i && 0 < y < P(t + 1) && x < P(i + 1) && B <= 4 * Digit(y, t)
    requires Y == y * P(i - t - 1) && Q * Y <= x
    ensures Q * Top2(y, t) <= Top3(Digit(x, i), Digit(x, i - 1), Third(x, i))
    ensures forall e: nat :: 1 <= e < B && AcceptedAt(e, x, y, i, t) ==> (e - 1) * Y <= x
  {
    var xi, x1, x2, yt, y1 := Digit(x, i), Digit(x, i - 1), Third(x, i), Digit(y, t), Second(y, t);
    var g, w := SameWindow(x, y, i, t);
    assert Top2(y, t) == yt * B + y1;
    hide P, Digit, Third, Second, Accepted, Window, Top3;
    Rescale(Q, g, Y, x);
    TrueDigitFits(g * x, g * Y, Top3(xi, x1, x2), yt * B + y1, w, Q);
    forall e: nat | 1 <= e < B && AcceptedAt(e, x, y, i, t)
      ensures (e - 1) * Y <= x
    {
      AcceptedIsClose(g * x, g * Y, w, e, xi, x1, x2, yt, y1);
      Unscale(e - 1, g, Y, x);
    }
  }

  lemma Rescale(q: nat, g: nat, y: nat, x: nat)
    requires q * y <= x
    ensures q * (g * y) <= g * x
  {
    MulMono(q * y, x, g);
    MulAssoc(q, g, y);
    MulAssoc(g, q, y);
    MulCommutes(q, g);
  }

  lemma Unscale(q: nat, g: nat, y: nat, x: nat)
    requires g > 0 && q * (g * y) <= g * x
    ensures q * y <= x
  {
    MulAssoc(q, g, y);
    MulAssoc(g, q, y);
    MulCommutes(q, g);
    MulPos(q, y);
    CancelScale(g, q * y, x);
  }

  /** Steps 3.1 to 3.3: a quotient digit and what it leaves. */
  method DivideDigit(x: nat, y: nat, i: nat, t: nat) returns (e: nat, r: int)
    requires t < i && 0 < y < P(t + 1) && B <= 4 * Digit(y, t)
    requires x < y * P(i - t)
    ensures e < B && x == e * (y * P(i - t - 1)) + r && 0 <= r < y * P(i - t - 1)
  {
    var Y := y * P(i - t - 1);
    DividendLength(x, y, i, t);
    ghost var Q := x / Y;
    DivNonNeg(x, Y);
    DivModIdentity(x, Y);
    DivBelowBy(x, Y);
    DigitTest(x, y, i, t, Y, Q);
    assert Top2(y, t) == Digit(y, t) * B + Second(y, t);
    hide P, Digit, Third, Second, Accepted, Top3, Top2;
    e := EstimateDigit(Digit(x, i), Digit(x, i - 1), Third(x, i), Digit(y, t), Second(y, t), Q);
    assert AcceptedAt(e, x, y, i, t);
    r := x - e * Y;
    CountUp(Q, Y);
    MulMono(Q, e, Y);
    if r < 0 {
      r := r + Y;
      AddBack(x, Y, e, Q);
      ModSmall(e - 1, B);
      e := (e - 1) % B;
    }
  }

  lemma AddBack(x: nat, Y: nat, e: nat, Q: nat)
    requires Y > 0 && x - e * Y < 0 && (e >= 1 ==> (e - 1) * Y <= x)
    ensures e >= 1 && 0 <= x - e * Y + Y && x - e * Y + Y == x - (e - 1) * Y
  {
    assert e == 0 ==> e * Y == 0;
    CountUp(e - 1, Y);
  }

  lemma DivBelowBy(x: nat, Y: nat)
    requires Y > 0 && x < Y * B
    ensures x / Y < B
  {
    MulCommutes(Y, B);
    DivBound(x, Y, B);
  }

  lemma DividendLength(x: nat, y: nat, i: nat, t: nat)
    requires t < i && 0 < y < P(t + 1) && x < y * P(i - t)
    ensures y * P(i - t - 1) > 0 && x < y * P(i - t - 1) * B && x < P(i + 1)
  {
    PStep(i - t - 1);
    PAdd(t + 1, i - t);
    hide P;
    MulPos(y, P(i - t - 1));
    MulAssoc(y, P(i - t - 1), B);
    MulCommutes(P(i - t - 1), B);
    MulMono(y, P(t + 1), P(i - t));
  }

  /** A position the loop skips has digit zero. */
  lemma SkippedDigit(x: nat, y: nat, i: nat, t: nat)
    requires t < i && i > Used(x) && P(t) <= y
    ensures x < y * P(i - t - 1)
  {
    UsedBounds(x);
    PMono(Used(x), i - 1);
    PAdd(t, i - t - 1);
    MulMono(P(t), y, P(i - t - 1));
  }

  // ----- normalisation

  lemma {:induction false} BitLengthShift(v: nat, k: nat)
    requires v > 0
    ensures v * Pow(2, k) > 0 && BitLength(v * Pow(2, k)) == BitLength(v) + k
  {
    PowPos(2, k);
    MulPos(v, Pow(2, k));
    BitLengthBounds(v);
    var n := BitLength(v);
    PowAdd(2, n, k);
    PowAdd(2, n - 1, k);
    hide *;
    ShiftedBounds(v, Pow(2, k), Pow(2, n - 1), Pow(2, n));
    BitLengthUnique(v * Pow(2, k), n + k);
  }

  lemma ShiftedBounds(v: int, s: int, lo: int, hi: int)
    requires s > 0 && lo <= v < hi
    ensures lo * s <= v * s < hi * s
  {
    MulMono(lo, v, s);
    MulMono(v + 1, hi, s);
    CountUp(v, s);
  }

  /** The shift mp_div applies to both operands. */
  function Norm(b: nat): (norm: nat) {
    var bits := BitLength(b) % DIGIT_BIT;
    if bits < DIGIT_BIT - 1 then DIGIT_BIT - 1 - bits else 0
  }

  /** After the shift the bit length is one less than a multiple of DIGIT_BIT. */
  lemma NormAligns(b: nat)
    requires b > 0
    ensures (BitLength(b) + Norm(b)) % DIGIT_BIT == DIGIT_BIT - 1
  {
    var L: int, D: int := BitLength(b), DIGIT_BIT;
    DivModIdentity(L, D);
    DivModUnique(L + Norm(b), D, L / D, D - 1);
  }

  lemma TopDigit(y: nat, t: nat)
    requires y > 0 && t == Used(y) - 1
    ensures P(t) <= y < P(t + 1) && Digit(y, t) > 0
    ensures y % P(t) >= 0 && y == Digit(y, t) * P(t) + y % P(t)
  {
    UsedBounds(y);
    DigitStep(y, t);
    ModSmall(y, P(t + 1));
    assert y / P(t) == 0 * B + Digit(y, t);
    DivModIdentity(y, P(t));
    assert 0 * P(t) == 0;
    hide P, Digit;
    if Digit(y, t) == 0 {
      assert false;
    }
  }

  /** Then the top digit is at least a quarter of the base, and always below half of it. */
  lemma TopDigitLarge(y: nat, t: nat)
    requires y > 0 && t == Used(y) - 1 && BitLength(y) % DIGIT_BIT == DIGIT_BIT - 1
    ensures B <= 4 * Digit(y, t) && P(t) <= y < P(t + 1)
    ensures 2 * Digit(y, t) < B
  {
    hide *;
    var d := Digit(y, t);
    TopDigit(y, t);
    DivModIdentity(y, P(t));
    BitLengthOfTop(y, d, y % P(t), t);
    BitLengthBounds(d);
    AlignedLength(BitLength(d), t, BitLength(y), d);
  }

  lemma AlignedLength(n: nat, t: nat, L: nat, d: nat)
    requires L == DIGIT_BIT * t + n && L % DIGIT_BIT == DIGIT_BIT - 1 && n > 0
    requires Pow(2, n - 1) <= d < Pow(2, n) && d < B
    ensures B <= 4 * d && 2 * d < B
  {
    FewBits(n, d);
    assert 2 * Pow(2, DIGIT_BIT - 1) == Pow(2, DIGIT_BIT) == B;
    hide Pow;
    MulCommutes(DIGIT_BIT, t);
    ModShift(n, t, DIGIT_BIT);
    if n < DIGIT_BIT - 1 {
      ModSmall(n, DIGIT_BIT);
      assert false;
    }
    if n == DIGIT_BIT {
      DivExact(1, DIGIT_BIT);
      assert false;
    }
    PowMonoExp(2, DIGIT_BIT - 2, n - 1);
    PowAdd(2, 2, DIGIT_BIT - 2);
    assert Pow(2, 2) == 4 by { PowTwoTwo(); }
  }

  lemma FewBits(n: nat, d: nat)
    requires n > 0 && Pow(2, n - 1) <= d < B
    ensures n <= DIGIT_BIT
  {
    if n > DIGIT_BIT {
      PowMonoExp(2, DIGIT_BIT, n - 1);
    }
  }

  lemma PowTwoTwo()
    ensures Pow(2, 2) == 4
  {
    assert Pow(2, 1) == 2;
  }

  // ----- the whole division

  /** The quotient digits found so far, from position lo up, and what is left of X. */
  ghost predicate Found(q: seq<nat>, lo: nat, x: int, X: int, y: int) {
    && lo <= |q|
    && AreDigits(q, 0, |q|)
    && (forall j :: 0 <= j < lo ==> q[j] == 0)
    && x + Sum(q, lo, |q|) * y == X
  }

  lemma FoundDigit(q: seq<nat>, lo: nat, x: int, X: int, y: int, e: nat, r: int)
    requires lo >= 1 && Found(q, lo, x, X, y) && e < B
    requires x == e * (y * P(lo - 1)) + r
    ensures Found(q[lo - 1 := e], lo - 1, r, X, y)
  {
    var q' := q[lo - 1 := e];
    SumHead(q', lo - 1, |q|);
    SumFrame(q, q', lo, |q|);
    hide Sum, P;
    assert Sum(q', lo - 1, |q|) == e * P(lo - 1) + Sum(q, lo, |q|);
    Distribute(e * P(lo - 1), Sum(q, lo, |q|), y);
    MulSwap(e, P(lo - 1), y);
    MulAssoc(e, y, P(lo - 1));
  }

  /** The leading quotient digit, by repeated subtraction. */
  method LeadingDigit(X: nat, y: nat, n: nat, t: nat, q0: seq<nat>) returns (q: seq<nat>, x: nat)
    requires t <= n && P(t) <= y && X < P(n + 1) && n - t < |q0|
    requires forall j :: 0 <= j < |q0| ==> q0[j] == 0
    ensures |q| == |q0| && Found(q, n - t, x, X, y) && x < y * P(n - t)
  {
    var Y, s := y * P(n - t), n - t;
    PAdd(t, s);
    MulMono(P(t), y, P(s));
    PStep(n);
    SumZero(q0, s, |q0|);
    PZero();
    x, q := X, q0;
    hide Sum, P;
    while x >= Y
      invariant |q| == |q0| && forall j :: 0 <= j < |q| && j != s ==> q[j] == 0
      invariant q[s] < B && x + q[s] * Y == X
      decreases x
    {
      CountUp(q[s], Y);
      if q[s] + 1 >= B {
        MulMono(B, q[s] + 1, Y);
        MulMono(P(n), Y, B);
        MulCommutes(B, P(n));
        MulCommutes(B, Y);
        assert false;
      }
      x := x - Y;
      q := q[s := q[s] + 1];
    }
    OnlyDigit(q, s);
    MulAssoc(q[s], y, P(s));
    MulSwap(q[s], P(s), y);
    assert x + Sum(q, s, |q|) * y == X by { MulAssoc(q[s], P(s), y); MulCommutes(P(s), y); }
  }

  lemma OnlyDigit(q: seq<nat>, s: nat)
    requires s < |q| && forall j :: 0 <= j < |q| && j != s ==> q[j] == 0
    ensures Sum(q, s, |q|) == q[s] * P(s)
  {
    SumHead(q, s, |q|);
    SumZero(q, s + 1, |q|);
  }

  /** The positive division: X = Q * y + r with normalised y, Q as digits. */
  method DividePositive(X: nat, y: nat, size: nat) returns (q: seq<nat>, r: nat)
    requires 0 < y <= X && BitLength(y) % DIGIT_BIT == DIGIT_BIT - 1 && Used(X) <= size
    ensures |q| == size && AreDigits(q, 0, size) && r < y && X == Sum(q, 0, size) * y + r
  {
    UsedMono(y, X);
    UsedBounds(y);
    var n, t := Used(X) - 1, Used(y) - 1;
    TopDigitLarge(y, t);
    UsedBounds(X);
    q := Zeros(size);
    var x: nat;
    q, x := LeadingDigit(X, y, n, t, q);
    var i := n;
    hide P, Sum, Digit, Found;
    while i >= t + 1
      invariant t <= i <= n && |q| == size
      invariant Found(q, i - t, x, X, y) && x < y * P(i - t)
    {
      if i > Used(x) {
        SkippedDigit(x, y, i, t);
        FoundNothing(q, i - t, x, X, y);
      } else {
        var e, rest := DivideDigit(x, y, i, t);
        FoundDigit(q, i - t, x, X, y, e, rest);
        FoundBound(q, i - t, x, X, y);
        q := q[i - t - 1 := e];
        x := rest;
      }
      i := i - 1;
    }
    AllFound(q, x, X, y);
    r := x;
  }

  lemma FoundBound(q: seq<nat>, lo: nat, x: int, X: int, y: int)
    requires Found(q, lo, x, X, y)
    ensures lo <= |q|
  {
  }

  lemma FoundNothing(q: seq<nat>, lo: nat, x: int, X: int, y: int)
    requires lo >= 1 && Found(q, lo, x, X, y)
    ensures Found(q, lo - 1, x, X, y)
  {
    SumHead(q, lo - 1, |q|);
    assert 0 * P(lo - 1) == 0;
  }

  lemma AllFound(q: seq<nat>, x: nat, X: nat, y: nat)
    requires Found(q, 0, x, X, y) && x < y * P(0)
    ensures AreDigits(q, 0, |q|) && x < y && X == Sum(q, 0, |q|) * y + x
  {
    PZero();
    assert y * P(0) == y;
  }

  /** Dividing shifted operands gives the same quotient and a shifted remainder. */
  lemma Unshift(a: nat, b: nat, s: nat, q: nat, r: nat)
    requires s > 0 && b > 0 && a * s == q * (b * s) + r && r < b * s
    ensures q == a / b && r / s == a % b
  {
    MulAssoc(q, b, s);
    assert r == (a - q * b) * s;
    if a - q * b < 0 {
      MulMono(a - q * b, -1, s);
      assert false;
    }
    if a - q * b >= b {
      MulMono(b, a - q * b, s);
      assert false;
    }
    DivModUnique(a, b, q, a - q * b);
    DivExact(a - q * b, s);
  }

  /** A number that grows by fewer bits than a digit has grows by at most one digit. */
  lemma ShiftedLength(a: nat, k: nat)
    requires k < DIGIT_BIT
    ensures a * Pow(2, k) >= 0 && Used(a * Pow(2, k)) <= Used(a) + 1
  {
    PowStrictExp(2, k, DIGIT_BIT);
    PowPos(2, k);
    MulPos(a, Pow(2, k));
    UsedBounds(a);
    MulMono(a, P(Used(a)), Pow(2, k));
    MulMono(Pow(2, k), B, P(Used(a)));
    PStep(Used(a));
    hide Pow, P;
    MulCommutes(P(Used(a)), Pow(2, k));
    UsedAtMost(a * Pow(2, k), Used(a) + 1);
    assert a * Pow(2, k) < P(Used(a) + 1) by {
      if a > 0 {
        MulMono(Pow(2, k) + 1, B, P(Used(a)));
        CountUp(Pow(2, k), P(Used(a)));
      }
    }
  }

  /** mp_div: either result may be unwanted (null). */
  method Div(a: MpInt, b: MpInt, c: MpInt?, d: MpInt?) returns (err: Err)
    requires a.Valid() && b.Valid() && (c != null ==> c.Valid()) && (d != null ==> d.Valid())
    requires c != null ==> c != d
    modifies c, d
    ensures err == Val <==> old(b.Value()) == 0
    ensures err == Val ==> (c != null ==> unchanged(c)) && (d != null ==> unchanged(d))
    ensures err == Okay && c != null ==> c.Valid() && c.Value() == Quotient(old(a.Value()), old(b.Value()))
    ensures err == Okay && d != null ==> d.Valid() && d.Value() == Remainder(old(a.Value()), old(b.Value()))
  {
    if b.Mag() == 0 {
      return Val;
    }
    ghost var va, vb := a.Value(), b.Value();
    var ma, mb, sa, sb := a.Mag(), b.Mag(), a.neg, b.neg;
    SignsAgree(a);
    SignsAgree(b);
    a.UsedIsLength();
    hide Used, Sum;
    if ma < mb {
      ModSmall(ma, mb);
      if d != null {
        d.neg := sa;
        d.StoreMag(ma);
      }
      if c != null {
        c.StoreMag(0);
      }
      return Okay;
    }
    var q, r := DivideMagnitudes(ma, mb, a.used + 2);
    QuotientNonZero(ma, mb);
    if c != null {
      c.neg := sa != sb;
      c.Load(q, |q|);
    }
    if d != null {
      d.neg := sa;
      d.StoreMag(r);
    }
    err := Okay;
  }

  lemma SignsAgree(a: MpInt)
    requires a.Valid()
    ensures Abs(a.Value()) == a.Mag() && a.neg == (a.Value() < 0)
  {
    if a.used > 0 {
      a.TopIsPositive();
    }
  }

  lemma QuotientNonZero(a: nat, b: nat)
    requires 0 < b <= a
    ensures a / b > 0
  {
    DivBound(a, b, 1);
  }

  /** The division of magnitudes inside mp_div, normalising both operands first. */
  method DivideMagnitudes(a: nat, b: nat, size: nat) returns (q: seq<nat>, r: nat)
    requires 0 < b <= a && Used(a) + 1 <= size
    ensures |q| == size && AreDigits(q, 0, size) && Sum(q, 0, size) == a / b && r == a % b
  {
    var norm := Norm(b);
    var s := Pow(2, norm);
    PowPos(2, norm);
    MulPos(b, s);
    MulMono(b, a, s);
    NormAligns(b);
    BitLengthShift(b, norm);
    ShiftedLength(a, norm);
    hide Pow, Norm, Sum;
    q, r := DividePositive(a * s, b * s, size);
    SumBound(q, 0, size);
    Unshift(a, b, s, Sum(q, 0, size), r);
    r := r / s;
  }
}
