/**
 Positional notation in base B = 2^DIGIT_BIT, the digits an mp_int is stored in.

 The widths are parameters: DIGIT_BIT is whatever the build selects (7, 15, 28,
 31 or 60 in tommath.h) and an mp_word holds 2 * DIGIT_BIT + GUARD_BIT bits.
 */
module Radix {
  import opened Arith

  type DigitBits = d: nat | 4 <= d <= 60 witness 28
  type GuardBits = g: nat | 2 <= g witness 8
  type Base = b: nat | 16 <= b && b % 2 == 0 witness 16

  type GuardSize = g: nat | 4 <= g witness 4

  const DIGIT_BIT: DigitBits
  const GUARD_BIT: GuardBits

  function TwoTo(d: DigitBits): (b: Base)
    ensures b == Pow(2, d)
  {
    PowMonoExp(2, 4, d);
    assert Pow(2, 4) == 16;
    Pow(2, d)
  }

  function TwoToGuard(g: GuardBits): (r: GuardSize)
    ensures r == Pow(2, g)
  {
    PowMonoExp(2, 2, g);
    assert Pow(2, 2) == 4;
    Pow(2, g)
  }

  /** MP_MASK + 1 */
  const B: Base := TwoTo(DIGIT_BIT)

  /** The largest number of products an mp_word can accumulate. */
  const GUARD: GuardSize := TwoToGuard(GUARD_BIT)

  /** One more than the largest mp_word. */
  const WORD: nat := GUARD * (B * B)

  /** What an mp_word keeps of a number. */
  function Word(x: nat): (w: nat) {
    if WORD == 0 then 0 else x % WORD
  }

  lemma WordFits(x: nat)
    requires x < WORD
    ensures Word(x) == x
  {
    ModSmall(x, WORD);
  }

  function P(k: nat): (p: nat)
    ensures p > 0
  {
    PowPos(B, k);
    Pow(B, k)
  }

  lemma PStep(k: nat)
    ensures P(k + 1) == B * P(k)
  {
  }

  lemma PZero()
    ensures P(0) == 1 && P(1) == B
  {
    assert Pow(B, 1) == B * Pow(B, 0);
  }

  lemma PAdd(i: nat, j: nat)
    ensures P(i + j) == P(i) * P(j)
  {
    PowAdd(B, i, j);
  }

  lemma PMono(i: nat, j: nat)
    requires i <= j
    ensures P(i) <= P(j)
    ensures i < j ==> B * P(i) <= P(j)
  {
    PowMonoExp(B, i, j);
    if i < j {
      PowMonoExp(B, i, j - 1);
      MulMono(Pow(B, i), Pow(B, j - 1), B);
    }
  }

  /** The columns lo..hi of s, each weighted by its position. Columns need not be digits. */
  function Sum(s: seq<int>, lo: nat, hi: nat): int
    requires hi <= |s|
    decreases hi
  {
    if hi <= lo then 0 else Sum(s, lo, hi - 1) + s[hi - 1] * P(hi - 1)
  }

  ghost predicate AreDigits(s: seq<int>, lo: nat, hi: nat)
    requires hi <= |s|
  {
    forall i :: lo <= i < hi ==> 0 <= s[i] < B
  }

  lemma {:induction false} SumFrame(s: seq<int>, t: seq<int>, lo: nat, hi: nat)
    requires hi <= |s| && hi <= |t|
    requires forall i :: lo <= i < hi ==> s[i] == t[i]
    ensures Sum(s, lo, hi) == Sum(t, lo, hi)
    decreases hi
  {
    if lo < hi {
      SumFrame(s, t, lo, hi - 1);
    }
  }

  lemma {:induction false} SumUpdate(s: seq<int>, lo: nat, hi: nat, i: nat, v: int)
    requires lo <= i < hi <= |s|
    ensures Sum(s[i := v], lo, hi) == Sum(s, lo, hi) + (v - s[i]) * P(i)
    decreases hi
  {
    if i == hi - 1 {
      SumFrame(s, s[i := v], lo, hi - 1);
      assert (v - s[i]) * P(i) == v * P(i) - s[i] * P(i);
    } else {
      SumUpdate(s, lo, hi - 1, i, v);
    }
  }

  lemma {:induction false} SumSplit(s: seq<int>, lo: nat, mid: nat, hi: nat)
    requires lo <= mid <= hi <= |s|
    ensures Sum(s, lo, hi) == Sum(s, lo, mid) + Sum(s, mid, hi)
    decreases hi
  {
    if mid < hi {
      SumSplit(s, lo, mid, hi - 1);
    }
  }

  lemma SumHead(s: seq<int>, lo: nat, hi: nat)
    requires lo < hi <= |s|
    ensures Sum(s, lo, hi) == s[lo] * P(lo) + Sum(s, lo + 1, hi)
  {
    SumSplit(s, lo, lo + 1, hi);
    assert Sum(s, lo, lo + 1) == Sum(s, lo, lo) + s[lo] * P(lo);
  }

  lemma {:induction false} SumZero(s: seq<int>, lo: nat, hi: nat)
    requires hi <= |s|
    requires forall i :: lo <= i < hi ==> s[i] == 0
    ensures Sum(s, lo, hi) == 0
    decreases hi
  {
    if lo < hi {
      SumZero(s, lo, hi - 1);
    }
  }

  lemma DigitTimes(d: int, p: nat)
    requires 0 <= d < B
    ensures 0 <= d * p <= B * p - p
  {
    MulPos(d, p);
    MulMono(d, B - 1, p);
  }

  /** Digits from position lo up to hi are worth less than P(hi). */
  lemma {:induction false} SumBound(s: seq<int>, lo: nat, hi: nat)
    requires lo <= hi <= |s| && AreDigits(s, lo, hi)
    ensures 0 <= Sum(s, lo, hi) <= P(hi) - P(lo)
    decreases hi
  {
    if lo < hi {
      SumBound(s, lo, hi - 1);
      DigitTimes(s[hi - 1], P(hi - 1));
      PStep(hi - 1);
    }
  }

  lemma ShiftStep(x: int, y: int, z: int, w: int)
    ensures z * (x * y) + x * w == x * (w + z * y)
  {
    MulAssoc(x, z, y);
    MulAssoc(z, x, y);
  }

  /** Moving every column k places down divides the sum by P(k). */
  lemma {:induction false} SumShift(s: seq<int>, t: seq<int>, k: nat, n: nat)
    requires k + n <= |s| && n <= |t|
    requires forall i :: 0 <= i < n ==> t[i] == s[i + k]
    ensures Sum(s, k, k + n) == P(k) * Sum(t, 0, n)
  {
    if n > 0 {
      SumShift(s, t, k, n - 1);
      PAdd(k, n - 1);
      ShiftStep(P(k), P(n - 1), t[n - 1], Sum(t, 0, n - 1));
    }
  }

  /** A digit string is its first digit plus B times the rest. */
  lemma SumFirst(s: seq<int>, t: seq<int>, n: nat)
    requires n < |s| && n <= |t|
    requires forall i :: 0 <= i < n ==> t[i] == s[i + 1]
    ensures Sum(s, 0, n + 1) == s[0] + Sum(t, 0, n) * B
  {
    SumHead(s, 0, n + 1);
    SumShift(s, t, 1, n);
    PZero();
    MulCommutes(B, Sum(t, 0, n));
  }

  // ----- the digits of a number

  /** v / B by repeated subtraction. */
  function Quo(v: nat): nat {
    if v < B then 0 else 1 + Quo(v - B)
  }

  lemma {:induction false} QuoBounds(v: nat)
    ensures Quo(v) * B <= v < Quo(v) * B + B
  {
    if v >= B {
      QuoBounds(v - B);
      assert (1 + Quo(v - B)) * B == B + Quo(v - B) * B;
    }
  }

  lemma {:induction false} QuoLess(v: nat)
    requires v > 0
    ensures Quo(v) < v
  {
    if v >= B {
      if v > B {
        QuoLess(v - B);
      }
    }
  }

  /** Number of digits of v. */
  function Used(v: nat): nat {
    if v == 0 then 0 else
      QuoLess(v);
      1 + Used(Quo(v))
  }

  /** Digit i of v; zero above the top digit. */
  function Digit(v: nat, i: nat): (d: nat)
    ensures d < B
  {
    DivModIdentity(v / P(i), B);
    DivNonNeg(v, P(i));
    (v / P(i)) % B
  }

  lemma {:induction false} UsedAbove(v: nat)
    ensures v < P(Used(v))
  {
    if v > 0 {
      QuoLess(v);
      var q, p := Quo(v), P(Used(Quo(v)));
      UsedAbove(q);
      QuoBounds(v);
      MulMono(q + 1, p, B);
      assert (q + 1) * B == q * B + B;
      PStep(Used(q));
    }
  }

  lemma {:induction false} UsedBelow(v: nat)
    requires v > 0
    ensures Used(v) > 0 && P(Used(v) - 1) <= v
  {
    QuoLess(v);
    QuoBounds(v);
    var q := Quo(v);
    if q > 0 {
      UsedBelow(q);
      var p := P(Used(q) - 1);
      MulMono(p, q, B);
      PStep(Used(q) - 1);
    } else {
      assert P(0) == 1;
    }
  }

  lemma UsedBounds(v: nat)
    ensures v < P(Used(v))
    ensures v > 0 ==> Used(v) > 0 && P(Used(v) - 1) <= v
  {
    UsedAbove(v);
    if v > 0 {
      UsedBelow(v);
    }
  }

  lemma UsedUnique(v: nat, n: nat)
    requires v < P(n)
    requires n > 0 ==> P(n - 1) <= v
    ensures Used(v) == n
  {
    UsedBounds(v);
    if v == 0 {
      if n > 0 {
        assert false;
      }
    } else if Used(v) < n {
      PMono(Used(v), n - 1);
    } else if Used(v) > n {
      PMono(n, Used(v) - 1);
    }
  }

  lemma UsedAtMost(v: nat, n: nat)
    ensures Used(v) <= n <==> v < P(n)
  {
    UsedBounds(v);
    if Used(v) <= n {
      PMono(Used(v), n);
    } else {
      PMono(n, Used(v) - 1);
    }
  }

  lemma UsedMono(v: nat, w: nat)
    requires v <= w
    ensures Used(v) <= Used(w)
  {
    UsedBounds(w);
    UsedAtMost(v, Used(w));
  }

  /** Splitting a digit string at i: the part from i up is the quotient, the rest the remainder. */
  lemma SumDivMod(s: seq<int>, i: nat, n: nat)
    requires i <= n <= |s| && AreDigits(s, 0, n)
    ensures Sum(s, 0, n) % P(i) == Sum(s, 0, i)
    ensures Sum(s, 0, n) / P(i) == Sum(s[i..], 0, n - i)
  {
    SumSplit(s, 0, i, n);
    SumShift(s, s[i..], i, n - i);
    SumBound(s, 0, i);
    PZero();
    MulCommutes(P(i), Sum(s[i..], 0, n - i));
    DivModUnique(Sum(s, 0, n), P(i), Sum(s[i..], 0, n - i), Sum(s, 0, i));
  }

  /** The digits of the number a digit string denotes are the string itself. */
  lemma DigitOfSum(s: seq<int>, n: nat, i: nat)
    requires n <= |s| && AreDigits(s, 0, n) && i < n
    ensures 0 <= Sum(s, 0, n)
    ensures Digit(Sum(s, 0, n), i) == s[i]
  {
    SumBound(s, 0, n);
    SumDivMod(s, i, n);
    var t := s[i..];
    SumDivMod(t, 1, n - i);
    assert Sum(t, 0, 1) == Sum(t, 0, 0) + t[0] * P(0);
    assert P(0) == 1 && P(1) == B * P(0);
  }

  /** v is its low digit plus B times the rest, at every position. */
  lemma DigitStep(v: nat, i: nat)
    ensures v / P(i) >= 0 && v / P(i + 1) >= 0
    ensures v / P(i) == (v / P(i + 1)) * B + Digit(v, i)
  {
    DivNonNeg(v, P(i));
    DivNonNeg(v, P(i + 1));
    DivDiv(v, P(i), B);
    assert P(i) * B == P(i + 1);
    DivModIdentity(v / P(i), B);
  }

  lemma DigitAbove(v: nat, i: nat)
    requires v < P(i)
    ensures Digit(v, i) == 0
  {
    ModSmall(v, P(i));
    ModSmall(0, B);
  }

  /** The canonical digit string of v. */
  function DigitsOf(v: nat): (s: seq<nat>)
    ensures |s| == Used(v)
    ensures forall i :: 0 <= i < |s| ==> s[i] < B
  {
    if v == 0 then [] else
      QuoLess(v);
      QuoBounds(v);
      [v - Quo(v) * B] + DigitsOf(Quo(v))
  }

  lemma {:induction false} DigitsOfSum(v: nat)
    ensures Sum(DigitsOf(v), 0, Used(v)) == v
  {
    if v > 0 {
      QuoLess(v);
      var q := Quo(v);
      var s, t, n := DigitsOf(v), DigitsOf(q), Used(q);
      DigitsOfSum(q);
      SumFirst(s, t, n);
    }
  }

  lemma {:induction false} DigitsOfTop(v: nat)
    requires v > 0
    ensures Used(v) > 0 && DigitsOf(v)[Used(v) - 1] != 0
  {
    QuoLess(v);
    if v >= B {
      DigitsOfTop(Quo(v));
    }
  }
}
