/**
 The mp_int record: a growable digit buffer, the number of digits in use and a sign.
 */
module MpInts {
  import opened Arith
  import opened Radix

  /** The result codes MP_OKAY and MP_VAL. */
  datatype Err = Okay | Val

  function Zeros(n: nat): (s: seq<nat>)
    ensures |s| == n
    ensures forall i :: 0 <= i < n ==> s[i] == 0
  {
    seq(n, _ => 0)
  }

  class MpInt {
    var dp: seq<nat>
    var used: nat
    var neg: bool

    /** Everything an mp_int promises except that its top digit is non-zero. */
    ghost predicate Loose()
      reads this
    {
      && used <= |dp|
      && AreDigits(dp, 0, |dp|)
      && (forall i :: used <= i < |dp| ==> dp[i] == 0)
    }

    ghost predicate Valid()
      reads this
    {
      && Loose()
      && (used > 0 ==> dp[used - 1] != 0)
      && (used == 0 ==> !neg)
    }

    /** The magnitude. */
    function Mag(): (v: nat)
      requires Loose()
      reads this
    {
      SumBound(dp, 0, used);
      Sum(dp, 0, used)
    }

    function Value(): (v: int)
      requires Loose()
      reads this
    {
      var m: int := Mag();
      if neg then -m else m
    }

    constructor ()
      ensures Valid() && Value() == 0 && Mag() == 0 && dp == []
    {
      dp, used, neg := [], 0, false;
    }

    /** A fresh mp_int holding v, in canonical form. */
    constructor Of(v: int)
      ensures Valid() && Value() == v && Mag() == Abs(v) && neg == (v < 0)
    {
      var m := Abs(v);
      dp, used, neg := DigitsOf(m), Used(m), v < 0;
      new;
      DigitsOfSum(m);
      if m > 0 {
        DigitsOfTop(m);
      }
    }

    /** used is exactly the number of digits of the magnitude. */
    lemma UsedIsLength()
      requires Valid()
      ensures used == Used(Mag())
      ensures Mag() < P(used)
      ensures used > 0 ==> P(used - 1) <= Mag()
    {
      SumBound(dp, 0, used);
      PZero();
      if used > 0 {
        SumBound(dp, 0, used - 1);
        MulMono(1, dp[used - 1], P(used - 1));
        assert Mag() == Sum(dp, 0, used - 1) + dp[used - 1] * P(used - 1);
      }
      UsedUnique(Mag(), used);
    }

    /** The stored digits are the digits of the magnitude, zero above used. */
    lemma DigitIsStored(i: nat)
      requires Valid()
      ensures Digit(Mag(), i) == if i < |dp| then dp[i] else 0
    {
      UsedIsLength();
      if i < used {
        DigitOfSum(dp, used, i);
      } else {
        PMono(used, i);
        DigitAbove(Mag(), i);
      }
    }

    /** mp_clamp */
    method Clamp()
      requires Loose()
      modifies this`used, this`neg
      ensures Valid() && Mag() == old(Mag())
      ensures neg == (old(neg) && Mag() != 0)
      ensures used <= old(used)
    {
      while used > 0 && dp[used - 1] == 0
        invariant used <= old(used) && Loose() && Mag() == old(Mag())
        invariant neg == old(neg)
      {
        used := used - 1;
      }
      if used == 0 {
        neg := false;
      } else {
        TopIsPositive();
      }
    }

    lemma TopIsPositive()
      requires Loose() && used > 0 && dp[used - 1] != 0
      ensures Mag() > 0
    {
      SumBound(dp, 0, used - 1);
      MulPos(dp[used - 1], P(used - 1));
    }

    /** Takes over the n digits ds[..n], clearing whatever was there above them, and clamps. */
    method Load(ds: seq<nat>, n: nat)
      requires n <= |ds| && AreDigits(ds, 0, n)
      modifies this
      ensures Valid() && neg == (old(neg) && Mag() != 0)
      ensures Mag() == Sum(ds, 0, n)
      ensures used <= n
    {
      dp, used := ds[..n] + Zeros(if |dp| > n then |dp| - n else 0), n;
      SumFrame(ds, dp, 0, n);
      Clamp();
    }

    /** Stores the magnitude v in canonical form, as the plain additions, subtractions and shifts do. */
    method StoreMag(v: nat)
      modifies this
      ensures Valid() && Mag() == v && neg == (old(neg) && v != 0)
      ensures used == Used(v)
    {
      DigitsOfSum(v);
      Load(DigitsOf(v), Used(v));
      UsedIsLength();
    }
  }
}
