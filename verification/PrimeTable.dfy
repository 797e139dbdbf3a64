/**
 The table of small primes, and a proof that it holds exactly the primes up to its last entry.
 */
module PrimeTable {
  import opened Arith
  import opened Divisibility
  import opened PrimeNumbers
  import opened Radix

  // ----- ltm_prime_tab, eight entries to a row

  const ROW0: seq<nat> := [2, 3, 5, 7, 11, 13, 17, 19]
  const ROW1: seq<nat> := [23, 29, 31, 37, 41, 43, 47, 53]
  const ROW2: seq<nat> := [59, 61, 67, 71, 73, 79, 83, 89]
  const ROW3: seq<nat> := [97, 101, 103, 107, 109, 113, 127, 131]
  const ROW4: seq<nat> := [137, 139, 149, 151, 157, 163, 167, 173]
  const ROW5: seq<nat> := [179, 181, 191, 193, 197, 199, 211, 223]
  const ROW6: seq<nat> := [227, 229, 233, 239, 241, 251, 257, 263]
  const ROW7: seq<nat> := [269, 271, 277, 281, 283, 293, 307, 311]
  const ROW8: seq<nat> := [313, 317, 331, 337, 347, 349, 353, 359]
  const ROW9: seq<nat> := [367, 373, 379, 383, 389, 397, 401, 409]
  const ROW10: seq<nat> := [419, 421, 431, 433, 439, 443, 449, 457]
  const ROW11: seq<nat> := [461, 463, 467, 479, 487, 491, 499, 503]
  const ROW12: seq<nat> := [509, 521, 523, 541, 547, 557, 563, 569]
  const ROW13: seq<nat> := [571, 577, 587, 593, 599, 601, 607, 613]
  const ROW14: seq<nat> := [617, 619, 631, 641, 643, 647, 653, 659]
  const ROW15: seq<nat> := [661, 673, 677, 683, 691, 701, 709, 719]
  const ROW16: seq<nat> := [727, 733, 739, 743, 751, 757, 761, 769]
  const ROW17: seq<nat> := [773, 787, 797, 809, 811, 821, 823, 827]
  const ROW18: seq<nat> := [829, 839, 853, 857, 859, 863, 877, 881]
  const ROW19: seq<nat> := [883, 887, 907, 911, 919, 929, 937, 941]
  const ROW20: seq<nat> := [947, 953, 967, 971, 977, 983, 991, 997]
  const ROW21: seq<nat> := [1009, 1013, 1019, 1021, 1031, 1033, 1039, 1049]
  const ROW22: seq<nat> := [1051, 1061, 1063, 1069, 1087, 1091, 1093, 1097]
  const ROW23: seq<nat> := [1103, 1109, 1117, 1123, 1129, 1151, 1153, 1163]
  const ROW24: seq<nat> := [1171, 1181, 1187, 1193, 1201, 1213, 1217, 1223]
  const ROW25: seq<nat> := [1229, 1231, 1237, 1249, 1259, 1277, 1279, 1283]
  const ROW26: seq<nat> := [1289, 1291, 1297, 1301, 1303, 1307, 1319, 1321]
  const ROW27: seq<nat> := [1327, 1361, 1367, 1373, 1381, 1399, 1409, 1423]
  const ROW28: seq<nat> := [1427, 1429, 1433, 1439, 1447, 1451, 1453, 1459]
  const ROW29: seq<nat> := [1471, 1481, 1483, 1487, 1489, 1493, 1499, 1511]
  const ROW30: seq<nat> := [1523, 1531, 1543, 1549, 1553, 1559, 1567, 1571]
  const ROW31: seq<nat> := [1579, 1583, 1597, 1601, 1607, 1609, 1613, 1619]

  function Row(r: nat): (s: seq<nat>)
    ensures |s| == 8
  {
    if r == 0 then ROW0 else if r == 1 then ROW1 else if r == 2 then ROW2 else if r == 3 then ROW3
    else if r == 4 then ROW4 else if r == 5 then ROW5 else if r == 6 then ROW6 else if r == 7 then ROW7
    else if r == 8 then ROW8 else if r == 9 then ROW9 else if r == 10 then ROW10 else if r == 11 then ROW11
    else if r == 12 then ROW12 else if r == 13 then ROW13 else if r == 14 then ROW14 else if r == 15 then ROW15
    else if r == 16 then ROW16 else if r == 17 then ROW17 else if r == 18 then ROW18 else if r == 19 then ROW19
    else if r == 20 then ROW20 else if r == 21 then ROW21 else if r == 22 then ROW22 else if r == 23 then ROW23
    else if r == 24 then ROW24 else if r == 25 then ROW25 else if r == 26 then ROW26 else if r == 27 then ROW27
    else if r == 28 then ROW28 else if r == 29 then ROW29 else if r == 30 then ROW30 else ROW31
  }

  /** ltm_prime_tab[ix] */
  function PrimeTab(ix: nat): nat
    requires ix < 256
  {
    Row(ix / 8)[ix % 8]
  }

  type TableSize = n: nat | 31 <= n <= 256 witness 256

  /** The table of an MP_8BIT build, the one with 7-bit digits, is cut short. */
  const PRIME_SIZE: TableSize := if DIGIT_BIT <= 7 then 31 else 256

  // ----- what is prime below 41 * 41

  predicate HasSmallFactor(n: nat) {
    || (n % 2 == 0 && n >= 4) || (n % 3 == 0 && n >= 9) || (n % 5 == 0 && n >= 25) || (n % 7 == 0 && n >= 49)
    || (n % 11 == 0 && n >= 121) || (n % 13 == 0 && n >= 169) || (n % 17 == 0 && n >= 289) || (n % 19 == 0 && n >= 361)
    || (n % 23 == 0 && n >= 529) || (n % 29 == 0 && n >= 841) || (n % 31 == 0 && n >= 961) || (n % 37 == 0 && n >= 1369)
  }

  /** Every second number between lo and hi has a small factor. */
  predicate Gap(lo: nat, hi: nat)
    decreases hi - lo
  {
    lo + 2 >= hi || (HasSmallFactor(lo + 2) && (lo + 4 >= hi || (HasSmallFactor(lo + 4) && Gap(lo + 4, hi))))
  }

  /** hi has no small factor, and every number between lo and hi has one. */
  predicate Follows(lo: nat, hi: nat) {
    lo < hi && !HasSmallFactor(hi) && (hi == lo + 1 || (lo % 2 == 1 && lo > 1)) && Gap(lo, hi)
  }

  /** From entry j on, every entry follows the one before it; last stands before the first. */
  predicate Linked(last: nat, s: seq<nat>, j: nat)
    requires j <= |s|
    decreases |s| - j
  {
    j == |s| || (Follows(last, s[j]) && Linked(s[j], s, j + 1))
  }

  lemma {:induction false} LinkedAt(last: nat, s: seq<nat>, j: nat, k: nat)
    requires j <= k < |s| && Linked(last, s, j)
    ensures Follows(if k == j then last else s[k - 1], s[k])
    decreases k - j
  {
    if j < k {
      LinkedAt(s[j], s, j + 1, k);
    }
  }

  lemma Linked0()
    ensures Linked(1, ROW0, 0)
  {
  }

  lemma Linked1()
    ensures Linked(ROW0[7], ROW1, 0)
  {
  }

  lemma Linked2()
    ensures Linked(ROW1[7], ROW2, 0)
  {
  }

  lemma Linked3()
    ensures Linked(ROW2[7], ROW3, 0)
  {
  }

  lemma Linked4()
    ensures Linked(ROW3[7], ROW4, 0)
  {
  }

  lemma Linked5()
    ensures Linked(ROW4[7], ROW5, 0)
  {
  }

  lemma Linked6()
    ensures Linked(ROW5[7], ROW6, 0)
  {
  }

  lemma Linked7()
    ensures Linked(ROW6[7], ROW7, 0)
  {
  }

  lemma Linked8()
    ensures Linked(ROW7[7], ROW8, 0)
  {
  }

  lemma Linked9()
    ensures Linked(ROW8[7], ROW9, 0)
  {
  }

  lemma Linked10()
    ensures Linked(ROW9[7], ROW10, 0)
  {
  }

  lemma Linked11()
    ensures Linked(ROW10[7], ROW11, 0)
  {
  }

  lemma Linked12()
    ensures Linked(ROW11[7], ROW12, 0)
  {
  }

  lemma Linked13()
    ensures Linked(ROW12[7], ROW13, 0)
  {
  }

  lemma Linked14()
    ensures Linked(ROW13[7], ROW14, 0)
  {
  }

  lemma Linked15()
    ensures Linked(ROW14[7], ROW15, 0)
  {
  }

  lemma Linked16()
    ensures Linked(ROW15[7], ROW16, 0)
  {
  }

  lemma Linked17()
    ensures Linked(ROW16[7], ROW17, 0)
  {
  }

  lemma Linked18()
    ensures Linked(ROW17[7], ROW18, 0)
  {
  }

  lemma Linked19()
    ensures Linked(ROW18[7], ROW19, 0)
  {
  }

  lemma Linked20()
    ensures Linked(ROW19[7], ROW20, 0)
  {
  }

  lemma Linked21()
    ensures Linked(ROW20[7], ROW21, 0)
  {
  }

  lemma Linked22()
    ensures Linked(ROW21[7], ROW22, 0)
  {
  }

  lemma Linked23()
    ensures Linked(ROW22[7], ROW23, 0)
  {
  }

  lemma Linked24()
    ensures Linked(ROW23[7], ROW24, 0)
  {
  }

  lemma Linked25()
    ensures Linked(ROW24[7], ROW25, 0)
  {
  }

  lemma Linked26()
    ensures Linked(ROW25[7], ROW26, 0)
  {
  }

  lemma Linked27()
    ensures Linked(ROW26[7], ROW27, 0)
  {
  }

  lemma Linked28()
    ensures Linked(ROW27[7], ROW28, 0)
  {
  }

  lemma Linked29()
    ensures Linked(ROW28[7], ROW29, 0)
  {
  }

  lemma Linked30()
    ensures Linked(ROW29[7], ROW30, 0)
  {
  }

  lemma Linked31()
    ensures Linked(ROW30[7], ROW31, 0)
  {
  }

  lemma RowLinked(r: nat)
    requires r < 32
    ensures Linked(if r == 0 then 1 else Row(r - 1)[7], Row(r), 0)
  {
    match r
    case 0 => Linked0();
    case 1 => Linked1();
    case 2 => Linked2();
    case 3 => Linked3();
    case 4 => Linked4();
    case 5 => Linked5();
    case 6 => Linked6();
    case 7 => Linked7();
    case 8 => Linked8();
    case 9 => Linked9();
    case 10 => Linked10();
    case 11 => Linked11();
    case 12 => Linked12();
    case 13 => Linked13();
    case 14 => Linked14();
    case 15 => Linked15();
    case 16 => Linked16();
    case 17 => Linked17();
    case 18 => Linked18();
    case 19 => Linked19();
    case 20 => Linked20();
    case 21 => Linked21();
    case 22 => Linked22();
    case 23 => Linked23();
    case 24 => Linked24();
    case 25 => Linked25();
    case 26 => Linked26();
    case 27 => Linked27();
    case 28 => Linked28();
    case 29 => Linked29();
    case 30 => Linked30();
    case 31 => Linked31();
    case _ =>
  }

  /** Every entry follows the one before it. */
  lemma EntryFollows(ix: nat)
    requires ix < 256
    ensures Follows(if ix == 0 then 1 else PrimeTab(ix - 1), PrimeTab(ix))
  {
    hide *;
    RowLinked(ix / 8);
    LinkedAt(if ix / 8 == 0 then 1 else Row(ix / 8 - 1)[7], Row(ix / 8), 0, ix % 8);
    Unrolled(ix);
  }

  lemma Unrolled(ix: nat)
    requires ix < 256
    ensures PrimeTab(ix) == Row(ix / 8)[ix % 8]
    ensures ix > 0 ==> PrimeTab(ix - 1) == if ix % 8 == 0 then Row(ix / 8 - 1)[7] else Row(ix / 8)[ix % 8 - 1]
  {
    hide Row;
    if ix % 8 == 0 && ix > 0 {
      assert (ix - 1) / 8 == ix / 8 - 1 && (ix - 1) % 8 == 7;
    }
  }

  /** The primes whose square is below 41 * 41. */
  lemma PrimesUpTo40(p: nat)
    requires IsPrime(p) && p <= 40
    ensures p in {2, 3, 5, 7, 11, 13, 17, 19, 23, 29, 31, 37}
  {
    NoProperFactor(p, 2);
    NoProperFactor(p, 3);
    NoProperFactor(p, 5);
  }

  lemma NoProperFactor(p: nat, q: nat)
    requires IsPrime(p) && 1 < q
    ensures p % q == 0 ==> p <= q
  {
    if p % q == 0 && q < p {
      ModSmall(0, q);
      assert Divides(q, p);
      assert false;
    }
  }

  lemma DividesMod(q: nat, n: nat)
    requires q > 0
    ensures Divides(q, n) <==> n % q == 0
  {
    ModSmall(0, q);
  }

  lemma FactorSplits(n: nat, q: nat)
    requires 1 < q && n % q == 0 && n >= q * q
    ensures !IsPrime(n)
  {
    MulMono(2, q, q);
    DividesMod(q, n);
  }

  lemma SmallFactorSplits(n: nat)
    requires HasSmallFactor(n)
    ensures !IsPrime(n)
  {
    hide IsPrime;
    var q: nat := if n % 2 == 0 && n >= 4 then 2 else if n % 3 == 0 && n >= 9 then 3
      else if n % 5 == 0 && n >= 25 then 5 else if n % 7 == 0 && n >= 49 then 7
      else if n % 11 == 0 && n >= 121 then 11 else if n % 13 == 0 && n >= 169 then 13
      else if n % 17 == 0 && n >= 289 then 17 else if n % 19 == 0 && n >= 361 then 19
      else if n % 23 == 0 && n >= 529 then 23 else if n % 29 == 0 && n >= 841 then 29
      else if n % 31 == 0 && n >= 961 then 31 else 37;
    FactorSplits(n, q);
  }

  /** Below 41 * 41, trial division by the primes up to 37 decides. */
  lemma TrialDivision(n: nat)
    requires 1 < n < 1681
    ensures IsPrime(n) <==> !HasSmallFactor(n)
  {
    if HasSmallFactor(n) {
      SmallFactorSplits(n);
    } else if !IsPrime(n) {
      var p := SmallPrimeFactor(n);
      if p >= 41 {
        MulMono(41, p, p);
        MulMono(41, p, 41);
        assert false;
      }
      PrimesUpTo40(p);
      DividesMod(p, n);
      FactorListed(n, p);
    }
  }

  lemma FactorListed(n: nat, p: nat)
    requires p in {2, 3, 5, 7, 11, 13, 17, 19, 23, 29, 31, 37} && n % p == 0 && p * p <= n
    ensures HasSmallFactor(n)
  {
    match p
    case 2 => case 3 => case 5 => case 7 => case 11 => case 13 =>
    case 17 => case 19 => case 23 => case 29 => case 31 => case 37 =>
    case _ =>
  }

  lemma {:induction false} GapHolds(lo: nat, hi: nat, n: nat)
    requires Gap(lo, hi) && lo < n < hi && n % 2 == lo % 2
    ensures HasSmallFactor(n)
    decreases hi - lo
  {
    hide HasSmallFactor;
    if n != lo + 2 && n != lo + 4 {
      GapHolds(lo + 4, hi, n);
    }
  }

  lemma {:induction false} Increasing(i: nat, j: nat)
    requires i <= j < 256
    ensures 2 <= PrimeTab(i) <= PrimeTab(j)
    ensures i < j ==> PrimeTab(i) < PrimeTab(j)
    decreases j
  {
    hide PrimeTab, HasSmallFactor, Gap;
    EntryFollows(j);
    if i < j {
      Increasing(i, j - 1);
    } else if i > 0 {
      Increasing(i - 1, i - 1);
    }
  }

  lemma EntryAtLeast2(ix: nat)
    requires ix < 256
    ensures ix > 0 ==> PrimeTab(ix - 1) >= 2
  {
    hide *;
    if ix > 0 {
      Increasing(ix - 1, ix - 1);
    }
  }

  /** The entries are primes, and no prime lies between one and the next. */
  lemma NextPrimeEntry(ix: nat)
    requires ix < 256 && PrimeTab(ix) < 1681
    ensures var lo := if ix == 0 then 1 else PrimeTab(ix - 1);
      lo < PrimeTab(ix) && IsPrime(PrimeTab(ix)) && forall n: nat :: lo < n < PrimeTab(ix) ==> !IsPrime(n)
  {
    hide PrimeTab, HasSmallFactor, IsPrime, Gap;
    EntryFollows(ix);
    EntryAtLeast2(ix);
    var lo, hi := if ix == 0 then 1 else PrimeTab(ix - 1), PrimeTab(ix);
    TrialDivision(hi);
    forall n: nat | lo < n < hi
      ensures !IsPrime(n)
    {
      Between(lo, hi, n);
    }
  }

  lemma Between(lo: nat, hi: nat, n: nat)
    requires Follows(lo, hi) && 1 <= lo < n < hi < 1681
    ensures !IsPrime(n)
  {
    hide HasSmallFactor, IsPrime, Gap;
    if n % 2 == 1 {
      GapHolds(lo, hi, n);
      TrialDivision(n);
    } else {
      EvenNotPrime(n);
    }
  }

  lemma EvenNotPrime(n: nat)
    requires n % 2 == 0 && n != 2
    ensures !IsPrime(n)
  {
    if n > 2 {
      DividesMod(2, n);
    }
  }

  lemma EntryBelow1681(ix: nat)
    requires ix < 256
    ensures PrimeTab(ix) <= 1619
  {
    Increasing(ix, 255);
    assert Row(31)[7] == 1619;
    hide Row;
  }

  ghost predicate InTable(n: int, size: nat)
    requires size <= 256
  {
    exists ix: nat :: ix < size && n == PrimeTab(ix)
  }

  /** The first size entries are exactly the primes up to the last of them. */
  lemma {:induction false} TableIsComplete(n: nat, size: nat)
    requires 1 <= size <= 256 && n <= PrimeTab(size - 1)
    ensures IsPrime(n) <==> InTable(n, size)
  {
    hide PrimeTab;
    forall ix: nat | ix < size
      ensures IsPrime(PrimeTab(ix))
    {
      EntryBelow1681(ix);
      NextPrimeEntry(ix);
    }
    if IsPrime(n) {
      TableReaches(n, size);
    }
  }

  lemma {:induction false} TableReaches(n: nat, size: nat)
    requires 1 <= size <= 256 && n <= PrimeTab(size - 1) && IsPrime(n)
    ensures InTable(n, size)
  {
    hide PrimeTab;
    EntryBelow1681(size - 1);
    NextPrimeEntry(size - 1);
    if n != PrimeTab(size - 1) {
      TableReaches(n, size - 1);
      var ix: nat :| ix < size - 1 && n == PrimeTab(ix);
      assert ix < size && n == PrimeTab(ix);
    }
  }
}
