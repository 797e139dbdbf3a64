/**
 mp_toradix, mp_read_radix and mp_radix_size: numbers as text in radix 2 to 64.
 */
module RadixText {
  import opened Arith
  import opened Radix
  import opened MpInts
  import opened Bits

  // ----- characters for digits

  /** mp_s_rmap[d]: 0-9, A-Z, a-z, + and /. */
  function RMap(d: nat): char
    requires d < 64
  {
    if d < 10 then ('0' as int + d) as char
    else if d < 36 then ('A' as int + (d - 10)) as char
    else if d < 62 then ('a' as int + (d - 36)) as char
    else if d == 62 then '+' else '/'
  }

  /** The map, written out. */
  lemma RMapIs(d: nat)
    requires d < 64
    ensures RMap(d) == ("0123456789" + "ABCDEFGHIJKLMNOPQRSTUVWXYZ" + "abcdefghijklmnopqrstuvwxyz" + "+/")[d]
  {
    hide RMap;
    JoinedAt("0123456789", "ABCDEFGHIJKLMNOPQRSTUVWXYZ", "abcdefghijklmnopqrstuvwxyz", "+/", d);
    if d < 10 {
      DecimalDigits(d);
    } else if d < 36 {
      UpperLetters(d);
    } else if d < 62 {
      LowerLetters(d);
    } else {
      LastSigns(d);
    }
  }

  lemma JoinedAt(digits: string, upper: string, lower: string, signs: string, d: nat)
    requires |digits| == 10 && |upper| == 26 && |lower| == 26 && |signs| == 2 && d < 64
    ensures (digits + upper + lower + signs)[d] ==
      if d < 10 then digits[d] else if d < 36 then upper[d - 10] else if d < 62 then lower[d - 36] else signs[d - 62]
  {
  }

  lemma LastSigns(d: nat)
    requires 62 <= d < 64
    ensures RMap(d) == "+/"[d - 62]
  {
  }

  lemma DecimalDigits(d: nat)
    requires d < 10
    ensures RMap(d) == "0123456789"[d]
  {
  }

  lemma UpperLetters(d: nat)
    requires 10 <= d < 36
    ensures RMap(d) == "ABCDEFGHIJKLMNOPQRSTUVWXYZ"[d - 10]
  {
  }

  lemma LowerLetters(d: nat)
    requires 36 <= d < 62
    ensures RMap(d) == "abcdefghijklmnopqrstuvwxyz"[d - 36]
  {
  }

  /** The digit a character stands for; 64 if it stands for none. */
  function DigitOf(ch: char): (y: nat)
    ensures y <= 64
    ensures y < 64 ==> RMap(y) == ch
    ensures forall d :: 0 <= d < 64 && RMap(d) == ch ==> d == y
  {
    if '0' <= ch <= '9' then ch as int - '0' as int
    else if 'A' <= ch <= 'Z' then ch as int - 'A' as int + 10
    else if 'a' <= ch <= 'z' then ch as int - 'a' as int + 36
    else if ch == '+' then 62 else if ch == '/' then 63 else 64
  }

  /** toupper in the C locale. */
  function ToUpper(ch: char): char {
    if 'a' <= ch <= 'z' then (ch as int - 'a' as int + 'A' as int) as char else ch
  }

  // ----- the text of a number

  type RadixRange = r: nat | 2 <= r <= 64 witness 10

  lemma DivLess(n: nat, r: RadixRange)
    ensures 0 <= n / r <= n && (n > 0 ==> n / r < n)
    ensures 0 <= n % r < r && n == (n / r) * r + n % r
  {
    DivModIdentity(n, r);
    DivNonNeg(n, r);
    MulMono(2, r, n / r);
  }

  function Numeral(n: nat, r: RadixRange): string {
    if n == 0 then "" else
      DivLess(n, r);
      Numeral(n / r, r) + [RMap(n % r)]
  }

  /** What mp_toradix prints. */
  function Text(v: int, r: RadixRange): string {
    if v == 0 then "0" else if v < 0 then "-" + Numeral(-v, r) else Numeral(v, r)
  }

  // ----- what the digits are worth

  /** Digits by their weights, the highest first. */
  function Weighted(ds: seq<nat>, r: nat): nat {
    if ds == [] then 0 else
      PowNonNeg(r, |ds| - 1);
      MulPos(ds[0], Pow(r, |ds| - 1));
      ds[0] * Pow(r, |ds| - 1) + Weighted(ds[1..], r)
  }

  lemma {:induction false} OneDigitMore(ds: seq<nat>, d: nat, r: nat)
    ensures Weighted(ds + [d], r) == Weighted(ds, r) * r + d
  {
    if ds == [] {
      assert Pow(r, 0) == 1;
      assert Weighted([d][1..], r) == 0;
    } else {
      var all, p := ds + [d], Pow(r, |ds| - 1);
      OneDigitMore(ds[1..], d, r);
      assert all[1..] == ds[1..] + [d];
      assert Pow(r, |ds|) == r * p;
      MulCommutes(r, p);
      MulAssoc(ds[0], p, r);
      Distribute(ds[0] * p, Weighted(ds[1..], r), r);
    }
  }

  /** The text is a sign and the characters of the digits ds, which are worth the magnitude of v. */
  ghost predicate Spells(text: string, v: int, ds: seq<nat>, r: nat)
    requires r <= 64
  {
    var lo := if v < 0 then 1 else 0;
    && |ds| > 0 && (ds[0] != 0 || |ds| == 1) && Weighted(ds, r) == Abs(v)
    && |text| == lo + |ds| && (v < 0 ==> text[0] == '-')
    && forall i :: 0 <= i < |ds| ==> ds[i] < r && text[lo + i] == RMap(ds[i])
  }

  /** The digits of a number, the highest first. */
  function DigitsIn(n: nat, r: RadixRange): seq<nat> {
    if n == 0 then [] else
      DivLess(n, r);
      DigitsIn(n / r, r) + [n % r]
  }

  lemma {:induction false} NumeralDigits(n: nat, r: RadixRange)
    ensures var ds := DigitsIn(n, r);
      && Weighted(ds, r) == n && |Numeral(n, r)| == |ds| && (n > 0 ==> |ds| > 0 && ds[0] != 0)
      && forall i :: 0 <= i < |ds| ==> ds[i] < r && Numeral(n, r)[i] == RMap(ds[i])
  {
    if n > 0 {
      DivLess(n, r);
      NumeralDigits(n / r, r);
      OneDigitMore(DigitsIn(n / r, r), n % r, r);
      assert n / r == 0 ==> n % r == n;
    }
  }

  /** Every text is spelled by digits below the radix, without leading zeros. */
  lemma TextSpells(v: int, r: RadixRange)
    ensures exists ds: seq<nat> :: Spells(Text(v, r), v, ds, r)
  {
    hide RMap, Numeral, DigitsIn;
    if v == 0 {
      ZeroText(r);
    } else {
      NumeralDigits(Abs(v), r);
      assert Spells(Text(v, r), v, DigitsIn(Abs(v), r), r);
    }
  }

  lemma ZeroText(r: RadixRange)
    ensures Spells(Text(0, r), 0, [0], r)
  {
    assert Weighted([0], r) == 0 * Pow(r, 0) + Weighted([0][1..], r);
  }

  /** The digits are determined. */
  lemma {:induction false} WeightedUnique(ds: seq<nat>, es: seq<nat>, r: RadixRange)
    requires |ds| == |es| && Weighted(ds, r) == Weighted(es, r)
    requires forall i :: 0 <= i < |ds| ==> ds[i] < r && es[i] < r
    ensures ds == es
  {
    if ds != [] {
      var n := |ds| - 1;
      var d, e := ds[..n], es[..n];
      assert ds == d + [ds[n]] && es == e + [es[n]];
      OneDigitMore(d, ds[n], r);
      OneDigitMore(e, es[n], r);
      DivModUnique(Weighted(ds, r), r, Weighted(d, r), ds[n]);
      DivModUnique(Weighted(es, r), r, Weighted(e, r), es[n]);
      WeightedUnique(d, e, r);
    }
  }

  /** n digits without a leading zero are worth at least r^(n-1) and less than r^n. */
  lemma {:induction false} NumeralSize(n: nat, r: RadixRange)
    requires n > 0
    ensures |Numeral(n, r)| > 0 && Pow(r, |Numeral(n, r)| - 1) <= n < Pow(r, |Numeral(n, r)|)
    decreases n
  {
    DivLess(n, r);
    var k := |Numeral(n / r, r)|;
    if n / r == 0 {
      assert Numeral(n / r, r) == "";
      assert Pow(r, 0) == 1 && Pow(r, 1) == r;
    } else {
      NumeralSize(n / r, r);
      assert Pow(r, k) == r * Pow(r, k - 1) && Pow(r, k + 1) == r * Pow(r, k);
      MulMono(Pow(r, k - 1), n / r, r);
      MulMono(n / r + 1, Pow(r, k), r);
      CountUp(n / r, r);
    }
  }

  // ----- decimal digits and capital letters

  predicate IsPlain(ch: char, r: nat) {
    ('0' <= ch <= '9' && ch as int - '0' as int < r) || ('A' <= ch <= 'Z' && ch as int - 'A' as int + 10 < r)
  }

  /** Horner's rule on the characters themselves. */
  function PlainValue(s: string, r: nat): int {
    if s == "" then 0 else
      var ch := s[|s| - 1];
      PlainValue(s[..|s| - 1], r) * r + (if ch <= '9' then ch as int - '0' as int else ch as int - 'A' as int + 10)
  }

  lemma {:induction false} PlainNumeral(n: nat, r: RadixRange)
    requires r <= 36
    ensures forall i :: 0 <= i < |Numeral(n, r)| ==> IsPlain(Numeral(n, r)[i], r)
    ensures PlainValue(Numeral(n, r), r) == n
  {
    hide RMap, IsPlain, PlainValue;
    NothingPlain(r);
    if n > 0 {
      DivLess(n, r);
      PlainNumeral(n / r, r);
      PlainStep(Numeral(n / r, r), RMap(n % r), r);
      PlainDigit(n % r, r);
      hide *;
      NumeralStep(n, r);
    } else {
      assert Numeral(0, r) == "";
    }
  }

  lemma NothingPlain(r: nat)
    ensures PlainValue("", r) == 0
  {
  }

  lemma NumeralStep(n: nat, r: RadixRange)
    requires n > 0
    ensures 0 <= n % r < 64 && n / r >= 0 && Numeral(n, r) == Numeral(n / r, r) + [RMap(n % r)]
  {
    DivLess(n, r);
  }

  lemma PlainStep(t: string, c: char, r: nat)
    ensures PlainValue(t + [c], r) ==
      PlainValue(t, r) * r + if c <= '9' then c as int - '0' as int else c as int - 'A' as int + 10
  {
    assert (t + [c])[..|t|] == t;
  }

  lemma PlainDigit(d: nat, r: RadixRange)
    requires d < r <= 36
    ensures IsPlain(RMap(d), r)
    ensures d == if RMap(d) <= '9' then RMap(d) as int - '0' as int else RMap(d) as int - 'A' as int + 10
  {
  }

  /** Up to radix 36, what follows the sign is made of 0-9 and A-Z below the radix and is worth the magnitude. */
  lemma PlainText(v: int, r: RadixRange)
    requires r <= 36
    ensures var lo := if v < 0 then 1 else 0;
      && lo < |Text(v, r)| && (v < 0 ==> Text(v, r)[0] == '-')
      && (forall i :: lo <= i < |Text(v, r)| ==> IsPlain(Text(v, r)[i], r))
      && PlainValue(Text(v, r)[lo..], r) == Abs(v)
  {
    if v == 0 {
      assert "0"[0..] == "0" && "0"[..0] == "";
      assert PlainValue("", r) == 0;
    } else {
      PlainNumeral(Abs(v), r);
      NumeralSize(Abs(v), r);
      assert Text(v, r)[if v < 0 then 1 else 0..] == Numeral(Abs(v), r);
    }
  }

  // ----- the value of a text

  /** The character as mp_read_radix takes it: below radix 36 case does not matter. */
  function ReadDigit(ch: char, r: RadixRange): nat {
    DigitOf(if r < 36 then ToUpper(ch) else ch)
  }

  predicate IsDigit(ch: char, r: RadixRange) {
    ch != '\0' && ReadDigit(ch, r) < r
  }

  /** The number the characters lo to hi denote. */
  function Horner(s: string, lo: nat, hi: nat, r: RadixRange): nat
    requires lo <= hi <= |s|
  {
    if lo == hi then 0 else
      MulPos(Horner(s, lo, hi - 1, r), r);
      Horner(s, lo, hi - 1, r) * r + ReadDigit(s[hi - 1], r)
  }

  /** lo to hi is the longest run of digits from lo on. */
  ghost predicate IsRun(s: string, lo: nat, hi: nat, r: RadixRange) {
    && lo <= hi <= |s|
    && (forall i :: lo <= i < hi ==> IsDigit(s[i], r))
    && (hi < |s| ==> !IsDigit(s[hi], r))
  }

  /** Where the digits of a C string start. */
  function Start(s: string): (k: nat)
    ensures k <= |s|
  {
    if |s| > 0 && s[0] == '-' then 1 else 0
  }

  /** v is what the C string s denotes: a sign and as many digits as there are. */
  ghost predicate Denotes(s: string, v: int, r: RadixRange) {
    exists hi: nat :: IsRun(s, Start(s), hi, r) && v == Signed(s, Horner(s, Start(s), hi, r))
  }

  function Signed(s: string, m: nat): int {
    if Start(s) == 1 then 0 - m else m
  }

  /** A text denotes one number only. */
  lemma DenotesUnique(s: string, v: int, w: int, r: RadixRange)
    requires Denotes(s, v, r) && Denotes(s, w, r)
    ensures v == w
  {
    hide IsDigit, Horner;
    var h: nat :| IsRun(s, Start(s), h, r) && v == Signed(s, Horner(s, Start(s), h, r));
    var k: nat :| IsRun(s, Start(s), k, r) && w == Signed(s, Horner(s, Start(s), k, r));
    if h != k {
      assert false;
    }
  }

  // ----- round trip

  /** What is printed for a digit reads back as that digit. */
  lemma DigitReadsBack(d: nat, r: RadixRange)
    requires d < r
    ensures IsDigit(RMap(d), r) && ReadDigit(RMap(d), r) == d && RMap(d) != '-'
  {
  }

  lemma {:induction false} NumeralReadsBack(s: string, lo: nat, n: nat, r: RadixRange)
    requires lo + |Numeral(n, r)| <= |s| && s[lo..lo + |Numeral(n, r)|] == Numeral(n, r)
    ensures Horner(s, lo, lo + |Numeral(n, r)|, r) == n
    ensures forall i :: lo <= i < lo + |Numeral(n, r)| ==> IsDigit(s[i], r)
  {
    if n > 0 {
      DivLess(n, r);
      var t, c := Numeral(n / r, r), RMap(n % r);
      assert Numeral(n, r) == t + [c];
      var hi := lo + |t|;
      assert s[lo..hi] == s[lo..hi + 1][..|t|] == t;
      assert s[hi] == s[lo..hi + 1][|t|] == c;
      NumeralReadsBack(s, lo, n / r, r);
      DigitReadsBack(n % r, r);
    }
  }

  lemma NumeralShape(n: nat, r: RadixRange)
    requires n > 0
    ensures |Numeral(n, r)| > 0 && Numeral(n, r)[0] != '-'
    decreases n
  {
    DivLess(n, r);
    DigitReadsBack(n % r, r);
    if n / r > 0 {
      NumeralShape(n / r, r);
    } else {
      assert Numeral(0, r) == "";
    }
  }

  /** Every number is denoted by its own text, whatever follows the terminator. */
  lemma RoundTrip(v: int, r: RadixRange, rest: string)
    ensures Denotes(Text(v, r) + "\0" + rest, v, r)
  {
    var s := Text(v, r) + "\0" + rest;
    var hi := |Text(v, r)|;
    assert s[hi] == '\0';
    if v == 0 {
      DigitReadsBack(0, r);
      assert s[0] == RMap(0) && Horner(s, 0, 0, r) == 0;
      assert IsRun(s, Start(s), hi, r);
    } else {
      var m := Abs(v);
      var lo := if v < 0 then 1 else 0;
      NumeralShape(m, r);
      assert s[lo..hi] == Numeral(m, r);
      assert v > 0 ==> s[0] == Numeral(m, r)[0];
      NumeralReadsBack(s, lo, m, r);
      assert Start(s) == lo;
      assert IsRun(s, Start(s), hi, r);
    }
  }

  /** What mp_read_radix finds in a buffer mp_toradix wrote v into is v. */
  lemma PrintThenRead(buffer: string, v: int, w: int, r: RadixRange)
    requires |Text(v, r)| + 1 <= |buffer| && buffer[..|Text(v, r)| + 1] == Text(v, r) + "\0"
    requires Denotes(buffer, w, r)
    ensures w == v
  {
    hide Text, Denotes;
    var n := |Text(v, r)| + 1;
    assert buffer == buffer[..n] + buffer[n..];
    RoundTrip(v, r, buffer[n..]);
    DenotesUnique(buffer, v, w, r);
  }

  /** What a character is worth: letters of either case from 10 on below radix 36, lower-case ones from 36 on else. */
  lemma ReadDigitMeans(ch: char, r: RadixRange)
    ensures '0' <= ch <= '9' ==> ReadDigit(ch, r) == ch as int - '0' as int
    ensures 'A' <= ch <= 'Z' ==> ReadDigit(ch, r) == ch as int - 'A' as int + 10
    ensures 'a' <= ch <= 'z' ==> ReadDigit(ch, r) == ch as int - 'a' as int + if r < 36 then 10 else 36
    ensures ch == '+' ==> ReadDigit(ch, r) == 62
    ensures ch == '/' ==> ReadDigit(ch, r) == 63
    ensures !('0' <= ch <= '9') && !('A' <= ch <= 'Z') && !('a' <= ch <= 'z') && ch != '+' && ch != '/' ==>
      ReadDigit(ch, r) == 64
    ensures IsDigit(ch, r) <==> ReadDigit(ch, r) < r
  {
  }

  /** Below radix 36 a letter is a digit in both cases or in neither, and worth the same. */
  lemma LettersOfEitherCase(k: nat, r: RadixRange)
    requires r < 36 && k < 26
    ensures var lower, upper := ('a' as int + k) as char, ('A' as int + k) as char;
      && (IsDigit(lower, r) <==> 10 + k < r) && (IsDigit(upper, r) <==> 10 + k < r)
      && ReadDigit(lower, r) == ReadDigit(upper, r) == 10 + k
  {
  }

  /** In radix 36 the lower-case letters are no digits; from 37 on they come after the upper-case ones. */
  lemma CaseMatters(k: nat, r: RadixRange)
    requires r >= 36 && k < 26
    ensures var lower, upper := ('a' as int + k) as char, ('A' as int + k) as char;
      && IsDigit(upper, r) && ReadDigit(upper, r) == 10 + k
      && (IsDigit(lower, r) <==> 36 + k < r) && ReadDigit(lower, r) == 36 + k
  {
  }

  /** Below radix 36, texts that differ only in the case of letters denote the same number. */
  lemma {:induction false} CaseInsensitive(s: string, t: string, v: int, r: RadixRange)
    requires r < 36 && |s| == |t|
    requires forall i :: 0 <= i < |s| && s[i] != t[i] ==>
      ('a' <= s[i] <= 'z' && t[i] as int - 'A' as int == s[i] as int - 'a' as int)
      || ('a' <= t[i] <= 'z' && s[i] as int - 'A' as int == t[i] as int - 'a' as int)
    ensures Denotes(s, v, r) <==> Denotes(t, v, r)
  {
    forall i | 0 <= i < |s|
      ensures (IsDigit(t[i], r) <==> IsDigit(s[i], r)) && ReadDigit(s[i], r) == ReadDigit(t[i], r)
      ensures s[i] == '-' <==> t[i] == '-'
    {
      if s[i] != t[i] {
        LettersOfEitherCase(if 'a' <= s[i] <= 'z' then s[i] as int - 'a' as int else t[i] as int - 'a' as int, r);
      }
    }
    hide IsDigit, ReadDigit;
    if Denotes(s, v, r) {
      SameRuns(s, t, v, r);
    }
    if Denotes(t, v, r) {
      SameRuns(t, s, v, r);
    }
  }

  lemma SameRuns(s: string, t: string, v: int, r: RadixRange)
    requires |s| == |t| && Denotes(s, v, r) && Start(s) == Start(t)
    requires forall i :: 0 <= i < |s| ==> (IsDigit(t[i], r) <==> IsDigit(s[i], r))
    requires forall i :: 0 <= i < |s| ==> ReadDigit(s[i], r) == ReadDigit(t[i], r)
    ensures Denotes(t, v, r)
  {
    hide IsDigit, ReadDigit;
    var hi: nat :| IsRun(s, Start(s), hi, r) && v == Signed(s, Horner(s, Start(s), hi, r));
    SameHorner(s, t, Start(s), hi, r);
    assert IsRun(t, Start(t), hi, r);
  }

  /** The value of a run by the weights of its digits. */
  lemma {:induction false} HornerIsWeighted(s: string, lo: nat, hi: nat, ds: seq<nat>, r: RadixRange)
    requires lo <= hi <= |s| && |ds| == hi - lo && forall i :: 0 <= i < |ds| ==> ds[i] == ReadDigit(s[lo + i], r)
    ensures Horner(s, lo, hi, r) == Weighted(ds, r)
    decreases hi
  {
    if lo < hi {
      var n := |ds| - 1;
      HornerIsWeighted(s, lo, hi - 1, ds[..n], r);
      assert ds == ds[..n] + [ds[n]];
      OneDigitMore(ds[..n], ds[n], r);
    }
  }

  /** What a text denotes, in full: an optional minus sign, as many digits as there are, and their weighted sum. */
  lemma DenotesMeans(s: string, v: int, lo: nat, ds: seq<nat>, r: RadixRange)
    requires lo == (if |s| > 0 && s[0] == '-' then 1 else 0) && lo + |ds| <= |s|
    requires forall i :: 0 <= i < |ds| ==> ds[i] < r && ds[i] == ReadDigit(s[lo + i], r)
    requires lo + |ds| < |s| ==> ReadDigit(s[lo + |ds|], r) >= r
    ensures Denotes(s, v, r) <==> v == if lo == 1 then 0 - Weighted(ds, r) else Weighted(ds, r)
  {
    var hi := lo + |ds|;
    forall i | 0 <= i < |s|
      ensures IsDigit(s[i], r) <==> ReadDigit(s[i], r) < r
    {
      ReadDigitMeans(s[i], r);
    }
    HornerIsWeighted(s, lo, hi, ds, r);
    hide IsDigit, ReadDigit, Horner;
    forall i | lo <= i < hi
      ensures IsDigit(s[i], r)
    {
      assert ds[i - lo] == ReadDigit(s[lo + (i - lo)], r);
    }
    assert IsRun(s, Start(s), hi, r);
    if Denotes(s, v, r) {
      assert Denotes(s, Signed(s, Horner(s, Start(s), hi, r)), r);
      DenotesUnique(s, v, Signed(s, Horner(s, Start(s), hi, r)), r);
    }
  }

  lemma {:induction false} SameHorner(s: string, t: string, lo: nat, hi: nat, r: RadixRange)
    requires lo <= hi <= |s| == |t|
    requires forall i :: lo <= i < hi ==> ReadDigit(s[i], r) == ReadDigit(t[i], r)
    ensures Horner(s, lo, hi, r) == Horner(t, lo, hi, r)
    decreases hi
  {
    if lo < hi {
      SameHorner(s, t, lo, hi - 1, r);
    }
  }

  // ----- reading

  method ReadRadix(a: MpInt, str: string, radix: int) returns (err: Err)
    requires '\0' in str
    modifies a
    ensures a.Valid()
    ensures err == Okay <==> 2 <= radix <= 64
    ensures err == Val ==> a.Value() == 0
    ensures err == Okay ==> Denotes(str, a.Value(), radix)
  {
    hide IsDigit, Horner;
    a.neg := false;
    a.StoreMag(0);
    if radix < 2 || radix > 64 {
      return Val;
    }
    var r: RadixRange := radix;
    var neg := str[0] == '-';
    var i: nat := if neg then 1 else 0;
    ghost var start: nat := i;
    HornerStart(str, start, r);
    while str[i] != '\0'
      invariant start <= i < |str| && '\0' in str[i..]
      invariant a.Valid() && !a.neg && a.Mag() == Horner(str, start, i, r)
      invariant forall k :: start <= k < i ==> IsDigit(str[k], r)
      decreases |str| - i
    {
      var ch := if r < 36 then ToUpper(str[i]) else str[i];
      var y := FindDigit(ch);
      NextDigit(str, start, i, r, y);
      if y < r {
        a.StoreMag(a.Mag() * r);
        a.StoreMag(a.Mag() + y);
      } else {
        break;
      }
      i := i + 1;
    }
    EndOfRun(str, start, i, r);
    err := Okay;
    if a.Mag() != 0 {
      a.neg := neg;
    }
  }

  /** The search through the map. */
  method FindDigit(ch: char) returns (y: nat)
    ensures y == DigitOf(ch)
  {
    y := 0;
    while y < 64
      invariant y <= 64 && forall d :: 0 <= d < y ==> RMap(d) != ch
    {
      if ch == RMap(y) {
        return;
      }
      y := y + 1;
    }
  }

  lemma HornerStart(s: string, lo: nat, r: RadixRange)
    requires lo <= |s|
    ensures Horner(s, lo, lo, r) == 0
  {
  }

  lemma NextDigit(s: string, lo: nat, i: nat, r: RadixRange, y: nat)
    requires lo <= i < |s| && s[i] != '\0' && y == DigitOf(if r < 36 then ToUpper(s[i]) else s[i])
    ensures IsDigit(s[i], r) <==> y < r
    ensures Horner(s, lo, i, r) * r >= 0
    ensures Horner(s, lo, i + 1, r) == Horner(s, lo, i, r) * r + y
  {
    MulPos(Horner(s, lo, i, r), r);
  }

  lemma EndOfRun(s: string, lo: nat, i: nat, r: RadixRange)
    requires lo == Start(s) && lo <= i < |s| && (s[i] == '\0' || !IsDigit(s[i], r))
    requires forall k :: lo <= k < i ==> IsDigit(s[k], r)
    ensures IsRun(s, Start(s), i, r)
  {
  }

  // ----- printing

  function Backwards(s: string): (t: string)
    ensures |t| == |s|
  {
    if s == [] then [] else [s[|s| - 1]] + Backwards(s[..|s| - 1])
  }

  lemma {:induction false} BackwardsAt(s: string, k: nat)
    requires k < |s|
    ensures Backwards(s)[k] == s[|s| - 1 - k]
  {
    if k > 0 {
      BackwardsAt(s[..|s| - 1], k - 1);
    }
  }

  lemma BackwardsAll(s: string)
    ensures forall k :: 0 <= k < |s| ==> Backwards(s)[k] == s[|s| - 1 - k]
  {
    forall k | 0 <= k < |s|
      ensures Backwards(s)[k] == s[|s| - 1 - k]
    {
      BackwardsAt(s, k);
    }
  }

  /** The first and last ix of len characters from lo on have changed places; the rest is as it was. */
  ghost predicate Swapped(was: string, now: string, lo: nat, len: nat, ix: nat) {
    && lo + len <= |was| == |now|
    && forall k :: 0 <= k < |was| ==> now[k] == was[SwappedWith(k, lo, len, ix)]
  }

  function SwappedWith(k: nat, lo: nat, len: nat, ix: nat): nat {
    if lo <= k < lo + len && (k < lo + ix || k >= lo + len - ix) then 2 * lo + len - 1 - k else k
  }

  lemma SwapStep(was: string, now: string, lo: nat, len: nat, ix: nat)
    requires Swapped(was, now, lo, len, ix) && 2 * ix < len - 1
    ensures var p, q := lo + ix, lo + len - 1 - ix;
      Swapped(was, now[p := now[q]][q := now[p]], lo, len, ix + 1)
  {
  }

  lemma AllSwapped(was: string, now: string, lo: nat, len: nat, ix: nat)
    requires Swapped(was, now, lo, len, ix) && 2 * ix >= len - 1
    ensures now[lo..lo + len] == Backwards(was[lo..lo + len])
    ensures now[..lo] == was[..lo]
    ensures forall k :: lo + len <= k < |was| ==> now[k] == was[k]
  {
    var part := was[lo..lo + len];
    BackwardsAll(part);
    forall k | 0 <= k < len
      ensures now[lo..lo + len][k] == Backwards(part)[k]
    {
      assert now[lo + k] == was[2 * lo + len - 1 - (lo + k)];
      assert part[len - 1 - k] == was[2 * lo + len - 1 - (lo + k)];
    }
  }

  /** bn_reverse on the len characters from lo on. */
  method Reverse(s: array<char>, lo: nat, len: nat)
    requires lo + len <= s.Length
    modifies s
    ensures s[lo..lo + len] == Backwards(old(s[lo..lo + len]))
    ensures s[..lo] == old(s[..lo])
    ensures forall k :: lo + len <= k < s.Length ==> s[k] == old(s[k])
  {
    var ix: int, iy: int := 0, len - 1;
    ghost var was := s[..];
    assert Swapped(was, s[..], lo, len, 0);
    hide *;
    while ix < iy
      invariant 0 <= ix && iy == len - 1 - ix
      invariant Swapped(was, s[..], lo, len, ix)
    {
      ghost var now := s[..];
      SwapStep(was, now, lo, len, ix);
      s[lo + ix], s[lo + iy] := s[lo + iy], s[lo + ix];
      assert s[..] == now[lo + ix := now[lo + iy]][lo + iy := now[lo + ix]];
      ix := ix + 1;
      iy := iy - 1;
    }
    AllSwapped(was, s[..], lo, len, ix);
    assert s[lo..lo + len] == s[..][lo..lo + len] && was[lo..lo + len] == old(s[lo..lo + len]);
    assert s[..lo] == s[..][..lo];
  }

  /** One more digit in front of those already printed, back to front. */
  lemma PrintStep(t: nat, r: RadixRange, printed: string)
    requires t > 0
    ensures 0 <= t / r < t && 0 <= t % r < 64
    ensures Numeral(t, r) + Backwards(printed) == Numeral(t / r, r) + Backwards(printed + [RMap(t % r)])
  {
    DivLess(t, r);
    var c := RMap(t % r);
    assert (printed + [c])[..|printed|] == printed;
    assert Backwards(printed + [c]) == [c] + Backwards(printed);
  }

  /** Prints into str, which must have room for what mp_radix_size announces. */
  method ToRadix(a: MpInt, str: array<char>, radix: int) returns (err: Err)
    requires a.Valid()
    requires 2 <= radix <= 64 ==> |Text(a.Value(), radix)| + 1 <= str.Length
    modifies str
    ensures err == Okay <==> 2 <= radix <= 64
    ensures err == Val ==> str[..] == old(str[..])
    ensures err == Okay ==> str[..|Text(a.Value(), radix)| + 1] == Text(a.Value(), radix) + "\0"
    ensures err == Okay ==> exists ds: seq<nat> :: Spells(str[..|Text(a.Value(), radix)|], a.Value(), ds, radix)
    ensures err == Okay && radix <= 36 ==>
      PlainValue(str[if a.Value() < 0 then 1 else 0..|Text(a.Value(), radix)|], radix) == a.Mag()
    ensures err == Okay ==> forall k :: |Text(a.Value(), radix)| < k < str.Length ==> str[k] == old(str[k])
  {
    if radix < 2 || radix > 64 {
      return Val;
    }
    err := Okay;
    var r: RadixRange := radix;
    if a.used == 0 {
      str[0] := '0';
      str[1] := '\0';
    } else {
      a.TopIsPositive();
      PrintNonZero(a.Value(), str, r);
    }
    hide *;
    WhatIsPrinted(a, str[..], r);
  }

  lemma WhatIsPrinted(a: MpInt, str: string, r: RadixRange)
    requires a.Valid() && |Text(a.Value(), r)| < |str|
    requires str[..|Text(a.Value(), r)| + 1] == Text(a.Value(), r) + "\0"
    ensures exists ds: seq<nat> :: Spells(str[..|Text(a.Value(), r)|], a.Value(), ds, r)
    ensures r <= 36 ==> (if a.Value() < 0 then 1 else 0) <= |Text(a.Value(), r)|
    ensures r <= 36 ==> PlainValue(str[if a.Value() < 0 then 1 else 0..|Text(a.Value(), r)|], r) == a.Mag()
  {
    hide Text, Spells, PlainValue;
    var t := Text(a.Value(), r);
    assert str[..|t|] == str[..|t| + 1][..|t|] == t;
    TextSpells(a.Value(), r);
    if r <= 36 {
      PlainText(a.Value(), r);
      var lo := if a.Value() < 0 then 1 else 0;
      assert str[lo..|t|] == t[lo..];
    }
  }

  method PrintNonZero(v: int, str: array<char>, r: RadixRange)
    requires v != 0 && |Text(v, r)| + 1 <= str.Length
    modifies str
    ensures str[..|Text(v, r)| + 1] == Text(v, r) + "\0"
    ensures forall k :: |Text(v, r)| < k < str.Length ==> str[k] == old(str[k])
  {
    hide *;
    TextOf(v, r);
    var m, start: nat := Abs(v), 0;
    if v < 0 {
      start := 1;
      str[0] := '-';
    }
    var pos := PrintDigits(str, start, m, r);
    Reverse(str, start, pos - start);
    str[pos] := '\0';
    assert str[..pos + 1] == str[..start] + str[start..pos] + "\0";
  }

  lemma TextOf(v: int, r: RadixRange)
    requires v != 0
    ensures Text(v, r) == (if v < 0 then "-" else "") + Numeral(Abs(v), r)
  {
    assert "" + Numeral(Abs(v), r) == Numeral(Abs(v), r);
  }

  /** The division loop: the digits of t, lowest first. */
  method PrintDigits(str: array<char>, start: nat, t0: nat, r: RadixRange) returns (pos: nat)
    requires start + |Numeral(t0, r)| <= str.Length
    modifies str
    ensures pos == start + |Numeral(t0, r)|
    ensures Backwards(str[start..pos]) == Numeral(t0, r)
    ensures str[..start] == old(str[..start])
    ensures forall k :: pos <= k < str.Length ==> str[k] == old(str[k])
  {
    hide Numeral, Backwards, RMap;
    var t: nat := t0;
    pos := start;
    NothingPrinted(t0, r);
    assert str[start..pos] == "";
    while t > 0
      invariant start <= pos <= pos + |Numeral(t, r)| <= str.Length
      invariant Numeral(t0, r) == Numeral(t, r) + Backwards(str[start..pos])
      invariant str[..start] == old(str[..start])
      invariant forall k :: pos <= k < str.Length ==> str[k] == old(str[k])
    {
      PrintStep(t, r, str[start..pos]);
      ghost var printed := str[start..pos];
      str[pos] := RMap(t % r);
      pos := pos + 1;
      assert str[start..pos] == printed + [RMap(t % r)];
      t := t / r;
    }
    NothingPrinted(0, r);
  }

  lemma NothingPrinted(t: nat, r: RadixRange)
    ensures Numeral(t, r) + Backwards("") == Numeral(t, r)
    ensures Numeral(0, r) == ""
  {
  }

  // ----- the size of the text

  /** In radix 2 there is one digit per bit. */
  lemma {:induction false} BinaryLength(n: nat)
    ensures |Numeral(n, 2)| == BitLength(n)
  {
    if n > 0 {
      BinaryLength(n / 2);
    }
  }

  lemma TextSize(a: MpInt, r: RadixRange)
    requires a.Valid()
    ensures a.Loose() && (a.used == 0 <==> a.Mag() == 0)
    ensures a.Mag() == 0 ==> |Text(a.Value(), r)| == 1
    ensures a.Mag() > 0 ==> |Text(a.Value(), r)| == |Numeral(a.Mag(), r)| + if a.neg then 1 else 0
    ensures a.Mag() > 0 ==> (a.neg <==> a.Value() < 0)
    ensures a.Mag() > 0 ==>
      var digs := |Text(a.Value(), r)| - if a.Value() < 0 then 1 else 0;
      digs > 0 && Pow(r, digs - 1) <= a.Mag() < Pow(r, digs)
  {
    hide Pow, Numeral;
    if a.used > 0 {
      a.TopIsPositive();
      NumeralSize(a.Mag(), r);
    }
  }

  /** mp_radix_size */
  method RadixSize(a: MpInt, radix: int) returns (err: Err, size: nat)
    requires a.Valid()
    ensures err == Okay <==> 2 <= radix <= 64
    ensures err == Okay ==> size == |Text(a.Value(), radix)| + 1
    ensures err == Okay && a.Mag() == 0 ==> size == 2
    ensures err == Okay && a.Mag() > 0 ==>
      var digs := size - 1 - if a.Value() < 0 then 1 else 0;
      digs > 0 && Pow(radix, digs - 1) <= a.Mag() < Pow(radix, digs)
    ensures err == Val ==> size == 0
  {
    size := 0;
    if radix < 2 || radix > 64 {
      return Val, 0;
    }
    err := Okay;
    var r: RadixRange := radix;
    TextSize(a, r);
    hide *;
    if a.used == 0 {
      size := 2;
    } else if r == 2 {
      var bits := CountBits(a);
      BinaryLength(a.Mag());
      size := bits + (if a.neg then 1 else 0) + 1;
    } else {
      var digs := DivisionCount(a.Mag(), r);
      size := (if a.neg then 1 else 0) + digs + 1;
    }
  }

  /** How often t can be divided by the radix. */
  method DivisionCount(t0: nat, r: RadixRange) returns (digs: nat)
    ensures digs == |Numeral(t0, r)|
  {
    var t: nat := t0;
    digs := 0;
    while t > 0
      invariant digs + |Numeral(t, r)| == |Numeral(t0, r)|
    {
      DivLess(t, r);
      t := t / r;
      digs := digs + 1;
    }
  }
}
