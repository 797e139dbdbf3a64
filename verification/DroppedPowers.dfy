/**
 What the sliding window makes of a base when every reduction drops 2^p = n + B: the
 powers mp_exptmod computes for the moduli mp_reduce_2k is set up wrongly for.
 */
module DroppedPowers {
  import opened Arith
  import opened Radix
  import opened Bits

  /** The window width for an exponent of the given bit length. */
  function WinSize(bits: nat): (w: nat)
    ensures 2 <= w <= 8
  {
    if bits <= 7 then 2 else if bits <= 36 then 3 else if bits <= 140 then 4 else if bits <= 450 then 5
    else if bits <= 1303 then 6 else if bits <= 3529 then 7 else 8
  }

  /** What one pass with the digit 0 and one subtraction leave of v. */
  function Dropped(v: nat, n: nat): (r: nat)
    ensures n >= B ==> r < n
  {
    DivModIdentity(v, n + B);
    var s := v % (n + B);
    if s >= n then s - n else s
  }

  /** A product, reduced that way. */
  function Times(n: nat, v: nat, w: nat): (r: nat)
    ensures n >= B ==> r < n
  {
    MulPos(v, w);
    Dropped(v * w, n)
  }

  function Squares(n: nat, v: nat, times: nat): nat {
    if times == 0 then v else Times(n, Squares(n, v, times - 1), Squares(n, v, times - 1))
  }

  /** The table: repeated squares up to the middle, then one factor more for each cell. */
  function Cell(n: nat, base: nat, w: nat, x: nat): nat
    requires w > 0
  {
    PowPos(2, w - 1);
    if x <= Pow(2, w - 1) then Squares(n, base, w - 1) else Times(n, Cell(n, base, w, x - 1), base)
  }

  /** The mode, the number of bits in the window, their value, and the result so far. */
  datatype Stage = Stage(mode: nat, bitcpy: nat, pend: nat, res: nat)

  /** One more bit of the exponent. */
  function Fed(n: nat, base: nat, w: nat, s: Stage, y: nat): Stage
    requires w > 0
  {
    if s.mode == 0 && y == 0 then s
    else if s.mode == 1 && y == 0 then s.(res := Times(n, s.res, s.res))
    else if s.bitcpy + 1 < w then Stage(2, s.bitcpy + 1, 2 * s.pend + y, s.res)
    else Stage(1, 0, 0, Times(n, Squares(n, s.res, w), Cell(n, base, w, 2 * s.pend + y)))
  }

  /** After the leading bits that make up pre. */
  function StageOf(n: nat, base: nat, w: nat, pre: nat): Stage
    requires w > 0
  {
    if pre == 0 then Stage(0, 0, 0, 1) else Fed(n, base, w, StageOf(n, base, w, pre / 2), pre % 2)
  }

  lemma NextStage(n: nat, base: nat, w: nat, pre: nat, y: nat)
    requires w > 0 && y <= 1 && 2 * pre + y > 0
    ensures StageOf(n, base, w, 2 * pre + y) == Fed(n, base, w, StageOf(n, base, w, pre), y)
  {
    assert (2 * pre + y) / 2 == pre && (2 * pre + y) % 2 == y;
  }

  /** The c bits left in the window: square, and multiply by the base when the bit is set. */
  function Finished(n: nat, base: nat, res: nat, pend: nat, c: nat): nat {
    if c == 0 then res
    else
      var r := Finished(n, base, res, pend / 2, c - 1);
      var q := Times(n, r, r);
      if pend % 2 == 1 then Times(n, q, base) else q
  }

  /** When the bits are used up: the c bits left in the window, if any. */
  function LastStage(n: nat, base: nat, s: Stage): nat {
    if s.mode == 2 && s.bitcpy > 0 then Finished(n, base, s.res, s.pend, s.bitcpy) else s.res
  }

  /** The whole run. */
  function DroppedPower(n: nat, base: nat, e: nat): nat {
    LastStage(n, base, StageOf(n, base, WinSize(BitLength(e)), e))
  }

  lemma PowerIsLastStage(n: nat, base: nat, e: nat)
    ensures DroppedPower(n, base, e) == LastStage(n, base, StageOf(n, base, WinSize(BitLength(e)), e))
  {
  }

  lemma DroppedSmall(v: nat, n: nat)
    requires v < n
    ensures Dropped(v, n) == v
  {
    ModSmall(v, n + B);
  }

  /** The first powers: 1, the base, and its square as the reduction leaves it. */
  lemma FirstPowers(n: nat, base: nat)
    requires n >= 2 * B && base < n
    ensures DroppedPower(n, base, 0) == 1
    ensures DroppedPower(n, base, 1) == base
    ensures DroppedPower(n, base, 2) == Times(n, base, base)
  {
    Widths();
    FirstStages(n, base);
    hide Pow, BitLength, WinSize, Times, StageOf;
    TimesOne(n, 1);
    TimesOne(n, base);
    TimesOne(n, Times(n, base, base));
    assert Finished(n, base, 1, 0, 0) == 1;
  }

  lemma TimesOne(n: nat, v: nat)
    requires v < n
    ensures Times(n, 1, v) == v
  {
    DroppedSmall(v, n);
  }

  lemma Widths()
    ensures WinSize(BitLength(0)) == 2 && WinSize(BitLength(1)) == 2 && WinSize(BitLength(2)) == 2
  {
    assert BitLength(1) == 1 && BitLength(2) == 2;
  }

  lemma FirstStages(n: nat, base: nat)
    requires n >= 2 * B && base < n
    ensures StageOf(n, base, 2, 0) == Stage(0, 0, 0, 1)
    ensures StageOf(n, base, 2, 1) == Stage(2, 1, 1, 1)
    ensures StageOf(n, base, 2, 2) == Stage(1, 0, 0, Times(n, base, base))
  {
    NextStage(n, base, 2, 0, 1);
    NextStage(n, base, 2, 1, 0);
    SquaresOfOne(n);
    SecondCell(n, base);
    hide Times, StageOf, Squares, Cell;
    TimesOne(n, Times(n, base, base));
    assert StageOf(n, base, 2, 0) == Stage(0, 0, 0, 1) by { StageZero(n, base); }
  }

  lemma StageZero(n: nat, base: nat)
    ensures StageOf(n, base, 2, 0) == Stage(0, 0, 0, 1)
  {
  }

  lemma SquaresOfOne(n: nat)
    requires n > 1
    ensures Squares(n, 1, 2) == 1
  {
    hide Times;
    TimesOne(n, 1);
    assert Squares(n, 1, 0) == 1 && Squares(n, 1, 1) == 1;
  }

  lemma SecondCell(n: nat, base: nat)
    ensures Cell(n, base, 2, 2) == Times(n, base, base)
  {
    hide Times;
    assert Pow(2, 1) == 2;
    assert Squares(n, base, 0) == base;
  }

  // ----- modulo B

  /** Dropping keeps the residue modulo B, which divides n and 2^p. */
  lemma TimesKeeps(n: nat, v: nat, w: nat)
    requires n % B == 0
    ensures Cong(Times(n, v, w), v * w, B)
  {
    MulPos(v, w);
    DroppedKeeps(v * w, n);
  }

  lemma DroppedKeeps(v: nat, n: nat)
    requires n % B == 0
    ensures Cong(Dropped(v, n), v, B)
  {
    var h, q := n / B, v / (n + B);
    DivModIdentity(n, B);
    DivModIdentity(v, n + B);
    assert n + B == (h + 1) * B by { CountUp(h, B); }
    MulAssoc(q, h + 1, B);
    CongIntro(v % (n + B), v, B, 0 - q * (h + 1)) by { MinusTimes(q * (h + 1), B); }
    if v % (n + B) >= n {
      CongIntro(v % (n + B) - n, v % (n + B), B, 0 - h) by { MinusTimes(h, B); }
    }
  }

  lemma MinusTimes(k: int, b: int)
    ensures (0 - k) * b == 0 - k * b
  {
  }

  /** v stands for base^e modulo B. */
  ghost predicate Stands(v: nat, base: nat, e: nat) {
    Cong(v, Pow(base, e), B)
  }

  lemma TimesStands(n: nat, base: nat, v: nat, e: nat, w: nat, f: nat)
    requires n % B == 0 && Stands(v, base, e) && Stands(w, base, f)
    ensures Stands(Times(n, v, w), base, e + f)
  {
    hide Pow, Times;
    TimesKeeps(n, v, w);
    CongMul(v, Pow(base, e), w, Pow(base, f), B);
    PowAdd(base, e, f);
  }

  lemma {:induction false} SquaresStand(n: nat, base: nat, v: nat, e: nat, times: nat)
    requires n % B == 0 && Stands(v, base, e)
    ensures e * Pow(2, times) >= 0 && Stands(Squares(n, v, times), base, e * Pow(2, times))
  {
    hide Stands, Times;
    PowPos(2, times);
    MulPos(e, Pow(2, times));
    if times == 0 {
      assert e * Pow(2, 0) == e;
    } else {
      SquaresStand(n, base, v, e, times - 1);
      var f := e * Pow(2, times - 1);
      TimesStands(n, base, Squares(n, v, times - 1), f, Squares(n, v, times - 1), f);
      assert e * (2 * Pow(2, times - 1)) == 2 * f;
    }
  }

  lemma BaseStands(base: nat)
    ensures Stands(base, base, 1) && Stands(1, base, 0)
  {
    assert Pow(base, 0) == 1 && Pow(base, 1) == base;
  }

  lemma {:induction false} CellStands(n: nat, base: nat, w: nat, x: nat)
    requires n % B == 0 && w > 0 && x >= Pow(2, w - 1)
    ensures Stands(Cell(n, base, w, x), base, x)
  {
    hide Stands, Times, Squares;
    BaseStands(base);
    PowPos(2, w - 1);
    if x > Pow(2, w - 1) {
      CellStands(n, base, w, x - 1);
      TimesStands(n, base, Cell(n, base, w, x - 1), x - 1, base, 1);
    } else {
      SquaresStand(n, base, base, 1, w - 1);
      assert 1 * Pow(2, w - 1) == Pow(2, w - 1);
    }
  }

  /** The result stands for the exponent e, which with the bits in the window makes up pre. */
  ghost predicate StageStands(s: Stage, base: nat, w: nat, pre: nat, e: nat) {
    && s.bitcpy < w && pre == e * Pow(2, s.bitcpy) + s.pend && Stands(s.res, base, e)
    && (s.mode != 2 ==> s.bitcpy == 0 && s.pend == 0)
    && (s.mode == 2 ==> s.bitcpy > 0 && Pow(2, s.bitcpy - 1) <= s.pend < Pow(2, s.bitcpy))
    && (s.mode == 0 ==> e == 0) && s.mode <= 2
  }

  lemma {:induction false} StageStandsFor(n: nat, base: nat, w: nat, pre: nat) returns (e: nat)
    requires n % B == 0 && w > 0
    ensures StageStands(StageOf(n, base, w, pre), base, w, pre, e)
    decreases pre
  {
    hide StageStands, Fed, Stands;
    if pre == 0 {
      e := 0;
      FirstStageStands(base, w);
    } else {
      e := StageStandsFor(n, base, w, pre / 2);
      e := FedStands(n, base, w, StageOf(n, base, w, pre / 2), pre / 2, e, pre % 2);
    }
  }

  lemma FirstStageStands(base: nat, w: nat)
    requires w > 0
    ensures StageStands(Stage(0, 0, 0, 1), base, w, 0, 0)
  {
    hide Stands;
    BaseStands(base);
    assert 0 * Pow(2, 0) == 0;
  }

  lemma FedStands(n: nat, base: nat, w: nat, s: Stage, pre: nat, e0: nat, y: nat) returns (e: nat)
    requires n % B == 0 && w > 0 && y <= 1 && StageStands(s, base, w, pre, e0)
    ensures StageStands(Fed(n, base, w, s, y), base, w, 2 * pre + y, e)
  {
    hide Stands, Times, Squares, Cell, Pow;
    LongerWindow(s.bitcpy, e0);
    PowersOfTwo(w);
    e := e0;
    if s.mode == 0 && y == 0 {
    } else if s.mode == 1 && y == 0 {
      e := e0 + e0;
      TimesStands(n, base, s.res, e0, s.res, e0);
      assert e * 1 == e;
    } else if s.bitcpy + 1 == w {
      var d: nat := 2 * s.pend + y;
      SquaresStand(n, base, s.res, e0, w);
      CellStands(n, base, w, d);
      TimesStands(n, base, Squares(n, s.res, w), e0 * Pow(2, w), Cell(n, base, w, d), d);
      e := e0 * Pow(2, w) + d;
      assert e * 1 == e;
    }
  }

  lemma PowersOfTwo(w: nat)
    ensures Pow(2, 0) == 1 && Pow(2, w) > 0
    ensures w > 0 ==> Pow(2, w) == 2 * Pow(2, w - 1)
  {
    PowPos(2, w);
  }

  lemma LongerWindow(c: nat, e: nat)
    ensures Pow(2, c) > 0 && Pow(2, c + 1) == 2 * Pow(2, c) && e * Pow(2, c + 1) == 2 * (e * Pow(2, c))
    ensures Pow(2, 0) == 1 && (c > 0 ==> Pow(2, c) == 2 * Pow(2, c - 1)) && e * Pow(2, c) >= 0
  {
    PowPos(2, c);
    MulPos(e, Pow(2, c));
    assert e * (2 * Pow(2, c)) == 2 * (e * Pow(2, c));
  }

  lemma {:induction false} FinishedStands(n: nat, base: nat, res: nat, pend: nat, c: nat, e: nat)
    requires n % B == 0 && Stands(res, base, e) && pend < Pow(2, c)
    ensures e * Pow(2, c) >= 0 && Stands(Finished(n, base, res, pend, c), base, e * Pow(2, c) + pend)
  {
    hide Stands, Times, Pow;
    LongerWindow(c, e);
    if c == 0 {
      assert e * 1 == e;
    } else {
      LongerWindow(c - 1, e);
      FinishedStands(n, base, res, pend / 2, c - 1, e);
      var r := Finished(n, base, res, pend / 2, c - 1);
      var f: nat := e * Pow(2, c - 1) + pend / 2;
      TimesStands(n, base, r, f, r, f);
      BaseStands(base);
      TimesStands(n, base, Times(n, r, r), f + f, base, 1);
    }
  }

  /** The power is right modulo B. */
  lemma RightModuloBase(n: nat, base: nat, e: nat)
    requires n % B == 0
    ensures Cong(DroppedPower(n, base, e), Pow(base, e), B)
  {
    hide StageOf, Finished, Pow, Stands, StageStands;
    var w := WinSize(BitLength(e));
    var s := StageOf(n, base, w, e);
    var f := StageStandsFor(n, base, w, e);
    LastStands(n, base, w, s, e, f);
    StandsIs(DroppedPower(n, base, e), base, e);
  }

  lemma StandsIs(v: nat, base: nat, e: nat)
    requires Stands(v, base, e)
    ensures Cong(v, Pow(base, e), B)
  {
  }

  lemma LastStands(n: nat, base: nat, w: nat, s: Stage, pre: nat, e: nat)
    requires n % B == 0 && StageStands(s, base, w, pre, e)
    ensures Stands(LastStage(n, base, s), base, pre)
  {
    hide Stands, Finished, Pow;
    LongerWindow(s.bitcpy, e);
    if s.mode == 2 {
      FinishedStands(n, base, s.res, s.pend, s.bitcpy, e);
    } else {
      assert e * 1 == e;
    }
  }

  // ----- the run, window by window

  /** The window widths. */
  lemma Width(e: nat, w: nat)
    requires w == 2 ==> BitLength(e) <= 7
    requires w == 3 ==> 8 <= BitLength(e) <= 36
    requires w == 4 ==> 37 <= BitLength(e) <= 140
    requires w == 5 ==> 141 <= BitLength(e) <= 450
    requires w == 6 ==> 451 <= BitLength(e) <= 1303
    requires w == 7 ==> 1304 <= BitLength(e) <= 3529
    requires w == 8 ==> 3530 <= BitLength(e)
    requires 2 <= w <= 8
    ensures WinSize(BitLength(e)) == w
  {
  }

  /** No window is open. */
  ghost predicate Closed(s: Stage) {
    s.bitcpy == 0 && s.pend == 0 && (s.mode == 0 || s.mode == 1)
  }

  /** A product drops 2^p == n + B, and n once. */
  lemma TimesMeans(n: nat, v: nat, w: nat)
    ensures v * w >= 0
    ensures Times(n, v, w) == if (v * w) % (n + B) >= n then (v * w) % (n + B) - n else (v * w) % (n + B)
  {
    MulPos(v, w);
  }

  /** Between windows a zero bit squares the result. */
  lemma ZeroBit(n: nat, base: nat, w: nat, pre: nat, res: nat)
    requires w > 0 && pre > 0 && StageOf(n, base, w, pre) == Stage(1, 0, 0, res)
    ensures StageOf(n, base, w, 2 * pre) == Stage(1, 0, 0, Times(n, res, res))
  {
    NextStage(n, base, w, pre, 0);
  }

  /** After fewer than w bits from a one on, a window is open and holds them. */
  lemma {:induction false} OpenWindow(n: nat, base: nat, w: nat, pre: nat, d: nat, c: nat)
    requires 1 <= c < w && Pow(2, c - 1) <= d < Pow(2, c) && Closed(StageOf(n, base, w, pre))
    ensures pre * Pow(2, c) + d >= 0
    ensures StageOf(n, base, w, pre * Pow(2, c) + d) == Stage(2, c, d, StageOf(n, base, w, pre).res)
    decreases c
  {
    hide StageOf;
    LongerWindow(c - 1, pre);
    LongerWindow(c, pre);
    if c == 1 {
      assert Pow(2, 0) == 1 && d == 1;
      assert pre * 2 == 2 * pre;
      NextStage(n, base, w, pre, 1);
    } else {
      HalfInRange(d, c - 1);
      OpenWindow(n, base, w, pre, d / 2, c - 1);
      NextStage(n, base, w, pre * Pow(2, c - 1) + d / 2, d % 2);
    }
  }

  lemma HalfInRange(d: nat, c: nat)
    requires c > 0 && Pow(2, c) <= d < Pow(2, c + 1)
    ensures Pow(2, c - 1) <= d / 2 < Pow(2, c) && d > 1
  {
    LongerWindow(c, 0);
    PowPos(2, c - 1);
  }

  /** After w bits from a one on, the window is used: w squarings, and one product with the cell they number. */
  lemma UsedWindow(n: nat, base: nat, w: nat, pre: nat, d: nat)
    requires w >= 2 && Pow(2, w - 1) <= d < Pow(2, w) && Closed(StageOf(n, base, w, pre))
    ensures pre * Pow(2, w) + d >= 0
    ensures StageOf(n, base, w, pre * Pow(2, w) + d) ==
      Stage(1, 0, 0, Times(n, Squares(n, StageOf(n, base, w, pre).res, w), Cell(n, base, w, d)))
  {
    hide StageOf, Times, Squares, Cell;
    LongerWindow(w - 1, pre);
    LongerWindow(w, pre);
    HalfInRange(d, w - 1);
    OpenWindow(n, base, w, pre, d / 2, w - 1);
    NextStage(n, base, w, pre * Pow(2, w - 1) + d / 2, d % 2);
  }

  /** The power from where the last window ended: what is left is a shorter window, or nothing. */
  lemma AfterLastWindow(n: nat, base: nat, e: nat, pre: nat, d: nat, c: nat)
    requires var w := WinSize(BitLength(e)); Closed(StageOf(n, base, w, pre)) && c < w
    requires e == pre * Pow(2, c) + d && (if c == 0 then d == 0 else Pow(2, c - 1) <= d < Pow(2, c))
    ensures var w := WinSize(BitLength(e));
      DroppedPower(n, base, e) == Finished(n, base, StageOf(n, base, w, pre).res, d, c)
  {
    hide StageOf, BitLength, WinSize;
    var w := WinSize(BitLength(e));
    if c == 0 {
      assert Pow(2, 0) == 1;
      assert pre * 1 == pre;
    } else {
      OpenWindow(n, base, w, pre, d, c);
    }
  }

  /** The cells, the squarings and the leftover bits. */
  lemma CellsAndBits(n: nat, base: nat, w: nat, x: nat, v: nat, k: nat, d: nat, y: nat)
    requires w > 0 && x >= 1 && x > Pow(2, w - 1) && y <= 1
    ensures Cell(n, base, w, x) == Times(n, Cell(n, base, w, x - 1), base)
    ensures Pow(2, w - 1) >= 0 && Cell(n, base, w, Pow(2, w - 1)) == Squares(n, base, w - 1)
    ensures Squares(n, v, 0) == v && Squares(n, v, k + 1) == Times(n, Squares(n, v, k), Squares(n, v, k))
    ensures Finished(n, base, v, 0, 0) == v
    ensures var r := Finished(n, base, v, d, k);
      Finished(n, base, v, 2 * d + y, k + 1) == if y == 1 then Times(n, Times(n, r, r), base) else Times(n, r, r)
  {
    PowPos(2, w - 1);
    assert (2 * d + y) / 2 == d && (2 * d + y) % 2 == y;
  }
}
