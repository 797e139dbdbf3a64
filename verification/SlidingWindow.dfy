/**
 The left-to-right sliding window over the bits of the exponent, on top of any of the
 reductions.
 */
module SlidingWindow {
  import opened Arith
  import opened Radix
  import opened MpInts
  import opened Bits
  import opened Montgomery
  import opened MontgomerySetup
  import opened Reducers
  import opened DroppedPowers

  // ----- residues that stand for powers

  /**
   What is known of the numbers the exponentiation works with: their residue modulo m and,
   if exact is set, their values, which come from base by products that drop 2^p = n + B.
   */
  datatype Track = Track(m: nat, exact: bool, n: nat, base: nat)

  /** v stands for g^e: modulo m it is congruent to it up to the factor R. */
  ghost predicate Rep(v: nat, g: int, e: nat, t: Track, R: nat) {
    t.m > 0 && Cong(v, Pow(g, e) * R, t.m)
  }

  ghost predicate Exactly(t: Track, v: nat, value: nat) {
    t.exact ==> v == value
  }

  /** The reduction does what t says. */
  ghost predicate Tracks(red: Reducer, n: nat, t: Track) {
    t.exact ==> red == TwoK(n + B, 0) && t.n == n && n >= 2 * B
  }

  lemma ReducedExactly(red: Reducer, n: nat, t: Track, v: nat, w: nat, r: nat)
    requires Tracks(red, n, t) && n > 0 && v * w >= 0
    requires red.TwoK? ==> red.d < red.base && r == Folded(v * w, n, red.base, red.d)
    ensures Exactly(t, r, Times(t.n, v, w))
  {
    hide Folded;
    if t.exact {
      FoldedDrops(v * w, n);
    }
  }

  lemma FoldedDrops(v: nat, n: nat)
    requires n >= 2 * B
    ensures Folded(v, n, n + B, 0) == Dropped(v, n)
  {
    var s := v % (n + B);
    DivModIdentity(v, n + B);
    assert (v / (n + B)) * 0 == 0;
    assert FoldOnce(v, n + B, 0) == s;
    if s >= n {
      FoldedSmall(s - n, n, n + B, 0);
    }
  }

  /** In range, except that modulo 1 the start value 1 is not. */
  ghost predicate InRange(v: nat, n: nat) {
    v < n || n == 1
  }

  /** Reducing a product adds the exponents. */
  lemma RepProduct(v: nat, e: nat, w: nat, f: nat, r: nat, g: int, n: nat, R: nat, k: int, t: Track)
    requires Rep(v, g, e, t, R) && Rep(w, g, f, t, R) && Cong(R * k, 1, t.m)
    requires Reduced(r, v * w, n, R, t.m)
    ensures Rep(r, g, e + f, t, R) && InRange(r, n)
  {
    var p, q := Pow(g, e), Pow(g, f);
    PowAdd(g, e, f);
    CongMul(v, p * R, w, q * R, t.m);
    ProductOfReps(p, q, R);
    assert Cong(r * R, (p * q * R) * R, t.m);
    hide Pow;
    CongScale(r * R, (p * q * R) * R, k, t.m);
    Cancel(r, R, k, t.m);
    Cancel(p * q * R, R, k, t.m);
  }

  lemma ProductOfReps(p: int, q: int, R: int)
    ensures (p * R) * (q * R) == (p * q * R) * R
  {
    MulAssoc(p, R, q * R);
    MulAssoc(R, q, R);
    MulCommutes(R, q);
    MulAssoc(q, R, R);
    MulAssoc(p, q, R * R);
    MulAssoc(p * q, R, R);
  }

  /** The fixed data of one exponentiation. */
  ghost predicate Setting(red: Reducer, n: MpInt, R: nat, k: int, t: Track)
    reads n, if red.Barr? then {red.mu} else {}
  {
    && Ready(red, n, t.m) && R == Factor(red, n.used) && Cong(R * k, 1, t.m) && (n.Mag() == 1 ==> red.TwoK?)
    && Tracks(red, n.Mag(), t)
  }

  /** mp_mul or mp_sqr followed by redux. */
  method MulRedux(red: Reducer, n: MpInt, v: nat, w: nat, ghost g: int, ghost e: nat, ghost f: nat,
                  ghost R: nat, ghost k: int, ghost t: Track) returns (r: nat)
    requires Setting(red, n, R, k, t)
    requires Rep(v, g, e, t, R) && Rep(w, g, f, t, R)
    requires InRange(v, n.Mag()) && InRange(w, n.Mag())
    ensures Rep(r, g, e + f, t, R) && InRange(r, n.Mag()) && r < n.Mag()
    ensures Exactly(t, r, Times(t.n, v, w))
  {
    hide Rep, Times, Exactly;
    MulPos(v, w);
    if n.Mag() > 1 {
      ProductInRange(v, w, n.Mag());
    }
    r := Redux(red, n, v * w, t.m);
    ReducedExactly(red, n.Mag(), t, v, w, r);
    RepProduct(v, e, w, f, r, g, n.Mag(), R, k, t);
  }

  lemma ProductInRange(v: nat, w: nat, n: nat)
    requires v < n && w < n
    ensures v * w < n * n
  {
    MulMono(v, n, w);
    MulMono(w + 1, n, n);
    CountUp(w, n);
    MulCommutes(n, w);
  }

  /** times squarings in a row. */
  method SquareRepeatedly(red: Reducer, n: MpInt, v: nat, times: nat, ghost g: int, ghost e: nat, ghost R: nat,
                          ghost k: int, ghost t: Track)
    returns (r: nat)
    requires Setting(red, n, R, k, t) && Rep(v, g, e, t, R) && InRange(v, n.Mag())
    ensures e * Pow(2, times) >= 0
    ensures Rep(r, g, e * Pow(2, times), t, R) && InRange(r, n.Mag())
    ensures Exactly(t, r, Squares(t.n, v, times))
  {
    r := v;
    var x := 0;
    assert e * Pow(2, 0) == e;
    hide Rep, InRange, Setting, Times;
    while x < times
      invariant 0 <= x <= times && e * Pow(2, x) >= 0
      invariant Rep(r, g, e * Pow(2, x), t, R) && InRange(r, n.Mag())
      invariant Exactly(t, r, Squares(t.n, v, x))
    {
      Doubled(e, x);
      r := MulRedux(red, n, r, r, g, e * Pow(2, x), e * Pow(2, x), R, k, t);
      x := x + 1;
    }
  }

  lemma Doubled(e: nat, x: nat)
    ensures e * Pow(2, x) >= 0
    ensures e * Pow(2, x + 1) == e * Pow(2, x) + e * Pow(2, x)
  {
    PowPos(2, x);
    MulPos(e, Pow(2, x));
    assert e * (2 * Pow(2, x)) == e * Pow(2, x) + e * Pow(2, x);
  }

  // ----- the table

  const TAB_SIZE: nat := 256

  lemma WindowBounds(w: nat)
    requires 2 <= w <= 8
    ensures 2 <= Pow(2, w - 1) && Pow(2, w) == 2 * Pow(2, w - 1) && Pow(2, w) <= TAB_SIZE
  {
    PowMonoExp(2, 1, w - 1);
    PowMonoExp(2, w, 8);
    assert Pow(2, 1) == 2;
    assert Pow(2, 8) == 256 by { assert Pow(2, 4) == 16; PowAdd(2, 4, 4); }
  }

  /** Only cell 1 and the upper half of the table are filled, each with the power of its index. */
  ghost predicate TableOk(M: seq<nat>, upto: int, w: nat, g: int, n: nat, R: nat, t: Track)
    requires w >= 1
  {
    && |M| == TAB_SIZE
    && Rep(M[1], g, 1, t, R) && InRange(M[1], n) && Exactly(t, M[1], t.base)
    && forall x: nat :: Pow(2, w - 1) <= x < upto && x < TAB_SIZE ==> CellOk(M[x], x, w, g, n, R, t)
  }

  ghost predicate CellOk(v: nat, x: nat, w: nat, g: int, n: nat, R: nat, t: Track)
    requires w >= 1
  {
    Rep(v, g, x, t, R) && InRange(v, n) && Exactly(t, v, Cell(t.n, t.base, w, x))
  }

  lemma MiddleCell(v: nat, w: nat, g: int, n: nat, R: nat, t: Track)
    requires w >= 1 && Pow(2, w - 1) >= 0 && Rep(v, g, Pow(2, w - 1), t, R) && InRange(v, n)
    requires Exactly(t, v, Squares(t.n, t.base, w - 1))
    ensures CellOk(v, Pow(2, w - 1), w, g, n, R, t)
  {
    hide Rep, InRange, Squares;
  }

  lemma NextCell(u: nat, v: nat, x: nat, w: nat, g: int, n: nat, R: nat, t: Track)
    requires w >= 1 && x > Pow(2, w - 1) >= 0 && CellOk(u, x - 1, w, g, n, R, t)
    requires Rep(v, g, x, t, R) && InRange(v, n) && Exactly(t, v, Times(t.n, u, t.base))
    ensures CellOk(v, x, w, g, n, R, t)
  {
    hide Rep, InRange, Times;
  }

  /** The base is the one the exact values start from. */
  lemma SquaresOfBase(v: nat, u: nat, times: nat, t: Track)
    requires Exactly(t, u, t.base) && Exactly(t, v, Squares(t.n, u, times))
    ensures Exactly(t, v, Squares(t.n, t.base, times))
  {
  }

  method BuildTable(red: Reducer, n: MpInt, g1: nat, w: nat, ghost g: int, ghost R: nat, ghost k: int, ghost t: Track)
    returns (M: array<nat>)
    requires 2 <= w <= 8 && Setting(red, n, R, k, t) && Rep(g1, g, 1, t, R) && InRange(g1, n.Mag())
    requires Exactly(t, g1, t.base)
    ensures fresh(M) && TableOk(M[..], Pow(2, w), w, g, n.Mag(), R, t)
  {
    hide *;
    Modulus(red, n, R, k, t);
    WindowBounds(w);
    ghost var N := n.Mag();
    M := new nat[TAB_SIZE];
    var half, full := Pow(2, w - 1), Pow(2, w);
    M[1] := g1;
    FirstExponent(w);
    M[half] := SquareRepeatedly(red, n, M[1], w - 1, g, 1, R, k, t);
    TableStart(M[..], g1, w, g, N, R, t);
    var x := half + 1;
    while x < full
      modifies M
      invariant half < x <= full && M.Length == TAB_SIZE
      invariant TableOk(M[..], x, w, g, N, R, t)
    {
      ghost var was := M[..];
      TableHas(was, x, w, g, N, R, t);
      M[x] := MulRedux(red, n, M[x - 1], M[1], g, x - 1, 1, R, k, t);
      TableGrows(was, M[..], x, w, g, N, R, t);
      x := x + 1;
    }
  }

  lemma FirstExponent(w: nat)
    requires w >= 1
    ensures 1 * Pow(2, w - 1) == Pow(2, w - 1)
  {
  }

  lemma TableStart(M: seq<nat>, g1: nat, w: nat, g: int, n: nat, R: nat, t: Track)
    requires w >= 1 && 2 <= Pow(2, w - 1) < |M| == TAB_SIZE && M[1] == g1
    requires Rep(g1, g, 1, t, R) && InRange(g1, n) && Exactly(t, g1, t.base)
    requires Rep(M[Pow(2, w - 1)], g, Pow(2, w - 1), t, R) && InRange(M[Pow(2, w - 1)], n)
    requires Exactly(t, M[Pow(2, w - 1)], Squares(t.n, g1, w - 1))
    ensures TableOk(M, Pow(2, w - 1) + 1, w, g, n, R, t)
  {
    hide Rep, InRange, Squares, CellOk, Exactly, Pow;
    SquaresOfBase(M[Pow(2, w - 1)], g1, w - 1, t);
    MiddleCell(M[Pow(2, w - 1)], w, g, n, R, t);
  }

  lemma TableHas(M: seq<nat>, x: nat, w: nat, g: int, n: nat, R: nat, t: Track)
    requires w >= 1 && 2 <= Pow(2, w - 1) < x < TAB_SIZE && TableOk(M, x, w, g, n, R, t)
    ensures |M| == TAB_SIZE && Rep(M[1], g, 1, t, R) && InRange(M[1], n)
    ensures Rep(M[x - 1], g, x - 1, t, R) && InRange(M[x - 1], n)
  {
    hide Rep, InRange, Exactly, Pow, CellOk;
    CellIs(M[x - 1], x - 1, w, g, n, R, t);
  }

  lemma TableGrows(M: seq<nat>, M': seq<nat>, x: nat, w: nat, g: int, n: nat, R: nat, t: Track)
    requires w >= 1 && 2 <= Pow(2, w - 1) < x < TAB_SIZE && TableOk(M, x, w, g, n, R, t)
    requires |M| == |M'| && M' == M[x := M'[x]] && Rep(M'[x], g, x, t, R) && InRange(M'[x], n)
    requires Exactly(t, M'[x], Times(t.n, M[x - 1], M[1]))
    ensures TableOk(M', x + 1, w, g, n, R, t)
  {
    hide Rep, InRange, Exactly, Pow, CellOk, Times;
    TimesBase(M'[x], M[x - 1], M[1], t);
    NextCell(M[x - 1], M'[x], x, w, g, n, R, t);
  }

  lemma CellIs(v: nat, x: nat, w: nat, g: int, n: nat, R: nat, t: Track)
    requires w >= 1 && CellOk(v, x, w, g, n, R, t)
    ensures Rep(v, g, x, t, R) && InRange(v, n) && Exactly(t, v, Cell(t.n, t.base, w, x))
  {
  }

  lemma TimesBase(r: nat, u: nat, b: nat, t: Track)
    requires Exactly(t, b, t.base) && Exactly(t, r, Times(t.n, u, b))
    ensures Exactly(t, r, Times(t.n, u, t.base))
  {
    hide Times;
  }

  // ----- the window

  /** mode, bitcpy and bitbuf of the C code. */
  datatype Window = Window(mode: nat, bitcpy: nat, bitbuf: nat)

  /** The bits read so far make up pre; res stands for g^e; pend is what waits in the window. */
  ghost predicate WindowOk(s: Window, w: nat, pre: nat, e: nat, pend: nat) {
    && s.bitcpy < w
    && s.bitbuf == pend * Pow(2, w - s.bitcpy)
    && pre == e * Pow(2, s.bitcpy) + pend
    && match s.mode
       case 0 => s.bitcpy == 0 && pend == 0 && e == 0
       case 1 => s.bitcpy == 0 && pend == 0
       case 2 => s.bitcpy >= 1 && Pow(2, s.bitcpy - 1) <= pend < Pow(2, s.bitcpy)
       case _ => false
  }

  /** x |= y << pos */
  function SetBit(x: nat, y: nat, pos: nat): nat
  {
    PowPos(2, pos);
    if y == 1 && (x / Pow(2, pos)) % 2 == 0 then x + Pow(2, pos) else x
  }

  /** The next free place of the window is empty. */
  lemma NextBit(pend: nat, y: nat, w: nat, c: nat)
    requires c < w && y <= 1
    ensures pend * Pow(2, w - c) >= 0
    ensures SetBit(pend * Pow(2, w - c), y, w - (c + 1)) == (2 * pend + y) * Pow(2, w - (c + 1))
  {
    var q := Pow(2, w - (c + 1));
    PowPos(2, w - (c + 1));
    PowPos(2, w - c);
    MulPos(pend, Pow(2, w - c));
    assert Pow(2, w - c) == 2 * q;
    hide Pow;
    assert pend * (2 * q) == (2 * pend) * q;
    DivExact(2 * pend, q);
    Distribute(2 * pend, y, q);
  }

  /** A bit joins the window. */
  lemma JoinWindow(s: Window, w: nat, pre: nat, e: nat, pend: nat, y: nat)
    requires w >= 1 && WindowOk(s, w, pre, e, pend) && y <= 1 && (s.mode != 2 ==> y == 1)
    ensures var c, b := s.bitcpy + 1, SetBit(s.bitbuf, y, w - (s.bitcpy + 1));
      && b == (2 * pend + y) * Pow(2, w - c)
      && Pow(2, c - 1) <= 2 * pend + y < Pow(2, c)
      && e * Pow(2, c) >= 0 && 2 * pre + y == e * Pow(2, c) + (2 * pend + y)
  {
    var c := s.bitcpy;
    NextBit(pend, y, w, c);
    PowPos(2, c);
    MulPos(e, Pow(2, c));
    assert Pow(2, c + 1) == 2 * Pow(2, c);
    assert e * (2 * Pow(2, c)) == 2 * (e * Pow(2, c));
    if s.mode == 2 {
      assert Pow(2, c) == 2 * Pow(2, c - 1);
    } else {
      assert Pow(2, 0) == 1;
    }
  }

  /** The variables are where the exact run is after the bits that make up pre. */
  ghost predicate Staged(t: Track, w: nat, pre: nat, s: Window, pend: nat, res: nat)
    requires w >= 1
  {
    t.exact ==> StageOf(t.n, t.base, w, pre) == Stage(s.mode, s.bitcpy, pend, res)
  }

  lemma StagedSquare(t: Track, w: nat, pre: nat, s: Window, pend: nat, res: nat, r: nat)
    requires w >= 1 && pre > 0 && s.mode == 1 && Staged(t, w, pre, s, pend, res) && Exactly(t, r, Times(t.n, res, res))
    ensures Staged(t, w, 2 * pre, s, pend, r)
  {
    hide Times, StageOf;
    NextStage(t.n, t.base, w, pre, 0);
  }

  lemma StagedBit(t: Track, w: nat, pre: nat, s: Window, pend: nat, res: nat, y: nat, b: nat)
    requires w >= 1 && y <= 1 && 2 * pre + y > 0 && Staged(t, w, pre, s, pend, res) && s.bitcpy + 1 < w
    requires s.mode == 0 || s.mode == 1 ==> y != 0
    ensures Staged(t, w, 2 * pre + y, Window(2, s.bitcpy + 1, b), 2 * pend + y, res)
  {
    hide Times, StageOf;
    NextStage(t.n, t.base, w, pre, y);
  }

  lemma StagedFull(t: Track, w: nat, pre: nat, s: Window, pend: nat, res: nat, y: nat, r: nat)
    requires w >= 1 && y <= 1 && 2 * pre + y > 0 && Staged(t, w, pre, s, pend, res) && s.bitcpy + 1 == w
    requires s.mode == 0 || s.mode == 1 ==> y != 0
    requires Exactly(t, r, Times(t.n, Squares(t.n, res, w), Cell(t.n, t.base, w, 2 * pend + y)))
    ensures Staged(t, w, 2 * pre + y, Window(1, 0, 0), 0, r)
  {
    hide Times, StageOf, Squares, Cell;
    NextStage(t.n, t.base, w, pre, y);
  }

  /** res stands for g^e, and e with the window makes up the exponent bits read so far. */
  ghost predicate Progress(res: nat, s: Window, e: nat, pend: nat, pre: nat, w: nat, g: int, n: nat, R: nat, t: Track) {
    && n > 0 && w > 0 && WindowOk(s, w, pre, e, pend) && Rep(res, g, e, t, R) && InRange(res, n)
    && (s.mode == 1 ==> res < n && pre > 0) && Staged(t, w, pre, s, pend, res)
  }

  /** What one bit of the exponent does to res and the window. */
  method FeedBit(red: Reducer, n: MpInt, M: array<nat>, w: nat, y: nat, res0: nat, s0: Window,
                 ghost pre: nat, ghost e0: nat, ghost pend0: nat, ghost g: int, ghost R: nat, ghost k: int,
                 ghost t: Track)
    returns (res: nat, s: Window, ghost e: nat, ghost pend: nat)
    requires 2 <= w <= 8 && Setting(red, n, R, k, t) && TableOk(M[..], Pow(2, w), w, g, n.Mag(), R, t)
    requires y <= 1 && Progress(res0, s0, e0, pend0, pre, w, g, n.Mag(), R, t)
    ensures Progress(res, s, e, pend, 2 * pre + y, w, g, n.Mag(), R, t)
    ensures s.mode == 0 ==> s0.mode == 0 && res == res0
  {
    res, s, e, pend := res0, s0, e0, pend0;
    hide Rep, InRange, Setting, WindowOk, SetBit, Pow, Staged, Times, Squares, Cell, Exactly;
    if s.mode == 0 && y == 0 {
      LeadingZero(s, w, pre, e, pend);
      return;
    }
    if s.mode == 1 && y == 0 {
      SquareState(s, w, pre, e, pend);
      res := MulRedux(red, n, res, res, g, e, e, R, k, t);
      StagedSquare(t, w, pre, s, pend, res0, res);
      e := 2 * e;
      return;
    }
    InsideWindow(s, w, pre, e, pend);
    var c, bitbuf := s.bitcpy + 1, SetBit(s.bitbuf, y, w - (s.bitcpy + 1));
    Joined(s, w, pre, e, pend, y);
    pend := 2 * pend + y;
    s := Window(2, c, bitbuf);
    if c == w {
      res, e := Flush(red, n, M, w, bitbuf, res, e, g, R, k, t);
      StagedFull(t, w, pre, s0, pend0, res0, y, res);
      pend := 0;
      s := Window(1, 0, 0);
      EmptyWindow(w, e);
    } else {
      StagedBit(t, w, pre, s0, pend0, res0, y, bitbuf);
    }
  }

  lemma InsideWindow(s: Window, w: nat, pre: nat, e: nat, pend: nat)
    requires WindowOk(s, w, pre, e, pend)
    ensures s.bitcpy + 1 <= w && s.mode <= 2
  {
  }

  /** A leading zero bit changes nothing. */
  lemma LeadingZero(s: Window, w: nat, pre: nat, e: nat, pend: nat)
    requires s.mode == 0 && WindowOk(s, w, pre, e, pend)
    ensures WindowOk(s, w, 2 * pre, e, pend) && pre == 0
  {
    assert 0 * Pow(2, s.bitcpy) == 0;
  }

  /** Either the window is still open, or it is full and its content is a table index. */
  lemma Joined(s: Window, w: nat, pre: nat, e: nat, pend: nat, y: nat)
    requires 2 <= w <= 8 && WindowOk(s, w, pre, e, pend) && y <= 1 && !(s.mode != 2 && y == 0)
    ensures s.bitcpy + 1 <= w
    ensures var c, b := s.bitcpy + 1, SetBit(s.bitbuf, y, w - (s.bitcpy + 1));
      && (c < w ==> WindowOk(Window(2, c, b), w, 2 * pre + y, e, 2 * pend + y))
      && (c == w ==> Pow(2, w - 1) <= b < Pow(2, w) <= TAB_SIZE && 2 * pre + y == e * Pow(2, w) + b)
      && (c == w ==> b == 2 * pend + y)
      && 2 * pre + y > 0
  {
    JoinWindow(s, w, pre, e, pend, y);
    PowPos(2, s.bitcpy);
    if s.bitcpy + 1 == w {
      FullWindow(SetBit(s.bitbuf, y, 0), 2 * pend + y, w);
    }
  }

  /** A full window: square once per bit, multiply by the table entry. */
  method Flush(red: Reducer, n: MpInt, M: array<nat>, w: nat, bitbuf: nat, res0: nat, ghost e0: nat,
               ghost g: int, ghost R: nat, ghost k: int, ghost t: Track)
    returns (res: nat, ghost e: nat)
    requires 2 <= w <= 8 && Setting(red, n, R, k, t) && TableOk(M[..], Pow(2, w), w, g, n.Mag(), R, t)
    requires Pow(2, w - 1) <= bitbuf < Pow(2, w) <= TAB_SIZE
    requires Rep(res0, g, e0, t, R) && InRange(res0, n.Mag())
    ensures e == e0 * Pow(2, w) + bitbuf
    ensures Rep(res, g, e, t, R) && InRange(res, n.Mag()) && res < n.Mag()
    ensures Exactly(t, res, Times(t.n, Squares(t.n, res0, w), Cell(t.n, t.base, w, bitbuf)))
  {
    hide Rep, InRange, Setting, Pow, TableOk, Times, Squares, Cell, Exactly;
    Modulus(red, n, R, k, t);
    TableEntry(M[..], Pow(2, w), w, bitbuf, g, n.Mag(), R, t);
    res := SquareRepeatedly(red, n, res0, w, g, e0, R, k, t);
    ghost var q := res;
    e := e0 * Pow(2, w);
    res := MulRedux(red, n, res, M[bitbuf], g, e, bitbuf, R, k, t);
    ProductOfTwo(res, q, Squares(t.n, res0, w), M[bitbuf], Cell(t.n, t.base, w, bitbuf), t);
    e := e + bitbuf;
  }

  lemma ProductOfTwo(r: nat, q: nat, qv: nat, c: nat, cv: nat, t: Track)
    requires Exactly(t, q, qv) && Exactly(t, c, cv) && Exactly(t, r, Times(t.n, q, c))
    ensures Exactly(t, r, Times(t.n, qv, cv))
  {
    hide Times;
  }

  lemma TableEntry(M: seq<nat>, upto: int, w: nat, x: nat, g: int, n: nat, R: nat, t: Track)
    requires w >= 1 && TableOk(M, upto, w, g, n, R, t)
    requires Pow(2, w - 1) <= x < upto <= TAB_SIZE
    ensures x < |M| && Rep(M[x], g, x, t, R) && InRange(M[x], n) && Exactly(t, M[x], Cell(t.n, t.base, w, x))
  {
    hide Rep, InRange, Exactly;
  }

  lemma SquareState(s: Window, w: nat, pre: nat, e: nat, pend: nat)
    requires s.mode == 1 && WindowOk(s, w, pre, e, pend)
    ensures WindowOk(s, w, 2 * pre, 2 * e, pend)
  {
  }

  /** A full window is its own table index, in the filled half of the table. */
  lemma FullWindow(bitbuf: nat, pend: nat, w: nat)
    requires 2 <= w <= 8 && bitbuf == pend * Pow(2, 0) && Pow(2, w - 1) <= pend < Pow(2, w)
    ensures bitbuf == pend && Pow(2, w - 1) <= bitbuf < Pow(2, w) <= TAB_SIZE
  {
    assert Pow(2, 0) == 1;
    WindowBounds(w);
  }

  lemma EmptyWindow(w: nat, e: nat)
    requires w > 0
    ensures WindowOk(Window(1, 0, 0), w, e, e, 0)
  {
    assert Pow(2, 0) == 1;
    assert 0 * Pow(2, w) == 0;
  }

  // ----- reading the exponent

  /** A new digit: DIGIT_BIT bits to go at the next lower position. */
  lemma PrefixNextDigit(X: nat, idx: nat)
    requires idx >= 1
    ensures Prefix(X, idx - 1, DIGIT_BIT) == Prefix(X, idx, 0)
  {
    DivDiv(X, P(idx - 1), B);
    PStep(idx - 1);
    MulCommutes(B, P(idx - 1));
    assert Pow(2, 0) == 1;
    DivModUnique(X / P(idx), 1, X / P(idx), 0);
  }

  /** The next bit appends to the prefix. */
  lemma PrefixNextBit(X: nat, idx: nat, left: nat)
    requires 1 <= left
    ensures Prefix(X, idx, left - 1) == 2 * Prefix(X, idx, left) + Prefix(X, idx, left - 1) % 2
  {
    var v, p := X / P(idx), Pow(2, left - 1);
    DivNonNeg(X, P(idx));
    PowPos(2, left - 1);
    DivDiv(v, p, 2);
    assert Pow(2, left) == 2 * p;
    DivModIdentity(v / p, 2);
  }

  /** buf after some left shifts: its bit DIGIT_BIT - 1 is the next bit of the digit. */
  ghost predicate Shifted(buf: nat, d: nat, left: nat) {
    left <= DIGIT_BIT && Cong(buf, d * Pow(2, DIGIT_BIT - left), DigitLimit())
  }

  /** buf <<= 1 in an mp_digit */
  function ShiftLeft(buf: nat): (b: nat) {
    DivModIdentity(buf * 2, DigitLimit());
    (buf * 2) % DigitLimit()
  }

  lemma ReadBit(buf: nat, d: nat, left: nat)
    requires 1 <= left && Shifted(buf, d, left)
    ensures BitOf(buf, DIGIT_BIT - 1) == BitOf(d, left - 1)
    ensures Shifted(ShiftLeft(buf), d, left - 1)
  {
    var D := DIGIT_BIT as nat;
    var t, h := Pow(2, D - left), Pow(2, D - 1);
    PowPos(2, left - 1);
    PowPos(2, D - left);
    PowPos(2, D - 1);
    DivNonNeg(d, Pow(2, left - 1));
    PowAdd(2, D - left, left - 1);
    PowAdd(2, D - 1, SPARE_BIT + 1);
    PowPos(2, SPARE_BIT);
    var lim, c := DigitLimit(), Pow(2, SPARE_BIT);
    assert Pow(2, SPARE_BIT + 1) == 2 * c;
    assert Pow(2, D - (left - 1)) == 2 * t;
    var k := CongElim(buf, d * t, lim);
    CongMod(buf * 2, lim);
    CongScale(buf, d * t, 2, lim);
    MulAssoc(d, t, 2);
    BitUnderWrap(buf, d, t, Pow(2, left - 1), h, c, lim, k);
  }

  /** Bit DIGIT_BIT - 1 is not touched by the wrap, and the shifts moved the wanted bit there. */
  lemma BitUnderWrap(buf: nat, d: nat, t: nat, s: nat, h: nat, c: nat, lim: nat, k: int)
    requires s > 0 && t > 0 && h == t * s && lim == h * (2 * c) && buf == d * t + k * lim
    ensures h > 0 && buf / h >= 0 && d / s >= 0 && (buf / h) % 2 == (d / s) % 2
  {
    MulPos(t, s);
    DivNonNeg(buf, h);
    DivNonNeg(d, s);
    MulPos(d, t);
    DivNonNeg(d * t, t);
    MulCommutes(h, 2 * c);
    MulAssoc(k, 2 * c, h);
    ModShift(d * t, k * (2 * c), h);
    assert k * (2 * c) == (k * c) * 2;
    ModShift(d / s, k * c, 2);
    DivExact(d, t);
    DivDiv(d * t, t, s);
  }

  // ----- the exponentiation

  /** The for(;;) loop: every bit of the exponent, most significant first. */
  method FeedExponent(red: Reducer, n: MpInt, M: array<nat>, w: nat, one: nat, X: MpInt,
                      ghost g: int, ghost R: nat, ghost k: int, ghost t: Track)
    returns (res: nat, s: Window, ghost e: nat, ghost pend: nat)
    requires 2 <= w <= 8 && Setting(red, n, R, k, t) && TableOk(M[..], Pow(2, w), w, g, n.Mag(), R, t)
    requires X.Valid() && Rep(one, g, 0, t, R) && InRange(one, n.Mag()) && Exactly(t, one, 1)
    ensures Progress(res, s, e, pend, X.Mag(), w, g, n.Mag(), R, t)
    ensures s.mode == 0 ==> res == one
  {
    hide *;
    Operands(red, n, R, k, t, X);
    ghost var x, N := X.Mag(), n.Mag();
    var dp := ExponentDigits(X);
    var bitcnt, buf: nat, digidx: int := 1, 0, |dp| - 1;
    res, s, e, pend := one, Window(0, 0, 0), 0, 0;
    StartOfExponent(dp, x, w, one, g, N, R, t);
    while true
      modifies {}
      invariant 1 <= bitcnt <= DIGIT_BIT && -1 <= digidx < |dp|
      invariant Reading(buf, x, digidx + 1, bitcnt - 1)
      invariant Progress(res, s, e, pend, Prefix(x, digidx + 1, bitcnt - 1), w, g, N, R, t)
      invariant s.mode == 0 ==> res == one
      decreases digidx + 1, bitcnt
    {
      bitcnt := bitcnt - 1;
      if bitcnt == 0 {
        if digidx == -1 {
          break;
        }
        buf := dp[digidx];
        FetchDigit(dp, x, digidx);
        digidx := digidx - 1;
        bitcnt := DIGIT_BIT;
      }
      buf, res, s, e, pend := OneBit(red, n, M, w, buf, res, s, x, digidx + 1, bitcnt, e, pend, g, R, k, t);
    }
    WholePrefix(x);
  }

  /** The part of the loop after a digit is at hand: take its next bit off buf and use it. */
  method OneBit(red: Reducer, n: MpInt, M: array<nat>, w: nat, buf0: nat, res0: nat, s0: Window,
                ghost x: nat, ghost idx: nat, ghost left: nat, ghost e0: nat, ghost pend0: nat,
                ghost g: int, ghost R: nat, ghost k: int, ghost t: Track)
    returns (buf: nat, res: nat, s: Window, ghost e: nat, ghost pend: nat)
    requires 2 <= w <= 8 && Setting(red, n, R, k, t) && TableOk(M[..], Pow(2, w), w, g, n.Mag(), R, t)
    requires 1 <= left <= DIGIT_BIT && Reading(buf0, x, idx, left)
    requires Progress(res0, s0, e0, pend0, Prefix(x, idx, left), w, g, n.Mag(), R, t)
    ensures Reading(buf, x, idx, left - 1)
    ensures Progress(res, s, e, pend, Prefix(x, idx, left - 1), w, g, n.Mag(), R, t)
    ensures s.mode == 0 ==> s0.mode == 0 && res == res0
  {
    hide Progress, Setting, TableOk, Prefix, Shifted, Digit, Pow, P, BitOf, ShiftLeft;
    var y := BitOf(buf0, DIGIT_BIT - 1);
    ReadExponentBit(x, idx, left, buf0);
    buf := ShiftLeft(buf0);
    res, s, e, pend := FeedBit(red, n, M, w, y, res0, s0, Prefix(x, idx, left), e0, pend0, g, R, k, t);
  }

  /** The bit read from buf is the next bit of the exponent. */
  lemma ReadExponentBit(x: nat, idx: nat, left: nat, buf: nat)
    requires 1 <= left <= DIGIT_BIT && Shifted(buf, Digit(x, idx), left)
    ensures Prefix(x, idx, left - 1) == 2 * Prefix(x, idx, left) + BitOf(buf, DIGIT_BIT - 1)
    ensures Shifted(ShiftLeft(buf), Digit(x, idx), left - 1)
  {
    hide *;
    ReadBit(buf, Digit(x, idx), left);
    BitOfDigit(x, idx, left);
    PrefixNextBit(x, idx, left);
  }

  /** buf holds what is left of digit idx of x. */
  ghost predicate Reading(buf: nat, x: nat, idx: nat, left: nat) {
    left > 0 ==> Shifted(buf, Digit(x, idx), left)
  }

  /** dp holds the digits of the exponent x. */
  ghost predicate IsExponent(dp: seq<nat>, x: nat) {
    AreDigits(dp, 0, |dp|) && x == Sum(dp, 0, |dp|)
  }

  lemma Modulus(red: Reducer, n: MpInt, R: nat, k: int, t: Track)
    requires Setting(red, n, R, k, t)
    ensures n.Loose() && n.Mag() > 0 && t.m > 0
  {
  }

  lemma Operands(red: Reducer, n: MpInt, R: nat, k: int, t: Track, X: MpInt)
    requires Setting(red, n, R, k, t) && X.Valid()
    ensures n.Loose() && n.Mag() > 0 && t.m > 0 && X.Loose()
  {
  }

  method ExponentDigits(X: MpInt) returns (dp: seq<nat>)
    requires X.Valid()
    ensures IsExponent(dp, X.Mag())
  {
    dp := X.dp[..X.used];
    SumFrame(X.dp, dp, 0, X.used);
  }

  /** The next digit of the exponent goes into buf. */
  lemma FetchDigit(dp: seq<nat>, x: nat, idx: nat)
    requires IsExponent(dp, x) && idx < |dp|
    ensures Reading(dp[idx], x, idx, DIGIT_BIT)
    ensures Prefix(x, idx, DIGIT_BIT) == Prefix(x, idx + 1, 0)
  {
    DigitOfSum(dp, |dp|, idx);
    PrefixNextDigit(x, idx + 1);
    FreshDigit(dp[idx]);
  }

  lemma FreshDigit(buf: nat)
    ensures Shifted(buf, buf, DIGIT_BIT)
  {
    assert Pow(2, 0) == 1;
  }

  lemma StartOfExponent(dp: seq<nat>, x: nat, w: nat, one: nat, g: int, n: nat, R: nat, t: Track)
    requires IsExponent(dp, x) && w > 0 && n > 0 && Rep(one, g, 0, t, R) && InRange(one, n) && Exactly(t, one, 1)
    ensures Progress(one, Window(0, 0, 0), 0, 0, Prefix(x, |dp|, 0), w, g, n, R, t)
    ensures Reading(0, x, |dp|, 0)
  {
    SumBound(dp, 0, |dp|);
    PZero();
    ModSmall(x, P(|dp|));
    assert Pow(2, 0) == 1;
    assert 0 * Pow(2, w) == 0;
  }

  lemma WholePrefix(x: nat)
    ensures Prefix(x, 0, 0) == x
  {
    PZero();
    assert Pow(2, 0) == 1;
    DivModUnique(x, 1, x, 0);
  }

  /** The bits left in a window that never filled: square, and multiply by the base when the bit is set. */
  method FinishWindow(red: Reducer, n: MpInt, M: array<nat>, w: nat, res0: nat, s: Window,
                      ghost x: nat, ghost e: nat, ghost pend: nat, ghost g: int, ghost R: nat, ghost k: int,
                      ghost t: Track)
    returns (res: nat)
    requires 2 <= w <= 8 && Setting(red, n, R, k, t) && TableOk(M[..], Pow(2, w), w, g, n.Mag(), R, t)
    requires Progress(res0, s, e, pend, x, w, g, n.Mag(), R, t)
    ensures Rep(res, g, x, t, R) && InRange(res, n.Mag())
    ensures x > 0 ==> res < n.Mag()
    ensures x == 0 ==> s.mode == 0 && res == res0
    ensures Exactly(t, res, LastStage(t.n, t.base, StageOf(t.n, t.base, w, x)))
  {
    hide *;
    Modulus(red, n, R, k, t);
    if s.mode == 2 && s.bitcpy > 0 {
      LeftoverStart(res0, s, w, x, e, pend, g, n, R, t);
      ghost var f;
      res, f := FinishLoop(red, n, M, w, res0, s.bitbuf, s.bitcpy, e, pend, g, R, k, t);
      LeftoverEnd(f, s.bitcpy, w, e, pend, x);
      FinishedStage(t, w, x, s, pend, res0, res);
    } else {
      res := res0;
      NothingLeft(res0, s, w, x, e, pend, g, n, R, t);
    }
  }

  method FinishLoop(red: Reducer, n: MpInt, M: array<nat>, w: nat, res0: nat, bitbuf0: nat, c: nat,
                    ghost e: nat, ghost pend: nat, ghost g: int, ghost R: nat, ghost k: int, ghost t: Track)
    returns (res: nat, ghost f: nat)
    requires 2 <= w <= 8 && Setting(red, n, R, k, t) && TableOk(M[..], Pow(2, w), w, g, n.Mag(), R, t)
    requires c > 0 && Leftover(bitbuf0, e, 0, c, w, e, pend)
    requires Rep(res0, g, e, t, R) && InRange(res0, n.Mag())
    ensures Rep(res, g, f, t, R) && InRange(res, n.Mag()) && res < n.Mag()
    ensures exists b: nat :: Leftover(b, f, c, c, w, e, pend)
    ensures Exactly(t, res, Finished(t.n, t.base, res0, pend, c))
  {
    hide *;
    OneEntry(red, n, M, w, g, R, k, t);
    ghost var N := n.Mag();
    var bitbuf, i := bitbuf0, 0;
    res, f := res0, e;
    NothingFinished(t, res0, pend, c);
    while i < c
      modifies {}
      invariant 0 <= i <= c && Leftover(bitbuf, f, i, c, w, e, pend)
      invariant Rep(res, g, f, t, R) && InRange(res, N)
      invariant i > 0 ==> res < N
      invariant Exactly(t, res, Finished(t.n, t.base, res0, Prefix'(pend, c - i), i))
    {
      ghost var r := res;
      res := MulRedux(red, n, res, res, g, f, f, R, k, t);
      ghost var q := res;
      LeftoverStep(bitbuf, f, i, c, w, e, pend);
      bitbuf := bitbuf * 2;
      f := f + f;
      if BitOf(bitbuf, w) != 0 {
        res := MulRedux(red, n, res, M[1], g, f, 1, R, k, t);
        f := f + 1;
      }
      FinishedStep(t, res0, pend, c, i, r, q, M[1], res, BitOf(bitbuf, w));
      i := i + 1;
    }
    AllFinished(pend);
  }

  lemma OneEntry(red: Reducer, n: MpInt, M: array<nat>, w: nat, g: int, R: nat, k: int, t: Track)
    requires 2 <= w <= 8 && Setting(red, n, R, k, t) && TableOk(M[..], Pow(2, w), w, g, n.Mag(), R, t)
    ensures n.Loose() && n.Mag() > 0 && M.Length > 1 && Rep(M[1], g, 1, t, R) && InRange(M[1], n.Mag())
    ensures Exactly(t, M[1], t.base)
  {
    hide Rep, InRange, Exactly;
  }

  lemma NothingFinished(t: Track, res0: nat, pend: nat, c: nat)
    ensures Exactly(t, res0, Finished(t.n, t.base, res0, Prefix'(pend, c), 0))
  {
  }

  lemma AllFinished(pend: nat)
    ensures Prefix'(pend, 0) == pend
  {
    assert Pow(2, 0) == 1;
    DivModUnique(pend, 1, pend, 0);
  }

  /** One more bit of the leftover window in the exact run. */
  lemma FinishedStep(t: Track, res0: nat, pend: nat, c: nat, i: nat, r: nat, q: nat, b: nat, res: nat, y: nat)
    requires i < c && Exactly(t, r, Finished(t.n, t.base, res0, Prefix'(pend, c - i), i))
    requires Exactly(t, q, Times(t.n, r, r)) && Exactly(t, b, t.base) && y == Prefix'(pend, c - (i + 1)) % 2
    requires if y != 0 then Exactly(t, res, Times(t.n, q, b)) else res == q
    ensures Exactly(t, res, Finished(t.n, t.base, res0, Prefix'(pend, c - (i + 1)), i + 1))
  {
    hide Times, Prefix';
    HalfPrefix(pend, c - (i + 1));
  }

  lemma HalfPrefix(pend: nat, j: nat)
    ensures Prefix'(pend, j) / 2 == Prefix'(pend, j + 1)
  {
    PowPos(2, j);
    DivNonNeg(pend, Pow(2, j));
    DivDiv(pend, Pow(2, j), 2);
    MulCommutes(Pow(2, j), 2);
  }

  lemma FinishedStage(t: Track, w: nat, x: nat, s: Window, pend: nat, res0: nat, res: nat)
    requires w > 0 && s.mode == 2 && s.bitcpy > 0 && Staged(t, w, x, s, pend, res0)
    requires Exactly(t, res, Finished(t.n, t.base, res0, pend, s.bitcpy))
    ensures Exactly(t, res, LastStage(t.n, t.base, StageOf(t.n, t.base, w, x)))
  {
    hide Finished, StageOf;
  }

  /** After i bits of the leftover window: f is the exponent so far, bitbuf the window shifted i times. */
  ghost predicate Leftover(bitbuf: nat, f: nat, i: nat, c: nat, w: nat, e: nat, pend: nat) {
    && i <= c < w
    && bitbuf == pend * Pow(2, w - c + i)
    && f == e * Pow(2, i) + Prefix'(pend, c - i)
  }

  /** The bits of the window from position j up. */
  function Prefix'(pend: nat, j: nat): (v: nat) {
    PowPos(2, j);
    DivNonNeg(pend, Pow(2, j));
    pend / Pow(2, j)
  }

  lemma LeftoverStart(res: nat, s: Window, w: nat, x: nat, e: nat, pend: nat, g: int, n: MpInt, R: nat, t: Track)
    requires n.Loose() && s.mode == 2 && Progress(res, s, e, pend, x, w, g, n.Mag(), R, t)
    ensures Leftover(s.bitbuf, e, 0, s.bitcpy, w, e, pend) && n.Mag() > 0
    ensures Rep(res, g, e, t, R) && InRange(res, n.Mag()) && Staged(t, w, x, s, pend, res)
    ensures x == e * Pow(2, s.bitcpy) + pend && x > 0
  {
    ModSmall(pend, Pow(2, s.bitcpy));
    assert e * Pow(2, 0) == e;
    PowPos(2, s.bitcpy);
    PowPos(2, s.bitcpy - 1);
    MulPos(e, Pow(2, s.bitcpy));
  }

  lemma LeftoverStep(bitbuf: nat, f: nat, i: nat, c: nat, w: nat, e: nat, pend: nat)
    requires i < c && Leftover(bitbuf, f, i, c, w, e, pend)
    ensures Leftover(bitbuf * 2, if BitOf(bitbuf * 2, w) != 0 then f + f + 1 else f + f, i + 1, c, w, e, pend)
    ensures BitOf(bitbuf * 2, w) == Prefix'(pend, c - (i + 1)) % 2
  {
    var j := c - i;
    var q := Pow(2, j - 1);
    PowPos(2, j - 1);
    PowPos(2, w - j + 1);
    assert Pow(2, j) == 2 * q;
    DivDiv(pend, q, 2);
    DivNonNeg(pend, q);
    PowAdd(2, w - j + 1, j - 1);
    assert Pow(2, w - c + (i + 1)) == 2 * Pow(2, w - c + i);
    assert pend * (2 * Pow(2, w - c + i)) == pend * Pow(2, w - c + i) * 2;
    MulPos(pend, Pow(2, w - j + 1));
    DivDiv(pend * Pow(2, w - j + 1), Pow(2, w - j + 1), q);
    DivExact(pend, Pow(2, w - j + 1));
    assert BitOf(bitbuf * 2, w) == (pend / q) % 2;
    assert Pow(2, i + 1) == 2 * Pow(2, i);
    assert e * (2 * Pow(2, i)) == 2 * (e * Pow(2, i));
  }

  lemma LeftoverEnd(f: nat, c: nat, w: nat, e: nat, pend: nat, x: nat)
    requires (exists b: nat :: Leftover(b, f, c, c, w, e, pend)) && x == e * Pow(2, c) + pend
    ensures f == x
  {
    assert Pow(2, 0) == 1;
    DivModUnique(pend, 1, pend, 0);
  }

  lemma NothingLeft(res: nat, s: Window, w: nat, x: nat, e: nat, pend: nat, g: int, n: MpInt, R: nat, t: Track)
    requires n.Loose() && Progress(res, s, e, pend, x, w, g, n.Mag(), R, t) && !(s.mode == 2 && s.bitcpy > 0)
    ensures n.Mag() > 0 && Rep(res, g, x, t, R) && InRange(res, n.Mag())
    ensures x > 0 ==> res < n.Mag()
    ensures x == 0 ==> s.mode == 0
    ensures Exactly(t, res, LastStage(t.n, t.base, StageOf(t.n, t.base, w, x)))
  {
    hide StageOf, Finished;
    assert Pow(2, 0) == 1;
    assert e * 1 == e;
  }

  /** The part mp_exptmod_fast and s_mp_exptmod share: table, exponent bits, leftover window. */
  method PowerWindow(red: Reducer, n: MpInt, one: nat, g1: nat, X: MpInt, ghost g: int, ghost R: nat, ghost k: int,
                     ghost t: Track)
    returns (res: nat)
    requires Setting(red, n, R, k, t) && X.Valid()
    requires Rep(one, g, 0, t, R) && InRange(one, n.Mag())
    requires Rep(g1, g, 1, t, R) && InRange(g1, n.Mag())
    requires Exactly(t, one, 1) && Exactly(t, g1, t.base)
    ensures Exactly(t, res, DroppedPower(t.n, t.base, X.Mag()))
    ensures Rep(res, g, X.Mag(), t, R) && InRange(res, n.Mag())
    ensures X.Mag() > 0 ==> res < n.Mag()
    ensures X.Mag() == 0 ==> res == one
  {
    hide *;
    Operands(red, n, R, k, t, X);
    var bits := CountBits(X);
    var w := WinSize(bits);
    var M := BuildTable(red, n, g1, w, g, R, k, t);
    var s: Window;
    ghost var e, pend;
    res, s, e, pend := FeedExponent(red, n, M, w, one, X, g, R, k, t);
    res := FinishWindow(red, n, M, w, res, s, X.Mag(), e, pend, g, R, k, t);
    PowerIsLastStage(t.n, t.base, X.Mag());
  }
}
