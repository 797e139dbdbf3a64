/**
 The digit-level multipliers: comba (columns first, one carry per column) and
 schoolbook (rows, carry inside), each able to stop at a column or to start at one.
 */
module Multiply {
  import opened Arith
  import opened Radix
  import opened Products
  import opened MpInts

  /** MP_WARRAY, the size of the column buffers. */
  const WARRAY: nat := 2 * GUARD

  // ----- one step of carry arithmetic

  /** Splitting an accumulator into a digit and a carry keeps what it is worth. */
  lemma CarrySplit(acc: nat, p: nat)
    ensures 0 <= acc % B < B && acc / B >= 0
    ensures (acc % B) * p + (acc / B) * (B * p) == acc * p
  {
    DivModIdentity(acc, B);
    DivNonNeg(acc, B);
    Recombine(acc / B, B, acc % B, p);
  }

  lemma Recombine(q: int, b: int, r: int, p: int)
    ensures r * p + q * (b * p) == (q * b + r) * p
  {
    MulAssoc(q, b, p);
    Distribute(q * b, r, p);
  }

  /** A carry small enough for the next column. */
  ghost predicate IsCarry(u: nat) {
    u < GUARD * B
  }

  /** acc holds a carry and at most cnt digit products. */
  ghost predicate Holds(acc: nat, cnt: nat, carry: nat) {
    acc <= carry + cnt * ((B - 1) * (B - 1))
  }

  /** A carry out of an mp_word that held at most GUARD products and the last carry. */
  lemma CarryFits(acc: nat, cnt: nat, carry: nat)
    requires cnt <= GUARD && IsCarry(carry) && Holds(acc, cnt, carry)
    ensures acc < WORD && acc / B >= 0 && IsCarry(acc / B)
  {
    var s := (B - 1) * (B - 1);
    assert s == B * B - 2 * B + 1;
    MulPos(B - 1, B - 1);
    MulMono(cnt, GUARD, s);
    assert GUARD * s == GUARD * (B * B) - 2 * (GUARD * B) + GUARD by {
      SquareTimes(GUARD, B);
    }
    MulMono(1, B, GUARD);
    assert GUARD * (B * B) == (GUARD * B) * B by { MulAssoc(GUARD, B, B); }
    DivBelow(acc, GUARD * B);
    DivNonNeg(acc, B);
  }

  lemma SquareTimes(g: int, b: int)
    ensures g * ((b - 1) * (b - 1)) == g * (b * b) - 2 * (g * b) + g
  {
    assert (b - 1) * (b - 1) == b * b - 2 * b + 1;
    assert g * (b * b - 2 * b + 1) == g * (b * b) - g * (2 * b) + g;
  }

  lemma DivBelow(a: nat, q: nat)
    requires a < q * B
    ensures a / B < q
  {
    DivBound(a, B, q);
  }

  lemma DigitProduct(d: nat, e: nat)
    requires d < B && e < B
    ensures 0 <= d * e <= (B - 1) * (B - 1)
  {
    MulPos(d, e);
    MulMono(d, B - 1, e);
    MulMono(e, B - 1, B - 1);
  }

  // ----- comba

  /** One product joins the accumulator without leaving the mp_word. */
  lemma ProductFits(acc: nat, d: nat, e: nat, cnt: nat, carry: nat)
    requires d < B && e < B && cnt < GUARD && IsCarry(carry) && Holds(acc, cnt, carry)
    ensures acc + d * e >= 0 && Holds(acc + d * e, cnt + 1, carry)
    ensures Word(acc + d * e) == acc + d * e
  {
    DigitProduct(d, e);
    CountUp(cnt, (B - 1) * (B - 1));
    CarryFits(acc + d * e, cnt + 1, carry);
    WordFits(acc + d * e);
  }

  /** acc + d * e, as an mp_word. */
  function MulAcc(acc: nat, d: nat, e: nat): nat {
    MulPos(d, e);
    Word(acc + d * e)
  }

  /** Adding the next product of a column. */
  lemma Accumulate(x: seq<nat>, i: nat, y: seq<nat>, m: nat, k: nat, acc: nat, cnt: nat, carry: nat)
    requires i < |x| && m <= |y| && 0 <= k - i < m && x[i] < B && y[k - i] < B
    requires cnt < GUARD && IsCarry(carry) && Holds(acc, cnt, carry)
    requires acc == carry + Col(x, i, y, m, k)
    ensures MulAcc(acc, x[i], y[k - i]) == carry + Col(x, i + 1, y, m, k)
    ensures Holds(MulAcc(acc, x[i], y[k - i]), cnt + 1, carry)
  {
    hide Holds, IsCarry, Word, Col;
    ColStep(x, i, y, m, k);
    ProductFits(acc, x[i], y[k - i], cnt, carry);
  }

  lemma ColStep(x: seq<int>, i: nat, y: seq<int>, m: nat, k: nat)
    requires i < |x| && m <= |y| && 0 <= k - i < m
    ensures Col(x, i + 1, y, m, k) == Col(x, i, y, m, k) + x[i] * y[k - i]
  {
  }

  /** The inner loop of the comba multipliers: adds column ix of x * y to the accumulator. */
  method AddColumn(x: seq<nat>, n: nat, y: seq<nat>, m: nat, ix: nat, carry: nat) returns (acc: nat)
    requires n <= |x| && m <= |y| && AreDigits(x, 0, n) && AreDigits(y, 0, m)
    requires ix < n + m && Min(n, m) <= GUARD && IsCarry(carry)
    ensures acc == carry + Col(x, n, y, m, ix)
    ensures acc / B >= 0 && IsCarry(acc / B)
  {
    var ty := Min(m - 1, ix);
    var tx := ix - ty;
    var iy := Min(n - tx, ty + 1);
    acc := carry;
    assert Holds(acc, 0, carry);
    if tx > 0 {
      ColBelow(x, tx, y, m, ix);
    }
    hide Col, MulAcc, Holds, IsCarry;
    var iz := 0;
    while iz < iy
      invariant 0 <= iz <= iy
      invariant acc == carry + Col(x, tx + iz, y, m, ix)
      invariant Holds(acc, iz, carry)
    {
      Accumulate(x, tx + iz, y, m, ix, acc, iz, carry);
      acc := MulAcc(acc, x[tx + iz], y[ty - iz]);
      iz := iz + 1;
    }
    CarryFits(acc, iy, carry);
    if tx + iy < n {
      ColAbove(x, tx + iy, n, y, m, ix);
    }
  }

  /** Storing a column's digit and passing on its carry. */
  lemma StoreColumn(W: seq<nat>, W': seq<nat>, lo: nat, ix: nat, acc0: nat, acc: nat, col: int)
    requires lo <= ix < |W| == |W'| && acc == acc0 + col
    requires forall k :: lo <= k < ix ==> W'[k] == W[k]
    requires W'[ix] == acc % B
    ensures acc / B >= 0
    ensures Sum(W', lo, ix + 1) + (acc / B) * P(ix + 1) == Sum(W, lo, ix) + acc0 * P(ix) + col * P(ix)
  {
    SumFrame(W, W', lo, ix);
    CarrySplit(acc, P(ix));
    PStep(ix);
    Distribute(acc0, col, P(ix));
  }

  /** A full set of digits is the number modulo P(d), whatever the carry out. */
  lemma DigitsAreMod(s: seq<int>, d: nat, carry: int, total: int)
    requires d <= |s| && AreDigits(s, 0, d)
    requires Sum(s, 0, d) + carry * P(d) == total
    ensures Sum(s, 0, d) == total % P(d)
  {
    SumBound(s, 0, d);
    PZero();
    DivModUnique(total, P(d), carry, Sum(s, 0, d));
  }

  /** A product of numbers with n and m digits is not changed modulo P(n + m). */
  lemma ProductBelow(v: nat, n: nat, w: nat, m: nat, d: nat)
    requires v < P(n) && w < P(m) && n + m <= d
    ensures 0 <= v * w < P(n + m) && (v * w) % P(n + m) == v * w && (v * w) % P(d) == v * w
  {
    MulPos(v, w);
    MulMono(v, P(n), w);
    MulMono(w + 1, P(m), P(n));
    assert P(n) * w + P(n) == P(n) * (w + 1);
    PAdd(n, m);
    PMono(n + m, d);
    ModSmall(v * w, P(n + m));
    ModSmall(v * w, P(d));
  }

  /** The digits of v * w below position d. */
  function ProductMod(v: int, w: int, d: nat): (r: nat)
    ensures r < P(d)
  {
    DivModIdentity(v * w, P(d));
    (v * w) % P(d)
  }

  /** Cutting the product at Min(digs, n + m) is cutting it at digs. */
  lemma CutProduct(x: seq<int>, n: nat, y: seq<int>, m: nat, digs: nat, d: nat)
    requires n <= |x| && m <= |y| && AreDigits(x, 0, n) && AreDigits(y, 0, m)
    requires d == Min(digs, n + m)
    ensures Low(x, n, y, m, d) % P(d) == ProductMod(Sum(x, 0, n), Sum(y, 0, m), digs)
  {
    LowIsProductMod(x, n, y, m, d);
    if n + m <= digs {
      SumBound(x, 0, n);
      SumBound(y, 0, m);
      hide P, Sum, Low;
      PZero();
      ProductBelow(Sum(x, 0, n), n, Sum(y, 0, m), m, digs);
    }
  }

  /** The columns collected up to Min(digs, n + m), with the last carry dropped, are the product cut at digs. */
  lemma CollectedColumns(x: seq<int>, n: nat, y: seq<int>, m: nat, digs: nat, d: nat, W: seq<nat>, carry: nat)
    requires n <= |x| && m <= |y| && AreDigits(x, 0, n) && AreDigits(y, 0, m)
    requires d == Min(digs, n + m) <= |W| && AreDigits(W, 0, d)
    requires Sum(W, 0, d) + carry * P(d) == Columns(x, n, y, m, d)
    ensures Sum(W, 0, d) == ProductMod(Sum(x, 0, n), Sum(y, 0, m), digs)
  {
    hide Sum, Low, Columns, ProductMod, P;
    ColumnsAreRows(x, n, y, m, d);
    DigitsAreMod(W, d, carry, Low(x, n, y, m, d));
    CutProduct(x, n, y, m, digs, d);
  }

  /** fast_s_mp_mul_digs: column by column, one carry each. */
  method FastMulDigs(a: MpInt, b: MpInt, c: MpInt, digs: nat)
    requires a.Valid() && b.Valid() && c.Valid()
    requires digs < WARRAY && Min(a.used, b.used) <= GUARD
    modifies c
    ensures c.Valid() && c.Mag() == ProductMod(old(a.Mag()), old(b.Mag()), digs)
    ensures c.neg == (old(c.neg) && c.Mag() != 0)
  {
    var x, n, y, m := a.dp, a.used, b.dp, b.used;
    var pa: nat := Min(digs, n + m);
    var W := new nat[WARRAY];
    var acc: nat, ix := 0, 0;
    assert IsCarry(0) by { MulPos(GUARD, B); }
    hide Col, IsCarry, ProductMod;
    while ix < pa
      modifies W
      invariant 0 <= ix <= pa && IsCarry(acc)
      invariant AreDigits(W[..], 0, ix)
      invariant Sum(W[..], 0, ix) + acc * P(ix) == Columns(x, n, y, m, ix)
    {
      ghost var W0, acc0 := W[..], acc;
      acc := AddColumn(x, n, y, m, ix, acc);
      DivModIdentity(acc, B);
      W[ix] := acc % B;
      StoreColumn(W0, W[..], 0, ix, acc0, acc, Col(x, n, y, m, ix));
      acc := acc / B;
      ix := ix + 1;
    }
    var ds := W[..];
    CollectedColumns(x, n, y, m, digs, pa, ds, acc);
    c.Load(ds, pa);
  }

  // ----- schoolbook

  /** One digit of a row, before it is split into digit and carry, as an mp_word. */
  function MulAdd(t: nat, d: nat, e: nat, u: nat): nat {
    MulPos(d, e);
    Word(t + d * e + u)
  }

  lemma MulAddFits(t: nat, d: nat, e: nat, u: nat)
    requires t < B && d < B && e < B && u < B
    ensures MulAdd(t, d, e, u) == t + d * e + u
    ensures 0 <= MulAdd(t, d, e, u) / B < B
  {
    DigitProduct(d, e);
    assert (B - 1) * (B - 1) == B * B - 2 * B + 1;
    MulMono(1, GUARD, B * B);
    WordFits(t + d * e + u);
    DivBelow(t + d * e + u, B);
    DivNonNeg(t + d * e + u, B);
  }

  /** Multiplying one more digit into a row. */
  lemma RowStep(t: seq<nat>, ix: nat, d: nat, y: seq<nat>, from: nat, iy: nat, u: nat, total: int)
    requires from <= iy < |y| && ix + iy < |t| && t[ix + iy] < B && d < B && y[iy] < B && u < B
    requires Sum(t, 0, |t|) + u * P(ix + iy) == total + d * P(ix) * Sum(y, from, iy)
    ensures var r := MulAdd(t[ix + iy], d, y[iy], u);
            r / B >= 0 && r % B >= 0 &&
            Sum(t[ix + iy := r % B], 0, |t|) + (r / B) * P(ix + iy + 1) ==
            total + d * P(ix) * Sum(y, from, iy + 1)
  {
    var k, e := ix + iy, y[iy];
    var r := MulAdd(t[k], d, e, u);
    MulAddFits(t[k], d, e, u);
    DivModIdentity(r, B);
    SumUpdate(t, 0, |t|, k, r % B);
    CarrySplit(r, P(k));
    PAdd(ix, iy);
    PStep(k);
    assert Sum(y, from, iy + 1) == Sum(y, from, iy) + e * P(iy);
    hide *;
    RowAlgebra(t[k], r, r % B, d, e, u, P(k), P(ix), P(iy), Sum(y, from, iy));
  }

  lemma RowAlgebra(t: int, r: int, rm: int, d: int, e: int, u: int, p: int, q: int, s: int, y: int)
    requires r == t + d * e + u && p == q * s
    ensures (rm - t) * p + (r * p - rm * p) == u * p + (d * q * (y + e * s) - d * q * y)
  {
    assert r * p == t * p + (d * e) * p + u * p;
    Regroup(d, q, e, s);
    Regroup(d, q, s, e);
    assert d * q * (e * s) == (d * e) * p by { MulCommutes(e, s); }
    assert d * q * (y + e * s) == d * q * y + d * q * (e * s);
    assert (rm - t) * p == rm * p - t * p;
  }

  /** The inner loop of the schoolbook multipliers: t += d * y[from..to] * B^ix, except for the last carry. */
  method AddRow(t0: seq<nat>, ix: nat, d: nat, y: seq<nat>, from: nat, to: int) returns (t: seq<nat>, u: nat)
    requires AreDigits(t0, 0, |t0|) && d < B
    requires to <= |y| && AreDigits(y, 0, |y|) && ix + to <= |t0|
    ensures |t| == |t0| && AreDigits(t, 0, |t|) && u < B
    ensures forall k :: 0 <= k < |t| && (k < ix + from || ix + to <= k) ==> t[k] == t0[k]
    ensures to <= from ==> u == 0 && t == t0
    ensures from <= to ==>
              Sum(t, 0, |t|) + u * P(ix + to) == Sum(t0, 0, |t|) + d * P(ix) * Sum(y, from, to)
  {
    t, u := t0, 0;
    var iy := from;
    ghost var total := Sum(t0, 0, |t0|);
    hide Sum, P, MulAdd;
    if from <= |y| {
      SumZero(y, from, from);
    }
    while iy < to
      invariant from <= iy && (iy <= to || iy == from)
      invariant |t| == |t0| && AreDigits(t, 0, |t|) && u < B
      invariant forall k :: 0 <= k < |t| && (k < ix + from || ix + iy <= k) ==> t[k] == t0[k]
      invariant iy == from ==> u == 0 && t == t0
      invariant iy <= |y| ==> Sum(t, 0, |t|) + u * P(ix + iy) == total + d * P(ix) * Sum(y, from, iy)
    {
      RowStep(t, ix, d, y, from, iy, u, total);
      MulAddFits(t[ix + iy], d, y[iy], u);
      var r := MulAdd(t[ix + iy], d, y[iy], u);
      DivModIdentity(r, B);
      t := t[ix + iy := r % B];
      u := r / B;
      iy := iy + 1;
    }
  }

  /** Row ix of the truncated product, as the schoolbook loop leaves it: whatever carries past digs is dropped. */
  lemma LowRow(x: seq<nat>, ix: nat, y: seq<nat>, m: nat, digs: nat, t0: seq<nat>, t1: seq<nat>, t: seq<nat>,
               u: nat, pb: int, over: int) returns (over': int)
    requires ix < |x| && m <= |y| && |t0| == |t1| == |t| == digs && pb == Min(m, digs - ix)
    requires Sum(t0, 0, digs) + over * P(digs) == Low(x, ix, y, m, digs)
    requires pb <= 0 ==> u == 0 && t1 == t0
    requires 0 <= pb ==> Sum(t1, 0, digs) + u * P(ix + pb) == Sum(t0, 0, digs) + x[ix] * P(ix) * Sum(y, 0, pb)
    requires 0 <= pb && ix + pb < digs ==> t1[ix + pb] == 0 && t == t1[ix + pb := u]
    requires !(0 <= pb && ix + pb < digs) ==> t == t1
    ensures Sum(t, 0, digs) + over' * P(digs) == Low(x, ix + 1, y, m, digs)
  {
    assert Low(x, ix + 1, y, m, digs) ==
           Low(x, ix, y, m, digs) + x[ix] * P(ix) * Sum(y, 0, Clip(digs - ix, m));
    if 0 <= pb && ix + pb < digs {
      over' := over;
      SumUpdate(t1, 0, digs, ix + pb, u);
    } else if 0 <= pb {
      over' := over + u;
      Distribute(over, u, P(digs));
    } else {
      over' := over;
      assert x[ix] * P(ix) * 0 == 0;
    }
  }

  /** s_mp_mul_digs: row by row, carrying inside the row. */
  method MulDigs(a: MpInt, b: MpInt, c: MpInt, digs: nat)
    requires a.Valid() && b.Valid() && c.Valid()
    modifies c
    ensures c.Valid() && c.Mag() == ProductMod(old(a.Mag()), old(b.Mag()), digs)
  {
    if digs < WARRAY && Min(a.used, b.used) < GUARD {
      FastMulDigs(a, b, c, digs);
      return;
    }
    var x, n, y, m := a.dp, a.used, b.dp, b.used;
    var t := Zeros(digs);
    SumZero(t, 0, digs);
    ghost var over := 0;
    hide Sum, P, ProductMod;
    var ix := 0;
    while ix < n
      modifies {}
      invariant 0 <= ix <= n && |t| == digs && AreDigits(t, 0, digs)
      invariant forall k :: ix - 1 + m < k < digs ==> t[k] == 0
      invariant ix == 0 ==> forall k :: 0 <= k < digs ==> t[k] == 0
      invariant Sum(t, 0, digs) + over * P(digs) == Low(x, ix, y, m, digs)
    {
      var pb := Min(m, digs - ix);
      var t1, u := AddRow(t, ix, x[ix], y, 0, pb);
      var iy := if pb < 0 then 0 else pb;
      ghost var t0 := t;
      t := if ix + iy < digs then t1[ix + iy := u] else t1;
      over := LowRow(x, ix, y, m, digs, t0, t1, t, u, pb, over);
      ix := ix + 1;
    }
    LowIsProductMod(x, n, y, m, digs);
    DigitsAreMod(t, digs, over, Low(x, n, y, m, digs));
    ProductModIs(Sum(x, 0, n), Sum(y, 0, m), digs);
    c.neg := false;
    c.Load(t, digs);
  }

  lemma ProductModIs(v: int, w: int, d: nat)
    ensures ProductMod(v, w, d) == (v * w) % P(d)
  {
  }

  /** Row ix of the high part, as the schoolbook loop leaves it. */
  lemma HighRow(x: seq<nat>, ix: nat, y: seq<nat>, m: nat, digs: nat, t0: seq<nat>, t1: seq<nat>, t: seq<nat>, u: nat)
    requires ix < |x| && m <= |y| && |t0| == |t1| == |t| && ix <= digs && Max(digs, ix + m) < |t|
    requires Sum(t0, 0, |t|) == High(x, ix, y, m, digs)
    requires m <= digs - ix ==> u == 0 && t1 == t0
    requires digs - ix <= m ==>
      Sum(t1, 0, |t|) + u * P(ix + m) == Sum(t0, 0, |t|) + x[ix] * P(ix) * Sum(y, digs - ix, m)
    requires t1[Max(digs, ix + m)] == 0 && t == t1[Max(digs, ix + m) := u]
    ensures Sum(t, 0, |t|) == High(x, ix + 1, y, m, digs)
  {
    assert High(x, ix + 1, y, m, digs) ==
           High(x, ix, y, m, digs) + x[ix] * P(ix) * Sum(y, Clip(digs - ix, m), m);
    SumUpdate(t1, 0, |t|, Max(digs, ix + m), u);
    if m <= digs - ix {
      assert x[ix] * P(ix) * 0 == 0;
    }
  }

  /** s_mp_mul_high_digs, the loop of the slow branch: rows that start at column digs. */
  method MulHighSlow(a: MpInt, b: MpInt, c: MpInt, digs: nat)
    requires a.Valid() && b.Valid() && c.Valid()
    requires a.used <= digs + 1 && digs <= a.used + b.used
    modifies c
    ensures c.Valid() && !c.neg
    ensures c.Mag() == old(High(a.dp, a.used, b.dp, b.used, digs))
  {
    var x, n, y, m := a.dp, a.used, b.dp, b.used;
    var t := Zeros(n + m + 1);
    SumZero(t, 0, |t|);
    hide Sum, P;
    var ix := 0;
    while ix < n
      modifies {}
      invariant 0 <= ix <= n && |t| == n + m + 1 && AreDigits(t, 0, |t|)
      invariant forall k :: Max(digs - 1, ix - 1 + m) < k < |t| ==> t[k] == 0
      invariant Sum(t, 0, |t|) == High(x, ix, y, m, digs)
    {
      var t1, u := AddRow(t, ix, x[ix], y, digs - ix, m);
      ghost var t0 := t;
      var last := if digs - ix < m then ix + m else digs;
      t := t1[last := u];
      HighRow(x, ix, y, m, digs, t0, t1, t, u);
      ix := ix + 1;
    }
    c.neg := false;
    c.Load(t, |t|);
  }

  /** Digits in columns digs..d with a last carry, worth the high part: there is no last carry. */
  lemma HighColumns(x: seq<int>, n: nat, y: seq<int>, m: nat, digs: nat, W: seq<nat>, carry: nat)
    requires n <= |x| && m <= |y| && AreDigits(x, 0, n) && AreDigits(y, 0, m)
    requires digs <= n + m <= |W| && AreDigits(W, digs, n + m)
    requires Sum(W, digs, n + m) + carry * P(n + m) == Columns(x, n, y, m, n + m) - Columns(x, n, y, m, digs)
    ensures Sum(W, digs, n + m) == High(x, n, y, m, digs)
  {
    ColumnsAreRows(x, n, y, m, n + m);
    ColumnsAreRows(x, n, y, m, digs);
    LowIsProduct(x, n, y, m);
    LowPlusHigh(x, n, y, m, digs);
    LowNonNeg(x, n, y, m, digs);
    SumBound(W, digs, n + m);
    SumBound(x, 0, n);
    SumBound(y, 0, m);
    hide *;
    PZero();
    ProductBelow(Sum(x, 0, n), n, Sum(y, 0, m), m, n + m);
    if carry >= 1 {
      MulMono(1, carry, P(n + m));
    }
  }

  lemma {:induction false} LowNonNeg(x: seq<int>, n: nat, y: seq<int>, m: nat, d: nat)
    requires n <= |x| && m <= |y| && AreDigits(x, 0, n) && AreDigits(y, 0, m)
    ensures 0 <= Low(x, n, y, m, d)
  {
    if n > 0 {
      LowNonNeg(x, n - 1, y, m, d);
      var c := Clip(d - (n - 1), m);
      SumBound(y, 0, c);
      MulPos(x[n - 1], P(n - 1));
      MulPos(x[n - 1] * P(n - 1), Sum(y, 0, c));
    }
  }

  /** fast_s_mp_mul_high_digs: comba from column digs on; the digits of c below digs stay what they were. */
  method FastMulHigh(a: MpInt, b: MpInt, c: MpInt, digs: nat)
    requires a.Valid() && b.Valid() && c.Valid()
    requires a.used + b.used + 1 < WARRAY && Min(a.used, b.used) <= GUARD && digs <= a.used + b.used
    modifies c
    ensures c.Valid()
    ensures old(High(a.dp, a.used, b.dp, b.used, digs)) <= c.Mag()
    ensures c.Mag() < old(High(a.dp, a.used, b.dp, b.used, digs)) + P(digs)
    ensures c.neg ==> old(c.neg)
  {
    var x, n, y, m := a.dp, a.used, b.dp, b.used;
    var pa := n + m;
    var W := new nat[WARRAY];
    var acc: nat, ix := 0, digs;
    assert IsCarry(0) by { MulPos(GUARD, B); }
    SumZero(W[..], digs, digs);
    hide Col, IsCarry, Sum, P;
    while ix < pa
      modifies W
      invariant digs <= ix <= pa && IsCarry(acc)
      invariant AreDigits(W[..], digs, ix)
      invariant Sum(W[..], digs, ix) + acc * P(ix) == Columns(x, n, y, m, ix) - Columns(x, n, y, m, digs)
    {
      ghost var W0, acc0 := W[..], acc;
      acc := AddColumn(x, n, y, m, ix, acc);
      DivModIdentity(acc, B);
      W[ix] := acc % B;
      StoreColumn(W0, W[..], digs, ix, acc0, acc, Col(x, n, y, m, ix));
      acc := acc / B;
      ix := ix + 1;
    }
    var ds := W[..];
    HighColumns(x, n, y, m, digs, ds, acc);
    var kept := if digs <= |c.dp| then c.dp[..digs] else c.dp + Zeros(digs - |c.dp|);
    var ds' := kept + ds[digs..pa];
    LowDigitsKept(ds, ds', digs, pa);
    c.Load(ds', pa);
  }

  /** Digits below digs add less than P(digs). */
  lemma LowDigitsKept(ds: seq<nat>, ds': seq<nat>, digs: nat, pa: nat)
    requires digs <= pa <= |ds| && pa <= |ds'| && AreDigits(ds', 0, digs)
    requires forall k :: digs <= k < pa ==> ds'[k] == ds[k]
    ensures Sum(ds, digs, pa) <= Sum(ds', 0, pa) < Sum(ds, digs, pa) + P(digs)
  {
    SumSplit(ds', 0, digs, pa);
    SumFrame(ds, ds', digs, pa);
    SumBound(ds', 0, digs);
    PZero();
  }

  /** s_mp_mul_high_digs: the columns of a * b from digs up, with anything at all below. */
  method MulHighDigs(a: MpInt, b: MpInt, c: MpInt, digs: nat)
    requires a.Valid() && b.Valid() && c.Valid()
    requires a.used <= digs + 1 && digs <= a.used + b.used
    modifies c
    ensures c.Valid() && (c.neg ==> old(c.neg))
    ensures old(High(a.dp, a.used, b.dp, b.used, digs)) <= c.Mag()
    ensures c.Mag() < old(High(a.dp, a.used, b.dp, b.used, digs)) + P(digs)
  {
    hide High, P;
    if a.used + b.used + 1 < WARRAY && Min(a.used, b.used) < GUARD {
      FastMulHigh(a, b, c, digs);
    } else {
      MulHighSlow(a, b, c, digs);
    }
  }
}
