/**
 Montgomery reduction, row by row and column by column: x becomes x / R mod n
 with R = B^n.used, without a division.
 */
module Montgomery {
  import opened Arith
  import opened Radix
  import opened Products
  import opened MpInts
  import opened Multiply

  /** r is x / R modulo n, fully reduced. */
  ghost predicate IsRedc(r: int, x: int, n: int, R: int) {
    0 <= r < n && Cong(r * R, x, n)
  }

  /** rho is -1 / n modulo B, n given by its lowest digit. */
  ghost predicate IsRho(rho: nat, n0: nat) {
    rho < B && Cong(rho * n0, -1, B)
  }

  /** The multiple of n that clears a digit: mu = t * rho mod B. */
  function Mu(t: nat, rho: nat): (mu: nat)
    ensures mu < B
  {
    MulPos(t % B, rho);
    DivModIdentity(t, B);
    DivModIdentity((t % B) * rho, B);
    ((t % B) * rho) % B
  }

  /** Adding mu * n clears the digit. */
  lemma MuClears(t: nat, rho: nat, n0: nat)
    requires IsRho(rho, n0)
    ensures Cong(t + Mu(t, rho) * n0, 0, B)
  {
    var m := t % B;
    CongMod(t, B);
    CongMod(m * rho, B);
    assert Cong(Mu(t, rho), m * rho, B);
    CongScale(m, t, rho, B);
    CongScale(Mu(t, rho), t * rho, n0, B);
    CongScale(rho * n0, -1, t, B);
    assert t * rho * n0 == rho * n0 * t by {
      MulSwap(t, rho, n0);
      MulCommutes(t * n0, rho);
      MulAssoc(rho, n0, t);
      MulCommutes(n0, t);
    }
    var minus: int := 0 - t;
    assert -1 * t == minus;
    CongAdd(t, t, Mu(t, rho) * n0, minus, B);
  }

  /** From rho one reads off an inverse of B modulo n. */
  lemma BaseInverse(rho: nat, n0: nat, n: nat) returns (k: int)
    requires n > 0 && IsRho(rho, n0) && Cong(n, n0, B)
    ensures Cong(B * k, 1, n)
  {
    CongScale(n, n0, rho, B);
    MulCommutes(n0, rho);
    MulCommutes(n, rho);
    k := CongElim(rho * n + 1, 0, B) by {
      CongAdd(rho * n, -1, 1, 1, B);
    }
    MulCommutes(k, B);
    CongIntro(B * k, 1, n, rho);
  }

  /** ... and so an inverse of every power of B. */
  lemma {:induction false} RadixInverse(rho: nat, n0: nat, n: nat, e: nat) returns (k: int)
    requires n > 0 && IsRho(rho, n0) && Cong(n, n0, B)
    ensures Cong(P(e) * k, 1, n)
  {
    if e == 0 {
      k := 1;
      PZero();
    } else {
      var k0 := RadixInverse(rho, n0, n, e - 1);
      var k1 := BaseInverse(rho, n0, n);
      k := k0 * k1;
      PStep(e - 1);
      CongMul(P(e - 1) * k0, 1, B * k1, 1, n);
      InverseProduct(B, P(e - 1), k0, k1);
    }
  }

  lemma InverseProduct(b: int, p: int, k0: int, k1: int)
    ensures (p * k0) * (b * k1) == (b * p) * (k0 * k1)
  {
    MulAssoc(p, k0, b * k1);
    MulAssoc(k0, b, k1);
    MulCommutes(k0, b);
    MulAssoc(b, k0, k1);
    MulAssoc(p, b, k0 * k1);
    MulCommutes(p, b);
  }

  /** There is only one reduced result, so any two Montgomery reducers agree. */
  lemma RedcUnique(r: int, s: int, x: int, n: nat, rho: nat, n0: nat, e: nat)
    requires n > 0 && IsRho(rho, n0) && Cong(n, n0, B)
    requires IsRedc(r, x, n, P(e)) && IsRedc(s, x, n, P(e))
    ensures r == s
  {
    var k := RadixInverse(rho, n0, n, e);
    Cancel(r, P(e), k, n);
    Cancel(s, P(e), k, n);
    CongScale(r * P(e), s * P(e), k, n);
    CongUnique(r, s, n);
  }

  lemma Cancel(r: int, R: int, k: int, n: int)
    requires n > 0 && Cong(R * k, 1, n)
    ensures Cong(r * R * k, r, n)
  {
    CongScale(R * k, 1, r, n);
    MulAssoc(r, R, k);
    MulCommutes(r, R * k);
  }

  lemma TwiceBound(t: nat, x: nat, M: nat, n: nat, R: nat)
    requires R > 0 && t * R == x + M * n && x < n * R && M < R
    ensures t < 2 * n
  {
    MulMono(M, R, n);
    MulCommutes(R, n);
    MulAssoc(2, n, R);
    if t >= 2 * n {
      MulMono(2 * n, t, R);
      assert false;
    }
  }

  /** What is left after every low digit has been cleared needs at most one subtraction. */
  lemma OneSubtraction(t: nat, x: nat, M: nat, n: nat, R: nat)
    requires n > 0 && R > 0 && t * R == x + M * n && x < n * R && M < R
    ensures IsRedc(if t < n then t else t - n, x, n, R)
  {
    TwiceBound(t, x, M, n, R);
    if t < n {
      CongIntro(t * R, x, n, M);
    } else {
      Distribute(t - n, n, R);
      Distribute(M - R, R, n);
      MulCommutes(n, R);
      CongIntro((t - n) * R, x, n, M - R);
    }
  }

  // ----- row by row

  /** One round on the whole number: adding mu * n * B^i to a multiple of B^i gives a multiple of B^(i+1). */
  lemma Round(total: nat, q: nat, x0: nat, M: nat, n: nat, n0: nat, i: nat, t: nat, rho: nat)
    requires IsRho(rho, n0) && Cong(n, n0, B) && n > 0 && Cong(q, t, B)
    requires total == q * P(i) && total == x0 + M * n && M < P(i)
    ensures q + Mu(t, rho) * n >= 0
    ensures Cong(q + Mu(t, rho) * n, 0, B)
    ensures total + Mu(t, rho) * P(i) * n == (q + Mu(t, rho) * n) * P(i)
    ensures total + Mu(t, rho) * P(i) * n == x0 + (M + Mu(t, rho) * P(i)) * n
    ensures 0 <= M + Mu(t, rho) * P(i) < P(i + 1)
  {
    var mu := Mu(t, rho);
    MuClears(t, rho, n0);
    CongScale(n, n0, mu, B);
    MulCommutes(n, mu);
    MulCommutes(n0, mu);
    CongAdd(q, t, mu * n, mu * n0, B);
    MulPos(mu, n);
    hide *;
    DigitTimes(mu, P(i));
    PStep(i);
    MulSwap(mu, n, P(i));
    Distribute(q, mu * n, P(i));
    Distribute(M, mu * P(i), n);
  }

  /** The new total has digit i cleared: it is a multiple of B^(i+1). */
  lemma NextMultiple(q: nat, i: nat) returns (q': nat)
    requires Cong(q, 0, B)
    ensures q * P(i) == q' * P(i + 1)
  {
    var k := CongElim(q, 0, B);
    if k < 0 {
      MulMono(k, -1, B);
    }
    q' := k;
    PStep(i);
    MulAssoc(k, B, P(i));
  }

  /** Everything the reducers add up stays below B^(2m+1). */
  lemma TotalBound(x0: nat, M: nat, n: nat, m: nat)
    requires n < P(m) && x0 < n * P(m) && M <= P(m)
    ensures x0 + M * n < P(2 * m + 1)
  {
    MulMono(M, P(m), n);
    MulCommutes(n, P(m));
    MulMono(n, P(m), P(m));
    PAdd(m, m);
    PStep(2 * m);
    MulMono(2, B, P(2 * m));
  }

  /** The carry loop: t += u * B^pos, staying inside the buffer because the total fits it. */
  method PropagateCarry(t0: seq<nat>, u0: nat, pos0: nat, ghost total: nat) returns (t: seq<nat>)
    requires AreDigits(t0, 0, |t0|) && u0 < B && pos0 <= |t0|
    requires Sum(t0, 0, |t0|) + u0 * P(pos0) == total < P(|t0|)
    ensures |t| == |t0| && AreDigits(t, 0, |t|) && Sum(t, 0, |t|) == total
  {
    var u: nat, pos: nat := u0, pos0;
    t := t0;
    hide Sum, P;
    while u != 0
      invariant |t| == |t0| && AreDigits(t, 0, |t|) && u < B && pos <= |t|
      invariant Sum(t, 0, |t|) + u * P(pos) == total
      decreases |t| - pos, u
    {
      CarryInside(t, u, pos, total);
      var s := t[pos] + u;
      CarryStep(t, u, pos);
      DivModIdentity(s, B);
      t := t[pos := s % B];
      u := s / B;
      pos := pos + 1;
    }
  }

  lemma CarryInside(t: seq<nat>, u: nat, pos: nat, total: nat)
    requires AreDigits(t, 0, |t|) && 0 < u && pos <= |t|
    requires Sum(t, 0, |t|) + u * P(pos) == total < P(|t|)
    ensures pos < |t|
  {
    SumBound(t, 0, |t|);
    MulMono(1, u, P(pos));
  }

  lemma CarryStep(t: seq<nat>, u: nat, pos: nat)
    requires pos < |t| && t[pos] < B && u < B
    ensures (t[pos] + u) % B >= 0 && 0 <= (t[pos] + u) / B < B
    ensures Sum(t[pos := (t[pos] + u) % B], 0, |t|) + ((t[pos] + u) / B) * P(pos + 1) ==
            Sum(t, 0, |t|) + u * P(pos)
  {
    var s := t[pos] + u;
    DivModIdentity(s, B);
    DivNonNeg(s, B);
    DivBelow(s, B) by { MulMono(2, B, B); }
    SumUpdate(t, 0, |t|, pos, s % B);
    CarrySplit(s, P(pos));
    PStep(pos);
    hide *;
    CarryAlgebra(t[pos], u, s % B, s, P(pos));
  }

  lemma CarryAlgebra(a: int, u: int, r: int, s: int, p: int)
    requires s == a + u
    ensures (r - a) * p + (s * p - r * p) == u * p
  {
  }

  /** A multiple of B^i, its digits at i and above, and the digit i itself. */
  lemma DigitOfMultiple(t: seq<nat>, i: nat, q: nat)
    requires i < |t| && AreDigits(t, 0, |t|) && Sum(t, 0, |t|) == q * P(i)
    ensures Cong(q, t[i], B)
  {
    DigitOfSum(t, |t|, i);
    DivExact(q, P(i));
    assert Digit(Sum(t, 0, |t|), i) == q % B;
    ModSmall(t[i], B);
  }

  /** The buffer is worth q * B^i == x0 + M * n: i low digits are cleared. */
  ghost predicate Cleared(v: int, i: nat, q: nat, M: nat, x0: nat, n: nat) {
    v == q * P(i) && v == x0 + M * n && M < P(i)
  }

  /** A whole round on the buffer's value. */
  lemma RoundOnBuffer(t: seq<nat>, i: nat, m: nat, q: nat, M: nat, x0: nat, n: nat, n0: nat, rho: nat)
    returns (total: nat, q': nat, M': nat)
    requires i < m && |t| == 2 * m + 1 && AreDigits(t, 0, |t|) && Cleared(Sum(t, 0, |t|), i, q, M, x0, n)
    requires IsRho(rho, n0) && Cong(n, n0, B) && 0 < n < P(m) && x0 < n * P(m)
    ensures total == Sum(t, 0, |t|) + Mu(t[i], rho) * P(i) * n
    ensures total < P(2 * m + 1) && Cleared(total, i + 1, q', M', x0, n)
  {
    hide Sum, P, IsRho, Mu;
    var mu := Mu(t[i], rho);
    DigitOfMultiple(t, i, q);
    Round(q * P(i), q, x0, M, n, n0, i, t[i], rho);
    M' := M + mu * P(i);
    total := q * P(i) + mu * P(i) * n;
    q' := NextMultiple(q + mu * n, i);
    PMono(i + 1, m);
    TotalBound(x0, M', n, m);
  }

  /** The cleared digits are dropped and n is subtracted if need be. */
  lemma DropCleared(t: seq<nat>, m: nat, q: nat, M: nat, x0: nat, n: nat)
    requires |t| == 2 * m + 1 && AreDigits(t, 0, |t|) && Cleared(Sum(t, 0, |t|), m, q, M, x0, n)
    requires 0 < n && x0 < n * P(m)
    ensures Sum(t[m..], 0, m + 1) == q
    ensures IsRedc(if q < n then q else q - n, x0, n, P(m))
  {
    hide Sum, P;
    SumDivMod(t, m, |t|);
    DivExact(q, P(m));
    OneSubtraction(q, x0, M, n, P(m));
  }

  /** mp_montgomery_reduce, the loop of the baseline branch. */
  method ReduceRows(x: MpInt, n: MpInt, rho: nat)
    requires x.Valid() && n.Valid() && x != n && n.used > 0
    requires !x.neg && x.Mag() < n.Mag() * P(n.used)
    requires IsRho(rho, n.dp[0])
    modifies x
    ensures x.Valid() && !x.neg
    ensures IsRedc(x.Mag(), old(x.Mag()), n.Mag(), P(n.used))
  {
    ghost var x0, N := x.Mag(), n.Mag();
    var m := n.used;
    var digs := 2 * m + 1;
    InputFits(x, n);
    var t := x.dp[..x.used] + Zeros(digs - x.used);
    PadWithZeros(x.dp, t, x.used);
    LowDigit(n);
    n.UsedIsLength();
    ghost var M: nat, q: nat, total: nat := 0, x0, 0;
    PZero();
    assert Cleared(Sum(t, 0, digs), 0, q, M, x0, N);
    hide Sum, P, IsRho, Mu, Cleared, IsRedc;
    var ix := 0;
    while ix < m
      modifies {}
      invariant 0 <= ix <= m && |t| == digs && AreDigits(t, 0, digs)
      invariant Cleared(Sum(t, 0, digs), ix, q, M, x0, N)
    {
      var mu := Mu(t[ix], rho);
      total, q, M := RoundOnBuffer(t, ix, m, q, M, x0, N, n.dp[0], rho);
      var t1, u := AddRow(t, ix, mu, n.dp, 0, m);
      t := PropagateCarry(t1, u, ix + m, total);
      ix := ix + 1;
    }
    DropCleared(t, m, q, M, x0, N);
    x.Load(t[m..], m + 1);
    if x.Mag() >= n.Mag() {
      x.StoreMag(x.Mag() - n.Mag());
    }
  }

  lemma InputFits(x: MpInt, n: MpInt)
    requires x.Valid() && n.Valid() && x.Mag() < n.Mag() * P(n.used)
    ensures x.used <= 2 * n.used
  {
    n.UsedIsLength();
    x.UsedIsLength();
    MulMono(n.Mag(), P(n.used), P(n.used));
    PAdd(n.used, n.used);
    UsedAtMost(x.Mag(), 2 * n.used);
  }

  lemma PadWithZeros(s: seq<nat>, t: seq<nat>, n: nat)
    requires n <= |s| && n <= |t| && AreDigits(s, 0, n)
    requires forall i :: 0 <= i < |t| ==> t[i] == if i < n then s[i] else 0
    ensures AreDigits(t, 0, |t|)
    ensures Sum(t, 0, |t|) == Sum(s, 0, n)
  {
    SumFrame(s, t, 0, n);
    SumSplit(t, 0, n, |t|);
    SumZero(t, n, |t|);
  }

  lemma LowDigit(n: MpInt)
    requires n.Valid() && n.used > 0
    ensures Cong(n.Mag(), n.dp[0], B)
  {
    SumFirst(n.dp, n.dp[1..], n.used - 1);
    CongIntro(n.Mag(), n.dp[0], B, Sum(n.dp[1..], 0, n.used - 1));
  }

  // ----- column by column

  /** The largest start value of a column: a digit and a carry. */
  function Full(): (f: nat)
    ensures IsCarry(f)
  {
    MulPos(GUARD, B);
    GUARD * B - 1
  }

  /** A column may have received cnt products; only the current column i has received a carry as well. */
  ghost predicate ColumnFits(w: nat, k: nat, i: nat, cnt: nat) {
    Holds(w, cnt, if k == i then Full() else B - 1)
  }

  /** Row i has been added to the columns below i + iy. */
  ghost predicate Columned(W: seq<nat>, i: nat, iy: nat, m: nat) {
    && 2 * m < |W|
    && forall k :: i <= k <= 2 * m ==> ColumnFits(W[k], k, i, if k < i + iy then i + 1 else i)
  }

  /** A column with at most g - 1 products and a carry passes on at most (g - 1) * b. */
  lemma PassedCarry(g: nat, b: nat, w: nat)
    requires g >= 2 && b >= 2 && w <= g * b - 1 + (g - 1) * ((b - 1) * (b - 1))
    ensures w < ((g - 1) * b + 1) * b
  {
    SquareTimes(g - 1, b);
    Recombine(g - 1, b, 1, b);
    MulAssoc(g - 1, b, b);
    CountUp(g - 1, b);
    MulMono(1, b, g - 1);
  }

  /** A column passes its carry to a column that has not had one. */
  lemma CarryOver(w: nat, cnt: nat, v: nat, cnt': nat)
    requires cnt < GUARD && cnt' < GUARD && Holds(w, cnt, Full()) && Holds(v, cnt', B - 1)
    ensures w / B >= 0 && Word(v + w / B) == v + w / B
    ensures Holds(v + w / B, cnt', Full())
  {
    MulPos(B - 1, B - 1);
    MulMono(cnt, GUARD - 1, (B - 1) * (B - 1));
    PassedCarry(GUARD, B, w);
    DivNonNeg(w, B);
    DivBound(w, B, (GUARD - 1) * B + 1);
    CountUp(GUARD - 1, B);
    FullHolds(v, cnt', w / B);
  }

  lemma FullHolds(v: nat, cnt: nat, u: nat)
    requires cnt < GUARD && Holds(v, cnt, B - 1) && u <= GUARD * B - B
    ensures Holds(v + u, cnt, Full()) && Word(v + u) == v + u
  {
    CarryFits(v + u, cnt, Full());
    WordFits(v + u);
  }

  lemma MoreProducts(w: nat, cnt: nat, carry: nat)
    requires Holds(w, cnt, carry)
    ensures Holds(w, cnt + 1, carry)
  {
    CountUp(cnt, (B - 1) * (B - 1));
    MulPos(B - 1, B - 1);
  }

  /** One product joins a column. */
  lemma ColumnStep'(W: seq<nat>, i: nat, iy: nat, m: nat, mu: nat, y: seq<nat>, s0: int)
    requires i < m < GUARD && iy < m <= |y| && mu < B && y[iy] < B && Columned(W, i, iy, m)
    requires Sum(W, i, 2 * m + 1) == s0 + mu * P(i) * Sum(y, 0, iy)
    ensures var v := MulAcc(W[i + iy], mu, y[iy]);
      && v == W[i + iy] + mu * y[iy]
      && Columned(W[i + iy := v], i, iy + 1, m)
      && Sum(W[i + iy := v], i, 2 * m + 1) == s0 + mu * P(i) * Sum(y, 0, iy + 1)
  {
    var k, e := i + iy, y[iy];
    assert ColumnFits(W[k], k, i, i);
    assert IsCarry(B - 1) by { MulMono(1, GUARD, B); }
    ProductFits(W[k], mu, e, i, if k == i then Full() else B - 1);
    var v := MulAcc(W[k], mu, e);
    assert ColumnFits(v, k, i, i + 1);
    var W' := W[k := v];
    forall j | i <= j <= 2 * m
      ensures ColumnFits(W'[j], j, i, if j < i + iy + 1 then i + 1 else i)
    {
      assert ColumnFits(W[j], j, i, if j < i + iy then i + 1 else i);
    }
    SumUpdate(W, i, 2 * m + 1, k, v);
    PAdd(i, iy);
    assert Sum(y, 0, iy + 1) == Sum(y, 0, iy) + e * P(iy);
    hide *;
    RowAlgebra(0, mu * e, 0, mu, e, 0, P(k), P(i), P(iy), Sum(y, 0, iy));
  }

  /** The inner loop of the comba reducer: adds mu * y to the columns from ix on. */
  method AddMultiple(W: array<nat>, ix: nat, mu: nat, y: seq<nat>, m: nat)
    requires ix < m < GUARD && m <= |y| && AreDigits(y, 0, m) && mu < B && Columned(W[..], ix, 0, m)
    modifies W
    ensures Columned(W[..], ix, m, m)
    ensures Sum(W[..], ix, 2 * m + 1) == old(Sum(W[..], ix, 2 * m + 1)) + mu * P(ix) * Sum(y, 0, m)
    ensures W[ix] == old(W[ix]) + mu * y[0]
  {
    ghost var s0 := Sum(W[..], ix, 2 * m + 1);
    hide Sum, P, MulAcc, ColumnFits;
    SumZero(y, 0, 0);
    var iy := 0;
    while iy < m
      invariant 0 <= iy <= m && Columned(W[..], ix, iy, m)
      invariant Sum(W[..], ix, 2 * m + 1) == s0 + mu * P(ix) * Sum(y, 0, iy)
      invariant W[ix] == old(W[ix]) + if iy == 0 then 0 else mu * y[0]
    {
      ColumnStep'(W[..], ix, iy, m, mu, y, s0);
      ghost var W0 := W[..];
      W[ix + iy] := MulAcc(W[ix + iy], mu, y[iy]);
      assert W[..] == W0[ix + iy := W[ix + iy]];
      iy := iy + 1;
    }
  }

  /** After row i every column may have i + 1 products, and column i is worth a multiple of B: pass it on. */
  lemma PassCarry(W: seq<nat>, i: nat, m: nat)
    requires i < m < GUARD && Columned(W, i, m, m) && Cong(W[i], 0, B)
    ensures W[i] / B >= 0
    ensures var W' := W[i + 1 := Word(W[i + 1] + W[i] / B)];
      && Columned(W', i + 1, 0, m)
      && Sum(W', i + 1, 2 * m + 1) == Sum(W, i, 2 * m + 1)
  {
    hide Sum, P, Holds;
    assert ColumnFits(W[i], i, i, i + 1);
    assert ColumnFits(W[i + 1], i + 1, i, if i + 1 < i + m then i + 1 else i);
    if m == 1 {
      MoreProducts(W[i + 1], i, B - 1);
    }
    CarryOver(W[i], i + 1, W[i + 1], i + 1);
    var v := Word(W[i + 1] + W[i] / B);
    var W' := W[i + 1 := v];
    forall k | i + 1 <= k <= 2 * m
      ensures ColumnFits(W'[k], k, i + 1, i + 1)
    {
      if k > i + 1 {
        assert ColumnFits(W[k], k, i, if k < i + m then i + 1 else i);
        if k >= i + m {
          MoreProducts(W[k], i, B - 1);
        }
      }
    }
    SumHead(W, i, 2 * m + 1);
    SumUpdate(W, i + 1, 2 * m + 1, i + 1, v);
    CarrySplit(W[i], P(i));
    PStep(i);
    ModSmall(0, B);
    hide *;
    assert (W[i] % B) * P(i) == 0;
  }

  /** The multiple of n added so far grows by mu * B^i. */
  lemma NextM(M: nat, mu: nat, i: nat, n: nat, x0: nat)
    requires mu < B && M < P(i)
    ensures 0 <= M + mu * P(i) < P(i + 1)
    ensures x0 + M * n + mu * P(i) * n == x0 + (M + mu * P(i)) * n
  {
    hide *;
    DigitTimes(mu, P(i));
    PStep(i);
    Distribute(M, mu * P(i), n);
  }

  /** The low digit of every column. */
  ghost function Masked(W: seq<nat>): (d: seq<nat>)
    ensures |d| == |W|
    ensures forall i :: 0 <= i < |d| ==> d[i] == W[i] % B < B
  {
    seq(|W|, i requires 0 <= i < |W| => DivModIdentity(W[i], B); W[i] % B)
  }

  /** All rows are in; column i is the only one that has had a carry. */
  ghost predicate Tail(W: seq<nat>, i: nat, m: nat) {
    2 * m < |W| && forall k :: i <= k <= 2 * m ==> ColumnFits(W[k], k, i, m)
  }

  /** One step of the last carry sweep fits the mp_words. */
  lemma SweepFits(W: seq<nat>, j: nat, m: nat)
    requires m < j <= 2 * m && m < GUARD && Tail(W, j - 1, m)
    ensures W[j - 1] / B >= 0
    ensures Word(W[j] + W[j - 1] / B) == W[j] + W[j - 1] / B
    ensures Tail(W[j := Word(W[j] + W[j - 1] / B)], j, m)
  {
    assert ColumnFits(W[j - 1], j - 1, j - 1, m);
    assert ColumnFits(W[j], j, j - 1, m);
    hide Holds, Word;
    CarryOver(W[j - 1], m, W[j], m);
    var v := Word(W[j] + W[j - 1] / B);
    var W' := W[j := v];
    forall k | j <= k <= 2 * m
      ensures ColumnFits(W'[k], k, j, m)
    {
      assert ColumnFits(W[k], k, j - 1, m);
    }
  }

  /** What the masked columns and the others are worth together. */
  ghost function Swept(W: seq<nat>, j: nat, m: nat): int
    requires m <= j <= 2 * m < |W|
  {
    Sum(Masked(W), m, j) + Sum(W, j, 2 * m + 1)
  }

  /** One step of the last carry sweep keeps it. */
  lemma SweepKeeps(W: seq<nat>, j: nat, m: nat)
    requires m < j <= 2 * m < |W|
    ensures W[j - 1] / B >= 0
    ensures Swept(W[j := W[j] + W[j - 1] / B], j, m) == Swept(W, j - 1, m)
  {
    DivNonNeg(W[j - 1], B);
    var v := W[j] + W[j - 1] / B;
    var W' := W[j := v];
    var d, d' := Masked(W), Masked(W');
    SumFrame(d, d', m, j - 1);
    assert Sum(d', m, j) == Sum(d', m, j - 1) + d'[j - 1] * P(j - 1);
    SumHead(W, j - 1, 2 * m + 1);
    SumUpdate(W, j, 2 * m + 1, j, v);
    CarrySplit(W[j - 1], P(j - 1));
    PStep(j - 1);
  }

  /** The last column is all that is left to split. */
  lemma SweepEnds(W: seq<nat>, W': seq<nat>, m: nat)
    requires 2 * m < |W| == |W'| && forall k :: m <= k <= 2 * m ==> W'[k] == W[k]
    ensures Sum(Masked(W'), m, 2 * m) + W'[2 * m] * P(2 * m) == Swept(W, 2 * m, m)
  {
    SumFrame(Masked(W), Masked(W'), m, 2 * m);
    assert Sum(W, 2 * m, 2 * m + 1) == Sum(W, 2 * m, 2 * m) + W[2 * m] * P(2 * m);
  }

  /** The carry sweep over the columns m..2m, and one word further. */
  method SweepCarries(W: array<nat>, m: nat)
    requires 0 < m < GUARD && 2 * m + 1 < W.Length && Tail(W[..], m, m)
    modifies W
    ensures Sum(Masked(W[..]), m, 2 * m) + W[2 * m] * P(2 * m) == old(Sum(W[..], m, 2 * m + 1))
  {
    ghost var total := Sum(W[..], m, 2 * m + 1);
    assert Swept(W[..], m, m) == total by { SumZero(Masked(W[..]), m, m); }
    hide ColumnFits, P, Masked, Word, Swept, Sum, Tail;
    var ix := m + 1;
    while ix <= 2 * m
      invariant m < ix <= 2 * m + 1 && Tail(W[..], ix - 1, m)
      invariant Swept(W[..], ix - 1, m) == total
    {
      SweepFits(W[..], ix, m);
      SweepKeeps(W[..], ix, m);
      ghost var W0 := W[..];
      W[ix] := Word(W[ix] + W[ix - 1] / B);
      assert W[..] == W0[ix := W[ix]];
      ix := ix + 1;
    }
    ghost var W1 := W[..];
    DivNonNeg(W[ix - 1], B);
    W[ix] := Word(W[ix] + W[ix - 1] / B);
    SweepEnds(W1, W[..], m);
  }

  /** The columns m..2m, masked, are the digits of (x0 + M * n) / B^m. */
  lemma MaskedResult(W: seq<nat>, m: nat, x0: nat, M: nat, n: nat)
    requires 2 * m < |W| && 0 < n < P(m) && x0 < n * P(m) && M < P(m)
    requires Sum(Masked(W), m, 2 * m) + W[2 * m] * P(2 * m) == x0 + M * n
    ensures var r := Sum(Masked(W)[m..], 0, m + 1);
      r >= 0 && IsRedc(if r < n then r else r - n, x0, n, P(m))
  {
    var d := Masked(W);
    var r := Sum(d[m..], 0, m + 1);
    NoLastCarry(W, m, x0 + M * n) by { TotalBound(x0, M, n, m); }
    SumShift(d, d[m..], m, m + 1);
    SumBound(d[m..], 0, m + 1);
    hide *;
    PZero();
    MulCommutes(P(m), r);
    OneSubtraction(r, x0, M, n, P(m));
  }

  lemma NoLastCarry(W: seq<nat>, m: nat, total: int)
    requires 2 * m < |W| && total < P(2 * m + 1)
    requires Sum(Masked(W), m, 2 * m) + W[2 * m] * P(2 * m) == total
    ensures Sum(Masked(W), m, 2 * m + 1) == total
  {
    var d := Masked(W);
    CarrySplit(W[2 * m], P(2 * m));
    PStep(2 * m);
    assert Sum(d, m, 2 * m + 1) == Sum(d, m, 2 * m) + d[2 * m] * P(2 * m);
    SumBound(d, m, 2 * m + 1);
    hide *;
    PZero();
    var u := W[2 * m] / B;
    if u >= 1 {
      MulMono(1, u, P(2 * m + 1));
      assert false;
    }
  }

  /** Between two rounds of the comba reducer. */
  ghost predicate Between(W: seq<nat>, i: nat, m: nat, x0: nat, M: nat, n: nat) {
    && Columned(W, i, 0, m)
    && Sum(W, i, 2 * m + 1) == x0 + M * n
    && M < P(i)
  }

  /** The columns before the first round: the digits of x. */
  lemma Before(W: seq<nat>, m: nat, x0: nat, n: nat)
    requires 2 * m < |W| && AreDigits(W, 0, 2 * m + 1) && Sum(W, 0, 2 * m + 1) == x0
    ensures Between(W, 0, m, x0, 0, n)
  {
    PZero();
    forall k | 0 <= k <= 2 * m
      ensures ColumnFits(W[k], k, 0, 0)
    {
      MulMono(1, GUARD, B);
    }
  }

  /** After the last round. */
  lemma After(W: seq<nat>, m: nat, x0: nat, M: nat, n: nat)
    requires Between(W, m, m, x0, M, n)
    ensures Tail(W, m, m) && Sum(W, m, 2 * m + 1) == x0 + M * n && M < P(m)
  {
    hide ColumnFits, Sum, P;
  }

  /** One round of the comba reducer. */
  method RoundOfColumns(W: array<nat>, ix: nat, n: MpInt, rho: nat, ghost x0: nat, ghost M: nat)
    returns (ghost M': nat)
    requires n.Valid() && ix < n.used < GUARD && 2 * n.used + 1 < W.Length
    requires IsRho(rho, n.dp[0]) && Between(W[..], ix, n.used, x0, M, n.Mag())
    modifies W
    ensures Between(W[..], ix + 1, n.used, x0, M', n.Mag())
  {
    var m := n.used;
    var mu := Mu(W[ix], rho);
    hide Columned, Sum, P, Mu, Word;
    MuClears(W[ix], rho, n.dp[0]);
    NextM(M, mu, ix, n.Mag(), x0);
    M' := M + mu * P(ix);
    AddMultiple(W, ix, mu, n.dp, m);
    PassCarry(W[..], ix, m);
    ghost var W0 := W[..];
    W[ix + 1] := Word(W[ix + 1] + W[ix] / B);
    assert W[..] == W0[ix + 1 := W[ix + 1]];
  }

  /** fast_mp_montgomery_reduce. */
  method ReduceColumns(x: MpInt, n: MpInt, rho: nat)
    requires x.Valid() && n.Valid() && x != n && n.used > 0
    requires !x.neg && x.Mag() < n.Mag() * P(n.used)
    requires IsRho(rho, n.dp[0])
    requires 2 * n.used + 1 < WARRAY && n.used < GUARD
    modifies x
    ensures x.Valid() && !x.neg
    ensures IsRedc(x.Mag(), old(x.Mag()), n.Mag(), P(n.used))
  {
    ghost var x0, N := x.Mag(), n.Mag();
    var m := n.used;
    InputFits(x, n);
    n.UsedIsLength();
    var W := new nat[WARRAY];
    LoadColumns(W, x, m);
    Before(W[..], m, x0, N);
    ghost var M: nat := 0;
    hide Sum, P, IsRho, Between, Tail, Masked, IsRedc;
    var ix := 0;
    while ix < m
      modifies W
      invariant 0 <= ix <= m && Between(W[..], ix, m, x0, M, N)
    {
      M := RoundOfColumns(W, ix, n, rho, x0, M);
      ix := ix + 1;
    }
    After(W[..], m, x0, M, N);
    SweepCarries(W, m);
    MaskedResult(W[..], m, x0, M, N);
    StoreColumns(W, x, m);
    if x.Mag() >= n.Mag() {
      x.StoreMag(x.Mag() - n.Mag());
    }
  }

  /** The digits of x, then zeros up to column 2m. */
  method LoadColumns(W: array<nat>, x: MpInt, m: nat)
    requires x.Valid() && x.used <= 2 * m && 2 * m < W.Length
    modifies W
    ensures AreDigits(W[..], 0, 2 * m + 1) && Sum(W[..], 0, 2 * m + 1) == x.Mag()
  {
    var ix := 0;
    while ix < x.used
      invariant 0 <= ix <= x.used
      invariant forall k :: 0 <= k < ix ==> W[k] == x.dp[k]
    {
      W[ix] := x.dp[ix];
      ix := ix + 1;
    }
    while ix < 2 * m + 1
      invariant x.used <= ix <= 2 * m + 1
      invariant forall k :: 0 <= k < x.used ==> W[k] == x.dp[k]
      invariant forall k :: x.used <= k < ix ==> W[k] == 0
    {
      W[ix] := 0;
      ix := ix + 1;
    }
    PadWithZeros(x.dp, W[..2 * m + 1], x.used);
    SumFrame(W[..2 * m + 1], W[..], 0, 2 * m + 1);
  }

  /** Columns m..2m, masked, become the digits of x. */
  method StoreColumns(W: array<nat>, x: MpInt, m: nat)
    requires 2 * m < W.Length
    modifies x
    ensures x.Valid() && x.neg == (old(x.neg) && x.Mag() != 0)
    ensures x.Mag() == Sum(Masked(W[..])[m..], 0, m + 1)
  {
    var d := Zeros(m + 1);
    var ix := 0;
    while ix < m + 1
      modifies {}
      invariant 0 <= ix <= m + 1 && |d| == m + 1
      invariant forall k :: 0 <= k < ix ==> d[k] == W[m + k] % B < B
    {
      DivModIdentity(W[m + ix], B);
      d := d[ix := W[m + ix] % B];
      ix := ix + 1;
    }
    SumFrame(Masked(W[..])[m..], d, 0, m + 1);
    x.Load(d, m + 1);
  }

  /** mp_montgomery_reduce: comba when its words are wide enough, else row by row. */
  method Reduce(x: MpInt, n: MpInt, rho: nat)
    requires x.Valid() && n.Valid() && x != n && n.used > 0
    requires !x.neg && x.Mag() < n.Mag() * P(n.used)
    requires IsRho(rho, n.dp[0])
    modifies x
    ensures x.Valid() && !x.neg
    ensures IsRedc(x.Mag(), old(x.Mag()), n.Mag(), P(n.used))
  {
    hide IsRedc, P, IsRho;
    if 2 * n.used + 1 < WARRAY && n.used < GUARD {
      ReduceColumns(x, n, rho);
    } else {
      ReduceRows(x, n, rho);
    }
  }
}
