/**
 What the digit multipliers compute, as functions of two digit strings: the
 product cut off below or above a column, by rows and by columns.
 */
module Products {
  import opened Arith
  import opened Radix

  function Clip(v: int, m: nat): (c: nat)
    ensures c <= m
  {
    if v < 0 then 0 else if v < m then v else m
  }

  /** Rows 0..n of x * y, each cut off so that nothing reaches column d. */
  function Low(x: seq<int>, n: nat, y: seq<int>, m: nat, d: nat): int
    requires n <= |x| && m <= |y|
  {
    if n == 0 then 0 else
      Low(x, n - 1, y, m, d) + x[n - 1] * P(n - 1) * Sum(y, 0, Clip(d - (n - 1), m))
  }

  /** Rows 0..n of x * y, only the columns from d up. */
  function High(x: seq<int>, n: nat, y: seq<int>, m: nat, d: nat): int
    requires n <= |x| && m <= |y|
  {
    if n == 0 then 0 else
      High(x, n - 1, y, m, d) + x[n - 1] * P(n - 1) * Sum(y, Clip(d - (n - 1), m), m)
  }

  /** The low and the high columns make up the whole product. */
  lemma {:induction false} LowPlusHigh(x: seq<int>, n: nat, y: seq<int>, m: nat, d: nat)
    requires n <= |x| && m <= |y|
    ensures Low(x, n, y, m, d) + High(x, n, y, m, d) == Sum(x, 0, n) * Sum(y, 0, m)
  {
    if n > 0 {
      LowPlusHigh(x, n - 1, y, m, d);
      SumSplit(y, 0, Clip(d - (n - 1), m), m);
      RowSplit(Sum(x, 0, n - 1), x[n - 1] * P(n - 1),
        Sum(y, 0, Clip(d - (n - 1), m)), Sum(y, Clip(d - (n - 1), m), m));
    }
  }

  lemma RowSplit(s: int, r: int, a: int, b: int)
    ensures (s + r) * (a + b) == s * (a + b) + r * a + r * b
  {
  }

  /** The high columns are a multiple of P(d). */
  lemma {:induction false} HighMultiple(x: seq<int>, n: nat, y: seq<int>, m: nat, d: nat) returns (k: int)
    requires n <= |x| && m <= |y|
    ensures High(x, n, y, m, d) == k * P(d)
  {
    if n == 0 {
      k := 0;
    } else {
      k := HighMultiple(x, n - 1, y, m, d);
      var l := RowMultiple(x[n - 1], n - 1, y, Clip(d - (n - 1), m), m, d);
      Distribute(k, l, P(d));
      k := k + l;
    }
  }

  lemma RowMultiple(v: int, i: nat, y: seq<int>, c: nat, m: nat, d: nat) returns (k: int)
    requires m <= |y| && c == Clip(d - i, m)
    ensures v * P(i) * Sum(y, c, m) == k * P(d)
  {
    SumShift(y, y[c..], c, m - c);
    var t := Sum(y[c..], 0, m - c);
    if c == m {
      k := 0;
      assert v * P(i) * 0 == 0;
    } else if i <= d {
      k := v * t;
      PAdd(i, c);
      Regroup(v, P(i), P(c), t);
    } else {
      PZero();
      k := v * P(i - d) * t;
      PAdd(i - d, d);
      Regroup(v, P(i - d), P(d), t);
      MulSwap(v * P(i - d), P(d), t);
      MulAssoc(v, P(i - d), P(d));
    }
  }

  lemma Regroup(v: int, p: int, q: int, t: int)
    ensures v * p * (q * t) == (v * t) * (p * q)
    ensures v * p * (q * t) == (v * p * t) * q
  {
    MulAssoc(v * p, q, t);
    MulSwap(v * p, q, t);
    MulSwap(v, p, t);
    MulAssoc(v * t, p, q);
  }

  /** Cutting off the high columns keeps the product modulo P(d). */
  lemma LowIsProductMod(x: seq<int>, n: nat, y: seq<int>, m: nat, d: nat)
    requires n <= |x| && m <= |y|
    ensures Low(x, n, y, m, d) % P(d) == (Sum(x, 0, n) * Sum(y, 0, m)) % P(d)
  {
    LowPlusHigh(x, n, y, m, d);
    var k := HighMultiple(x, n, y, m, d);
    CongIntro(Sum(x, 0, n) * Sum(y, 0, m), Low(x, n, y, m, d), P(d), k);
  }

  lemma LowRowBound(v: int, i: nat, s: int, c: nat, d: nat)
    requires i <= d && c <= d - i && 0 <= v < B && 0 <= s <= P(c)
    ensures 0 <= v * P(i) * s <= P(d + 1)
  {
    hide *;
    PMono(c, d - i);
    PAdd(i, d - i);
    RowBound(v, P(i), s, P(d - i));
    PStep(d);
  }

  /** The columns below d are worth less than d * P(d + 1). */
  lemma {:induction false} LowBound(x: seq<int>, n: nat, y: seq<int>, m: nat, d: nat)
    requires n <= |x| && m <= |y| && n <= d + 1
    requires AreDigits(x, 0, n) && AreDigits(y, 0, m)
    ensures 0 <= Low(x, n, y, m, d) <= Min(n, d) * P(d + 1)
  {
    if n > 0 {
      LowBound(x, n - 1, y, m, d);
      var c := Clip(d - (n - 1), m);
      SumBound(y, 0, c);
      if n == d + 1 {
        assert Sum(y, 0, c) == 0;
      } else {
        LowRowBound(x[n - 1], n - 1, Sum(y, 0, c), c, d);
        CountUp(n - 1, P(d + 1));
      }
    }
  }

  lemma RowBound(v: int, p: nat, s: int, q: nat)
    requires 0 <= v < B && 0 <= s <= q
    ensures 0 <= v * p * s <= B * (p * q)
  {
    MulPos(v, p);
    MulPos(v * p, s);
    MulMono(s, q, v * p);
    MulAssoc(v, p, q);
    MulPos(p, q);
    MulMono(v, B, p * q);
  }

  // ----- columns

  /** Column k of the product: all x[i] * y[j] with i < n, j < m and i + j == k. */
  function Col(x: seq<int>, n: nat, y: seq<int>, m: nat, k: int): int
    requires n <= |x| && m <= |y|
  {
    if n == 0 then 0 else
      Col(x, n - 1, y, m, k) + (if 0 <= k - (n - 1) < m then x[n - 1] * y[k - (n - 1)] else 0)
  }

  /** The first d columns, weighted. */
  function Columns(x: seq<int>, n: nat, y: seq<int>, m: nat, d: nat): int
    requires n <= |x| && m <= |y|
  {
    if d == 0 then 0 else
      Columns(x, n, y, m, d - 1) + Col(x, n, y, m, d - 1) * P(d - 1)
  }

  /** Summing by columns and by rows gives the same number. */
  lemma {:induction false} ColumnsAreRows(x: seq<int>, n: nat, y: seq<int>, m: nat, d: nat)
    requires n <= |x| && m <= |y|
    ensures Columns(x, n, y, m, d) == Low(x, n, y, m, d)
  {
    if n == 0 {
      NoColumns(x, y, m, d);
    } else {
      ColumnsAreRows(x, n - 1, y, m, d);
      RowOfColumns(x, n, y, m, d);
    }
  }

  lemma {:induction false} NoColumns(x: seq<int>, y: seq<int>, m: nat, d: nat)
    requires m <= |y|
    ensures Columns(x, 0, y, m, d) == 0
  {
    if d > 0 {
      NoColumns(x, y, m, d - 1);
    }
  }

  /** Adding digit n - 1 of x adds one row, spread over the columns. */
  lemma {:induction false} RowOfColumns(x: seq<int>, n: nat, y: seq<int>, m: nat, d: nat)
    requires 0 < n <= |x| && m <= |y|
    ensures Columns(x, n, y, m, d) ==
            Columns(x, n - 1, y, m, d) + x[n - 1] * P(n - 1) * Sum(y, 0, Clip(d - (n - 1), m))
  {
    var v, i := x[n - 1], n - 1;
    if d == 0 {
      assert v * P(i) * 0 == 0;
    } else {
      RowOfColumns(x, n, y, m, d - 1);
      var j := d - 1 - i;
      if 0 <= j < m {
        PAdd(i, j);
        ColumnStep(Col(x, n - 1, y, m, d - 1), v, P(i), y[j], P(j), Sum(y, 0, j));
      }
    }
  }

  lemma ColumnStep(c: int, v: int, p: int, w: int, q: int, s: int)
    ensures (c + v * w) * (p * q) == c * (p * q) + (v * p * (s + w * q) - v * p * s)
  {
    Regroup(v, p, w, q);
    Regroup(v, p, q, w);
    assert v * p * (w * q) == (v * w) * (p * q) by {
      MulCommutes(w, q);
    }
    assert (c + v * w) * (p * q) == c * (p * q) + (v * w) * (p * q);
    assert v * p * (s + w * q) == v * p * s + v * p * (w * q);
  }

  /** A column gets nothing from digits of x too far down... */
  lemma {:induction false} ColBelow(x: seq<int>, i: nat, y: seq<int>, m: nat, k: int)
    requires i <= |x| && m <= |y| && i + m <= k + 1
    ensures Col(x, i, y, m, k) == 0
  {
    if i > 0 {
      ColBelow(x, i - 1, y, m, k);
    }
  }

  /** ...and nothing from digits of x above the column itself. */
  lemma {:induction false} ColAbove(x: seq<int>, i: nat, n: nat, y: seq<int>, m: nat, k: int)
    requires i <= n <= |x| && m <= |y| && k < i
    ensures Col(x, n, y, m, k) == Col(x, i, y, m, k)
    decreases n
  {
    if i < n {
      ColAbove(x, i, n - 1, y, m, k);
    }
  }

  /** The whole product needs no column from n + m up. */
  lemma LowIsProduct(x: seq<int>, n: nat, y: seq<int>, m: nat)
    requires n <= |x| && m <= |y|
    ensures Low(x, n, y, m, n + m) == Sum(x, 0, n) * Sum(y, 0, m)
  {
    hide *;
    LowPlusHigh(x, n, y, m, n + m);
    NoHigh(x, n, y, m, n + m);
  }

  lemma {:induction false} NoHigh(x: seq<int>, n: nat, y: seq<int>, m: nat, d: nat)
    requires n <= |x| && m <= |y| && n + m <= d
    ensures High(x, n, y, m, d) == 0
  {
    if n > 0 {
      NoHigh(x, n - 1, y, m, d);
      assert x[n - 1] * P(n - 1) * 0 == 0;
    }
  }
}
