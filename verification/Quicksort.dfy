/**
 Parrot_util_quicksort: in place, recursing into the smaller side only.
 */
module Quicksort {
  import opened Arith

  // ----- order

  /** The comparison behaves: its signs mirror, and less-or-equal is transitive. */
  ghost predicate TotalPreorder<T(!new)>(cmp: (T, T) -> int) {
    && (forall x, y :: cmp(x, y) <= 0 <==> cmp(y, x) >= 0)
    && forall x, y, z :: Le(cmp, x, y) && Le(cmp, y, z) ==> Le(cmp, x, z)
  }

  predicate Le<T>(cmp: (T, T) -> int, x: T, y: T) {
    cmp(x, y) <= 0
  }

  ghost predicate Sorted<T>(s: seq<T>, a: nat, b: nat, cmp: (T, T) -> int)
    requires a <= b <= |s|
  {
    forall p, q :: a <= p < q < b ==> Le(cmp, s[p], s[q])
  }

  /** From a to b everything is in order, except perhaps among the cells lo to hi. */
  ghost predicate OrderedExcept<T>(s: seq<T>, a: nat, b: nat, lo: nat, hi: nat, cmp: (T, T) -> int)
    requires a <= lo <= hi <= b <= |s|
  {
    forall p, q :: a <= p < q < b && !(lo <= p && q < hi) ==> Le(cmp, s[p], s[q])
  }

  // ----- permutations of a stretch

  /** now differs from was only by the order of the cells lo to hi. */
  ghost predicate Rearranged<T>(was: seq<T>, now: seq<T>, lo: nat, hi: nat) {
    && lo <= hi <= |was| == |now|
    && was[..lo] == now[..lo] && was[hi..] == now[hi..]
    && multiset(was[lo..hi]) == multiset(now[lo..hi])
  }

  lemma RearrangedSwap<T>(s: seq<T>, lo: nat, hi: nat, i: nat, j: nat)
    requires lo <= i < hi <= |s| && lo <= j < hi
    ensures Rearranged(s, s[i := s[j]][j := s[i]], lo, hi)
  {
    var t := s[i := s[j]][j := s[i]];
    var u := s[lo..hi];
    assert t[lo..hi] == u[i - lo := u[j - lo]][j - lo := u[i - lo]];
    assert t[..lo] == s[..lo] && t[hi..] == s[hi..];
  }

  lemma RearrangedTrans<T>(s: seq<T>, t: seq<T>, u: seq<T>, lo: nat, hi: nat)
    requires Rearranged(s, t, lo, hi) && Rearranged(t, u, lo, hi)
    ensures Rearranged(s, u, lo, hi)
  {
  }

  lemma RearrangedWider<T>(s: seq<T>, t: seq<T>, lo: nat, hi: nat, a: nat, b: nat)
    requires Rearranged(s, t, lo, hi) && a <= lo && hi <= b <= |s|
    ensures Rearranged(s, t, a, b)
  {
    assert s[a..b] == s[..lo][a..] + s[lo..hi] + s[hi..][..b - hi];
    assert t[a..b] == t[..lo][a..] + t[lo..hi] + t[hi..][..b - hi];
    assert s[..a] == s[..lo][..a] && t[..a] == t[..lo][..a];
    assert s[b..] == s[hi..][b - hi..] && t[b..] == t[hi..][b - hi..];
  }

  /** Every cell of the stretch holds something the stretch held before; the rest is untouched. */
  lemma RearrangedCell<T>(s: seq<T>, t: seq<T>, lo: nat, hi: nat, k: nat)
    requires Rearranged(s, t, lo, hi) && k < |t|
    ensures if lo <= k < hi then exists m :: lo <= m < hi && s[m] == t[k] else t[k] == s[k]
  {
    if k < lo {
      assert t[k] == t[..lo][k] && s[k] == s[..lo][k];
    } else if k >= hi {
      assert t[k] == t[hi..][k - hi] && s[k] == s[hi..][k - hi];
    } else {
      assert t[k] == t[lo..hi][k - lo];
      assert t[k] in multiset(s[lo..hi]);
      var m :| 0 <= m < hi - lo && s[lo..hi][m] == t[k];
      assert s[lo + m] == t[k];
    }
  }

  // ----- one partition

  /** Cells lo to m compare at most as high as cell m, those from m to hi at least as high. */
  ghost predicate Parted<T>(s: seq<T>, lo: nat, m: nat, hi: nat, cmp: (T, T) -> int)
    requires lo <= m < hi <= |s|
  {
    && (forall k :: lo <= k < m ==> cmp(s[k], s[m]) <= 0)
    && forall k :: m < k < hi ==> cmp(s[k], s[m]) >= 0
  }

  /** What the two scans have established: the cells up to i and from j on are on the right side. */
  ghost predicate Scanned<T>(s: seq<T>, lo: nat, i: int, j: int, n: nat, pivot: T, cmp: (T, T) -> int) {
    && lo + n <= |s| && 0 < n && s[lo] == pivot
    && (forall k :: lo < k <= lo + i && k < lo + n ==> cmp(s[k], pivot) <= 0)
    && forall k :: lo + j <= k < lo + n && k > lo ==> cmp(s[k], pivot) >= 0
  }

  /** Exchanges two cells; s and s0 are what the array holds now and held at some time before. */
  method Swap<T>(data: array<T>, ghost s0: seq<T>, ghost s: seq<T>, ghost lo: nat, ghost hi: nat, i: nat, j: nat)
    requires s == data[..] && Rearranged(s0, s, lo, hi) && lo <= i < hi <= data.Length && lo <= j < hi
    modifies data
    ensures data[..] == s[i := s[j]][j := s[i]]
    ensures Rearranged(s0, data[..], lo, hi)
  {
    hide *;
    RearrangedSwap(s, lo, hi, i, j);
    var temp := data[i];
    data[i] := data[j];
    data[j] := temp;
    assert data[..] == s[i := s[j]][j := s[i]];
    RearrangedTrans(s0, s, data[..], lo, hi);
  }

  lemma ExchangeScanned<T>(s: seq<T>, lo: nat, i: int, j: int, n: nat, pivot: T, cmp: (T, T) -> int)
    requires 0 < i < j < n && Scanned(s, lo, i - 1, j + 1, n, pivot, cmp)
    requires cmp(s[lo + i], pivot) >= 0 && cmp(s[lo + j], pivot) <= 0
    ensures Scanned(s[lo + i := s[lo + j]][lo + j := s[lo + i]], lo, i, j, n, pivot, cmp)
  {
  }

  lemma PivotPlaced<T>(s: seq<T>, lo: nat, i: int, j: int, n: nat, pivot: T, cmp: (T, T) -> int)
    requires 0 <= j < n && i >= j && Scanned(s, lo, i - 1, j + 1, n, pivot, cmp)
    requires j == 0 || cmp(s[lo + j], pivot) <= 0
    ensures Parted(s[lo + j := s[lo]][lo := s[lo + j]], lo, lo + j, lo + n, cmp)
  {
  }

  lemma NothingScanned<T>(s: seq<T>, lo: nat, n: nat, cmp: (T, T) -> int)
    requires 0 < n && lo + n <= |s|
    ensures Scanned(s, lo, 0, n, n, s[lo], cmp)
  {
  }

  /** Both scans stay inside the stretch, whatever the comparison says. */
  method Partition<T>(data: array<T>, lo: nat, n: nat, cmp: (T, T) -> int) returns (m: nat)
    requires n > 1 && lo + n <= data.Length
    modifies data
    ensures m < n && Parted(data[..], lo, lo + m, lo + n, cmp)
    ensures Rearranged(old(data[..]), data[..], lo, lo + n)
  {
    hide *;
    ghost var s0, hi := data[..], lo + n;
    RearrangedSame(s0, lo, hi);
    Swap(data, s0, s0, lo, hi, lo, lo + n / 2);
    ghost var pivot := data[lo];
    NothingScanned(data[..], lo, n, cmp);
    var i, j: int := 0, n;
    while true
      invariant 0 <= i < j <= n
      invariant Scanned(data[..], lo, i, j, n, pivot, cmp)
      invariant Rearranged(s0, data[..], lo, hi)
      decreases j
    {
      j := ScanDown(data, lo, i, j, n, pivot, cmp);
      i := ScanUp(data, lo, i, j, n, pivot, cmp);
      if i >= j {
        break;
      }
      ExchangeScanned(data[..], lo, i, j, n, pivot, cmp);
      Swap(data, s0, data[..], lo, hi, lo + i, lo + j);
    }
    PivotPlaced(data[..], lo, i, j, n, pivot, cmp);
    Swap(data, s0, data[..], lo, hi, lo + j, lo);
    m := j;
  }

  lemma RearrangedSame<T>(s: seq<T>, lo: nat, hi: nat)
    requires lo <= hi <= |s|
    ensures Rearranged(s, s, lo, hi)
  {
  }

  method ScanDown<T>(data: array<T>, lo: nat, i: int, j0: int, n: nat, ghost pivot: T, cmp: (T, T) -> int)
    returns (j: int)
    requires 0 <= i < j0 <= n && Scanned(data[..], lo, i, j0, n, pivot, cmp)
    ensures 0 <= j < j0 && Scanned(data[..], lo, i, j + 1, n, pivot, cmp)
    ensures j == 0 || cmp(data[lo + j], pivot) <= 0
  {
    j := j0 - 1;
    while j > 0 && cmp(data[lo + j], data[lo]) > 0
      invariant 0 <= j < j0 && Scanned(data[..], lo, i, j + 1, n, pivot, cmp)
    {
      j := j - 1;
    }
  }

  method ScanUp<T>(data: array<T>, lo: nat, i0: int, j: int, n: nat, ghost pivot: T, cmp: (T, T) -> int)
    returns (i: int)
    requires 0 <= i0 <= n && 0 <= j < n && Scanned(data[..], lo, i0, j + 1, n, pivot, cmp)
    ensures i > i0 && Scanned(data[..], lo, i - 1, j + 1, n, pivot, cmp)
    ensures i >= j || cmp(data[lo + i], pivot) >= 0
  {
    i := i0 + 1;
    while i < j && cmp(data[lo + i], data[lo]) < 0
      invariant i > i0 && (i <= j || i == i0 + 1) && Scanned(data[..], lo, i - 1, j + 1, n, pivot, cmp)
    {
      i := i + 1;
    }
  }

  // ----- putting the parts in order

  /** Once a stretch is parted at m, only the two sides can be out of order. */
  lemma PartedOrder<T(!new)>(s: seq<T>, t: seq<T>, a: nat, b: nat, lo: nat, m: nat, hi: nat, cmp: (T, T) -> int)
    requires a <= lo <= m < hi <= b <= |s| && TotalPreorder(cmp)
    requires OrderedExcept(s, a, b, lo, hi, cmp) && Rearranged(s, t, lo, hi) && Parted(t, lo, m, hi, cmp)
    ensures TwoSides(t, a, b, lo, m, hi, cmp)
  {
    KeepsOrderOutside(s, t, a, b, lo, hi, cmp);
    forall p, q | a <= p < q < b && !(lo <= p && q < m) && !(m < p && q < hi)
      ensures Le(cmp, t[p], t[q])
    {
      if lo <= p && q < hi {
        ThroughPivot(t, lo, m, hi, p, q, cmp);
      }
    }
  }

  lemma ThroughPivot<T(!new)>(t: seq<T>, lo: nat, m: nat, hi: nat, p: nat, q: nat, cmp: (T, T) -> int)
    requires lo <= m < hi <= |t| && TotalPreorder(cmp) && Parted(t, lo, m, hi, cmp)
    requires lo <= p <= m <= q < hi && p < q
    ensures Le(cmp, t[p], t[q])
  {
    assert p < m ==> Le(cmp, t[p], t[m]);
    assert q > m ==> cmp(t[q], t[m]) >= 0 && Le(cmp, t[m], t[q]);
  }

  /** Reordering the cells lo to hi does not disturb the order around them. */
  lemma KeepsOrderOutside<T>(s: seq<T>, t: seq<T>, a: nat, b: nat, lo: nat, hi: nat, cmp: (T, T) -> int)
    requires a <= lo <= hi <= b <= |s| && OrderedExcept(s, a, b, lo, hi, cmp) && Rearranged(s, t, lo, hi)
    ensures OrderedExcept(t, a, b, lo, hi, cmp)
  {
    forall p, q | a <= p < q < b && !(lo <= p && q < hi)
      ensures Le(cmp, t[p], t[q])
    {
      RearrangedCell(s, t, lo, hi, p);
      RearrangedCell(s, t, lo, hi, q);
      var p': nat, q': nat := p, q;
      if lo <= p < hi {
        p' :| lo <= p' < hi && s[p'] == t[p];
      }
      if lo <= q < hi {
        q' :| lo <= q' < hi && s[q'] == t[q];
      }
      assert Le(cmp, s[p'], s[q']);
    }
  }

  /** From a to b everything is in order, except perhaps among the cells lo to m and among those behind m up to hi. */
  ghost predicate TwoSides<T>(s: seq<T>, a: nat, b: nat, lo: nat, m: nat, hi: nat, cmp: (T, T) -> int)
    requires a <= lo <= m < hi <= b <= |s|
  {
    forall p, q :: a <= p < q < b && !(lo <= p && q < m) && !(m < p && q < hi) ==> Le(cmp, s[p], s[q])
  }

  /** Sorting one side leaves only the other one. */
  lemma SideSorted<T>(s: seq<T>, t: seq<T>, a: nat, b: nat, lo: nat, m: nat, hi: nat, left: bool, cmp: (T, T) -> int)
    requires a <= lo <= m < hi <= b <= |s| && TwoSides(s, a, b, lo, m, hi, cmp)
    requires left ==> Rearranged(s, t, lo, m) && Sorted(t, lo, m, cmp)
    requires !left ==> Rearranged(s, t, m + 1, hi) && Sorted(t, m + 1, hi, cmp)
    ensures if left then OrderedExcept(t, a, b, m + 1, hi, cmp) else OrderedExcept(t, a, b, lo, m, cmp)
  {
    var from, to := if left then lo else m + 1, if left then m else hi;
    var from', to' := if left then m + 1 else lo, if left then hi else m;
    forall p, q | a <= p < q < b && !(from' <= p && q < to')
      ensures Le(cmp, t[p], t[q])
    {
      if !(from <= p && q < to) {
        RearrangedCell(s, t, from, to, p);
        RearrangedCell(s, t, from, to, q);
        var p': nat, q': nat := p, q;
        if from <= p < to {
          p' :| from <= p' < to && s[p'] == t[p];
        }
        if from <= q < to {
          q' :| from <= q' < to && s[q'] == t[q];
        }
        assert Le(cmp, s[p'], s[q']);
      }
    }
  }

  /** What holds between the rounds of the loop: a permutation, out of order in lo to hi only. */
  ghost predicate SortedBut<T(!new)>(s0: seq<T>, s: seq<T>, a: nat, b: nat, lo: nat, hi: nat, cmp: (T, T) -> int) {
    && a <= lo <= hi <= b <= |s|
    && Rearranged(s0, s, a, b)
    && (TotalPreorder(cmp) ==> OrderedExcept(s, a, b, lo, hi, cmp))
  }

  lemma Round<T(!new)>(s0: seq<T>, s: seq<T>, t: seq<T>, u: seq<T>, a: nat, b: nat, lo: nat, m: nat, hi: nat,
                       left: bool, cmp: (T, T) -> int)
    requires SortedBut(s0, s, a, b, lo, hi, cmp) && lo <= m < hi <= |t|
    requires Rearranged(s, t, lo, hi) && Parted(t, lo, m, hi, cmp)
    requires left ==> Rearranged(t, u, lo, m) && (TotalPreorder(cmp) ==> Sorted(u, lo, m, cmp))
    requires !left ==> Rearranged(t, u, m + 1, hi) && (TotalPreorder(cmp) ==> Sorted(u, m + 1, hi, cmp))
    ensures if left then SortedBut(s0, u, a, b, m + 1, hi, cmp) else SortedBut(s0, u, a, b, lo, m, cmp)
  {
    RearrangedWider(s, t, lo, hi, a, b);
    RearrangedTrans(s0, s, t, a, b);
    if left {
      RearrangedWider(t, u, lo, m, a, b);
    } else {
      RearrangedWider(t, u, m + 1, hi, a, b);
    }
    RearrangedTrans(s0, t, u, a, b);
    if TotalPreorder(cmp) {
      PartedOrder(s, t, a, b, lo, m, hi, cmp);
      SideSorted(t, u, a, b, lo, m, hi, left, cmp);
    }
  }

  lemma Start<T(!new)>(s: seq<T>, a: nat, b: nat, cmp: (T, T) -> int)
    requires a <= b <= |s|
    ensures SortedBut(s, s, a, b, a, b, cmp)
  {
  }

  lemma Finish<T(!new)>(s0: seq<T>, s: seq<T>, a: nat, b: nat, lo: nat, hi: nat, cmp: (T, T) -> int)
    requires SortedBut(s0, s, a, b, lo, hi, cmp) && hi - lo <= 1
    ensures Rearranged(s0, s, a, b)
    ensures a <= b <= |s| && (TotalPreorder(cmp) ==> Sorted(s, a, b, cmp))
  {
  }

  /** A call nested in one on n elements gets less than half of them. */
  lemma Deeper(d: nat, side: nat, n: nat, n0: nat)
    requires 1 < n <= n0 && 2 * side <= n - 1 && Pow(2, d) <= Max(side, 1)
    ensures Pow(2, d + 1) <= Max(n0, 1)
  {
  }

  lemma NoDepth(n0: nat)
    ensures Pow(2, 0) <= Max(n0, 1)
  {
  }

  /** Sorts the n0 cells from lo0 on. depth is how deep the recursion went below this call: at most log2(n0). */
  method Sort<T(!new)>(data: array<T>, lo0: nat, n0: nat, cmp: (T, T) -> int) returns (ghost depth: nat)
    requires lo0 + n0 <= data.Length
    modifies data
    ensures Rearranged(old(data[..]), data[..], lo0, lo0 + n0)
    ensures TotalPreorder(cmp) ==> Sorted(data[..], lo0, lo0 + n0, cmp)
    ensures Pow(2, depth) <= Max(n0, 1)
    decreases n0
  {
    hide *;
    ghost var s0, a, b := data[..], lo0, lo0 + n0;
    var lo: nat, n: nat := lo0, n0;
    depth := 0;
    NoDepth(n0);
    Start(s0, a, b, cmp);
    while n > 1
      invariant n <= n0 && lo + n <= data.Length
      invariant SortedBut(s0, data[..], a, b, lo, lo + n, cmp)
      invariant Pow(2, depth) <= Max(n0, 1)
      decreases n
    {
      ghost var s := data[..];
      var j := Partition(data, lo, n, cmp);
      ghost var t, d := data[..], 0;
      var ln, rn := j, n - (j + 1);
      if ln < rn {
        d := Sort(data, lo, ln, cmp);
        Deeper(d, ln, n, n0);
        Round(s0, s, t, data[..], a, b, lo, lo + j, lo + n, true, cmp);
        lo, n := lo + (j + 1), rn;
      } else {
        d := Sort(data, lo + (j + 1), rn, cmp);
        Deeper(d, rn, n, n0);
        Round(s0, s, t, data[..], a, b, lo, lo + j, lo + n, false, cmp);
        n := ln;
      }
      depth := if d + 1 > depth then d + 1 else depth;
    }
    Finish(s0, data[..], a, b, lo, lo + n, cmp);
  }
}
