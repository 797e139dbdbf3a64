/**
 The bucket store of Parrot's hash: buckets strung together by next numbers into
 disjoint lists, one per chain and one for the free buckets.
 */
module BucketLists {
  import opened Sequences

  const NULL: int := -1

  /** Following next from head gives exactly the buckets in c, in this order. */
  ghost predicate Linked(c: seq<nat>, head: int, next: seq<int>) {
    && head == At(c, 0)
    && forall j :: 0 <= j < |c| ==> LinkAt(c, j, next)
  }

  /** The j-th bucket of a list, NULL behind the last. */
  ghost function At(c: seq<nat>, j: nat): int {
    if j < |c| then c[j] else NULL
  }

  ghost predicate LinkAt(c: seq<nat>, j: nat, next: seq<int>)
    requires j < |c|
  {
    c[j] < |next| && next[c[j]] == At(c, j + 1)
  }

  /** List i, as list i of n buckets each owned by one list. */
  ghost predicate IsList(c: seq<nat>, i: nat, head: int, next: seq<int>, owner: seq<nat>) {
    && Linked(c, head, next)
    && Distinct(c)
    && forall j :: 0 <= j < |c| ==> Owns(owner, c[j], i)
  }

  ghost predicate Owns(owner: seq<nat>, b: nat, i: nat) {
    b < |owner| && owner[b] == i
  }

  ghost predicate IsOwned(lists: seq<seq<nat>>, owner: seq<nat>, b: nat)
    requires b < |owner|
  {
    owner[b] < |lists| && b in lists[owner[b]]
  }

  /** The lists are disjoint and hold every bucket that has an owner. */
  ghost predicate Threaded(lists: seq<seq<nat>>, heads: seq<int>, next: seq<int>, owner: seq<nat>) {
    && |lists| == |heads| && |owner| <= |next|
    && (forall i :: 0 <= i < |lists| ==> IsList(lists[i], i, heads[i], next, owner))
    && forall b :: 0 <= b < |owner| ==> IsOwned(lists, owner, b)
  }

  // ----- moving one bucket to the front of another list

  /** The link to the p-th bucket is redirected to the one behind it: the head, or next of the bucket before. */
  ghost predicate Unlinked(c: seq<nat>, p: nat, head: int, next: seq<int>, head': int, next': seq<int>)
    requires p < |c|
  {
    && |next'| == |next|
    && head' == (if p == 0 then At(c, 1) else head)
    && forall b :: 0 <= b < |next| && b != c[p] ==> next'[b] == if p > 0 && b == c[p - 1] then At(c, p + 1) else next[b]
  }

  lemma UnlinkedList(c: seq<nat>, p: nat, i: nat, head: int, next: seq<int>, owner: seq<nat>, head': int,
                     next': seq<int>, to: nat)
    requires IsList(c, i, head, next, owner) && p < |c| && |owner| <= |next| && i != to
    requires Unlinked(c, p, head, next, head', next')
    ensures IsList(Without(c, p), i, head', next', owner[c[p] := to])
  {
    var d, x := Without(c, p), c[p];
    assert Owns(owner, c[p], i) && LinkAt(c, p, next);
    assert head' == At(d, 0);
    forall j | 0 <= j < |d|
      ensures LinkAt(d, j, next') && Owns(owner[x := to], d[j], i)
    {
      var k := if j < p then j else j + 1;
      assert LinkAt(c, k, next) && Owns(owner, c[k], i);
      assert c[k] != x;
      assert p > 0 && k != p - 1 ==> c[k] != c[p - 1];
    }
  }

  lemma PushedList(c: seq<nat>, x: nat, to: nat, head: int, next: seq<int>, owner: seq<nat>, next': seq<int>)
    requires IsList(c, to, head, next, owner) && x < |owner| && owner[x] != to && |owner| <= |next| == |next'|
    requires next'[x] == head && forall j :: 0 <= j < |c| ==> next'[c[j]] == next[c[j]]
    ensures IsList([x] + c, to, x, next', owner[x := to])
  {
    var d := [x] + c;
    forall j | 0 <= j < |d|
      ensures LinkAt(d, j, next') && Owns(owner[x := to], d[j], to)
    {
      if j > 0 {
        assert LinkAt(c, j - 1, next) && Owns(owner, c[j - 1], to);
      }
    }
    forall i, j | 0 <= i < j < |d|
      ensures d[i] != d[j]
    {
      assert Owns(owner, c[j - 1], to);
    }
  }

  lemma OtherList(c: seq<nat>, i: nat, x: nat, to: nat, head: int, next: seq<int>, owner: seq<nat>, next': seq<int>)
    requires IsList(c, i, head, next, owner) && x < |owner| && owner[x] != i && i != to && |owner| <= |next| == |next'|
    requires forall j :: 0 <= j < |c| ==> next'[c[j]] == next[c[j]]
    ensures IsList(c, i, head, next', owner[x := to])
  {
    forall j | 0 <= j < |c|
      ensures LinkAt(c, j, next') && Owns(owner[x := to], c[j], i)
    {
      assert LinkAt(c, j, next) && Owns(owner, c[j], i);
    }
  }

  ghost predicate Moved(lists: seq<seq<nat>>, from: nat, p: nat, to: nat, lists': seq<seq<nat>>)
    requires from < |lists| && to < |lists| && p < |lists[from]|
  {
    lists' == lists[from := Without(lists[from], p)][to := [lists[from][p]] + lists[to]]
  }

  /** Unlinking a bucket and putting it in front of another list keeps all lists in order. */
  lemma MoveKeeps(lists: seq<seq<nat>>, heads: seq<int>, next: seq<int>, owner: seq<nat>, from: nat, p: nat, to: nat,
                  lists': seq<seq<nat>>, heads': seq<int>, next': seq<int>)
    requires Threaded(lists, heads, next, owner) && from < |lists| && to < |lists| && from != to && p < |lists[from]|
    requires Moved(lists, from, p, to, lists') && lists[from][p] < |owner|
    requires |heads'| == |heads| && heads'[to] == lists[from][p]
    requires Unlinked(lists[from], p, heads[from], next, heads'[from], next') && lists[from][p] < |next'|
    requires next'[lists[from][p]] == heads[to]
    requires forall i :: 0 <= i < |heads| && i != from && i != to ==> heads'[i] == heads[i]
    ensures Threaded(lists', heads', next', owner[lists[from][p] := to])
  {
    var x := lists[from][p];
    assert IsList(lists[from], from, heads[from], next, owner) && Owns(owner, x, from);
    UnlinkedList(lists[from], p, from, heads[from], next, owner, heads'[from], next', to);
    forall i | 0 <= i < |lists| && i != from
      ensures forall j :: 0 <= j < |lists[i]| ==> next'[lists[i][j]] == next[lists[i][j]]
    {
      UntouchedLinks(lists, heads, next, owner, from, p, i, heads'[from], next');
    }
    PushedList(lists[to], x, to, heads[to], next, owner, next');
    forall i | 0 <= i < |lists| && i != from && i != to
      ensures IsList(lists[i], i, heads'[i], next', owner[x := to])
    {
      OtherList(lists[i], i, x, to, heads[i], next, owner, next');
    }
    StillOwned(lists, owner, from, p, to, lists', owner[x := to]);
  }

  /** Only buckets of the list a bucket is taken from, and the bucket itself, get new links. */
  lemma UntouchedLinks(lists: seq<seq<nat>>, heads: seq<int>, next: seq<int>, owner: seq<nat>, from: nat, p: nat,
                       i: nat,
                       head': int, next': seq<int>)
    requires Threaded(lists, heads, next, owner) && from < |lists| && i < |lists| && i != from && p < |lists[from]|
    requires Unlinked(lists[from], p, heads[from], next, head', next')
    ensures forall j :: 0 <= j < |lists[i]| ==> lists[i][j] < |next| && next'[lists[i][j]] == next[lists[i][j]]
  {
    assert IsList(lists[from], from, heads[from], next, owner) && Owns(owner, lists[from][p], from);
    assert p > 0 ==> Owns(owner, lists[from][p - 1], from);
    forall j | 0 <= j < |lists[i]|
      ensures lists[i][j] < |next| && next'[lists[i][j]] == next[lists[i][j]]
    {
      assert IsList(lists[i], i, heads[i], next, owner) && Owns(owner, lists[i][j], i);
    }
  }

  lemma StillOwned(lists: seq<seq<nat>>, owner: seq<nat>, from: nat, p: nat, to: nat, lists': seq<seq<nat>>,
                   owner': seq<nat>)
    requires from < |lists| && to < |lists| && from != to && p < |lists[from]| && lists[from][p] < |owner|
    requires Moved(lists, from, p, to, lists')
    requires owner' == owner[lists[from][p] := to]
    requires forall b :: 0 <= b < |owner| ==> IsOwned(lists, owner, b)
    ensures forall b :: 0 <= b < |owner| ==> IsOwned(lists', owner', b)
  {
    var x := lists[from][p];
    forall b | 0 <= b < |owner|
      ensures IsOwned(lists', owner', b)
    {
      assert IsOwned(lists, owner, b);
      if b == x {
        assert lists'[to][0] == x;
      } else if owner[b] == from {
        var j :| 0 <= j < |lists[from]| && lists[from][j] == b;
        assert lists'[from][if j < p then j else j - 1] == b;
      } else if owner[b] == to {
        assert lists'[to] == [x] + lists[to];
      }
    }
  }

  // ----- walking a list

  /** A bucket a list owns is found somewhere on it. */
  lemma Position(lists: seq<seq<nat>>, heads: seq<int>, next: seq<int>, owner: seq<nat>, b: nat) returns (j: nat)
    requires Threaded(lists, heads, next, owner) && b < |owner|
    ensures owner[b] < |lists| && j < |lists[owner[b]]| && lists[owner[b]][j] == b
  {
    assert IsOwned(lists, owner, b);
    j :| j < |lists[owner[b]]| && lists[owner[b]][j] == b;
  }

  /** The start of list i and every step on it. */
  lemma OnList(lists: seq<seq<nat>>, heads: seq<int>, next: seq<int>, owner: seq<nat>, i: nat)
    requires Threaded(lists, heads, next, owner) && i < |lists|
    ensures heads[i] == At(lists[i], 0)
    ensures forall j :: 0 <= j < |lists[i]| ==> StepAt(lists[i], j, i, next, owner)
  {
    assert IsList(lists[i], i, heads[i], next, owner);
    forall j | 0 <= j < |lists[i]|
      ensures StepAt(lists[i], j, i, next, owner)
    {
      assert LinkAt(lists[i], j, next) && Owns(owner, lists[i][j], i);
    }
  }

  ghost predicate StepAt(c: seq<nat>, j: nat, i: nat, next: seq<int>, owner: seq<nat>)
    requires j < |c|
  {
    c[j] < |owner| && c[j] < |next| && owner[c[j]] == i && next[c[j]] == At(c, j + 1)
  }

  // ----- a store of free buckets

  function Range(lo: nat, hi: nat): (s: seq<nat>)
    requires lo <= hi
    ensures |s| == hi - lo
    ensures forall j :: 0 <= j < |s| ==> s[j] == lo + j
  {
    seq(hi - lo, j requires 0 <= j => lo + j)
  }

  /** From lo on every bucket points to the one after it, the last of them nowhere. */
  ghost predicate Row(next: seq<int>, lo: nat, hi: nat) {
    hi <= |next| && forall b :: lo <= b < hi ==> next[b] == if b + 1 == hi then NULL else b + 1
  }

  lemma RowIsList(next: seq<int>, lo: nat, hi: nat, i: nat, owner: seq<nat>)
    requires lo < hi <= |owner| && Row(next, lo, hi) && forall b :: lo <= b < hi ==> owner[b] == i
    ensures IsList(Range(lo, hi), i, lo, next, owner)
  {
    var c := Range(lo, hi);
    forall j | 0 <= j < |c|
      ensures LinkAt(c, j, next) && Owns(owner, c[j], i)
    {
    }
  }

  lemma EmptyIsList(i: nat, next: seq<int>, owner: seq<nat>)
    ensures IsList([], i, NULL, next, owner)
  {
  }

  /** n free buckets and n empty chains. */
  lemma AllFree(n: nat, next: seq<int>, lists: seq<seq<nat>>, heads: seq<int>, owner: seq<nat>)
    requires n > 0 && Row(next, 0, n) && |owner| == n && |lists| == |heads| == n + 1
    requires forall b :: 0 <= b < n ==> owner[b] == n
    requires lists[n] == Range(0, n) && heads[n] == 0
    requires forall i :: 0 <= i < n ==> lists[i] == [] && heads[i] == NULL
    ensures Threaded(lists, heads, next, owner)
  {
    RowIsList(next, 0, n, n, owner);
    forall i | 0 <= i < n
      ensures IsList(lists[i], i, heads[i], next, owner)
    {
      EmptyIsList(i, next, owner);
    }
    forall b | 0 <= b < |owner|
      ensures IsOwned(lists, owner, b)
    {
      assert lists[n][b] == b;
    }
  }

  // ----- the pointer updates of a move

  /** next with the p-th bucket of c bypassed and pointing to rest instead. */
  function Bypassed(c: seq<nat>, p: nat, next: seq<int>, rest: int): (n: seq<int>)
    requires p < |c| && c[p] < |next| && (p > 0 ==> c[p - 1] < |next|)
    ensures |n| == |next|
  {
    (if p == 0 then next else next[c[p - 1] := next[c[p]]])[c[p] := rest]
  }

  lemma BypassFirst(c: seq<nat>, next: seq<int>, rest: int)
    requires |c| > 0 && c[0] < |next|
    ensures Bypassed(c, 0, next, rest) == next[c[0] := rest]
  {
  }

  lemma BypassUnlinks(c: seq<nat>, p: nat, i: nat, head: int, next: seq<int>, owner: seq<nat>, rest: int)
    requires IsList(c, i, head, next, owner) && p < |c|
    ensures c[p] < |next| && (p > 0 ==> c[p - 1] < |next|)
    ensures Unlinked(c, p, head, next, if p == 0 then next[c[p]] else head, Bypassed(c, p, next, rest))
    ensures Bypassed(c, p, next, rest)[c[p]] == rest
  {
    assert LinkAt(c, p, next);
    assert p > 0 ==> LinkAt(c, p - 1, next);
  }

  /** Taking the p-th bucket off list from and putting it in front of list to, pointer by pointer. */
  lemma Relinked(lists: seq<seq<nat>>, heads: seq<int>, next: seq<int>, owner: seq<nat>, from: nat, p: nat, to: nat)
    requires Threaded(lists, heads, next, owner) && from < |lists| && to < |lists| && from != to && p < |lists[from]|
    ensures StepAt(lists[from], p, from, next, owner) && (p > 0 ==> StepAt(lists[from], p - 1, from, next, owner))
    ensures var c, x := lists[from], lists[from][p];
      Threaded(lists[from := Without(c, p)][to := [x] + lists[to]],
               heads[from := if p == 0 then next[x] else heads[from]][to := x],
               Bypassed(c, p, next, heads[to]), owner[x := to])
  {
    var c, x := lists[from], lists[from][p];
    OnList(lists, heads, next, owner, from);
    assert StepAt(c, p, from, next, owner) && (p > 0 ==> StepAt(c, p - 1, from, next, owner));
    assert IsList(c, from, heads[from], next, owner);
    BypassUnlinks(c, p, from, heads[from], next, owner, heads[to]);
    hide IsList, IsOwned, StepAt, Unlinked;
    MoveKeeps(lists, heads, next, owner, from, p, to, lists[from := Without(c, p)][to := [x] + lists[to]],
              heads[from := if p == 0 then next[x] else heads[from]][to := x], Bypassed(c, p, next, heads[to]));
  }

  // ----- a store twice as large

  lemma WiderNext(c: seq<nat>, i: nat, head: int, next: seq<int>, owner: seq<nat>, next': seq<int>, owner': seq<nat>)
    requires IsList(c, i, head, next, owner) && |owner| <= |next| <= |next'| && |owner| <= |owner'|
    requires forall b :: 0 <= b < |owner| ==> next'[b] == next[b] && owner'[b] == owner[b]
    ensures IsList(c, i, head, next', owner')
  {
    forall j | 0 <= j < |c|
      ensures LinkAt(c, j, next') && Owns(owner', c[j], i)
    {
      assert LinkAt(c, j, next) && Owns(owner, c[j], i);
    }
  }

  /** n more empty chains, between the old ones and the empty free list. */
  lemma MoreChains(lists: seq<seq<nat>>, heads: seq<int>, next: seq<int>, owner: seq<nat>, n: nat,
                   lists': seq<seq<nat>>, heads': seq<int>, next': seq<int>)
    requires Threaded(lists, heads, next, owner) && |lists| == n + 1 && lists[n] == [] && |next'| >= |next|
    requires |lists'| == |heads'| == 2 * n + 1
    requires forall i :: 0 <= i < n ==> lists'[i] == lists[i] && heads'[i] == heads[i]
    requires forall i :: n <= i <= 2 * n ==> lists'[i] == [] && heads'[i] == NULL
    requires forall b :: 0 <= b < |owner| ==> next'[b] == next[b]
    ensures Threaded(lists', heads', next', owner)
  {
    forall i | 0 <= i < |lists'|
      ensures IsList(lists'[i], i, heads'[i], next', owner)
    {
      if i < n {
        assert IsList(lists[i], i, heads[i], next, owner);
        WiderNext(lists[i], i, heads[i], next, owner, next', owner);
      } else {
        EmptyIsList(i, next', owner);
      }
    }
    forall b | 0 <= b < |owner|
      ensures IsOwned(lists', owner, b)
    {
      assert IsOwned(lists, owner, b);
    }
  }

  /** The second half of the store becomes the free list. */
  lemma SecondHalfFree(lists: seq<seq<nat>>, heads: seq<int>, next: seq<int>, owner: seq<nat>, n: nat,
                       lists': seq<seq<nat>>, heads': seq<int>, next': seq<int>, owner': seq<nat>)
    requires Threaded(lists, heads, next, owner) && n > 0 && |owner| == n && |lists| == 2 * n + 1 && lists[2 * n] == []
    requires |next| == |next'| == |owner'| == 2 * n && Row(next', n, 2 * n)
    requires forall b :: 0 <= b < n ==> next'[b] == next[b] && owner'[b] == owner[b]
    requires forall b :: n <= b < 2 * n ==> owner'[b] == 2 * n
    requires lists' == lists[2 * n := Range(n, 2 * n)] && heads' == heads[2 * n := n]
    ensures Threaded(lists', heads', next', owner')
  {
    RowIsList(next', n, 2 * n, 2 * n, owner');
    forall i | 0 <= i < 2 * n
      ensures IsList(lists'[i], i, heads'[i], next', owner')
    {
      assert IsList(lists[i], i, heads[i], next, owner);
      WiderNext(lists[i], i, heads[i], next, owner, next', owner');
    }
    forall b | 0 <= b < |owner'|
      ensures IsOwned(lists', owner', b)
    {
      if b < n {
        assert IsOwned(lists, owner, b);
      } else {
        assert lists'[2 * n][b - n] == b;
      }
    }
  }
}
