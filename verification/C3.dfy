/**
 C3_merge and Parrot_ComputeMRO_C3: the method resolution order of a class.
 */
module C3 {
  import opened Sequences

  /** A class, known by its identity. */
  type ClassId = nat

  datatype Outcome = Found(order: seq<ClassId>) | Ambiguous

  /** The elements of s occur in t in the same order. */
  ghost predicate Subsequence(s: seq<ClassId>, t: seq<ClassId>)
    decreases |t|
  {
    if s == [] then true
    else if t == [] then false
    else if s[0] == t[0] then Subsequence(s[1..], t[1..])
    else Subsequence(s, t[1..])
  }

  ghost predicate AllDistinct(ls: seq<seq<ClassId>>) {
    forall i :: 0 <= i < |ls| ==> Distinct(ls[i])
  }

  /** t agrees with the order of every list. */
  ghost predicate Agrees(t: seq<ClassId>, ls: seq<seq<ClassId>>) {
    forall i :: 0 <= i < |ls| ==> Subsequence(ls[i], t)
  }

  // ----- one merge step

  predicate InTail(c: ClassId, s: seq<ClassId>) {
    |s| > 0 && c in s[1..]
  }

  /** The head of list i is in the tail of no other list. */
  predicate Acceptable(ls: seq<seq<ClassId>>, i: nat)
    requires i < |ls|
  {
    |ls[i]| > 0 && forall j :: 0 <= j < |ls| && j != i ==> !InTail(ls[i][0], ls[j])
  }

  /** The first acceptable list from i on; |ls| if there is none. */
  function FirstAcceptable(ls: seq<seq<ClassId>>, i: nat): (k: nat)
    requires i <= |ls|
    ensures i <= k <= |ls|
    ensures k < |ls| ==> Acceptable(ls, k)
    ensures forall j :: i <= j < k ==> !Acceptable(ls, j)
    decreases |ls| - i
  {
    if i == |ls| then i else if Acceptable(ls, i) then i else FirstAcceptable(ls, i + 1)
  }

  /** Without the first occurrence of c. */
  function Delete(s: seq<ClassId>, c: ClassId): (t: seq<ClassId>)
    ensures |t| == if c in s then |s| - 1 else |s|
  {
    if s == [] then [] else if s[0] == c then s[1..] else [s[0]] + Delete(s[1..], c)
  }

  function DeleteAll(ls: seq<seq<ClassId>>, c: ClassId): (ms: seq<seq<ClassId>>)
    ensures |ms| == |ls| && forall i :: 0 <= i < |ls| ==> ms[i] == Delete(ls[i], c)
  {
    seq(|ls|, i requires 0 <= i < |ls| => Delete(ls[i], c))
  }

  function Total(ls: seq<seq<ClassId>>): nat {
    if ls == [] then 0 else Total(ls[..|ls| - 1]) + |ls[|ls| - 1]|
  }

  lemma {:induction false} TotalShrinks(ls: seq<seq<ClassId>>, ms: seq<seq<ClassId>>, k: nat)
    requires |ls| == |ms| && k < |ls| && |ms[k]| < |ls[k]|
    requires forall i :: 0 <= i < |ls| ==> |ms[i]| <= |ls[i]|
    ensures Total(ms) < Total(ls)
  {
    var n := |ls| - 1;
    if k < n {
      TotalShrinks(ls[..n], ms[..n], k);
    } else {
      TotalAtMost(ls[..n], ms[..n]);
    }
  }

  lemma {:induction false} TotalAtMost(ls: seq<seq<ClassId>>, ms: seq<seq<ClassId>>)
    requires |ls| == |ms|
    requires forall i :: 0 <= i < |ls| ==> |ms[i]| <= |ls[i]|
    ensures Total(ms) <= Total(ls)
  {
    if |ls| > 0 {
      TotalAtMost(ls[..|ls| - 1], ms[..|ms| - 1]);
    }
  }

  ghost predicate AllEmpty(ls: seq<seq<ClassId>>) {
    forall i :: 0 <= i < |ls| ==> ls[i] == []
  }

  lemma Shrinks(ls: seq<seq<ClassId>>, k: nat)
    requires k < |ls| && Acceptable(ls, k)
    ensures Total(DeleteAll(ls, ls[k][0])) < Total(ls)
  {
    TotalShrinks(ls, DeleteAll(ls, ls[k][0]), k);
  }

  /** What the recursive merge comes to. */
  ghost function Merge(ls: seq<seq<ClassId>>): Outcome
    decreases Total(ls)
  {
    if AllEmpty(ls) then Found([]) else
      var k := FirstAcceptable(ls, 0);
      if k == |ls| then Ambiguous else
        Shrinks(ls, k);
        match Merge(DeleteAll(ls, ls[k][0]))
        case Found(rest) => Found([ls[k][0]] + rest)
        case Ambiguous => Ambiguous
  }

  // ----- the result of a merge

  /** In duplicate-free lists the accepted class is a head or not there at all. */
  lemma AcceptedIsHead(ls: seq<seq<ClassId>>, k: nat, i: nat)
    requires AllDistinct(ls) && k < |ls| && Acceptable(ls, k) && i < |ls|
    ensures var c := ls[k][0];
      if |ls[i]| > 0 && ls[i][0] == c then Delete(ls[i], c) == ls[i][1..] else c !in ls[i] && Delete(ls[i], c) == ls[i]
  {
    var c, s := ls[k][0], ls[i];
    if |s| > 0 && s[0] != c {
      assert !InTail(c, s);
      assert s == [s[0]] + s[1..];
      NothingToDelete(s, c);
    }
  }

  lemma {:induction false} NothingToDelete(s: seq<ClassId>, c: ClassId)
    requires c !in s
    ensures Delete(s, c) == s
  {
    if |s| > 0 {
      NothingToDelete(s[1..], c);
    }
  }

  lemma StillDistinct(ls: seq<seq<ClassId>>, k: nat)
    requires AllDistinct(ls) && k < |ls| && Acceptable(ls, k)
    ensures AllDistinct(DeleteAll(ls, ls[k][0]))
  {
    forall i | 0 <= i < |ls|
      ensures Distinct(Delete(ls[i], ls[k][0]))
    {
      AcceptedIsHead(ls, k, i);
    }
  }

  /** The order found agrees with every list. */
  lemma {:induction false} MergeAgrees(ls: seq<seq<ClassId>>)
    requires AllDistinct(ls) && Merge(ls).Found?
    ensures Agrees(Merge(ls).order, ls)
    decreases Total(ls)
  {
    if !AllEmpty(ls) {
      var k := FirstAcceptable(ls, 0);
      var c := ls[k][0];
      var ms := DeleteAll(ls, c);
      Shrinks(ls, k);
      StillDistinct(ls, k);
      MergeAgrees(ms);
      var rest := Merge(ms).order;
      assert ([c] + rest)[1..] == rest;
      forall i | 0 <= i < |ls|
        ensures Subsequence(ls[i], [c] + rest)
      {
        AcceptedIsHead(ls, k, i);
        assert Subsequence(ms[i], rest);
      }
    }
  }

  ghost predicate InSome(c: ClassId, ls: seq<seq<ClassId>>) {
    exists i :: 0 <= i < |ls| && c in ls[i]
  }

  /** The order found lists every class of the lists once, and no other. */
  lemma {:induction false} MergeIsUnion(ls: seq<seq<ClassId>>)
    requires AllDistinct(ls) && Merge(ls).Found?
    ensures Distinct(Merge(ls).order)
    ensures forall c :: c in Merge(ls).order <==> InSome(c, ls)
    decreases Total(ls)
  {
    if !AllEmpty(ls) {
      var k := FirstAcceptable(ls, 0);
      var c := ls[k][0];
      Shrinks(ls, k);
      StillDistinct(ls, k);
      MergeIsUnion(DeleteAll(ls, c));
      Prepended(ls, k, Merge(DeleteAll(ls, c)).order);
    }
  }

  lemma Prepended(ls: seq<seq<ClassId>>, k: nat, rest: seq<ClassId>)
    requires AllDistinct(ls) && k < |ls| && Acceptable(ls, k)
    requires Distinct(rest) && forall c :: c in rest <==> InSome(c, DeleteAll(ls, ls[k][0]))
    ensures Distinct([ls[k][0]] + rest)
    ensures forall c :: c in [ls[k][0]] + rest <==> InSome(c, ls)
  {
    RestOfUnion(ls, k);
    assert ls[k][0] in ls[k];
    assert InSome(ls[k][0], ls);
    hide InSome, DeleteAll;
  }

  lemma RestOfUnion(ls: seq<seq<ClassId>>, k: nat)
    requires AllDistinct(ls) && k < |ls| && Acceptable(ls, k)
    ensures forall d :: InSome(d, DeleteAll(ls, ls[k][0])) <==> d != ls[k][0] && InSome(d, ls)
  {
    var c, ms := ls[k][0], DeleteAll(ls, ls[k][0]);
    forall d
      ensures InSome(d, ms) <==> d != c && InSome(d, ls)
    {
      forall i | 0 <= i < |ls|
        ensures d in ms[i] <==> d != c && d in ls[i]
      {
        AcceptedIsHead(ls, k, i);
        if |ls[i]| > 0 && ls[i][0] == c {
          assert ls[i] == [c] + ls[i][1..];
        }
      }
    }
  }

  // ----- when a merge fails

  lemma {:induction false} SubsequenceElements(s: seq<ClassId>, t: seq<ClassId>, c: ClassId)
    requires Subsequence(s, t) && c in s
    ensures c in t
    decreases |t|
  {
    if t != [] {
      if s[0] == t[0] {
        if c != s[0] {
          assert s == [s[0]] + s[1..];
          SubsequenceElements(s[1..], t[1..], c);
        }
      } else {
        SubsequenceElements(s, t[1..], c);
      }
    }
  }

  lemma {:induction false} SubsequenceTail(s: seq<ClassId>, t: seq<ClassId>)
    requires s != [] && Subsequence(s, t)
    ensures Subsequence(s[1..], t)
    decreases |t|, 1
  {
    if t != [] {
      if s[0] == t[0] {
        SubsequenceWider(s[1..], t);
      } else {
        SubsequenceTail(s, t[1..]);
        SubsequenceWider(s[1..], t);
      }
    }
  }

  lemma {:induction false} SubsequenceWider(s: seq<ClassId>, t: seq<ClassId>)
    requires t != [] && Subsequence(s, t[1..])
    ensures Subsequence(s, t)
    decreases |t|, 0
  {
    if s != [] && s[0] == t[0] {
      SubsequenceTail(s, t[1..]);
    }
  }

  lemma {:induction false} SubsequenceDistinct(s: seq<ClassId>, t: seq<ClassId>)
    requires Subsequence(s, t) && Distinct(t)
    ensures Distinct(s)
    decreases |t|
  {
    if t != [] && s != [] {
      if s[0] == t[0] {
        SubsequenceDistinct(s[1..], t[1..]);
        if s[0] in s[1..] {
          SubsequenceElements(s[1..], t[1..], s[0]);
          assert false;
        }
        assert s == [s[0]] + s[1..];
      } else {
        SubsequenceDistinct(s, t[1..]);
      }
    }
  }

  /** The first class of an agreeing order is in no tail. */
  lemma FirstIsNoTail(s: seq<ClassId>, t: seq<ClassId>)
    requires t != [] && Distinct(t) && Subsequence(s, t)
    ensures !InTail(t[0], s)
    ensures |s| > 0 && s[0] != t[0] ==> t[0] !in s && Subsequence(s, t[1..])
  {
    if InTail(t[0], s) {
      var u := if s[0] == t[0] then s[1..] else s;
      SubsequenceElements(u, t[1..], t[0]);
      assert false;
    }
    if |s| > 0 && s[0] != t[0] && t[0] in s {
      SubsequenceElements(s, t[1..], t[0]);
      assert false;
    }
  }

  /** As long as some order agrees with the lists, some list is acceptable. */
  lemma {:induction false} SomeAcceptable(ls: seq<seq<ClassId>>, t: seq<ClassId>) returns (k: nat)
    requires Distinct(t) && Agrees(t, ls) && !AllEmpty(ls)
    ensures k < |ls| && Acceptable(ls, k)
    decreases |t|
  {
    var n: nat :| n < |ls| && ls[n] != [];
    assert Subsequence(ls[n], t);
    forall i | 0 <= i < |ls|
      ensures !InTail(t[0], ls[i]) && (|ls[i]| > 0 && ls[i][0] != t[0] ==> Subsequence(ls[i], t[1..]))
    {
      FirstIsNoTail(ls[i], t);
    }
    if m: nat :| m < |ls| && ls[m] != [] && ls[m][0] == t[0] {
      k := m;
    } else {
      k := SomeAcceptable(ls, t[1..]);
    }
  }

  lemma {:induction false} AgreementSucceeds(ls: seq<seq<ClassId>>, t: seq<ClassId>)
    requires Distinct(t) && Agrees(t, ls)
    ensures Merge(ls).Found?
    decreases Total(ls)
  {
    if !AllEmpty(ls) {
      var m := SomeAcceptable(ls, t);
      var k := FirstAcceptable(ls, 0);
      var ms := DeleteAll(ls, ls[k][0]);
      Shrinks(ls, k);
      DistinctWhenAgreed(ls, t);
      forall i | 0 <= i < |ls|
        ensures Subsequence(ms[i], t)
      {
        AcceptedIsHead(ls, k, i);
        assert Subsequence(ls[i], t);
        if ls[i] != [] {
          SubsequenceTail(ls[i], t);
        }
      }
      AgreementSucceeds(ms, t);
    }
  }

  lemma DistinctWhenAgreed(ls: seq<seq<ClassId>>, t: seq<ClassId>)
    requires Distinct(t) && Agrees(t, ls)
    ensures AllDistinct(ls)
  {
    forall i | 0 <= i < |ls|
      ensures Distinct(ls[i])
    {
      assert Subsequence(ls[i], t);
      SubsequenceDistinct(ls[i], t);
    }
  }

  /** A merge of duplicate-free lists fails exactly when no total order agrees with all of them. */
  lemma FailsOnlyWithoutOrder(ls: seq<seq<ClassId>>)
    requires AllDistinct(ls)
    ensures Merge(ls).Found? <==> exists t: seq<ClassId> :: Distinct(t) && Agrees(t, ls)
  {
    if Merge(ls).Found? {
      MergeAgrees(ls);
      MergeIsUnion(ls);
      assert Distinct(Merge(ls).order) && Agrees(Merge(ls).order, ls);
    }
    if t: seq<ClassId> :| Distinct(t) && Agrees(t, ls) {
      AgreementSucceeds(ls, t);
    }
  }

  // ----- which of the agreeing orders a merge finds

  /** c is the first class of l that is not among those done. */
  ghost predicate FirstLeft(l: seq<ClassId>, done: seq<ClassId>, c: ClassId) {
    exists p: nat :: p < |l| && l[p] == c && c !in done && forall q: nat :: q < p ==> l[q] in done
  }

  /** c is left in l, behind another class that is left. */
  ghost predicate LeftBehind(l: seq<ClassId>, done: seq<ClassId>, c: ClassId) {
    exists p: nat, q: nat :: q < p < |l| && l[p] == c && c !in done && l[q] !in done
  }

  ghost predicate Waits(ls: seq<seq<ClassId>>, done: seq<ClassId>, c: ClassId) {
    exists m: nat :: m < |ls| && LeftBehind(ls[m], done, c)
  }

  /** c is next by list k: first there, waiting in no list, while the first of every list before k waits. */
  ghost predicate NextBy(ls: seq<seq<ClassId>>, done: seq<ClassId>, c: ClassId, k: nat) {
    && k < |ls| && FirstLeft(ls[k], done, c) && !Waits(ls, done, c)
    && forall j: nat, d: ClassId :: j < k && FirstLeft(ls[j], done, d) ==> Waits(ls, done, d)
  }

  /** The class at place i is next by some list when those before it are done. */
  ghost predicate ChosenAt(ls: seq<seq<ClassId>>, t: seq<ClassId>, i: nat) {
    i < |t| && exists k: nat :: NextBy(ls, t[..i], t[i], k)
  }

  /** t has the classes of the lists, each once, and chosen that way at every place. */
  ghost predicate C3Order(t: seq<ClassId>, ls: seq<seq<ClassId>>) {
    && Distinct(t) && (forall c :: c in t <==> InSome(c, ls))
    && forall i: nat :: i < |t| ==> ChosenAt(ls, t, i)
  }

  lemma FirstOfAll(l: seq<ClassId>, c: ClassId)
    ensures FirstLeft(l, [], c) <==> l != [] && l[0] == c
    ensures LeftBehind(l, [], c) <==> InTail(c, l)
  {
    if l != [] && l[0] == c {
      assert 0 < |l| && l[0] == c && c !in [];
    }
    if InTail(c, l) {
      var p: nat :| p < |l[1..]| && l[1..][p] == c;
      assert 0 < p + 1 < |l| && l[p + 1] == c;
    }
    if LeftBehind(l, [], c) {
      var p: nat, q: nat :| q < p < |l| && l[p] == c;
      assert l[1..][p - 1] == c;
    }
  }

  /** At the start the next class is the one the merge accepts. */
  lemma FirstChoice(ls: seq<seq<ClassId>>, c: ClassId, k: nat)
    requires AllDistinct(ls)
    ensures NextBy(ls, [], c, k) <==> k < |ls| && k == FirstAcceptable(ls, 0) && ls[k] != [] && ls[k][0] == c
  {
    forall l: seq<ClassId>, d: ClassId
      ensures FirstLeft(l, [], d) <==> l != [] && l[0] == d
      ensures LeftBehind(l, [], d) <==> InTail(d, l)
    {
      FirstOfAll(l, d);
    }
    hide FirstLeft, LeftBehind;
    forall i: nat | i < |ls| && ls[i] != []
      ensures Acceptable(ls, i) <==> !Waits(ls, [], ls[i][0])
    {
      HeadWaits(ls, i);
    }
    hide Waits;
    if NextBy(ls, [], c, k) {
      forall j: nat | j < k
        ensures !Acceptable(ls, j)
      {
        if ls[j] != [] {
          assert FirstLeft(ls[j], [], ls[j][0]);
        }
      }
      FirstIs(ls, 0, k);
    }
  }

  lemma {:induction false} FirstIs(ls: seq<seq<ClassId>>, i: nat, k: nat)
    requires i <= k < |ls| && Acceptable(ls, k) && forall j :: i <= j < k ==> !Acceptable(ls, j)
    ensures FirstAcceptable(ls, i) == k
    decreases k - i
  {
    if i < k {
      FirstIs(ls, i + 1, k);
    }
  }

  lemma HeadWaits(ls: seq<seq<ClassId>>, i: nat)
    requires AllDistinct(ls) && i < |ls| && ls[i] != []
    requires forall l: seq<ClassId>, d: ClassId :: LeftBehind(l, [], d) <==> InTail(d, l)
    ensures Acceptable(ls, i) <==> !Waits(ls, [], ls[i][0])
  {
    hide LeftBehind;
    var c := ls[i][0];
    HeadOnce(ls[i], c);
    if Waits(ls, [], c) {
      var m: nat :| m < |ls| && LeftBehind(ls[m], [], c);
      assert InTail(c, ls[m]) && m != i;
    }
    if !Acceptable(ls, i) {
      var m: nat :| m < |ls| && m != i && InTail(c, ls[m]);
      assert LeftBehind(ls[m], [], c);
    }
  }

  /** Deleting a done class from the front of a list makes no difference to what is left. */
  lemma LeftAfterDelete(l: seq<ClassId>, m: seq<ClassId>, c: ClassId, done: seq<ClassId>, d: ClassId)
    requires if l != [] && l[0] == c then m == l[1..] && c !in m else c !in l && m == l
    ensures FirstLeft(l, [c] + done, d) <==> FirstLeft(m, done, d)
    ensures LeftBehind(l, [c] + done, d) <==> LeftBehind(m, done, d)
  {
    var all := [c] + done;
    assert forall x :: x in all <==> x == c || x in done;
    hide FirstLeft, LeftBehind;
    if l != [] && l[0] == c {
      FirstLeftTail(l, c, done, all, d);
      LeftBehindTail(l, c, done, all, d);
    } else {
      SameLeft(l, done, all, d);
    }
  }

  lemma SameLeft(l: seq<ClassId>, done: seq<ClassId>, all: seq<ClassId>, d: ClassId)
    requires forall x :: x in l ==> (x in all <==> x in done)
    ensures FirstLeft(l, all, d) <==> FirstLeft(l, done, d)
    ensures LeftBehind(l, all, d) <==> LeftBehind(l, done, d)
  {
    if p: nat :| p < |l| && l[p] == d && d !in all && forall q: nat :: q < p ==> l[q] in all {
      assert p < |l| && l[p] == d && d !in done && forall q: nat :: q < p ==> l[q] in done;
    }
    if p: nat :| p < |l| && l[p] == d && d !in done && forall q: nat :: q < p ==> l[q] in done {
      assert p < |l| && l[p] == d && d !in all && forall q: nat :: q < p ==> l[q] in all;
    }
  }

  lemma FirstLeftTail(l: seq<ClassId>, c: ClassId, done: seq<ClassId>, all: seq<ClassId>, d: ClassId)
    requires l != [] && l[0] == c && c !in l[1..] && forall x :: x in all <==> x == c || x in done
    ensures FirstLeft(l, all, d) <==> FirstLeft(l[1..], done, d)
  {
    var m := l[1..];
    if FirstLeft(l, all, d) {
      var p: nat :| p < |l| && l[p] == d && d !in all && forall q: nat :: q < p ==> l[q] in all;
      assert p > 0 && m[p - 1] == d;
      forall q: nat | q < p - 1
        ensures m[q] in done
      {
        assert m[q] == l[q + 1];
      }
    }
    if FirstLeft(m, done, d) {
      var p: nat :| p < |m| && m[p] == d && d !in done && forall q: nat :: q < p ==> m[q] in done;
      assert l[p + 1] == d && d in m;
      forall q: nat | q < p + 1
        ensures l[q] in all
      {
        assert q > 0 ==> l[q] == m[q - 1];
      }
    }
  }

  lemma LeftBehindTail(l: seq<ClassId>, c: ClassId, done: seq<ClassId>, all: seq<ClassId>, d: ClassId)
    requires l != [] && l[0] == c && c !in l[1..] && forall x :: x in all <==> x == c || x in done
    ensures LeftBehind(l, all, d) <==> LeftBehind(l[1..], done, d)
  {
    var m := l[1..];
    if LeftBehind(l, all, d) {
      var p: nat, q: nat :| q < p < |l| && l[p] == d && d !in all && l[q] !in all;
      assert m[p - 1] == d && m[q - 1] == l[q];
    }
    if LeftBehind(m, done, d) {
      var p: nat, q: nat :| q < p < |m| && m[p] == d && d !in done && m[q] !in done;
      assert l[p + 1] == d && l[q + 1] == m[q] && d in m && m[q] in m;
    }
  }

  /** What is next in the remaining lists is next in the lists. */
  lemma NextAfterDelete(ls: seq<seq<ClassId>>, k0: nat, done: seq<ClassId>, d: ClassId, k: nat)
    requires AllDistinct(ls) && k0 < |ls| && Acceptable(ls, k0)
    ensures NextBy(ls, [ls[k0][0]] + done, d, k) <==> NextBy(DeleteAll(ls, ls[k0][0]), done, d, k)
  {
    var c, ms := ls[k0][0], DeleteAll(ls, ls[k0][0]);
    forall i: nat, x: ClassId | i < |ls|
      ensures FirstLeft(ls[i], [c] + done, x) <==> FirstLeft(ms[i], done, x)
      ensures LeftBehind(ls[i], [c] + done, x) <==> LeftBehind(ms[i], done, x)
    {
      AcceptedIsHead(ls, k0, i);
      HeadOnce(ls[i], c);
      LeftAfterDelete(ls[i], ms[i], c, done, x);
    }
    hide FirstLeft, LeftBehind, DeleteAll, Acceptable;
    SameNext(ls, ms, [c] + done, done, d, k);
  }

  lemma HeadOnce(l: seq<ClassId>, c: ClassId)
    requires Distinct(l)
    ensures l != [] && l[0] == c ==> c !in l[1..]
  {
  }

  lemma SameNext(ls: seq<seq<ClassId>>, ms: seq<seq<ClassId>>, all: seq<ClassId>, done: seq<ClassId>, d: ClassId,
                 k: nat)
    requires |ls| == |ms|
    requires forall i: nat, x: ClassId :: i < |ls| ==> (FirstLeft(ls[i], all, x) <==> FirstLeft(ms[i], done, x))
    requires forall i: nat, x: ClassId :: i < |ls| ==> (LeftBehind(ls[i], all, x) <==> LeftBehind(ms[i], done, x))
    ensures NextBy(ls, all, d, k) <==> NextBy(ms, done, d, k)
  {
    hide FirstLeft, LeftBehind;
    forall x: ClassId
      ensures Waits(ls, all, x) <==> Waits(ms, done, x)
    {
      if m: nat :| m < |ls| && LeftBehind(ls[m], all, x) {
        assert LeftBehind(ms[m], done, x);
      }
      if m: nat :| m < |ms| && LeftBehind(ms[m], done, x) {
        assert LeftBehind(ls[m], all, x);
      }
    }
  }

  /** A merge finds t exactly if t is the order these choices make. */
  lemma {:induction false} MergeIsC3Order(ls: seq<seq<ClassId>>, t: seq<ClassId>)
    requires AllDistinct(ls)
    ensures Merge(ls) == Found(t) <==> C3Order(t, ls)
    decreases Total(ls)
  {
    hide *;
    if AllEmpty(ls) {
      NothingToOrder(ls, t);
    } else {
      var k := FirstAcceptable(ls, 0);
      if k == |ls| {
        MergeFails(ls);
        NothingNext(ls, t);
      } else {
        Shrinks(ls, k);
        StillDistinct(ls, k);
        AcceptableHead(ls, k);
        if t != [] {
          MergeIsC3Order(DeleteAll(ls, ls[k][0]), t[1..]);
        }
        MergeStep(ls, k, t);
        OrderStep(ls, k, t);
      }
    }
  }

  lemma MergeFails(ls: seq<seq<ClassId>>)
    requires !AllEmpty(ls) && FirstAcceptable(ls, 0) == |ls|
    ensures Merge(ls) == Ambiguous
  {
  }

  lemma MergeStep(ls: seq<seq<ClassId>>, k: nat, t: seq<ClassId>)
    requires !AllEmpty(ls) && k == FirstAcceptable(ls, 0) < |ls| && ls[k] != []
    ensures Merge(ls) == Found(t) <==> t != [] && t[0] == ls[k][0] && Merge(DeleteAll(ls, ls[k][0])) == Found(t[1..])
  {
    hide FirstAcceptable, AllEmpty, DeleteAll;
    var c, rest := ls[k][0], Merge(DeleteAll(ls, ls[k][0]));
    if rest.Found? {
      assert ([c] + rest.order)[1..] == rest.order;
      if t != [] {
        assert t == [t[0]] + t[1..];
      }
    }
  }

  lemma NothingToOrder(ls: seq<seq<ClassId>>, t: seq<ClassId>)
    requires AllEmpty(ls)
    ensures C3Order(t, ls) <==> t == []
    ensures Merge(ls) == Found([])
  {
    hide ChosenAt;
    forall c
      ensures !InSome(c, ls)
    {
    }
    if t != [] {
      assert t[0] in t;
    }
  }

  /** Where nothing is acceptable there is no such order. */
  lemma NothingNext(ls: seq<seq<ClassId>>, t: seq<ClassId>)
    requires AllDistinct(ls) && !AllEmpty(ls) && FirstAcceptable(ls, 0) == |ls|
    ensures !C3Order(t, ls)
  {
    hide ChosenAt;
    if C3Order(t, ls) {
      SomethingThere(ls, t);
      ChosenFirst(ls, t);
      assert false;
    }
  }

  lemma ChosenFirst(ls: seq<seq<ClassId>>, t: seq<ClassId>)
    requires AllDistinct(ls) && t != []
    ensures var k := FirstAcceptable(ls, 0); ChosenAt(ls, t, 0) <==> k < |ls| && ls[k] != [] && ls[k][0] == t[0]
  {
    hide NextBy, FirstAcceptable;
    assert t[..0] == [];
    FirstChoice(ls, t[0], FirstAcceptable(ls, 0));
    if ChosenAt(ls, t, 0) {
      var j: nat :| NextBy(ls, t[..0], t[0], j);
      FirstChoice(ls, t[0], j);
    }
  }

  lemma ChosenLater(ls: seq<seq<ClassId>>, k: nat, t: seq<ClassId>, i: nat)
    requires AllDistinct(ls) && k < |ls| && Acceptable(ls, k) && t != [] && t[0] == ls[k][0]
    ensures ChosenAt(ls, t, i + 1) <==> ChosenAt(DeleteAll(ls, ls[k][0]), t[1..], i)
  {
    AcceptableHead(ls, k);
    hide NextBy, Acceptable, DeleteAll;
    var ms, u := DeleteAll(ls, ls[k][0]), t[1..];
    if i < |u| {
      assert t[..i + 1] == [t[0]] + u[..i] && t[i + 1] == u[i];
      if ChosenAt(ls, t, i + 1) {
        var j: nat :| NextBy(ls, t[..i + 1], t[i + 1], j);
        NextAfterDelete(ls, k, u[..i], u[i], j);
      }
      if ChosenAt(ms, u, i) {
        var j: nat :| NextBy(ms, u[..i], u[i], j);
        NextAfterDelete(ls, k, u[..i], u[i], j);
      }
    }
  }

  lemma SomethingThere(ls: seq<seq<ClassId>>, t: seq<ClassId>)
    requires !AllEmpty(ls) && forall c :: c in t <==> InSome(c, ls)
    ensures t != []
  {
    var i: nat :| i < |ls| && ls[i] != [];
    assert ls[i][0] in ls[i];
    assert InSome(ls[i][0], ls);
  }

  /** Such an order starts with the accepted class and goes on as one for the remaining lists. */
  lemma OrderStep(ls: seq<seq<ClassId>>, k: nat, t: seq<ClassId>)
    requires AllDistinct(ls) && !AllEmpty(ls) && k == FirstAcceptable(ls, 0) < |ls|
    ensures C3Order(t, ls) <==> t != [] && t[0] == ls[k][0] && C3Order(t[1..], DeleteAll(ls, ls[k][0]))
  {
    AcceptableHead(ls, k);
    hide ChosenAt, FirstAcceptable, Acceptable, DeleteAll, InSome;
    if C3Order(t, ls) {
      SomethingThere(ls, t);
      ChosenFirst(ls, t);
      RestInOrder(ls, k, t);
    }
    if t != [] && t[0] == ls[k][0] && C3Order(t[1..], DeleteAll(ls, ls[k][0])) {
      WholeInOrder(ls, k, t);
    }
  }

  lemma RestInOrder(ls: seq<seq<ClassId>>, k: nat, t: seq<ClassId>)
    requires AllDistinct(ls) && k < |ls| && Acceptable(ls, k) && t != [] && t[0] == ls[k][0] && C3Order(t, ls)
    ensures C3Order(t[1..], DeleteAll(ls, ls[k][0]))
  {
    AcceptableHead(ls, k);
    hide ChosenAt, Acceptable, DeleteAll, InSome;
    var ms, u := DeleteAll(ls, ls[k][0]), t[1..];
    RestOfUnion(ls, k);
    HeadOnce(t, t[0]);
    forall c
      ensures c in u <==> InSome(c, ms)
    {
      assert t == [t[0]] + u;
      assert c in t <==> c == t[0] || c in u;
    }
    forall i: nat | i < |u|
      ensures ChosenAt(ms, u, i)
    {
      assert ChosenAt(ls, t, i + 1);
      ChosenLater(ls, k, t, i);
    }
  }

  lemma WholeInOrder(ls: seq<seq<ClassId>>, k: nat, t: seq<ClassId>)
    requires AllDistinct(ls) && !AllEmpty(ls) && k == FirstAcceptable(ls, 0) < |ls| && t != [] && t[0] == ls[k][0]
    requires C3Order(t[1..], DeleteAll(ls, ls[k][0]))
    ensures C3Order(t, ls)
  {
    AcceptableHead(ls, k);
    hide ChosenAt, FirstAcceptable, Acceptable, DeleteAll, InSome;
    var ms, u := DeleteAll(ls, ls[k][0]), t[1..];
    Prepended(ls, k, u);
    assert t == [t[0]] + u;
    forall i: nat | i < |t|
      ensures ChosenAt(ls, t, i)
    {
      if i == 0 {
        ChosenFirst(ls, t);
      } else {
        assert ChosenAt(ms, u, i - 1);
        ChosenLater(ls, k, t, i - 1);
      }
    }
  }

  lemma AcceptableHead(ls: seq<seq<ClassId>>, k: nat)
    requires k < |ls| && Acceptable(ls, k)
    ensures ls[k] != []
  {
  }

  // ----- the merge as the C code does it

  method FindAcceptable(lists: array<seq<ClassId>>) returns (accepted: nat, candCount: nat)
    ensures candCount == 0 <==> AllEmpty(lists[..])
    ensures accepted == FirstAcceptable(lists[..], 0)
  {
    accepted := lists.Length;
    candCount := 0;
    ghost var ls := lists[..];
    var i := 0;
    while i < lists.Length
      invariant 0 <= i <= lists.Length && accepted == lists.Length
      invariant candCount == 0 <==> forall j :: 0 <= j < i ==> ls[j] == []
      invariant FirstAcceptable(ls, 0) == FirstAcceptable(ls, i)
    {
      if |lists[i]| > 0 {
        var candClass := lists[i][0];
        candCount := candCount + 1;
        var reject := RejectedBy(lists, i, candClass);
        if !reject {
          accepted := i;
          break;
        }
      }
      i := i + 1;
    }
  }

  /** Is the candidate of list i in the tail of another list? */
  method RejectedBy(lists: array<seq<ClassId>>, i: nat, candClass: ClassId) returns (reject: bool)
    requires i < lists.Length && |lists[i]| > 0 && candClass == lists[i][0]
    ensures reject <==> !Acceptable(lists[..], i)
  {
    reject := false;
    var j := 0;
    while j < lists.Length
      invariant 0 <= j <= lists.Length
      invariant reject <==> exists m :: 0 <= m < j && m != i && InTail(candClass, lists[..][m])
    {
      if j != i {
        var k := 1;
        while k < |lists[j]|
          invariant 1 <= k && (k <= |lists[j]| || |lists[j]| == 0)
          invariant forall m :: 1 <= m < k && m < |lists[j]| ==> lists[j][m] != candClass
        {
          if lists[j][k] == candClass {
            reject := true;
            break;
          }
          k := k + 1;
        }
      }
      j := j + 1;
    }
  }

  /** The deletion loops: the first occurrence of accepted goes from every list. */
  method DeleteAccepted(lists: array<seq<ClassId>>, accepted: ClassId)
    modifies lists
    ensures lists[..] == DeleteAll(old(lists[..]), accepted)
  {
    ghost var ls := lists[..];
    var i := 0;
    while i < lists.Length
      invariant 0 <= i <= lists.Length
      invariant forall m :: 0 <= m < i ==> lists[m] == Delete(ls[m], accepted)
      invariant forall m :: i <= m < lists.Length ==> lists[m] == ls[m]
    {
      lists[i] := DeleteFrom(lists[i], accepted);
      i := i + 1;
    }
  }

  method DeleteFrom(list: seq<ClassId>, accepted: ClassId) returns (rest: seq<ClassId>)
    ensures rest == Delete(list, accepted)
  {
    hide Delete;
    var j := 0;
    assert list[..0] + Delete(list[0..], accepted) == Delete(list, accepted) by { assert list[0..] == list; }
    while j < |list|
      invariant 0 <= j <= |list|
      invariant Delete(list, accepted) == list[..j] + Delete(list[j..], accepted)
    {
      DeleteStep(list[j..], accepted);
      assert list[j..][1..] == list[j + 1..];
      if list[j] == accepted {
        return list[..j] + list[j + 1..];
      }
      PrefixGrows(list, j, Delete(list[j + 1..], accepted));
      j := j + 1;
    }
    DeleteStep([], accepted);
    assert list[j..] == [] && list[..j] == list;
    rest := list;
  }

  lemma DeleteStep(s: seq<ClassId>, c: ClassId)
    ensures s == [] ==> Delete(s, c) == []
    ensures s != [] ==> Delete(s, c) == if s[0] == c then s[1..] else [s[0]] + Delete(s[1..], c)
  {
  }

  lemma PrefixGrows(s: seq<ClassId>, j: nat, t: seq<ClassId>)
    requires j < |s|
    ensures s[..j] + ([s[j]] + t) == s[..j + 1] + t
  {
    assert s[..j + 1] == s[..j] + [s[j]];
  }

  /** C3_merge; Ambiguous stands for the exception. The lists are used up. */
  method C3Merge(lists: array<seq<ClassId>>) returns (result: Outcome)
    modifies lists
    ensures result == Merge(old(lists[..]))
    ensures AllDistinct(old(lists[..])) ==> forall t :: result == Found(t) <==> C3Order(t, old(lists[..]))
    decreases Total(lists[..])
  {
    ghost var ls := lists[..];
    if AllDistinct(ls) {
      forall t
        ensures Merge(ls) == Found(t) <==> C3Order(t, ls)
      {
        MergeIsC3Order(ls, t);
      }
    }
    hide C3Order, AllDistinct;
    var accepted, candCount := FindAcceptable(lists);
    if candCount == 0 {
      return Found([]);
    }
    if accepted == lists.Length {
      return Ambiguous;
    }
    var c := lists[accepted][0];
    Shrinks(lists[..], accepted);
    DeleteAccepted(lists, c);
    result := C3Merge(lists);
    if result.Found? {
      result := Found([c] + result.order);
    }
  }

  // ----- the resolution order over a hierarchy

  /** The direct parents of each class, as the inspect call returns them. */
  type Hierarchy = ClassId -> seq<ClassId>

  /** The parents of a class are distinct and rank below it. */
  ghost predicate Acyclic(parents: Hierarchy, rank: ClassId -> nat) {
    forall c :: Distinct(parents(c)) && RanksBelow(parents(c), rank, rank(c))
  }

  ghost predicate RanksBelow(s: seq<ClassId>, rank: ClassId -> nat, r: nat) {
    forall i :: 0 <= i < |s| ==> rank(s[i]) < r
  }

  /** a is c or an ancestor of c. */
  ghost predicate Inherits(parents: Hierarchy, rank: ClassId -> nat, c: ClassId, a: ClassId)
    requires Acyclic(parents, rank)
    decreases rank(c)
  {
    assert RanksBelow(parents(c), rank, rank(c));
    a == c || exists i: nat :: i < |parents(c)| && Inherits(parents, rank, parents(c)[i], a)
  }

  /** The linearizations of the first n parents of c. */
  ghost function Linearizations(parents: Hierarchy, rank: ClassId -> nat, c: ClassId, n: nat): (r: (bool,
                                seq<seq<ClassId>>))
    requires Acyclic(parents, rank) && n <= |parents(c)|
    ensures |r.1| <= n && (r.0 ==> |r.1| == n)
    decreases rank(c), 0, n
  {
    if n == 0 then (true, []) else
      assert RanksBelow(parents(c), rank, rank(c));
      var before := Linearizations(parents, rank, c, n - 1);
      if !before.0 then before else
        match MRO(parents, rank, parents(c)[n - 1])
        case Found(order) => (true, before.1 + [order])
        case Ambiguous => (false, before.1)
  }

  ghost function MRO(parents: Hierarchy, rank: ClassId -> nat, c: ClassId): Outcome
    requires Acyclic(parents, rank)
    decreases rank(c), 1
  {
    if parents(c) == [] then Found([c]) else
      var lins := Linearizations(parents, rank, c, |parents(c)|);
      if !lins.0 then Ambiguous else
        match Merge(lins.1 + [parents(c)])
        case Found(order) => Found([c] + order)
        case Ambiguous => Ambiguous
  }

  /** The class itself, and then the C3 order for its parents' orders, in the order of the parents, and their list. */
  ghost predicate IsC3(parents: Hierarchy, rank: ClassId -> nat, c: ClassId, order: seq<ClassId>)
    requires Acyclic(parents, rank)
    decreases rank(c)
  {
    assert RanksBelow(parents(c), rank, rank(c));
    && order != [] && order[0] == c
    && exists ls: seq<seq<ClassId>> :: C3Order(order[1..], ls) && |ls| == |parents(c)| + 1
         && ls[|parents(c)|] == parents(c)
         && forall i: nat :: i < |parents(c)| ==> IsC3(parents, rank, parents(c)[i], ls[i])
  }

  method ComputeMRO(parents: Hierarchy, ghost rank: ClassId -> nat, c: ClassId) returns (result: Outcome)
    requires Acyclic(parents, rank)
    ensures result == MRO(parents, rank, c)
    ensures forall order :: result == Found(order) <==> IsC3(parents, rank, c, order)
    decreases rank(c)
  {
    hide *;
    MROIsC3All(parents, rank, c);
    ParentsBelow(parents, rank, c);
    NoLinearizations(parents, rank, c);
    var immediate := parents(c);
    if |immediate| == 0 {
      return Found([c]);
    }
    var mergeList: seq<seq<ClassId>> := [];
    var i := 0;
    while i < |immediate|
      invariant 0 <= i <= |immediate|
      invariant Linearizations(parents, rank, c, i) == (true, mergeList)
    {
      var lin := ComputeMRO(parents, rank, immediate[i]);
      NextLinearization(parents, rank, c, i);
      if lin.Ambiguous? {
        StaysFailed(parents, rank, c, i + 1, |immediate|);
        NoOrder(parents, rank, c);
        return Ambiguous;
      }
      mergeList := mergeList + [lin.order];
      i := i + 1;
    }
    OrderByMerge(parents, rank, c, mergeList);
    mergeList := mergeList + [immediate];
    var lists := new seq<ClassId>[|mergeList|](j requires 0 <= j < |mergeList| => mergeList[j]);
    assert lists[..] == mergeList;
    result := C3Merge(lists);
    if result.Found? {
      result := Found([c] + result.order);
    }
  }

  lemma ParentsBelow(parents: Hierarchy, rank: ClassId -> nat, c: ClassId)
    requires Acyclic(parents, rank)
    ensures forall i :: 0 <= i < |parents(c)| ==> rank(parents(c)[i]) < rank(c)
  {
    assert RanksBelow(parents(c), rank, rank(c));
  }

  lemma NoLinearizations(parents: Hierarchy, rank: ClassId -> nat, c: ClassId)
    requires Acyclic(parents, rank)
    ensures Linearizations(parents, rank, c, 0) == (true, [])
    ensures parents(c) == [] ==> MRO(parents, rank, c) == Found([c])
  {
  }

  lemma NextLinearization(parents: Hierarchy, rank: ClassId -> nat, c: ClassId, i: nat)
    requires Acyclic(parents, rank) && i < |parents(c)| && Linearizations(parents, rank, c, i).0
    ensures var before, lin := Linearizations(parents, rank, c, i).1, MRO(parents, rank, parents(c)[i]);
      Linearizations(parents, rank, c, i + 1) == if lin.Found? then (true, before + [lin.order]) else (false, before)
  {
    hide MRO;
  }

  lemma NoOrder(parents: Hierarchy, rank: ClassId -> nat, c: ClassId)
    requires Acyclic(parents, rank) && parents(c) != [] && !Linearizations(parents, rank, c, |parents(c)|).0
    ensures MRO(parents, rank, c) == Ambiguous
  {
    hide Linearizations, Merge;
  }

  lemma OrderByMerge(parents: Hierarchy, rank: ClassId -> nat, c: ClassId, ls: seq<seq<ClassId>>)
    requires Acyclic(parents, rank) && parents(c) != []
    requires Linearizations(parents, rank, c, |parents(c)|) == (true, ls)
    ensures var merged := Merge(ls + [parents(c)]);
      MRO(parents, rank, c) == if merged.Found? then Found([c] + merged.order) else Ambiguous
  {
    hide Linearizations, Merge;
  }

  lemma {:induction false} StaysFailed(parents: Hierarchy, rank: ClassId -> nat, c: ClassId, n: nat, m: nat)
    requires Acyclic(parents, rank) && n <= m <= |parents(c)| && !Linearizations(parents, rank, c, n).0
    ensures !Linearizations(parents, rank, c, m).0
    decreases m
  {
    if n < m {
      StaysFailed(parents, rank, c, n, m - 1);
    }
  }

  lemma {:induction false} LinearizationAt(parents: Hierarchy, rank: ClassId -> nat, c: ClassId, n: nat, i: nat)
    requires Acyclic(parents, rank) && i < n <= |parents(c)| && Linearizations(parents, rank, c, n).0
    ensures MRO(parents, rank, parents(c)[i]).Found?
    ensures |Linearizations(parents, rank, c, n).1| == n
    ensures Linearizations(parents, rank, c, n).1[i] == MRO(parents, rank, parents(c)[i]).order
    decreases n
  {
    assert RanksBelow(parents(c), rank, rank(c));
    if i < n - 1 {
      LinearizationAt(parents, rank, c, n - 1, i);
    }
  }

  // ----- what a resolution order promises

  lemma {:induction false} InheritsRank(parents: Hierarchy, rank: ClassId -> nat, c: ClassId, a: ClassId)
    requires Acyclic(parents, rank) && Inherits(parents, rank, c, a)
    ensures rank(a) <= rank(c) && (a != c ==> rank(a) < rank(c))
    decreases rank(c)
  {
    assert RanksBelow(parents(c), rank, rank(c));
    if a != c {
      var i: nat :| i < |parents(c)| && Inherits(parents, rank, parents(c)[i], a);
      InheritsRank(parents, rank, parents(c)[i], a);
    }
  }

  /** The class first, every class it inherits from once and no other, its parents in their order. */
  ghost predicate IsLinearization(parents: Hierarchy, rank: ClassId -> nat, c: ClassId, order: seq<ClassId>)
    requires Acyclic(parents, rank)
  {
    && |order| > 0 && order[0] == c
    && Distinct(order)
    && (forall a :: a in order <==> Inherits(parents, rank, c, a))
    && Subsequence(parents(c), order)
  }

  /** The lists the merge for c starts from. */
  ghost function MergeList(parents: Hierarchy, rank: ClassId -> nat, c: ClassId): seq<seq<ClassId>>
    requires Acyclic(parents, rank)
  {
    Linearizations(parents, rank, c, |parents(c)|).1 + [parents(c)]
  }

  /** The order of every parent is kept. */
  ghost predicate KeepsParents(parents: Hierarchy, rank: ClassId -> nat, c: ClassId, order: seq<ClassId>)
    requires Acyclic(parents, rank)
  {
    forall i :: 0 <= i < |parents(c)| ==> KeepsOrderOf(parents, rank, parents(c)[i], order)
  }

  ghost predicate KeepsOrderOf(parents: Hierarchy, rank: ClassId -> nat, p: ClassId, order: seq<ClassId>)
    requires Acyclic(parents, rank)
  {
    MRO(parents, rank, p).Found? && Subsequence(MRO(parents, rank, p).order, order)
  }

  lemma {:induction false} MROIsLinearization(parents: Hierarchy, rank: ClassId -> nat, c: ClassId)
    requires Acyclic(parents, rank) && MRO(parents, rank, c).Found?
    ensures IsLinearization(parents, rank, c, MRO(parents, rank, c).order)
    ensures KeepsParents(parents, rank, c, MRO(parents, rank, c).order)
    decreases rank(c)
  {
    var n := |parents(c)|;
    assert RanksBelow(parents(c), rank, rank(c));
    if n > 0 {
      var ls := MergeList(parents, rank, c);
      forall i | 0 <= i < n
        ensures MRO(parents, rank, parents(c)[i]).Found? && ls[i] == MRO(parents, rank, parents(c)[i]).order
        ensures IsLinearization(parents, rank, parents(c)[i], ls[i])
      {
        LinearizationAt(parents, rank, c, n, i);
        MROIsLinearization(parents, rank, parents(c)[i]);
      }
      ParentsCover(parents, rank, c, ls);
      MergeIsUnion(ls);
      MergeAgrees(ls);
      WithClassFirst(parents, rank, c, ls, Merge(ls).order);
    }
  }

  /** The lists to merge hold every class c inherits from, and not c itself. */
  lemma ParentsCover(parents: Hierarchy, rank: ClassId -> nat, c: ClassId, ls: seq<seq<ClassId>>)
    requires Acyclic(parents, rank) && |ls| == |parents(c)| + 1 && ls[|parents(c)|] == parents(c)
    requires forall i :: 0 <= i < |parents(c)| ==> IsLinearization(parents, rank, parents(c)[i], ls[i])
    ensures AllDistinct(ls)
    ensures forall a :: InSome(a, ls) <==> a != c && Inherits(parents, rank, c, a)
  {
    var n := |parents(c)|;
    forall a
      ensures InSome(a, ls) <==> a != c && Inherits(parents, rank, c, a)
    {
      Covers(parents, rank, c, ls, a);
    }
  }

  lemma Covers(parents: Hierarchy, rank: ClassId -> nat, c: ClassId, ls: seq<seq<ClassId>>, a: ClassId)
    requires Acyclic(parents, rank) && |ls| == |parents(c)| + 1 && ls[|parents(c)|] == parents(c)
    requires forall i :: 0 <= i < |parents(c)| ==> IsLinearization(parents, rank, parents(c)[i], ls[i])
    ensures InSome(a, ls) <==> a != c && Inherits(parents, rank, c, a)
  {
    var n := |parents(c)|;
    assert RanksBelow(parents(c), rank, rank(c));
    if InSome(a, ls) {
      var i: nat :| i < |ls| && a in ls[i];
      var j: nat;
      if i < n {
        j := i;
      } else {
        j :| j < n && parents(c)[j] == a;
      }
      assert IsLinearization(parents, rank, parents(c)[j], ls[j]);
      assert Inherits(parents, rank, parents(c)[j], a);
      InheritsRank(parents, rank, parents(c)[j], a);
    }
    if a != c && Inherits(parents, rank, c, a) {
      var j: nat :| j < n && Inherits(parents, rank, parents(c)[j], a);
      assert IsLinearization(parents, rank, parents(c)[j], ls[j]);
      assert a in ls[j];
    }
  }

  lemma WithClassFirst(parents: Hierarchy, rank: ClassId -> nat, c: ClassId, ls: seq<seq<ClassId>>, rest: seq<ClassId>)
    requires Acyclic(parents, rank) && |ls| == |parents(c)| + 1 && ls[|parents(c)|] == parents(c)
    requires forall i :: 0 <= i < |parents(c)| ==>
      MRO(parents, rank, parents(c)[i]).Found? && ls[i] == MRO(parents, rank, parents(c)[i]).order
    requires Distinct(rest) && Agrees(rest, ls)
    requires forall a :: a in rest <==> a != c && Inherits(parents, rank, c, a)
    ensures IsLinearization(parents, rank, c, [c] + rest) && KeepsParents(parents, rank, c, [c] + rest)
  {
    var order := [c] + rest;
    assert order[1..] == rest;
    forall i | 0 <= i < |ls|
      ensures Subsequence(ls[i], order)
    {
      assert Subsequence(ls[i], rest);
      SubsequenceWider(ls[i], order);
    }
    assert Inherits(parents, rank, c, c);
    hide MRO, Inherits;
  }

  lemma {:induction false} SubsequenceTransitive(s: seq<ClassId>, t: seq<ClassId>, u: seq<ClassId>)
    requires Subsequence(s, t) && Subsequence(t, u)
    ensures Subsequence(s, u)
    decreases |u|
  {
    if u != [] && t != [] && s != [] {
      if t[0] == u[0] {
        if s[0] == t[0] {
          SubsequenceTransitive(s[1..], t[1..], u[1..]);
        } else {
          SubsequenceTransitive(s, t[1..], u[1..]);
        }
      } else {
        SubsequenceTransitive(s, t, u[1..]);
        SubsequenceWider(s, u);
      }
    }
  }

  lemma {:induction false} SubsequenceSelf(s: seq<ClassId>)
    ensures Subsequence(s, s)
  {
    if s != [] {
      SubsequenceSelf(s[1..]);
    }
  }

  /** A class resolves its ancestors in the order each of them does. */
  lemma {:induction false} Monotone(parents: Hierarchy, rank: ClassId -> nat, c: ClassId, a: ClassId)
    requires Acyclic(parents, rank) && Inherits(parents, rank, c, a) && MRO(parents, rank, c).Found?
    ensures KeepsOrderOf(parents, rank, a, MRO(parents, rank, c).order)
    decreases rank(c)
  {
    assert RanksBelow(parents(c), rank, rank(c));
    var order := MRO(parents, rank, c).order;
    MROIsLinearization(parents, rank, c);
    if a == c {
      SubsequenceSelf(order);
    } else {
      var i: nat :| i < |parents(c)| && Inherits(parents, rank, parents(c)[i], a);
      assert KeepsOrderOf(parents, rank, parents(c)[i], order);
      Monotone(parents, rank, parents(c)[i], a);
      SubsequenceTransitive(MRO(parents, rank, a).order, MRO(parents, rank, parents(c)[i]).order, order);
    }
  }

  /** A class has no order exactly if a parent has none or no order agrees with the parents' orders and their list. */
  lemma AmbiguousWhen(parents: Hierarchy, rank: ClassId -> nat, c: ClassId)
    requires Acyclic(parents, rank)
    ensures MRO(parents, rank, c).Found? <==>
      (forall i :: 0 <= i < |parents(c)| ==> MRO(parents, rank, parents(c)[i]).Found?)
      && exists t: seq<ClassId> :: Distinct(t) && Agrees(t, MergeList(parents, rank, c))
  {
    var n := |parents(c)|;
    assert RanksBelow(parents(c), rank, rank(c));
    var ls := MergeList(parents, rank, c);
    if forall i :: 0 <= i < n ==> MRO(parents, rank, parents(c)[i]).Found? {
      AllFound(parents, rank, c, n);
      forall i | 0 <= i < n
        ensures Distinct(ls[i])
      {
        LinearizationAt(parents, rank, c, n, i);
        MROIsLinearization(parents, rank, parents(c)[i]);
      }
      assert Distinct(ls[n]);
      FailsOnlyWithoutOrder(ls);
      if n == 0 {
        MergeNothing(ls);
      }
    } else if MRO(parents, rank, c).Found? {
      var i: nat :| i < n && MRO(parents, rank, parents(c)[i]).Ambiguous?;
      LinearizationAt(parents, rank, c, n, i);
      assert false;
    }
  }

  /** The order found is the one C3 order, and there is one whenever C3 orders exist for all. */
  lemma {:induction false} MROIsC3(parents: Hierarchy, rank: ClassId -> nat, c: ClassId, order: seq<ClassId>)
    requires Acyclic(parents, rank)
    ensures MRO(parents, rank, c) == Found(order) <==> IsC3(parents, rank, c, order)
    decreases rank(c)
  {
    var n := |parents(c)|;
    assert RanksBelow(parents(c), rank, rank(c));
    forall i: nat, o: seq<ClassId> | i < n
      ensures MRO(parents, rank, parents(c)[i]) == Found(o) <==> IsC3(parents, rank, parents(c)[i], o)
    {
      MROIsC3(parents, rank, parents(c)[i], o);
    }
    if MRO(parents, rank, c) == Found(order) {
      FoundIsC3(parents, rank, c, order);
    }
    if IsC3(parents, rank, c, order) {
      C3IsFound(parents, rank, c, order);
    }
  }

  lemma MROIsC3All(parents: Hierarchy, rank: ClassId -> nat, c: ClassId)
    requires Acyclic(parents, rank)
    ensures forall order :: MRO(parents, rank, c) == Found(order) <==> IsC3(parents, rank, c, order)
  {
    forall order
      ensures MRO(parents, rank, c) == Found(order) <==> IsC3(parents, rank, c, order)
    {
      MROIsC3(parents, rank, c, order);
    }
  }

  /** For each parent the two agree. */
  ghost predicate ParentsAgree(parents: Hierarchy, rank: ClassId -> nat, c: ClassId)
    requires Acyclic(parents, rank)
  {
    forall i: nat, o: seq<ClassId> :: i < |parents(c)| ==>
      (MRO(parents, rank, parents(c)[i]) == Found(o) <==> IsC3(parents, rank, parents(c)[i], o))
  }

  lemma FoundIsC3(parents: Hierarchy, rank: ClassId -> nat, c: ClassId, order: seq<ClassId>)
    requires Acyclic(parents, rank) && ParentsAgree(parents, rank, c) && MRO(parents, rank, c) == Found(order)
    ensures IsC3(parents, rank, c, order)
  {
    hide C3Order, Merge;
    var n := |parents(c)|;
    if n == 0 {
      NothingToOrder([parents(c)], []);
      assert order[1..] == [];
      assert C3Order(order[1..], [parents(c)]);
    } else {
      var ls := MergeList(parents, rank, c);
      ListsOfParents(parents, rank, c);
      MergeIsC3Order(ls, order[1..]);
      assert order == [c] + order[1..];
      assert C3Order(order[1..], ls);
    }
  }

  /** The lists merged are the parents' orders and the list of the parents, all without duplicates. */
  lemma ListsOfParents(parents: Hierarchy, rank: ClassId -> nat, c: ClassId)
    requires Acyclic(parents, rank) && Linearizations(parents, rank, c, |parents(c)|).0
    ensures var ls := MergeList(parents, rank, c);
      && |ls| == |parents(c)| + 1 && ls[|parents(c)|] == parents(c) && AllDistinct(ls)
      && forall i: nat :: i < |parents(c)| ==> MRO(parents, rank, parents(c)[i]) == Found(ls[i])
  {
    var n := |parents(c)|;
    var ls := MergeList(parents, rank, c);
    hide MRO, Linearizations;
    assert Distinct(parents(c));
    forall i: nat | i < n
      ensures MRO(parents, rank, parents(c)[i]) == Found(ls[i]) && Distinct(ls[i])
    {
      LinearizationAt(parents, rank, c, n, i);
      MROIsLinearization(parents, rank, parents(c)[i]);
    }
  }

  lemma C3IsFound(parents: Hierarchy, rank: ClassId -> nat, c: ClassId, order: seq<ClassId>)
    requires Acyclic(parents, rank) && ParentsAgree(parents, rank, c) && IsC3(parents, rank, c, order)
    ensures MRO(parents, rank, c) == Found(order)
  {
    hide *;
    var ls := ListsBehind(parents, rank, c, order);
    AllFound(parents, rank, c, |parents(c)|);
    ListsOfParents(parents, rank, c);
    assert ls == MergeList(parents, rank, c);
    MergeIsC3Order(ls, order[1..]);
    MergedIsFound(parents, rank, c, order);
  }

  lemma ListsBehind(parents: Hierarchy, rank: ClassId -> nat, c: ClassId, order: seq<ClassId>)
    returns (ls: seq<seq<ClassId>>)
    requires Acyclic(parents, rank) && ParentsAgree(parents, rank, c) && IsC3(parents, rank, c, order)
    ensures order != [] && order[0] == c && C3Order(order[1..], ls)
    ensures |ls| == |parents(c)| + 1 && ls[|parents(c)|] == parents(c)
    ensures forall i: nat :: i < |parents(c)| ==> MRO(parents, rank, parents(c)[i]) == Found(ls[i])
  {
    hide C3Order, MRO;
    var n := |parents(c)|;
    assert RanksBelow(parents(c), rank, rank(c));
    ls :| C3Order(order[1..], ls) && |ls| == n + 1 && ls[n] == parents(c)
      && forall i: nat :: i < n ==> IsC3(parents, rank, parents(c)[i], ls[i]);
  }

  lemma MergedIsFound(parents: Hierarchy, rank: ClassId -> nat, c: ClassId, order: seq<ClassId>)
    requires Acyclic(parents, rank) && Linearizations(parents, rank, c, |parents(c)|).0
    requires order != [] && order[0] == c && Merge(MergeList(parents, rank, c)) == Found(order[1..])
    ensures MRO(parents, rank, c) == Found(order)
  {
    hide Merge;
    assert order == [c] + order[1..];
    if parents(c) == [] {
      assert MergeList(parents, rank, c) == [parents(c)];
      MergeNothing([parents(c)]);
    }
  }

  /** There is only one such order. */
  lemma C3Unique(parents: Hierarchy, rank: ClassId -> nat, c: ClassId, order: seq<ClassId>, other: seq<ClassId>)
    requires Acyclic(parents, rank) && IsC3(parents, rank, c, order) && IsC3(parents, rank, c, other)
    ensures order == other
  {
    hide IsC3, MRO;
    MROIsC3(parents, rank, c, order);
    MROIsC3(parents, rank, c, other);
  }

  lemma MergeNothing(ls: seq<seq<ClassId>>)
    requires AllEmpty(ls)
    ensures Merge(ls) == Found([])
  {
  }

  lemma {:induction false} AllFound(parents: Hierarchy, rank: ClassId -> nat, c: ClassId, n: nat)
    requires Acyclic(parents, rank) && n <= |parents(c)|
    requires forall i :: 0 <= i < n ==> MRO(parents, rank, parents(c)[i]).Found?
    ensures Linearizations(parents, rank, c, n).0
  {
    assert RanksBelow(parents(c), rank, rank(c));
    if n > 0 {
      AllFound(parents, rank, c, n - 1);
    }
  }
}
