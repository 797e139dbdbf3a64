/**
 Parrot's hash: a bucket store with one chain per index slot and a free list,
 doubled in place by splitting every chain.
 */
module HashTables {
  import opened Arith
  import opened BucketLists
  import opened Sequences

  datatype Option<T> = None | Some(value: T)

  const INITIAL_SIZE: nat := 2

  predicate IsPowerOfTwo(n: nat) {
    n == 1 || (n > 1 && n % 2 == 0 && IsPowerOfTwo(n / 2))
  }

  /** hashval & mask, for a mask of ones. */
  function Slot(hashval: nat, size: nat): (i: nat)
    requires size > 0
    ensures i < size
  {
    DivModIdentity(hashval, size);
    hashval % size
  }

  /** Doubling the size leaves a hash value in its slot or moves it up by the old size. */
  lemma SlotOfDouble(h: nat, n: nat)
    requires n > 0
    ensures Slot(h, 2 * n) == Slot(h, n) || Slot(h, 2 * n) == Slot(h, n) + n
  {
    DivModIdentity(h, 2 * n);
    var r := h % (2 * n);
    MulAssoc(h / (2 * n), 2, n);
    if r < n {
      DivModUnique(h, n, (h / (2 * n)) * 2, r);
    } else {
      CountUp((h / (2 * n)) * 2, n);
      DivModUnique(h, n, (h / (2 * n)) * 2 + 1, r - n);
    }
  }

  // ----- what the store holds

  /** The key of a chained bucket belongs into its chain; a free bucket, on list number size, has none. */
  ghost predicate Placed<K, V>(hashOf: K -> nat, st: Store<K, V>, size: nat, b: nat) {
    && b < |st.owner| && b < |st.keys| && b < |st.values|
    && if st.owner[b] == size then st.keys[b].None? else
       && st.owner[b] < size
       && st.keys[b].Some? && st.values[b].Some?
       && st.owner[b] == Slot(hashOf(st.keys[b].value), size)
       && st.keys[b].value in st.at && st.at[st.keys[b].value] == b
  }

  ghost predicate Located<K, V>(st: Store<K, V>, k: K) {
    && k in st.at && st.at[k] < |st.keys| && st.at[k] < |st.values|
    && st.keys[st.at[k]] == Some(k) && st.values[st.at[k]].Some?
  }

  /** Keys and values of the buckets, the list each is on, and the bucket of every key. */
  datatype Store<!K, V> = Store(keys: seq<Option<K>>, values: seq<Option<V>>, owner: seq<nat>, at: map<K, nat>)

  ghost predicate Consistent<K, V>(hashOf: K -> nat, st: Store<K, V>, size: nat) {
    && (forall b :: 0 <= b < |st.keys| ==> Placed(hashOf, st, size, b))
    && forall k :: k in st.at ==> Located(st, k)
  }

  ghost function Mapping<K, V>(st: Store<K, V>): map<K, V> {
    map k | k in st.at && Located(st, k) :: st.values[st.at[k]].value
  }

  // ----- a store whose chains are being split

  /**
   A bucket is in its old chain or in the one n further up; it is where it belongs if it moved or its chain is
   done.
  */
  ghost predicate Halfway<K>(hashOf: K -> nat, keys: seq<Option<K>>, owner: seq<nat>, was: seq<nat>, n: nat, i: nat,
                             b: nat) {
    && n > 0 && b < |keys| && b < |owner| && b < |was| && keys[b].Some?
    && was[b] < n && was[b] == Slot(hashOf(keys[b].value), n)
    && (owner[b] == was[b] || owner[b] == was[b] + n)
    && (was[b] < i || owner[b] != was[b] ==> owner[b] == Slot(hashOf(keys[b].value), 2 * n))
  }

  ghost predicate AllHalfway<K>(hashOf: K -> nat, keys: seq<Option<K>>, owner: seq<nat>, was: seq<nat>, n: nat,
                                i: nat) {
    forall b :: 0 <= b < n ==> Halfway(hashOf, keys, owner, was, n, i, b)
  }

  lemma HalfwayMoved<K>(hashOf: K -> nat, keys: seq<Option<K>>, owner: seq<nat>, was: seq<nat>, n: nat, i: nat, x: nat)
    requires AllHalfway(hashOf, keys, owner, was, n, i) && |owner| == |was| == n && x < n && i < n && owner[x] == i
    ensures x < |keys| && keys[x].Some? && n > 0
    ensures Slot(hashOf(keys[x].value), 2 * n) == i + n ==> AllHalfway(hashOf, keys, owner[x := i + n], was, n, i)
  {
    assert Halfway(hashOf, keys, owner, was, n, i, x);
    var now := owner[x := i + n];
    if Slot(hashOf(keys[x].value), 2 * n) == i + n {
      forall b | 0 <= b < n
        ensures Halfway(hashOf, keys, now, was, n, i, b)
      {
        assert Halfway(hashOf, keys, owner, was, n, i, b);
      }
    }
  }

  class HashTable<K(==), V> {
    /** Equal keys have equal hash values. */
    const hashOf: K -> nat

    // the bucket structs, field by field
    var next: seq<int>
    var keys: seq<Option<K>>
    var values: seq<Option<V>>
    // the chain heads, the free list and the counters
    var index: seq<int>
    var freeList: int
    var mask: nat
    var entries: nat

    /** The buckets of every chain in order, and last those of the free list. */
    ghost var lists: seq<seq<nat>>
    /** Which list a bucket is on. */
    ghost var owner: seq<nat>
    /** The bucket of every key. */
    ghost var at: map<K, nat>

    ghost function Content(): Store<K, V>
      reads this
    {
      Store(keys, values, owner, at)
    }

    ghost predicate Sized()
      reads this
    {
      && |next| == |keys| == |values| == |index| == |owner|
      && entries == |at|
      && if |index| == 0 then freeList == NULL && mask == 0 && lists == [] && at == map[] else
         |index| == mask + 1 && mask > 0 && IsPowerOfTwo(|index|)
    }

    ghost predicate Valid()
      reads this
    {
      && Sized()
      && (|index| > 0 ==> Threaded(lists, index + [freeList], next, owner))
      && Consistent(hashOf, Content(), |index|)
    }

    /** The map the hash stands for. */
    ghost function Contents(): map<K, V>
      reads this
    {
      Mapping(Content())
    }

    /** Parrot_hash_create */
    constructor (hashOf: K -> nat)
      ensures Valid() && Contents() == map[] && this.hashOf == hashOf && |index| == 0
    {
      this.hashOf := hashOf;
      next, keys, values, index, freeList, mask, entries := [], [], [], [], NULL, 0, 0;
      lists, owner, at := [], [], map[];
    }

    /** Every bucket is on one list only: with its key in the chain of that key, without one on the free list. */
    lemma BucketsArePartitioned(b: nat, i: nat)
      requires Valid() && b < |index| && i <= |index|
      ensures i < |lists|
      ensures b in lists[i] <==> i == if keys[b].Some? then Slot(hashOf(keys[b].value), |index|) else |index|
    {
      assert Placed(hashOf, Content(), |index|, b);
      OnList(lists, index + [freeList], next, owner, i);
      var j := Position(lists, index + [freeList], next, owner, b);
      if b in lists[i] {
        var k :| 0 <= k < |lists[i]| && lists[i][k] == b;
        assert StepAt(lists[i], k, i, next, owner);
      }
    }

    /** Keys are not stored twice, and entries counts them. */
    lemma KeysAreUnique(b: nat, c: nat)
      requires Valid() && b < |keys| && c < |keys| && keys[b].Some? && keys[b] == keys[c]
      ensures b == c && keys[b].value in Contents() && values[b] == Some(Contents()[keys[b].value])
    {
      assert Placed(hashOf, Content(), |index|, b) && Placed(hashOf, Content(), |index|, c);
      assert Located(Content(), keys[b].value);
    }

    lemma EntriesCountKeys()
      requires Valid()
      ensures entries == |Contents()|
    {
      forall k | k in at
        ensures k in Contents()
      {
        assert Located(Content(), k);
      }
      assert Contents().Keys == at.Keys;
    }

    /** How many of the first n buckets have a key. */
    ghost function InUse(n: nat): (m: nat)
      requires n <= |keys|
      reads this
      ensures m <= n
    {
      if n == 0 then 0 else InUse(n - 1) + if keys[n - 1].Some? then 1 else 0
    }

    lemma {:induction false} InUseCountsKeys(n: nat)
      requires Valid() && n <= |keys|
      ensures InUse(n) == |set k | k in at && at[k] < n|
    {
      var s := set k | k in at && at[k] < n;
      if n == 0 {
        assert s == {};
      } else {
        InUseCountsKeys(n - 1);
        OneMoreInUse(n - 1);
      }
    }

    lemma OneMoreInUse(b: nat)
      requires Valid() && b < |keys|
      ensures var t := set k | k in at && at[k] < b;
        (set k | k in at && at[k] < b + 1) == if keys[b].Some? then t + {keys[b].value} else t
      ensures keys[b].Some? ==> keys[b].value !in set k | k in at && at[k] < b
    {
      assert Placed(hashOf, Content(), |index|, b);
      forall k | k in at && at[k] == b
        ensures keys[b] == Some(k)
      {
        assert Located(Content(), k);
      }
      hide *;
    }

    lemma {:induction false} InUseAll(n: nat)
      requires n <= |keys|
      ensures InUse(n) == n <==> forall b :: 0 <= b < n ==> keys[b].Some?
    {
      if n > 0 {
        InUseAll(n - 1);
      }
    }

    /** The free list is empty exactly if there are as many keys as buckets, so that the hash grows only when full. */
    lemma FullWhenNoneFree()
      requires Valid() && |index| > 0
      ensures freeList == NULL <==> entries == |index|
    {
      InUseCountsKeys(|index|);
      InUseAll(|index|);
      var all := set k | k in at && at[k] < |index|;
      forall k | k in at
        ensures k in all
      {
        assert Located(Content(), k);
      }
      assert all == at.Keys;
      OnList(lists, index + [freeList], next, owner, |index|);
      if freeList == NULL {
        forall b | 0 <= b < |index|
          ensures keys[b].Some?
        {
          BucketsArePartitioned(b, |index|);
        }
      } else {
        BucketsArePartitioned(lists[|index|][0], |index|);
      }
    }

    // ----- looking up

    /** The search both Parrot_hash_put and Parrot_hash_get_bucket make: down the chain of the key. */
    method FindBucket(key: K) returns (bucket: int)
      requires Valid() && |index| > 0
      ensures bucket == NULL <==> key !in at
      ensures bucket != NULL ==> 0 <= bucket < |keys| && key in at && at[key] == bucket
    {
      var i := Slot(hashOf(key), mask + 1);
      bucket := index[i];
      ghost var p := 0;
      OnList(lists, index + [freeList], next, owner, i);
      ghost var c := lists[i];
      hide *;
      while bucket != NULL
        invariant p <= |c| && bucket == At(c, p)
        invariant NotAmong(key, c, p)
        decreases |c| - p
      {
        InChain(key, i, p);
        if keys[bucket] == Some(key) {
          return;
        }
        bucket := next[bucket];
        p := p + 1;
      }
      NotInChain(key, i);
    }

    /** None of the first p buckets of the list has the key. */
    ghost predicate NotAmong(key: K, c: seq<nat>, p: nat)
      reads this
    {
      forall j :: 0 <= j < p && j < |c| && c[j] < |keys| ==> keys[c[j]] != Some(key)
    }

    lemma InChain(key: K, i: nat, p: nat)
      requires Valid() && i < |index| && i < |lists| && p <= |lists[i]| && At(lists[i], p) != NULL
      requires NotAmong(key, lists[i], p)
      ensures p < |lists[i]|
      ensures 0 <= At(lists[i], p) < |keys| && |keys| == |next|
      ensures keys[At(lists[i], p)] == Some(key) ==> key in at && at[key] == At(lists[i], p)
      ensures keys[At(lists[i], p)] != Some(key) ==> NotAmong(key, lists[i], p + 1)
      ensures next[At(lists[i], p)] == At(lists[i], p + 1)
    {
      OnList(lists, index + [freeList], next, owner, i);
      assert StepAt(lists[i], p, i, next, owner);
      assert Placed(hashOf, Content(), |index|, lists[i][p]);
    }

    /** A key that is not in its chain is nowhere. */
    lemma NotInChain(key: K, i: nat)
      requires Valid() && |index| > 0 && i == Slot(hashOf(key), mask + 1) && i < |lists|
      requires exists p :: p >= 0 && At(lists[i], p) == NULL && NotAmong(key, lists[i], p)
      ensures key !in at
    {
      if key in at {
        assert Located(Content(), key) && Placed(hashOf, Content(), |index|, at[key]);
        var j := Position(lists, index + [freeList], next, owner, at[key]);
        assert false;
      }
    }

    /** Parrot_hash_get_bucket */
    method GetBucket(key: K) returns (bucket: int)
      requires Valid()
      ensures bucket == NULL <==> key !in Contents()
      ensures bucket != NULL ==> 0 <= bucket < |values| && key in at && at[key] == bucket
    {
      if entries == 0 {
        NoEntries();
        return NULL;
      }
      bucket := FindBucket(key);
    }

    lemma NoEntries()
      requires Valid()
      ensures entries == 0 <==> at == map[]
      ensures |index| == 0 ==> entries == 0
    {
    }

    /** Parrot_hash_get; None stands for NULL. */
    method Get(key: K) returns (value: Option<V>)
      requires Valid()
      ensures value == if key in Contents() then Some(Contents()[key]) else None
    {
      var bucket := GetBucket(key);
      if bucket == NULL {
        return None;
      }
      assert Located(Content(), key);
      value := values[bucket];
    }

    // ----- storage

    method AllocateBuckets(size: nat)
      requires Valid() && |index| == 0
      modifies this
      ensures Valid() && Contents() == map[] && at == map[]
      ensures |index| >= size && |index| >= INITIAL_SIZE && freeList == 0
      ensures |index| == INITIAL_SIZE || |index| < 2 * size
      ensures size <= INITIAL_SIZE ==> |index| == INITIAL_SIZE
    {
      var newSize := INITIAL_SIZE;
      while size > newSize
        invariant IsPowerOfTwo(newSize) && newSize >= 2
        invariant newSize == INITIAL_SIZE || newSize < 2 * size
        invariant size <= INITIAL_SIZE ==> newSize == INITIAL_SIZE
        decreases size - newSize
      {
        newSize := newSize * 2;
      }
      Fresh(newSize);
    }

    /** Blank buckets, empty chains and a full free list. */
    method Fresh(newSize: nat)
      requires Valid() && |index| == 0 && newSize >= 2 && IsPowerOfTwo(newSize)
      modifies this
      ensures Valid() && Contents() == map[] && at == map[] && |index| == newSize && freeList == 0
    {
      hide *;
      NothingStored();
      mask := newSize - 1;
      keys, values := seq(newSize, _ => None), seq(newSize, _ => None);
      index := seq(newSize, _ => NULL);
      next, freeList := ChainFree(newSize, freeList);
      lists := seq(newSize, _ => []) + [Range(0, newSize)];
      owner := seq(newSize, _ => newSize);
      AllFree(newSize, next, lists, index + [freeList], owner);
      AllBlank(hashOf, Store(keys, values, owner, at), newSize);
      IntroValid();
    }

    lemma NothingStored()
      requires Valid() && |index| == 0
      ensures freeList == NULL && at == map[] && entries == 0
    {
    }

    /** The loop that strings all buckets onto the free list, the highest first. */
    static method ChainFree(n: nat, freeList0: int) returns (next: seq<int>, freeList: int)
      requires n > 0 && freeList0 == NULL
      ensures |next| == n && Row(next, 0, n) && freeList == 0
    {
      next, freeList := seq(n, _ => NULL), freeList0;
      var i, bucket: int := 0, n - 1;
      while i < n
        invariant 0 <= i <= n && bucket == n - 1 - i && |next| == n
        invariant freeList == (if i == 0 then NULL else bucket + 1)
        invariant Row(next, n - i, n)
      {
        next := next[bucket := freeList];
        freeList := bucket;
        i := i + 1;
        bucket := bucket - 1;
      }
    }

    // ----- putting

    /** A new value for a key that is there. */
    method Overwrite(bucket: nat, key: K, value: V)
      requires Valid() && key in at && at[key] == bucket
      modifies this`values
      ensures Valid() && Contents() == old(Contents())[key := value]
    {
      Overwritten(hashOf, Content(), |index|, key, value);
      values := values[bucket := Some(value)];
    }

    /** The bucket a new key gets: the first free one, or the first of those that growing adds. */
    ghost function NewBucket(): nat
      reads this
    {
      if freeList >= 0 then freeList else |index|
    }

    /** A bucket off the free list for a new key. */
    method Insert(key: K, value: V)
      requires Valid() && |index| > 0 && freeList != NULL && key !in at
      modifies this
      ensures Valid() && Contents() == old(Contents())[key := value]
      ensures |index| == old(|index|) && at == old(at)[key := old(NewBucket())]
    {
      hide *;
      ghost var n, i := |index|, Slot(hashOf(key), |index|);
      InsertLinks(i);
      InsertContent(key, value);
      NewIsFree();
      var bucket := freeList;
      entries := entries + 1;
      freeList := next[bucket];
      keys := keys[bucket := Some(key)];
      values := values[bucket := Some(value)];
      var loc := Slot(hashOf(key), mask + 1);
      next := next[bucket := index[loc]];
      index := index[loc := bucket];
      lists := lists[n := Without(lists[n], 0)][i := [bucket] + lists[i]];
      owner := owner[bucket := i];
      at := at[key := bucket];
      IntroValid();
    }

    lemma NewIsFree()
      ensures freeList >= 0 ==> NewBucket() == freeList
    {
    }

    /** The parts Valid is made of. */
    lemma IntroValid()
      requires |next| == |keys| == |values| == |index| == |owner| && entries == |at|
      requires |index| == mask + 1 && mask > 0 && IsPowerOfTwo(|index|)
      requires Threaded(lists, index + [freeList], next, owner)
      requires Consistent(hashOf, Store(keys, values, owner, at), |index|)
      ensures Valid() && Contents() == Mapping(Store(keys, values, owner, at))
    {
    }

    lemma ElimValid()
      requires Valid() && |index| > 0
      ensures |next| == |keys| == |values| == |index| == |owner| && entries == |at|
      ensures |index| == mask + 1 && mask > 0 && IsPowerOfTwo(|index|)
      ensures Threaded(lists, index + [freeList], next, owner) && |lists| == |index| + 1
      ensures Consistent(hashOf, Store(keys, values, owner, at), |index|)
      ensures Contents() == Mapping(Store(keys, values, owner, at))
    {
    }

    /** The free list loses its head to chain i. */
    lemma InsertLinks(i: nat)
      requires Valid() && |index| > 0 && freeList != NULL && i < |index|
      ensures 0 <= freeList < |index| == |next| == |owner| && owner[freeList] == |index|
      ensures |lists| == |index| + 1 && |lists[|index|]| > 0
      ensures Threaded(lists[|index| := Without(lists[|index|], 0)][i := [freeList] + lists[i]],
                       index[i := freeList] + [next[freeList]], next[freeList := index[i]], owner[freeList := i])
    {
      hide *;
      ElimValid();
      FreeBucket();
      Relinked(lists, index + [freeList], next, owner, |index|, 0, i);
      BypassFirst(lists[|index|], next, index[i]);
      assert (index + [freeList])[|index| := next[freeList]][i := freeList] == index[i := freeList] + [next[freeList]];
    }

    lemma InsertContent(key: K, value: V)
      requires Valid() && |index| > 0 && key !in at && 0 <= freeList < |owner| && owner[freeList] == |index|
      ensures |next| == |keys| == |values| == |index| == |owner| == mask + 1 && entries == |at| && mask > 0
      ensures IsPowerOfTwo(|index|) && |at[key := freeList]| == |at| + 1
      ensures var st := Store(keys[freeList := Some(key)], values[freeList := Some(value)],
                              owner[freeList := Slot(hashOf(key), |index|)], at[key := freeList]);
        Consistent(hashOf, st, |index|) && Mapping(st) == Contents()[key := value]
    {
      hide *;
      ElimValid();
      Inserted(hashOf, Store(keys, values, owner, at), |index|, freeList, key, value);
    }

    // ----- deleting

    /** Parrot_hash_delete: unlink the bucket of the key and put it back on the free list. */
    method Delete(key: K)
      requires Valid()
      modifies this
      ensures Valid() && Contents() == old(Contents()) - {key}
      ensures |index| == old(|index|) && at == old(at) - {key}
      ensures key in old(at) ==> freeList == old(at)[key]
      ensures key !in old(at) ==> unchanged(this)
    {
      if |index| == 0 {
        NothingStored();
        return;
      }
      hide *;
      var i := Slot(hashOf(key), mask + 1);
      ghost var p;
      var prev, current: int;
      prev, current, p := FindLink(key, i);
      if current != NULL {
        Remove(i, p, prev, current, key);
      } else {
        NotThere(key);
      }
    }

    /** The bucket of the key in its chain, and the one before it. */
    method FindLink(key: K, i: nat) returns (prev: int, current: int, ghost p: nat)
      requires Valid() && |index| > 0 && i == Slot(hashOf(key), mask + 1)
      ensures i < |index| && i < |lists| && (current == NULL <==> key !in at)
      ensures current != NULL ==>
        p < |lists[i]| && current == At(lists[i], p) && prev == (if p == 0 then NULL else At(lists[i], p - 1))
        && key in at && at[key] == current
    {
      hide *;
      ElimValid();
      StartOfChain(key, i);
      prev, current, p := NULL, index[i], 0;
      while current != NULL
        invariant p <= |lists[i]| && current == At(lists[i], p)
        invariant prev == if p == 0 then NULL else At(lists[i], p - 1)
        invariant NotAmong(key, lists[i], p)
        decreases |lists[i]| - p
      {
        InChain(key, i, p);
        if keys[current] == Some(key) {
          return;
        }
        prev := current;
        current := next[current];
        p := p + 1;
      }
      NotInChain(key, i);
    }

    lemma StartOfChain(key: K, i: nat)
      requires Valid() && |index| > 0 && i < |index|
      ensures i < |lists| && index[i] == At(lists[i], 0) && NotAmong(key, lists[i], 0)
    {
      OnList(lists, index + [freeList], next, owner, i);
    }

    /** What deleting does once the bucket is found; prev is the bucket before it, if any. */
    method Remove(i: nat, ghost p: nat, prev: int, current: int, key: K)
      requires Valid() && i < |index| && i < |lists| && p < |lists[i]| && current == At(lists[i], p)
      requires prev == if p == 0 then NULL else At(lists[i], p - 1)
      requires key in at && at[key] == current
      modifies this
      ensures Valid() && Contents() == old(Contents()) - {key} && |index| == old(|index|)
      ensures at == old(at) - {key} && freeList == current
    {
      hide *;
      ghost var n := |index|;
      RemoveLinks(i, p);
      RemoveContent(key);
      if prev == NULL {
        index := index[i := next[current]];
      } else {
        next := next[prev := next[current]];
      }
      entries := entries - 1;
      next := next[current := freeList];
      keys := keys[current := None];
      freeList := current;
      lists := lists[i := Without(lists[i], p)][n := [current] + lists[n]];
      owner := owner[current := n];
      at := at - {key};
      IntroValid();
    }

    /** The p-th bucket of chain i goes to the front of the free list. */
    lemma RemoveLinks(i: nat, p: nat)
      requires Valid() && i < |index| && i < |lists| && p < |lists[i]|
      ensures |next| == |index| == |owner| && |lists| == |index| + 1
      ensures At(lists[i], p) == lists[i][p] < |next|
      ensures p > 0 ==> 0 <= At(lists[i], p - 1) < |next| && At(lists[i], p - 1) != NULL
      ensures var x := lists[i][p];
        Threaded(lists[i := Without(lists[i], p)][|index| := [x] + lists[|index|]],
                 (if p == 0 then index[i := next[x]] else index) + [x],
                 (if p == 0 then next else next[At(lists[i], p - 1) := next[x]])[x := freeList], owner[x := |index|])
    {
      var n, x := |index|, lists[i][p];
      ElimValid();
      Relinked(lists, index + [freeList], next, owner, i, p, n);
      hide Threaded, Valid, Linked, IsList;
      assert (index + [freeList])[i := if p == 0 then next[x] else index[i]][n := x]
          == (if p == 0 then index[i := next[x]] else index) + [x];
    }

    lemma RemoveContent(key: K)
      requires Valid() && |index| > 0 && key in at
      ensures |next| == |keys| == |values| == |index| == |owner| == mask + 1 && entries == |at| && mask > 0
      ensures IsPowerOfTwo(|index|) && entries > 0 && |at - {key}| == |at| - 1 && at[key] < |index|
      ensures var st := Store(keys[at[key] := None], values, owner[at[key] := |index|], at - {key});
        Consistent(hashOf, st, |index|) && Mapping(st) == Contents() - {key}
    {
      ElimValid();
      assert at == (at - {key})[key := at[key]];
      hide Threaded, Consistent, Mapping, Valid;
      Removed(hashOf, Store(keys, values, owner, at), |index|, key);
    }

    lemma NotThere(key: K)
      requires Valid() && key !in at
      ensures Contents() - {key} == Contents() && at - {key} == at
    {
    }

    // ----- putting

    /** parrot_hash_store_value_in_bucket: a known bucket gets the value, otherwise a free one does. */
    method StoreValueInBucket(bucket: int, key: K, value: V)
      requires Valid() && |index| > 0
      requires bucket == NULL ==> key !in at
      requires bucket != NULL ==> key in at && at[key] == bucket
      modifies this
      ensures Valid() && Contents() == old(Contents())[key := value]
      ensures bucket != NULL ==> key in at && at == old(at)
      ensures bucket == NULL ==> at == old(at)[key := old(NewBucket())]
      ensures |index| == (if bucket == NULL && old(freeList) == NULL then 2 else 1) * old(|index|)
    {
      FreeOrNull();
      if bucket != NULL {
        Overwrite(bucket, key, value);
      } else {
        if freeList == NULL {
          ExpandHash();
        }
        Insert(key, value);
      }
    }

    lemma FreeOrNull()
      requires Valid() && |index| > 0
      ensures freeList == NULL || freeList >= 0
    {
      if freeList != NULL {
        FreeBucket();
      }
    }

    // ----- doubling

    /**
     While chain i of n is being split: the second half of the store is blank and on no list yet, buckets
     only ever moved up by n, and those of the chains before i and those that moved are where they belong.
     */
    ghost predicate Splitting(was: seq<nat>, n: nat, i: nat)
      reads this
    {
      && n > 0 && |was| == |owner| == n
      && |next| == |keys| == |values| == |index| == 2 * n && |lists| == 2 * n + 1
      && lists[2 * n] == [] && mask == 2 * n - 1
      && Threaded(lists, index + [NULL], next, owner)
      && AllHalfway(hashOf, keys, owner, was, n, i)
    }

    /** The first p buckets of chain i stay. */
    ghost predicate Staying(c: seq<nat>, p: nat, i: nat, n: nat)
      reads `keys
    {
      p <= |c| && forall j :: 0 <= j < p ==> Stays(c[j], i, n)
    }

    ghost predicate Stays(b: nat, i: nat, n: nat)
      reads `keys
    {
      n > 0 && b < |keys| && keys[b].Some? && Slot(hashOf(keys[b].value), 2 * n) == i
    }

    /** Splits chain i: each bucket stays or goes to the front of chain i + n. */
    method SplitChain(ghost was: seq<nat>, n: nat, i: nat)
      requires Splitting(was, n, i) && i < n
      modifies `next, `index, `lists, `owner
      ensures Splitting(was, n, i + 1)
    {
      hide *;
      StartOfSplit(was, n, i);
      var prev, bucket: int := NULL, index[i];
      ghost var p := 0;
      while bucket != NULL
        invariant Splitting(was, n, i) && i < |lists|
        invariant p <= |lists[i]| && bucket == At(lists[i], p)
        invariant prev == if p == 0 then NULL else At(lists[i], p - 1)
        invariant Staying(lists[i], p, i, n)
        decreases |lists[i]| - p
      {
        NextOfSplit(was, n, i, p);
        var newLoc := Slot(hashOf(keys[bucket].value), mask + 1);
        var behind := next[bucket];
        if i != newLoc {
          WithoutIt(lists[i], p, i, n);
          MoveBucket(was, n, i, p, prev, bucket, newLoc);
        } else {
          prev := bucket;
          p := p + 1;
        }
        bucket := behind;
      }
      EndOfSplit(was, n, i, p);
    }

    /** The bucket goes from its place in chain i to the front of chain newLoc. */
    method MoveBucket(ghost was: seq<nat>, n: nat, i: nat, ghost p: nat, prev: int, bucket: int, newLoc: nat)
      requires Splitting(was, n, i) && i < n && i < |lists| && p < |lists[i]| && bucket == At(lists[i], p)
      requires prev == if p == 0 then NULL else At(lists[i], p - 1)
      requires 0 <= bucket < |keys| && keys[bucket].Some?
      requires newLoc == i + n == Slot(hashOf(keys[bucket].value), 2 * n)
      modifies `next, `index, `lists, `owner
      ensures Splitting(was, n, i) && i < |lists| && lists[i] == old(Without(lists[i], p))
    {
      hide *;
      MoveUp(was, n, i, p);
      OwnerMoves(was, n, i, p);
      if prev == NULL {
        index := index[i := next[bucket]];
      } else {
        next := next[prev := next[bucket]];
      }
      next := next[bucket := index[newLoc]];
      index := index[newLoc := bucket];
      ghost var x: nat := bucket;
      lists := lists[i := Without(lists[i], p)][newLoc := [x] + lists[newLoc]];
      owner := owner[x := newLoc];
      IntroSplitting(was, n, i);
    }

    lemma WithoutIt(c: seq<nat>, p: nat, i: nat, n: nat)
      requires p < |c| && Staying(c, p, i, n)
      ensures At(Without(c, p), p) == At(c, p + 1) && |Without(c, p)| == |c| - 1
      ensures p > 0 ==> At(Without(c, p), p - 1) == At(c, p - 1)
      ensures Staying(Without(c, p), p, i, n)
    {
    }

    lemma OwnerMoves(was: seq<nat>, n: nat, i: nat, p: nat)
      requires Splitting(was, n, i) && i < n && i < |lists| && p < |lists[i]|
      ensures n > 0 && |was| == |owner| == n && lists[i][p] < n && lists[i][p] < |keys|
      ensures |next| == |keys| == |values| == |index| == 2 * n && |lists| == 2 * n + 1
      ensures lists[2 * n] == [] && mask == 2 * n - 1
      ensures keys[lists[i][p]].Some? && Slot(hashOf(keys[lists[i][p]].value), 2 * n) == i + n ==>
        AllHalfway(hashOf, keys, owner[lists[i][p] := i + n], was, n, i)
    {
      OnList(lists, index + [NULL], next, owner, i);
      assert StepAt(lists[i], p, i, next, owner);
      HalfwayMoved(hashOf, keys, owner, was, n, i, lists[i][p]);
    }

    lemma IntroSplitting(was: seq<nat>, n: nat, i: nat)
      requires n > 0 && |was| == |owner| == n
      requires |next| == |keys| == |values| == |index| == 2 * n && |lists| == 2 * n + 1
      requires lists[2 * n] == [] && mask == 2 * n - 1
      requires Threaded(lists, index + [NULL], next, owner)
      requires AllHalfway(hashOf, keys, owner, was, n, i)
      ensures Splitting(was, n, i)
    {
    }

    lemma StartOfSplit(was: seq<nat>, n: nat, i: nat)
      requires Splitting(was, n, i) && i < n
      ensures i < |index| && i < |lists| && index[i] == At(lists[i], 0) && Staying(lists[i], 0, i, n)
    {
      OnList(lists, index + [NULL], next, owner, i);
    }

    lemma NextOfSplit(was: seq<nat>, n: nat, i: nat, p: nat)
      requires Splitting(was, n, i) && i < n && p <= |lists[i]| && At(lists[i], p) != NULL && Staying(lists[i], p, i, n)
      ensures p < |lists[i]| && 0 <= At(lists[i], p) < |owner| == n && At(lists[i], p) < |keys|
      ensures mask + 1 == 2 * n == |next| == |index| && |lists| == 2 * n + 1
      ensures keys[At(lists[i], p)].Some? && next[At(lists[i], p)] == At(lists[i], p + 1)
      ensures var to := Slot(hashOf(keys[At(lists[i], p)].value), 2 * n);
        (to == i ==> Staying(lists[i], p + 1, i, n)) && (to != i ==> to == i + n)
    {
      OnList(lists, index + [NULL], next, owner, i);
      assert StepAt(lists[i], p, i, next, owner);
      assert Halfway(hashOf, keys, owner, was, n, i, lists[i][p]);
      SlotOfDouble(hashOf(keys[lists[i][p]].value), n);
    }

    /** The links after the p-th bucket of chain i has moved up. */
    lemma MoveUp(was: seq<nat>, n: nat, i: nat, p: nat)
      requires Splitting(was, n, i) && i < n && p < |lists[i]|
      ensures i + n < |index| && |next| == |index|
      ensures At(lists[i], p) == lists[i][p] < |next|
      ensures p > 0 ==> 0 <= At(lists[i], p - 1) < |next| && At(lists[i], p - 1) != NULL
      ensures var x := lists[i][p];
        Threaded(lists[i := Without(lists[i], p)][i + n := [x] + lists[i + n]],
                 (if p == 0 then index[i := next[x]] else index)[i + n := x] + [NULL],
                 (if p == 0 then next else next[At(lists[i], p - 1) := next[x]])[x := index[i + n]], owner[x := i + n])
    {
      var x := lists[i][p];
      Relinked(lists, index + [NULL], next, owner, i, p, i + n);
      hide Threaded, Linked, IsList, AllHalfway;
      assert (index + [NULL])[i := if p == 0 then next[x] else index[i]][i + n := x]
          == (if p == 0 then index[i := next[x]] else index)[i + n := x] + [NULL];
    }

    lemma EndOfSplit(was: seq<nat>, n: nat, i: nat, p: nat)
      requires Splitting(was, n, i) && i < n && Staying(lists[i], p, i, n) && At(lists[i], p) == NULL
      ensures Splitting(was, n, i + 1)
    {
      var done := i + 1;
      forall b | 0 <= b < n
        ensures Halfway(hashOf, keys, owner, was, n, done, b)
      {
        assert Halfway(hashOf, keys, owner, was, n, i, b);
        if owner[b] == i {
          var j := Position(lists, index + [NULL], next, owner, b);
          assert Stays(lists[i][j], i, n);
        }
      }
    }

    /** expand_hash: twice the size; every bucket of chain i ends in chain i or i plus the old size. */
    method ExpandHash()
      requires Valid() && |index| > 0 && freeList == NULL
      modifies this
      ensures Valid() && Contents() == old(Contents()) && at == old(at)
      ensures |index| == 2 * old(|index|) && freeList == old(|index|)
      ensures |owner| == 2 * old(|index|)
      ensures forall b :: 0 <= b < old(|index|) ==> SplitFrom(owner[b], old(owner[b]), old(|index|))
    {
      hide *;
      var n := mask + 1;
      AllInUse();
      ghost var st := Store(keys, values, owner, at);
      Widen(n);
      SplitAll(st.owner, n);
      LinkSecondHalf(st, n);
    }

    /** The new memory: the old buckets and chain heads, and as many blank ones again. */
    method Widen(n: nat)
      requires Valid() && |index| > 0 && freeList == NULL && n == mask + 1
      modifies `keys, `values, `next, `index, `mask, `lists
      ensures |keys| == |values| == 2 * n && keys[..n] == old(keys) && values[..n] == old(values)
      ensures forall b :: n <= b < 2 * n ==> keys[b].None?
      ensures Splitting(owner, n, 0)
    {
      hide *;
      AllInUse();
      ghost var st, lists0, index0, next0 := Store(keys, values, owner, at), lists, index, next;
      keys, values := keys + seq(n, _ => None), values + seq(n, _ => None);
      next, index := next + seq(n, _ => NULL), index + seq(n, _ => NULL);
      mask := 2 * n - 1;
      lists := lists[..n] + seq(n + 1, _ => []);
      StartSplitting(st, n, lists0, index0, next0);
    }

    method SplitAll(ghost was: seq<nat>, n: nat)
      requires Splitting(was, n, 0)
      modifies `next, `index, `lists, `owner
      ensures Splitting(was, n, n)
    {
      hide *;
      var i := 0;
      while i < n
        invariant 0 <= i <= n && Splitting(was, n, i)
      {
        SplitChain(was, n, i);
        i := i + 1;
      }
    }

    /** The new buckets make up the new free list. */
    method LinkSecondHalf(ghost st: Store<K, V>, n: nat)
      requires Splitting(st.owner, n, n) && Consistent(hashOf, st, n) && |st.keys| == |st.values| == n
      requires |keys| == |values| == 2 * n && keys[..n] == st.keys && values[..n] == st.values
      requires at == st.at && entries == |at| && IsPowerOfTwo(2 * n)
      requires forall b :: n <= b < 2 * n ==> keys[b].None?
      modifies `next, `freeList, `lists, `owner
      ensures Valid() && Contents() == Mapping(st) && freeList == n && |index| == 2 * n
      ensures |owner| == 2 * n && |st.owner| == n
      ensures forall b :: 0 <= b < n ==> SplitFrom(owner[b], st.owner[b], n)
    {
      hide *;
      AllSplit(st.owner, n);
      ghost var linked, split := next, owner;
      next := ChainUpper(next, n);
      freeList := n;
      owner := owner + seq(n, _ => 2 * n);
      SecondHalf(linked, split, n);
      lists := lists[2 * n := Range(n, 2 * n)];
      Resettled(hashOf, st, Store(keys, values, owner, at), n);
      IntroValid();
    }

    lemma AllInUse()
      requires Valid() && |index| > 0 && freeList == NULL
      ensures |next| == |keys| == |values| == |index| == |owner| == mask + 1 && entries == |at|
      ensures IsPowerOfTwo(|index|) && IsPowerOfTwo(2 * |index|)
      ensures Threaded(lists, index + [NULL], next, owner) && |lists| == |index| + 1 && lists[|index|] == []
      ensures Consistent(hashOf, Store(keys, values, owner, at), |index|)
      ensures Contents() == Mapping(Store(keys, values, owner, at))
    {
      OnList(lists, index + [NULL], next, owner, |index|);
    }

    lemma StartSplitting(st: Store<K, V>, n: nat, lists0: seq<seq<nat>>, index0: seq<int>, next0: seq<int>)
      requires n > 0 && |next0| == |st.keys| == |st.values| == |index0| == |st.owner| == n && |lists0| == n + 1
      requires lists0[n] == [] && Threaded(lists0, index0 + [NULL], next0, st.owner) && Consistent(hashOf, st, n)
      requires |next| == |keys| == |values| == |index| == 2 * n && |lists| == 2 * n + 1 && mask == 2 * n - 1
      requires keys[..n] == st.keys && owner == st.owner && next[..n] == next0 && index[..n] == index0
      requires (forall i :: n <= i < 2 * n ==> index[i] == NULL) && lists[..n] == lists0[..n]
      requires forall i :: n <= i <= 2 * n ==> lists[i] == []
      ensures Splitting(st.owner, n, 0)
    {
      MoreChains(lists0, index0 + [NULL], next0, owner, n, lists, index + [NULL], next);
      NoneFree(st, n, lists0);
      forall b | 0 <= b < n
        ensures Halfway(hashOf, keys, owner, st.owner, n, 0, b)
      {
        assert Placed(hashOf, st, n, b);
        assert keys[b] == st.keys[b];
      }
    }

    lemma NoneFree(st: Store<K, V>, n: nat, lists0: seq<seq<nat>>)
      requires |lists0| == n + 1 && lists0[n] == [] && forall b :: 0 <= b < |st.owner| ==> IsOwned(lists0, st.owner, b)
      ensures forall b :: 0 <= b < |st.owner| ==> st.owner[b] < n
    {
      forall b | 0 <= b < |st.owner|
        ensures st.owner[b] < n
      {
        assert IsOwned(lists0, st.owner, b);
      }
    }

    lemma AllSplit(was: seq<nat>, n: nat)
      requires Splitting(was, n, n)
      ensures n > 0 && |was| == |owner| == n && |next| == |keys| == |values| == |index| == 2 * n && |lists| == 2 * n + 1
      ensures lists[2 * n] == [] && mask == 2 * n - 1 && Threaded(lists, index + [NULL], next, owner)
      ensures AllHalfway(hashOf, keys, owner, was, n, n)
    {
    }

    lemma SecondHalf(linked: seq<int>, split: seq<nat>, n: nat)
      requires n > 0 && |linked| == |next| == |owner| == |index| == 2 * n && |split| == n && |lists| == 2 * n + 1
      requires lists[2 * n] == [] && Threaded(lists, index + [NULL], linked, split)
      requires next[..n] == linked[..n] && Row(next, n, 2 * n) && freeList == n
      requires owner[..n] == split && forall b :: n <= b < 2 * n ==> owner[b] == 2 * n
      ensures Threaded(lists[2 * n := Range(n, 2 * n)], index + [freeList], next, owner)
    {
      assert (index + [NULL])[2 * n := n] == index + [n];
      assert forall b :: 0 <= b < n ==> next[b] == next[..n][b] && owner[b] == owner[..n][b];
      ghost var withFree := lists[2 * n := Range(n, 2 * n)];
      SecondHalfFree(lists, index + [NULL], linked, split, n, withFree, index + [n], next, owner);
    }

    /** The loop that strings the new buckets together. */
    static method ChainUpper(next0: seq<int>, n: nat) returns (next: seq<int>)
      requires n > 0 && |next0| == 2 * n
      ensures |next| == 2 * n && next[..n] == next0[..n] && Row(next, n, 2 * n)
    {
      next := next0;
      var i, bucket := n - 1, n;
      while i > 0
        invariant 0 <= i < n && bucket == 2 * n - 1 - i && |next| == 2 * n
        invariant next[..n] == next0[..n]
        invariant forall b :: n <= b < bucket ==> next[b] == b + 1
      {
        next := next[bucket := bucket + 1];
        i, bucket := i - 1, bucket + 1;
      }
      next := next[bucket := NULL];
    }

    /** A new value under key: a bucket is returned only if the key was there before. */
    method Put(key: K, value: V) returns (bucket: int)
      requires Valid()
      modifies this
      ensures Valid() && Contents() == old(Contents())[key := value]
      ensures bucket == NULL <==> key !in old(Contents())
      ensures bucket != NULL ==> key in at && at[key] == bucket
      ensures at == if key in old(at) then old(at) else old(at)[key := old(NewBucket())]
      ensures |index| == if old(|index|) == 0 then INITIAL_SIZE
                         else if key !in old(at) && old(freeList) == NULL then 2 * old(|index|) else old(|index|)
    {
      bucket := NULL;
      if |index| == 0 {
        NothingStored();
        AllocateBuckets(INITIAL_SIZE);
      } else {
        bucket := FindBucket(key);
      }
      StoreValueInBucket(bucket, key, value);
    }

    lemma FreeBucket()
      requires Valid() && |index| > 0 && freeList != NULL
      ensures |lists| == |index| + 1 && 0 <= freeList < |index| && |lists[|index|]| > 0 && lists[|index|][0] == freeList
      ensures owner[freeList] == |index|
    {
      OnList(lists, index + [freeList], next, owner, |index|);
      assert StepAt(lists[|index|], 0, |index|, next, owner);
    }
  }

  /** Where the buckets of chain i may be after doubling from n. */
  ghost predicate SplitFrom(now: nat, i: nat, n: nat) {
    now == i || now == i + n
  }

  lemma AllBlank<K, V>(hashOf: K -> nat, st: Store<K, V>, size: nat)
    requires |st.keys| == |st.values| == |st.owner| == size && st.at == map[]
    requires forall b :: 0 <= b < size ==> st.owner[b] == size && st.keys[b].None?
    ensures Consistent(hashOf, st, size) && Mapping(st) == map[]
  {
    forall b | 0 <= b < size
      ensures Placed(hashOf, st, size, b)
    {
    }
  }

  /** Twice the size, nothing put in and nothing taken out. */
  lemma Resettled<K, V>(hashOf: K -> nat, st: Store<K, V>, now: Store<K, V>, n: nat)
    requires n > 0 && |st.keys| == |st.values| == |st.owner| == n && Consistent(hashOf, st, n)
    requires |now.keys| == |now.values| == |now.owner| == 2 * n && now.at == st.at
    requires now.keys[..n] == st.keys && now.values[..n] == st.values
    requires AllHalfway(hashOf, now.keys, now.owner[..n], st.owner, n, n)
    requires forall b :: n <= b < 2 * n ==> now.owner[b] == 2 * n && now.keys[b].None?
    ensures Consistent(hashOf, now, 2 * n) && Mapping(now) == Mapping(st)
    ensures forall b :: 0 <= b < n ==> SplitFrom(now.owner[b], st.owner[b], n)
  {
    forall b | 0 <= b < 2 * n
      ensures Placed(hashOf, now, 2 * n, b)
      ensures b < n ==> SplitFrom(now.owner[b], st.owner[b], n)
    {
      if b < n {
        assert Halfway(hashOf, now.keys, now.owner[..n], st.owner, n, n, b);
        assert Placed(hashOf, st, n, b);
        assert now.keys[..n][b] == st.keys[b] && now.values[..n][b] == st.values[b];
        assert now.owner[..n][b] == now.owner[b];
      }
    }
    forall k | k in now.at
      ensures Located(now, k) && Located(st, k) && now.values[now.at[k]] == st.values[st.at[k]]
    {
      assert Located(st, k);
      assert now.keys[..n][st.at[k]] == st.keys[st.at[k]] && now.values[..n][st.at[k]] == st.values[st.at[k]];
    }
  }

  lemma Overwritten<K, V>(hashOf: K -> nat, st: Store<K, V>, size: nat, key: K, value: V)
    requires Consistent(hashOf, st, size) && key in st.at
    ensures Located(st, key)
    ensures Consistent(hashOf, st.(values := st.values[st.at[key] := Some(value)]), size)
    ensures Mapping(st.(values := st.values[st.at[key] := Some(value)])) == Mapping(st)[key := value]
  {
    var b := st.at[key];
    assert Located(st, key);
    var now := st.(values := st.values[b := Some(value)]);
    forall c | 0 <= c < |now.keys|
      ensures Placed(hashOf, now, size, c)
    {
      assert Placed(hashOf, st, size, c);
    }
    forall k | k in now.at
      ensures Located(now, k) && (k != key ==> now.at[k] != b)
    {
      assert Located(st, k);
    }
  }

  lemma Removed<K, V>(hashOf: K -> nat, st: Store<K, V>, size: nat, key: K)
    requires Consistent(hashOf, st, size) && key in st.at && |st.keys| == |st.values| == |st.owner| == size
    ensures st.at[key] < size
    ensures var now := Store(st.keys[st.at[key] := None], st.values, st.owner[st.at[key] := size], st.at - {key});
      Consistent(hashOf, now, size) && Mapping(now) == Mapping(st) - {key}
  {
    assert Located(st, key);
    var b := st.at[key];
    var now := Store(st.keys[b := None], st.values, st.owner[b := size], st.at - {key});
    assert Placed(hashOf, st, size, b);
    forall c | 0 <= c < |now.keys|
      ensures Placed(hashOf, now, size, c)
    {
      assert Placed(hashOf, st, size, c);
    }
    forall k | k in now.at
      ensures Located(now, k) && now.at[k] != b
    {
      assert Located(st, k);
    }
  }

  lemma Inserted<K, V>(hashOf: K -> nat, st: Store<K, V>, size: nat, b: nat, key: K, value: V)
    requires Consistent(hashOf, st, size) && key !in st.at && size > 0 && |st.keys| == |st.values| == |st.owner| == size
    requires b < size && st.owner[b] == size
    ensures var now := Store(st.keys[b := Some(key)], st.values[b := Some(value)],
                             st.owner[b := Slot(hashOf(key), size)], st.at[key := b]);
      Consistent(hashOf, now, size) && Mapping(now) == Mapping(st)[key := value]
  {
    var now := Store(st.keys[b := Some(key)], st.values[b := Some(value)],
                     st.owner[b := Slot(hashOf(key), size)], st.at[key := b]);
    assert Placed(hashOf, st, size, b);
    forall c | 0 <= c < |now.keys|
      ensures Placed(hashOf, now, size, c)
    {
      assert Placed(hashOf, st, size, c);
    }
    forall k | k in now.at
      ensures Located(now, k) && (k != key ==> now.at[k] != b)
    {
      assert k != key ==> Located(st, k);
    }
  }
}
