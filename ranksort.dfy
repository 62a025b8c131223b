/**
 * Python's `list.sort(key=...)` for a key with natural-number values: a
 * stable sort, modelled as insertion sort.
 */
module RankSort {

  /** Insert `x` after every element whose key is not larger. */
  function Insert<T>(r: seq<T>, x: T, key: T -> nat): seq<T> {
    if r == [] then [x]
    else if key(r[0]) <= key(x) then [r[0]] + Insert(r[1..], x, key)
    else [x] + r
  }

  function SortByKey<T>(s: seq<T>, key: T -> nat): seq<T> {
    if s == [] then [] else Insert(SortByKey(s[..|s| - 1], key), s[|s| - 1], key)
  }

  /** The elements with key `k`, in their order. */
  function Bucket<T>(s: seq<T>, k: nat, key: T -> nat): seq<T> {
    if s == [] then [] else (if key(s[0]) == k then [s[0]] else []) + Bucket(s[1..], k, key)
  }

  predicate Sorted<T>(s: seq<T>, key: T -> nat) {
    forall i, j :: 0 <= i < j < |s| ==> key(s[i]) <= key(s[j])
  }

  /** No two elements have the same image under `f`. */
  predicate DistinctBy<T, U(==)>(s: seq<T>, f: T -> U) {
    forall i, j :: 0 <= i < j < |s| ==> f(s[i]) != f(s[j])
  }

  lemma {:induction false} InsertPerm<T>(r: seq<T>, x: T, key: T -> nat)
    ensures multiset(Insert(r, x, key)) == multiset(r) + multiset{x}
  {
    if r != [] && key(r[0]) <= key(x) {
      InsertPerm(r[1..], x, key);
      assert r == [r[0]] + r[1..];
    }
  }

  /** The sort is a permutation. */
  lemma {:induction false} SortPerm<T>(s: seq<T>, key: T -> nat)
    ensures multiset(SortByKey(s, key)) == multiset(s)
  {
    if s != [] {
      SortPerm(s[..|s| - 1], key);
      InsertPerm(SortByKey(s[..|s| - 1], key), s[|s| - 1], key);
      assert s == s[..|s| - 1] + [s[|s| - 1]];
    }
  }

  lemma SortedCons<T>(x: T, r: seq<T>, key: T -> nat)
    ensures Sorted([x] + r, key) <==> Sorted(r, key) && forall y :: y in r ==> key(x) <= key(y)
  {
    if Sorted(r, key) && forall y :: y in r ==> key(x) <= key(y) {
      SortedConsIntro(x, r, key);
    }
    if Sorted([x] + r, key) {
      SortedConsElim(x, r, key);
    }
  }

  lemma SortedConsIntro<T>(x: T, r: seq<T>, key: T -> nat)
    requires Sorted(r, key) && forall y :: y in r ==> key(x) <= key(y)
    ensures Sorted([x] + r, key)
  {
    var s := [x] + r;
    forall i, j | 0 <= i < j < |s| ensures key(s[i]) <= key(s[j]) {
      assert s[j] == r[j - 1];
      if i == 0 {
        assert s[j] in r;
      } else {
        assert s[i] == r[i - 1];
      }
    }
  }

  lemma SortedConsElim<T>(x: T, r: seq<T>, key: T -> nat)
    requires Sorted([x] + r, key)
    ensures Sorted(r, key) && forall y :: y in r ==> key(x) <= key(y)
  {
    var s := [x] + r;
    forall y | y in r ensures key(x) <= key(y) {
      var i :| 0 <= i < |r| && r[i] == y;
      assert s[0] == x && s[i + 1] == y;
    }
    forall i, j | 0 <= i < j < |r| ensures key(r[i]) <= key(r[j]) {
      assert s[i + 1] == r[i] && s[j + 1] == r[j];
    }
  }

  lemma SortedAbove<T>(r: seq<T>, key: T -> nat)
    requires r != [] && Sorted(r, key)
    ensures forall y :: y in r ==> key(r[0]) <= key(y)
  {
    forall y | y in r ensures key(r[0]) <= key(y) {
      var i :| 0 <= i < |r| && r[i] == y;
      if i > 0 { assert key(r[0]) <= key(r[i]); }
    }
  }

  lemma {:induction false} InsertSorted<T>(r: seq<T>, x: T, key: T -> nat)
    requires Sorted(r, key)
    ensures Sorted(Insert(r, x, key), key)
  {
    if r == [] {
    } else if key(r[0]) <= key(x) {
      SortedCons(r[0], r[1..], key);
      assert r == [r[0]] + r[1..];
      InsertSorted(r[1..], x, key);
      InsertPerm(r[1..], x, key);
      forall y | y in Insert(r[1..], x, key) ensures key(r[0]) <= key(y) {
        assert y in multiset(Insert(r[1..], x, key));
      }
      SortedCons(r[0], Insert(r[1..], x, key), key);
    } else {
      SortedAbove(r, key);
      SortedCons(x, r, key);
    }
  }

  /** The sort orders its result by key. */
  lemma {:induction false} SortSorted<T>(s: seq<T>, key: T -> nat)
    ensures Sorted(SortByKey(s, key), key)
  {
    if s != [] {
      SortSorted(s[..|s| - 1], key);
      InsertSorted(SortByKey(s[..|s| - 1], key), s[|s| - 1], key);
    }
  }

  lemma ConcatAssoc<T>(a: seq<T>, b: seq<T>, c: seq<T>)
    ensures a + (b + c) == (a + b) + c
  {
  }

  lemma {:induction false} BucketConcat<T>(a: seq<T>, b: seq<T>, k: nat, key: T -> nat)
    ensures Bucket(a + b, k, key) == Bucket(a, k, key) + Bucket(b, k, key)
  {
    if a == [] {
      assert a + b == b;
    } else {
      var h := if key(a[0]) == k then [a[0]] else [];
      assert (a + b)[0] == a[0] && (a + b)[1..] == a[1..] + b;
      BucketConcat(a[1..], b, k, key);
      ConcatAssoc(h, Bucket(a[1..], k, key), Bucket(b, k, key));
    }
  }

  lemma {:induction false} BucketAbove<T>(r: seq<T>, k: nat, key: T -> nat)
    requires forall y :: y in r ==> k < key(y)
    ensures Bucket(r, k, key) == []
  {
    if r != [] {
      assert r[0] in r;
      assert forall y :: y in r[1..] ==> y in r;
      BucketAbove(r[1..], k, key);
    }
  }

  function Single<T>(x: T, k: nat, key: T -> nat): seq<T> {
    if key(x) == k then [x] else []
  }

  lemma BucketSingle<T>(x: T, r: seq<T>, k: nat, key: T -> nat)
    ensures Bucket([x] + r, k, key) == Single(x, k, key) + Bucket(r, k, key)
  {
    assert ([x] + r)[0] == x && ([x] + r)[1..] == r;
  }

  lemma {:induction false} InsertBucket<T>(r: seq<T>, x: T, k: nat, key: T -> nat)
    requires Sorted(r, key)
    ensures Bucket(Insert(r, x, key), k, key) == Bucket(r, k, key) + Single(x, k, key)
  {
    if r == [] {
      BucketSingle(x, [], k, key);
    } else if key(r[0]) <= key(x) {
      SortedTail(r, key);
      InsertBucket(r[1..], x, k, key);
      InsertBucketSkip(r, x, k, key);
    } else {
      InsertBucketFront(r, x, k, key);
    }
  }

  lemma SortedTail<T>(r: seq<T>, key: T -> nat)
    requires r != [] && Sorted(r, key)
    ensures Sorted(r[1..], key)
  {
    assert forall i :: 0 <= i < |r| - 1 ==> r[1..][i] == r[i + 1];
  }

  lemma InsertBucketSkip<T>(r: seq<T>, x: T, k: nat, key: T -> nat)
    requires r != [] && key(r[0]) <= key(x)
    requires Bucket(Insert(r[1..], x, key), k, key) == Bucket(r[1..], k, key) + Single(x, k, key)
    ensures Bucket(Insert(r, x, key), k, key) == Bucket(r, k, key) + Single(x, k, key)
  {
    var t := r[1..];
    assert r == [r[0]] + t;
    assert Insert(r, x, key) == [r[0]] + Insert(t, x, key);
    BucketSingle(r[0], Insert(t, x, key), k, key);
    BucketSingle(r[0], t, k, key);
    ConcatAssoc(Single(r[0], k, key), Bucket(t, k, key), Single(x, k, key));
  }

  lemma InsertBucketFront<T>(r: seq<T>, x: T, k: nat, key: T -> nat)
    requires Sorted(r, key) && r != [] && key(x) < key(r[0])
    ensures Bucket(Insert(r, x, key), k, key) == Bucket(r, k, key) + Single(x, k, key)
  {
    assert Insert(r, x, key) == [x] + r;
    SortedAbove(r, key);
    if key(x) == k {
      BucketAbove(r, k, key);
    }
    BucketSingle(x, r, k, key);
  }

  /** The sort is stable: within each key it keeps the input order. */
  lemma {:induction false} SortStable<T>(s: seq<T>, k: nat, key: T -> nat)
    ensures Bucket(SortByKey(s, key), k, key) == Bucket(s, k, key)
  {
    if s != [] {
      var init, x := s[..|s| - 1], s[|s| - 1];
      SortStable(init, k, key);
      SortSorted(init, key);
      InsertBucket(SortByKey(init, key), x, k, key);
      assert s == init + [x];
      BucketConcat(init, [x], k, key);
      BucketSingle(x, [], k, key);
    }
  }

  /** An already sorted sequence is left as it is. */
  lemma {:induction false} SortOfSorted<T>(s: seq<T>, key: T -> nat)
    requires Sorted(s, key)
    ensures SortByKey(s, key) == s
  {
    if s != [] {
      var init, x := s[..|s| - 1], s[|s| - 1];
      assert Sorted(init, key);
      SortOfSorted(init, key);
      InsertLast(init, x, key);
    }
  }

  lemma {:induction false} InsertLast<T>(r: seq<T>, x: T, key: T -> nat)
    requires forall i :: 0 <= i < |r| ==> key(r[i]) <= key(x)
    ensures Insert(r, x, key) == r + [x]
  {
    if r != [] {
      InsertLast(r[1..], x, key);
      assert r == [r[0]] + r[1..];
    }
  }

  lemma DistinctCons<T, U>(x: T, r: seq<T>, f: T -> U)
    requires DistinctBy(r, f) && forall y :: y in r ==> f(y) != f(x)
    ensures DistinctBy([x] + r, f)
  {
    var u := [x] + r;
    forall i, j | 0 <= i < j < |u| ensures f(u[i]) != f(u[j]) {
      if i == 0 { assert u[j] in r; } else { assert u[i] == r[i - 1] && u[j] == r[j - 1]; }
    }
  }

  lemma DistinctTail<T, U>(r: seq<T>, f: T -> U)
    requires r != [] && DistinctBy(r, f)
    ensures DistinctBy(r[1..], f) && forall y :: y in r[1..] ==> f(y) != f(r[0])
  {
    var t := r[1..];
    assert forall i :: 0 <= i < |t| ==> t[i] == r[i + 1];
    forall y | y in t ensures f(y) != f(r[0]) {
      var i :| 0 <= i < |t| && t[i] == y;
    }
  }

  lemma {:induction false} InsertDistinct<T, U>(r: seq<T>, x: T, key: T -> nat, f: T -> U)
    requires DistinctBy(r, f) && forall y :: y in r ==> f(y) != f(x)
    ensures DistinctBy(Insert(r, x, key), f)
  {
    if r != [] && key(r[0]) <= key(x) {
      var t := r[1..];
      DistinctTail(r, f);
      assert forall y :: y in t ==> y in r;
      InsertDistinct(t, x, key, f);
      InsertPerm(t, x, key);
      var s := Insert(t, x, key);
      forall y | y in s ensures f(y) != f(r[0]) {
        assert y in multiset(s);
        assert y == x || y in t;
      }
      DistinctCons(r[0], s, f);
    } else if r != [] {
      DistinctCons(x, r, f);
    }
  }

  /** Sorting keeps elements distinct under any projection. */
  lemma {:induction false} SortDistinct<T, U>(s: seq<T>, key: T -> nat, f: T -> U)
    requires DistinctBy(s, f)
    ensures DistinctBy(SortByKey(s, key), f)
  {
    if s != [] {
      var init, x := s[..|s| - 1], s[|s| - 1];
      assert DistinctBy(init, f);
      SortDistinct(init, key, f);
      SortPerm(init, key);
      forall y | y in SortByKey(init, key) ensures f(y) != f(x) {
        assert y in multiset(SortByKey(init, key));
        var i :| 0 <= i < |init| && init[i] == y;
      }
      InsertDistinct(SortByKey(init, key), x, key, f);
    }
  }

  /** A prefix keeps a prefix of every bucket. */
  lemma BucketOfPrefix<T>(s: seq<T>, m: nat, k: nat, key: T -> nat)
    requires m <= |s|
    ensures Bucket(s[..m], k, key) <= Bucket(s, k, key)
  {
    assert s == s[..m] + s[m..];
    BucketConcat(s[..m], s[m..], k, key);
  }
}
