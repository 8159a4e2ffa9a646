/**
 * Python's stable `sort(key=..., reverse=True)` on a list: the elements in order of decreasing
 * key, elements with equal keys in their original order. `TestExpectations` sorts its globs
 * this way, by the length of their pattern (typ/expectations_parser.py).
 */
module Ordering {
  /** Every element's key is at least the key of every element after it. */
  ghost predicate Descending<T>(xs: seq<T>, key: T -> nat) {
    forall i, j | 0 <= i < j < |xs| :: key(xs[i]) >= key(xs[j])
  }

  /** The elements whose key is `k`, in order. */
  function WithKey<T>(xs: seq<T>, key: T -> nat, k: nat): (r: seq<T>)
    ensures |r| <= |xs|
  {
    if xs == [] then []
    else (if key(xs[0]) == k then [xs[0]] else []) + WithKey(xs[1..], key, k)
  }

  /** `x` placed in front of the first element whose key is not larger than its own. */
  function InsertByKey<T(==)>(x: T, xs: seq<T>, key: T -> nat): (r: seq<T>)
    ensures multiset(r) == multiset(xs) + multiset{x}
  {
    if xs == [] || key(xs[0]) <= key(x) then [x] + xs
    else
      assert xs == [xs[0]] + xs[1..];
      [xs[0]] + InsertByKey(x, xs[1..], key)
  }

  /** The stable sort by decreasing key (an insertion sort). */
  function SortByKey<T(==)>(xs: seq<T>, key: T -> nat): (r: seq<T>)
    ensures multiset(r) == multiset(xs) && |r| == |xs|
  {
    if xs == [] then []
    else
      assert xs == [xs[0]] + xs[1..];
      InsertByKey(xs[0], SortByKey(xs[1..], key), key)
  }

  /** No key exceeds `b`. */
  ghost predicate AtMost<T>(xs: seq<T>, key: T -> nat, b: nat) {
    forall i | 0 <= i < |xs| :: key(xs[i]) <= b
  }

  lemma ConsDescending<T>(x: T, xs: seq<T>, key: T -> nat)
    requires Descending(xs, key) && AtMost(xs, key, key(x))
    ensures Descending([x] + xs, key)
  {
    var r := [x] + xs;
    forall i, j | 0 <= i < j < |r| ensures key(r[i]) >= key(r[j]) {
      assert r[j] == xs[j - 1];
      if i > 0 {
        assert r[i] == xs[i - 1];
      }
    }
  }

  lemma {:induction false} InsertAtMost<T>(x: T, xs: seq<T>, key: T -> nat, b: nat)
    requires AtMost(xs, key, b) && key(x) <= b
    ensures AtMost(InsertByKey(x, xs, key), key, b)
    decreases |xs|
  {
    if xs != [] && key(xs[0]) > key(x) {
      InsertAtMost(x, xs[1..], key, b);
    }
  }

  lemma {:induction false} InsertKeepsDescending<T>(x: T, xs: seq<T>, key: T -> nat)
    requires Descending(xs, key)
    ensures Descending(InsertByKey(x, xs, key), key)
    decreases |xs|
  {
    if xs == [] || key(xs[0]) <= key(x) {
      ConsDescending(x, xs, key);
    } else {
      assert Descending(xs[1..], key);
      InsertKeepsDescending(x, xs[1..], key);
      InsertAtMost(x, xs[1..], key, key(xs[0]));
      ConsDescending(xs[0], InsertByKey(x, xs[1..], key), key);
    }
  }

  /** The sort puts the elements in order of decreasing key. */
  lemma {:induction false} SortByKeyDescending<T>(xs: seq<T>, key: T -> nat)
    ensures Descending(SortByKey(xs, key), key)
    decreases |xs|
  {
    if xs != [] {
      SortByKeyDescending(xs[1..], key);
      InsertKeepsDescending(xs[0], SortByKey(xs[1..], key), key);
    }
  }

  lemma WithKeyCons<T>(y: T, ys: seq<T>, key: T -> nat, k: nat)
    ensures WithKey([y] + ys, key, k) == (if key(y) == k then [y] else []) + WithKey(ys, key, k)
  {
    assert ([y] + ys)[0] == y && ([y] + ys)[1..] == ys;
  }

  lemma {:induction false} WithKeyInsert<T>(x: T, xs: seq<T>, key: T -> nat, k: nat)
    ensures WithKey(InsertByKey(x, xs, key), key, k) == (if key(x) == k then [x] else []) + WithKey(xs, key, k)
    decreases |xs|
  {
    if xs == [] || key(xs[0]) <= key(x) {
      WithKeyCons(x, xs, key, k);
    } else {
      var rest := InsertByKey(x, xs[1..], key);
      WithKeyCons(xs[0], rest, key, k);
      WithKeyInsert(x, xs[1..], key, k);
      assert xs == [xs[0]] + xs[1..];
      WithKeyCons(xs[0], xs[1..], key, k);
      // `xs[0]` and `x` have different keys, so at most one of them has key `k`.
      SwapEmpty(if key(xs[0]) == k then [xs[0]] else [], if key(x) == k then [x] else [], WithKey(xs[1..], key, k));
    }
  }

  lemma SwapEmpty<T>(a: seq<T>, b: seq<T>, w: seq<T>)
    requires a == [] || b == []
    ensures a + (b + w) == b + (a + w)
  {
    if a == [] {
      assert a + (b + w) == b + w == b + (a + w);
    } else {
      assert a + (b + w) == a + w == b + (a + w);
    }
  }

  /** The sort is stable: the elements of each key keep their order. */
  lemma {:induction false} SortByKeyStable<T>(xs: seq<T>, key: T -> nat, k: nat)
    ensures WithKey(SortByKey(xs, key), key, k) == WithKey(xs, key, k)
    decreases |xs|
  {
    if xs != [] {
      SortByKeyStable(xs[1..], key, k);
      WithKeyInsert(xs[0], SortByKey(xs[1..], key), key, k);
    }
  }

  /** Elements already in order of decreasing key are left as they are. */
  lemma {:induction false} SortDescendingIsIdentity<T>(xs: seq<T>, key: T -> nat)
    requires Descending(xs, key)
    ensures SortByKey(xs, key) == xs
    decreases |xs|
  {
    if xs != [] {
      assert Descending(xs[1..], key);
      SortDescendingIsIdentity(xs[1..], key);
      assert xs == [xs[0]] + xs[1..];
    }
  }
}
