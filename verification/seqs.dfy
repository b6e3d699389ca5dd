/** Sequence helpers: the stable descending sort that `Array.prototype.sort` performs with a
    comparator of the form `(a, b) => key(b) - key(a)`. */
module Seqs {

  /** Keys never increase along `xs`. */
  predicate NonIncreasing<T>(xs: seq<T>, key: T -> int) {
    forall i, j :: 0 <= i < j < |xs| ==> key(xs[i]) >= key(xs[j])
  }

  /** Inserts `x` before the first element whose key is not larger than its own. */
  function Insert<T>(x: T, xs: seq<T>, key: T -> int): (r: seq<T>)
    requires NonIncreasing(xs, key)
    ensures NonIncreasing(r, key)
    ensures multiset(r) == multiset(xs) + multiset{x}
    ensures |r| == |xs| + 1
    ensures r[0] == x || (|xs| > 0 && r[0] == xs[0])
  {
    if |xs| == 0 then [x]
    else if key(x) >= key(xs[0]) then [x] + xs
    else
      var rest := Insert(x, xs[1..], key);
      assert key(rest[0]) <= key(xs[0]);
      assert xs == [xs[0]] + xs[1..];
      var r := [xs[0]] + rest;
      assert forall j :: 0 < j < |r| ==> r[j] == rest[j - 1] && key(rest[j - 1]) <= key(rest[0]);
      r
  }

  /** The stable sort by `key`, largest key first. */
  function SortDesc<T>(xs: seq<T>, key: T -> int): (r: seq<T>)
    ensures NonIncreasing(r, key)
    ensures multiset(r) == multiset(xs)
    ensures |r| == |xs|
  {
    if |xs| == 0 then []
    else
      assert xs == [xs[0]] + xs[1..];
      Insert(xs[0], SortDesc(xs[1..], key), key)
  }

  /** The elements whose key is `k`, in their order in `xs`. */
  function WithKey<T>(xs: seq<T>, key: T -> int, k: int): seq<T> {
    if |xs| == 0 then []
    else (if key(xs[0]) == k then [xs[0]] else []) + WithKey(xs[1..], key, k)
  }

  lemma {:induction false} InsertWithKey<T>(x: T, xs: seq<T>, key: T -> int, k: int)
    requires NonIncreasing(xs, key)
    ensures WithKey(Insert(x, xs, key), key, k) == (if key(x) == k then [x] else []) + WithKey(xs, key, k)
    decreases |xs|
  {
    if |xs| == 0 {
    } else if key(x) >= key(xs[0]) {
      assert ([x] + xs)[1..] == xs;
    } else {
      var rest := Insert(x, xs[1..], key);
      var r := [xs[0]] + rest;
      assert r == Insert(x, xs, key);
      var a: seq<T> := if key(xs[0]) == k then [xs[0]] else [];
      var b: seq<T> := if key(x) == k then [x] else [];
      assert r[1..] == rest;
      assert WithKey(r, key, k) == a + WithKey(rest, key, k);
      InsertWithKey(x, xs[1..], key, k);
      var w := WithKey(xs[1..], key, k);
      assert WithKey(xs, key, k) == a + w;
      if key(xs[0]) == k {
        assert b == [];
        assert b + w == w && b + (a + w) == a + w;
      } else {
        assert a == [];
        assert a + (b + w) == b + w && a + w == w;
      }
    }
  }

  /** Stability: elements with equal keys keep their relative order. */
  lemma {:induction false} SortDescIsStable<T>(xs: seq<T>, key: T -> int, k: int)
    ensures WithKey(SortDesc(xs, key), key, k) == WithKey(xs, key, k)
    decreases |xs|
  {
    if |xs| > 0 {
      SortDescIsStable(xs[1..], key, k);
      InsertWithKey(xs[0], SortDesc(xs[1..], key), key, k);
    }
  }

  /** An already sorted sequence is left as it is. */
  lemma {:induction false} SortDescOfSorted<T>(xs: seq<T>, key: T -> int)
    requires NonIncreasing(xs, key)
    ensures SortDesc(xs, key) == xs
    decreases |xs|
  {
    if |xs| > 0 {
      assert NonIncreasing(xs[1..], key);
      SortDescOfSorted(xs[1..], key);
      if |xs| > 1 {
        assert key(xs[0]) >= key(xs[1]);
      }
      assert [xs[0]] + xs[1..] == xs;
    }
  }
}
