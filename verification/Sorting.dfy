/** The stable sort by a key. */
module Sorting {

  predicate Ordered<T>(xs: seq<T>, key: T -> int) {
    forall i, j :: 0 <= i < j < |xs| ==> key(xs[i]) <= key(xs[j])
  }

  function SortBy<T>(xs: seq<T>, key: T -> int): (s: seq<T>)
    ensures |s| == |xs|
  {
    if xs == [] then [] else Insert(xs[|xs| - 1], SortBy(xs[..|xs| - 1], key), key)
  }

  /** After the elements whose key is not greater. */
  function Insert<T>(x: T, sorted: seq<T>, key: T -> int): (s: seq<T>)
    ensures |s| == |sorted| + 1
  {
    if sorted == [] || key(sorted[|sorted| - 1]) <= key(x) then sorted + [x]
    else Insert(x, sorted[..|sorted| - 1], key) + [sorted[|sorted| - 1]]
  }

  lemma {:induction false} InsertPermutes<T>(x: T, sorted: seq<T>, key: T -> int)
    ensures multiset(Insert(x, sorted, key)) == multiset(sorted) + multiset{x}
  {
    if !(sorted == [] || key(sorted[|sorted| - 1]) <= key(x)) {
      InsertPermutes(x, sorted[..|sorted| - 1], key);
      assert sorted == sorted[..|sorted| - 1] + [sorted[|sorted| - 1]];
    }
  }

  lemma {:induction false} InsertOrdered<T>(x: T, sorted: seq<T>, key: T -> int)
    requires Ordered(sorted, key)
    ensures Ordered(Insert(x, sorted, key), key)
  {
    if !(sorted == [] || key(sorted[|sorted| - 1]) <= key(x)) {
      var rest, last := sorted[..|sorted| - 1], sorted[|sorted| - 1];
      InsertOrdered(x, rest, key);
      InsertPermutes(x, rest, key);
      hide Insert;
      forall y | y in Insert(x, rest, key) ensures key(y) <= key(last) {
        assert y in multiset(Insert(x, rest, key));
      }
    }
  }

  /** The sort orders its input by the key and permutes it. */
  lemma {:induction false} SortedBy<T>(xs: seq<T>, key: T -> int)
    ensures Ordered(SortBy(xs, key), key) && multiset(SortBy(xs, key)) == multiset(xs)
  {
    if xs != [] {
      var rest, last := xs[..|xs| - 1], xs[|xs| - 1];
      assert xs == rest + [last];
      SortedBy(rest, key);
      InsertOrdered(last, SortBy(rest, key), key);
      InsertPermutes(last, SortBy(rest, key), key);
    }
  }

  /** Elements with the same key keep their order. */
  lemma {:induction false} SortStable<T>(xs: seq<T>, key: T -> int, k: int)
    ensures WithKey(SortBy(xs, key), key, k) == WithKey(xs, key, k)
  {
    if xs != [] {
      SortStable(xs[..|xs| - 1], key, k);
      SortedBy(xs[..|xs| - 1], key);
      InsertStable(xs[|xs| - 1], SortBy(xs[..|xs| - 1], key), key, k);
    }
  }

  function WithKey<T>(xs: seq<T>, key: T -> int, k: int): seq<T> {
    if xs == [] then []
    else
      var rest := WithKey(xs[..|xs| - 1], key, k);
      if key(xs[|xs| - 1]) == k then rest + [xs[|xs| - 1]] else rest
  }

  lemma {:induction false} InsertStable<T>(x: T, sorted: seq<T>, key: T -> int, k: int)
    requires Ordered(sorted, key)
    ensures WithKey(Insert(x, sorted, key), key, k) == WithKey(sorted, key, k) + if key(x) == k then [x] else []
  {
    if sorted == [] || key(sorted[|sorted| - 1]) <= key(x) {
      assert (sorted + [x])[..|sorted|] == sorted;
    } else {
      var rest, last := sorted[..|sorted| - 1], sorted[|sorted| - 1];
      InsertStable(x, rest, key, k);
      assert (Insert(x, rest, key) + [last])[..|rest| + 1] == Insert(x, rest, key);
    }
  }
}
