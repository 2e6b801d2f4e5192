/**
  A stable insertion sort of a sequence by a string key, in the lexicographic
  order of `Lex`, together with the facts the dependency summary needs:
  the result is a permutation, it is sorted, elements with equal keys keep
  their relative order, and a strictly increasing sequence of strings is
  determined by its set of elements.
 */
module Sorting {
  import opened Lex

  /** Every element's key is at or below the key of every later element. */
  ghost predicate SortedBy<T>(xs: seq<T>, key: T -> string)
  {
    forall i, j :: 0 <= i < j < |xs| ==> Le(key(xs[i]), key(xs[j]))
  }

  /** Strictly increasing: sorted and free of duplicates. */
  ghost predicate StrictlySorted(xs: seq<string>)
  {
    forall i, j :: 0 <= i < j < |xs| ==> Lt(xs[i], xs[j])
  }

  ghost predicate Distinct<T>(xs: seq<T>)
  {
    forall i, j :: 0 <= i < j < |xs| ==> xs[i] != xs[j]
  }

  /** The identity key, for sorting strings by themselves. */
  function Itself(s: string): string
  {
    s
  }

  /** Inserts `x` before the first element whose key is not below `x`'s. */
  function Insert<T>(x: T, s: seq<T>, key: T -> string): (r: seq<T>)
    ensures multiset(r) == multiset(s) + multiset{x}
  {
    if |s| == 0 then [x]
    else if Le(key(x), key(s[0])) then [x] + s
    else
      assert s == [s[0]] + s[1..];
      [s[0]] + Insert(x, s[1..], key)
  }

  lemma {:induction false} InsertKeepsSorted<T>(x: T, s: seq<T>, key: T -> string)
    requires SortedBy(s, key)
    ensures SortedBy(Insert(x, s, key), key)
  {
    if |s| == 0 {
    } else if Le(key(x), key(s[0])) {
      forall j | 0 <= j < |s|
        ensures Le(key(x), key(s[j]))
      {
        if j > 0 {
          LeTransitive(key(x), key(s[0]), key(s[j]));
        }
      }
    } else {
      LeTotal(key(x), key(s[0]));
      InsertKeepsSorted(x, s[1..], key);
      var rest := Insert(x, s[1..], key);
      forall y | y in rest
        ensures Le(key(s[0]), key(y))
      {
        assert y in multiset(rest);
        if y != x {
          assert y in s[1..];
        }
      }
    }
  }

  /** The sort: each element, from the last to the first, is inserted into
      the sorted remainder, so earlier elements precede later equal ones. */
  function SortBy<T>(xs: seq<T>, key: T -> string): (r: seq<T>)
    ensures multiset(r) == multiset(xs)
    ensures SortedBy(r, key)
  {
    if |xs| == 0 then []
    else
      var rest := SortBy(xs[1..], key);
      InsertKeepsSorted(xs[0], rest, key);
      assert xs == [xs[0]] + xs[1..];
      Insert(xs[0], rest, key)
  }

  /** The elements of `xs` whose key is `k`, in their order in `xs`. */
  function WithKey<T>(xs: seq<T>, key: T -> string, k: string): seq<T>
  {
    if |xs| == 0 then []
    else (if key(xs[0]) == k then [xs[0]] else []) + WithKey(xs[1..], key, k)
  }

  lemma WithKeyCons<T>(y: T, t: seq<T>, key: T -> string, k: string)
    ensures key(y) == k ==> WithKey([y] + t, key, k) == [y] + WithKey(t, key, k)
    ensures key(y) != k ==> WithKey([y] + t, key, k) == WithKey(t, key, k)
  {
    assert ([y] + t)[0] == y && ([y] + t)[1..] == t;
    assert [] + WithKey(t, key, k) == WithKey(t, key, k);
  }

  lemma {:induction false} InsertWithKey<T>(x: T, s: seq<T>, key: T -> string, k: string)
    ensures key(x) == k ==> WithKey(Insert(x, s, key), key, k) == [x] + WithKey(s, key, k)
    ensures key(x) != k ==> WithKey(Insert(x, s, key), key, k) == WithKey(s, key, k)
    decreases |s|, 1
  {
    if |s| == 0 || Le(key(x), key(s[0])) {
      assert Insert(x, s, key) == [x] + s;
      WithKeyCons(x, s, key, k);
    } else {
      InsertAfterHead(x, s, key, k);
    }
  }

  lemma {:induction false} InsertAfterHead<T>(x: T, s: seq<T>, key: T -> string, k: string)
    requires |s| > 0 && !Le(key(x), key(s[0]))
    ensures key(x) == k ==> WithKey(Insert(x, s, key), key, k) == [x] + WithKey(s, key, k)
    ensures key(x) != k ==> WithKey(Insert(x, s, key), key, k) == WithKey(s, key, k)
    decreases |s|, 0
  {
    var rest := Insert(x, s[1..], key);
    assert Insert(x, s, key) == [s[0]] + rest;
    assert s == [s[0]] + s[1..];
    WithKeyCons(s[0], rest, key, k);
    WithKeyCons(s[0], s[1..], key, k);
    InsertWithKey(x, s[1..], key, k);
    if key(x) == k {
      LeReflexive(key(x));
      assert key(s[0]) != k;
    } else if key(s[0]) == k {
      assert WithKey(Insert(x, s, key), key, k) == [s[0]] + WithKey(s[1..], key, k);
    }
  }

  /** Stability: for every key, the elements carrying it appear in the
      sorted output in the same order as in the input. */
  lemma {:induction false} SortByStable<T>(xs: seq<T>, key: T -> string, k: string)
    ensures WithKey(SortBy(xs, key), key, k) == WithKey(xs, key, k)
  {
    if |xs| > 0 {
      SortByStable(xs[1..], key, k);
      InsertWithKey(xs[0], SortBy(xs[1..], key), key, k);
    }
  }

  lemma {:induction false} DistinctMultiplicity<T>(xs: seq<T>, y: T)
    requires Distinct(xs)
    ensures multiset(xs)[y] <= 1
  {
    if |xs| > 0 {
      assert xs == [xs[0]] + xs[1..];
      DistinctMultiplicity(xs[1..], y);
      if y == xs[0] {
        assert y !in xs[1..];
      }
    }
  }

  /** A permutation of a duplicate-free sequence is duplicate-free. */
  lemma PermutationKeepsDistinct<T>(a: seq<T>, b: seq<T>)
    requires Distinct(a) && multiset(a) == multiset(b)
    ensures Distinct(b)
  {
    forall i, j | 0 <= i < j < |b|
      ensures b[i] != b[j]
    {
      if b[i] == b[j] {
        assert b == b[..j] + b[j..];
        assert b[i] in b[..j] && b[j] in b[j..];
        assert multiset(b)[b[i]] >= 2;
        DistinctMultiplicity(a, b[i]);
        assert false;
      }
    }
  }

  /** Sorting a duplicate-free list of strings gives a strictly increasing list
      with the same elements. */
  lemma SortDistinctStrict(xs: seq<string>)
    requires Distinct(xs)
    ensures StrictlySorted(SortBy(xs, Itself))
    ensures forall s :: s in SortBy(xs, Itself) <==> s in xs
  {
    var r := SortBy(xs, Itself);
    PermutationKeepsDistinct(xs, r);
    forall s
      ensures s in r <==> s in xs
    {
      assert s in r <==> s in multiset(r);
      assert s in xs <==> s in multiset(xs);
    }
  }

  /** A strictly increasing sequence of strings is determined by its elements. */
  lemma {:induction false} StrictlySortedUnique(a: seq<string>, b: seq<string>)
    requires StrictlySorted(a) && StrictlySorted(b)
    requires forall s :: s in a <==> s in b
    ensures a == b
    decreases |a|
  {
    assert |b| > 0 ==> b[0] in a;
    if |a| > 0 {
      assert a[0] in a;
      var j :| 0 <= j < |b| && b[j] == a[0];
      assert b[0] in b;
      var i :| 0 <= i < |a| && a[i] == b[0];
      if i > 0 && j > 0 {
        LeAntisymmetric(a[0], b[0]);
      }
      assert a[0] == b[0];
      forall s
        ensures s in a[1..] <==> s in b[1..]
      {
        if s in a[1..] {
          var p :| 1 <= p < |a| && a[p] == s;
          assert s in b && s != b[0];
        }
        if s in b[1..] {
          var q :| 1 <= q < |b| && b[q] == s;
          assert s in a && s != a[0];
        }
      }
      StrictlySortedUnique(a[1..], b[1..]);
      assert a == [a[0]] + a[1..];
      assert b == [b[0]] + b[1..];
    }
  }
}
