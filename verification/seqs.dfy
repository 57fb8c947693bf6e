/** Sequence helpers that stand for the relational operations the ORM performs:
    reading a table in primary-key order and a WHERE filter over its rows. */
module Seqs {

  /** Every value occurs at most once. */
  ghost predicate NoDuplicates<T>(s: seq<T>) {
    forall x | x in s :: multiset(s)[x] == 1
  }

  /** The rows of `s` that satisfy `p`, in their original order. */
  function Filter<T>(s: seq<T>, p: T -> bool): (r: seq<T>)
    ensures |r| <= |s|
    ensures forall x | x in r :: x in s && p(x)
    ensures forall x | x in s && p(x) :: x in r
    ensures multiset(r) <= multiset(s)
  {
    if s == [] then []
    else
      assert s == [s[0]] + s[1..];
      (if p(s[0]) then [s[0]] else []) + Filter(s[1..], p)
  }

  lemma FilterKeepsNoDuplicates<T>(s: seq<T>, p: T -> bool)
    requires NoDuplicates(s)
    ensures NoDuplicates(Filter(s, p))
  {
    var r := Filter(s, p);
    forall x | x in r ensures multiset(r)[x] == 1 {
      assert multiset(r)[x] <= multiset(s)[x];
    }
  }

  /** The values of a table keyed by natural numbers, for the keys below `n`,
      in increasing key order (a table read in primary-key order). */
  function InKeyOrder<T>(m: map<nat, T>, n: nat): (r: seq<T>)
    ensures forall x | x in r :: exists k :: k < n && k in m && m[k] == x
    ensures forall k | k < n && k in m :: m[k] in r
  {
    if n == 0 then []
    else
      var r := InKeyOrder(m, n - 1);
      r + (if n - 1 in m then [m[n - 1]] else [])
  }

  /** A table whose rows are pairwise distinct reads back without duplicates. */
  lemma {:induction false} InKeyOrderNoDuplicates<T>(m: map<nat, T>, n: nat)
    requires forall a, b :: a in m && b in m && m[a] == m[b] ==> a == b
    ensures NoDuplicates(InKeyOrder(m, n))
  {
    if n > 0 {
      InKeyOrderNoDuplicates(m, n - 1);
      var r := InKeyOrder(m, n - 1);
      if n - 1 in m {
        var x := m[n - 1];
        assert x !in r;
        assert multiset(InKeyOrder(m, n)) == multiset(r) + multiset{x};
      } else {
        assert InKeyOrder(m, n) == r;
      }
    }
  }

  /** `key` strictly increases along `s`. */
  ghost predicate Increasing<T>(s: seq<T>, key: T -> int) {
    forall i, j :: 0 <= i < j < |s| ==> key(s[i]) < key(s[j])
  }

  /** A sequence along which a key strictly increases holds each value once. */
  lemma {:induction false} IncreasingNoDuplicates<T>(s: seq<T>, key: T -> int)
    requires Increasing(s, key)
    ensures NoDuplicates(s)
  {
    if s != [] {
      IncreasingHead(s, key);
      IncreasingNoDuplicates(s[1..], key);
      assert s == [s[0]] + s[1..];
      assert s[0] !in s[1..];
      assert multiset(s) == multiset{s[0]} + multiset(s[1..]);
    }
  }

  lemma IncreasingCons<T>(x: T, r: seq<T>, key: T -> int)
    requires Increasing(r, key) && forall y | y in r :: key(x) < key(y)
    ensures Increasing([x] + r, key)
  {
    var xr := [x] + r;
    forall i, j | 0 <= i < j < |xr| ensures key(xr[i]) < key(xr[j]) {
      assert xr[j] == r[j - 1];
      if i > 0 {
        assert xr[i] == r[i - 1];
      }
    }
  }

  lemma IncreasingHead<T>(s: seq<T>, key: T -> int)
    requires s != [] && Increasing(s, key)
    ensures Increasing(s[1..], key)
    ensures forall y | y in s[1..] :: key(s[0]) < key(y)
  {
    var tail := s[1..];
    forall i, j | 0 <= i < j < |tail| ensures key(tail[i]) < key(tail[j]) {
      assert tail[i] == s[i + 1] && tail[j] == s[j + 1];
    }
    forall y | y in tail ensures key(s[0]) < key(y) {
      var k :| 0 <= k < |tail| && tail[k] == y;
      assert y == s[k + 1];
    }
  }

  /** Filtering keeps the rows in their order. */
  lemma {:induction false} FilterKeepsIncreasing<T>(s: seq<T>, p: T -> bool, key: T -> int)
    requires Increasing(s, key)
    ensures Increasing(Filter(s, p), key)
  {
    if s != [] {
      var tail := s[1..];
      var rest := Filter(tail, p);
      IncreasingHead(s, key);
      FilterKeepsIncreasing(tail, p, key);
      if p(s[0]) {
        IncreasingCons(s[0], rest, key);
        assert Filter(s, p) == [s[0]] + rest;
      } else {
        assert Filter(s, p) == rest;
      }
    }
  }

  /** A table read in key order lists its rows by increasing key. */
  lemma {:induction false} InKeyOrderIncreasing<T>(m: map<nat, T>, n: nat, key: T -> int)
    requires forall k | k in m :: key(m[k]) == k
    ensures Increasing(InKeyOrder(m, n), key)
  {
    if n > 0 {
      InKeyOrderIncreasing(m, n - 1, key);
      forall x | x in InKeyOrder(m, n - 1) ensures key(x) < n - 1 {
        var k :| k < n - 1 && k in m && m[k] == x;
      }
    }
  }

  /** Two tests that agree on every row select the same rows. */
  lemma {:induction false} FilterAgreeing<T>(s: seq<T>, p: T -> bool, q: T -> bool)
    requires forall x | x in s :: p(x) == q(x)
    ensures Filter(s, p) == Filter(s, q)
  {
    if s != [] {
      assert s[0] in s;
      assert forall x | x in s[1..] :: x in s;
      FilterAgreeing(s[1..], p, q);
    }
  }
}
