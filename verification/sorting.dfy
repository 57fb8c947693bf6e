/** Ordering of query results (an ORDER BY clause): an insertion sort by a
    caller-given "may come before" relation, which must be a total preorder. */
module Sorting {

  /** Any two values can be put in some order. */
  ghost predicate Total<T(!new)>(before: (T, T) -> bool) {
    forall a, b :: before(a, b) || before(b, a)
  }

  ghost predicate Transitive<T(!new)>(before: (T, T) -> bool) {
    forall a, b, c :: before(a, b) && before(b, c) ==> before(a, c)
  }

  /** Every element may come before every later one. */
  ghost predicate SortedBy<T>(s: seq<T>, before: (T, T) -> bool) {
    forall i, j :: 0 <= i < j < |s| ==> before(s[i], s[j])
  }

  /** Places `x` ahead of the first element it may come before. */
  function Insert<T>(x: T, s: seq<T>, before: (T, T) -> bool): (r: seq<T>)
    ensures multiset(r) == multiset(s) + multiset{x}
  {
    if s == [] then [x]
    else if before(x, s[0]) then [x] + s
    else
      assert s == [s[0]] + s[1..];
      [s[0]] + Insert(x, s[1..], before)
  }

  function SortBy<T>(s: seq<T>, before: (T, T) -> bool): (r: seq<T>)
    ensures multiset(r) == multiset(s)
  {
    if s == [] then []
    else
      assert s == [s[0]] + s[1..];
      Insert(s[0], SortBy(s[1..], before), before)
  }

  lemma {:induction false} InsertSorted<T(!new)>(x: T, s: seq<T>, before: (T, T) -> bool)
    requires Total(before) && Transitive(before)
    requires SortedBy(s, before)
    ensures SortedBy(Insert(x, s, before), before)
  {
    if s != [] && !before(x, s[0]) {
      var tail := s[1..];
      InsertSorted(x, tail, before);
      var r := Insert(x, tail, before);
      assert before(s[0], x);
      forall y | y in r ensures before(s[0], y) {
        assert y in multiset(r);
        if y != x {
          assert y in multiset(tail);
          var j :| 0 <= j < |tail| && tail[j] == y;
          assert s[j + 1] == y;
        }
      }
      var out := [s[0]] + r;
      forall i, j | 0 <= i < j < |out| ensures before(out[i], out[j]) {
        if i == 0 {
          assert out[j] in r;
        } else {
          assert out[i] == r[i - 1] && out[j] == r[j - 1];
        }
      }
    } else if s != [] {
      var out := [x] + s;
      forall i, j | 0 <= i < j < |out| ensures before(out[i], out[j]) {
        if i == 0 && j > 1 {
          assert before(x, s[0]) && before(s[0], s[j - 1]);
        }
      }
    }
  }

  lemma {:induction false} SortBySorted<T(!new)>(s: seq<T>, before: (T, T) -> bool)
    requires Total(before) && Transitive(before)
    ensures SortedBy(SortBy(s, before), before)
  {
    if s != [] {
      SortBySorted(s[1..], before);
      InsertSorted(s[0], SortBy(s[1..], before), before);
    }
  }

  /** Sorting neither loses nor invents a value. */
  lemma SortBySameElements<T>(s: seq<T>, before: (T, T) -> bool)
    ensures forall x | x in SortBy(s, before) :: x in s
    ensures forall x | x in s :: x in SortBy(s, before)
  {
    var r := SortBy(s, before);
    assert forall x | x in r :: x in multiset(r);
    assert forall x | x in s :: x in multiset(s);
  }
}
