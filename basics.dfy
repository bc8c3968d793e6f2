/** Facts about integers and sequences that several parts of the program
    rely on: the minimum and maximum, and sequences without repetitions. */
module Basics {

  function Min(a: int, b: int): int { if a <= b then a else b }
  function Max(a: int, b: int): int { if a >= b then a else b }

  /** No element occurs twice. */
  predicate Distinct<T(==)>(s: seq<T>) {
    forall i, j :: 0 <= i < j < |s| ==> s[i] != s[j]
  }

  /** In a sequence without repetitions every element occurs once. */
  lemma {:induction false} DistinctOccursOnce<T>(s: seq<T>, x: T)
    requires Distinct(s)
    ensures multiset(s)[x] <= 1
  {
    if s != [] {
      var t := s[..|s| - 1];
      assert s == t + [s[|s| - 1]];
      assert Distinct(t);
      DistinctOccursOnce(t, x);
      if x == s[|s| - 1] {
        assert x !in t;
      }
    }
  }

  /** Drawing without replacement from a pool without repetitions gives a
      selection without repetitions. */
  lemma SelectionDistinct<T>(pool: seq<T>, r: seq<T>)
    requires multiset(r) <= multiset(pool)
    requires Distinct(pool)
    ensures Distinct(r)
  {
    forall i, j | 0 <= i < j < |r| ensures r[i] != r[j] {
      if r[i] == r[j] {
        var x := r[i];
        var rest := r[..i] + r[i + 1..];
        assert r == r[..i] + [x] + r[i + 1..];
        assert r[j] in rest by {
          assert rest[j - 1] == r[j];
        }
        assert multiset(r) == multiset(rest) + multiset{x};
        assert multiset(r)[x] >= 2;
        DistinctOccursOnce(pool, x);
        assert false;
      }
    }
  }
}
