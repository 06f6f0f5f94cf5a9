/** Facts about sequences without repeated elements, used to show that a
    generator emits every constraint exactly once. */
module Sequences {

  /** No element occurs twice in `s`. */
  predicate Distinct<T(==)>(s: seq<T>)
  {
    forall k, m :: 0 <= k < m < |s| ==> s[k] != s[m]
  }

  /** Two duplicate-free sequences with no common element concatenate to a
      duplicate-free sequence. */
  lemma DistinctConcat<T>(a: seq<T>, b: seq<T>)
    requires Distinct(a) && Distinct(b)
    requires forall x :: x in a ==> x !in b
    ensures Distinct(a + b)
  {
    forall k, m | 0 <= k < m < |a + b|
      ensures (a + b)[k] != (a + b)[m]
    {
      if k < |a| && |a| <= m {
        assert (a + b)[k] in a && (a + b)[m] == b[m - |a|];
      }
    }
  }

  /** An element of a duplicate-free sequence occurs in it exactly once. */
  lemma {:induction false} DistinctCount<T>(s: seq<T>, x: T)
    requires Distinct(s)
    ensures multiset(s)[x] == if x in s then 1 else 0
  {
    if s != [] {
      var init := s[..|s| - 1];
      assert s == init + [s[|s| - 1]];
      assert Distinct(init);
      forall k | 0 <= k < |init|
        ensures init[k] != s[|s| - 1]
      {
        assert init[k] == s[k];
      }
      DistinctCount(init, x);
    }
  }
}
