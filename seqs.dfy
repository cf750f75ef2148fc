/**
 Sequences of keys as the cache keeps them: duplicate-free, and edited by an
 order-preserving filter (the behaviour of Go's `slices.DeleteFunc` with the
 predicate `k == key`).
 */
module Seqs {

  /** No element occurs twice. */
  predicate Distinct<T(==)>(s: seq<T>) {
    forall i, j :: 0 <= i < j < |s| ==> s[i] != s[j]
  }

  /**
   `s` with every occurrence of `x` taken out and everything else kept in its
   relative order. Defined element by element from the back, the order in which
   a filtering loop over `s` builds it.
   */
  function Without<T(==)>(s: seq<T>, x: T): (r: seq<T>)
    ensures |r| <= |s|
  {
    if s == [] then []
    else
      var last := s[|s| - 1];
      Without(s[..|s| - 1], x) + (if last == x then [] else [last])
  }

  /** Filtering takes out `x` and nothing else. */
  lemma {:induction false} WithoutMembers<T>(s: seq<T>, x: T)
    ensures forall y :: y in Without(s, x) ==> y in s && y != x
    ensures forall y :: y in s && y != x ==> y in Without(s, x)
  {
    if s != [] {
      var init, last := s[..|s| - 1], s[|s| - 1];
      WithoutMembers(init, x);
      assert s == init + [last];
      assert forall y :: y in s <==> y in init || y == last;
    }
  }

  /** Appending a new element keeps a sequence duplicate-free. */
  lemma DistinctSnoc<T>(s: seq<T>, x: T)
    requires Distinct(s) && x !in s
    ensures Distinct(s + [x])
  {
    forall i, j | 0 <= i < j < |s + [x]| ensures (s + [x])[i] != (s + [x])[j] {
      if j == |s| {
        assert s[i] in s;
      }
    }
  }

  /** Filtering out an element that is not there changes nothing. */
  lemma {:induction false} WithoutAbsent<T>(s: seq<T>, x: T)
    requires x !in s
    ensures Without(s, x) == s
  {
    if s != [] {
      var init := s[..|s| - 1];
      assert x !in init by { assert forall y :: y in init ==> y in s; }
      WithoutAbsent(init, x);
      assert s == init + [s[|s| - 1]];
    }
  }

  /** Filtering twice by the same element is filtering once. */
  lemma {:induction false} WithoutIdempotent<T>(s: seq<T>, x: T)
    ensures Without(Without(s, x), x) == Without(s, x)
  {
    WithoutMembers(s, x);
    WithoutAbsent(Without(s, x), x);
  }

  /** Filtering keeps a duplicate-free sequence duplicate-free. */
  lemma {:induction false} WithoutDistinct<T>(s: seq<T>, x: T)
    requires Distinct(s)
    ensures Distinct(Without(s, x))
  {
    if s != [] {
      var init, last := s[..|s| - 1], s[|s| - 1];
      assert Distinct(init);
      WithoutDistinct(init, x);
      WithoutMembers(init, x);
      assert last !in init;
      if last != x {
        DistinctSnoc(Without(init, x), last);
      }
    }
  }

  /**
   In a duplicate-free sequence, filtering out the element at position `i` is
   cutting out that one position: the elements before it and after it stay
   where they were relative to each other.
   */
  lemma {:induction false} WithoutSplice<T>(s: seq<T>, i: nat)
    requires Distinct(s) && i < |s|
    ensures Without(s, s[i]) == s[..i] + s[i + 1..]
  {
    var n := |s|;
    var init, last := s[..n - 1], s[n - 1];
    assert Distinct(init);
    if i == n - 1 {
      assert s[i] !in init;
      WithoutAbsent(init, s[i]);
      assert s[..i] + s[i + 1..] == init;
    } else {
      assert last != s[i];
      assert init[i] == s[i];
      WithoutSplice(init, i);
      assert init[..i] == s[..i];
      assert init[i + 1..] + [last] == s[i + 1..];
    }
  }

  /** The oldest element of a duplicate-free sequence is filtered out by dropping the head. */
  lemma WithoutFirst<T>(s: seq<T>)
    requires Distinct(s) && s != []
    ensures Without(s, s[0]) == s[1..]
  {
    WithoutSplice(s, 0);
  }

  /** A duplicate-free sequence has as many distinct elements as it has positions. */
  lemma {:induction false} DistinctCard<T>(s: seq<T>)
    requires Distinct(s)
    ensures |set y | y in s| == |s|
  {
    if s != [] {
      var init, last := s[..|s| - 1], s[|s| - 1];
      assert Distinct(init);
      DistinctCard(init);
      assert (set y | y in s) == (set y | y in init) + {last} by {
        assert s == init + [last];
      }
      assert last !in init;
    }
  }
}
