/** Column-wise helpers over sequences: counting, filtering and summing.

    These are the table-level operations pandas performs with boolean masks
    (`df[mask]`, `mask.sum()`, `series.sum()`); every recursion peels off the
    LAST element so that a left-to-right loop can follow the definition. */
module Seqs {

  /** Number of elements of `s` that satisfy `p`. */
  function Count<T>(s: seq<T>, p: T -> bool): (n: nat)
    ensures n <= |s|
  {
    if |s| == 0 then 0
    else Count(s[..|s| - 1], p) + (if p(s[|s| - 1]) then 1 else 0)
  }

  /** Indices of the elements of `s` that satisfy `p`. */
  ghost function Indices<T>(s: seq<T>, p: T -> bool): set<int> {
    set i | 0 <= i < |s| && p(s[i])
  }

  /** `a` is `b` with some elements removed, the rest kept in order. */
  predicate IsSubsequence<T(==)>(a: seq<T>, b: seq<T>) {
    if |a| == 0 then true
    else if |b| == 0 then false
    else if a[|a| - 1] == b[|b| - 1] then IsSubsequence(a[..|a| - 1], b[..|b| - 1])
    else IsSubsequence(a, b[..|b| - 1])
  }

  /** The elements of `s` that satisfy `p`, in their original order
      (pandas `df[mask]`). */
  function Filter<T(==,!new)>(s: seq<T>, p: T -> bool): (r: seq<T>)
    ensures |r| == Count(s, p)
    ensures forall x :: x in r <==> x in s && p(x)
    ensures forall k :: 0 <= k < |r| ==> p(r[k])
  {
    if |s| == 0 then []
    else
      var rest := Filter(s[..|s| - 1], p);
      if p(s[|s| - 1]) then rest + [s[|s| - 1]] else rest
  }

  /** The filtered sequence keeps the order of `s` and holds every matching
      element as often as `s` does. */
  lemma {:induction false} FilterKeeps<T(!new)>(s: seq<T>, p: T -> bool)
    ensures forall x :: multiset(Filter(s, p))[x] == if p(x) then multiset(s)[x] else 0
    ensures IsSubsequence(Filter(s, p), s)
  {
    if |s| > 0 {
      var init := s[..|s| - 1];
      var last := s[|s| - 1];
      assert s == init + [last];
      FilterKeeps(init, p);
      var rest := Filter(init, p);
      if p(last) {
        assert (rest + [last])[..|rest|] == rest;
      } else {
        assert |rest| > 0 ==> p(rest[|rest| - 1]);
      }
    }
  }

  /** Sum of `f` over `s` (pandas `series.sum()`). */
  function Sum<T>(s: seq<T>, f: T -> real): real {
    if |s| == 0 then 0.0 else Sum(s[..|s| - 1], f) + f(s[|s| - 1])
  }

  /** Integer sum of `f` over `s`. */
  function IntSum<T>(s: seq<T>, f: T -> int): int {
    if |s| == 0 then 0 else IntSum(s[..|s| - 1], f) + f(s[|s| - 1])
  }

  /** The count is the number of matching positions. */
  lemma {:induction false} CountIsIndexCount<T>(s: seq<T>, p: T -> bool)
    ensures Count(s, p) == |Indices(s, p)|
  {
    if |s| > 0 {
      var init := s[..|s| - 1];
      CountIsIndexCount(init, p);
      var last := |s| - 1;
      if p(s[last]) {
        assert Indices(s, p) == Indices(init, p) + {last};
        assert last !in Indices(init, p);
      } else {
        assert Indices(s, p) == Indices(init, p);
      }
    } else {
      assert Indices(s, p) == {};
    }
  }

  /** Something is counted exactly when some element matches. */
  lemma {:induction false} CountPositive<T>(s: seq<T>, p: T -> bool)
    ensures Count(s, p) > 0 <==> exists i :: 0 <= i < |s| && p(s[i])
  {
    if |s| > 0 {
      var init := s[..|s| - 1];
      CountPositive(init, p);
      if Count(init, p) > 0 {
        var i :| 0 <= i < |init| && p(init[i]);
        assert p(s[i]);
      }
    }
  }

  /** Counting with a weaker predicate counts at least as much, and strictly
      more when some element satisfies only the weaker one. */
  lemma {:induction false} CountMonotone<T>(s: seq<T>, p: T -> bool, q: T -> bool)
    requires forall i :: 0 <= i < |s| && p(s[i]) ==> q(s[i])
    ensures Count(s, p) <= Count(s, q)
    ensures (exists i :: 0 <= i < |s| && q(s[i]) && !p(s[i])) ==> Count(s, p) < Count(s, q)
  {
    if |s| > 0 {
      var init := s[..|s| - 1];
      CountMonotone(init, p, q);
      if exists i :: 0 <= i < |s| && q(s[i]) && !p(s[i]) {
        var i :| 0 <= i < |s| && q(s[i]) && !p(s[i]);
        if i < |s| - 1 {
          assert q(init[i]) && !p(init[i]);
        }
      }
    }
  }

  /** A predicate that is the disjoint union of two others counts their sum. */
  lemma {:induction false} CountSplit<T>(s: seq<T>, p: T -> bool, a: T -> bool, b: T -> bool)
    requires forall i :: 0 <= i < |s| ==> (p(s[i]) <==> a(s[i]) || b(s[i]))
    requires forall i :: 0 <= i < |s| ==> !(a(s[i]) && b(s[i]))
    ensures Count(s, p) == Count(s, a) + Count(s, b)
  {
    if |s| > 0 {
      CountSplit(s[..|s| - 1], p, a, b);
    }
  }

  /** When `f` lies in [0, hi] on the elements satisfying `p` and is 0 on the
      others, the sum lies in [0, hi * Count(s, p)]. */
  lemma {:induction false} SumBounds<T>(s: seq<T>, f: T -> real, p: T -> bool, hi: real)
    requires forall i :: 0 <= i < |s| && p(s[i]) ==> 0.0 <= f(s[i]) <= hi
    requires forall i :: 0 <= i < |s| && !p(s[i]) ==> f(s[i]) == 0.0
    ensures 0.0 <= Sum(s, f) <= hi * (Count(s, p) as real)
  {
    if |s| > 0 {
      var init := s[..|s| - 1];
      SumBounds(init, f, p, hi);
      var c := Count(init, p) as real;
      if p(s[|s| - 1]) {
        assert hi * (c + 1.0) == hi * c + hi;
      }
    }
  }

  /** Filtering twice with the same predicate is filtering once. */
  lemma {:induction false} FilterIdempotent<T(!new)>(s: seq<T>, p: T -> bool)
    ensures Filter(Filter(s, p), p) == Filter(s, p)
  {
    if |s| > 0 {
      var init := s[..|s| - 1];
      var last := s[|s| - 1];
      FilterIdempotent(init, p);
      var rest := Filter(init, p);
      if p(last) {
        var r := rest + [last];
        assert r[..|r| - 1] == rest;
      }
    }
  }

  /** Filtering with `p` and then with `q` is filtering once with their
      conjunction `pq`. */
  lemma {:induction false} FilterTwice<T(!new)>(s: seq<T>, p: T -> bool, q: T -> bool, pq: T -> bool)
    requires forall x :: pq(x) == (p(x) && q(x))
    ensures Filter(Filter(s, p), q) == Filter(s, pq)
  {
    if |s| > 0 {
      var init := s[..|s| - 1];
      var last := s[|s| - 1];
      FilterTwice(init, p, q, pq);
      var rest := Filter(init, p);
      if p(last) {
        var r := rest + [last];
        assert r[..|r| - 1] == rest;
      }
    }
  }

  /** A sequence without repetitions holds each of its elements exactly once. */
  lemma {:induction false} DistinctOnce<T>(s: seq<T>)
    requires forall i, j :: 0 <= i < j < |s| ==> s[i] != s[j]
    ensures forall x :: x in s ==> multiset(s)[x] == 1
  {
    if |s| > 0 {
      var init := s[..|s| - 1];
      var last := s[|s| - 1];
      DistinctOnce(init);
      assert s == init + [last];
      assert last !in init;
    }
  }
}
