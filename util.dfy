/** Small generic helpers shared by the keystroke model: an option type (the
    analysis uses NaN / None for "absent"), counting over sequences, and a
    cardinality fact about injections used to bound the number of pairings. */
module Util {

  datatype Option<+T> = None | Some(value: T)

  /** Number of elements of `s` that satisfy `p` (a pandas boolean-mask `.sum()`). */
  function Count<T>(s: seq<T>, p: T -> bool): (r: nat)
    ensures r <= |s|
    decreases |s|
  {
    if |s| == 0 then 0
    else Count(s[..|s| - 1], p) + (if p(s[|s| - 1]) then 1 else 0)
  }

  /** Indices of `s` whose element satisfies `p`. */
  ghost function IndexSet<T>(s: seq<T>, p: T -> bool): set<nat>
  {
    set k: nat | k < |s| && p(s[k])
  }

  /** Counting and the index set agree. */
  lemma {:induction false} CountIsIndexSetSize<T>(s: seq<T>, p: T -> bool)
    ensures Count(s, p) == |IndexSet(s, p)|
    decreases |s|
  {
    if |s| > 0 {
      var n := |s| - 1;
      var init := s[..n];
      CountIsIndexSetSize(init, p);
      if p(s[n]) {
        assert IndexSet(s, p) == IndexSet(init, p) + {n};
        assert n !in IndexSet(init, p);
      } else {
        assert IndexSet(s, p) == IndexSet(init, p);
      }
    }
  }

  /** A weaker predicate counts at least as many elements. */
  lemma {:induction false} CountMonotone<T>(s: seq<T>, p: T -> bool, q: T -> bool)
    requires forall x :: p(x) ==> q(x)
    ensures Count(s, p) <= Count(s, q)
    decreases |s|
  {
    if |s| > 0 {
      CountMonotone(s[..|s| - 1], p, q);
    }
  }

  /** An injection from `a` into `b` shows `|a| <= |b|`. */
  lemma {:induction false} InjectionBound(a: set<nat>, b: set<nat>, f: nat -> nat)
    requires forall x :: x in a ==> f(x) in b
    requires forall x, y :: x in a && y in a && f(x) == f(y) ==> x == y
    ensures |a| <= |b|
    decreases a
  {
    if a != {} {
      var x :| x in a;
      InjectionBound(a - {x}, b - {f(x)}, f);
    }
  }

  /** Sum of a sequence of integers. */
  function Sum(s: seq<int>): int
    decreases |s|
  {
    if |s| == 0 then 0 else Sum(s[..|s| - 1]) + s[|s| - 1]
  }

  /** If every element lies strictly between `lo` and `hi`, so does the sum
      scaled by the length. */
  lemma {:induction false} SumBounds(s: seq<int>, lo: int, hi: int)
    requires forall k :: 0 <= k < |s| ==> lo < s[k] < hi
    ensures |s| > 0 ==> lo * |s| < Sum(s) < hi * |s|
    decreases |s|
  {
    if |s| > 0 {
      var init := s[..|s| - 1];
      assert forall k :: 0 <= k < |init| ==> init[k] == s[k];
      SumBounds(init, lo, hi);
    }
  }
}
