/** Order-preserving filtering, as `Array.prototype.filter` does it. */
module Sequences {

  /** `a` can be obtained from `b` by deleting elements, without
      reordering the ones that remain. */
  ghost predicate IsSubsequence<T>(a: seq<T>, b: seq<T>) {
    a == [] || (b != [] && ((a[0] == b[0] && IsSubsequence(a[1..], b[1..])) || IsSubsequence(a, b[1..])))
  }

  /** `xs.filter(keep)`: the elements satisfying `keep`, each as often as
      in `xs`, in their original order. */
  function Filter<T(!new)>(xs: seq<T>, keep: T -> bool): (r: seq<T>)
    ensures forall x :: multiset(r)[x] == if keep(x) then multiset(xs)[x] else 0
    ensures forall k :: 0 <= k < |r| ==> keep(r[k])
    ensures IsSubsequence(r, xs)
    ensures |r| <= |xs|
  {
    if xs == [] then []
    else
      assert xs == [xs[0]] + xs[1..];
      var rest := Filter(xs[1..], keep);
      if keep(xs[0]) then
        assert ([xs[0]] + rest)[1..] == rest;
        [xs[0]] + rest
      else rest
  }

  /** Nothing is dropped exactly when every element passes, and the result
      is empty exactly when none does. */
  lemma {:induction false} FilterAllOrNothing<T(!new)>(xs: seq<T>, keep: T -> bool)
    ensures Filter(xs, keep) == xs <==> forall k :: 0 <= k < |xs| ==> keep(xs[k])
    ensures Filter(xs, keep) == [] <==> forall k :: 0 <= k < |xs| ==> !keep(xs[k])
  {
    var r := Filter(xs, keep);
    if forall k :: 0 <= k < |xs| ==> keep(xs[k]) {
      if xs != [] {
        FilterAllOrNothing(xs[1..], keep);
        assert forall k :: 0 <= k < |xs[1..]| ==> keep(xs[1..][k]) by {
          forall k | 0 <= k < |xs[1..]| ensures keep(xs[1..][k]) {
            assert xs[1..][k] == xs[k + 1];
          }
        }
      }
    }
    if r == [] {
      forall k | 0 <= k < |xs| ensures !keep(xs[k]) {
        assert xs[k] in multiset(xs);
      }
    }
    if r == xs {
      forall k | 0 <= k < |xs| ensures keep(xs[k]) {
        assert xs[k] == r[k];
      }
    }
  }
}
