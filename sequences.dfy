/** JavaScript's `Array.prototype.find`, by the index it stops at. */
module Sequences {
  import opened Wrappers

  /** Index of the first element satisfying `p`, or `None`. */
  function FindIndex<T>(xs: seq<T>, p: T -> bool): (r: Option<nat>)
    ensures r.None? <==> forall k :: 0 <= k < |xs| ==> !p(xs[k])
    ensures r.Some? ==> r.value < |xs| && p(xs[r.value])
    ensures r.Some? ==> forall k :: 0 <= k < r.value ==> !p(xs[k])
  {
    if xs == [] then None
    else if p(xs[0]) then Some(0)
    else match FindIndex(xs[1..], p)
      case None => None
      case Some(k) => Some(k + 1)
  }

  /** When exactly one element satisfies `p`, `find` stops at it. */
  lemma FindUnique<T>(xs: seq<T>, p: T -> bool, i: nat)
    requires i < |xs| && p(xs[i])
    requires forall k :: 0 <= k < |xs| && p(xs[k]) ==> k == i
    ensures FindIndex(xs, p) == Some(i)
  {
  }
}
