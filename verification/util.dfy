/** Small shared vocabulary: an optional value and the filter "indices whose element qualifies". */
module Util {

  datatype Option<T> = None | Some(value: T)

  /** The indices of `xs` whose element satisfies `keep`, in increasing order. */
  function IndicesWhere<T>(xs: seq<T>, keep: T -> bool): (r: seq<nat>)
    ensures forall k: nat :: k in r <==> k < |xs| && keep(xs[k])
    ensures forall a :: 0 <= a < |r| ==> r[a] < |xs|
    ensures forall a, b :: 0 <= a < b < |r| ==> r[a] < r[b]
    ensures |r| <= |xs|
    decreases |xs|
  {
    if xs == [] then []
    else
      var init := IndicesWhere(xs[..|xs| - 1], keep);
      init + (if keep(xs[|xs| - 1]) then [|xs| - 1] else [])
  }

  /** Appending one element extends the index list by that element's index, if it qualifies. */
  lemma IndicesWhereSnoc<T>(xs: seq<T>, x: T, keep: T -> bool)
    ensures IndicesWhere(xs + [x], keep) == IndicesWhere(xs, keep) + (if keep(x) then [|xs|] else [])
  {
    assert (xs + [x])[..|xs|] == xs;
  }
}
