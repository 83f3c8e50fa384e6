/**
 * The positions of the elements of a sequence that have a property: the rows a
 * boolean mask such as `df[mask]` selects, in order.
 */
module Select {

  /** The positions `i` of `xs` at which `p(xs[i])` holds, in increasing order. */
  function Positions<T>(xs: seq<T>, p: T -> bool): (r: seq<nat>)
    ensures forall k :: 0 <= k < |r| ==> r[k] < |xs| && p(xs[r[k]])
    ensures forall k, l :: 0 <= k < l < |r| ==> r[k] < r[l]
    ensures forall i :: 0 <= i < |xs| && p(xs[i]) ==> i in r
  {
    if xs == [] then []
    else
      var q := Positions(xs[..|xs| - 1], p);
      assert forall k :: 0 <= k < |q| ==> xs[..|xs| - 1][q[k]] == xs[q[k]];
      if p(xs[|xs| - 1]) then q + [|xs| - 1] else q
  }

  /** The positions of a longer sequence are those of its first part and then, if the new last
      element has the property, its position. */
  lemma PositionsSnoc<T>(xs: seq<T>, x: T, p: T -> bool)
    ensures Positions(xs + [x], p) == Positions(xs, p) + (if p(x) then [|xs|] else [])
  {
    assert (xs + [x])[..|xs|] == xs;
  }
}
