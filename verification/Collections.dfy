/** Picking from sequences and counting in sets. */
module Collections {
  /** The elements marked to be kept, in order. */
  function Kept<T>(xs: seq<T>, keep: seq<bool>): seq<T>
    requires |xs| == |keep|
  {
    if xs == [] then []
    else if keep[0] then [xs[0]] + Kept(xs[1..], keep[1..])
    else Kept(xs[1..], keep[1..])
  }

  lemma SubsetSize<T>(a: set<T>, b: set<T>)
    requires a <= b
    ensures |a| <= |b|
  {
    assert b == a + (b - a);
  }
}
