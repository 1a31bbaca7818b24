/**
 * utils::count: a histogram of a range, the map from each value that occurs to
 * the number of times it occurs (std::map's operator[] starts a missing count
 * at zero).
 */
module Counting {

  /** The count of each value of xs, keyed by exactly the values that occur. */
  method Count<T(==)>(xs: seq<T>) returns (counts: map<T, nat>)
    ensures forall x :: x in counts <==> x in xs
    ensures forall x :: x in counts ==> counts[x] == multiset(xs)[x]
  {
    counts := map[];
    for i := 0 to |xs|
      invariant forall x :: x in counts <==> x in xs[..i]
      invariant forall x :: x in counts ==> counts[x] == multiset(xs[..i])[x]
    {
      assert xs[..i + 1] == xs[..i] + [xs[i]];
      var n := if xs[i] in counts then counts[xs[i]] else 0;
      counts := counts[xs[i] := n + 1];
    }
    assert xs[..|xs|] == xs;
  }
}
