/** Optional values, and first-match lookup, the search that both snapshot joins and enable_module use. */
module Searching {

  datatype Option<+T> = None | Some(value: T)

  /** The first position of `x`, or the length of the list when it is absent. */
  function Find<X(==)>(xs: seq<X>, x: X): (k: nat)
    ensures k <= |xs| && forall j :: 0 <= j < k ==> xs[j] != x
    ensures k < |xs| ==> xs[k] == x
    ensures k < |xs| <==> x in xs
  {
    if xs == [] then 0
    else if xs[0] == x then 0
    else
      assert xs == [xs[0]] + xs[1..];
      Find(xs[1..], x) + 1
  }
}
