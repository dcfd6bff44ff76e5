/** The retry loops of both generators: stop at the first draw a test accepts. */
module Search {
  import opened Wrappers

  /** The index of the first element of `xs` that `accept` holds of, if any. */
  function FirstIndex<T>(xs: seq<T>, accept: T -> bool): (r: Option<nat>)
    ensures r.None? <==> forall i :: 0 <= i < |xs| ==> !accept(xs[i])
    ensures r.Some? ==>
      && r.value < |xs|
      && accept(xs[r.value])
      && forall j :: 0 <= j < r.value ==> !accept(xs[j])
  {
    if |xs| == 0 then None
    else if accept(xs[0]) then Some(0)
    else
      assert forall i :: 1 <= i < |xs| ==> xs[i] == xs[1..][i - 1];
      match FirstIndex(xs[1..], accept)
      case Some(k) => Some(k + 1)
      case None => None
  }

  /** The first accepted index is unique: any index meeting that description is the one returned. */
  lemma FirstIndexIsUnique<T>(xs: seq<T>, accept: T -> bool)
    ensures forall k :: 0 <= k < |xs| && accept(xs[k]) && (forall j :: 0 <= j < k ==> !accept(xs[j]))
                        ==> FirstIndex(xs, accept) == Some(k)
  {
    forall k | 0 <= k < |xs| && accept(xs[k]) && (forall j :: 0 <= j < k ==> !accept(xs[j]))
      ensures FirstIndex(xs, accept) == Some(k)
    {
      var r := FirstIndex(xs, accept);
      assert r.Some? && !(r.value < k) && !(r.value > k);
    }
  }
}
