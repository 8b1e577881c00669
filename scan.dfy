/** The scan both `Render_World::Closest_Intersection` and the all-parts branch of
    `Mesh::Intersection` run: walk the candidates in order, keeping the first one
    whose distance is strictly below the best distance seen so far. */
module Scan {
  import opened Options

  /** Loop state: the running `min_t` and the index of the kept candidate. */
  datatype Best = Best(minT: real, index: Option<nat>)

  /** Candidate `k` is accepted, below `bound`, strictly below every accepted
      candidate before it and no greater than any accepted candidate after it. */
  predicate IsFirstMin(ds: seq<Option<real>>, bound: real, k: int) {
    && 0 <= k < |ds|
    && ds[k].Some?
    && ds[k].value < bound
    && (forall j :: 0 <= j < k && ds[j].Some? ==> ds[k].value < ds[j].value)
    && (forall j :: k < j < |ds| && ds[j].Some? ==> ds[k].value <= ds[j].value)
  }

  /** No accepted candidate lies below `bound`. */
  predicate NoneBelow(ds: seq<Option<real>>, bound: real) {
    forall j :: 0 <= j < |ds| && ds[j].Some? ==> bound <= ds[j].value
  }

  /** The left fold the loop computes, starting from `min_t == start`. */
  function ScanMin(ds: seq<Option<real>>, start: real): (b: Best)
    ensures b.index.None? ==> b.minT == start && NoneBelow(ds, start)
    ensures b.index.Some? ==> IsFirstMin(ds, start, b.index.value) && b.minT == ds[b.index.value].value
    decreases |ds|
  {
    if |ds| == 0 then Best(start, None)
    else
      var prev := ScanMin(ds[..|ds| - 1], start);
      match ds[|ds| - 1]
      case Some(d) => if d < prev.minT then Best(d, Some(|ds| - 1)) else prev
      case None => prev
  }

  /** One more candidate: the fold takes it exactly when it is accepted and
      strictly below the running minimum. */
  lemma ScanMinStep(ds: seq<Option<real>>, start: real, i: int)
    requires 0 <= i < |ds|
    ensures var prev := ScanMin(ds[..i], start);
      ScanMin(ds[..i + 1], start) ==
        if ds[i].Some? && ds[i].value < prev.minT then Best(ds[i].value, Some(i)) else prev
  {
    assert ds[..i + 1][..i] == ds[..i];
  }

  lemma FirstMinUnique(ds: seq<Option<real>>, bound: real, k1: int, k2: int)
    requires IsFirstMin(ds, bound, k1) && IsFirstMin(ds, bound, k2)
    ensures k1 == k2
  {
  }

  /** The fold keeps exactly the first minimum: the reference characterisation
      determines its result. */
  lemma ScanMinFinds(ds: seq<Option<real>>, start: real, k: int)
    requires IsFirstMin(ds, start, k)
    ensures ScanMin(ds, start).index == Some(k)
  {
    var b := ScanMin(ds, start);
    if b.index.Some? {
      FirstMinUnique(ds, start, b.index.value, k);
    }
  }
}
