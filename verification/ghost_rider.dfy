/** The rider's choice of winner among the decrypted masks (internal/ghost/rider_openfhe.go). */
module GhostRider {

  /** The lowest index holding the maximum; -1 exactly when there is nothing to choose from. */
  predicate FirstMax(masks: seq<real>, best: int)
  {
    if masks == [] then best == -1
    else
      && 0 <= best < |masks|
      && (forall j :: 0 <= j < |masks| ==> masks[j] <= masks[best])
      && (forall j :: 0 <= j < best ==> masks[j] < masks[best])
  }

  method Winner(masks: seq<real>) returns (best: int)
    ensures FirstMax(masks, best)
  {
    var bestVal := 0.0;
    best := -1;
    for i := 0 to |masks|
      invariant FirstMax(masks[..i], best)
      invariant 0 <= best ==> bestVal == masks[best]
    {
      if best < 0 || masks[i] > bestVal {
        best, bestVal := i, masks[i];
      }
    }
    assert masks[..|masks|] == masks;
  }
}
