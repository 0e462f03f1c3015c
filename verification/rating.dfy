/** The server's count-normalised star rating: internal/rating/bayes.go and store.go. */
module Rating {
  import opened RealFacts
  import opened Wrappers

  newtype Byte = x: int | 0 <= x < 256
  type Bytes = seq<Byte>

  /** The mean shrunk toward the global mean, which counts as confidence further votes. */
  function Normalize(mean: real, count: int, globalMean: real, confidence: real): real
    requires confidence + count as real != 0.0
  {
    (confidence * globalMean + count as real * mean) / (confidence + count as real)
  }

  /** What Normalize divides, multiplied out. */
  lemma Balance(mean: real, count: int, globalMean: real, confidence: real, total: real, r: real)
    requires total == confidence + count as real && total != 0.0
    requires r == Normalize(mean, count, globalMean, confidence)
    ensures r * total == confidence * globalMean + count as real * mean
  {
  }

  lemma UpperMean(a: real, x: real, c: real, y: real, total: real, r: real, hi: real)
    requires 0.0 <= a && 0.0 <= c && total == a + c && 0.0 < total && r * total == a * x + c * y
    requires x <= hi && y <= hi
    ensures r <= hi
  {
    MulMonotone(a, x, hi);
    MulMonotone(c, y, hi);
    var p, q := a * hi, c * hi;
    assert p + q == total * hi;
    assert total * r <= p + q;
    if hi < r {
      MulStrict(total, hi, r);
    }
  }

  /** A normalised rating stays in any range that holds both means. */
  lemma NormalizeKeepsRange(mean: real, count: int, globalMean: real, confidence: real, lo: real, hi: real)
    requires 0.0 <= confidence && 0 <= count && 0.0 < confidence + count as real
    requires lo <= mean <= hi && lo <= globalMean <= hi
    ensures lo <= Normalize(mean, count, globalMean, confidence) <= hi
  {
    var c, total, r := count as real, confidence + count as real, Normalize(mean, count, globalMean, confidence);
    Balance(mean, count, globalMean, confidence, total, r);
    UpperMean(confidence, globalMean, c, mean, total, r, hi);
    assert -r * total == confidence * -globalMean + c * -mean;
    UpperMean(confidence, -globalMean, c, -mean, total, -r, -lo);
  }

  /** Exactly how many ratings bring the normalised rating within a tolerance of the driver's own mean. */
  lemma NormalizeApproachesMean(mean: real, count: int, globalMean: real, confidence: real, tolerance: real)
    requires 0.0 <= confidence && 0 <= count && 0.0 < confidence + count as real
    ensures Distance(Normalize(mean, count, globalMean, confidence), mean) <= tolerance
        <==> confidence * Distance(globalMean, mean) <= tolerance * (confidence + count as real)
  {
    var c, total, r := count as real, confidence + count as real, Normalize(mean, count, globalMean, confidence);
    Balance(mean, count, globalMean, confidence, total, r);
    ScaledDistance(confidence, globalMean, mean, c, total, r);
    if Distance(r, mean) <= tolerance {
      MulMonotone(total, Distance(r, mean), tolerance);
    } else {
      MulStrict(total, tolerance, Distance(r, mean));
    }
  }

  function Distance(x: real, y: real): real { if x < y then y - x else x - y }

  /** The distance left to the mean is the confidence's share of the original distance. */
  lemma ScaledDistance(a: real, x: real, y: real, c: real, total: real, r: real)
    requires 0.0 <= a && 0.0 < total && total == a + c && r * total == a * x + c * y
    ensures total * Distance(r, y) == a * Distance(x, y)
  {
    var d, e := r - y, x - y;
    assert total * d == a * e;
    if 0.0 <= e {
      MulNonNegative(a, e);
      NonNegativeFactor(total, d);
    } else {
      MulNonNegative(a, -e);
      NonNegativeFactor(total, -d);
    }
  }

  lemma NonNegativeFactor(total: real, d: real)
    requires 0.0 < total && 0.0 <= total * d
    ensures 0.0 <= d
  {
    if d < 0.0 {
      MulStrict(total, d, 0.0);
    }
  }

  /** Of two drivers with the same mean, more ratings rank higher exactly when the mean is above average. */
  lemma NormalizeRewardsCount(mean: real, count: int, count': int, globalMean: real, confidence: real)
    requires 0.0 < confidence && 0 <= count < count'
    ensures Normalize(mean, count, globalMean, confidence) < Normalize(mean, count', globalMean, confidence)
        <==> globalMean < mean
  {
    var c, c' := count as real, count' as real;
    var r, r' := Normalize(mean, count, globalMean, confidence), Normalize(mean, count', globalMean, confidence);
    Balance(mean, count, globalMean, confidence, confidence + c, r);
    Balance(mean, count', globalMean, confidence, confidence + c', r');
    CloserToMean(confidence, globalMean, mean, c, c', r, r');
  }

  lemma CloserToMean(a: real, x: real, y: real, c: real, c': real, r: real, r': real)
    requires 0.0 < a && 0.0 <= c < c'
    requires r * (a + c) == a * x + c * y && r' * (a + c') == a * x + c' * y
    ensures r < r' <==> x < y
  {
    var d, d', e := y - r, y - r', y - x;
    assert d * (a + c) == a * e == d' * (a + c');
    assert (d - d') * (a + c) == d' * (c' - c);
    if x < y {
      MulPositive(a, e);
      CancelFactor(a + c', 0.0, d');
      MulPositive(c' - c, d');
      CancelFactor(a + c, 0.0, d - d');
    } else {
      MulNonNegative(a, -e);
      NonNegativeFactor(a + c', -d');
      MulNonNegative(c' - c, -d');
      NonNegativeFactor(a + c, d' - d);
    }
  }

  datatype Rec = Rec(mean: real, count: int)

  class Store {
    const globalMean: real
    const confidence: real
    var recs: map<Bytes, Rec>

    constructor (globalMean: real, confidence: real)
      ensures this.globalMean == globalMean && this.confidence == confidence && recs == map[]
    {
      this.globalMean, this.confidence, recs := globalMean, confidence, map[];
    }

    /** All means are star ratings, and the prior carries weight. */
    predicate Calibrated()
      reads this
    {
      && 0.0 <= globalMean <= 5.0 && 0.0 < confidence
      && forall id :: id in recs ==> 0.0 <= recs[id].mean <= 5.0 && 0 <= recs[id].count
    }

    method Record(identity: Bytes, mean: real, count: int)
      modifies this
      ensures recs == old(recs)[identity := Rec(mean, count)]
      ensures old(Calibrated()) && 0.0 <= mean <= 5.0 && 0 <= count ==> Calibrated()
    {
      recs := recs[identity := Rec(mean, count)];
    }

    /** The global mean for an unknown driver, else the mean of the driver's votes and of confidence further votes for
      the global mean; no number exactly when all votes cancel.
      */
    function StarNorm(identity: Bytes): (star: Option<real>)
      reads this
      ensures identity !in recs ==> star == Some(globalMean)
      ensures star.None? <==> identity in recs && confidence + recs[identity].count as real == 0.0
      ensures identity in recs && star.Some? ==>
                var r := recs[identity];
                star.value * (confidence + r.count as real) == confidence * globalMean + r.count as real * r.mean
      ensures Calibrated() ==> star.Some? && 0.0 <= star.value <= 5.0
    {
      if identity !in recs then Some(globalMean)
      else
        var r := recs[identity];
        assert Calibrated() ==> 0.0 <= Normalize(r.mean, r.count, globalMean, confidence) <= 5.0 by {
          if Calibrated() {
            NormalizeKeepsRange(r.mean, r.count, globalMean, confidence, 0.0, 5.0);
          }
        }
        if confidence + r.count as real == 0.0 then None
        else
          var star := Normalize(r.mean, r.count, globalMean, confidence);
          Balance(r.mean, r.count, globalMean, confidence, confidence + r.count as real, star);
          Some(star)
    }
  }

  /** A recorded driver's star is within a tolerance of their own mean exactly when their ratings outweigh the
    confidence's pull toward the global mean.
    */
  lemma StarApproachesMean(store: Store, identity: Bytes, tolerance: real)
    requires store.Calibrated() && identity in store.recs
    ensures var (star, r) := (store.StarNorm(identity).value, store.recs[identity]);
            var slack := tolerance * (store.confidence + r.count as real);
            r.mean - tolerance <= star <= r.mean + tolerance <==>
              -slack <= store.confidence * (store.globalMean - r.mean) <= slack
  {
    var a, g, c, y := store.confidence, store.globalMean, store.recs[identity].count as real, store.recs[identity].mean;
    var star := store.StarNorm(identity).value;
    var d := star - y;
    assert d * (a + c) == a * (g - y);
    ScaleLeq(a + c, d, tolerance);
    ScaleLeq(a + c, -tolerance, d);
  }

  lemma ScaleLeq(f: real, x: real, y: real)
    requires 0.0 < f
    ensures x <= y <==> x * f <= y * f
  {
    if x <= y {
      MulMonotone(f, x, y);
    } else {
      MulStrict(f, y, x);
    }
  }

  /** Of two recorded drivers with the same mean, the one with more ratings gets the higher star exactly when that mean
    is above the global mean.
    */
  lemma StarRewardsCount(store: Store, fewer: Bytes, more: Bytes)
    requires store.Calibrated() && fewer in store.recs && more in store.recs
    requires store.recs[fewer].mean == store.recs[more].mean && store.recs[fewer].count < store.recs[more].count
    ensures store.StarNorm(fewer).value < store.StarNorm(more).value <==> store.globalMean < store.recs[more].mean
  {
    CloserToMean(store.confidence, store.globalMean, store.recs[more].mean,
                 store.recs[fewer].count as real, store.recs[more].count as real,
                 store.StarNorm(fewer).value, store.StarNorm(more).value);
  }
}
