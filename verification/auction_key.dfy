/** The weighted auction key of internal/auction/key.go and bid.go: when its order is lexicographic.

  The key adds weighted terms for the price in cents, the star penalty in [0, 5] and the squared
  pickup distance in [0, maxDistSq]. Each order it is meant to realise holds exactly under a condition
  on the weights, and those conditions are what this module proves.
  */
module AuctionKey {
  import opened RealFacts

  datatype Weights = Weights(k: real, wStar: real, wDist: real)

  const MAX_STARS := 5.0

  function BuildKey(priceCents: int, starPenalty: real, distSq: real, w: Weights): real
  {
    w.k * priceCents as real + w.wStar * starPenalty + w.wDist * distSq
  }

  function StarPenalty(starNorm: real): real { MAX_STARS - starNorm }

  function Abs(x: real): real { if x < 0.0 then -x else x }

  lemma AbsNonNegative(x: real)
    ensures 0.0 <= Abs(x)
  {
  }

  /** The term of a weight over [0, top] spreads over an interval of length |w| * top, reached at its ends. */
  lemma TermSpread(w: real, top: real, x: real, y: real)
    requires 0.0 <= x <= top && 0.0 <= y <= top
    ensures w * x - w * y <= Abs(w) * top
  {
    if w >= 0.0 {
      MulMonotone(w, x, top);
      MulMonotone(w, 0.0, y);
    } else {
      MulMonotone(-w, y, top);
      MulMonotone(-w, 0.0, x);
    }
  }

  /** The value in [0, top] that makes the term of a weight largest. */
  function Worst(w: real, top: real): real { if w >= 0.0 then top else 0.0 }

  lemma WorstSpreads(w: real, top: real)
    ensures w * Worst(w, top) - w * (top - Worst(w, top)) == Abs(w) * top
  {
  }

  // ---------------------------------------------------------------- price first

  /** One cent outranks any star penalty and any distance. */
  ghost predicate PriceDominates(w: Weights, maxDistSq: real)
  {
    forall p: int, q: int, s: real, t: real, d: real, e: real ::
      p < q && 0.0 <= s <= MAX_STARS && 0.0 <= t <= MAX_STARS && 0.0 <= d <= maxDistSq && 0.0 <= e <= maxDistSq
      ==> BuildKey(p, s, d, w) < BuildKey(q, t, e, w)
  }

  /** The documented invariant is exactly what price dominance needs (with |w| for a negative weight). */
  lemma PriceDominatesIff(w: Weights, maxDistSq: real)
    requires 0.0 <= maxDistSq
    ensures PriceDominates(w, maxDistSq) <==> Abs(w.wStar) * MAX_STARS + Abs(w.wDist) * maxDistSq < w.k
  {
    var spread := Abs(w.wStar) * MAX_STARS + Abs(w.wDist) * maxDistSq;
    if PriceDominates(w, maxDistSq) {
      var s, d := Worst(w.wStar, MAX_STARS), Worst(w.wDist, maxDistSq);
      assert BuildKey(0, s, d, w) < BuildKey(1, MAX_STARS - s, maxDistSq - d, w);
      WorstSpreads(w.wStar, MAX_STARS);
      WorstSpreads(w.wDist, maxDistSq);
    }
    if spread < w.k {
      forall p: int, q: int, s: real, t: real, d: real, e: real
        | p < q && 0.0 <= s <= MAX_STARS && 0.0 <= t <= MAX_STARS && 0.0 <= d <= maxDistSq && 0.0 <= e <= maxDistSq
        ensures BuildKey(p, s, d, w) < BuildKey(q, t, e, w)
      {
        CheaperWins(w, maxDistSq, p, q, s, t, d, e);
      }
    }
  }

  lemma CheaperWins(w: Weights, maxDistSq: real, p: int, q: int, s: real, t: real, d: real, e: real)
    requires p < q && 0.0 <= s <= MAX_STARS && 0.0 <= t <= MAX_STARS && 0.0 <= d <= maxDistSq && 0.0 <= e <= maxDistSq
    requires Abs(w.wStar) * MAX_STARS + Abs(w.wDist) * maxDistSq < w.k
    ensures BuildKey(p, s, d, w) < BuildKey(q, t, e, w)
  {
    hide BuildKey, Abs;
    AbsNonNegative(w.wStar);
    AbsNonNegative(w.wDist);
    TermSpread(w.wStar, MAX_STARS, s, t);
    TermSpread(w.wDist, maxDistSq, d, e);
    MulNonNegative(Abs(w.wStar), MAX_STARS);
    MulNonNegative(Abs(w.wDist), maxDistSq);
    var price, star, dist := w.k * q as real - w.k * p as real, w.wStar * s - w.wStar * t, w.wDist * d - w.wDist * e;
    OneCent(w.k, p as real, q as real, price);
    KeyDifference(w, p, q, s, t, d, e, price, star, dist);
    assert w.k <= price;
    assert star <= Abs(w.wStar) * MAX_STARS;
    assert dist <= Abs(w.wDist) * maxDistSq;
    assert star + dist < w.k;
  }

  lemma KeyDifference(w: Weights, p: int, q: int, s: real, t: real, d: real, e: real, price: real, star: real,
                      dist: real)
    requires price == w.k * q as real - w.k * p as real
    requires star == w.wStar * s - w.wStar * t && dist == w.wDist * d - w.wDist * e
    ensures BuildKey(q, t, e, w) - BuildKey(p, s, d, w) == price - star - dist
  {
  }

  lemma OneCent(k: real, p: real, q: real, price: real)
    requires 0.0 <= k && p + 1.0 <= q && price == k * q - k * p
    ensures k <= price
  {
    MulMonotone(k, p + 1.0, q);
  }

  // ---------------------------------------------------------------- then stars

  /** At equal prices, penalties at least gap apart outrank any distance. */
  ghost predicate StarsDominate(w: Weights, maxDistSq: real, gap: real)
  {
    forall p: int, s: real, t: real, d: real, e: real ::
      0.0 <= s <= t - gap && t <= MAX_STARS && 0.0 <= d <= maxDistSq && 0.0 <= e <= maxDistSq
      ==> BuildKey(p, s, d, w) < BuildKey(p, t, e, w)
  }

  /** How far two penalties must be apart for the better star rating to win at every distance. */
  lemma StarsDominateIff(w: Weights, maxDistSq: real, gap: real)
    requires 0.0 <= maxDistSq && 0.0 < gap <= MAX_STARS
    ensures StarsDominate(w, maxDistSq, gap) <==> Abs(w.wDist) * maxDistSq < w.wStar * gap
  {
    if StarsDominate(w, maxDistSq, gap) {
      var d := Worst(w.wDist, maxDistSq);
      assert BuildKey(0, 0.0, d, w) < BuildKey(0, gap, maxDistSq - d, w);
      WorstSpreads(w.wDist, maxDistSq);
    }
    if Abs(w.wDist) * maxDistSq < w.wStar * gap {
      forall p: int, s: real, t: real, d: real, e: real
        | 0.0 <= s <= t - gap && t <= MAX_STARS && 0.0 <= d <= maxDistSq && 0.0 <= e <= maxDistSq
        ensures BuildKey(p, s, d, w) < BuildKey(p, t, e, w)
      {
        BetterStarWins(w, maxDistSq, gap, p, s, t, d, e);
      }
    }
  }

  lemma BetterStarWins(w: Weights, maxDistSq: real, gap: real, p: int, s: real, t: real, d: real, e: real)
    requires 0.0 < gap && s <= t - gap && 0.0 <= d <= maxDistSq && 0.0 <= e <= maxDistSq
    requires Abs(w.wDist) * maxDistSq < w.wStar * gap
    ensures BuildKey(p, s, d, w) < BuildKey(p, t, e, w)
  {
    hide BuildKey, Abs;
    AbsNonNegative(w.wDist);
    MulNonNegative(Abs(w.wDist), maxDistSq);
    TermSpread(w.wDist, maxDistSq, d, e);
    var star, dist := w.wStar * s - w.wStar * t, w.wDist * d - w.wDist * e;
    BetterStar(w.wStar, gap, s, t, star);
    KeyDifference(w, p, p, s, t, d, e, 0.0, star, dist);
  }

  lemma BetterStar(w: real, gap: real, s: real, t: real, star: real)
    requires 0.0 < gap && 0.0 < w * gap && gap <= t - s && star == w * s - w * t
    ensures star <= -(w * gap)
  {
    PositiveFactor(w, gap);
    MulMonotone(w, gap, t - s);
  }

  lemma PositiveFactor(w: real, gap: real)
    requires 0.0 < gap && 0.0 < w * gap
    ensures 0.0 < w
  {
    CancelFactor(gap, 0.0, w);
  }

  // ---------------------------------------------------------------- price, then stars, then distance

  datatype Rank = Rank(priceCents: int, starPenalty: real, distSq: real)

  predicate InRange(a: Rank, maxDistSq: real)
  {
    0.0 <= a.starPenalty <= MAX_STARS && 0.0 <= a.distSq <= maxDistSq
  }

  /** Strictly better lexicographically by price, then star penalty, then distance. */
  predicate Better(a: Rank, b: Rank)
  {
    || a.priceCents < b.priceCents
    || (a.priceCents == b.priceCents
        && (a.starPenalty < b.starPenalty || (a.starPenalty == b.starPenalty && a.distSq < b.distSq)))
  }

  function Key(a: Rank, w: Weights): real { BuildKey(a.priceCents, a.starPenalty, a.distSq, w) }

  /** The key orders exactly as the lexicographic order does. */
  ghost predicate Lexicographic(w: Weights, maxDistSq: real)
  {
    forall a: Rank, b: Rank :: InRange(a, maxDistSq) && InRange(b, maxDistSq) ==>
      (Better(a, b) <==> Key(a, w) < Key(b, w))
  }

  /** The key is lexicographic exactly when no distance varies and the star weight is positive but below K / 5.

    As soon as distances may differ, no choice of weights makes it so: two star ratings that are close
    enough are outranked by distance, whatever the documentation promises about the three terms.
    */
  lemma LexicographicIff(w: Weights, maxDistSq: real)
    requires 0.0 <= maxDistSq
    ensures Lexicographic(w, maxDistSq) <==> maxDistSq == 0.0 && 0.0 < w.wStar && w.wStar * MAX_STARS < w.k
  {
    if maxDistSq == 0.0 && 0.0 < w.wStar && w.wStar * MAX_STARS < w.k {
      forall a: Rank, b: Rank | InRange(a, maxDistSq) && InRange(b, maxDistSq)
        ensures Better(a, b) <==> Key(a, w) < Key(b, w)
      {
        WithoutDistance(w, a, b);
      }
    }
    if Lexicographic(w, maxDistSq) {
      var none, star, cent := Rank(0, 0.0, 0.0), Rank(0, MAX_STARS, 0.0), Rank(1, 0.0, 0.0);
      assert Better(none, star) && Better(star, cent);
      assert Key(none, w) < Key(star, w) < Key(cent, w);
      if 0.0 < maxDistSq {
        var far := Rank(0, 0.0, maxDistSq);
        assert Better(none, far) && Better(far, star);
        assert Key(none, w) < Key(far, w) < Key(star, w);
        var close := CloseStar(w, maxDistSq);
        assert Better(far, close);
      }
    }
  }

  /** Without distances the order and the equality of keys are those of the pairs (price, penalty). */
  lemma WithoutDistance(w: Weights, a: Rank, b: Rank)
    requires 0.0 < w.wStar && w.wStar * MAX_STARS < w.k
    requires InRange(a, 0.0) && InRange(b, 0.0)
    ensures Better(a, b) <==> Key(a, w) < Key(b, w)
    ensures a == b <==> Key(a, w) == Key(b, w)
  {
    hide BuildKey;
    if a.priceCents < b.priceCents {
      CheaperWins(w, 0.0, a.priceCents, b.priceCents, a.starPenalty, b.starPenalty, 0.0, 0.0);
    } else if b.priceCents < a.priceCents {
      CheaperWins(w, 0.0, b.priceCents, a.priceCents, b.starPenalty, a.starPenalty, 0.0, 0.0);
    } else if a.starPenalty < b.starPenalty {
      StarPenaltyRanks(w, a.priceCents, a.starPenalty, b.starPenalty);
    } else if b.starPenalty < a.starPenalty {
      StarPenaltyRanks(w, a.priceCents, b.starPenalty, a.starPenalty);
    }
  }

  lemma StarPenaltyRanks(w: Weights, p: int, s: real, t: real)
    requires 0.0 < w.wStar && s < t
    ensures BuildKey(p, s, 0.0, w) < BuildKey(p, t, 0.0, w)
  {
    MulStrict(w.wStar, s, t);
    KeyDifference(w, p, p, s, t, 0.0, 0.0, 0.0, w.wStar * s - w.wStar * t, 0.0);
  }

  /** A star rating so little worse that the key cannot tell it, at distance zero, from the best one far away. */
  lemma CloseStar(w: Weights, maxDistSq: real) returns (close: Rank)
    requires 0.0 < w.wDist * maxDistSq < w.wStar * MAX_STARS
    ensures close.priceCents == 0 && 0.0 < close.starPenalty <= MAX_STARS && close.distSq == 0.0
    ensures Key(close, w) == Key(Rank(0, 0.0, maxDistSq), w)
  {
    var share := (w.wDist * maxDistSq) / (w.wStar * MAX_STARS);
    ProperShare(w.wDist * maxDistSq, w.wStar * MAX_STARS, share);
    close := Rank(0, share * MAX_STARS, 0.0);
    assert w.wStar * (share * MAX_STARS) == share * (w.wStar * MAX_STARS);
  }

  lemma ProperShare(part: real, whole: real, share: real)
    requires 0.0 < part < whole && share == part / whole
    ensures 0.0 < share < 1.0 && share * whole == part
  {
    assert share * whole == part;
    CancelFactor(whole, 0.0, share);
    CancelFactor(whole, share, 1.0);
  }
}
