/** Who wins: the auction key, the argmin circuit and the rider's choice put together.

  The server keys every bid by price and star rating under the session's weights, the circuit masks the
  scaled keys, and the rider picks the largest mask slot. The scaling into [0, 1] may be anything that
  keeps the order of the keys.
  */
module AuctionOutcome {
  import opened Wrappers
  import opened AuctionKey
  import opened ArgminCircuit
  import opened MaskProperties
  import opened GhostRider
  import opened Session
  import Rating
  import M = Mask

  predicate Ranked(prices: seq<int>, stars: seq<real>)
  {
    |prices| == |stars| && forall i :: 0 <= i < |stars| ==> 0.0 <= stars[i] <= MAX_STARS
  }

  /** Weights under which the key is lexicographic in price and stars when no distance is given. */
  predicate PriceThenStars(w: Weights) { 0.0 < w.wStar && w.wStar * MAX_STARS < w.k }

  lemma DefaultWeightsAreLexicographic()
    ensures PriceThenStars(DefaultWeights()) && Lexicographic(DefaultWeights(), 0.0)
  {
    LexicographicIff(DefaultWeights(), 0.0);
  }

  function KeyOf(price: int, star: real, w: Weights): real { BuildKey(price, StarPenalty(star), 0.0, w) }

  /** Under the default weights one star counts like one hundredth of a cent, and no rating costs five. */
  lemma DefaultKey(price: int, star: real)
    ensures KeyOf(price, star, DefaultWeights()) == 100.0 * price as real + (5.0 - star)
  {
  }

  function Keys(prices: seq<int>, stars: seq<real>, w: Weights): (keys: seq<real>)
    requires Ranked(prices, stars)
  {
    seq(|prices|, i requires 0 <= i < |prices| => KeyOf(prices[i], stars[i], w))
  }

  /** Bid (p, s) beats bid (q, t): a lower price, or the same price and more stars. */
  predicate Beats(p: int, s: real, q: int, t: real)
  {
    p < q || (p == q && t < s)
  }

  /** The earliest bid that no other bid beats. */
  predicate FirstBest(prices: seq<int>, stars: seq<real>, best: int)
    requires Ranked(prices, stars)
  {
    && 0 <= best < |prices|
    && (forall j :: 0 <= j < |prices| ==> !Beats(prices[j], stars[j], prices[best], stars[best]))
    && (forall j :: 0 <= j < best ==> Beats(prices[best], stars[best], prices[j], stars[j]))
  }

  /** Under such weights the key orders bids exactly by price and then by stars. */
  lemma KeyRanksBids(p: int, s: real, q: int, t: real, w: Weights)
    requires PriceThenStars(w) && 0.0 <= s <= MAX_STARS && 0.0 <= t <= MAX_STARS
    ensures KeyOf(p, s, w) < KeyOf(q, t, w) <==> Beats(p, s, q, t)
    ensures KeyOf(p, s, w) == KeyOf(q, t, w) <==> p == q && s == t
  {
    WithoutDistance(w, Rank(p, StarPenalty(s), 0.0), Rank(q, StarPenalty(t), 0.0));
  }

  predicate SameOrder(keys: seq<real>, scaled: seq<real>)
  {
    |scaled| == |keys|
    && forall i, j :: 0 <= i < |keys| && 0 <= j < |keys| ==> (keys[i] < keys[j] <==> scaled[i] < scaled[j])
  }

  /** The largest mask slot, earliest on ties, is the cheapest bid and among equal prices the best rated one. */
  lemma MaskPicksBestBid(prices: seq<int>, stars: seq<real>, w: Weights, scaled: seq<real>, degree: int, iters: int,
                         best: int)
    requires Ranked(prices, stars) && prices != [] && PriceThenStars(w)
    requires SameOrder(Keys(prices, stars, w), scaled) && Normalized(scaled)
    ensures FirstMax(Mask(scaled, degree, iters), best) <==> FirstBest(prices, stars, best)
  {
    WinnerIsFirstMin(scaled, degree, iters, best);
    if 0 <= best < |prices| {
      var keys := Keys(prices, stars, w);
      forall j | 0 <= j < |prices|
        ensures scaled[j] < scaled[best] <==> Beats(prices[j], stars[j], prices[best], stars[best])
        ensures scaled[best] < scaled[j] <==> Beats(prices[best], stars[best], prices[j], stars[j])
      {
        assert keys[j] < keys[best] <==> scaled[j] < scaled[best];
        assert keys[best] < keys[j] <==> scaled[best] < scaled[j];
        KeyRanksBids(prices[j], stars[j], prices[best], stars[best], w);
        KeyRanksBids(prices[best], stars[best], prices[j], stars[j], w);
      }
    }
  }

  /** Encryption of a row as a fresh, noiseless ciphertext. */
  function Encrypt(row: seq<real>): M.Ciphertext { M.Ciphertext(row, 0) }

  /** The circuit from its inputs to the rider's choice: the first minimum, whenever the depth suffices. */
  method RunCircuit(h: M.ContextHandle, c: Circuit) returns (r: Result<int>)
    requires Normalized(c.keys)
    modifies h
    ensures r.Ok? <==> |c.keys| >= 2 && M.EvalLevels(c) <= h.depth
    ensures r.Ok? ==> FirstMin(c.keys, r.value)
  {
    M.LevelsOfCircuit(c);
    OneCompositionAtLeast(c.keys, c.signDegree, c.signIters);
    var rows := Inputs(c);
    var encInputs := [Encrypt(rows[0]), Encrypt(rows[1]), Encrypt(rows[2])];
    var out :- M.Eval(h, c, encInputs);
    var best := Winner(out.slots);
    WinnerIsFirstMin(c.keys, c.signDegree, c.signIters, best);
    r := Ok(best);
  }

  function Stars(s: AuctionSession): (stars: seq<real>)
    requires s.StarsInRange()
    reads s
    ensures |stars| == s.BidCount()
    ensures forall i :: 0 <= i < |stars| ==> stars[i] == s.bids[i].star.value
  {
    seq(|s.bids|, i requires 0 <= i < |s.bids| && s.StarsInRange() reads s => s.bids[i].star.value)
  }

  /** The prices inside the encrypted bids. */
  function Prices(s: AuctionSession, priceOf: Rating.Bytes -> int): (prices: seq<int>)
    reads s
    ensures |prices| == s.BidCount()
    ensures forall i :: 0 <= i < |prices| ==> prices[i] == priceOf(s.bids[i].sb.encBid)
  {
    seq(|s.bids|, i requires 0 <= i < |s.bids| reads s => priceOf(s.bids[i].sb.encBid))
  }

  /** The keys of the vectors a session hands over. */
  function VectorKeys(encBids: seq<Rating.Bytes>, stars: seq<Option<real>>, dists: seq<real>, w: Weights,
                      priceOf: Rating.Bytes -> int): (keys: seq<real>)
    requires |encBids| == |stars| == |dists| && forall i :: 0 <= i < |stars| ==> stars[i].Some?
  {
    seq(|encBids|, i requires 0 <= i < |encBids| =>
      BuildKey(priceOf(encBids[i]), StarPenalty(stars[i].value), dists[i], w))
  }

  /** The winner of a session: whoever the rider picks holds the cheapest, then best rated, then earliest bid.

    The keys are built from the vectors the session hands over, whatever its weights and degree;
    priceOf is the price inside an encrypted bid.
    */
  method Decide(h: M.ContextHandle, s: AuctionSession, priceOf: Rating.Bytes -> int, scale: seq<real> -> seq<real>,
                iters: int)
    returns (r: Result<Rating.Bytes>)
    requires s.StarsInRange() && PriceThenStars(s.w)
    requires var keys := Keys(Prices(s, priceOf), Stars(s), s.w);
             SameOrder(keys, scale(keys)) && Normalized(scale(keys))
    modifies h
    ensures r.Ok? <==>
              var keys := Keys(Prices(s, priceOf), Stars(s), s.w);
              s.BidCount() >= 2 && M.EvalLevels(Circuit(scale(keys), s.degree, iters)) <= h.depth
    ensures r.Ok? ==> exists i :: FirstBest(Prices(s, priceOf), Stars(s), i) && r.value == s.bids[i].sb.pubkey
  {
    var pk, encBids, stars, dists, nonces, band, w, degree := s.EncodeCGO();
    var keys := VectorKeys(encBids, stars, dists, w, priceOf);
    ghost var prices, held := Prices(s, priceOf), Stars(s);
    assert keys == Keys(prices, held, s.w);
    var scaled := scale(keys);
    var best :- RunCircuit(h, Circuit(scaled, degree, iters));
    WinnerIsFirstMin(scaled, degree, iters, best);
    MaskPicksBestBid(prices, held, s.w, scaled, degree, iters, best);
    r := Ok(s.PseudonymAt(best));
  }
}
