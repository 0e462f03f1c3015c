/** The auction session of internal/session/session.go: verified bids, server-side stars, aligned vectors.

  Signature verification is a parameter; a bid's price stays inside its ciphertext.
  */
module Session {
  import opened Wrappers
  import opened AuctionKey
  import opened Rating

  datatype SignedBid = SignedBid(encBid: Bytes, nonce: Bytes, pubkey: Bytes, sig: Bytes)
  /** A bid with the star rating looked up for it; no rating stands for not-a-number. */
  datatype HeldBid = HeldBid(sb: SignedBid, star: Option<real>)
  datatype PriceBand = PriceBand(floorCents: int, capCents: int)

  /** Weights without a location term. */
  function DefaultWeights(): Weights { Weights(100.0, 1.0, 0.0) }

  type Verifier = (SignedBid, Bytes) -> bool

  /** The submissions whose signature verifies, in order. */
  function Accepted(attempts: seq<HeldBid>, id: Bytes, verifies: Verifier): seq<HeldBid>
  {
    if attempts == [] then []
    else
      var (earlier, last) := (Accepted(attempts[..|attempts| - 1], id, verifies), attempts[|attempts| - 1]);
      if verifies(last.sb, id) then earlier + [last] else earlier
  }

  /** A bid keeps for good the index it got: the number of bids accepted before it. */
  lemma {:induction false} AcceptedKeepsIndex(attempts: seq<HeldBid>, id: Bytes, verifies: Verifier, k: nat)
    requires k < |attempts| && verifies(attempts[k].sb, id)
    ensures var i := |Accepted(attempts[..k], id, verifies)|;
            var held := Accepted(attempts, id, verifies);
            i < |held| && held[i] == attempts[k]
            && held[..i] == Accepted(attempts[..k], id, verifies)
  {
    var n := |attempts| - 1;
    if k < n {
      AcceptedKeepsIndex(attempts[..n], id, verifies, k);
      assert attempts[..n][..k] == attempts[..k];
    }
  }

  /** Nothing unverified is ever held, and whatever is held was submitted. */
  lemma {:induction false} AcceptedAreVerified(attempts: seq<HeldBid>, id: Bytes, verifies: Verifier, b: HeldBid)
    ensures b in Accepted(attempts, id, verifies) <==> b in attempts && verifies(b.sb, id)
  {
    if attempts != [] {
      var n := |attempts| - 1;
      AcceptedAreVerified(attempts[..n], id, verifies, b);
      assert attempts == attempts[..n] + [attempts[n]];
    }
  }

  class AuctionSession {
    const id: Bytes
    const verifies: Verifier
    const band: PriceBand
    const w: Weights
    const degree: int
    const ratings: Store?
    var riderPK: Bytes
    var bids: seq<HeldBid>
    /** Every submission so far, with the star rating looked up for it. */
    ghost var attempts: seq<HeldBid>

    constructor (id: Bytes, verifies: Verifier, band: PriceBand, w: Weights, degree: int, ratings: Store?)
      ensures this.id == id && this.verifies == verifies && this.band == band && this.w == w
      ensures this.degree == degree && this.ratings == ratings
      ensures Valid() && attempts == [] && riderPK == []
    {
      this.id, this.verifies, this.band, this.w := id, verifies, band, w;
      this.degree, this.ratings := degree, ratings;
      riderPK, bids, attempts := [], [], [];
    }

    /** The session holds exactly the verified submissions, in order. */
    ghost predicate Valid()
      reads this
    {
      bids == Accepted(attempts, id, verifies)
    }

    predicate StarsInRange()
      reads this
    {
      forall i :: 0 <= i < |bids| ==> bids[i].star.Some? && 0.0 <= bids[i].star.value <= MAX_STARS
    }

    /** The server's star rating for a key, whatever the driver claims. */
    function Star(pubkey: Bytes): (star: Option<real>)
      reads ratings
      ensures ratings == null ==> star == Some(4.3)
      ensures ratings != null && pubkey !in ratings.recs ==> star == Some(ratings.globalMean)
      ensures ratings != null && pubkey in ratings.recs ==>
                var r := ratings.recs[pubkey];
                var votes := ratings.confidence + r.count as real;
                if votes == 0.0 then star.None?
                else
                  star.Some?
                  && star.value * votes == ratings.confidence * ratings.globalMean + r.count as real * r.mean
      ensures (ratings == null || ratings.Calibrated()) ==> star.Some? && 0.0 <= star.value <= MAX_STARS
    {
      if ratings == null then Some(4.3) else ratings.StarNorm(pubkey)
    }

    method SetRiderPK(pk: Bytes)
      modifies `riderPK
      ensures riderPK == pk
    {
      riderPK := pk;
    }

    method SubmitBid(sb: SignedBid) returns (ok: bool)
      requires Valid()
      modifies `bids, `attempts
      ensures Valid() && ok == verifies(sb, id)
      ensures attempts == old(attempts) + [HeldBid(sb, Star(sb.pubkey))]
      ensures bids == old(bids) + if ok then [HeldBid(sb, Star(sb.pubkey))] else []
      ensures ok && ratings == null ==> bids == old(bids) + [HeldBid(sb, Some(4.3))]
      ensures ok && ratings != null && sb.pubkey !in ratings.recs ==>
                bids == old(bids) + [HeldBid(sb, Some(ratings.globalMean))]
      ensures ok && ratings != null && sb.pubkey in ratings.recs ==>
                var (star, r) := (bids[|bids| - 1].star, ratings.recs[sb.pubkey]);
                var votes := ratings.confidence + r.count as real;
                if votes == 0.0 then star.None?
                else
                  star.Some?
                  && star.value * votes == ratings.confidence * ratings.globalMean + r.count as real * r.mean
      ensures old(StarsInRange()) && (ratings == null || ratings.Calibrated()) ==> StarsInRange()
    {
      ghost var held := HeldBid(sb, Star(sb.pubkey));
      attempts := attempts + [held];
      assert attempts[..|attempts| - 1] == old(attempts);
      if !verifies(sb, id) {
        return false;
      }
      var star := Some(4.3);
      if ratings != null {
        star := ratings.StarNorm(sb.pubkey);
      }
      bids := bids + [HeldBid(sb, star)];
      return true;
    }

    function BidCount(): nat
      reads this
    {
      |bids|
    }

    /** The driver's key at an index, empty when there is none. */
    function PseudonymAt(i: int): (pubkey: Bytes)
      reads this
      ensures !(0 <= i < |bids|) ==> pubkey == []
      ensures 0 <= i < |bids| ==> pubkey == bids[i].sb.pubkey
    {
      if i < 0 || i >= |bids| then [] else bids[i].sb.pubkey
    }

    /** The vectors handed to the auction: entry i of each belongs to bid i, and no distance is revealed. */
    method EncodeCGO()
      returns (pk: Bytes, encBids: seq<Bytes>, stars: seq<Option<real>>, dists: seq<real>, nonces: seq<Bytes>,
               priceBand: PriceBand, weights: Weights, signDegree: int)
      ensures |encBids| == |stars| == |dists| == |nonces| == BidCount()
      ensures forall i :: 0 <= i < BidCount() ==>
                HeldBid(SignedBid(encBids[i], nonces[i], PseudonymAt(i), bids[i].sb.sig), stars[i]) == bids[i]
      ensures forall i :: 0 <= i < BidCount() ==> dists[i] == 0.0
      ensures pk == riderPK && priceBand == band && weights == w && signDegree == degree
    {
      var n := |bids|;
      encBids, nonces := seq(n, _ => []), seq(n, _ => []);
      stars, dists := seq(n, _ => Some(0.0)), seq(n, _ => 0.0);
      for i := 0 to n
        invariant |encBids| == |stars| == |nonces| == n
        invariant forall k :: 0 <= k < i ==>
                    encBids[k] == bids[k].sb.encBid && nonces[k] == bids[k].sb.nonce && stars[k] == bids[k].star
      {
        encBids := encBids[i := bids[i].sb.encBid];
        stars := stars[i := bids[i].star];
        nonces := nonces[i := bids[i].sb.nonce];
      }
      pk, priceBand, weights, signDegree := riderPK, band, w, degree;
    }
  }
}
