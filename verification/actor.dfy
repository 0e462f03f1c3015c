/** Motion along a track: internal/movement/actor.go. */
module Movement {
  import opened RealFacts
  import opened RoadGraph

  /** Shorter segments are stepped over without using up distance. */
  const DEGENERATE_M: real := 0.000001

  /** Progress along a track: the current segment and the fraction of it already covered. */
  datatype Place = Place(seg: nat, frac: real)

  /** A nil track differs from an empty one: it never counts as arrived. */
  datatype Track = NoTrack | Route(nodes: seq<NodeId>)

  // ---------------------------------------------------------------- motion over segment lengths

  /** A place on a track whose segments have the given lengths. */
  predicate OnTrack(lens: seq<real>, p: Place)
  {
    && p.seg <= |lens| && 0.0 <= p.frac < 1.0
    && (p.seg == |lens| ==> p.frac == 0.0)
    && (forall i :: 0 <= i < |lens| ==> 0.0 <= lens[i])
  }

  /** The distance to the end of a segment. */
  function Ahead(frac: real, len: real): real { (1.0 - frac) * len }

  /** The fraction of a segment that a distance covers. */
  function Part(budget: real, len: real): real
    requires len != 0.0
  {
    budget / len
  }

  /** Where a budget of distance leads. */
  function Move(lens: seq<real>, p: Place, budget: real): Place
    decreases |lens| - p.seg
  {
    if budget <= 0.0 || p.seg >= |lens| then p
    else if lens[p.seg] < DEGENERATE_M then Move(lens, Place(p.seg + 1, 0.0), budget)
    else if budget >= Ahead(p.frac, lens[p.seg]) then
      Move(lens, Place(p.seg + 1, 0.0), budget - Ahead(p.frac, lens[p.seg]))
    else Place(p.seg, p.frac + Part(budget, lens[p.seg]))
  }

  /** The distance still ahead, degenerate segments not counted. */
  function Left(lens: seq<real>, p: Place): real
    decreases |lens| - p.seg
  {
    if p.seg >= |lens| then 0.0
    else (if lens[p.seg] < DEGENERATE_M then 0.0 else Ahead(p.frac, lens[p.seg])) + Left(lens, Place(p.seg + 1, 0.0))
  }

  lemma PartOfSegment(frac: real, len: real, budget: real)
    requires 0.0 <= frac < 1.0 && 0.0 < len && 0.0 <= budget < Ahead(frac, len)
    ensures frac <= frac + Part(budget, len) < 1.0
    ensures Ahead(frac + Part(budget, len), len) == Ahead(frac, len) - budget
  {
    var part := budget / len;
    assert part * len == budget;
    assert 0.0 <= part;
    var rest := 1.0 - frac;
    CancelFactor(len, part, rest);
    assert (rest - part) * len == rest * len - part * len;
  }

  lemma SplitBudget(len: real, a: real, b: real)
    requires 0.0 < len
    ensures Part(a + b, len) == Part(a, len) + Part(b, len)
  {
  }

  lemma AheadNonNegative(frac: real, len: real)
    requires 0.0 <= frac < 1.0 && 0.0 <= len
    ensures 0.0 <= Ahead(frac, len)
  {
    MulNonNegative(1.0 - frac, len);
  }

  lemma {:induction false} LeftNonNegative(lens: seq<real>, p: Place)
    requires OnTrack(lens, p)
    ensures 0.0 <= Left(lens, p)
    decreases |lens| - p.seg
  {
    hide Ahead;
    if p.seg < |lens| {
      LeftNonNegative(lens, Place(p.seg + 1, 0.0));
      AheadNonNegative(p.frac, lens[p.seg]);
    }
  }

  /** Motion uses up exactly the budget, or everything that was left, and stays on the track. */
  lemma {:induction false} MoveConserves(lens: seq<real>, p: Place, budget: real)
    requires OnTrack(lens, p)
    ensures OnTrack(lens, Move(lens, p, budget)) && p.seg <= Move(lens, p, budget).seg
    ensures budget <= 0.0 ==> Move(lens, p, budget) == p
    ensures 0.0 <= budget <= Left(lens, p) ==> Left(lens, Move(lens, p, budget)) == Left(lens, p) - budget
    ensures Left(lens, p) < budget ==> Move(lens, p, budget) == Place(|lens|, 0.0)
    ensures Left(lens, p) <= budget && 0.0 <= budget ==> Left(lens, Move(lens, p, budget)) == 0.0
    decreases |lens| - p.seg
  {
    hide Ahead, Part;
    LeftNonNegative(lens, p);
    if 0.0 < budget && p.seg < |lens| {
      var next, len := Place(p.seg + 1, 0.0), lens[p.seg];
      LeftNonNegative(lens, next);
      AheadNonNegative(p.frac, len);
      if len < DEGENERATE_M {
        MoveConserves(lens, next, budget);
      } else if budget >= Ahead(p.frac, len) {
        MoveConserves(lens, next, budget - Ahead(p.frac, len));
      } else {
        PartOfSegment(p.frac, len, budget);
      }
    }
  }

  /** Moving a and then b is moving a + b. */
  lemma {:induction false} MoveComposes(lens: seq<real>, p: Place, a: real, b: real)
    requires OnTrack(lens, p) && 0.0 <= a && 0.0 <= b
    ensures Move(lens, Move(lens, p, a), b) == Move(lens, p, a + b)
    decreases |lens| - p.seg
  {
    hide Ahead, Part;
    if 0.0 < a && 0.0 < b && p.seg < |lens| {
      var next, len := Place(p.seg + 1, 0.0), lens[p.seg];
      var ahead := Ahead(p.frac, len);
      if len < DEGENERATE_M {
        MoveComposes(lens, next, a, b);
      } else if a >= ahead {
        MoveComposes(lens, next, a - ahead, b);
        assert a + b - ahead == a - ahead + b;
      } else {
        PartOfSegment(p.frac, len, a);
        SplitBudget(len, a, b);
        assert b - (ahead - a) == a + b - ahead;
      }
    }
  }

  /** The length of track ahead, every segment counted. */
  function WholeAhead(lens: seq<real>, p: Place): real
    decreases |lens| - p.seg
  {
    if p.seg >= |lens| then 0.0 else Ahead(p.frac, lens[p.seg]) + WholeAhead(lens, Place(p.seg + 1, 0.0))
  }

  /** What motion gets for free is less than a millionth of a metre for each segment ahead. */
  lemma {:induction false} FreeDistance(lens: seq<real>, p: Place)
    requires OnTrack(lens, p)
    ensures 0.0 <= WholeAhead(lens, p) - Left(lens, p) <= 0.000001 * (|lens| - p.seg) as real
    ensures p.seg < |lens| && p.frac == 0.0 ==>
              (lens[p.seg] < 0.000001 <==> Left(lens, p) == Left(lens, Place(p.seg + 1, 0.0)))
    decreases |lens| - p.seg
  {
    hide Ahead;
    if p.seg < |lens| {
      var len := lens[p.seg];
      FreeDistance(lens, Place(p.seg + 1, 0.0));
      AheadAtMost(p.frac, len);
    }
  }

  lemma AheadAtMost(frac: real, len: real)
    requires 0.0 <= frac < 1.0 && 0.0 <= len
    ensures 0.0 <= Ahead(frac, len) <= len && (frac == 0.0 ==> Ahead(frac, len) == len)
  {
    MulNonNegative(1.0 - frac, len);
    MulNonNegative(frac, len);
    assert (1.0 - frac) * len == len - frac * len;
  }

  /** The place a budget of distance leads to, as the caller of Advance sees it. */
  ghost function End(lens: seq<real>, p: Place, budget: real): Place { Move(lens, p, budget) }

  /** What one turn of the motion loop does to the place and the budget. */
  lemma OneSegment(lens: seq<real>, p: Place, budget: real)
    requires OnTrack(lens, p) && 0.0 < budget && p.seg < |lens|
    ensures var len, next := lens[p.seg], Place(p.seg + 1, 0.0);
            && OnTrack(lens, next)
            && (len < DEGENERATE_M ==> End(lens, p, budget) == End(lens, next, budget))
            && (DEGENERATE_M <= len && Ahead(p.frac, len) <= budget ==>
                  End(lens, p, budget) == End(lens, next, budget - Ahead(p.frac, len)))
            && (DEGENERATE_M <= len && budget < Ahead(p.frac, len) ==>
                  var there := Place(p.seg, p.frac + Part(budget, len));
                  OnTrack(lens, there) && End(lens, p, budget) == End(lens, there, 0.0))
  {
    hide Ahead, Part;
    var len := lens[p.seg];
    if DEGENERATE_M <= len && budget < Ahead(p.frac, len) {
      PartOfSegment(p.frac, len, budget);
    }
  }

  lemma AtTheEnd(lens: seq<real>, p: Place, budget: real, start: Place, total: real)
    requires OnTrack(lens, start) && End(lens, p, budget) == End(lens, start, total)
    requires budget <= 0.0 || p.seg >= |lens|
    ensures p == End(lens, start, total) && OnTrack(lens, p)
  {
    MoveConserves(lens, start, total);
  }

  // ---------------------------------------------------------------- actors

  function Leg(nodes: map<NodeId, Node>, dist: Distance, a: NodeId, b: NodeId): (d: real)
    ensures 0.0 <= d
  {
    dist(At(nodes, a), At(nodes, b))
  }

  /** The lengths of the segments between consecutive track nodes. */
  function Legs(nodes: map<NodeId, Node>, dist: Distance, track: seq<NodeId>): (lens: seq<real>)
    ensures |lens| == if |track| == 0 then 0 else |track| - 1
    ensures forall i :: 0 <= i < |lens| ==> lens[i] == Leg(nodes, dist, track[i], track[i + 1])
  {
    seq(if |track| == 0 then 0 else |track| - 1,
        i requires 0 <= i < |track| - 1 => Leg(nodes, dist, track[i], track[i + 1]))
  }

  class Actor {
    const id: string
    const g: Graph
    var track: Track
    var seg: nat
    var frac: real

    ghost predicate Valid()
      reads this, g
    {
      match track
      case NoTrack => seg == 0 && frac == 0.0
      case Route(_) => OnTrack(Lens(), At())
    }

    function At(): Place
      reads this`seg, this`frac
    {
      Place(seg, frac)
    }

    ghost function Lens(): seq<real>
      reads this`track, g
    {
      match track
      case NoTrack => []
      case Route(ns) => Legs(g.nodes, g.dist, ns)
    }

    constructor (id: string, g: Graph, track: Track)
      ensures Valid() && this.id == id && this.g == g && this.track == track && At() == Place(0, 0.0)
    {
      this.id := id;
      this.g := g;
      this.track := track;
      seg, frac := 0, 0.0;
    }

    method SetTrack(nodes: seq<NodeId>)
      modifies this
      ensures Valid() && track == Route(nodes) && At() == Place(0, 0.0)
    {
      track, seg, frac := Route(nodes), 0, 0.0;
    }

    predicate Arrived()
      reads this
    {
      track.Route? && seg >= |track.nodes| - 1
    }

    /** Moves forward by dt seconds at the given speed; a nil track has nowhere to go. */
    method Advance(dt: real, speedMps: real)
      requires Valid() && (track.Route? || Times(dt, speedMps) <= 0.0)
      modifies this`seg, this`frac
      ensures Valid() && At() == End(Lens(), old(At()), Times(dt, speedMps))
    {
      hide Ahead, Part, End, Times;
      var remaining := Times(dt, speedMps);
      ghost var budget, start := remaining, At();
      if track.NoTrack? {
        AtTheEnd([], start, budget, start, budget);
        return;
      }
      ghost var lens := Legs(g.nodes, g.dist, track.nodes);
      while remaining > 0.0 && !Arrived()
        invariant OnTrack(lens, At())
        invariant End(lens, At(), remaining) == End(lens, start, budget)
        decreases |lens| - seg, remaining > 0.0
      {
        var segLen := Leg(g.nodes, g.dist, track.nodes[seg], track.nodes[seg + 1]);
        ghost var p, left := At(), remaining;
        assert segLen == lens[p.seg];
        OneSegment(lens, p, left);
        if segLen < DEGENERATE_M {
          seg := seg + 1;
          frac := 0.0;
          assert At() == Place(p.seg + 1, 0.0);
          assert End(lens, At(), remaining) == End(lens, p, left);
          continue;
        }
        var distToEnd := Ahead(frac, segLen);
        if remaining >= distToEnd {
          remaining := remaining - distToEnd;
          seg := seg + 1;
          frac := 0.0;
          assert At() == Place(p.seg + 1, 0.0);
          assert End(lens, At(), remaining) == End(lens, p, left);
        } else {
          frac := frac + Part(remaining, segLen);
          remaining := 0.0;
          assert At() == Place(p.seg, p.frac + Part(left, segLen));
          assert End(lens, At(), remaining) == End(lens, p, left);
        }
      }
      AtTheEnd(lens, At(), remaining, start, budget);
    }

    /** Ahead of the actor lies a segment, from p to q. */
    ghost predicate OnSegment(p: Point, q: Point)
      reads this, g
    {
      && track.Route? && seg + 1 < |track.nodes|
      && p == RoadGraph.At(g.nodes, track.nodes[seg]) && q == RoadGraph.At(g.nodes, track.nodes[seg + 1])
    }

    /** The interpolated position; the origin when there is no track. */
    function LatLng(): (r: Point)
      requires Valid()
      reads this, g
      ensures track == NoTrack || track == Route([]) ==> r == Point(0.0, 0.0)
      ensures Arrived() && track != Route([]) ==> r == RoadGraph.At(g.nodes, track.nodes[|track.nodes| - 1])
      ensures forall p: Point, q: Point :: OnSegment(p, q) ==> Divides(r, p, q, frac)
    {
      match track
      case NoTrack => Point(0.0, 0.0)
      case Route(ns) =>
        if |ns| == 0 then Point(0.0, 0.0)
        else if seg >= |ns| - 1 then RoadGraph.At(g.nodes, ns[|ns| - 1])
        else Between(RoadGraph.At(g.nodes, ns[seg]), RoadGraph.At(g.nodes, ns[seg + 1]), frac)
    }
  }

  /** The way from p to r is the fraction frac of the way from p to q, in both coordinates. */
  ghost predicate Divides(r: Point, p: Point, q: Point, frac: real)
  {
    r.lat - p.lat == (q.lat - p.lat) * frac && r.lon - p.lon == (q.lon - p.lon) * frac
  }

  /** Only one point divides a segment in a given ratio. */
  lemma DividesOnce(r: Point, s: Point, p: Point, q: Point, frac: real)
    requires Divides(r, p, q, frac) && Divides(s, p, q, frac)
    ensures r == s
  {
  }

  lemma PositionDivides(a: Actor, p: Point, q: Point)
    requires a.Valid() && a.OnSegment(p, q)
    ensures Divides(a.LatLng(), p, q, a.frac) && 0.0 <= a.frac < 1.0
  {
  }

  /** An actor on a segment is at its start at fraction zero and between its ends at every fraction. */
  lemma PositionOnSegment(a: Actor, p: Point, q: Point)
    requires a.Valid() && a.OnSegment(p, q)
    ensures var r := a.LatLng();
            && (a.frac == 0.0 ==> r == p)
            && (p.lat <= r.lat <= q.lat || q.lat <= r.lat <= p.lat)
            && (p.lon <= r.lon <= q.lon || q.lon <= r.lon <= p.lon)
  {
    hide *;
    PositionDivides(a, p, q);
    PointOnSegment(a.LatLng(), p, q, a.frac);
  }

  lemma PointOnSegment(r: Point, p: Point, q: Point, f: real)
    requires 0.0 <= f < 1.0 && Divides(r, p, q, f)
    ensures f == 0.0 ==> r == p
    ensures p.lat <= r.lat <= q.lat || q.lat <= r.lat <= p.lat
    ensures p.lon <= r.lon <= q.lon || q.lon <= r.lon <= p.lon
  {
    PartOfWay(r.lat, p.lat, q.lat, f);
    PartOfWay(r.lon, p.lon, q.lon, f);
  }

  lemma PartOfWay(x: real, y: real, z: real, f: real)
    requires 0.0 <= f < 1.0 && x - y == (z - y) * f
    ensures (y <= x <= z || z <= x <= y) && (f == 0.0 ==> x == y)
  {
    if y <= z {
      PartOfLength(z - y, x - y, f);
    } else {
      assert (y - z) * f == -((z - y) * f);
      PartOfLength(y - z, y - x, f);
    }
  }

  lemma PartOfLength(whole: real, part: real, f: real)
    requires 0.0 <= f < 1.0 && 0.0 <= whole && part == whole * f
    ensures 0.0 <= part <= whole && (f == 0.0 ==> part == 0.0)
  {
    MulNonNegative(whole, f);
    MulMonotone(whole, f, 1.0);
  }

  /** Driven from the other end, the remaining fraction leads to the same point. */
  lemma PositionReversed(a: Actor, b: Actor, p: Point, q: Point)
    requires a.Valid() && b.Valid() && a.OnSegment(p, q) && b.OnSegment(q, p)
    requires a.frac + b.frac == 1.0
    ensures a.LatLng() == b.LatLng()
  {
    hide *;
    PositionDivides(a, p, q);
    PositionDivides(b, q, p);
    PointReversed(a.LatLng(), b.LatLng(), p, q, a.frac, b.frac);
  }

  lemma PointReversed(r: Point, s: Point, p: Point, q: Point, f: real, g: real)
    requires f + g == 1.0 && Divides(r, p, q, f) && Divides(s, q, p, g)
    ensures r == s
  {
    MirroredWay(r.lat, s.lat, p.lat, q.lat, f, g);
    MirroredWay(r.lon, s.lon, p.lon, q.lon, f, g);
  }

  lemma MirroredWay(x: real, x': real, y: real, z: real, f: real, g: real)
    requires f + g == 1.0 && x - y == (z - y) * f && x' - z == (y - z) * g
    ensures x == x'
  {
    assert (y - z) * g == y - z - (y - z) * f == y - z + (z - y) * f;
  }

  /** On one segment the position moves in proportion to the fraction: equal steps of it are equal steps of both
    coordinates, and the whole segment is the way from end to end.
    */
  lemma PositionSteps(a: Actor, b: Actor, p: Point, q: Point)
    requires a.Valid() && b.Valid() && a.OnSegment(p, q) && b.OnSegment(p, q)
    ensures b.LatLng().lat - a.LatLng().lat == (b.frac - a.frac) * (q.lat - p.lat)
    ensures b.LatLng().lon - a.LatLng().lon == (b.frac - a.frac) * (q.lon - p.lon)
  {
    hide *;
    PositionDivides(a, p, q);
    PositionDivides(b, p, q);
    PointSteps(a.LatLng(), b.LatLng(), p, q, a.frac, b.frac);
  }

  lemma PointSteps(r: Point, s: Point, p: Point, q: Point, f: real, g: real)
    requires Divides(r, p, q, f) && Divides(s, p, q, g)
    ensures s.lat - r.lat == (g - f) * (q.lat - p.lat)
    ensures s.lon - r.lon == (g - f) * (q.lon - p.lon)
  {
    StepOfWay(r.lat - p.lat, s.lat - p.lat, q.lat - p.lat, f, g);
    StepOfWay(r.lon - p.lon, s.lon - p.lon, q.lon - p.lon, f, g);
  }

  lemma StepOfWay(x: real, y: real, d: real, f: real, g: real)
    requires x == d * f && y == d * g
    ensures y - x == (g - f) * d
  {
  }

  function Between(a: Point, b: Point, frac: real): Point
  {
    Point(a.lat + (b.lat - a.lat) * frac, a.lon + (b.lon - a.lon) * frac)
  }

  /** An open edge of length len and weight w, driven at len / w, takes exactly w seconds. */
  lemma EdgeTakesItsWeight(lens: seq<real>, seg: nat, w: real, dt: real)
    requires OnTrack(lens, Place(seg, 0.0)) && seg < |lens| && DEGENERATE_M <= lens[seg] && 0.0 < w && 0.0 <= dt
    ensures dt < w ==> Move(lens, Place(seg, 0.0), dt * (lens[seg] / w)) == Place(seg, dt / w)
    ensures dt == w ==> Move(lens, Place(seg, 0.0), dt * (lens[seg] / w)) == Place(seg + 1, 0.0)
  {
    var len := lens[seg];
    var speed := len / w;
    assert speed * w == len;
    if dt == w {
      assert dt * speed == len;
    } else if dt < w {
      assert 0.0 < speed;
      MulStrict(speed, dt, w);
      assert dt * speed == speed * dt;
      PartialEdge(len, w, dt, speed);
    }
  }

  lemma PartialEdge(len: real, w: real, dt: real, speed: real)
    requires 0.0 < len && 0.0 < w && speed * w == len
    ensures (dt * speed) / len == dt / w
  {
    var t := dt / w;
    assert t * w == dt;
    assert t * len == dt * speed;
  }
}
