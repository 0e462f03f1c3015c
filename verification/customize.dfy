/** Re-weighting the graph by a live metric: internal/routing/customize.go. */
module Customization {
  import opened RealFacts
  import opened RoadGraph
  import opened Walks
  import opened SearchState

  datatype EdgeKey = EdgeKey(from: NodeId, to: NodeId)

  /** Speed multipliers per class and per edge, and closed edges. */
  datatype Metric = Metric(classMult: map<RoadClass, real>, edgeMult: map<EdgeKey, real>, closed: map<EdgeKey, bool>)

  /** No multipliers and no closures. */
  const FREE_FLOW := Metric(map[], map[], map[])

  function KeyOf(e: Edge): EdgeKey { EdgeKey(e.from, e.to) }

  predicate IsClosed(m: Metric, k: EdgeKey) { k in m.closed && m.closed[k] }

  /** The speed multiplier: the edge's own, else its class's, else 1. */
  function Mult(m: Metric, e: Edge): real
  {
    if KeyOf(e) in m.edgeMult then m.edgeMult[KeyOf(e)]
    else if e.roadClass in m.classMult then m.classMult[e.roadClass]
    else 1.0
  }

  /** The current traversal time of one edge. */
  function EdgeTime(m: Metric, e: Edge): Weight
  {
    if IsClosed(m, KeyOf(e)) || Mult(m, e) <= 0.0 then Closed
    else
      match BaseWeightSec(e)
      case Closed => Closed
      case Fin(base) => Fin(base / Mult(m, e))
  }

  function Weights(edges: seq<Edge>, m: Metric): (w: seq<Weight>)
    ensures |w| == |edges| && forall i :: 0 <= i < |edges| ==> w[i] == EdgeTime(m, edges[i])
  {
    seq(|edges|, i requires 0 <= i < |edges| => EdgeTime(m, edges[i]))
  }

  method Customize(g: Graph, m: Metric) returns (out: seq<Weight>)
    ensures out == Weights(g.edges, m)
  {
    out := [];
    for i := 0 to |g.edges|
      invariant |out| == i && forall j :: 0 <= j < i ==> out[j] == EdgeTime(m, g.edges[j])
    {
      var e := g.edges[i];
      if IsClosed(m, KeyOf(e)) {
        out := out + [Closed];
        continue;
      }
      var mul := Mult(m, e);
      if mul <= 0.0 {
        out := out + [Closed];
        continue;
      }
      var base := BaseWeightSec(e);
      out := out + [if base.Closed? then Closed else Fin(base.sec / mul)];
    }
  }

  /** An edge is open exactly when it is not closed and both its multiplier (its own, else its class's, else 1) and its
    speed are positive; it is then driven at its speed times the multiplier.
    */
  lemma OpenEdgeTime(m: Metric, e: Edge)
    ensures var k := EdgeKey(e.from, e.to);
            var x := if k in m.edgeMult then m.edgeMult[k]
                     else if e.roadClass in m.classMult then m.classMult[e.roadClass] else 1.0;
            && (EdgeTime(m, e).Fin? <==> !(k in m.closed && m.closed[k]) && 0.0 < x && 0.0 < e.maxSpeedKmh)
            && (EdgeTime(m, e).Fin? ==> EdgeTime(m, e).sec * (e.maxSpeedKmh * x) == 3.6 * e.lenM)
  {
    if EdgeTime(m, e).Fin? {
      TimeAtSpeed(e.lenM, e.maxSpeedKmh, Mult(m, e), BaseWeightSec(e).sec, EdgeTime(m, e).sec);
    }
  }

  lemma TimeAtSpeed(len: real, speed: real, mul: real, base: real, sec: real)
    requires 0.0 < speed && 0.0 < mul && base == len / (speed / 3.6) && sec == base / mul
    ensures sec * (speed * mul) == 3.6 * len
  {
    assert base * (speed / 3.6) == len;
    assert sec * mul == base;
    assert sec * (speed * mul) == base * speed;
  }

  /** Customized times are never negative on edges of non-negative length. */
  lemma WeightsNonNegative(edges: seq<Edge>, m: Metric)
    requires forall i :: 0 <= i < |edges| ==> 0.0 <= edges[i].lenM
    ensures NonNegative(Weights(edges, m))
  {
    forall i | 0 <= i < |edges| && EdgeTime(m, edges[i]).Fin?
      ensures 0.0 <= EdgeTime(m, edges[i]).sec
    {
      var e := edges[i];
      QuotientNonNegative(e.lenM, e.maxSpeedKmh / 3.6);
      QuotientNonNegative(BaseWeightSec(e).sec, Mult(m, e));
    }
  }

  lemma QuotientNonNegative(x: real, y: real)
    requires 0.0 <= x && 0.0 < y
    ensures 0.0 <= x / y
  {
  }

  // ---------------------------------------------------------------- the speed bound of the search

  /** Edges carry the straight-line distance of their end nodes. */
  ghost predicate StraightLengths(net: Net, dist: Distance)
  {
    forall i :: 0 <= i < |net.edges| ==>
      net.edges[i].lenM == dist(At(net.nodes, net.edges[i].from), At(net.nodes, net.edges[i].to))
  }

  /** The speed in km/h at which an edge is driven under the metric. */
  function DrivenKmh(m: Metric, e: Edge): real { e.maxSpeedKmh * Mult(m, e) }

  /** No open edge of positive length is driven at more than c * 140 km/h. */
  predicate NoFasterThan(edges: seq<Edge>, m: Metric, c: real)
  {
    forall i :: 0 <= i < |edges| && EdgeTime(m, edges[i]).Fin? && 0.0 < edges[i].lenM ==>
      DrivenKmh(m, edges[i]) <= 140.0 * c
  }

  /** The heuristic's speed bound holds with slack c exactly when no open edge is driven faster than c * 140 km/h. */
  lemma SpeedBoundIsSpeedLimit(q: Query, m: Metric, c: real)
    requires StraightLengths(q.net, q.dist) && q.w == Weights(q.net.edges, m)
    ensures SpeedsWithin(q, c) <==> NoFasterThan(q.net.edges, m, c)
  {
    hide EdgeTime, DrivenKmh, Times;
    forall i | 0 <= i < |q.w| && q.w[i].Fin?
      ensures q.net.edges[i].lenM <= Times(c, q.w[i].sec) * MAX_GRAPH_SPEED_MPS <==>
              (0.0 < q.net.edges[i].lenM ==> DrivenKmh(m, q.net.edges[i]) <= 140.0 * c)
    {
      EdgeSpeedBound(m, q.net.edges[i], c);
    }
  }

  /** One edge: the bound on its length per second is a bound on the speed it is driven at. */
  lemma EdgeSpeedBound(m: Metric, e: Edge, c: real)
    requires 0.0 <= e.lenM && EdgeTime(m, e).Fin?
    ensures e.lenM <= Times(c, EdgeTime(m, e).sec) * MAX_GRAPH_SPEED_MPS <==>
              (0.0 < e.lenM ==> DrivenKmh(m, e) <= 140.0 * c)
  {
    hide Mult, Times;
    SpeedOfEdge(e.lenM, e.maxSpeedKmh, Mult(m, e), c, EdgeTime(m, e).sec);
  }

  lemma SpeedOfEdge(len: real, speed: real, mul: real, c: real, sec: real)
    requires 0.0 <= len && 0.0 < speed / 3.6 && 0.0 < mul && sec == len / (speed / 3.6) / mul
    ensures len <= Times(c, sec) * MAX_GRAPH_SPEED_MPS <==> (0.0 < len ==> speed * mul <= 140.0 * c)
  {
    var v := speed * mul;
    var mps := speed / 3.6;
    var base := len / mps;
    assert base * mps == len;
    assert sec * mul == base;
    Recombine(sec, mul, mps, base, len);
    assert v == mps * mul * 3.6;
    MulPositive(mps, mul);
    CompareSpeeds(sec, v, c, len);
  }

  lemma Recombine(sec: real, mul: real, mps: real, base: real, len: real)
    requires sec * mul == base && base * mps == len
    ensures sec * (mps * mul) == len
  {
  }

  lemma CompareSpeeds(sec: real, v: real, c: real, len: real)
    requires 0.0 < v && sec * v == 3.6 * len && 0.0 <= len
    ensures len <= Times(c, sec) * MAX_GRAPH_SPEED_MPS <==> (0.0 < len ==> v <= 140.0 * c)
  {
    assert Times(c, sec) * MAX_GRAPH_SPEED_MPS * 3.6 == sec * (140.0 * c);
    if v <= 140.0 * c {
      if 0.0 <= sec { MulMonotone(sec, v, 140.0 * c); } else { MulPositive(-sec, v); }
    } else if 0.0 < len {
      if sec <= 0.0 { MulNonNegative(-sec, v); }
      MulStrict(sec, 140.0 * c, v);
    } else {
      if sec != 0.0 { NonZeroProduct(sec, v); }
    }
  }

  lemma NonZeroProduct(x: real, y: real)
    requires x != 0.0 && y != 0.0
    ensures x * y != 0.0
  {
  }
}
