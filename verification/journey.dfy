/** Building, re-weighting, slicing and searching put together. */
module Journey {
  import opened RoadGraph
  import opened Walks
  import opened SearchState
  import opened Customization
  import opened Osm
  import opened Region
  import opened AStar

  /** The route found on the graph of the ways is the fastest of all open routes, as long as nothing is faster
    than 140 km/h; and a route is found exactly when there is one.
    */
  method FastestRoute(ways: seq<WayRec>, coords: Coords, dist: Distance, m: Metric, from: NodeId, to: NodeId)
    returns (path: seq<NodeId>, distM: real, durS: real, ok: bool, q: Query, ghost route: seq<nat>)
    ensures q == Query(q.net, dist, from, to, Weights(q.net.edges, m)) && WellFormed(q.net)
    ensures q.net.nodes == Junctions(coords, ways) && q.net.edges == Roads(coords, dist, ways)
    ensures ok <==> from == to || (to in q.net.nodes && Reachable(q))
    ensures ok ==> IsRoute(q, route, path, distM, durS)
    ensures ok && Ordinary(ways, m) ==> IsOptimal(q, durS)
  {
    hide Junctions, Roads, Ordinary, SpeedsWithin, AtMost, IsRoute, Returns, NonNegative, Weights, IsOptimal;
    var g := BuildGraph(ways, coords, dist);
    LengthsNonNegative(coords, dist, ways, g.Value());
    WeightsNonNegative(g.edges, m);
    var w := Customize(g, m);
    q := QueryOf(g, from, to, w);
    if Ordinary(ways, m) {
      OrdinaryGraphsMeetTheBound(coords, dist, ways, q.net, m, from, to);
    }
    path, distM, durS, ok, route := AStar.AStar(g, from, to, w, 1.0);
    if ok && Ordinary(ways, m) {
      RouteIsOptimal(q, route, path, distM, durS);
    }
  }

  lemma LengthsNonNegative(coords: Coords, dist: Distance, ways: seq<WayRec>, net: Net)
    requires net.nodes == Junctions(coords, ways) && net.edges == Roads(coords, dist, ways)
    ensures forall i :: 0 <= i < |net.edges| ==> 0.0 <= net.edges[i].lenM
  {
    hide Junctions, Roads;
    BuiltLengthsAreStraight(coords, dist, ways, net);
  }

  // ---------------------------------------------------------------- the search on a graph and on a slice of it

  /** Some open route from a to b stays inside keep and takes the given time, if any is given. */
  ghost predicate RouteInside(net: Net, w: seq<Weight>, keep: map<NodeId, bool>, a: NodeId, b: NodeId)
    requires |w| == |net.edges|
  {
    exists es :: Walk(net, w, a, es, b) && Inside(net, keep, es)
  }

  ghost predicate OptimumInside(net: Net, w: seq<Weight>, keep: map<NodeId, bool>, a: NodeId, b: NodeId, best: real)
    requires |w| == |net.edges|
  {
    exists es :: Walk(net, w, a, es, b) && Time(w, es) == best && Inside(net, keep, es)
  }

  /** A slice joins two nodes exactly when an open route of the whole graph between them stays inside. */
  lemma SliceReaches(net: Net, keep: map<NodeId, bool>, s: Net, m: Metric, a: NodeId, b: NodeId, dist: Distance)
    requires IsSlice(net, keep, s)
    ensures Reachable(Query(s, dist, a, b, Weights(s.edges, m))) <==>
              RouteInside(net, Weights(net.edges, m), keep, a, b)
  {
    hide IsSlice, Weights, Inside;
    var w, ws := Weights(net.edges, m), Weights(s.edges, m);
    if es :| Walk(s, ws, a, es, b) {
      LiftedWalk(net, keep, s, m, a, es, b);
      LiftIsInside(net, keep, s, m, a, es, b);
    }
    if es :| Walk(net, w, a, es, b) && Inside(net, keep, es) {
      var down := LoweredWalk(net, keep, s, m, a, es, b);
    }
  }

  /** Re-weights a graph and searches it. */
  method LeastTime(g: Graph, m: Metric, from: NodeId, to: NodeId) returns (durS: real, ok: bool)
    requires g.Valid() && NonNegative(Weights(g.edges, m))
    ensures ok <==> from == to || Reachable(QueryOf(g, from, to, Weights(g.edges, m)))
    ensures ok && StraightLengths(g.Value(), g.dist) && NoFasterThan(g.edges, m, 1.0) ==>
              IsOptimal(QueryOf(g, from, to, Weights(g.edges, m)), durS)
  {
    hide StraightLengths, NoFasterThan, SpeedsWithin, AtMost, IsRoute, Returns, NonNegative, Weights, IsOptimal,
         Reachable;
    var w := Customize(g, m);
    ghost var q := QueryOf(g, from, to, w);
    ghost var bounded := StraightLengths(g.Value(), g.dist) && NoFasterThan(g.edges, m, 1.0);
    if bounded {
      SpeedBoundIsSpeedLimit(q, m, 1.0);
    }
    ReachableIsKnown(q);
    var path, distM;
    ghost var route;
    path, distM, durS, ok, route := AStar.AStar(g, from, to, w, 1.0);
    if ok && bounded {
      RouteIsOptimal(q, route, path, distM, durS);
    }
  }

  /** Searching a slice succeeds exactly when an open route stays inside, and then the whole graph has a route too.

    Within the speed bound the slice's time is never below the whole graph's, and the two are equal exactly
    when some fastest route of the whole graph stays inside.
    */
  method SearchBoth(g: Graph, keep: map<NodeId, bool>, m: Metric, from: NodeId, to: NodeId)
    returns (whole: real, okWhole: bool, part: real, okPart: bool)
    requires g.Valid() && NonNegative(Weights(g.edges, m))
    ensures okWhole <==> from == to || Reachable(QueryOf(g, from, to, Weights(g.edges, m)))
    ensures okPart <==> RouteInside(g.Value(), Weights(g.edges, m), keep, from, to)
    ensures okPart ==> okWhole
    ensures okPart && StraightLengths(g.Value(), g.dist) && NoFasterThan(g.edges, m, 1.0) ==>
              && IsOptimal(QueryOf(g, from, to, Weights(g.edges, m)), whole)
              && whole <= part
              && (part == whole <==> OptimumInside(g.Value(), Weights(g.edges, m), keep, from, to, whole))
  {
    hide StraightLengths, NoFasterThan, NonNegative, Weights, IsOptimal, Reachable, RouteInside, OptimumInside,
         IsSlice, WellFormed;
    whole, okWhole := LeastTime(g, m, from, to);
    var s := Slice(g, keep);
    ghost var net := g.Value();
    SliceKeepsBounds(net, g.dist, keep, s.Value(), m, 1.0);
    SliceReaches(net, keep, s.Value(), m, from, to, g.dist);
    HomeIsInside(net, Weights(g.edges, m), keep, from, to);
    InsideReaches(net, Weights(g.edges, m), keep, from, to, g.dist);
    part, okPart := LeastTime(s, m, from, to);
    if okPart && StraightLengths(net, g.dist) && NoFasterThan(g.edges, m, 1.0) {
      SameLeastTime(net, g.dist, keep, s.Value(), m, from, to, whole, part);
    }
  }

  lemma HomeIsInside(net: Net, w: seq<Weight>, keep: map<NodeId, bool>, a: NodeId, b: NodeId)
    requires |w| == |net.edges|
    ensures a == b ==> RouteInside(net, w, keep, a, b)
  {
    if a == b {
      assert Walk(net, w, a, [], b) && Inside(net, keep, []);
    }
  }

  lemma InsideReaches(net: Net, w: seq<Weight>, keep: map<NodeId, bool>, a: NodeId, b: NodeId, dist: Distance)
    requires |w| == |net.edges|
    ensures RouteInside(net, w, keep, a, b) ==> Reachable(Query(net, dist, a, b, w))
  {
  }

  lemma SameLeastTime(net: Net, dist: Distance, keep: map<NodeId, bool>, s: Net, m: Metric, a: NodeId, b: NodeId,
                      whole: real, part: real)
    requires IsSlice(net, keep, s)
    requires IsOptimal(Query(net, dist, a, b, Weights(net.edges, m)), whole)
    requires IsOptimal(Query(s, dist, a, b, Weights(s.edges, m)), part)
    ensures whole <= part && (part == whole <==> OptimumInside(net, Weights(net.edges, m), keep, a, b, whole))
  {
    hide IsSlice, IsOptimal, Weights, Inside;
    SlicePreservesCost(net, dist, keep, s, m, a, b, whole, part);
  }
}
