/** Building the road graph from distilled ways: BuildGraph in internal/routing/osm.go. */
module Osm {
  import opened RealFacts
  import opened RoadGraph
  import opened SearchState
  import opened Customization

  datatype WayRec = WayRec(nodes: seq<NodeId>, highway: string, ref: string, oneway: bool, maxSpeedKmh: real)

  type Coords = map<NodeId, Point>

  predicate Drivable(w: WayRec) { Classify(w.highway).1 }

  // ---------------------------------------------------------------- what the ways describe

  /** The directed road from a to b that a way describes. */
  function Road(coords: Coords, dist: Distance, w: WayRec, a: NodeId, b: NodeId): Edge
    requires a in coords && b in coords
  {
    var c := Classify(w.highway).0;
    Edge(a, b, dist(coords[a], coords[b]), c, if w.maxSpeedKmh <= 0.0 then DefaultSpeedKmh(c) else w.maxSpeedKmh, w.ref)
  }

  /** The roads between two consecutive nodes: none unless both are located, one if oneway, else both directions. */
  function PairRoads(coords: Coords, dist: Distance, w: WayRec, a: NodeId, b: NodeId): seq<Edge>
  {
    if a !in coords || b !in coords then []
    else if w.oneway then [Road(coords, dist, w, a, b)]
    else [Road(coords, dist, w, a, b), Road(coords, dist, w, b, a)]
  }

  /** The roads of the first n consecutive pairs of a way. */
  function WayRoads(coords: Coords, dist: Distance, w: WayRec, n: nat): seq<Edge>
    requires n == 0 || n < |w.nodes|
  {
    if n == 0 then [] else WayRoads(coords, dist, w, n - 1) + PairRoads(coords, dist, w, w.nodes[n - 1], w.nodes[n])
  }

  function Pairs(w: WayRec): nat { if |w.nodes| == 0 then 0 else |w.nodes| - 1 }

  /** The roads of all drivable ways, in order. */
  function Roads(coords: Coords, dist: Distance, ways: seq<WayRec>): seq<Edge>
  {
    if ways == [] then []
    else
      var w := ways[|ways| - 1];
      Roads(coords, dist, ways[..|ways| - 1]) + (if Drivable(w) then WayRoads(coords, dist, w, Pairs(w)) else [])
  }

  ghost predicate OnDrivable(ways: seq<WayRec>, id: NodeId)
  {
    exists w :: w in ways && Drivable(w) && id in w.nodes
  }

  ghost function Junctions(coords: Coords, ways: seq<WayRec>): map<NodeId, Node>
  {
    map id | id in coords && OnDrivable(ways, id) :: Node(id, coords[id])
  }

  // ---------------------------------------------------------------- building

  function Tagged(es: seq<Edge>, ref: string): (r: seq<Edge>)
    ensures |r| == |es|
  {
    seq(|es|, i requires 0 <= i < |es| => es[i].(ref := ref))
  }

  /** Changing edges without moving their start nodes keeps the adjacency index. */
  lemma {:induction false} SameStartsSameOut(a: seq<Edge>, b: seq<Edge>, u: NodeId)
    requires |a| == |b| && forall i :: 0 <= i < |a| ==> a[i].from == b[i].from
    ensures OutEdges(a, u) == OutEdges(b, u)
  {
    if a != [] {
      SameStartsSameOut(a[..|a| - 1], b[..|b| - 1], u);
    }
  }

  lemma SameStartsKeepIndex(a: seq<Edge>, b: seq<Edge>, adj: map<NodeId, seq<nat>>)
    requires Indexed(a, adj) && |a| == |b| && forall i :: 0 <= i < |a| ==> a[i].from == b[i].from
    ensures Indexed(b, adj)
  {
    forall u | u in adj
      ensures adj[u] == OutEdges(b, u)
    {
      SameStartsSameOut(a, b, u);
    }
  }

  /** Writes ref into every edge from index before on, in place. */
  method PatchRefs(g: Graph, before: nat, ref: string)
    requires g.Valid() && before <= |g.edges|
    modifies g`edges
    ensures g.Valid() && g.edges == old(g.edges[..before]) + Tagged(old(g.edges[before..]), ref)
  {
    ghost var plain := g.edges;
    for j := before to |g.edges|
      invariant |g.edges| == |plain|
      invariant forall k :: 0 <= k < |plain| ==>
                  g.edges[k] == if before <= k < j then plain[k].(ref := ref) else plain[k]
    {
      g.edges := g.edges[j := g.edges[j].(ref := ref)];
    }
    SameStartsKeepIndex(plain, g.edges, g.adj);
    assert g.edges == plain[..before] + Tagged(plain[before..], ref);
  }

  /** Adds one located pair of a way, tagged with the way's ref. */
  method AddPair(g: Graph, w: WayRec, a: NodeId, b: NodeId, coords: Coords)
    requires g.Valid() && Drivable(w)
    requires a in g.nodes <==> a in coords
    requires b in g.nodes <==> b in coords
    requires forall id :: id in g.nodes ==> id in coords && g.nodes[id].at == coords[id]
    modifies g`edges, g`adj
    ensures g.Valid() && g.edges == old(g.edges) + PairRoads(coords, g.dist, w, a, b)
  {
    if a !in g.nodes || b !in g.nodes {
      return;
    }
    ghost var old_edges := g.edges;
    ghost var added := NewEdges(g.nodes, g.dist, a, b, Classify(w.highway).0, w.maxSpeedKmh, w.oneway);
    var before := |g.edges|;
    g.AddEdge(a, b, Classify(w.highway).0, w.maxSpeedKmh, w.oneway);
    assert g.edges[..before] == old_edges && g.edges[before..] == added;
    PatchRefs(g, before, w.ref);
    assert Tagged(added, w.ref) == PairRoads(coords, g.dist, w, a, b);
  }

  /** Adds the roads between the consecutive nodes of a way whose located nodes are known. */
  method AddWayRoads(g: Graph, w: WayRec, coords: Coords)
    requires g.Valid() && Drivable(w)
    requires forall id :: id in w.nodes ==> (id in g.nodes <==> id in coords)
    requires forall id :: id in g.nodes ==> id in coords && g.nodes[id].at == coords[id]
    modifies g`edges, g`adj
    ensures g.Valid() && g.edges == old(g.edges) + WayRoads(coords, g.dist, w, Pairs(w))
  {
    hide PairRoads;
    ghost var start := g.edges;
    for i := 0 to Pairs(w)
      invariant g.Valid() && g.edges == start + WayRoads(coords, g.dist, w, i)
    {
      assert w.nodes[i] in w.nodes && w.nodes[i + 1] in w.nodes;
      AddPair(g, w, w.nodes[i], w.nodes[i + 1], coords);
      AppendRoads(start, coords, g.dist, w, i);
    }
  }

  lemma AppendRoads(start: seq<Edge>, coords: Coords, dist: Distance, w: WayRec, i: nat)
    requires i + 1 < |w.nodes|
    ensures start + WayRoads(coords, dist, w, i) + PairRoads(coords, dist, w, w.nodes[i], w.nodes[i + 1])
         == start + WayRoads(coords, dist, w, i + 1)
  {
  }

  /** Adds the nodes and the roads of one drivable way. */
  method AddWay(g: Graph, w: WayRec, coords: Coords, ghost earlier: seq<WayRec>)
    requires g.Valid() && g.nodes == Junctions(coords, earlier) && Drivable(w)
    modifies g
    ensures g.Valid() && g.nodes == Junctions(coords, earlier + [w])
    ensures g.edges == old(g.edges) + WayRoads(coords, g.dist, w, Pairs(w))
  {
    AddJunctions(g, w, coords, earlier);
    JunctionsSnoc(earlier, w);
    assert g.nodes == Junctions(coords, earlier + [w]);
    AddWayRoads(g, w, coords);
  }

  method BuildGraph(ways: seq<WayRec>, coords: Coords, dist: Distance) returns (g: Graph)
    ensures fresh(g) && g.dist == dist && g.Valid()
    ensures g.nodes == Junctions(coords, ways)
    ensures g.edges == Roads(coords, dist, ways)
  {
    hide Junctions, Roads, WayRoads;
    g := new Graph(dist);
    NothingBuilt(coords, dist);
    assert ways[..0] == [];
    for k := 0 to |ways|
      invariant g.Valid() && g.dist == dist && fresh(g)
      invariant g.nodes == Junctions(coords, ways[..k])
      invariant g.edges == Roads(coords, dist, ways[..k])
      modifies g
    {
      var w := ways[k];
      assert ways[..k + 1] == ways[..k] + [w];
      RoadsSnoc(coords, dist, ways[..k], w);
      if !Classify(w.highway).1 {
        SkippedWay(coords, ways[..k], w);
        continue;
      }
      AddWay(g, w, coords, ways[..k]);
    }
    assert ways[..|ways|] == ways;
  }

  lemma NothingBuilt(coords: Coords, dist: Distance)
    ensures Junctions(coords, []) == map[] && Roads(coords, dist, []) == []
  {
  }

  lemma RoadsSnoc(coords: Coords, dist: Distance, ways: seq<WayRec>, w: WayRec)
    ensures Roads(coords, dist, ways + [w])
         == Roads(coords, dist, ways) + (if Drivable(w) then WayRoads(coords, dist, w, Pairs(w)) else [])
  {
    assert (ways + [w])[..|ways|] == ways;
  }

  lemma SkippedWay(coords: Coords, ways: seq<WayRec>, w: WayRec)
    requires !Drivable(w)
    ensures Junctions(coords, ways + [w]) == Junctions(coords, ways)
  {
    JunctionsSnoc(ways, w);
  }

  lemma JunctionsSnoc(ways: seq<WayRec>, w: WayRec)
    ensures forall id :: OnDrivable(ways + [w], id) <==> OnDrivable(ways, id) || (Drivable(w) && id in w.nodes)
  {
    assert forall v :: v in ways + [w] <==> v in ways || v == w;
  }

  /** Adds every located node of a drivable way. */
  method AddJunctions(g: Graph, w: WayRec, coords: Coords, ghost earlier: seq<WayRec>)
    requires g.Valid() && g.nodes == Junctions(coords, earlier)
    modifies g
    ensures g.Valid() && g.edges == old(g.edges) && g.adj == old(g.adj)
    ensures g.nodes == map id | id in coords && (OnDrivable(earlier, id) || id in w.nodes) :: Node(id, coords[id])
  {
    for i := 0 to |w.nodes|
      invariant g.Valid() && g.edges == old(g.edges) && g.adj == old(g.adj)
      invariant g.nodes
             == map id | id in coords && (OnDrivable(earlier, id) || id in w.nodes[..i]) :: Node(id, coords[id])
    {
      var id := w.nodes[i];
      assert w.nodes[..i + 1] == w.nodes[..i] + [id];
      if id in coords {
        g.AddNode(id, coords[id]);
      }
    }
    assert w.nodes[..|w.nodes|] == w.nodes;
  }

  // ---------------------------------------------------------------- the order of the roads

  /** A later batch of ways appends its roads. */
  lemma {:induction false} RoadsInOrder(coords: Coords, dist: Distance, ways: seq<WayRec>, more: seq<WayRec>)
    ensures Roads(coords, dist, ways + more) == Roads(coords, dist, ways) + Roads(coords, dist, more)
  {
    hide WayRoads;
    if more == [] {
      assert ways + more == ways;
    } else {
      var init, w := more[..|more| - 1], more[|more| - 1];
      assert ways + more == (ways + init) + [w] && more == init + [w];
      RoadsSnoc(coords, dist, ways + init, w);
      RoadsSnoc(coords, dist, init, w);
      RoadsInOrder(coords, dist, ways, init);
    }
  }

  /** Splitting a way at a node changes nothing: the roads are those of the two parts, one after the other. */
  lemma SplitWay(coords: Coords, dist: Distance, w: WayRec, k: nat)
    requires k < |w.nodes|
    ensures Roads(coords, dist, [w]) == Roads(coords, dist, [w.(nodes := w.nodes[..k + 1]), w.(nodes := w.nodes[k..])])
  {
    hide WayRoads;
    var first, second := w.(nodes := w.nodes[..k + 1]), w.(nodes := w.nodes[k..]);
    RoadsOfOne(coords, dist, w);
    RoadsOfOne(coords, dist, first);
    RoadsOfOne(coords, dist, second);
    RoadsInOrder(coords, dist, [first], [second]);
    assert [first] + [second] == [first, second];
    SplitRoads(coords, dist, w, k, Pairs(w));
    SamePairs(coords, dist, w, first, k);
  }

  lemma RoadsOfOne(coords: Coords, dist: Distance, w: WayRec)
    ensures Roads(coords, dist, [w]) == if Drivable(w) then WayRoads(coords, dist, w, Pairs(w)) else []
  {
    hide WayRoads;
    assert [w][..0] == [];
    RoadsSnoc(coords, dist, [], w);
    assert [] + [w] == [w];
  }

  lemma {:induction false} SamePairs(coords: Coords, dist: Distance, w: WayRec, v: WayRec, n: nat)
    requires n < |v.nodes| && v == w.(nodes := v.nodes) && v.nodes <= w.nodes
    ensures WayRoads(coords, dist, v, n) == WayRoads(coords, dist, w, n)
  {
    if n > 0 {
      SamePairs(coords, dist, w, v, n - 1);
      assert v.nodes[n - 1] == w.nodes[n - 1] && v.nodes[n] == w.nodes[n];
    }
  }

  lemma {:induction false} SplitRoads(coords: Coords, dist: Distance, w: WayRec, k: nat, n: nat)
    requires k <= n < |w.nodes|
    ensures WayRoads(coords, dist, w, n)
         == WayRoads(coords, dist, w, k) + WayRoads(coords, dist, w.(nodes := w.nodes[k..]), n - k)
  {
    if n > k {
      SplitRoads(coords, dist, w, k, n - 1);
    }
  }

  /** A drivable way of two located nodes is its road and, unless oneway, the road back. */
  lemma RoadsOfTwo(coords: Coords, dist: Distance, w: WayRec, a: NodeId, b: NodeId)
    requires w.nodes == [a, b] && Drivable(w) && a in coords && b in coords
    ensures var roads := Roads(coords, dist, [w]);
            && |roads| == (if w.oneway then 1 else 2)
            && EdgeIs(roads[0], coords, dist, w, a, b) && (!w.oneway ==> EdgeIs(roads[1], coords, dist, w, b, a))
  {
    RoadsOfOne(coords, dist, w);
    assert WayRoads(coords, dist, w, 1) == WayRoads(coords, dist, w, 0) + PairRoads(coords, dist, w, a, b);
  }

  // ---------------------------------------------------------------- what the built graph promises

  /** e is a road some drivable way describes between two consecutive located nodes. */
  ghost predicate Described(coords: Coords, dist: Distance, ways: seq<WayRec>, e: Edge)
  {
    exists w, i :: w in ways && Drivable(w) && DescribedBy(coords, dist, w, i, e)
  }

  predicate DescribedBy(coords: Coords, dist: Distance, w: WayRec, i: int, e: Edge)
  {
    && 0 <= i < |w.nodes| - 1
    && var a, b := w.nodes[i], w.nodes[i + 1];
       && a in coords && b in coords
       && (EdgeIs(e, coords, dist, w, a, b) || (!w.oneway && EdgeIs(e, coords, dist, w, b, a)))
  }

  predicate EdgeIs(e: Edge, coords: Coords, dist: Distance, w: WayRec, a: NodeId, b: NodeId)
    requires a in coords && b in coords
  {
    && e.from == a && e.to == b && e.ref == w.ref && e.lenM == dist(coords[a], coords[b])
    && e.roadClass == Classify(w.highway).0
    && e.maxSpeedKmh == if w.maxSpeedKmh <= 0.0 then DefaultSpeedKmh(e.roadClass) else w.maxSpeedKmh
  }

  lemma {:induction false} WayRoadsAreDescribed(coords: Coords, dist: Distance, w: WayRec, n: nat, e: Edge)
    requires n == 0 || n < |w.nodes|
    ensures e in WayRoads(coords, dist, w, n) <==> exists i :: 0 <= i < n && DescribedBy(coords, dist, w, i, e)
  {
    if n > 0 {
      WayRoadsAreDescribed(coords, dist, w, n - 1, e);
      assert e in PairRoads(coords, dist, w, w.nodes[n - 1], w.nodes[n]) <==> DescribedBy(coords, dist, w, n - 1, e);
    }
  }

  /** The edge list holds exactly the roads the drivable ways describe. */
  lemma {:induction false} RoadsAreDescribed(coords: Coords, dist: Distance, ways: seq<WayRec>, e: Edge)
    ensures e in Roads(coords, dist, ways) <==> Described(coords, dist, ways, e)
  {
    if ways != [] {
      var init, w := ways[..|ways| - 1], ways[|ways| - 1];
      RoadsAreDescribed(coords, dist, init, e);
      WayRoadsAreDescribed(coords, dist, w, Pairs(w), e);
      assert forall v :: v in ways <==> v in init || v == w by { assert ways == init + [w]; }
      assert Drivable(w) && e in WayRoads(coords, dist, w, Pairs(w)) ==> Described(coords, dist, ways, e);
    }
  }

  /** Edge lengths agree with the final nodes. */
  lemma BuiltLengthsAreStraight(coords: Coords, dist: Distance, ways: seq<WayRec>, net: Net)
    requires net.nodes == Junctions(coords, ways) && net.edges == Roads(coords, dist, ways)
    ensures StraightLengths(net, dist)
  {
    forall i | 0 <= i < |net.edges|
      ensures net.edges[i].lenM == dist(At(net.nodes, net.edges[i].from), At(net.nodes, net.edges[i].to))
    {
      var e := net.edges[i];
      RoadsAreDescribed(coords, dist, ways, e);
      var w, j :| w in ways && Drivable(w) && DescribedBy(coords, dist, w, j, e);
      assert OnDrivable(ways, w.nodes[j]) && OnDrivable(ways, w.nodes[j + 1]);
    }
  }

  /** No way is signed above 140 km/h and no multiplier speeds traffic up. */
  predicate Ordinary(ways: seq<WayRec>, m: Metric)
  {
    && (forall i :: 0 <= i < |ways| ==> ways[i].maxSpeedKmh <= 140.0)
    && (forall k :: k in m.classMult ==> m.classMult[k] <= 1.0)
    && (forall k :: k in m.edgeMult ==> m.edgeMult[k] <= 1.0)
  }

  lemma OrdinaryEdge(coords: Coords, dist: Distance, ways: seq<WayRec>, m: Metric, e: Edge)
    requires Described(coords, dist, ways, e) && Ordinary(ways, m) && EdgeTime(m, e).Fin?
    ensures DrivenKmh(m, e) <= 140.0
  {
    var w, j :| w in ways && Drivable(w) && DescribedBy(coords, dist, w, j, e);
    assert 0.0 <= e.maxSpeedKmh <= 140.0;
    assert Mult(m, e) <= 1.0;
    MulMonotone(e.maxSpeedKmh, Mult(m, e), 1.0);
  }

  /** On such input the heuristic's speed bound holds, so the search on the built graph is time-minimal. */
  lemma OrdinaryGraphsMeetTheBound(coords: Coords, dist: Distance, ways: seq<WayRec>, net: Net, m: Metric,
                                   from: NodeId, to: NodeId)
    requires net.nodes == Junctions(coords, ways) && net.edges == Roads(coords, dist, ways) && Ordinary(ways, m)
    ensures SpeedsWithin(Query(net, dist, from, to, Weights(net.edges, m)), 1.0)
  {
    hide DrivenKmh, EdgeTime, Ordinary, Described, SpeedsWithin, StraightLengths, Roads;
    BuiltLengthsAreStraight(coords, dist, ways, net);
    forall i | 0 <= i < |net.edges| && EdgeTime(m, net.edges[i]).Fin?
      ensures DrivenKmh(m, net.edges[i]) <= 140.0
    {
      RoadsAreDescribed(coords, dist, ways, net.edges[i]);
      OrdinaryEdge(coords, dist, ways, m, net.edges[i]);
    }
    assert NoFasterThan(net.edges, m, 1.0);
    SpeedBoundIsSpeedLimit(Query(net, dist, from, to, Weights(net.edges, m)), m, 1.0);
  }
}
