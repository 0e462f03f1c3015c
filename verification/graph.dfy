/** The road graph of internal/routing/graph.go and roadclass.go. */
module RoadGraph {
  type NodeId = int

  datatype Point = Point(lat: real, lon: real)

  datatype Node = Node(id: NodeId, at: Point)

  datatype RoadClass = ClassNone | ClassLocal | ClassTertiary | ClassSecondary | ClassPrimary | ClassTrunk
    | ClassMotorway

  datatype Edge = Edge(from: NodeId, to: NodeId, lenM: real, roadClass: RoadClass, maxSpeedKmh: real, ref: string)

  /** A traversal time in seconds, or the positive infinity of a closed edge. */
  datatype Weight = Fin(sec: real) | Closed

  /** The contents of a graph: nodes by id, edges by index, and the edge indices leaving each node. */
  datatype Net = Net(nodes: map<NodeId, Node>, edges: seq<Edge>, adj: map<NodeId, seq<nat>>)

  // ---------------------------------------------------------------- distance

  ghost predicate IsMetric(d: (Point, Point) -> real)
  {
    && (forall p, q :: 0.0 <= d(p, q))
    && (forall p :: d(p, p) == 0.0)
    && (forall p, q :: d(p, q) == d(q, p))
    && (forall p, q, r :: d(p, r) <= d(p, q) + d(q, r))
  }

  /** The haversine distance is used only through these four laws. */
  type Distance = d: (Point, Point) -> real | IsMetric(d) ghost witness (p, q) => 0.0

  /** A missing node reads as the zero node, as a map lookup does in the source. */
  function At(nodes: map<NodeId, Node>, id: NodeId): Point
  {
    if id in nodes then nodes[id].at else Point(0.0, 0.0)
  }

  // ---------------------------------------------------------------- road classes

  function Classify(highway: string): (RoadClass, bool)
  {
    if highway in {"motorway", "motorway_link"} then (ClassMotorway, true)
    else if highway in {"trunk", "trunk_link"} then (ClassTrunk, true)
    else if highway in {"primary", "primary_link"} then (ClassPrimary, true)
    else if highway in {"secondary", "secondary_link"} then (ClassSecondary, true)
    else if highway in {"tertiary", "tertiary_link"} then (ClassTertiary, true)
    else if highway in {"unclassified", "residential", "living_street", "service"} then (ClassLocal, true)
    else (ClassNone, false)
  }

  function DefaultSpeedKmh(c: RoadClass): real
  {
    match c
    case ClassMotorway => 120.0
    case ClassTrunk => 100.0
    case ClassPrimary => 70.0
    case ClassSecondary => 60.0
    case ClassTertiary => 50.0
    case ClassLocal => 30.0
    case ClassNone => 0.0
  }

  /** The drivable tags and the speed in km/h each stands for when a way gives none; a link road counts as its class. */
  lemma DefaultSpeeds(highway: string)
    ensures Classify(highway).1 <==>
              highway in {"motorway", "trunk", "primary", "secondary", "tertiary", "motorway_link", "trunk_link",
                          "primary_link", "secondary_link", "tertiary_link", "unclassified", "residential",
                          "living_street", "service"}
    ensures !Classify(highway).1 <==> Classify(highway).0 == ClassNone
    ensures highway in {"motorway", "trunk", "primary", "secondary", "tertiary"} ==>
              Classify(highway + "_link") == Classify(highway)
    ensures Classify("motorway").0 == ClassMotorway && DefaultSpeedKmh(ClassMotorway) == 120.0
    ensures Classify("trunk").0 == ClassTrunk && DefaultSpeedKmh(ClassTrunk) == 100.0
    ensures Classify("primary").0 == ClassPrimary && DefaultSpeedKmh(ClassPrimary) == 70.0
    ensures Classify("secondary").0 == ClassSecondary && DefaultSpeedKmh(ClassSecondary) == 60.0
    ensures Classify("tertiary").0 == ClassTertiary && DefaultSpeedKmh(ClassTertiary) == 50.0
    ensures highway in {"unclassified", "residential", "living_street", "service"} ==>
              Classify(highway).0 == ClassLocal && DefaultSpeedKmh(ClassLocal) == 30.0
  {
    assert "motorway" + "_link" == "motorway_link" && "trunk" + "_link" == "trunk_link";
    assert "primary" + "_link" == "primary_link" && "secondary" + "_link" == "secondary_link";
    assert "tertiary" + "_link" == "tertiary_link";
  }

  // ---------------------------------------------------------------- adjacency

  /** The indices of the edges leaving u, in ascending order. */
  function OutEdges(edges: seq<Edge>, u: NodeId): seq<nat>
  {
    if edges == [] then []
    else OutEdges(edges[..|edges| - 1], u) + (if edges[|edges| - 1].from == u then [|edges| - 1] else [])
  }

  /** OutEdges lists exactly the edges leaving u, each once and in ascending order. */
  lemma {:induction false} OutEdgesExact(edges: seq<Edge>, u: NodeId)
    ensures forall e :: e in OutEdges(edges, u) <==> 0 <= e < |edges| && edges[e].from == u
    ensures forall i, j :: 0 <= i < j < |OutEdges(edges, u)| ==> OutEdges(edges, u)[i] < OutEdges(edges, u)[j]
  {
    if edges != [] {
      var last := |edges| - 1;
      var init := OutEdges(edges[..last], u);
      OutEdgesExact(edges[..last], u);
      forall e
        ensures e in OutEdges(edges, u) <==> 0 <= e < |edges| && edges[e].from == u
      {
        assert e in OutEdges(edges, u) <==> e in init || (e == last && edges[last].from == u);
        assert e in init <==> 0 <= e < last && edges[e].from == u;
      }
      forall i, j | 0 <= i < j < |OutEdges(edges, u)|
        ensures OutEdges(edges, u)[i] < OutEdges(edges, u)[j]
      {
        assert init[i] in init;
      }
    }
  }

  lemma NoOutEdges(edges: seq<Edge>, u: NodeId)
    requires forall i :: 0 <= i < |edges| ==> edges[i].from != u
    ensures OutEdges(edges, u) == []
  {
  }

  /** The adjacency index lists every edge exactly once, under its start node. */
  ghost predicate Indexed(edges: seq<Edge>, adj: map<NodeId, seq<nat>>)
  {
    && (forall u :: u in adj ==> adj[u] == OutEdges(edges, u) && adj[u] != [])
    && (forall i :: 0 <= i < |edges| ==> edges[i].from in adj)
  }

  lemma NothingIndexed()
    ensures Indexed([], map[])
  {
  }

  /** The adjacency index after appending an edge. */
  function Append(adj: map<NodeId, seq<nat>>, u: NodeId, idx: nat): map<NodeId, seq<nat>>
  {
    adj[u := (if u in adj then adj[u] else []) + [idx]]
  }

  lemma AppendKeepsIndex(edges: seq<Edge>, adj: map<NodeId, seq<nat>>, e: Edge)
    requires Indexed(edges, adj)
    ensures Indexed(edges + [e], Append(adj, e.from, |edges|))
  {
    var adj' := Append(adj, e.from, |edges|);
    if e.from !in adj {
      NoOutEdges(edges, e.from);
    }
    forall u | u in adj'
      ensures adj'[u] == OutEdges(edges + [e], u) && adj'[u] != []
    {
      OutEdgesOfAppend(edges, e, u);
    }
    forall i | 0 <= i < |edges + [e]|
      ensures (edges + [e])[i].from in adj'
    {
    }
  }

  lemma OutEdgesOfAppend(edges: seq<Edge>, e: Edge, u: NodeId)
    ensures OutEdges(edges + [e], u) == OutEdges(edges, u) + (if e.from == u then [|edges|] else [])
  {
    assert (edges + [e])[..|edges|] == edges;
  }

  /** Two adjacency indexes of the same edges are the same map. */
  lemma IndexUnique(edges: seq<Edge>, a: map<NodeId, seq<nat>>, b: map<NodeId, seq<nat>>)
    requires Indexed(edges, a) && Indexed(edges, b)
    ensures a == b
  {
    IndexCovers(edges, a, b);
    IndexCovers(edges, b, a);
    assert forall u :: u in a ==> a[u] == b[u];
  }

  lemma IndexCovers(edges: seq<Edge>, a: map<NodeId, seq<nat>>, b: map<NodeId, seq<nat>>)
    requires Indexed(edges, a) && Indexed(edges, b)
    ensures a.Keys <= b.Keys
  {
    forall u | u in a
      ensures u in b
    {
      OutEdgesExact(edges, u);
      var e := a[u][0];
      assert e in OutEdges(edges, u);
    }
  }

  /** Every edge joins known nodes and the index is exact. */
  ghost predicate WellFormed(net: Net)
  {
    && Indexed(net.edges, net.adj)
    && (forall i :: 0 <= i < |net.edges| ==> net.edges[i].from in net.nodes && net.edges[i].to in net.nodes)
  }

  /** Nodes are filed under their own id. */
  ghost predicate FiledById(nodes: map<NodeId, Node>)
  {
    forall id :: id in nodes ==> nodes[id].id == id
  }

  // ---------------------------------------------------------------- the graph object

  class Graph {
    const dist: Distance
    var nodes: map<NodeId, Node>
    var edges: seq<Edge>
    var adj: map<NodeId, seq<nat>>

    ghost predicate Valid()
      reads this
    {
      WellFormed(Value()) && FiledById(nodes)
    }

    function Value(): Net
      reads this
    {
      Net(nodes, edges, adj)
    }

    constructor (dist: Distance)
      ensures Valid() && Value() == Net(map[], [], map[]) && this.dist == dist
    {
      this.dist := dist;
      nodes, edges, adj := map[], [], map[];
    }

    method AddNode(id: NodeId, at: Point)
      requires Valid()
      modifies this
      ensures Valid()
      ensures Value() == old(Value()).(nodes := old(nodes)[id := Node(id, at)])
    {
      nodes := nodes[id := Node(id, at)];
    }

    /** Adds the edge, and behind it its reverse unless oneway; does nothing when an endpoint is unknown. */
    method AddEdge(from: NodeId, to: NodeId, roadClass: RoadClass, speedKmh: real, oneway: bool)
      requires Valid()
      modifies this`edges, this`adj
      ensures Valid()
      ensures edges == old(edges) + NewEdges(nodes, dist, from, to, roadClass, speedKmh, oneway)
      ensures old(edges) <= edges
      ensures |edges| == |old(edges)| + if from !in nodes || to !in nodes then 0 else if oneway then 1 else 2
      ensures forall i :: |old(edges)| <= i < |edges| ==>
                && from in nodes && to in nodes
                && (edges[i].from, edges[i].to) == (if i == |old(edges)| then (from, to) else (to, from))
                && edges[i].lenM == dist(nodes[from].at, nodes[to].at)
                && edges[i].roadClass == roadClass && edges[i].ref == ""
                && (speedKmh > 0.0 ==> edges[i].maxSpeedKmh == speedKmh)
                && (speedKmh <= 0.0 ==> edges[i].maxSpeedKmh == DefaultSpeedKmh(roadClass))
    {
      if from !in nodes || to !in nodes {
        return;
      }
      var speed := if speedKmh <= 0.0 then DefaultSpeedKmh(roadClass) else speedKmh;
      var length := dist(nodes[from].at, nodes[to].at);
      Add(from, to, length, roadClass, speed);
      if !oneway {
        Add(to, from, length, roadClass, speed);
      }
    }

    method Add(from: NodeId, to: NodeId, length: real, roadClass: RoadClass, speedKmh: real)
      requires Valid() && from in nodes && to in nodes
      modifies this`edges, this`adj
      ensures Valid()
      ensures edges == old(edges) + [Edge(from, to, length, roadClass, speedKmh, "")]
    {
      AppendKeepsIndex(edges, adj, Edge(from, to, length, roadClass, speedKmh, ""));
      var idx := |edges|;
      edges := edges + [Edge(from, to, length, roadClass, speedKmh, "")];
      adj := Append(adj, from, idx);
    }
  }

  /** The edges one call of AddEdge appends. */
  function NewEdges(nodes: map<NodeId, Node>, dist: Distance, from: NodeId, to: NodeId, roadClass: RoadClass,
                    speedKmh: real, oneway: bool): seq<Edge>
  {
    if from !in nodes || to !in nodes then []
    else
      var speed := if speedKmh <= 0.0 then DefaultSpeedKmh(roadClass) else speedKmh;
      var length := dist(nodes[from].at, nodes[to].at);
      var there := Edge(from, to, length, roadClass, speed, "");
      var back := Edge(to, from, length, roadClass, speed, "");
      if oneway then [there] else [there, back]
  }

  /** Free-flow traversal time of an edge. */
  function BaseWeightSec(e: Edge): Weight
  {
    var mps := e.maxSpeedKmh / 3.6;
    if mps <= 0.0 then Closed else Fin(e.lenM / mps)
  }
}
