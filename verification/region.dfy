/** The graph codec and sub-graph slicing of internal/routing/region.go. */
module Region {
  import opened Wrappers
  import opened RoadGraph
  import opened Walks
  import opened SearchState
  import opened AStar
  import opened Customization

  // ---------------------------------------------------------------- codec

  /** The wire form of a graph: a node list and the edge list. */
  datatype Wire = Wire(nodes: seq<Node>, edges: seq<Edge>)

  predicate Ascending(ns: seq<Node>)
  {
    forall i, j :: 0 <= i < j < |ns| ==> ns[i].id < ns[j].id
  }

  /** ns lists exactly the nodes of the map, by ascending id. */
  ghost predicate Lists(nodes: map<NodeId, Node>, ns: seq<Node>)
  {
    Ascending(ns) && forall n :: n in ns <==> n.id in nodes && nodes[n.id] == n
  }

  lemma InsertedIsAscending(ns: seq<Node>, i: nat, n: Node, out: seq<Node>)
    requires Ascending(ns) && i <= |ns| && out == ns[..i] + [n] + ns[i..]
    requires forall j :: 0 <= j < i ==> ns[j].id < n.id
    requires forall j :: i <= j < |ns| ==> n.id < ns[j].id
    ensures Ascending(out) && forall m :: m in out <==> m in ns || m == n
  {
    assert forall m :: m in ns <==> m in ns[..i] || m in ns[i..] by { assert ns == ns[..i] + ns[i..]; }
    forall k, l | 0 <= k < l < |out|
      ensures out[k].id < out[l].id
    {
      assert out[k] == if k < i then ns[k] else if k == i then n else ns[k - 1];
      assert out[l] == if l < i then ns[l] else if l == i then n else ns[l - 1];
    }
  }

  /** Inserts a node into an ascending list. */
  method InsertById(ns: seq<Node>, n: Node) returns (out: seq<Node>)
    requires Ascending(ns) && forall m :: m in ns ==> m.id != n.id
    ensures Ascending(out) && forall m :: m in out <==> m in ns || m == n
  {
    var i := |ns|;
    while i > 0 && n.id < ns[i - 1].id
      invariant 0 <= i <= |ns|
      invariant forall j :: i <= j < |ns| ==> n.id < ns[j].id
    {
      i := i - 1;
    }
    assert i > 0 ==> ns[i - 1] in ns;
    out := ns[..i] + [n] + ns[i..];
    InsertedIsAscending(ns, i, n, out);
  }

  /** Collects the nodes in some order, then sorts them by id. */
  method Serialize(g: Graph) returns (w: Wire)
    requires FiledById(g.nodes)
    ensures Lists(g.nodes, w.nodes) && w.edges == g.edges
  {
    var ns: seq<Node> := [];
    var todo := g.nodes.Keys;
    while todo != {}
      invariant todo <= g.nodes.Keys
      invariant forall i, j :: 0 <= i < j < |ns| ==> ns[i].id != ns[j].id
      invariant forall n :: n in ns <==> n.id in g.nodes && n.id !in todo && g.nodes[n.id] == n
      decreases todo
    {
      ghost var some := Member(todo);
      var id: NodeId :| id in todo;
      ghost var before := ns;
      ns := ns + [g.nodes[id]];
      assert forall n :: n in ns <==> n in before || n == g.nodes[id];
      todo := todo - {id};
    }
    var sorted: seq<Node> := [];
    for i := 0 to |ns|
      invariant Ascending(sorted)
      invariant forall n :: n in sorted <==> n in ns[..i]
    {
      assert forall n :: n in ns[..i + 1] <==> n in ns[..i] || n == ns[i] by {
        assert ns[..i + 1] == ns[..i] + [ns[i]];
      }
      forall m | m in sorted
        ensures m.id != ns[i].id
      {
        var j :| 0 <= j < i && ns[j] == m;
      }
      sorted := InsertById(sorted, ns[i]);
    }
    assert ns[..|ns|] == ns;
    w := Wire(sorted, g.edges);
  }

  /** The node map a list decodes to: the last node with an id wins. */
  function ById(ns: seq<Node>): map<NodeId, Node>
  {
    if ns == [] then map[] else ById(ns[..|ns| - 1])[ns[|ns| - 1].id := ns[|ns| - 1]]
  }

  method Deserialize(w: Wire, dist: Distance) returns (g: Graph)
    ensures fresh(g) && g.dist == dist
    ensures g.nodes == ById(w.nodes) && g.edges == w.edges && Indexed(g.edges, g.adj) && FiledById(g.nodes)
  {
    g := new Graph(dist);
    for i := 0 to |w.nodes|
      invariant g.nodes == ById(w.nodes[..i]) && g.edges == [] && g.adj == map[] && FiledById(g.nodes)
      modifies g
    {
      assert w.nodes[..i + 1][..i] == w.nodes[..i];
      g.nodes := g.nodes[w.nodes[i].id := w.nodes[i]];
    }
    assert w.nodes[..|w.nodes|] == w.nodes;
    for i := 0 to |w.edges|
      invariant g.edges == w.edges[..i] && Indexed(g.edges, g.adj) && g.nodes == ById(w.nodes)
      modifies g
    {
      AppendKeepsIndex(g.edges, g.adj, w.edges[i]);
      assert w.edges[..i + 1] == w.edges[..i] + [w.edges[i]];
      var idx := |g.edges|;
      g.edges := g.edges + [w.edges[i]];
      g.adj := Append(g.adj, w.edges[i].from, idx);
    }
    assert w.edges[..|w.edges|] == w.edges;
  }

  lemma {:induction false} ByIdOfDistinct(ns: seq<Node>)
    requires Ascending(ns)
    ensures forall id :: id in ById(ns) <==> exists i :: 0 <= i < |ns| && ns[i].id == id
    ensures forall i :: 0 <= i < |ns| ==> ns[i].id in ById(ns) && ById(ns)[ns[i].id] == ns[i]
  {
    if ns != [] {
      var init := ns[..|ns| - 1];
      ByIdOfDistinct(init);
      assert ById(ns) == ById(init)[ns[|ns| - 1].id := ns[|ns| - 1]];
      forall i | 0 <= i < |ns|
        ensures ns[i].id in ById(ns) && ById(ns)[ns[i].id] == ns[i]
      {
        if i < |init| { assert init[i] == ns[i]; }
      }
      forall id | id in ById(ns)
        ensures exists i :: 0 <= i < |ns| && ns[i].id == id
      {
        if id != ns[|ns| - 1].id {
          assert id in ById(init);
          var i :| 0 <= i < |init| && init[i].id == id;
          assert ns[i].id == id;
        }
      }
    }
  }

  /** Decoding what was encoded restores the nodes, the edges and the adjacency index exactly. */
  lemma CodecRoundTrip(net: Net, w: Wire, decoded: Net)
    requires Indexed(net.edges, net.adj) && FiledById(net.nodes)
    requires Lists(net.nodes, w.nodes) && w.edges == net.edges
    requires decoded.nodes == ById(w.nodes) && decoded.edges == w.edges && Indexed(decoded.edges, decoded.adj)
    ensures decoded == net
  {
    ByIdOfDistinct(w.nodes);
    forall id
      ensures id in net.nodes <==> id in decoded.nodes
      ensures id in net.nodes ==> decoded.nodes[id] == net.nodes[id]
    {
      if id in net.nodes {
        assert net.nodes[id] in w.nodes;
      }
    }
    IndexUnique(net.edges, net.adj, decoded.adj);
  }

  /** The encoding does not depend on the order in which the nodes were collected. */
  lemma EncodingIsDeterministic(nodes: map<NodeId, Node>, a: seq<Node>, b: seq<Node>)
    requires Lists(nodes, a) && Lists(nodes, b)
    ensures a == b
  {
    SameElements(a, b);
  }

  /** Dropping the last node of an ascending list removes exactly that node. */
  lemma InitMembers(a: seq<Node>)
    requires Ascending(a) && a != []
    ensures Ascending(a[..|a| - 1])
    ensures forall n :: n in a[..|a| - 1] <==> n in a && n != a[|a| - 1]
  {
    var init, last := a[..|a| - 1], a[|a| - 1];
    forall n
      ensures n in init <==> n in a && n != last
    {
      assert n in a <==> n in init || n == last by { assert a == init + [last]; }
      if n in init {
        var i :| 0 <= i < |init| && init[i] == n;
        assert a[i].id < last.id;
      }
    }
  }

  lemma {:induction false} SameElements(a: seq<Node>, b: seq<Node>)
    requires Ascending(a) && Ascending(b) && forall n :: n in a <==> n in b
    ensures a == b
    decreases |a|
  {
    if a != [] || b != [] {
      var z := if a != [] then a[0] else b[0];
      assert z in a && z in b;
      var x, y := a[|a| - 1], b[|b| - 1];
      assert x in b && y in a;
      assert x == y;
      InitMembers(a);
      InitMembers(b);
      var a', b' := a[..|a| - 1], b[..|b| - 1];
      forall n
        ensures n in a' <==> n in b'
      {
        assert n in a <==> n in b;
      }
      SameElements(a', b');
      assert a == a[..|a| - 1] + [x] && b == b[..|b| - 1] + [y];
    }
  }

  // ---------------------------------------------------------------- slicing

  predicate Kept(keep: map<NodeId, bool>, id: NodeId) { id in keep && keep[id] }

  predicate KeptEdge(keep: map<NodeId, bool>, e: Edge) { Kept(keep, e.from) && Kept(keep, e.to) }

  /** The indices of the kept edges, in ascending order. */
  function KeptIndices(edges: seq<Edge>, keep: map<NodeId, bool>): (ks: seq<nat>)
    ensures forall i :: 0 <= i < |ks| ==> ks[i] < |edges| && KeptEdge(keep, edges[ks[i]])
  {
    if edges == [] then []
    else KeptIndices(edges[..|edges| - 1], keep) + (if KeptEdge(keep, edges[|edges| - 1]) then [|edges| - 1] else [])
  }

  /** Every kept edge is listed, and the listing is ascending. */
  lemma {:induction false} KeptIndicesExact(edges: seq<Edge>, keep: map<NodeId, bool>)
    ensures forall e :: 0 <= e < |edges| && KeptEdge(keep, edges[e]) ==> e in KeptIndices(edges, keep)
    ensures forall i, j :: 0 <= i < j < |KeptIndices(edges, keep)| ==>
              KeptIndices(edges, keep)[i] < KeptIndices(edges, keep)[j]
  {
    if edges != [] {
      KeptIndicesExact(edges[..|edges| - 1], keep);
    }
  }

  function Pick(edges: seq<Edge>, ks: seq<nat>): (r: seq<Edge>)
    requires forall i :: 0 <= i < |ks| ==> ks[i] < |edges|
    ensures |r| == |ks| && forall i :: 0 <= i < |ks| ==> r[i] == edges[ks[i]]
  {
    seq(|ks|, i requires 0 <= i < |ks| => edges[ks[i]])
  }

  /** The kept edges in their original order. */
  function SliceEdges(edges: seq<Edge>, keep: map<NodeId, bool>): seq<Edge>
  {
    Pick(edges, KeptIndices(edges, keep))
  }

  lemma SliceEdgesSnoc(edges: seq<Edge>, keep: map<NodeId, bool>, n: nat)
    requires n < |edges|
    ensures SliceEdges(edges[..n + 1], keep)
         == SliceEdges(edges[..n], keep) + (if KeptEdge(keep, edges[n]) then [edges[n]] else [])
  {
    assert edges[..n + 1][..n] == edges[..n];
  }

  ghost predicate IsSlice(net: Net, keep: map<NodeId, bool>, s: Net)
  {
    && s.nodes == (map id | id in keep && id in net.nodes :: net.nodes[id])
    && s.edges == SliceEdges(net.edges, keep)
    && Indexed(s.edges, s.adj)
  }

  /** The slice holds exactly the edges both of whose ends are marked true. */
  lemma {:induction false} SliceEdgesExact(edges: seq<Edge>, keep: map<NodeId, bool>, e: Edge)
    ensures e in SliceEdges(edges, keep) <==>
              e in edges && e.from in keep && keep[e.from] && e.to in keep && keep[e.to]
  {
    if edges == [] {
      NoEdges(keep);
    } else {
      var n := |edges| - 1;
      SliceEdgesExact(edges[..n], keep, e);
      SliceEdgesSnoc(edges, keep, n);
      assert edges[..n + 1] == edges == edges[..n] + [edges[n]];
    }
  }

  method Slice(g: Graph, keep: map<NodeId, bool>) returns (s: Graph)
    requires g.Valid()
    ensures fresh(s) && s.dist == g.dist && IsSlice(g.Value(), keep, s.Value()) && s.Valid()
  {
    s := new Graph(g.dist);
    SliceNodes(g, keep, s);
    SliceRoads(g, keep, s);
    SliceIsWellFormed(g.Value(), keep, s.Value());
  }

  method SliceNodes(g: Graph, keep: map<NodeId, bool>, s: Graph)
    requires s != g && s.nodes == map[]
    modifies s`nodes
    ensures s.nodes == (map id | id in keep && id in g.nodes :: g.nodes[id])
  {
    var todo := keep.Keys;
    while todo != {}
      invariant todo <= keep.Keys
      invariant s.nodes == (map id | id in keep && id !in todo && id in g.nodes :: g.nodes[id])
      decreases todo
    {
      ghost var some := Member(todo);
      var id: NodeId :| id in todo;
      if id in g.nodes {
        s.nodes := s.nodes[id := g.nodes[id]];
      }
      todo := todo - {id};
    }
  }

  /** Re-adds the kept edges in order, with fresh indices. */
  method SliceRoads(g: Graph, keep: map<NodeId, bool>, s: Graph)
    requires s != g && s.edges == [] && s.adj == map[]
    modifies s`edges, s`adj
    ensures s.edges == SliceEdges(g.edges, keep) && Indexed(s.edges, s.adj)
  {
    hide SliceEdges, Indexed;
    NoEdges(keep);
    assert g.edges[..0] == [];
    for i := 0 to |g.edges|
      invariant s.edges == SliceEdges(g.edges[..i], keep) && Indexed(s.edges, s.adj)
    {
      var e := g.edges[i];
      SliceEdgesSnoc(g.edges, keep, i);
      if KeptEdge(keep, e) {
        AppendKeepsIndex(s.edges, s.adj, e);
        var idx := |s.edges|;
        s.edges := s.edges + [e];
        s.adj := Append(s.adj, e.from, idx);
      }
    }
    assert g.edges[..|g.edges|] == g.edges;
  }

  lemma NoEdges(keep: map<NodeId, bool>)
    ensures SliceEdges([], keep) == [] && Indexed([], map[])
  {
  }

  /** A slice of a well-formed graph is well formed. */
  lemma SliceIsWellFormed(net: Net, keep: map<NodeId, bool>, s: Net)
    requires WellFormed(net) && FiledById(net.nodes) && IsSlice(net, keep, s)
    ensures WellFormed(s) && FiledById(s.nodes)
  {
    var ks := KeptIndices(net.edges, keep);
    forall i | 0 <= i < |s.edges|
      ensures s.edges[i].from in s.nodes && s.edges[i].to in s.nodes
    {
      assert s.edges[i] == net.edges[ks[i]];
    }
  }

  // ---------------------------------------------------------------- routing on a slice

  /** A slice's customized weights are the whole graph's, restricted to the kept edges in order. */
  lemma SliceWeights(net: Net, keep: map<NodeId, bool>, s: Net, m: Metric)
    requires IsSlice(net, keep, s)
    ensures var ks := KeptIndices(net.edges, keep);
            && |Weights(s.edges, m)| == |ks|
            && forall i :: 0 <= i < |ks| ==> Weights(s.edges, m)[i] == Weights(net.edges, m)[ks[i]]
  {
  }

  /** The walk of the whole graph that a walk of the slice stands for. */
  function Lift(ks: seq<nat>, es: seq<nat>): (r: seq<nat>)
    ensures |r| == |es|
  {
    if es == [] then []
    else Lift(ks, es[..|es| - 1]) + [if es[|es| - 1] < |ks| then ks[es[|es| - 1]] else 0]
  }

  lemma {:induction false} LiftedWalk(net: Net, keep: map<NodeId, bool>, s: Net, m: Metric, a: NodeId, es: seq<nat>,
                                      b: NodeId)
    requires IsSlice(net, keep, s) && Walk(s, Weights(s.edges, m), a, es, b)
    ensures var up := Lift(KeptIndices(net.edges, keep), es);
            && Walk(net, Weights(net.edges, m), a, up, b)
            && Time(Weights(net.edges, m), up) == Time(Weights(s.edges, m), es)
  {
    if es != [] {
      var init, e := es[..|es| - 1], es[|es| - 1];
      var ks := KeptIndices(net.edges, keep);
      LiftedWalk(net, keep, s, m, a, init, s.edges[e].from);
      assert Lift(ks, es)[..|es| - 1] == Lift(ks, init);
    }
  }

  /** Every edge of the walk has both ends in keep. */
  ghost predicate Inside(net: Net, keep: map<NodeId, bool>, es: seq<nat>)
  {
    forall i :: 0 <= i < |es| ==> es[i] < |net.edges| && KeptEdge(keep, net.edges[es[i]])
  }

  lemma {:induction false} LoweredWalk(net: Net, keep: map<NodeId, bool>, s: Net, m: Metric, a: NodeId, es: seq<nat>,
                                       b: NodeId)
    returns (down: seq<nat>)
    requires IsSlice(net, keep, s) && Walk(net, Weights(net.edges, m), a, es, b) && Inside(net, keep, es)
    ensures Walk(s, Weights(s.edges, m), a, down, b)
    ensures Time(Weights(s.edges, m), down) == Time(Weights(net.edges, m), es)
  {
    hide EdgeTime, Indexed;
    if es == [] {
      down := [];
    } else {
      var init, e := es[..|es| - 1], es[|es| - 1];
      var ks := KeptIndices(net.edges, keep);
      KeptIndicesExact(net.edges, keep);
      assert KeptEdge(keep, net.edges[e]) && e in ks;
      var i: nat :| i < |ks| && ks[i] == e;
      assert forall j :: 0 <= j < |init| ==> init[j] == es[j];
      down := LoweredWalk(net, keep, s, m, a, init, net.edges[e].from);
      SliceWeights(net, keep, s, m);
      Extend(s, Weights(s.edges, m), a, down, i);
      down := down + [i];
    }
  }

  /** The least time on a slice is never below the whole graph's, and equal when some optimum stays inside. */
  lemma SlicePreservesCost(net: Net, dist: Distance, keep: map<NodeId, bool>, s: Net, m: Metric, a: NodeId, b: NodeId,
                           whole: real, part: real)
    requires IsSlice(net, keep, s)
    requires IsOptimal(Query(net, dist, a, b, Weights(net.edges, m)), whole)
    requires IsOptimal(Query(s, dist, a, b, Weights(s.edges, m)), part)
    ensures whole <= part
    ensures (exists es :: Walk(net, Weights(net.edges, m), a, es, b) && Time(Weights(net.edges, m), es) == whole
                          && Inside(net, keep, es))
            <==> part == whole
  {
    var w, ws := Weights(net.edges, m), Weights(s.edges, m);
    var best :| Walk(s, ws, a, best, b) && Time(ws, best) == part;
    LiftedWalk(net, keep, s, m, a, best, b);
    LiftIsInside(net, keep, s, m, a, best, b);
    if es :| Walk(net, w, a, es, b) && Time(w, es) == whole && Inside(net, keep, es) {
      var down := LoweredWalk(net, keep, s, m, a, es, b);
    }
  }

  lemma {:induction false} LiftIsInside(net: Net, keep: map<NodeId, bool>, s: Net, m: Metric, a: NodeId, es: seq<nat>,
                                        b: NodeId)
    requires IsSlice(net, keep, s) && Walk(s, Weights(s.edges, m), a, es, b)
    ensures Inside(net, keep, Lift(KeptIndices(net.edges, keep), es))
  {
    if es != [] {
      LiftIsInside(net, keep, s, m, a, es[..|es| - 1], s.edges[es[|es| - 1]].from);
    }
  }

  /** Slicing keeps the conditions under which the search is optimal. */
  lemma SliceKeepsBounds(net: Net, dist: Distance, keep: map<NodeId, bool>, s: Net, m: Metric, c: real)
    requires IsSlice(net, keep, s) && WellFormed(net)
    ensures WellFormed(s)
    ensures StraightLengths(net, dist) ==> StraightLengths(s, dist)
    ensures NoFasterThan(net.edges, m, c) ==> NoFasterThan(s.edges, m, c)
    ensures NonNegative(Weights(net.edges, m)) ==> NonNegative(Weights(s.edges, m))
  {
    hide EdgeTime, Mult, Indexed;
    var ks := KeptIndices(net.edges, keep);
    forall i | 0 <= i < |ks|
      ensures s.edges[i] == net.edges[ks[i]] && s.edges[i].from in s.nodes && s.edges[i].to in s.nodes
      ensures At(s.nodes, s.edges[i].from) == At(net.nodes, net.edges[ks[i]].from)
      ensures At(s.nodes, s.edges[i].to) == At(net.nodes, net.edges[ks[i]].to)
    {
    }
    SliceWeights(net, keep, s, m);
  }
}
