/** The state of the search in internal/routing/astar.go and what each relaxation keeps.

  The invariants come in two groups. The first needs only non-negative weights: parents form a
  tree of open edges whose recorded scores dominate the parent path, and the queue holds the
  current entry of every unexpanded node. The second measures how far the heuristic may overshoot:
  with slack c, an edge may be up to c times faster than the bound the heuristic assumes.
  */
module SearchState {
  import opened RealFacts
  import opened RoadGraph
  import opened Walks

  /** 140 km/h in metres per second, the speed bound built into the heuristic. */
  const MAX_GRAPH_SPEED_MPS: real := 140.0 / 3.6

  datatype Query = Query(net: Net, dist: Distance, from: NodeId, to: NodeId, w: seq<Weight>)

  datatype Item = Item(node: NodeId, f: real)

  datatype Search = Search(gScore: map<NodeId, real>, prev: map<NodeId, NodeId>, prevEdge: map<NodeId, nat>,
                           open: multiset<Item>, seen: set<NodeId>)

  ghost predicate ValidQuery(q: Query)
  {
    |q.w| == |q.net.edges| && NonNegative(q.w) && Indexed(q.net.edges, q.net.adj)
  }

  /** The least time from u to the destination at the bounded speed, along a straight line. */
  function Heuristic(nodes: map<NodeId, Node>, dist: Distance, u: NodeId, to: NodeId): real
  {
    dist(At(nodes, u), At(nodes, to)) / MAX_GRAPH_SPEED_MPS
  }

  function H(q: Query, u: NodeId): real
  {
    Heuristic(q.net.nodes, q.dist, u, q.to)
  }

  // ---------------------------------------------------------------- steps

  function Start(q: Query): Search
  {
    Search(map[q.from := 0.0], map[], map[], multiset{Item(q.from, H(q, q.from))}, {})
  }

  /** Does following edge e from u improve the score of its end node? */
  predicate Improves(q: Query, s: Search, u: NodeId, e: nat)
    requires e < |q.w| && |q.w| == |q.net.edges| && u in s.gScore
  {
    && q.w[e].Fin?
    && var v := q.net.edges[e].to;
       v !in s.gScore || s.gScore[u] + q.w[e].sec < s.gScore[v]
  }

  function Relax(q: Query, s: Search, u: NodeId, e: nat): Search
    requires e < |q.w| && |q.w| == |q.net.edges| && u in s.gScore
  {
    if !Improves(q, s, u, e) then s
    else
      var v := q.net.edges[e].to;
      var cand := s.gScore[u] + q.w[e].sec;
      s.(gScore := s.gScore[v := cand], prev := s.prev[v := u], prevEdge := s.prevEdge[v := e],
         open := s.open + multiset{Item(v, cand + H(q, v))})
  }

  predicate InRange(q: Query, es: seq<nat>)
  {
    forall i :: 0 <= i < |es| ==> es[i] < |q.w|
  }

  /** Relaxing a list of edges out of u, from left to right. */
  function RelaxAll(q: Query, s: Search, u: NodeId, es: seq<nat>): (s': Search)
    requires |q.w| == |q.net.edges| && u in s.gScore && InRange(q, es)
    ensures u in s'.gScore
    decreases |es|
  {
    if es == [] then s else Relax(q, RelaxAll(q, s, u, es[..|es| - 1]), u, es[|es| - 1])
  }

  function Out(adj: map<NodeId, seq<nat>>, u: NodeId): seq<nat>
  {
    if u in adj then adj[u] else []
  }

  /** it may be taken from the queue next. */
  ghost predicate Pops(s: Search, it: Item)
  {
    it in s.open && forall x :: x in s.open ==> it.f <= x.f
  }

  /** s' results from s by taking out it: a stale entry is dropped, a new node is marked and expanded. */
  ghost predicate Steps(q: Query, s: Search, it: Item, s': Search)
    requires |q.w| == |q.net.edges|
  {
    if it.node in s.seen then s' == s.(open := s.open - multiset{it})
    else
      && it.node in s.gScore
      && InRange(q, Out(q.net.adj, it.node))
      && var marked := s.(open := s.open - multiset{it}, seen := s.seen + {it.node});
         s' == RelaxAll(q, marked, it.node, Out(q.net.adj, it.node))
  }

  /** The search can be in state s after n pops, none of them of the destination. */
  ghost predicate Reached(q: Query, s: Search, n: nat)
    requires |q.w| == |q.net.edges|
    decreases n
  {
    if n == 0 then s == Start(q)
    else exists r, it :: Reached(q, r, n - 1) && Pops(r, it) && it.node != q.to && Steps(q, r, it, s)
  }

  /** The search can be in state s without having popped the destination. */
  ghost predicate Attained(q: Query, s: Search)
    requires |q.w| == |q.net.edges|
  {
    exists n: nat :: Reached(q, s, n)
  }

  /** The search, having popped the destination in a reached state, reads es off the parent edges. */
  ghost predicate Returns(q: Query, es: seq<nat>)
    requires |q.w| == |q.net.edges|
  {
    && Walk(q.net, q.w, q.from, es, q.to)
    && exists s, it :: Attained(q, s) && Pops(s, it) && it.node == q.to && ParentEdges(q, s, es)
  }

  ghost predicate ParentEdges(q: Query, s: Search, es: seq<nat>)
    requires |q.w| == |q.net.edges|
  {
    forall i :: 0 <= i < |es| ==>
      es[i] < |q.w| && q.net.edges[es[i]].to in s.prevEdge && s.prevEdge[q.net.edges[es[i]].to] == es[i]
  }

  // ---------------------------------------------------------------- invariants

  /** a comes before b: a lower score, or the same score recorded earlier. */
  predicate Before(s: Search, stamp: map<NodeId, nat>, a: NodeId, b: NodeId)
    requires s.gScore.Keys == stamp.Keys
  {
    a in s.gScore && b in s.gScore &&
    (s.gScore[a] < s.gScore[b] || (s.gScore[a] == s.gScore[b] && stamp[a] < stamp[b]))
  }

  /** The parent of n is joined to it by an open edge, accounts for its score and comes before it. */
  ghost predicate ParentOk(q: Query, s: Search, stamp: map<NodeId, nat>, n: NodeId)
    requires |q.w| == |q.net.edges| && s.gScore.Keys == stamp.Keys
  {
    && n in s.gScore && n in s.prev && n in s.prevEdge
    && var p, e := s.prev[n], s.prevEdge[n];
       && e < |q.w| && q.w[e].Fin? && q.net.edges[e].from == p && q.net.edges[e].to == n
       && Before(s, stamp, p, n)
       && s.gScore[p] + q.w[e].sec <= s.gScore[n]
  }

  ghost predicate Parents(q: Query, s: Search, stamp: map<NodeId, nat>, clock: nat)
    requires |q.w| == |q.net.edges|
  {
    && q.from in s.gScore && s.gScore[q.from] == 0.0
    && s.gScore.Keys == stamp.Keys
    && (forall n :: n in stamp ==> stamp[n] < clock)
    && (forall n :: n in s.gScore ==> 0.0 <= s.gScore[n])
    && (forall n :: n in s.gScore && n != q.from ==> ParentOk(q, s, stamp, n))
    && q.from !in s.prevEdge && s.prevEdge.Keys <= s.gScore.Keys
  }

  ghost predicate Queue(q: Query, s: Search)
  {
    && (forall it :: it in s.open ==> it.node in s.gScore && s.gScore[it.node] + H(q, it.node) <= it.f)
    && (forall n :: n in s.gScore && n !in s.seen ==> Item(n, s.gScore[n] + H(q, n)) in s.open)
    && s.seen <= s.gScore.Keys
    && q.to !in s.seen
  }

  /** Every open edge out of an expanded node, the pending ones aside, has a scored end. */
  ghost predicate Expanded(q: Query, s: Search, pending: set<nat>)
    requires |q.w| == |q.net.edges|
  {
    forall e :: 0 <= e < |q.w| && q.w[e].Fin? && q.net.edges[e].from in s.seen && e !in pending ==>
      q.net.edges[e].to in s.gScore
  }

  /** The score of u is at most c times the time of any walk to u. */
  ghost predicate Bounded(q: Query, s: Search, c: real, u: NodeId)
    requires |q.w| == |q.net.edges|
  {
    u in s.gScore && forall p :: Walk(q.net, q.w, q.from, p, u) ==> s.gScore[u] <= Times(c, Time(q.w, p))
  }

  /** The end of edge e scores at most c times any walk to its start, plus the edge itself. */
  ghost predicate Relaxed(q: Query, s: Search, c: real, e: nat)
    requires |q.w| == |q.net.edges| && e < |q.w| && q.w[e].Fin?
  {
    q.net.edges[e].to in s.gScore &&
    forall p :: Walk(q.net, q.w, q.from, p, q.net.edges[e].from) ==>
      s.gScore[q.net.edges[e].to] <= Times(c, Time(q.w, p)) + q.w[e].sec
  }

  ghost predicate AllRelaxed(q: Query, s: Search, c: real, pending: set<nat>)
    requires |q.w| == |q.net.edges|
  {
    forall e :: 0 <= e < |q.w| && q.w[e].Fin? && q.net.edges[e].from in s.seen && e !in pending ==>
      Relaxed(q, s, c, e)
  }

  // ---------------------------------------------------------------- one relaxation keeps the invariants

  lemma RelaxKeepsParents(q: Query, s: Search, stamp: map<NodeId, nat>, clock: nat, u: NodeId, e: nat)
    requires ValidQuery(q) && Parents(q, s, stamp, clock)
    requires e < |q.w| && u in s.gScore && q.net.edges[e].from == u
    ensures Parents(q, Relax(q, s, u, e),
                    if Improves(q, s, u, e) then stamp[q.net.edges[e].to := clock] else stamp, clock + 1)
  {
    if Improves(q, s, u, e) {
      var s', v := Relax(q, s, u, e), q.net.edges[e].to;
      var stamp' := stamp[v := clock];
      assert s'.gScore.Keys == stamp'.Keys;
      assert v != q.from && u != v;
      forall n | n in s'.gScore && n != q.from
        ensures ParentOk(q, s', stamp', n)
      {
        if n != v {
          assert ParentOk(q, s, stamp, n);
        }
      }
    }
  }

  lemma RelaxKeepsQueue(q: Query, s: Search, u: NodeId, e: nat)
    requires |q.w| == |q.net.edges| && Queue(q, s) && e < |q.w| && u in s.gScore
    ensures Queue(q, Relax(q, s, u, e))
  {
    hide H;
    if Improves(q, s, u, e) {
      var s', v := Relax(q, s, u, e), q.net.edges[e].to;
      var added := Item(v, s'.gScore[v] + H(q, v));
      assert s'.open == s.open + multiset{added};
      assert forall it :: it in s'.open <==> it in s.open || it == added;
      assert forall n :: n in s.gScore ==> s'.gScore[n] <= s.gScore[n];
    }
  }

  lemma RelaxKeepsExpanded(q: Query, s: Search, pending: set<nat>, u: NodeId, e: nat)
    requires |q.w| == |q.net.edges| && Expanded(q, s, pending) && e < |q.w| && u in s.gScore
    ensures Expanded(q, Relax(q, s, u, e), pending - {e})
  {
  }

  lemma RelaxKeepsBounds(q: Query, s: Search, c: real, pending: set<nat>, u: NodeId, e: nat)
    requires |q.w| == |q.net.edges| && AllRelaxed(q, s, c, pending) && Bounded(q, s, c, u)
    requires e < |q.w| && q.net.edges[e].from == u
    ensures AllRelaxed(q, Relax(q, s, u, e), c, pending - {e})
    ensures Bounded(q, Relax(q, s, u, e), c, u)
  {
    var s' := Relax(q, s, u, e);
    assert forall n :: n in s.gScore ==> n in s'.gScore && s'.gScore[n] <= s.gScore[n];
    forall d | 0 <= d < |q.w| && q.w[d].Fin? && q.net.edges[d].from in s'.seen && d !in pending - {e}
      ensures Relaxed(q, s', c, d)
    {
      if d !in pending {
        assert Relaxed(q, s, c, d);
      }
    }
  }

  // ---------------------------------------------------------------- what an expanded node knows

  /** No open edge, followed backwards from its end, gains more than c times its time. */
  ghost predicate Consistent(q: Query, c: real)
    requires |q.w| == |q.net.edges|
  {
    forall e :: 0 <= e < |q.w| && q.w[e].Fin? ==>
      H(q, q.net.edges[e].from) <= Times(c, q.w[e].sec) + H(q, q.net.edges[e].to)
  }

  /** Every open edge is at most c times faster than the bound built into the heuristic. */
  ghost predicate SpeedsWithin(q: Query, c: real)
    requires |q.w| == |q.net.edges|
  {
    forall e :: 0 <= e < |q.w| && q.w[e].Fin? ==>
      q.dist(At(q.net.nodes, q.net.edges[e].from), At(q.net.nodes, q.net.edges[e].to))
        <= Times(c, q.w[e].sec) * MAX_GRAPH_SPEED_MPS
  }

  lemma SpeedsMakeConsistent(q: Query, c: real)
    requires |q.w| == |q.net.edges| && SpeedsWithin(q, c)
    ensures Consistent(q, c)
  {
    hide H;
    forall e | 0 <= e < |q.w| && q.w[e].Fin?
      ensures H(q, q.net.edges[e].from) <= Times(c, q.w[e].sec) + H(q, q.net.edges[e].to)
    {
      var u, v := q.net.edges[e].from, q.net.edges[e].to;
      HTriangle(q, u, v, Times(c, q.w[e].sec));
    }
  }

  lemma HTriangle(q: Query, u: NodeId, v: NodeId, t: real)
    requires q.dist(At(q.net.nodes, u), At(q.net.nodes, v)) <= t * MAX_GRAPH_SPEED_MPS
    ensures H(q, u) <= t + H(q, v)
  {
    var a, b, z := At(q.net.nodes, u), At(q.net.nodes, v), At(q.net.nodes, q.to);
    Triangle(q.dist, a, b, z);
    Divide(q.dist(a, z), q.dist(a, b), q.dist(b, z), t);
  }

  lemma Triangle(d: Distance, a: Point, b: Point, z: Point)
    ensures d(a, z) <= d(a, b) + d(b, z)
  {
  }

  lemma Divide(az: real, ab: real, bz: real, t: real)
    requires az <= ab + bz && ab <= t * MAX_GRAPH_SPEED_MPS
    ensures az / MAX_GRAPH_SPEED_MPS <= t + bz / MAX_GRAPH_SPEED_MPS
  {
    var v := MAX_GRAPH_SPEED_MPS;
    assert v > 38.0;
  }

  lemma {:induction false} ConsistentAlong(q: Query, c: real, a: NodeId, es: seq<nat>, b: NodeId)
    requires |q.w| == |q.net.edges| && Consistent(q, c) && Walk(q.net, q.w, a, es, b)
    ensures H(q, a) <= Times(c, Time(q.w, es)) + H(q, b)
  {
    hide H, Times;
    if es == [] {
      TimesZero(c);
    } else {
      var e := es[|es| - 1];
      ConsistentAlong(q, c, a, es[..|es| - 1], q.net.edges[e].from);
      Spread(c, Time(q.w, es[..|es| - 1]), q.w[e].sec, Time(q.w, es));
    }
  }

  lemma Spread(c: real, x: real, y: real, z: real)
    requires z == x + y
    ensures Times(c, z) == Times(c, x) + Times(c, y)
  {
  }

  lemma AtLeast(c: real, x: real)
    requires 1.0 <= c && 0.0 <= x
    ensures x <= Times(c, x)
  {
    MulMonotone(x, 1.0, c);
  }

  /** Every walk to an unexpanded node leaves the expanded region at a scored, well-bounded node. */
  lemma {:induction false} Frontier(q: Query, s: Search, c: real, es: seq<nat>, u: NodeId)
    returns (p: seq<nat>, y: NodeId, r: seq<nat>)
    requires ValidQuery(q) && q.from in s.gScore && s.gScore[q.from] == 0.0 && 1.0 <= c
    requires AllRelaxed(q, s, c, {}) && Walk(q.net, q.w, q.from, es, u) && u !in s.seen
    ensures es == p + r && Walk(q.net, q.w, q.from, p, y) && Walk(q.net, q.w, y, r, u)
    ensures y !in s.seen && y in s.gScore && s.gScore[y] <= Times(c, Time(q.w, p))
  {
    hide H, Times;
    if es == [] {
      p, y, r := [], u, [];
      TimesZero(c);
    } else {
      var n := |es| - 1;
      var e := es[n];
      var x := q.net.edges[e].from;
      if x in s.seen {
        p, y, r := es, u, [];
        assert Relaxed(q, s, c, e);
        assert s.gScore[u] <= Times(c, Time(q.w, es[..n])) + q.w[e].sec;
        Spread(c, Time(q.w, es[..n]), q.w[e].sec, Time(q.w, es));
        AtLeast(c, q.w[e].sec);
      } else {
        p, y, r := Frontier(q, s, c, es[..n], x);
        Extend(q.net, q.w, y, r, e);
        assert es == p + (r + [e]);
        r := r + [e];
      }
    }
  }

  /** When an unexpanded node is popped, its score is at most c times the time of every walk to it. */
  lemma PoppedIsBounded(q: Query, s: Search, c: real, it: Item)
    requires ValidQuery(q) && q.from in s.gScore && s.gScore[q.from] == 0.0 && 1.0 <= c
    requires Queue(q, s) && AllRelaxed(q, s, c, {}) && Consistent(q, c)
    requires it in s.open && it.node !in s.seen && forall x :: x in s.open ==> it.f <= x.f
    ensures Bounded(q, s, c, it.node)
  {
    hide H, AllRelaxed, Times;
    forall es | Walk(q.net, q.w, q.from, es, it.node)
      ensures s.gScore[it.node] <= Times(c, Time(q.w, es))
    {
      var p, y, r := Frontier(q, s, c, es, it.node);
      assert Item(y, s.gScore[y] + H(q, y)) in s.open;
      ConsistentAlong(q, c, y, r, it.node);
      Concat(q.net, q.w, q.from, p, y, r, it.node);
      Spread(c, Time(q.w, p), Time(q.w, r), Time(q.w, es));
    }
  }

  /** Once the queue is empty, every node an open walk reaches has been scored. */
  lemma {:induction false} ExhaustedIsClosed(q: Query, s: Search, es: seq<nat>, v: NodeId)
    requires |q.w| == |q.net.edges| && q.from in s.gScore && Queue(q, s) && Expanded(q, s, {}) && s.open == multiset{}
    requires Walk(q.net, q.w, q.from, es, v)
    ensures v in s.gScore
  {
    if es != [] {
      ExhaustedIsClosed(q, s, es[..|es| - 1], q.net.edges[es[|es| - 1]].from);
    }
  }
}
