/** Time-optimal routing: internal/routing/astar.go.

  The priority queue is a bag from which any minimal entry may be taken, so every result holds for
  every way of breaking ties between equal priorities.
  */
module AStar {
  import opened RoadGraph
  import opened Walks
  import opened SearchState
  import opened RealFacts

  // ---------------------------------------------------------------- queue

  lemma {:induction false} HasMin(open: multiset<Item>) returns (it: Item)
    requires open != multiset{}
    ensures it in open && forall x :: x in open ==> it.f <= x.f
    decreases |open|
  {
    it :| it in open;
    var rest := open - multiset{it};
    if rest != multiset{} {
      var m := HasMin(rest);
      forall x | x in open
        ensures x == it || x in rest
      {
      }
      if m.f < it.f {
        it := m;
      }
    } else {
      assert open == multiset{it} + rest;
    }
  }

  /** The entry the queue hands out next: any with the least priority. */
  method Min(open: multiset<Item>) returns (it: Item)
    requires open != multiset{}
    ensures it in open && forall x :: x in open ==> it.f <= x.f
  {
    ghost var m := HasMin(open);
    it :| it in open && forall x :: x in open ==> it.f <= x.f;
  }

  // ---------------------------------------------------------------- expanding a node

  /** Taking out an entry and marking its node keeps the queue invariant. */
  lemma PopKeepsQueue(q: Query, s: Search, it: Item)
    requires Queue(q, s) && it in s.open && it.node != q.to
    ensures Queue(q, s.(open := s.open - multiset{it}, seen := s.seen + {it.node}))
    ensures it.node in s.gScore
  {
    hide H;
    forall n | n in s.gScore && n !in s.seen + {it.node}
      ensures Item(n, s.gScore[n] + H(q, n)) in s.open - multiset{it}
    {
      assert Item(n, s.gScore[n] + H(q, n)) != it;
    }
  }

  function Rest(out: seq<nat>, i: nat): set<nat>
    requires i <= |out|
  {
    set e | e in out[i..]
  }

  lemma OutCovers(net: Net, u: NodeId, e: nat)
    requires Indexed(net.edges, net.adj)
    ensures e in Out(net.adj, u) <==> e < |net.edges| && net.edges[e].from == u
  {
    OutEdgesExact(net.edges, u);
  }

  lemma OutInRange(q: Query, u: NodeId)
    requires ValidQuery(q)
    ensures InRange(q, Out(q.net.adj, u))
  {
    forall i | 0 <= i < |Out(q.net.adj, u)|
      ensures Out(q.net.adj, u)[i] < |q.w|
    {
      OutCovers(q.net, u, Out(q.net.adj, u)[i]);
    }
  }

  /** Marking a node with all its edges pending keeps what is known of the other edges. */
  lemma MarkKeepsExpanded(q: Query, s: Search, c: real, it: Item)
    requires ValidQuery(q) && Expanded(q, s, {})
    ensures var s' := s.(open := s.open - multiset{it}, seen := s.seen + {it.node});
            && Expanded(q, s', Rest(Out(q.net.adj, it.node), 0))
            && (AllRelaxed(q, s, c, {}) ==> AllRelaxed(q, s', c, Rest(Out(q.net.adj, it.node), 0)))
  {
    var u := it.node;
    forall e | 0 <= e < |q.w| && q.net.edges[e].from == u
      ensures e in Rest(Out(q.net.adj, u), 0)
    {
      OutCovers(q.net, u, e);
    }
  }

  // ---------------------------------------------------------------- the search

  /** All nodes a search can ever score. */
  ghost function Universe(net: Net, from: NodeId): set<NodeId>
  {
    {from} + set i | 0 <= i < |net.edges| :: net.edges[i].to
  }

  ghost predicate Reachable(q: Query)
    requires |q.w| == |q.net.edges|
  {
    exists es :: Walk(q.net, q.w, q.from, es, q.to)
  }

  /** In a well-formed graph only known nodes can be reached, the start aside. */
  lemma ReachableIsKnown(q: Query)
    requires |q.w| == |q.net.edges| && WellFormed(q.net)
    ensures q.from == q.to || (Reachable(q) ==> q.to in q.net.nodes)
  {
    if es :| Walk(q.net, q.w, q.from, es, q.to) {
      if es != [] {
        WalkEndKnown(q.net, q.w, q.from, es, q.to);
      }
    }
  }

  /** What a returned route is: an open walk whose nodes, length and time are the reported ones. */
  ghost predicate IsRoute(q: Query, es: seq<nat>, path: seq<NodeId>, distM: real, durS: real)
    requires |q.w| == |q.net.edges|
  {
    && Walk(q.net, q.w, q.from, es, q.to)
    && path == Visits(q.net, q.from, es)
    && distM == Length(q.net, es)
    && durS == Time(q.w, es)
  }

  function QueryOf(g: Graph, from: NodeId, to: NodeId, weights: seq<Weight>): Query
    reads g
  {
    Query(g.Value(), g.dist, from, to, weights)
  }

  /** The loop invariant: the tree of parents, the queue, and what the expanded nodes have told their neighbours. */
  ghost predicate Inv(q: Query, s: Search, stamp: map<NodeId, nat>, clock: nat, c: real, bounded: bool,
                      pending: set<nat>)
    requires |q.w| == |q.net.edges|
  {
    && Parents(q, s, stamp, clock)
    && Queue(q, s)
    && Expanded(q, s, pending)
    && s.gScore.Keys <= Universe(q.net, q.from)
    && (bounded ==> 1.0 <= c && Consistent(q, c) && AllRelaxed(q, s, c, pending))
  }

  lemma StartInv(q: Query, c: real, bounded: bool)
    requires ValidQuery(q) && q.from != q.to && (bounded ==> 1.0 <= c && Consistent(q, c))
    ensures Inv(q, Start(q), map[q.from := 0], 1, c, bounded, {}) && Attained(q, Start(q))
  {
    hide H;
    assert Reached(q, Start(q), 0);
  }

  lemma SkipInv(q: Query, s: Search, stamp: map<NodeId, nat>, clock: nat, c: real, bounded: bool, it: Item)
    requires ValidQuery(q) && Inv(q, s, stamp, clock, c, bounded, {})
    requires it in s.open && it.node != q.to && it.node in s.seen
    ensures Inv(q, s.(open := s.open - multiset{it}), stamp, clock, c, bounded, {})
  {
    hide H;
    PopKeepsQueue(q, s, it);
    assert s.seen + {it.node} == s.seen;
  }

  lemma PopKeepsParents(q: Query, s: Search, stamp: map<NodeId, nat>, clock: nat, it: Item)
    requires |q.w| == |q.net.edges| && Parents(q, s, stamp, clock)
    ensures Parents(q, s.(open := s.open - multiset{it}, seen := s.seen + {it.node}), stamp, clock)
  {
  }

  lemma MarkInv(q: Query, s: Search, stamp: map<NodeId, nat>, clock: nat, c: real, bounded: bool, it: Item)
    requires ValidQuery(q) && Inv(q, s, stamp, clock, c, bounded, {})
    requires it in s.open && it.node != q.to && it.node !in s.seen && forall x :: x in s.open ==> it.f <= x.f
    ensures var s' := s.(open := s.open - multiset{it}, seen := s.seen + {it.node});
            && Inv(q, s', stamp, clock, c, bounded, Rest(Out(q.net.adj, it.node), 0))
            && (bounded ==> Bounded(q, s', c, it.node))
            && it.node in s'.gScore
  {
    hide H, Queue, Expanded, AllRelaxed, Consistent;
    PopKeepsQueue(q, s, it);
    PopKeepsParents(q, s, stamp, clock, it);
    MarkKeepsExpanded(q, s, c, it);
    if bounded {
      PoppedIsBounded(q, s, c, it);
    }
  }

  lemma RelaxInv(q: Query, s: Search, stamp: map<NodeId, nat>, clock: nat, c: real, bounded: bool,
                 u: NodeId, i: nat)
    requires ValidQuery(q) && u in s.gScore && i < |Out(q.net.adj, u)|
    requires Inv(q, s, stamp, clock, c, bounded, Rest(Out(q.net.adj, u), i)) && (bounded ==> Bounded(q, s, c, u))
    ensures var e := Out(q.net.adj, u)[i];
            && e < |q.w| && q.net.edges[e].from == u
            && var s' := Relax(q, s, u, e);
               && Inv(q, s', if Improves(q, s, u, e) then stamp[q.net.edges[e].to := clock] else stamp, clock + 1,
                      c, bounded, Rest(Out(q.net.adj, u), i + 1))
               && (bounded ==> Bounded(q, s', c, u))
               && u in s'.gScore
  {
    hide H, Relax, Improves, Parents, Queue, Bounded, Relaxed;
    var e := Out(q.net.adj, u)[i];
    OutCovers(q.net, u, e);
    RelaxFrame(q, s, u, e);
    RelaxKeepsParents(q, s, stamp, clock, u, e);
    RelaxKeepsQueue(q, s, u, e);
    RelaxKeepsExpanded(q, s, Rest(Out(q.net.adj, u), i), u, e);
    if bounded {
      RelaxKeepsBounds(q, s, c, Rest(Out(q.net.adj, u), i), u, e);
    }
    assert Rest(Out(q.net.adj, u), i) - {e} <= Rest(Out(q.net.adj, u), i + 1);
  }

  lemma RelaxFrame(q: Query, s: Search, u: NodeId, e: nat)
    requires e < |q.w| && |q.w| == |q.net.edges| && u in s.gScore
    ensures var s' := Relax(q, s, u, e);
            && s'.seen == s.seen && s.gScore.Keys <= s'.gScore.Keys
            && (s.gScore.Keys <= Universe(q.net, q.from) ==> s'.gScore.Keys <= Universe(q.net, q.from))
  {
    hide H;
    assert q.net.edges[e].to in Universe(q.net, q.from);
  }

  /** When the destination is popped, its parents lead to a route bounded by every other. */
  lemma FoundInv(q: Query, s: Search, stamp: map<NodeId, nat>, clock: nat, c: real, bounded: bool, it: Item)
    requires ValidQuery(q) && Inv(q, s, stamp, clock, c, bounded, {})
    requires it in s.open && it.node == q.to && forall x :: x in s.open ==> it.f <= x.f
    ensures Parents(q, s, stamp, clock) && q.to in s.gScore
    ensures bounded ==> Bounded(q, s, c, q.to)
  {
    hide H;
    if bounded {
      PoppedIsBounded(q, s, c, it);
    }
  }

  lemma NoRoute(q: Query, s: Search, stamp: map<NodeId, nat>, clock: nat, c: real, bounded: bool)
    requires ValidQuery(q) && Inv(q, s, stamp, clock, c, bounded, {}) && s.open == multiset{}
    ensures !Reachable(q)
  {
    forall es | Walk(q.net, q.w, q.from, es, q.to)
      ensures false
    {
      ExhaustedIsClosed(q, s, es, q.to);
    }
  }

  /** Relaxes every open edge out of the node just popped and marked as seen. */
  method Expand(net: Net, dist: Distance, to: NodeId, weights: seq<Weight>, cur: Item, s0: Search,
                ghost q: Query, ghost popped: Search, ghost stamp0: map<NodeId, nat>, ghost clock0: nat,
                ghost c: real, ghost bounded: bool)
    returns (s: Search, ghost stamp: map<NodeId, nat>, ghost clock: nat)
    requires ValidQuery(q) && q.net == net && q.dist == dist && q.to == to && q.w == weights
    requires Inv(q, popped, stamp0, clock0, c, bounded, {}) && Attained(q, popped)
    requires Pops(popped, cur) && cur.node != to && cur.node !in popped.seen
    requires s0 == popped.(open := popped.open - multiset{cur}, seen := popped.seen + {cur.node})
    ensures Inv(q, s, stamp, clock, c, bounded, {}) && Attained(q, s) && s.seen == s0.seen
  {
    hide Inv, Heuristic, Bounded, Attained, RelaxAll;
    var u := cur.node;
    s, stamp, clock := s0, stamp0, clock0;
    MarkInv(q, popped, stamp, clock, c, bounded, cur);
    var out := Out(net.adj, u);
    OutInRange(q, u);
    RelaxNone(q, s0, u);
    for i := 0 to |out|
      invariant u in s.gScore && s.seen == s0.seen
      invariant Inv(q, s, stamp, clock, c, bounded, Rest(out, i))
      invariant bounded ==> Bounded(q, s, c, u)
      invariant InRange(q, out[..i]) && s == RelaxAll(q, s0, u, out[..i])
    {
      var ei := out[i];
      RelaxOneMore(q, s0, u, out, i);
      RelaxInv(q, s, stamp, clock, c, bounded, u, i);
      stamp := if Improves(q, s, u, ei) then stamp[net.edges[ei].to := clock] else stamp;
      clock := clock + 1;
      var w := weights[ei];
      if w.Closed? {
        continue;
      }
      var v := net.edges[ei].to;
      var cand := s.gScore[u] + w.sec;
      if v !in s.gScore || cand < s.gScore[v] {
        s := Search(s.gScore[v := cand], s.prev[v := u], s.prevEdge[v := ei],
                    s.open + multiset{Item(v, cand + Heuristic(net.nodes, dist, v, to))}, s.seen);
      }
    }
    assert Rest(out, |out|) == {} && out[..|out|] == out;
    ExpandAttained(q, popped, cur);
  }

  lemma RelaxNone(q: Query, s: Search, u: NodeId)
    requires |q.w| == |q.net.edges| && u in s.gScore
    ensures RelaxAll(q, s, u, []) == s
  {
  }

  lemma RelaxOneMore(q: Query, s: Search, u: NodeId, es: seq<nat>, i: nat)
    requires |q.w| == |q.net.edges| && u in s.gScore && InRange(q, es) && i < |es|
    ensures InRange(q, es[..i + 1]) && InRange(q, es[..i])
    ensures RelaxAll(q, s, u, es[..i + 1]) == Relax(q, RelaxAll(q, s, u, es[..i]), u, es[i])
  {
    assert es[..i + 1][..i] == es[..i];
  }

  /** How many nodes the search may still mark. */
  ghost function Unseen(q: Query, seen: set<NodeId>): nat
  {
    |Universe(q.net, q.from) - seen|
  }

  lemma FewerUnseen(q: Query, s: Search, stamp: map<NodeId, nat>, clock: nat, c: real, bounded: bool, it: Item)
    requires |q.w| == |q.net.edges| && Inv(q, s, stamp, clock, c, bounded, {}) && it in s.open
    ensures it.node !in s.seen ==> Unseen(q, s.seen + {it.node}) < Unseen(q, s.seen)
    ensures |s.open - multiset{it}| < |s.open|
  {
    hide H, Parents, Expanded, AllRelaxed, Consistent, Universe;
    var rest := Universe(q.net, q.from) - s.seen;
    if it.node !in s.seen {
      assert it.node in rest;
      assert Universe(q.net, q.from) - (s.seen + {it.node}) == rest - {it.node};
    }
  }

  /** One turn of the main loop: a stale entry is dropped, a new node is marked and expanded. */
  method Visit(net: Net, dist: Distance, to: NodeId, weights: seq<Weight>, cur: Item, s: Search,
               ghost q: Query, ghost stamp0: map<NodeId, nat>, ghost clock0: nat,
               ghost c: real, ghost bounded: bool)
    returns (s': Search, ghost stamp: map<NodeId, nat>, ghost clock: nat)
    requires ValidQuery(q) && q.net == net && q.dist == dist && q.to == to && q.w == weights
    requires Inv(q, s, stamp0, clock0, c, bounded, {}) && Attained(q, s)
    requires Pops(s, cur) && cur.node != to
    ensures Inv(q, s', stamp, clock, c, bounded, {}) && Attained(q, s')
    ensures Unseen(q, s'.seen) < Unseen(q, s.seen) || (Unseen(q, s'.seen) == Unseen(q, s.seen) && |s'.open| < |s.open|)
  {
    hide Inv, Heuristic, Attained, Unseen;
    FewerUnseen(q, s, stamp0, clock0, c, bounded, cur);
    if cur.node in s.seen {
      SkipInv(q, s, stamp0, clock0, c, bounded, cur);
      SkipAttained(q, s, cur);
      return s.(open := s.open - multiset{cur}), stamp0, clock0;
    }
    s' := s.(open := s.open - multiset{cur}, seen := s.seen + {cur.node});
    s', stamp, clock := Expand(net, dist, to, weights, cur, s', q, s, stamp0, clock0, c, bounded);
  }

  /** The main loop: pops until the destination comes up or the queue is empty. */
  method Explore(net: Net, dist: Distance, from: NodeId, to: NodeId, weights: seq<Weight>,
                 ghost q: Query, ghost c: real, ghost bounded: bool)
    returns (path: seq<NodeId>, distM: real, durS: real, ok: bool, ghost route: seq<nat>)
    requires q == Query(net, dist, from, to, weights) && ValidQuery(q) && from != to
    requires bounded ==> 1.0 <= c && Consistent(q, c)
    ensures ok <==> Reachable(q)
    ensures ok ==> IsRoute(q, route, path, distM, durS) && Returns(q, route)
    ensures !ok ==> path == [] && distM == 0.0 && durS == 0.0
    ensures ok && bounded ==> AtMost(q, c, durS)
  {
    StartInv(q, c, bounded);
    hide Inv, Heuristic, Attained, Returns, ParentEdges, Reachable, Parents, Bounded, Consistent, IsRoute, AtMost,
         NonNegative, Unseen, Indexed;
    var s := Search(map[from := 0.0], map[], map[], multiset{Item(from, Heuristic(net.nodes, dist, from, to))}, {});
    ghost var stamp: map<NodeId, nat> := map[from := 0];
    ghost var clock: nat := 1;

    while s.open != multiset{}
      invariant Inv(q, s, stamp, clock, c, bounded, {}) && Attained(q, s)
      decreases Unseen(q, s.seen), |s.open|
    {
      var cur := Min(s.open);
      if cur.node == to {
        FoundInv(q, s, stamp, clock, c, bounded, cur);
        path, distM, durS, route := Reconstruct(net, dist, s.prev, s.prevEdge, from, to, weights, s, stamp, clock);
        RouteReturned(q, s, cur, route, path, distM, durS, c, bounded);
        ok := true;
        return;
      }
      s, stamp, clock := Visit(net, dist, to, weights, cur, s, q, stamp, clock, c, bounded);
    }
    NoRoute(q, s, stamp, clock, c, bounded);
    path, distM, durS, ok, route := [], 0.0, 0.0, false, [];
  }

  /** durS is at most c times the time of every open walk from start to destination. */
  ghost predicate AtMost(q: Query, c: real, durS: real)
    requires |q.w| == |q.net.edges|
  {
    forall es :: Walk(q.net, q.w, q.from, es, q.to) ==> durS <= Times(c, Time(q.w, es))
  }

  /** A time-minimal route between two nodes, or ok == false when there is none.

    If no open edge is traversed at more than slack * 140 km/h, the returned time is within the
    factor slack of the minimum; with slack 1 it is the minimum.
    */
  method AStar(g: Graph, from: NodeId, to: NodeId, weights: seq<Weight>, ghost slack: real)
    returns (path: seq<NodeId>, distM: real, durS: real, ok: bool, ghost route: seq<nat>)
    requires Indexed(g.edges, g.adj) && |weights| == |g.edges| && NonNegative(weights)
    ensures ok <==> from == to || (to in g.nodes && Reachable(QueryOf(g, from, to, weights)))
    ensures ok ==> IsRoute(QueryOf(g, from, to, weights), route, path, distM, durS)
    ensures from == to ==> path == [from] && distM == 0.0 && durS == 0.0
    ensures ok && from != to ==> Returns(QueryOf(g, from, to, weights), route)
    ensures !ok ==> path == [] && distM == 0.0 && durS == 0.0
    ensures ok && 1.0 <= slack && SpeedsWithin(QueryOf(g, from, to, weights), slack) ==>
              AtMost(QueryOf(g, from, to, weights), slack, durS)
  {
    ghost var q := QueryOf(g, from, to, weights);
    path, distM, durS, ok, route := [], 0.0, 0.0, false, [];
    if from == to {
      StayingIsFree(q);
      path, ok := [from], true;
      return;
    }
    if to !in g.nodes {
      return;
    }
    ghost var bounded := 1.0 <= slack && SpeedsWithin(q, slack);
    if bounded { SpeedsMakeConsistent(q, slack); }
    path, distM, durS, ok, route := Explore(g.Value(), g.dist, from, to, weights, q, slack, bounded);
  }

  /** d is the least time of any open walk, and some walk attains it. */
  ghost predicate IsOptimal(q: Query, d: real)
    requires |q.w| == |q.net.edges|
  {
    (exists es :: Walk(q.net, q.w, q.from, es, q.to) && Time(q.w, es) == d) &&
    forall es :: Walk(q.net, q.w, q.from, es, q.to) ==> d <= Time(q.w, es)
  }

  /** What the search returns at the bounded speed is optimal. */
  lemma RouteIsOptimal(q: Query, es: seq<nat>, path: seq<NodeId>, distM: real, durS: real)
    requires |q.w| == |q.net.edges| && IsRoute(q, es, path, distM, durS) && AtMost(q, 1.0, durS)
    ensures IsOptimal(q, durS)
  {
    forall p | Walk(q.net, q.w, q.from, p, q.to)
      ensures durS <= Time(q.w, p)
    {
      assert Times(1.0, Time(q.w, p)) == Time(q.w, p);
    }
  }

  lemma StayingIsFree(q: Query)
    requires ValidQuery(q) && q.from == q.to
    ensures IsRoute(q, [], [q.from], 0.0, 0.0)
    ensures forall c: real :: 1.0 <= c ==> AtMost(q, c, 0.0)
  {
    forall c: real, es | 1.0 <= c
      ensures 0.0 <= Times(c, Time(q.w, es))
    {
      TimeNonNegative(q.w, es);
      MulNonNegative(c, Time(q.w, es));
    }
  }

  lemma SkipAttained(q: Query, s: Search, it: Item)
    requires |q.w| == |q.net.edges| && Attained(q, s) && Pops(s, it) && it.node != q.to && it.node in s.seen
    ensures Attained(q, s.(open := s.open - multiset{it}))
  {
    var n: nat :| Reached(q, s, n);
    assert Steps(q, s, it, s.(open := s.open - multiset{it}));
    assert Reached(q, s.(open := s.open - multiset{it}), n + 1);
  }

  lemma ExpandAttained(q: Query, s: Search, it: Item)
    requires |q.w| == |q.net.edges| && Attained(q, s) && Pops(s, it) && it.node != q.to && it.node !in s.seen
    requires it.node in s.gScore && InRange(q, Out(q.net.adj, it.node))
    ensures Attained(q, RelaxAll(q, s.(open := s.open - multiset{it}, seen := s.seen + {it.node}), it.node,
                                 Out(q.net.adj, it.node)))
  {
    hide RelaxAll;
    var n: nat :| Reached(q, s, n);
    var marked := s.(open := s.open - multiset{it}, seen := s.seen + {it.node});
    var s' := RelaxAll(q, marked, it.node, Out(q.net.adj, it.node));
    assert Steps(q, s, it, s');
    assert Reached(q, s', n + 1);
  }

  lemma RouteReturned(q: Query, s: Search, it: Item, es: seq<nat>, path: seq<NodeId>, distM: real, durS: real,
                      c: real, bounded: bool)
    requires |q.w| == |q.net.edges| && Attained(q, s) && Pops(s, it) && it.node == q.to
    requires IsRoute(q, es, path, distM, durS) && ParentEdges(q, s, es)
    requires q.to in s.gScore && durS <= s.gScore[q.to] && (bounded ==> Bounded(q, s, c, q.to))
    ensures Reachable(q) && Returns(q, es) && (bounded ==> AtMost(q, c, durS))
  {
  }

  // ---------------------------------------------------------------- reading off the route

  ghost function Below(s: Search, stamp: map<NodeId, nat>, n: NodeId): set<NodeId>
    requires s.gScore.Keys == stamp.Keys
  {
    set m | m in s.gScore && Before(s, stamp, m, n)
  }

  /** The part of the route from n to the destination, as collected so far; path leaves out n itself. */
  ghost predicate Collected(q: Query, s: Search, n: NodeId, es: seq<nat>, path: seq<NodeId>, distM: real, durS: real)
    requires |q.w| == |q.net.edges|
  {
    && n in s.gScore && q.to in s.gScore
    && Walk(q.net, q.w, n, es, q.to) && ParentEdges(q, s, es)
    && [n] + path == Visits(q.net, n, es)
    && distM == Length(q.net, es) && durS == Time(q.w, es)
    && s.gScore[n] + durS <= s.gScore[q.to]
  }

  lemma NothingCollected(q: Query, s: Search)
    requires |q.w| == |q.net.edges| && q.to in s.gScore
    ensures Collected(q, s, q.to, [], [], 0.0, 0.0)
  {
  }

  /** Following one parent puts its edge in front, and the parent comes before the node. */
  lemma CollectOne(q: Query, s: Search, stamp: map<NodeId, nat>, clock: nat, n: NodeId, es: seq<nat>, path: seq<NodeId>,
                   distM: real, durS: real)
    requires |q.w| == |q.net.edges| && Parents(q, s, stamp, clock) && n != q.from
    requires Collected(q, s, n, es, path, distM, durS)
    ensures n in s.prev && n in s.prevEdge
    ensures var p, e := s.prev[n], s.prevEdge[n];
            && e < |q.w| && q.w[e].Fin?
            && Collected(q, s, p, [e] + es, [n] + path, distM + q.net.edges[e].lenM, durS + q.w[e].sec)
            && Below(s, stamp, p) < Below(s, stamp, n)
  {
    assert ParentOk(q, s, stamp, n);
    var p, e := s.prev[n], s.prevEdge[n];
    assert p in Below(s, stamp, n) && p !in Below(s, stamp, p);
    Prepend(q.net, q.w, e, es, q.to);
  }

  lemma AllCollected(q: Query, s: Search, es: seq<nat>, path: seq<NodeId>, distM: real, durS: real)
    requires |q.w| == |q.net.edges| && q.from in s.gScore && s.gScore[q.from] == 0.0
    requires Collected(q, s, q.from, es, path, distM, durS)
    ensures IsRoute(q, es, [q.from] + path, distM, durS) && durS <= s.gScore[q.to] && ParentEdges(q, s, es)
  {
  }

  /** Following parents from the destination ends at the start, on the route the scores account for. */
  method Reconstruct(net: Net, ghost dist: Distance, prev: map<NodeId, NodeId>, prevEdge: map<NodeId, nat>,
                     from: NodeId, to: NodeId, w: seq<Weight>, ghost s: Search, ghost stamp: map<NodeId, nat>,
                     ghost clock: nat)
    returns (path: seq<NodeId>, distM: real, durS: real, ghost route: seq<nat>)
    requires |w| == |net.edges|
    requires Parents(Query(net, dist, from, to, w), s, stamp, clock) && to in s.gScore
    requires prev == s.prev && prevEdge == s.prevEdge
    ensures IsRoute(Query(net, dist, from, to, w), route, path, distM, durS)
    ensures durS <= s.gScore[to] && ParentEdges(Query(net, dist, from, to, w), s, route)
  {
    hide Collected, ParentEdges, IsRoute, Below;
    ghost var q := Query(net, dist, from, to, w);
    path, distM, durS, route := [], 0.0, 0.0, [];
    var n := to;
    NothingCollected(q, s);
    while n != from
      invariant Collected(q, s, n, route, path, distM, durS)
      decreases Below(s, stamp, n)
    {
      CollectOne(q, s, stamp, clock, n, route, path, distM, durS);
      path := [n] + path;
      var ei := prevEdge[n];
      distM := distM + net.edges[ei].lenM;
      durS := durS + w[ei].sec;
      route := [ei] + route;
      n := prev[n];
    }
    AllCollected(q, s, route, path, distM, durS);
    path := [from] + path;
  }
}
