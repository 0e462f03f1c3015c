/** What every run of the search guarantees, by induction over its pops.

  The method that searches keeps these invariants in its loop; here they are derived for every state
  the search can be in, so that statements about all results the search can return can be proved.
  */
module SearchRuns {
  import opened RoadGraph
  import opened Walks
  import opened SearchState
  import opened AStar

  /** Relaxing the first i edges out of a popped node keeps the invariant. */
  lemma {:induction false} RelaxAllInv(q: Query, s0: Search, u: NodeId, i: nat, stamp0: map<NodeId, nat>, clock0: nat,
                                       c: real)
    returns (stamp: map<NodeId, nat>, clock: nat)
    requires ValidQuery(q) && u in s0.gScore && i <= |Out(q.net.adj, u)| && InRange(q, Out(q.net.adj, u))
    requires Inv(q, s0, stamp0, clock0, c, true, Rest(Out(q.net.adj, u), 0)) && Bounded(q, s0, c, u)
    ensures InRange(q, Out(q.net.adj, u)[..i])
    ensures var s := RelaxAll(q, s0, u, Out(q.net.adj, u)[..i]);
            Inv(q, s, stamp, clock, c, true, Rest(Out(q.net.adj, u), i)) && Bounded(q, s, c, u) && u in s.gScore
  {
    hide Inv, Bounded, Relax, Improves;
    var out := Out(q.net.adj, u);
    if i == 0 {
      RelaxNone(q, s0, u);
      stamp, clock := stamp0, clock0;
    } else {
      stamp, clock := RelaxAllInv(q, s0, u, i - 1, stamp0, clock0, c);
      RelaxOneMore(q, s0, u, out, i - 1);
      var s := RelaxAll(q, s0, u, out[..i - 1]);
      RelaxInv(q, s, stamp, clock, c, true, u, i - 1);
      stamp := if Improves(q, s, u, out[i - 1]) then stamp[q.net.edges[out[i - 1]].to := clock] else stamp;
      clock := clock + 1;
    }
  }

  /** One pop keeps the invariant. */
  lemma StepInv(q: Query, s: Search, it: Item, s': Search, stamp0: map<NodeId, nat>, clock0: nat, c: real)
    returns (stamp: map<NodeId, nat>, clock: nat)
    requires ValidQuery(q) && Inv(q, s, stamp0, clock0, c, true, {})
    requires Pops(s, it) && it.node != q.to && Steps(q, s, it, s')
    ensures Inv(q, s', stamp, clock, c, true, {})
  {
    hide Inv, Bounded, RelaxAll, InRange;
    if it.node in s.seen {
      SkipInv(q, s, stamp0, clock0, c, true, it);
      stamp, clock := stamp0, clock0;
    } else {
      MarkInv(q, s, stamp0, clock0, c, true, it);
      var out := Out(q.net.adj, it.node);
      var marked := s.(open := s.open - multiset{it}, seen := s.seen + {it.node});
      stamp, clock := RelaxAllInv(q, marked, it.node, |out|, stamp0, clock0, c);
      assert out[..|out|] == out && Rest(out, |out|) == {};
    }
  }

  /** Every state the search can reach satisfies the invariant. */
  lemma {:induction false} ReachedInv(q: Query, s: Search, n: nat, c: real)
    returns (stamp: map<NodeId, nat>, clock: nat)
    requires ValidQuery(q) && q.from != q.to && 1.0 <= c && Consistent(q, c) && Reached(q, s, n)
    ensures Inv(q, s, stamp, clock, c, true, {})
    decreases n
  {
    hide Inv, Start, Steps, Pops, Consistent;
    if n == 0 {
      StartInv(q, c, true);
      stamp, clock := map[q.from := 0], 1;
    } else {
      var r, it :| Reached(q, r, n - 1) && Pops(r, it) && it.node != q.to && Steps(q, r, it, s);
      var stamp0, clock0 := ReachedInv(q, r, n - 1, c);
      stamp, clock := StepInv(q, r, it, s, stamp0, clock0, c);
    }
  }

  /** A search that starts at its destination pops nothing else. */
  lemma {:induction false} ReachedAtHome(q: Query, s: Search, n: nat)
    requires |q.w| == |q.net.edges| && q.from == q.to && Reached(q, s, n)
    ensures s == Start(q)
    decreases n
  {
    hide Start, Steps, Pops;
    if n > 0 {
      var r, it :| Reached(q, r, n - 1) && Pops(r, it) && it.node != q.to && Steps(q, r, it, s);
      ReachedAtHome(q, r, n - 1);
      PopsHome(q, it);
    }
  }

  lemma PopsHome(q: Query, it: Item)
    requires Pops(Start(q), it)
    ensures it.node == q.from
  {
  }

  /** A walk along parent edges takes no longer than the score of its end. */
  lemma {:induction false} ParentWalkTime(q: Query, s: Search, stamp: map<NodeId, nat>, clock: nat, es: seq<nat>,
                                          n: NodeId)
    requires |q.w| == |q.net.edges| && Parents(q, s, stamp, clock)
    requires Walk(q.net, q.w, q.from, es, n) && ParentEdges(q, s, es)
    ensures n in s.gScore && Time(q.w, es) <= s.gScore[n]
  {
    if es != [] {
      var e := es[|es| - 1];
      assert s.prevEdge[n] == e && ParentOk(q, s, stamp, n);
      var init := es[..|es| - 1];
      assert forall i :: 0 <= i < |init| ==> init[i] == es[i];
      ParentWalkTime(q, s, stamp, clock, init, q.net.edges[e].from);
    }
  }

  /** Whatever the search can return takes at most c times as long as any open walk. */
  lemma ReturnsAtMost(q: Query, c: real, es: seq<nat>)
    requires ValidQuery(q) && 1.0 <= c && Consistent(q, c) && Returns(q, es)
    ensures AtMost(q, c, Time(q.w, es))
  {
    hide Inv, Consistent, Start, H;
    var s, it :| Attained(q, s) && Pops(s, it) && it.node == q.to && ParentEdges(q, s, es);
    var n: nat :| Reached(q, s, n);
    if q.from == q.to {
      ReachedAtHome(q, s, n);
      NoParentsYet(q, es);
      StayingIsFree(q);
    } else {
      var stamp, clock := ReachedInv(q, s, n, c);
      FoundInv(q, s, stamp, clock, c, true, it);
      ParentWalkTime(q, s, stamp, clock, es, q.to);
    }
  }

  lemma NoParentsYet(q: Query, es: seq<nat>)
    requires |q.w| == |q.net.edges| && ParentEdges(q, Start(q), es)
    ensures es == []
  {
    if es != [] {
      FirstHasParent(q, Start(q), es);
    }
  }

  lemma FirstHasParent(q: Query, s: Search, es: seq<nat>)
    requires |q.w| == |q.net.edges| && ParentEdges(q, s, es) && es != []
    ensures s.prevEdge != map[]
  {
    assert es[0] < |q.w| && q.net.edges[es[0]].to in s.prevEdge;
  }
}
