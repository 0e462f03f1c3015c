/** The heuristic's speed bound: exactly when it is right, and exactly what the search loses when it is not.

  A speed limit of c * 140 km/h guarantees results within the factor c of the minimum, and no smaller
  factor. The worst case has three junctions: a road straight to the destination, a little faster than
  140 km/h, and a detour that costs nothing to enter and is driven at c * 140 km/h. The heuristic puts
  the detour's junction at the time 140 km/h takes, the straight road is a little faster, so the destination is popped
  before the detour has been looked at.
  */
module AStarLimits {
  import opened RealFacts
  import opened RoadGraph
  import opened Walks
  import opened SearchState
  import opened Customization
  import opened AStar
  import opened SearchRuns

  /** The heuristic is at most the time of every open walk, whatever its start and destination. */
  ghost predicate NeverOverestimates(net: Net, dist: Distance, w: seq<Weight>)
    requires |w| == |net.edges|
  {
    forall a, es, b :: Walk(net, w, a, es, b) ==> Heuristic(net.nodes, dist, a, b) <= Time(w, es)
  }

  /** The heuristic never overestimates exactly when no open edge is driven faster than 140 km/h. */
  lemma NeverOverestimatesIff(net: Net, dist: Distance, m: Metric)
    requires StraightLengths(net, dist)
    ensures NeverOverestimates(net, dist, Weights(net.edges, m)) <==> NoFasterThan(net.edges, m, 1.0)
  {
    hide StraightLengths, NoFasterThan, Weights, Heuristic, Times;
    var w := Weights(net.edges, m);
    forall a, es, b | NoFasterThan(net.edges, m, 1.0) && Walk(net, w, a, es, b)
      ensures Heuristic(net.nodes, dist, a, b) <= Time(w, es)
    {
      var q := Query(net, dist, a, b, w);
      SpeedBoundIsSpeedLimit(q, m, 1.0);
      SpeedsMakeConsistent(q, 1.0);
      ConsistentAlong(q, 1.0, a, es, b);
      NothingLeft(q, Time(w, es));
    }
    if NeverOverestimates(net, dist, w) {
      var q := Query(net, dist, 0, 0, w);
      forall e | 0 <= e < |w| && w[e].Fin?
        ensures dist(At(net.nodes, net.edges[e].from), At(net.nodes, net.edges[e].to))
             <= Times(1.0, w[e].sec) * MAX_GRAPH_SPEED_MPS
      {
        Extend(net, w, net.edges[e].from, [], e);
        SpeedOfOneEdge(net, dist, net.edges[e].from, net.edges[e].to, w[e].sec);
      }
      SpeedBoundIsSpeedLimit(q, m, 1.0);
    }
  }

  lemma NothingLeft(q: Query, t: real)
    ensures Times(1.0, t) == t && H(q, q.to) == 0.0
  {
  }

  lemma SpeedOfOneEdge(net: Net, dist: Distance, a: NodeId, b: NodeId, t: real)
    requires Heuristic(net.nodes, dist, a, b) <= t
    ensures dist(At(net.nodes, a), At(net.nodes, b)) <= Times(1.0, t) * MAX_GRAPH_SPEED_MPS
  {
  }

  // ---------------------------------------------------------------- the worst case

  /** Two points some distance apart, in any metric; the bounded speed covers that distance in Least seconds. */
  datatype Setting = Setting(dist: Distance, here: Point, there: Point)

  function Gap(at: Setting): real { at.dist(at.here, at.there) }

  function Least(at: Setting): real { Gap(at) / MAX_GRAPH_SPEED_MPS }

  /** The roads of the example: straight at s * 140 km/h, or around at c * 140 km/h. */
  function Straight(at: Setting, s: real): Edge { Edge(1, 3, Gap(at), ClassMotorway, 140.0 * s, "") }

  const ENTRY := Edge(1, 2, 0.0, ClassMotorway, 50.0, "")

  function Detour(at: Setting, c: real): Edge { Edge(2, 3, Gap(at), ClassMotorway, 140.0 * c, "") }

  function CounterNet(at: Setting, s: real, c: real): Net
  {
    Net(map[1 := Node(1, at.here), 2 := Node(2, at.here), 3 := Node(3, at.there)],
        [Straight(at, s), ENTRY, Detour(at, c)], map[1 := [0, 1], 2 := [2]])
  }

  function Counter(at: Setting, s: real, c: real): Query
  {
    Query(CounterNet(at, s, c), at.dist, 1, 3, Weights(CounterNet(at, s, c).edges, FREE_FLOW))
  }

  /** What the argument needs to know about the example: the straight road takes x seconds, the detour y, and
    the heuristic estimates t for both ways.
    */
  ghost predicate Trap(q: Query, x: real, y: real, t: real)
  {
    && q.from == 1 && q.to == 3 && |q.net.edges| == 3
    && q.w == [Fin(x), Fin(0.0), Fin(y)] && x < t
    && Ends(q.net.edges[0], 1, 3) && Ends(q.net.edges[1], 1, 2) && Ends(q.net.edges[2], 2, 3)
    && Out(q.net.adj, 1) == [0, 1]
    && H(q, 1) == t && H(q, 2) == t && H(q, 3) == 0.0
  }

  predicate Ends(e: Edge, a: NodeId, b: NodeId) { e.from == a && e.to == b }

  lemma NetIsWellFormed(at: Setting, s: real, c: real)
    ensures WellFormed(CounterNet(at, s, c))
  {
    var net := CounterNet(at, s, c);
    assert Indexed(net.edges, net.adj) by {
      hide Indexed;
      var one, two: map<NodeId, seq<nat>> := map[1 := [0]], map[1 := [0, 1]];
      assert [0] + [1] == [0, 1] && [] + [0] == [0] && [] + [2] == [2];
      NothingIndexed();
      AppendKeepsIndex([], map[], Straight(at, s));
      assert [] + [Straight(at, s)] == [Straight(at, s)] && Append(map[], 1, 0) == one;
      AppendKeepsIndex([Straight(at, s)], one, ENTRY);
      assert [Straight(at, s)] + [ENTRY] == [Straight(at, s), ENTRY] && Append(one, 1, 1) == two;
      AppendKeepsIndex([Straight(at, s), ENTRY], two, Detour(at, c));
      assert [Straight(at, s), ENTRY] + [Detour(at, c)] == net.edges && Append(two, 2, 2) == net.adj;
    }
  }

  lemma FractionOfLeast(at: Setting, e: Edge, f: real)
    requires 0.0 < f && 0.0 < Gap(at) && e.lenM == Gap(at) && e.maxSpeedKmh == 140.0 * f
    ensures EdgeTime(FREE_FLOW, e) == Fin(Least(at) / f) && DrivenKmh(FREE_FLOW, e) == 140.0 * f
  {
    Quotient(Gap(at), e.maxSpeedKmh / 3.6, f, Least(at));
  }

  lemma Quotient(len: real, mps: real, f: real, t: real)
    requires 0.0 < f && mps == 140.0 * f / 3.6 && t == len / MAX_GRAPH_SPEED_MPS
    ensures 0.0 < mps && len / mps == t / f
  {
    var u := t / f;
    assert u * f == t && t * MAX_GRAPH_SPEED_MPS == len;
    assert u * mps == len;
  }

  lemma CounterWeights(at: Setting, s: real, c: real)
    requires 0.0 < Gap(at) && 0.0 < s && 0.0 < c
    ensures Weights(CounterNet(at, s, c).edges, FREE_FLOW) == [Fin(Least(at) / s), Fin(0.0), Fin(Least(at) / c)]
    ensures s <= c ==> NoFasterThan(CounterNet(at, s, c).edges, FREE_FLOW, c)
  {
    FractionOfLeast(at, Straight(at, s), s);
    FractionOfLeast(at, Detour(at, c), c);
    assert EdgeTime(FREE_FLOW, ENTRY) == Fin(0.0);
  }

  lemma ProperPart(t: real, s: real)
    requires 0.0 < t && 0.0 < s
    ensures 0.0 < t / s && (1.0 < s ==> t / s < t)
  {
    var u := t / s;
    assert u * s == t;
    CancelFactor(s, 0.0, u);
    if 1.0 < s {
      MulStrict(u, 1.0, s);
    }
  }

  lemma CounterIsValid(at: Setting, s: real, c: real)
    requires 0.0 < Gap(at) && 0.0 < s && 0.0 < c
    ensures ValidQuery(Counter(at, s, c))
    ensures StraightLengths(CounterNet(at, s, c), at.dist)
  {
    hide Weights, Indexed, Least;
    NetIsWellFormed(at, s, c);
    CounterWeights(at, s, c);
    LeastIsPositive(at);
    ProperPart(Least(at), s);
    ProperPart(Least(at), c);
  }

  lemma CounterIsTrap(at: Setting, s: real, c: real)
    requires 0.0 < Gap(at) && 1.0 < s && 0.0 < c
    ensures Trap(Counter(at, s, c), Least(at) / s, Least(at) / c, Least(at))
  {
    hide H, Weights, Least;
    CounterWeights(at, s, c);
    LeastIsPositive(at);
    ProperPart(Least(at), s);
    CounterHeuristic(at, s, c);
  }

  lemma LeastIsPositive(at: Setting)
    requires 0.0 < Gap(at)
    ensures 0.0 < Least(at)
  {
  }

  lemma CounterHeuristic(at: Setting, s: real, c: real)
    ensures H(Counter(at, s, c), 1) == Least(at) && H(Counter(at, s, c), 2) == Least(at)
    ensures H(Counter(at, s, c), 3) == 0.0
  {
    hide Weights;
  }

  /** The state after the only possible first pop. */
  ghost function After(x: real, t: real): Search
  {
    Search(map[1 := 0.0, 3 := x, 2 := 0.0], map[3 := 1, 2 := 1], map[3 := 0, 2 := 1],
           multiset{Item(3, x), Item(2, t)}, {1})
  }

  lemma FirstPop(q: Query, x: real, y: real, t: real, it: Item, s: Search)
    requires Trap(q, x, y, t) && Pops(Start(q), it) && Steps(q, Start(q), it, s)
    ensures s == After(x, t)
  {
    hide H, RelaxAll, Relax;
    assert it == Item(1, t);
    var s0 := Search(map[1 := 0.0], map[], map[], multiset{}, {1});
    assert Start(q).(open := Start(q).open - multiset{it}, seen := Start(q).seen + {1}) == s0;
    TwoRelaxations(q, x, y, t, s0);
  }

  lemma TwoRelaxations(q: Query, x: real, y: real, t: real, s0: Search)
    requires Trap(q, x, y, t) && s0 == Search(map[1 := 0.0], map[], map[], multiset{}, {1})
    ensures RelaxAll(q, s0, 1, [0, 1]) == After(x, t)
  {
    hide H, Relax;
    var s1 := Search(map[1 := 0.0, 3 := x], map[3 := 1], map[3 := 0], multiset{Item(3, x)}, {1});
    FirstRelaxation(q, x, y, t, s0, s1);
    SecondRelaxation(q, x, y, t, s1);
    assert [0, 1][..1] == [0] && [0][..0] == [];
    assert RelaxAll(q, s0, 1, []) == s0;
    assert RelaxAll(q, s0, 1, [0]) == s1;
  }

  lemma FirstRelaxation(q: Query, x: real, y: real, t: real, s0: Search, s1: Search)
    requires Trap(q, x, y, t) && s0 == Search(map[1 := 0.0], map[], map[], multiset{}, {1})
    requires s1 == Search(map[1 := 0.0, 3 := x], map[3 := 1], map[3 := 0], multiset{Item(3, x)}, {1})
    ensures Relax(q, s0, 1, 0) == s1
  {
    hide H;
  }

  lemma SecondRelaxation(q: Query, x: real, y: real, t: real, s1: Search)
    requires Trap(q, x, y, t)
    requires s1 == Search(map[1 := 0.0, 3 := x], map[3 := 1], map[3 := 0], multiset{Item(3, x)}, {1})
    ensures Relax(q, s1, 1, 1) == After(x, t)
  {
    hide H;
  }

  lemma {:induction false} OnlyTwoStates(q: Query, x: real, y: real, t: real, s: Search, n: nat)
    requires |q.w| == |q.net.edges| && Trap(q, x, y, t) && Reached(q, s, n)
    ensures s == Start(q) || s == After(x, t)
    decreases n
  {
    hide Trap, Start, Steps, Pops;
    if n > 0 {
      var r, it :| Reached(q, r, n - 1) && Pops(r, it) && it.node != q.to && Steps(q, r, it, s);
      OnlyTwoStates(q, x, y, t, r, n - 1);
      NextState(q, x, y, t, r, it, s);
    }
  }

  lemma NextState(q: Query, x: real, y: real, t: real, r: Search, it: Item, s: Search)
    requires Trap(q, x, y, t) && (r == Start(q) || r == After(x, t))
    requires Pops(r, it) && it.node != q.to && Steps(q, r, it, s)
    ensures s == After(x, t)
  {
    hide Start, Steps, Pops, RelaxAll, Relax;
    if r == After(x, t) {
      DestinationIsNext(x, t, it);
    } else {
      FirstPop(q, x, y, t, it, s);
    }
  }

  lemma DestinationIsNext(x: real, t: real, it: Item)
    requires x < t && Pops(After(x, t), it)
    ensures it.node == 3
  {
    assert Item(3, x) in After(x, t).open;
    assert it == Item(3, x) || it == Item(2, t);
  }

  /** Whatever the search returns on the example is the straight road. */
  lemma ReturnsStraight(q: Query, x: real, y: real, t: real, es: seq<nat>)
    requires Trap(q, x, y, t) && Returns(q, es)
    ensures Time(q.w, es) == x
  {
    hide H;
    var s, it :| Attained(q, s) && Pops(s, it) && it.node == q.to && ParentEdges(q, s, es);
    var n: nat :| Reached(q, s, n);
    OnlyTwoStates(q, x, y, t, s, n);
    if s == Start(q) {
      PopsHome(q, it);
    }
    OnlyEdge(q, x, y, t, es);
  }

  /** No parent edge leads back to the start. */
  lemma NeverBack(q: Query, x: real, y: real, t: real, p: seq<nat>, b: NodeId)
    requires Trap(q, x, y, t) && Walk(q.net, q.w, 1, p, b) && ParentEdges(q, After(x, t), p)
    ensures p != [] ==> b != 1
  {
  }

  lemma OnlyEdge(q: Query, x: real, y: real, t: real, es: seq<nat>)
    requires Trap(q, x, y, t) && Walk(q.net, q.w, 1, es, 3) && ParentEdges(q, After(x, t), es)
    ensures Time(q.w, es) == x
  {
    hide H;
    var last := |es| - 1;
    assert es[last] == 0;
    var p := es[..last];
    assert forall i :: 0 <= i < |p| ==> p[i] == es[i];
    NeverBack(q, x, y, t, p, 1);
    assert Time(q.w, es) == Time(q.w, []) + Seconds(q.w, 0);
  }

  lemma DetourIsWalk(q: Query, x: real, y: real, t: real)
    requires Trap(q, x, y, t)
    ensures Walk(q.net, q.w, 1, [1, 2], 3) && Time(q.w, [1, 2]) == y
  {
    hide H;
    assert [1, 2][..1] == [1] && [1][..0] == [];
    assert Walk(q.net, q.w, 1, [], 1);
    assert Walk(q.net, q.w, 1, [1], 2);
    assert Time(q.w, []) == 0.0;
    assert Time(q.w, [1]) == 0.0;
  }

  /** The search can indeed return the straight road. */
  lemma StraightIsReturned(q: Query, x: real, y: real, t: real)
    requires |q.w| == |q.net.edges| && Trap(q, x, y, t)
    ensures Returns(q, [0])
  {
    hide H, RelaxAll, Relax, Trap, Start;
    FirstStep(q, x, y, t);
    var first := Item(1, t);
    assert Reached(q, Start(q), 0) && first.node != q.to;
    assert Reached(q, After(x, t), 1);
    assert Attained(q, After(x, t));
    StraightIsRead(q, x, y, t);
  }

  lemma FirstStep(q: Query, x: real, y: real, t: real)
    requires |q.w| == |q.net.edges| && Trap(q, x, y, t)
    ensures q.to == 3 && Pops(Start(q), Item(1, t)) && Steps(q, Start(q), Item(1, t), After(x, t))
  {
    hide H, RelaxAll, Relax;
    var it := Item(1, t);
    var s0 := Search(map[1 := 0.0], map[], map[], multiset{}, {1});
    assert Start(q).(open := Start(q).open - multiset{it}, seen := Start(q).seen + {1}) == s0;
    TwoRelaxations(q, x, y, t, s0);
  }

  lemma StraightIsRead(q: Query, x: real, y: real, t: real)
    requires |q.w| == |q.net.edges| && Trap(q, x, y, t)
    ensures q.from == 1 && q.to == 3 && Walk(q.net, q.w, 1, [0], 3)
    ensures Pops(After(x, t), Item(3, x)) && ParentEdges(q, After(x, t), [0])
  {
    hide H;
    assert [0][..0] == [] && Walk(q.net, q.w, 1, [], 1);
  }

  // ---------------------------------------------------------------- what a speed limit guarantees

  /** es is a result the search can return on a road graph without edges faster than c * 140 km/h. */
  ghost predicate Returned(q: Query, m: Metric, c: real, es: seq<nat>)
  {
    && ValidQuery(q) && WellFormed(q.net) && StraightLengths(q.net, q.dist) && q.w == Weights(q.net.edges, m)
    && NoFasterThan(q.net.edges, m, c) && Returns(q, es)
  }

  /** Under the limit c * 140 km/h, nothing the search returns in this metric takes more than f times as long as any
    other route.
    */
  ghost predicate WithinFactor(dist: Distance, c: real, f: real)
  {
    forall q: Query, m, es :: q.dist == dist && Returned(q, m, c, es) ==> AtMost(q, f, Time(q.w, es))
  }

  /** Under the limit c * 140 km/h, everything the search returns is a fastest route. */
  ghost predicate AlwaysFastest(dist: Distance, c: real)
  {
    forall q: Query, m, es :: q.dist == dist && Returned(q, m, c, es) ==> IsOptimal(q, Time(q.w, es))
  }

  /** A straight road fast enough to mislead the search but more than f times slower than the detour. */
  lemma Between(c: real, f: real, t: real) returns (s: real)
    requires 1.0 <= f < c && 0.0 < t
    ensures 1.0 < s < c && Times(f, t / c) < t / s
  {
    var g := c / f;
    assert g * f == c;
    assert 1.0 < g by { CancelFactor(f, 1.0, g); }
    s := (1.0 + g) / 2.0;
    MulMonotone(g, 1.0, f);
    MulStrict(f, s, g);
    SlowerRoad(s, c, f, t);
  }

  lemma SlowerRoad(s: real, c: real, f: real, t: real)
    requires 0.0 < s && 0.0 < c && f * s < c && 0.0 < t
    ensures Times(f, t / c) < t / s
  {
    var x, y := t / s, t / c;
    assert x * s == t && y * c == t;
    assert 0.0 < y by { CancelFactor(c, 0.0, y); }
    MulStrict(y, f * s, c);
    assert (f * y) * s == y * (f * s);
    CancelFactor(s, f * y, x);
  }

  /** Whatever factor f below c is hoped for, some free-flow graph within the limit defeats it, around any two points
    that are apart: the search returns a route, and every route it can return is more than f times slower than another.
    */
  lemma FastRoadsDefeatTheSearch(at: Setting, c: real, f: real) returns (q: Query, route: seq<nat>, better: seq<nat>)
    requires 1.0 <= f < c && 0.0 < Gap(at)
    ensures q.dist == at.dist && Returned(q, FREE_FLOW, c, route) && Walk(q.net, q.w, q.from, better, q.to)
    ensures forall es :: Returns(q, es) ==> Times(f, Time(q.w, better)) < Time(q.w, es)
  {
    var t := Least(at);
    LeastIsPositive(at);
    var s := Between(c, f, t);
    q, route, better := Counter(at, s, c), [0], [1, 2];
    NetIsWellFormed(at, s, c);
    CounterIsTrap(at, s, c);
    CounterIsValid(at, s, c);
    CounterWeights(at, s, c);
    hide Trap, Returns, StraightLengths, ValidQuery, WellFormed, NoFasterThan, Times, Least;
    StraightIsReturned(q, t / s, t / c, t);
    TrapDefeats(q, t / s, t / c, t, f);
  }

  lemma TrapDefeats(q: Query, x: real, y: real, t: real, f: real)
    requires |q.w| == |q.net.edges| && Trap(q, x, y, t) && Times(f, y) < x
    ensures Walk(q.net, q.w, q.from, [1, 2], q.to)
    ensures forall es :: Returns(q, es) ==> Times(f, Time(q.w, [1, 2])) < Time(q.w, es)
  {
    hide Times, Returns;
    DetourIsWalk(q, x, y, t);
    forall es | Returns(q, es)
      ensures Times(f, Time(q.w, [1, 2])) < Time(q.w, es)
    {
      ReturnsStraight(q, x, y, t, es);
    }
  }

  /** In every metric with two points apart, the limit c * 140 km/h guarantees exactly the factors from c on. */
  lemma SlackIsExact(at: Setting, c: real, f: real)
    requires 0.0 < Gap(at) && 0.0 < c && 1.0 <= f
    ensures WithinFactor(at.dist, c, f) <==> c <= f
  {
    hide AtMost, Returns, WellFormed, StraightLengths, NoFasterThan, Weights, NonNegative;
    if c <= f {
      forall q: Query, m, es | q.dist == at.dist && Returned(q, m, c, es)
        ensures AtMost(q, f, Time(q.w, es))
      {
        LimitBoundsReturns(q, m, c, f, es);
      }
    } else {
      var q, route, better := FastRoadsDefeatTheSearch(at, c, f);
      NotAtMost(q, f, route, better);
    }
  }

  lemma NotAtMost(q: Query, f: real, route: seq<nat>, better: seq<nat>)
    requires |q.w| == |q.net.edges| && Walk(q.net, q.w, q.from, better, q.to)
    requires Times(f, Time(q.w, better)) < Time(q.w, route)
    ensures !AtMost(q, f, Time(q.w, route))
  {
    hide Times;
  }

  lemma LimitBoundsReturns(q: Query, m: Metric, c: real, f: real, es: seq<nat>)
    requires Returned(q, m, c, es) && c <= f && 1.0 <= f
    ensures AtMost(q, f, Time(q.w, es))
  {
    hide StraightLengths, Weights, Returns, SpeedsWithin, Consistent, AtMost;
    LooserLimit(q.net.edges, m, c, f);
    hide NoFasterThan;
    SpeedBoundIsSpeedLimit(q, m, f);
    SpeedsMakeConsistent(q, f);
    ReturnsAtMost(q, f, es);
  }

  lemma LooserLimit(edges: seq<Edge>, m: Metric, c: real, f: real)
    requires NoFasterThan(edges, m, c) && c <= f
    ensures NoFasterThan(edges, m, f)
  {
  }

  /** The search is time-minimal under a speed limit exactly when the limit is at most 140 km/h. */
  lemma FastestIff(at: Setting, c: real)
    requires 0.0 < Gap(at) && 0.0 < c
    ensures AlwaysFastest(at.dist, c) <==> c <= 1.0
  {
    hide AtMost, IsOptimal, WellFormed, StraightLengths, NoFasterThan, Weights, NonNegative;
    SlackIsExact(at, c, 1.0);
    forall q: Query, m, es | q.dist == at.dist && Returned(q, m, c, es)
      ensures IsOptimal(q, Time(q.w, es)) <==> AtMost(q, 1.0, Time(q.w, es))
    {
      OptimalIsFactorOne(q, es);
    }
  }

  lemma OptimalIsFactorOne(q: Query, es: seq<nat>)
    requires |q.w| == |q.net.edges| && Walk(q.net, q.w, q.from, es, q.to)
    ensures IsOptimal(q, Time(q.w, es)) <==> AtMost(q, 1.0, Time(q.w, es))
  {
    forall p
      ensures Times(1.0, Time(q.w, p)) == Time(q.w, p)
    {
    }
  }
}
