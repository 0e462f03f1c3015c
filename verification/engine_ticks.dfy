/** The engine's ticks on a search route: internal/movement/engine.go, cmd/ghostfleet/main.go and routing. */
module EngineTicks {
  import opened RealFacts
  import opened RoadGraph
  import opened Walks
  import opened SearchState
  import opened Customization
  import opened Movement
  import opened MovementEngine
  import opened Ticks

  // ---------------------------------------------------------------- the engine's ticks as values

  /** The speeds the weights give on the segments of a track: those of the first listed positive edges. */
  ghost function EngineSpeeds(net: Net, w: seq<Weight>, track: seq<NodeId>): (speeds: seq<real>)
    requires track != []
    ensures |speeds| == |track| - 1
    ensures forall i :: 0 <= i < |track| - 1 ==> speeds[i] == SpeedAmong(net, w, Out(net.adj, track[i]), track[i + 1])
  {
    seq(|track| - 1, i requires 0 <= i < |track| - 1 => SpeedAmong(net, w, Out(net.adj, track[i]), track[i + 1]))
  }

  ghost function LensOf(g: Graph, track: seq<NodeId>): (lens: seq<real>)
    requires track != []
    reads g
    ensures |track| == |lens| + 1
  {
    Legs(g.nodes, g.dist, track)
  }

  /** While the place is on the track the actor is there. */
  ghost predicate OnTheWay(a: Actor, track: seq<NodeId>, now: Place)
    reads a
  {
    now.seg < |track| - 1 ==> a.At() == now && a.track == Route(track)
  }

  /** Once the place is past the track the actor is at the track's last node. */
  ghost predicate Delivered(e: Engine, a: Actor, track: seq<NodeId>, now: Place)
    requires e.ActorOk(a) && track != []
    reads a, e.g
  {
    now.seg >= |track| - 1 ==> a.LatLng() == RoadGraph.At(e.g.nodes, track[|track| - 1])
  }

  /** What the engine aims at for an actor is one tick at those speeds. */
  lemma LandingIsTick(e: Engine, a: Actor, dt: real, track: seq<NodeId>)
    requires e.GraphOk() && e.ActorOk(a) && a.track == Route(track) && track != []
    ensures e.Landing(a, dt) == Tick(LensOf(e.g, track), EngineSpeeds(e.g.Value(), e.weights, track), a.At(), dt)
  {
    hide OnRoads, SpeedAmong, End, OnTrack, Engine.GraphOk, Times;
    TimesZero(dt);
    GoesNowhere(LensOf(e.g, track), a.At());
  }

  lemma GoesNowhere(lens: seq<real>, p: Place)
    ensures End(lens, p, 0.0) == p
  {
  }

  /** One tick takes an actor on its way one tick further. */
  method TickOnce(e: Engine, id: string, dt: real, ghost track: seq<NodeId>)
    requires e.Valid() && id in e.actors && track != []
    modifies e`lastCell, e`log, e.actors.Values
    ensures e.Valid() && old(e.log) <= e.log && e.CellsCurrent()
    ensures old(e.actors[id].track) == Route(track) ==>
              var speeds := EngineSpeeds(e.g.Value(), e.weights, track);
              var next := Tick(LensOf(e.g, track), speeds, old(e.actors[id].At()), dt);
              OnTheWay(e.actors[id], track, next) && Delivered(e, e.actors[id], track, next)
  {
    hide Tick, Replay, OnRoads, OnTheWay, Delivered, Engine.ActorOk, Engine.GraphOk, Engine.Settled,
         Engine.CellsCurrent, Engine.Landing, Engine.Moved, Engine.CellOf;
    ghost var a, goals := e.actors[id], e.Goals(dt);
    if a.track == Route(track) {
      LandingIsTick(e, a, dt, track);
    }
    e.Tick(dt);
    OneSettled(e, id, goals);
    if goals[id].track == Route(track) {
      MovedIsTick(e, a, goals[id].landing, track);
    }
  }

  lemma OneSettled(e: Engine, id: string, goals: map<string, Goal>)
    requires e.Valid() && id in e.actors && e.Settled({}, goals)
    ensures id in goals && e.ActorOk(e.actors[id]) && e.Moved(e.actors[id], goals[id].landing, goals[id].track)
  {
  }

  lemma MovedIsTick(e: Engine, a: Actor, landing: Place, track: seq<NodeId>)
    requires e.ActorOk(a) && track != [] && e.Moved(a, landing, Route(track))
    ensures OnTheWay(a, track, landing) && Delivered(e, a, track, landing)
  {
  }

  /** Ticks the engine j times with unchanged weights.

    As long as the ticks of an actor stay on its track the actor is where they lead, and right after the tick that
    takes it to the end it is at the last node of its track.
    */
  method RunTicks(e: Engine, id: string, dt: real, j: nat, ghost track: seq<NodeId>, ghost start: Place)
    requires e.Valid() && id in e.actors && track != []
    requires e.actors[id].track == Route(track) && e.actors[id].At() == start
    modifies e`lastCell, e`log, e.actors.Values
    ensures e.Valid() && old(e.log) <= e.log
    ensures var speeds := EngineSpeeds(e.g.Value(), e.weights, track);
            var lens := LensOf(e.g, track);
            && OnTheWay(e.actors[id], track, After(lens, speeds, start, dt, j))
            && (j > 0 && After(lens, speeds, start, dt, j - 1).seg < |lens| ==>
                  Delivered(e, e.actors[id], track, After(lens, speeds, start, dt, j)))
  {
    hide Tick, Replay, OnRoads, LensOf, EngineSpeeds, Delivered, Engine.ActorOk, Engine.GraphOk, Engine.CellsCurrent;
    ghost var speeds, lens := EngineSpeeds(e.g.Value(), e.weights, track), LensOf(e.g, track);
    for i := 0 to j
      invariant e.Valid() && old(e.log) <= e.log
      invariant OnTheWay(e.actors[id], track, After(lens, speeds, start, dt, i))
      invariant i > 0 && After(lens, speeds, start, dt, i - 1).seg < |lens| ==>
                  Delivered(e, e.actors[id], track, After(lens, speeds, start, dt, i))
    {
      ghost var here := After(lens, speeds, start, dt, i);
      TickOnce(e, id, dt, track);
      ArrivedStays(lens, speeds, here, dt);
    }
  }

  lemma ArrivedStays(lens: seq<real>, speeds: seq<real>, p: Place, dt: real)
    requires |speeds| == |lens|
    ensures p.seg >= |lens| ==> Tick(lens, speeds, p, dt) == p
  {
  }

  // ---------------------------------------------------------------- on a search route

  /** The times of a route's edges. */
  function EdgeSeconds(w: seq<Weight>, es: seq<nat>): (secs: seq<real>)
    ensures |secs| == |es| && forall i :: 0 <= i < |es| ==> secs[i] == Seconds(w, es[i])
  {
    seq(|es|, i requires 0 <= i < |es| => Seconds(w, es[i]))
  }

  /** The times of a route's edges add up to the route's time. */
  lemma {:induction false} TotalIsTime(w: seq<Weight>, es: seq<nat>)
    ensures Total(EdgeSeconds(w, es)) == Time(w, es)
  {
    if es != [] {
      TotalIsTime(w, es[..|es| - 1]);
      assert EdgeSeconds(w, es)[..|es| - 1] == EdgeSeconds(w, es[..|es| - 1]);
    }
  }

  /** The i-th segment of a route's track is its i-th edge. */
  lemma {:induction false} RouteSegments(net: Net, dist: Distance, w: seq<Weight>, a: NodeId, es: seq<nat>, b: NodeId,
                                         i: nat)
    requires |w| == |net.edges| && Walk(net, w, a, es, b) && StraightLengths(net, dist) && i < |es|
    ensures es[i] < |w| && w[es[i]].Fin?
    ensures var track, e := Visits(net, a, es), net.edges[es[i]];
            && track[i] == e.from && track[i + 1] == e.to && Legs(net.nodes, dist, track)[i] == e.lenM
  {
    var k := |es| - 1;
    VisitsEnd(net, w, a, es[..k], net.edges[es[k]].from);
    if i < k {
      RouteSegments(net, dist, w, a, es[..k], net.edges[es[k]].from, i);
    }
  }

  lemma VisitsEnd(net: Net, w: seq<Weight>, a: NodeId, es: seq<nat>, b: NodeId)
    requires |w| == |net.edges| && Walk(net, w, a, es, b)
    ensures Visits(net, a, es)[|es|] == b
  {
  }

  /** An open route from a to b whose edges count as distance and take time. */
  ghost predicate PlannedRoute(net: Net, dist: Distance, w: seq<Weight>, a: NodeId, es: seq<nat>, b: NodeId)
  {
    && |w| == |net.edges| && Indexed(net.edges, net.adj) && StraightLengths(net, dist) && Walk(net, w, a, es, b)
    && forall i :: 0 <= i < |es| ==> 0.0 < Seconds(w, es[i]) && DEGENERATE_M <= EdgeLength(net, es[i])
  }

  /** The segment lengths of the route. */
  function RouteLens(net: Net, dist: Distance, a: NodeId, es: seq<nat>): (lens: seq<real>)
    ensures |lens| == |es|
  {
    Legs(net.nodes, dist, Visits(net, a, es))
  }

  lemma RouteIsTimed(net: Net, dist: Distance, w: seq<Weight>, a: NodeId, es: seq<nat>, b: NodeId, dt: real)
    requires PlannedRoute(net, dist, w, a, es, b) && 0.0 < dt
    ensures Timed(RouteLens(net, dist, a, es), EdgeSeconds(w, es), dt)
  {
    hide Indexed, StraightLengths;
    var lens := RouteLens(net, dist, a, es);
    forall i | 0 <= i < |lens|
      ensures DEGENERATE_M <= lens[i]
    {
      RouteSegments(net, dist, w, a, es, b, i);
    }
  }

  /** A route's edge, as its segment. */
  lemma PlannedSegment(net: Net, dist: Distance, w: seq<Weight>, a: NodeId, es: seq<nat>, b: NodeId, i: nat)
    requires PlannedRoute(net, dist, w, a, es, b) && i < |es|
    ensures es[i] < |net.edges| && 0.0 < Seconds(w, es[i])
    ensures Visits(net, a, es)[i] == net.edges[es[i]].from && Visits(net, a, es)[i + 1] == net.edges[es[i]].to
    ensures RouteLens(net, dist, a, es)[i] == net.edges[es[i]].lenM && EdgeSeconds(w, es)[i] == Seconds(w, es[i])
  {
    hide Indexed, StraightLengths;
    RouteSegments(net, dist, w, a, es, b, i);
  }

  /** The speeds the engine gives the route's segments. */
  ghost function RouteSpeeds(net: Net, w: seq<Weight>, a: NodeId, es: seq<nat>): (speeds: seq<real>)
    ensures |speeds| == |es|
  {
    EngineSpeeds(net, w, Visits(net, a, es))
  }

  lemma RouteIsDriven(net: Net, dist: Distance, w: seq<Weight>, a: NodeId, es: seq<nat>, b: NodeId)
    requires PlannedRoute(net, dist, w, a, es, b)
    ensures Driven(RouteLens(net, dist, a, es), RouteSpeeds(net, w, a, es))
  {
    hide Indexed, SpeedAmong;
    LengthsNonNegative(net, dist);
    var track := Visits(net, a, es);
    forall i | 0 <= i < |es|
      ensures 0.0 <= RouteSpeeds(net, w, a, es)[i]
    {
      SpeedNonNegative(net, w, Out(net.adj, track[i]), track[i + 1]);
    }
  }

  /** The first listed positive edge between the nodes of segment i has the speed of the route's edge. */
  ghost predicate SpeedMatches(net: Net, w: seq<Weight>, e: nat)
  {
    && e < |net.edges| && 0.0 < Seconds(w, e)
    && SpeedAmong(net, w, Out(net.adj, net.edges[e].from), net.edges[e].to) == net.edges[e].lenM / Seconds(w, e)
  }

  /** The engine ticks on segment i as at the route's own time, from everywhere on it and for every tick, exactly when
    the first listed positive edge between its nodes has the route edge's speed.
    */
  lemma TicksAsRouteIff(net: Net, dist: Distance, w: seq<Weight>, a: NodeId, es: seq<nat>, b: NodeId, i: nat)
    requires PlannedRoute(net, dist, w, a, es, b) && i < |es|
    ensures Timed(RouteLens(net, dist, a, es), EdgeSeconds(w, es), 1.0)
    ensures var lens := RouteLens(net, dist, a, es);
            var engine, own := RouteSpeeds(net, w, a, es), OwnSpeeds(lens, EdgeSeconds(w, es));
            SpeedMatches(net, w, es[i]) <==>
              forall p: Place, dt: real :: p.seg == i && 0.0 < dt && OnTrack(lens, p) ==>
                Tick(lens, engine, p, dt) == Tick(lens, own, p, dt)
  {
    hide PlannedRoute, RouteLens, Tick, SpeedAmong;
    RouteIsTimed(net, dist, w, a, es, b, 1.0);
    RouteIsDriven(net, dist, w, a, es, b);
    PlannedSegment(net, dist, w, a, es, b, i);
    var lens := RouteLens(net, dist, a, es);
    SameTicksIff(lens, RouteSpeeds(net, w, a, es), OwnSpeeds(lens, EdgeSeconds(w, es)), i);
  }

  lemma LengthsNonNegative(net: Net, dist: Distance)
    requires StraightLengths(net, dist)
    ensures forall d :: 0 <= d < |net.edges| ==> 0.0 <= net.edges[d].lenM
  {
  }

  lemma {:induction false} SpeedNonNegative(net: Net, w: seq<Weight>, out: seq<nat>, to: NodeId)
    requires forall d :: 0 <= d < |net.edges| ==> 0.0 <= net.edges[d].lenM
    ensures 0.0 <= SpeedAmong(net, w, out, to)
  {
    if out != [] {
      SpeedNonNegative(net, w, out[1..], to);
      if out[0] < |net.edges| && out[0] < |w| && Positive(w[out[0]]) && w[out[0]].Fin? {
        QuotientNonNegative(net.edges[out[0]].lenM, w[out[0]].sec);
      }
    }
  }

  /** Without parallel edges every speed matches. */
  predicate NoParallel(net: Net, e: nat)
    requires e < |net.edges|
  {
    forall d :: 0 <= d < |net.edges| && d != e ==>
      net.edges[d].from != net.edges[e].from || net.edges[d].to != net.edges[e].to
  }

  lemma NoParallelMatches(net: Net, w: seq<Weight>, e: nat)
    requires |w| == |net.edges| && Indexed(net.edges, net.adj) && e < |w| && NoParallel(net, e) && 0.0 < Seconds(w, e)
    ensures SpeedMatches(net, w, e)
  {
    OutEdgesExact(net.edges, net.edges[e].from);
    OnlyEdgeSpeed(net, w, Out(net.adj, net.edges[e].from), e);
  }

  lemma {:induction false} OnlyEdgeSpeed(net: Net, w: seq<Weight>, out: seq<nat>, e: nat)
    requires |w| == |net.edges| && e < |w| && w[e].Fin? && 0.0 < w[e].sec && NoParallel(net, e) && e in out
    requires forall d :: d in out ==> d < |net.edges| && net.edges[d].from == net.edges[e].from
    ensures SpeedAmong(net, w, out, net.edges[e].to) == net.edges[e].lenM / w[e].sec
  {
    if out[0] != e {
      assert out == [out[0]] + out[1..] && e in out[1..];
      assert forall d :: d in out[1..] ==> d in out;
      OnlyEdgeSpeed(net, w, out[1..], e);
    }
  }

  // ---------------------------------------------------------------- many ticks of the engine on a route

  /** An actor set out on a search route keeps the route's own timetable under the engine.

    Whenever every tick covers the timetable's distance, the actor is where the timetable puts it until the route's
    time has passed, and right after the tick during which it passes the actor is at the destination.
    */
  method DriveRoute(e: Engine, id: string, dt: real, j: nat, ghost a: NodeId, ghost es: seq<nat>, ghost b: NodeId)
    requires e.Valid() && id in e.actors && 0.0 < dt
    requires PlannedRoute(e.g.Value(), e.g.dist, e.weights, a, es, b)
    requires e.actors[id].track == Route(Visits(e.g.Value(), a, es)) && e.actors[id].At() == Place(0, 0.0)
    requires OnTimetable(e.g.Value(), e.g.dist, e.weights, a, es, dt)
    modifies e`lastCell, e`log, e.actors.Values
    ensures e.Valid()
    ensures Times(j as real, dt) < Time(e.weights, es) ==>
              EdgeTimesPositive(e.weights, es) && e.actors[id].At() == Due(EdgeSeconds(e.weights, es), dt, j)
    ensures j > 0 && Times((j - 1) as real, dt) < Time(e.weights, es) <= Times(j as real, dt) ==>
              e.actors[id].LatLng() == RoadGraph.At(e.g.nodes, b)
  {
    hide After, OnTimetable, Due, Times, EdgeTimesPositive, LensOf, RouteLens, RouteSpeeds, EngineSpeeds, Indexed,
         StraightLengths, Engine.ActorOk, Engine.GraphOk, Replay, OnRoads;
    ghost var net, w, dist := e.g.Value(), e.weights, e.g.dist;
    ghost var track := Visits(net, a, es);
    RouteOnTime(net, dist, w, a, es, b, dt, j);
    if j > 0 {
      RouteOnTime(net, dist, w, a, es, b, dt, j - 1);
    }
    VisitsEnd(net, w, a, es, b);
    TrackOfRoute(e.g, w, a, es);
    RunTicks(e, id, dt, j, track, Place(0, 0.0));
    assert LensOf(e.g, track) == RouteLens(net, dist, a, es);
  }

  lemma TrackOfRoute(g: Graph, w: seq<Weight>, a: NodeId, es: seq<nat>)
    ensures LensOf(g, Visits(g.Value(), a, es)) == RouteLens(g.Value(), g.dist, a, es)
    ensures EngineSpeeds(g.Value(), w, Visits(g.Value(), a, es)) == RouteSpeeds(g.Value(), w, a, es)
  {
  }

  predicate EdgeTimesPositive(w: seq<Weight>, es: seq<nat>)
  {
    forall i :: 0 <= i < |es| ==> 0.0 < Seconds(w, es[i])
  }

  /** Every tick of the engine covers the distance that the route's timetable does. */
  ghost predicate OnTimetable(net: Net, dist: Distance, w: seq<Weight>, a: NodeId, es: seq<nat>, dt: real)
  {
    var lens, speeds, secs := RouteLens(net, dist, a, es), RouteSpeeds(net, w, a, es), EdgeSeconds(w, es);
    Timed(lens, secs, dt) && Driven(lens, speeds) && forall j: nat :: CoversTick(lens, speeds, secs, dt, j)
  }

  /** After every tick the engine puts the actor where the route's timetable does. */
  ghost predicate EngineKeepsTime(net: Net, dist: Distance, w: seq<Weight>, a: NodeId, es: seq<nat>, dt: real)
  {
    var lens, speeds, secs := RouteLens(net, dist, a, es), RouteSpeeds(net, w, a, es), EdgeSeconds(w, es);
    Timed(lens, secs, dt) && Driven(lens, speeds) && KeepsTime(lens, speeds, secs, dt)
  }

  /** On any planned route, parallel edges or not, the engine keeps to the route's timetable exactly when each of its
    ticks covers the timetable's distance.
    */
  lemma EngineKeepsTimeIff(net: Net, dist: Distance, w: seq<Weight>, a: NodeId, es: seq<nat>, b: NodeId, dt: real)
    requires PlannedRoute(net, dist, w, a, es, b) && 0.0 < dt
    ensures EngineKeepsTime(net, dist, w, a, es, dt) <==> OnTimetable(net, dist, w, a, es, dt)
  {
    hide PlannedRoute, RouteLens, RouteSpeeds, KeepsTime, CoversTick;
    RouteIsTimed(net, dist, w, a, es, b, dt);
    RouteIsDriven(net, dist, w, a, es, b);
    KeepsTimeIff(RouteLens(net, dist, a, es), RouteSpeeds(net, w, a, es), EdgeSeconds(w, es), dt);
  }

  /** When all speeds match and no edge is shorter than a tick, that is so exactly when the route is smooth: every edge
    but the last ends with a tick or is followed by an edge of the same speed.
    */
  lemma EngineKeepsTimeIffSmooth(net: Net, dist: Distance, w: seq<Weight>, a: NodeId, es: seq<nat>, b: NodeId, dt: real)
    requires PlannedRoute(net, dist, w, a, es, b) && 0.0 < dt
    requires forall i :: 0 <= i < |es| ==> SpeedMatches(net, w, es[i]) && dt <= Seconds(w, es[i])
    ensures Timed(RouteLens(net, dist, a, es), EdgeSeconds(w, es), dt)
    ensures EngineKeepsTime(net, dist, w, a, es, dt) <==> Smooth(RouteLens(net, dist, a, es), EdgeSeconds(w, es), dt)
  {
    hide PlannedRoute, RouteLens, KeepsTime, Smooth;
    RouteIsTimed(net, dist, w, a, es, b, dt);
    RouteIsDriven(net, dist, w, a, es, b);
    MatchedSpeeds(net, dist, w, a, es, b);
    KeepsTimeIffSmooth(RouteLens(net, dist, a, es), EdgeSeconds(w, es), dt);
  }

  /** The engine drives every segment at the route's own speed. */
  ghost predicate AtOwnSpeeds(net: Net, dist: Distance, w: seq<Weight>, a: NodeId, es: seq<nat>)
  {
    var lens, secs := RouteLens(net, dist, a, es), EdgeSeconds(w, es);
    Timed(lens, secs, 1.0) && RouteSpeeds(net, w, a, es) == OwnSpeeds(lens, secs)
  }

  lemma MatchedSpeeds(net: Net, dist: Distance, w: seq<Weight>, a: NodeId, es: seq<nat>, b: NodeId)
    requires PlannedRoute(net, dist, w, a, es, b) && forall i :: 0 <= i < |es| ==> SpeedMatches(net, w, es[i])
    ensures AtOwnSpeeds(net, dist, w, a, es)
  {
    hide PlannedRoute, RouteLens, RouteSpeeds, SpeedMatches;
    RouteIsTimed(net, dist, w, a, es, b, 1.0);
    var own := OwnSpeeds(RouteLens(net, dist, a, es), EdgeSeconds(w, es));
    forall i | 0 <= i < |es|
      ensures RouteSpeeds(net, w, a, es)[i] == own[i]
    {
      MatchedSpeed(net, dist, w, a, es, b, i);
    }
  }

  lemma MatchedSpeed(net: Net, dist: Distance, w: seq<Weight>, a: NodeId, es: seq<nat>, b: NodeId, i: nat)
    requires PlannedRoute(net, dist, w, a, es, b) && i < |es| && SpeedMatches(net, w, es[i])
    ensures RouteSpeeds(net, w, a, es)[i] == RouteLens(net, dist, a, es)[i] / EdgeSeconds(w, es)[i]
  {
    hide PlannedRoute, RouteLens, SpeedAmong;
    PlannedSegment(net, dist, w, a, es, b, i);
  }

  lemma RouteOnTime(net: Net, dist: Distance, w: seq<Weight>, a: NodeId, es: seq<nat>, b: NodeId, dt: real, j: nat)
    requires PlannedRoute(net, dist, w, a, es, b) && 0.0 < dt && OnTimetable(net, dist, w, a, es, dt)
    ensures EdgeTimesPositive(w, es)
    ensures var now := After(RouteLens(net, dist, a, es), RouteSpeeds(net, w, a, es), Place(0, 0.0), dt, j);
            && now == Due(EdgeSeconds(w, es), dt, j)
            && (now.seg >= |es| <==> Time(w, es) <= Times(j as real, dt))
  {
    hide Indexed, StraightLengths, CoversTick, Times, Due;
    var lens, speeds, secs := RouteLens(net, dist, a, es), RouteSpeeds(net, w, a, es), EdgeSeconds(w, es);
    CoveredTicksKeepTime(lens, speeds, secs, dt, j);
    ArrivesOnTime(lens, speeds, secs, dt, j);
    TotalIsTime(w, es);
  }

  // ---------------------------------------------------------------- a route driven too fast

  /** A metric in metres that only looks at latitude. */
  function LatDist(p: Point, q: Point): real { if p.lat < q.lat then q.lat - p.lat else p.lat - q.lat }

  lemma LatDistIsMetric()
    ensures IsMetric(LatDist)
  {
  }

  /** A hundred metres of motorway, then fifty of a local road, both at their default speeds. */
  const EXIT_NET := Net(map[1 := Node(1, Point(0.0, 0.0)), 2 := Node(2, Point(100.0, 0.0)),
                            3 := Node(3, Point(150.0, 0.0))],
                        [Edge(1, 2, 100.0, ClassMotorway, 120.0, ""), Edge(2, 3, 50.0, ClassLocal, 30.0, "")],
                        map[1 := [0], 2 := [1]])

  /** ghostfleet's default tick, in seconds. */
  const DEFAULT_TICK := 5.0

  lemma ExitIsStraight(dist: Distance)
    requires dist == LatDist
    ensures Indexed(EXIT_NET.edges, EXIT_NET.adj) && StraightLengths(EXIT_NET, dist)
  {
    var first, second := EXIT_NET.edges[0], EXIT_NET.edges[1];
    assert Indexed(EXIT_NET.edges, EXIT_NET.adj) by {
      hide Indexed;
      var one: map<NodeId, seq<nat>> := map[1 := [0]];
      assert [] + [0] == [0] && [] + [1] == [1];
      NothingIndexed();
      AppendKeepsIndex([], map[], first);
      assert [] + [first] == [first] && Append(map[], 1, 0) == one;
      AppendKeepsIndex([first], one, second);
      assert [first] + [second] == EXIT_NET.edges && Append(one, 2, 1) == EXIT_NET.adj;
    }
  }

  lemma ExitTimes()
    ensures Weights(EXIT_NET.edges, FREE_FLOW) == [Fin(3.0), Fin(6.0)]
  {
    assert 100.0 / (120.0 / 3.6) == 3.0 && 50.0 / (30.0 / 3.6) == 6.0;
    assert EdgeTime(FREE_FLOW, EXIT_NET.edges[0]) == Fin(3.0);
    assert EdgeTime(FREE_FLOW, EXIT_NET.edges[1]) == Fin(6.0);
  }

  /** At the default tick the engine drives this free-flow route of nine seconds in five. */
  lemma DefaultTickIsEarly() returns (dist: Distance)
    ensures dist == LatDist
    ensures var w, es := Weights(EXIT_NET.edges, FREE_FLOW), [0, 1];
            var lens, speeds := RouteLens(EXIT_NET, dist, 1, es), RouteSpeeds(EXIT_NET, w, 1, es);
            && PlannedRoute(EXIT_NET, dist, w, 1, es, 3) && SpeedMatches(EXIT_NET, w, 0) && SpeedMatches(EXIT_NET, w, 1)
            && Time(w, es) == 9.0
            && After(lens, speeds, Place(0, 0.0), DEFAULT_TICK, 1) == Place(2, 0.0)
            && !EngineKeepsTime(EXIT_NET, dist, w, 1, es, DEFAULT_TICK)
  {
    hide PlannedRoute, SpeedMatches, Weights, RouteLens, RouteSpeeds, Times, Timetable;
    LatDistIsMetric();
    dist := LatDist;
    ExitTimes();
    var w, es := Weights(EXIT_NET.edges, FREE_FLOW), [0, 1];
    ExitRoute(w);
    ExitIsPlanned(dist, w);
    ExitSegments(dist, w);
    MatchedSpeeds(EXIT_NET, dist, w, 1, es, 3);
    OverrunsToTheEnd(RouteLens(EXIT_NET, dist, 1, es), EdgeSeconds(w, es));
  }

  lemma ExitIsPlanned(dist: Distance, w: seq<Weight>)
    requires dist == LatDist && w == [Fin(3.0), Fin(6.0)]
    ensures PlannedRoute(EXIT_NET, dist, w, 1, [0, 1], 3)
    ensures SpeedMatches(EXIT_NET, w, 0) && SpeedMatches(EXIT_NET, w, 1)
  {
    hide Indexed, StraightLengths, SpeedMatches;
    ExitIsStraight(dist);
    ExitRoute(w);
    NoParallelMatches(EXIT_NET, w, 0);
    NoParallelMatches(EXIT_NET, w, 1);
  }

  lemma ExitSegments(dist: Distance, w: seq<Weight>)
    requires PlannedRoute(EXIT_NET, dist, w, 1, [0, 1], 3) && w == [Fin(3.0), Fin(6.0)]
    ensures RouteLens(EXIT_NET, dist, 1, [0, 1]) == [100.0, 50.0] && EdgeSeconds(w, [0, 1]) == [3.0, 6.0]
  {
    hide PlannedRoute, RouteLens;
    PlannedSegment(EXIT_NET, dist, w, 1, [0, 1], 3, 0);
    PlannedSegment(EXIT_NET, dist, w, 1, [0, 1], 3, 1);
  }

  lemma ExitRoute(w: seq<Weight>)
    requires w == [Fin(3.0), Fin(6.0)]
    ensures Walk(EXIT_NET, w, 1, [0, 1], 3) && Time(w, [0, 1]) == 9.0
  {
    assert [0, 1][..1] == [0] && [0][..0] == [];
    assert Walk(EXIT_NET, w, 1, [], 1) && Walk(EXIT_NET, w, 1, [0], 2);
    assert Time(w, []) == 0.0 && Time(w, [0]) == 3.0;
  }

  lemma OverrunsToTheEnd(lens: seq<real>, secs: seq<real>)
    requires lens == [100.0, 50.0] && secs == [3.0, 6.0]
    ensures Timed(lens, secs, DEFAULT_TICK)
    ensures After(lens, OwnSpeeds(lens, secs), Place(0, 0.0), DEFAULT_TICK, 1) == Place(2, 0.0)
    ensures !KeepsTime(lens, OwnSpeeds(lens, secs), secs, DEFAULT_TICK)
  {
    var p, speeds := Place(0, 0.0), OwnSpeeds(lens, secs);
    var far := Times(DEFAULT_TICK, speeds[0]);
    assert far > 150.0;
    LeftHere(lens, p);
    LeftHere(lens, Place(1, 0.0));
    LeftAtEnd(lens);
    MoveConserves(lens, p, far);
    assert After(lens, speeds, p, DEFAULT_TICK, 0) == p;
    assert Total(secs) == 9.0 by { TotalOfTwo(3.0, 6.0); }
    NonNegativeTime(1, DEFAULT_TICK);
    TimetableOnTrack(lens, secs, DEFAULT_TICK, Times(1.0, DEFAULT_TICK));
    assert After(lens, speeds, p, DEFAULT_TICK, 1) != Due(secs, DEFAULT_TICK, 1);
  }

  lemma TotalOfTwo(x: real, y: real)
    ensures Total([x, y]) == x + y
  {
    assert [x, y][..1] == [x] && [x][..0] == [];
    assert Total([x]) == x;
  }
}
