/** Many actors roaming over one graph, with cell-change callbacks: internal/movement/engine.go.

  The grid cell of a position is an arbitrary function, and so is every draw of the random
  generator; all results hold for all of them. The order in which a tick visits the actors is
  arbitrary, as iteration over a map is.
  */
module MovementEngine {
  import opened RealFacts
  import opened Wrappers
  import opened RoadGraph
  import opened Walks
  import opened SearchState
  import opened AStar
  import opened Movement

  type Cell = int

  // ---------------------------------------------------------------- tracks

  ghost predicate Joined(net: Net, a: NodeId, b: NodeId)
  {
    exists e :: 0 <= e < |net.edges| && net.edges[e].from == a && net.edges[e].to == b
  }

  /** A non-empty walk of the graph, open or not; a single node, even an unknown one, is a walk. */
  ghost predicate OnRoads(net: Net, track: seq<NodeId>)
  {
    && track != []
    && (forall i :: 0 <= i < |track| - 1 ==> Joined(net, track[i], track[i + 1]))
  }

  /** The nodes a search route visits form a track. */
  lemma {:induction false} VisitsAreOnRoads(net: Net, w: seq<Weight>, a: NodeId, es: seq<nat>, b: NodeId)
    requires |w| == |net.edges| && Walk(net, w, a, es, b)
    ensures OnRoads(net, Visits(net, a, es)) && Visits(net, a, es)[0] == a && Visits(net, a, es)[|es|] == b
  {
    if es != [] {
      var e := es[|es| - 1];
      var init := Visits(net, a, es[..|es| - 1]);
      VisitsAreOnRoads(net, w, a, es[..|es| - 1], net.edges[e].from);
      assert Joined(net, init[|init| - 1], b);
      assert Visits(net, a, es) == init + [b];
    }
  }

  /** In a well-formed graph a track of more than one node visits known nodes only. */
  lemma TracksAreKnown(net: Net, track: seq<NodeId>, i: nat)
    requires WellFormed(net) && OnRoads(net, track) && |track| > 1 && i < |track|
    ensures track[i] in net.nodes
  {
    if i == 0 {
      assert Joined(net, track[0], track[1]);
    } else {
      assert Joined(net, track[i - 1], track[i]);
    }
  }

  // ---------------------------------------------------------------- speed

  /** The speed on the first listed edge to the next node whose weight is positive; 13.9 m/s without one. */
  function SpeedAmong(net: Net, w: seq<Weight>, out: seq<nat>, to: NodeId): real
  {
    if out == [] then 13.9
    else if out[0] < |net.edges| && out[0] < |w| && net.edges[out[0]].to == to && Positive(w[out[0]]) then
      SpeedOn(net.edges[out[0]].lenM, w[out[0]])
    else SpeedAmong(net, w, out[1..], to)
  }

  predicate Positive(w: Weight) { w.Closed? || w.sec > 0.0 }

  /** Length over weight; a closed edge is stood still on. */
  function SpeedOn(lenM: real, w: Weight): real
    requires Positive(w)
  {
    match w case Closed => 0.0 case Fin(sec) => lenM / sec
  }

  /** The first listed edge to the node that is closed or takes any time decides: a closed one stands for a stop, an
    open one for its length over its weight; without one the speed is 13.9 m/s.
    */
  lemma {:induction false} FirstEdgeDecides(net: Net, w: seq<Weight>, out: seq<nat>, to: NodeId, i: nat)
    requires i <= |out| && |w| == |net.edges| && forall j :: 0 <= j < |out| ==> out[j] < |net.edges|
    requires forall j :: 0 <= j < i ==> net.edges[out[j]].to != to || (w[out[j]].Fin? && w[out[j]].sec <= 0.0)
    ensures i == |out| ==> SpeedAmong(net, w, out, to) == 13.9
    ensures i < |out| && net.edges[out[i]].to == to && w[out[i]].Closed? ==> SpeedAmong(net, w, out, to) == 0.0
    ensures i < |out| && net.edges[out[i]].to == to && w[out[i]].Fin? && w[out[i]].sec > 0.0 ==>
              SpeedAmong(net, w, out, to) == net.edges[out[i]].lenM / w[out[i]].sec
  {
    if i > 0 {
      FirstEdgeDecides(net, w, out[1..], to, i - 1);
    }
  }

  method EdgeSpeed(g: Graph, w: seq<Weight>, a: Actor) returns (r: real)
    requires Indexed(g.edges, g.adj) && |w| == |g.edges| && a.track.Route?
    ensures a.Arrived() ==> r == 0.0
    ensures !a.Arrived() ==>
              r == SpeedAmong(g.Value(), w, Out(g.adj, a.track.nodes[a.seg]), a.track.nodes[a.seg + 1])
  {
    if a.Arrived() {
      return 0.0;
    }
    var from, to := a.track.nodes[a.seg], a.track.nodes[a.seg + 1];
    var out := Out(g.adj, from);
    for i := 0 to |out|
      invariant SpeedAmong(g.Value(), w, out, to) == SpeedAmong(g.Value(), w, out[i..], to)
    {
      var ei := out[i];
      OutCovers(g.Value(), from, ei);
      if g.edges[ei].to == to && Positive(w[ei]) {
        return SpeedOn(g.edges[ei].lenM, w[ei]);
      }
      assert out[i..][1..] == out[i + 1..];
    }
    return 13.9;
  }

  // ---------------------------------------------------------------- events

  /** Cells recorded when an actor is added, and callbacks fired when a cell changes. */
  datatype Event = Added(id: string, cell: Cell) | Changed(id: string, cell: Cell)

  /** The cells a listener knows after hearing all events. */
  function Replay(log: seq<Event>): map<string, Cell>
  {
    if log == [] then map[] else Replay(log[..|log| - 1])[log[|log| - 1].id := log[|log| - 1].cell]
  }

  lemma ReplayOne(log: seq<Event>, e: Event)
    ensures Replay(log + [e]) == Replay(log)[e.id := e.cell]
  {
    assert (log + [e])[..|log|] == log;
  }

  // ---------------------------------------------------------------- the engine

  class Engine {
    const g: Graph
    const cellAt: Point -> Cell
    const nodeIds: seq<NodeId>
    /** Whether a cell-change callback is installed. */
    const listening: bool
    var weights: seq<Weight>
    var actors: map<string, Actor>
    var lastCell: map<string, Cell>
    ghost var log: seq<Event>

    /** The actor is on a walk of the engine's graph, at a place within it. */
    ghost predicate ActorOk(a: Actor)
      reads a, g
    {
      a.g == g && a.Valid() && a.track.Route? && OnRoads(g.Value(), a.track.nodes)
    }

    ghost predicate GraphOk()
      reads this`weights, g
    {
      && g.Valid() && |weights| == |g.edges| && NonNegative(weights)
      && (forall n :: n in nodeIds <==> n in g.nodes)
    }

    ghost predicate Valid()
      reads this, g, actors.Values
    {
      && GraphOk()
      && (forall id :: id in actors ==> actors[id].id == id && ActorOk(actors[id]))
      && lastCell.Keys == actors.Keys
      && (listening ==> Replay(log) == lastCell)
      && (actors != map[] ==> nodeIds != [])
    }

    /** The cell an actor is in. */
    function CellOf(a: Actor): Cell
      requires ActorOk(a)
      reads a, g
    {
      cellAt(a.LatLng())
    }

    /** The cell is that of the track's last node once the actor has arrived, else that of the point that divides its
      segment in the ratio of its progress.
      */
    ghost predicate CellOfProgress(cell: Cell, a: Actor)
      reads a, g
    {
      && a.track.Route? && a.track.nodes != []
      && exists r: Point :: cell == cellAt(r) &&
           if a.seg + 1 < |a.track.nodes| then
             Divides(r, RoadGraph.At(g.nodes, a.track.nodes[a.seg]), RoadGraph.At(g.nodes, a.track.nodes[a.seg + 1]),
                     a.frac)
           else r == RoadGraph.At(g.nodes, a.track.nodes[|a.track.nodes| - 1])
    }

    lemma CellIsOfProgress(a: Actor)
      requires ActorOk(a)
      ensures CellOfProgress(CellOf(a), a)
    {
      hide Divides;
      var r := a.LatLng();
      assert CellOf(a) == cellAt(r);
      if a.seg + 1 < |a.track.nodes| {
        assert a.OnSegment(RoadGraph.At(g.nodes, a.track.nodes[a.seg]),
                           RoadGraph.At(g.nodes, a.track.nodes[a.seg + 1]));
      }
    }

    /** Every actor's last recorded cell is the cell it is in. */
    ghost predicate CellsCurrent()
      requires Valid()
      reads this, g, actors.Values
    {
      forall id :: id in actors ==> lastCell[id] == CellOf(actors[id])
    }

    constructor (g: Graph, weights: seq<Weight>, cellAt: Point -> Cell, listening: bool)
      requires g.Valid() && |weights| == |g.edges| && NonNegative(weights)
      ensures Valid() && CellsCurrent() && this.g == g && actors == map[] && log == []
    {
      this.g, this.weights, this.cellAt, this.listening := g, weights, cellAt, listening;
      actors, lastCell, log := map[], map[], [];
      var ids: seq<NodeId> := [];
      var todo := g.nodes.Keys;
      while todo != {}
        invariant todo <= g.nodes.Keys
        invariant forall n :: n in ids <==> n in g.nodes && n !in todo
        decreases todo
      {
        ghost var some := Member(todo);
        var n :| n in todo;
        ghost var before := ids;
        ids := ids + [n];
        assert forall m :: m in ids <==> m in before || m == n;
        todo := todo - {n};
      }
      nodeIds := ids;
    }

    method SetWeights(w: seq<Weight>)
      requires Valid() && |w| == |g.edges| && NonNegative(w)
      modifies this`weights
      ensures Valid() && weights == w
    {
      weights := w;
    }

    /** There is somewhere to go: dst is elsewhere and can be reached. */
    ghost predicate Routable(here: NodeId, dst: NodeId)
      requires |weights| == |g.edges|
      reads this`weights, g
    {
      here != dst && Reachable(QueryOf(g, here, dst, weights))
    }

    /** An actor is on a segment or at the end of its track. */
    lemma HereOk(a: Actor)
      requires GraphOk() && ActorOk(a)
      ensures a.track.Route? && a.seg < |a.track.nodes| && |weights| == |g.edges|
    {
    }

    /** A route of the graph from a node to dst over currently open edges, when there is one. */
    method Plan(here: NodeId, dst: NodeId) returns (path: seq<NodeId>, ok: bool)
      requires GraphOk()
      ensures ok ==> OnRoads(g.Value(), path) && path[0] == here && path[|path| - 1] == dst
      ensures ok <==> here == dst || Reachable(QueryOf(g, here, dst, weights))
      ensures ok && |path| > 1 <==> Routable(here, dst)
    {
      hide OnRoads, SpeedsWithin, AtMost, Returns, Visits, Walk;
      var distM, durS;
      ghost var route;
      path, distM, durS, ok, route := AStar.AStar(g, here, dst, weights, 1.0);
      if ok {
        VisitsAreOnRoads(g.Value(), weights, here, route, dst);
      }
      ReachableIsKnown(QueryOf(g, here, dst, weights));
    }

    /** Puts an actor on a new track that starts at its current segment. */
    method SetOut(a: Actor, path: seq<NodeId>)
      requires ActorOk(a) && OnRoads(g.Value(), path) && path[0] == a.track.nodes[a.seg]
      modifies a
      ensures ActorOk(a) && a.At() == Place(0, 0.0) && a.track == Route(path)
      ensures old(a.Arrived()) ==> a.LatLng() == old(a.LatLng())
    {
      hide Joined;
      a.SetTrack(path);
      StartOfTrack(g, a);
    }

    /** Draws up to eight destinations until one is routable and sets out for it; otherwise changes nothing. */
    method Roam(a: Actor) returns (ghost draws: seq<NodeId>)
      requires GraphOk() && ActorOk(a) && nodeIds != []
      modifies a
      ensures ActorOk(a)
      ensures 0 < |draws| <= 8 && forall i :: 0 <= i < |draws| - 1 ==> !Routable(old(a.track.nodes[a.seg]), draws[i])
      ensures var here, dst := old(a.track.nodes[a.seg]), draws[|draws| - 1];
              if Routable(here, dst) then
                a.At() == Place(0, 0.0) && a.track.nodes[0] == here && a.track.nodes[|a.track.nodes| - 1] == dst
              else |draws| == 8 && a.At() == old(a.At()) && a.track == old(a.track)
      ensures old(a.Arrived()) ==> a.LatLng() == old(a.LatLng())
    {
      hide Routable, OnRoads, ActorOk, GraphOk;
      HereOk(a);
      var here := a.track.nodes[a.seg];
      draws := [];
      for i := 0 to 8
        invariant ActorOk(a) && a.track == old(a.track) && a.At() == old(a.At())
        invariant |draws| == i && forall k :: 0 <= k < i ==> !Routable(here, draws[k])
      {
        var draw :| 0 <= draw < |nodeIds|;
        var dst := nodeIds[draw];
        draws := draws + [dst];
        var path, ok := Plan(here, dst);
        if ok && |path| > 1 {
          SetOut(a, path);
          return;
        }
      }
    }

    /** A new actor resting at a node, given an initial roam track. */
    method Spawn(id: string, startNode: NodeId) returns (a: Actor, cell: Cell)
      requires GraphOk() && nodeIds != []
      ensures fresh(a) && a.id == id && ActorOk(a) && cell == CellOf(a)
      ensures cell == cellAt(RoadGraph.At(g.nodes, startNode))
    {
      a := new Actor(id, g, Route([startNode]));
      assert ActorOk(a);
      cell := CellOf(a);
      ghost var draws := Roam(a);
    }

    /** Places a new actor, or replaces one, and records its cell; a start node the graph lacks is at the origin. */
    method Add(id: string, startNode: NodeId)
      requires Valid() && nodeIds != []
      modifies this`actors, this`lastCell, this`log
      ensures Valid() && GraphOk()
      ensures actors.Keys == old(actors).Keys + {id} && fresh(actors[id])
      ensures forall j :: j in old(actors) && j != id ==> actors[j] == old(actors)[j]
      ensures lastCell == old(lastCell)[id := cellAt(if startNode in g.nodes then g.nodes[startNode].at
                                                     else Point(0.0, 0.0))]
      ensures log == old(log) + [Added(id, lastCell[id])]
      ensures lastCell[id] == CellOf(actors[id])
    {
      hide ActorOk, GraphOk, CellOf, Replay, OnRoads, Routable, SpeedsWithin;
      var a, cell := Spawn(id, startNode);
      ReplayOne(log, Added(id, cell));
      actors := actors[id := a];
      lastCell := lastCell[id := cell];
      log := log + [Added(id, cell)];
    }

    /** Puts the actor on a planned track from the start of its current segment, if there is a route to dst. */
    method Redirect(a: Actor, dst: NodeId)
      requires GraphOk() && ActorOk(a)
      modifies a
      ensures ActorOk(a)
      ensures if old(a.track.nodes[a.seg]) == dst || Reachable(QueryOf(g, old(a.track.nodes[a.seg]), dst, weights)) then
                && a.At() == Place(0, 0.0) && a.track.nodes[0] == old(a.track.nodes[a.seg])
                && a.track.nodes[|a.track.nodes| - 1] == dst
              else a.At() == old(a.At()) && a.track == old(a.track)
    {
      HereOk(a);
      var path, ok := Plan(a.track.nodes[a.seg], dst);
      if ok {
        a.SetTrack(path);
      }
    }

    /** Redirects the named actor, keeping its last recorded cell; an unknown name changes nothing. */
    method SetTarget(id: string, dst: NodeId)
      requires Valid()
      modifies if id in actors then {actors[id]} else {}
      ensures Valid()
      ensures id in actors ==>
                var a, here := actors[id], old(actors[id].track.nodes[actors[id].seg]);
                if here == dst || Reachable(QueryOf(g, here, dst, weights)) then
                  a.At() == Place(0, 0.0) && a.track.nodes[0] == here && a.track.nodes[|a.track.nodes| - 1] == dst
                else a.At() == old(actors[id].At()) && a.track == old(actors[id].track)
    {
      hide ActorOk, GraphOk, Reachable;
      if id !in actors {
        return;
      }
      HereOk(actors[id]);
      Redirect(actors[id], dst);
    }

    /** The speed the current weights give an actor on its current segment; nothing once it has arrived. */
    ghost function Speed(a: Actor): real
      requires ActorOk(a)
      reads this`weights, a, g
    {
      if a.Arrived() then 0.0
      else SpeedAmong(g.Value(), weights, Out(g.adj, a.track.nodes[a.seg]), a.track.nodes[a.seg + 1])
    }

    /** Where dt seconds at that speed lead along the actor's track. */
    ghost function Landing(a: Actor, dt: real): Place
      requires ActorOk(a)
      reads this`weights, a, g
    {
      End(a.Lens(), a.At(), Times(dt, Speed(a)))
    }

    /** The actor is at the landing place on its track, or at the track's last node, where it may start a new track. */
    ghost predicate Moved(a: Actor, landing: Place, track: Track)
      requires ActorOk(a)
      reads a, g
    {
      && track.Route? && track.nodes != []
      && if landing.seg < |track.nodes| - 1 then a.At() == landing && a.track == track
         else a.LatLng() == RoadGraph.At(g.nodes, track.nodes[|track.nodes| - 1])
    }

    lemma StillOnTrack(a: Actor)
      requires ActorOk(a)
      ensures Moved(a, a.At(), a.track)
      ensures a.Arrived() ==> a.LatLng() == RoadGraph.At(g.nodes, a.track.nodes[|a.track.nodes| - 1])
    {
    }

    lemma LandedAtEnd(a: Actor, landing: Place, track: Track)
      requires ActorOk(a) && track.Route? && track.nodes != [] && landing.seg >= |track.nodes| - 1
      requires a.LatLng() == RoadGraph.At(g.nodes, track.nodes[|track.nodes| - 1])
      ensures Moved(a, landing, track)
    {
    }

    method CurrentSpeed(a: Actor) returns (r: real)
      requires GraphOk() && ActorOk(a)
      ensures r == Speed(a)
    {
      hide OnRoads, SpeedAmong;
      r := EdgeSpeed(g, weights, a);
    }

    /** Moves an actor along its track at its current edge speed. */
    method Drive(a: Actor, dt: real)
      requires GraphOk() && ActorOk(a)
      modifies a`seg, a`frac
      ensures ActorOk(a) && a.At() == old(Landing(a, dt))
    {
      hide OnRoads, Speed, End, Times, OnTrack, GraphOk;
      var ei := CurrentSpeed(a);
      a.Advance(dt, ei);
    }

    /** Moves an actor, and lets it roam once it has arrived. */
    method MoveActor(a: Actor, dt: real)
      requires GraphOk() && ActorOk(a) && nodeIds != []
      modifies a
      ensures ActorOk(a) && Moved(a, old(Landing(a, dt)), old(a.track))
    {
      hide Landing, Moved, GraphOk, OnRoads;
      ghost var landing, track := Landing(a, dt), a.track;
      Drive(a, dt);
      StillOnTrack(a);
      if a.Arrived() {
        ghost var draws := Roam(a);
        LandedAtEnd(a, landing, track);
      }
    }

    method MoveOne(id: string, dt: real)
      requires Valid() && id in actors
      modifies actors[id]
      ensures Valid() && Moved(actors[id], old(Landing(actors[id], dt)), old(actors[id].track))
    {
      hide ActorOk, GraphOk, CellOf, Moved, Landing, Replay;
      MoveActor(actors[id], dt);
    }

    /** Records and reports a changed cell. */
    method Note(id: string)
      requires Valid() && id in actors
      modifies this`lastCell, this`log
      ensures Valid() && lastCell == old(lastCell)[id := CellOf(actors[id])]
      ensures log == if listening && lastCell != old(lastCell) then old(log) + [Changed(id, lastCell[id])] else old(log)
    {
      hide ActorOk, GraphOk, CellOf;
      var c := CellOf(actors[id]);
      if c != lastCell[id] {
        lastCell := lastCell[id := c];
        if listening {
          ReplayOne(log, Changed(id, c));
          log := log + [Changed(id, c)];
        }
      }
    }

    /** One actor's share of a tick: move, then record and report a changed cell. */
    method TickActor(id: string, dt: real)
      requires Valid() && id in actors
      modifies this`lastCell, this`log, actors[id]
      ensures Valid() && Moved(actors[id], old(Landing(actors[id], dt)), old(actors[id].track))
      ensures lastCell == old(lastCell)[id := CellOf(actors[id])] && CellOfProgress(lastCell[id], actors[id])
      ensures log == if listening && lastCell != old(lastCell) then old(log) + [Changed(id, lastCell[id])] else old(log)
    {
      hide ActorOk, GraphOk, CellOf, CellOfProgress, Moved, Landing, Replay;
      MoveOne(id, dt);
      Note(id);
      CellIsOfProgress(actors[id]);
    }

    /** The actors of todo have not moved yet: the goals are still where they will land. */
    ghost predicate Waiting(todo: set<string>, goals: map<string, Goal>, dt: real)
      requires Valid()
      reads this, g, actors.Values
    {
      forall id :: id in todo && id in actors ==>
        id in goals && goals[id] == Goal(Landing(actors[id], dt), actors[id].track)
    }

    /** All other actors have moved, and their recorded cells are current. */
    ghost predicate Settled(todo: set<string>, goals: map<string, Goal>)
      requires Valid()
      reads this, g, actors.Values
    {
      forall id :: id in actors && id !in todo ==>
        && id in goals && Moved(actors[id], goals[id].landing, goals[id].track)
        && lastCell[id] == CellOf(actors[id])
    }

    method TickOne(id: string, dt: real, ghost todo: set<string>, ghost goals: map<string, Goal>)
      requires Valid() && id in actors && id in todo && Waiting(todo, goals, dt) && Settled(todo, goals)
      modifies this`lastCell, this`log, actors[id]
      ensures Valid() && Waiting(todo - {id}, goals, dt) && Settled(todo - {id}, goals)
      ensures old(log) <= log
    {
      hide ActorOk, GraphOk, CellOf, CellOfProgress, Replay, Moved, Landing;
      TickActor(id, dt);
    }

    /** Where every actor will land in dt seconds. */
    ghost function Goals(dt: real): map<string, Goal>
      requires Valid()
      reads this, g, actors.Values
    {
      map id | id in actors :: Goal(Landing(actors[id], dt), actors[id].track)
    }

    /** Moves every actor for dt seconds, in any order; afterwards every recorded cell is current. */
    method Tick(dt: real)
      requires Valid()
      modifies this`lastCell, this`log, actors.Values
      ensures Valid() && Settled({}, old(Goals(dt)))
      ensures CellsCurrent() && (listening ==> Replay(log) == lastCell)
      ensures forall id :: id in actors ==> CellOfProgress(lastCell[id], actors[id])
      ensures old(log) <= log
    {
      hide ActorOk, GraphOk, CellOf, CellOfProgress, Replay, Moved, Landing;
      ghost var goals := Goals(dt);
      var todo := actors.Keys;
      while todo != {}
        invariant todo <= actors.Keys && Valid()
        invariant Waiting(todo, goals, dt) && Settled(todo, goals)
        invariant old(log) <= log
        decreases todo
      {
        hide Waiting, Settled;
        var id :| id in todo;
        TickOne(id, dt, todo, goals);
        todo := todo - {id};
      }
      forall id | id in actors
        ensures CellOfProgress(lastCell[id], actors[id])
      {
        CellIsOfProgress(actors[id]);
      }
    }
  }

  /** Where an actor will land, and on which track. */
  datatype Goal = Goal(landing: Place, track: Track)

  /** A fresh track starts at its first node. */
  lemma StartOfTrack(g: Graph, a: Actor)
    requires a.g == g && a.Valid() && a.track.Route? && a.track.nodes != [] && a.At() == Place(0, 0.0)
    ensures a.LatLng() == RoadGraph.At(g.nodes, a.track.nodes[0])
  {
    if |a.track.nodes| > 1 {
      var p, q := RoadGraph.At(g.nodes, a.track.nodes[0]), RoadGraph.At(g.nodes, a.track.nodes[1]);
      assert (q.lat - p.lat) * 0.0 == 0.0 && (q.lon - p.lon) * 0.0 == 0.0;
    }
  }
}
