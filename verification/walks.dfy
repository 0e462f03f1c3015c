/** Walks over open edges: the routes a shortest-path search ranges over. */
module Walks {
  import opened RoadGraph

  /** es is a list of open edges leading from a to b. */
  ghost predicate Walk(net: Net, w: seq<Weight>, a: NodeId, es: seq<nat>, b: NodeId)
    requires |w| == |net.edges|
  {
    if es == [] then a == b
    else
      var e := es[|es| - 1];
      && e < |w| && w[e].Fin? && net.edges[e].to == b
      && Walk(net, w, a, es[..|es| - 1], net.edges[e].from)
  }

  function Seconds(w: seq<Weight>, e: nat): real
  {
    if e < |w| && w[e].Fin? then w[e].sec else 0.0
  }

  function Time(w: seq<Weight>, es: seq<nat>): real
  {
    if es == [] then 0.0 else Time(w, es[..|es| - 1]) + Seconds(w, es[|es| - 1])
  }

  function EdgeLength(net: Net, e: nat): real
  {
    if e < |net.edges| then net.edges[e].lenM else 0.0
  }

  function Length(net: Net, es: seq<nat>): real
  {
    if es == [] then 0.0 else Length(net, es[..|es| - 1]) + EdgeLength(net, es[|es| - 1])
  }

  /** The nodes a walk visits, its start included. */
  function Visits(net: Net, a: NodeId, es: seq<nat>): (path: seq<NodeId>)
    ensures |path| == |es| + 1
  {
    if es == [] then [a]
    else
      var e := es[|es| - 1];
      Visits(net, a, es[..|es| - 1]) + [if e < |net.edges| then net.edges[e].to else 0]
  }

  ghost predicate NonNegative(w: seq<Weight>)
  {
    forall i :: 0 <= i < |w| && w[i].Fin? ==> 0.0 <= w[i].sec
  }

  lemma {:induction false} TimeNonNegative(w: seq<Weight>, es: seq<nat>)
    requires NonNegative(w)
    ensures 0.0 <= Time(w, es)
  {
    if es != [] {
      TimeNonNegative(w, es[..|es| - 1]);
    }
  }

  /** Putting an edge in front of a walk. */
  lemma {:induction false} Prepend(net: Net, w: seq<Weight>, e: nat, es: seq<nat>, b: NodeId)
    requires |w| == |net.edges| && e < |w| && w[e].Fin? && Walk(net, w, net.edges[e].to, es, b)
    ensures Walk(net, w, net.edges[e].from, [e] + es, b)
    ensures Time(w, [e] + es) == w[e].sec + Time(w, es)
    ensures Length(net, [e] + es) == net.edges[e].lenM + Length(net, es)
    ensures Visits(net, net.edges[e].from, [e] + es) == [net.edges[e].from] + Visits(net, net.edges[e].to, es)
  {
    if es == [] {
      assert [e] + es == [e] && [e][..0] == [];
      assert Visits(net, net.edges[e].from, []) == [net.edges[e].from];
    } else {
      var last := es[|es| - 1];
      Prepend(net, w, e, es[..|es| - 1], net.edges[last].from);
      assert ([e] + es)[..|es|] == [e] + es[..|es| - 1];
    }
  }

  /** Appending an edge to a walk. */
  lemma Extend(net: Net, w: seq<Weight>, a: NodeId, es: seq<nat>, e: nat)
    requires |w| == |net.edges| && e < |w| && w[e].Fin? && Walk(net, w, a, es, net.edges[e].from)
    ensures Walk(net, w, a, es + [e], net.edges[e].to)
    ensures Time(w, es + [e]) == Time(w, es) + w[e].sec
  {
    assert (es + [e])[..|es|] == es;
  }

  lemma {:induction false} Concat(net: Net, w: seq<Weight>, a: NodeId, p: seq<nat>, b: NodeId, q: seq<nat>, c: NodeId)
    requires |w| == |net.edges| && Walk(net, w, a, p, b) && Walk(net, w, b, q, c)
    ensures Walk(net, w, a, p + q, c)
    ensures Time(w, p + q) == Time(w, p) + Time(w, q)
  {
    if q == [] {
      assert p + q == p;
    } else {
      var e := q[|q| - 1];
      Concat(net, w, a, p, b, q[..|q| - 1], net.edges[e].from);
      assert (p + q)[..|p + q| - 1] == p + q[..|q| - 1];
    }
  }

  /** In a well-formed graph a non-empty walk ends at a known node. */
  lemma WalkEndKnown(net: Net, w: seq<Weight>, a: NodeId, es: seq<nat>, b: NodeId)
    requires |w| == |net.edges| && WellFormed(net) && Walk(net, w, a, es, b) && es != []
    ensures b in net.nodes
  {
  }
}
