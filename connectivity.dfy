/**
 * Restriction of the street network to its largest strongly connected
 * component (src/analyzer.py:14-16), so that every node the analysis keeps can
 * be walked to and back from every other.
 */
module Connectivity {
  import opened StreetGraph

  /** A set that holds the tail of an edge of es holds its head too. */
  ghost predicate Closed(es: seq<Edge>, r: set<Node>) {
    forall e :: e in es && e.u in r ==> e.v in r
  }

  lemma {:induction false} ClosedHoldsWalks(es: seq<Edge>, r: set<Node>, p: seq<Edge>, a: Node, b: Node)
    requires Closed(es, r) && a in r && IsPath(es, p, a, b)
    ensures b in r
    decreases |p|
  {
    if p != [] {
      ClosedHoldsWalks(es, r, p[..|p| - 1], a, p[|p| - 1].u);
    }
  }

  /** The nodes one edge of es leads to from u. */
  function Successors(es: seq<Edge>, u: Node): set<Node> {
    set e | e in es && e.u == u :: e.v
  }

  lemma ReachesStep(es: seq<Edge>, s: Node, e: Edge)
    requires e in es && Reaches(es, s, e.u)
    ensures Reaches(es, s, e.v)
  {
    var p :| IsPath(es, p, s, e.u);
    assert (p + [e])[..|p|] == p;
    assert IsPath(es, p + [e], s, e.v);
  }

  /** Worklist search: the nodes reachable from s along any edges, whatever their cost. */
  method ReachableFrom(es: seq<Edge>, s: Node) returns (r: set<Node>)
    ensures forall n :: n in r <==> Reaches(es, s, n)
  {
    ghost var universe := {s} + Targets(es);
    assert IsPath(es, [], s, s);
    r := {s};
    var work := {s};
    while work != {}
      invariant work <= r <= universe
      invariant forall n :: n in r ==> Reaches(es, s, n)
      invariant forall e :: e in es && e.u in r && e.u !in work ==> e.v in r
      decreases universe - r, work
    {
      var u :| u in work;
      var next := Successors(es, u) - r;
      forall v | v in next
        ensures Reaches(es, s, v)
      {
        var e :| e in es && e.u == u && e.v == v;
        ReachesStep(es, s, e);
      }
      r := r + next;
      work := (work - {u}) + next;
    }
    forall n | Reaches(es, s, n)
      ensures n in r
    {
      var p :| IsPath(es, p, s, n);
      ClosedHoldsWalks(es, r, p, s, n);
    }
  }

  /** The strongly connected component of n: the nodes n reaches and that reach n. */
  ghost function Component(g: Graph, n: Node): set<Node> {
    set m | m in g.nodes && Reaches(g.edges, n, m) && Reaches(g.edges, m, n)
  }

  /** c is the component of some node, and no node's component is larger. */
  ghost predicate IsLargestComponent(g: Graph, c: set<Node>) {
    && (exists n :: n in g.nodes && c == Component(g, n))
    && (forall m :: m in g.nodes ==> |Component(g, m)| <= |c|)
  }

  /** `max(nx.strongly_connected_components(graph), key=len)`: the first
      component of maximal size, components taken in the order of their first
      node; `max` of no components is an error, here the empty set. */
  method LargestComponent(g: Graph) returns (c: set<Node>)
    ensures g.nodes == [] ==> c == {}
    ensures g.nodes != [] ==> IsLargestComponent(g, c)
  {
    var reach: map<Node, set<Node>> := map[];
    for i := 0 to |g.nodes|
      invariant forall n :: n in reach <==> n in g.nodes[..i]
      invariant forall n, m :: n in reach ==> (m in reach[n] <==> Reaches(g.edges, n, m))
    {
      var r := ReachableFrom(g.edges, g.nodes[i]);
      reach := reach[g.nodes[i] := r];
    }
    assert g.nodes[..|g.nodes|] == g.nodes;
    c := {};
    for i := 0 to |g.nodes|
      invariant i == 0 ==> c == {}
      invariant i > 0 ==> exists k :: 0 <= k < i && c == Component(g, g.nodes[k])
      invariant forall k :: 0 <= k < i ==> |Component(g, g.nodes[k])| <= |c|
    {
      var n := g.nodes[i];
      var comp := set m | m in g.nodes && m in reach[n] && n in reach[m];
      assert comp == Component(g, n);
      if i == 0 || |comp| > |c| {
        c := comp;
      }
    }
  }

  /** Any two nodes of one component reach each other. */
  lemma ComponentMutuallyReachable(g: Graph, n: Node, a: Node, b: Node)
    requires a in Component(g, n) && b in Component(g, n)
    ensures Reaches(g.edges, a, b) && Reaches(g.edges, b, a)
  {
    ReachesTransitive(g.edges, a, n, b);
    ReachesTransitive(g.edges, b, n, a);
  }

  /** Components partition the nodes: a member's component is the same component. */
  lemma ComponentOfMember(g: Graph, n: Node, m: Node)
    requires m in Component(g, n)
    ensures Component(g, m) == Component(g, n)
  {
    forall x | x in Component(g, m)
      ensures x in Component(g, n)
    {
      ReachesTransitive(g.edges, n, m, x);
      ReachesTransitive(g.edges, x, m, n);
    }
    forall x | x in Component(g, n)
      ensures x in Component(g, m)
    {
      ReachesTransitive(g.edges, m, n, x);
      ReachesTransitive(g.edges, x, n, m);
    }
  }

  /** Every node on a walk between two members of a component is itself a
      member, so the walk survives the restriction to the component. */
  lemma ComponentWalkStaysInside(g: Graph, n: Node, a: Node, b: Node, p: seq<Edge>)
    requires WellFormed(g)
    requires a in Component(g, n) && b in Component(g, n) && IsPath(g.edges, p, a, b)
    ensures IsPath(InducedSubgraph(g, Component(g, n)).edges, p, a, b)
  {
    var c := Component(g, n);
    PathEdgesIn(g.edges, p, a, b);
    forall e | e in p
      ensures e.u in c && e.v in c
    {
      var k :| 0 <= k < |p| && p[k] == e;
      WalkEdgeEnds(g.edges, p, a, b, k);
      ReachesTransitive(g.edges, n, a, e.u);
      ReachesTransitive(g.edges, e.u, b, n);
      ReachesTransitive(g.edges, n, a, e.v);
      ReachesTransitive(g.edges, e.v, b, n);
    }
    PathInSubset(g.edges, InducedSubgraph(g, c).edges, p, a, b);
  }

  /** The graph the analysis continues with is strongly connected: any two of
      its nodes reach each other along its own edges. */
  lemma ComponentSubgraphStronglyConnected(g: Graph, c: set<Node>, a: Node, b: Node)
    requires WellFormed(g) && IsLargestComponent(g, c)
    requires a in InducedSubgraph(g, c).nodes && b in InducedSubgraph(g, c).nodes
    ensures Reaches(InducedSubgraph(g, c).edges, a, b)
  {
    var n :| n in g.nodes && c == Component(g, n);
    ComponentMutuallyReachable(g, n, a, b);
    var p :| IsPath(g.edges, p, a, b);
    ComponentWalkStaysInside(g, n, a, b, p);
  }
}
