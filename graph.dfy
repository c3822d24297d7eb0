/**
 * The walking street network as a directed multigraph: nodes are OpenStreetMap
 * node ids, edges carry the attributes the accessibility analysis reads
 * (src/analyzer.py), and parallel edges are told apart by their key.
 */
module StreetGraph {
  import opened Wrappers
  import opened Sequences

  type Node = int

  /** An OpenStreetMap tag on an edge: absent, one value, or the list of values
      left behind when several differently tagged segments were merged. */
  datatype Tag = Absent | Value(text: string) | Values(texts: seq<string>)

  /** Accessibility cost of an edge: a finite number of metres, or impassable. */
  datatype Cost = Fin(r: real) | Inf

  /** A directed edge (u, v, key) with its length in metres, its `highway` and
      `sidewalk` tags and the `accessibility_cost` attribute, absent until the
      cost annotation writes it. */
  datatype Edge = Edge(u: Node, v: Node, key: nat, length: real,
                       highway: Tag, sidewalk: Tag, accessibilityCost: Option<Cost>)

  /** Nodes in iteration order, the `kerb` tag of the nodes that carry one, and
      the edges, parallel edges included. */
  datatype Graph = Graph(nodes: seq<Node>, kerb: map<Node, string>, edges: seq<Edge>)

  /** What the map data source guarantees: every edge joins two nodes of the
      graph and has a non-negative length. */
  predicate WellFormed(g: Graph) {
    forall e :: e in g.edges ==> e.u in g.nodes && e.v in g.nodes && e.length >= 0.0
  }

  /** The nodes an edge of es leads to. */
  function Targets(es: seq<Edge>): set<Node> {
    set e | e in es :: e.v
  }

  function Add(a: Cost, b: Cost): Cost {
    if a.Fin? && b.Fin? then Fin(a.r + b.r) else Inf
  }

  /** The weight shortest paths use: the annotated cost, or 1 for an edge that
      has no `accessibility_cost` attribute (the networkx default). */
  function Weight(e: Edge): Cost {
    match e.accessibilityCost
    case Some(c) => c
    case None => Fin(1.0)
  }

  /** p is a walk from a to b along edges of es. */
  predicate IsPath(es: seq<Edge>, p: seq<Edge>, a: Node, b: Node)
    decreases |p|
  {
    if p == [] then a == b
    else
      var last := p[|p| - 1];
      last in es && last.v == b && IsPath(es, p[..|p| - 1], a, last.u)
  }

  /** Sum of the weights along p; one impassable edge makes the whole walk impassable. */
  function PathCost(p: seq<Edge>): Cost
    decreases |p|
  {
    if p == [] then Fin(0.0) else Add(PathCost(p[..|p| - 1]), Weight(p[|p| - 1]))
  }

  ghost predicate Reaches(es: seq<Edge>, a: Node, b: Node) {
    exists p :: IsPath(es, p, a, b)
  }

  lemma {:induction false} PathAppend(es: seq<Edge>, p: seq<Edge>, q: seq<Edge>, a: Node, b: Node, c: Node)
    requires IsPath(es, p, a, b) && IsPath(es, q, b, c)
    ensures IsPath(es, p + q, a, c)
    decreases |q|
  {
    if q == [] {
      assert p + q == p;
    } else {
      var last := q[|q| - 1];
      PathAppend(es, p, q[..|q| - 1], a, b, last.u);
      assert (p + q)[..|p + q| - 1] == p + q[..|q| - 1];
    }
  }

  lemma ReachesTransitive(es: seq<Edge>, a: Node, b: Node, c: Node)
    requires Reaches(es, a, b) && Reaches(es, b, c)
    ensures Reaches(es, a, c)
  {
    var p :| IsPath(es, p, a, b);
    var q :| IsPath(es, q, b, c);
    PathAppend(es, p, q, a, b, c);
  }

  /** The walk up to edge k ends where edge k starts. */
  lemma {:induction false} PathPrefix(es: seq<Edge>, p: seq<Edge>, a: Node, b: Node, k: nat)
    requires IsPath(es, p, a, b) && k < |p|
    ensures IsPath(es, p[..k], a, p[k].u)
    decreases |p|
  {
    if k < |p| - 1 {
      var init := p[..|p| - 1];
      PathPrefix(es, init, a, p[|p| - 1].u, k);
      assert init[..k] == p[..k];
    }
  }

  /** The walk from edge k on starts where edge k starts. */
  lemma {:induction false} PathSuffix(es: seq<Edge>, p: seq<Edge>, a: Node, b: Node, k: nat)
    requires IsPath(es, p, a, b) && k < |p|
    ensures IsPath(es, p[k..], p[k].u, b)
    decreases |p|
  {
    var last := p[|p| - 1];
    if k == |p| - 1 {
      assert p[k..] == [last];
      assert p[k..][..0] == [];
    } else {
      var init := p[..|p| - 1];
      PathSuffix(es, init, a, last.u, k);
      assert p[k..][..|p[k..]| - 1] == init[k..];
    }
  }

  /** A walk uses only edges of the graph it walks in. */
  lemma {:induction false} PathEdgesIn(es: seq<Edge>, p: seq<Edge>, a: Node, b: Node)
    requires IsPath(es, p, a, b)
    ensures forall e :: e in p ==> e in es
    decreases |p|
  {
    if p != [] {
      var init := p[..|p| - 1];
      PathEdgesIn(es, init, a, p[|p| - 1].u);
      assert p == init + [p[|p| - 1]];
    }
  }

  /** Both ends of every edge of a walk from a to b are reached from a and reach b. */
  lemma WalkEdgeEnds(es: seq<Edge>, p: seq<Edge>, a: Node, b: Node, k: nat)
    requires IsPath(es, p, a, b) && k < |p|
    ensures Reaches(es, a, p[k].u) && Reaches(es, p[k].u, b)
    ensures Reaches(es, a, p[k].v) && Reaches(es, p[k].v, b)
  {
    PathPrefix(es, p, a, b, k);
    PathSuffix(es, p, a, b, k);
    if k + 1 < |p| {
      PathPrefix(es, p, a, b, k + 1);
      PathSuffix(es, p, a, b, k + 1);
    } else {
      assert p[..k + 1] == p;
      assert IsPath(es, [], b, b);
    }
  }

  /** A walk all of whose edges belong to fs is a walk in fs. */
  lemma {:induction false} PathInSubset(es: seq<Edge>, fs: seq<Edge>, p: seq<Edge>, a: Node, b: Node)
    requires IsPath(es, p, a, b)
    requires forall e :: e in p ==> e in fs
    ensures IsPath(fs, p, a, b)
    decreases |p|
  {
    if p != [] {
      var init := p[..|p| - 1];
      assert forall e :: e in init ==> e in p;
      PathInSubset(es, fs, init, a, p[|p| - 1].u);
    }
  }

  function FilterNodes(ns: seq<Node>, keep: set<Node>): (r: seq<Node>)
    ensures forall n :: n in r <==> n in ns && n in keep
    ensures |r| <= |ns|
  {
    if ns == [] then []
    else FilterNodes(ns[..|ns| - 1], keep) + (if ns[|ns| - 1] in keep then [ns[|ns| - 1]] else [])
  }

  /** The edges of es with both ends in keep, each as often as in es, in the order of es. */
  function FilterEdges(es: seq<Edge>, keep: set<Node>): (r: seq<Edge>)
    ensures forall e :: e in r <==> e in es && e.u in keep && e.v in keep
    ensures forall e :: multiset(r)[e] == if e.u in keep && e.v in keep then multiset(es)[e] else 0
    ensures |r| <= |es|
  {
    if es == [] then []
    else
      var e := es[|es| - 1];
      SplitLast(es);
      FilterEdges(es[..|es| - 1], keep) + (if e.u in keep && e.v in keep then [e] else [])
  }

  /** Filtering keeps the order: filtering a concatenation concatenates the
      filtered parts, so together with the one-edge case it fixes the result. */
  lemma {:induction false} FilterEdgesAppend(a: seq<Edge>, b: seq<Edge>, keep: set<Node>)
    ensures FilterEdges(a + b, keep) == FilterEdges(a, keep) + FilterEdges(b, keep)
    decreases |b|
  {
    if b == [] {
      assert a + b == a;
    } else {
      var init, x := b[..|b| - 1], b[|b| - 1];
      var tail := if x.u in keep && x.v in keep then [x] else [];
      SplitLastOfAppend(a, b);
      FilterEdgesAppend(a, init, keep);
      calc {
        FilterEdges(a + b, keep);
        FilterEdges(a + init, keep) + tail;
        FilterEdges(a, keep) + FilterEdges(init, keep) + tail;
        { AppendAssoc(FilterEdges(a, keep), FilterEdges(init, keep), tail); }
        FilterEdges(a, keep) + (FilterEdges(init, keep) + tail);
        FilterEdges(a, keep) + FilterEdges(b, keep);
      }
    }
  }

  /** networkx's `subgraph(keep)`: the kept nodes with their attributes and every
      edge, parallel ones included, whose two ends are both kept. */
  function InducedSubgraph(g: Graph, keep: set<Node>): (h: Graph)
    ensures forall n :: n in h.nodes <==> n in g.nodes && n in keep
    ensures forall e :: e in h.edges <==> e in g.edges && e.u in keep && e.v in keep
    ensures forall e :: multiset(h.edges)[e] == if e.u in keep && e.v in keep then multiset(g.edges)[e] else 0
    ensures forall n :: n in h.kerb <==> n in g.kerb && n in keep
    ensures forall n :: n in h.kerb ==> h.kerb[n] == g.kerb[n]
    ensures WellFormed(g) ==> WellFormed(h)
  {
    Graph(FilterNodes(g.nodes, keep),
          map n | n in g.kerb && n in keep :: g.kerb[n],
          FilterEdges(g.edges, keep))
  }
}
