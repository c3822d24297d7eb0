/**
 * `analyze_stop_accessibility` (src/analyzer.py:8-69): reduce the downloaded
 * walking network to its largest strongly connected component, annotate the
 * accessibility costs, search the nodes within 400 cost units of the start
 * node, and report the reachable area, the isolation index and the barrier
 * density, or an all-zero result carrying the error message.
 */
module Analyzer {
  import opened Wrappers
  import opened StreetGraph
  import opened Connectivity
  import opened CostAnnotation
  import opened EgoGraph
  import opened Metrics

  /** The analysis radius: the download distance, the cost budget of the
      search and the radius of the ideal disk. */
  const AnalysisRadiusMeters: real := 400.0

  /** The result record; `error` is None on success. */
  datatype AnalysisResult = AnalysisResult(reachableArea: real, isolationIndex: real,
                                           barrierDensity: real, error: Option<string>)

  /** `max` of an empty iterable raises this in Python 3.11 and earlier;
      Python 3.12 words it "max() iterable argument is empty". */
  const EmptyComponents: string := "max() arg is an empty sequence"
  const NoAccessibleNodes: string := "No accessible nodes found."

  /** The record every caught exception becomes. */
  function Failure(message: string): (r: AnalysisResult)
    ensures r.error == Some(message) && WellShaped(r)
  {
    AnalysisResult(0.0, 0.0, 0.0, Some(message))
  }

  /** Either a success with three non-negative figures, or an error with three zeros. */
  predicate WellShaped(r: AnalysisResult) {
    || (r.error.None? && r.reachableArea >= 0.0 && r.isolationIndex >= 0.0 && r.barrierDensity >= 0.0)
    || (r.error.Some? && r.reachableArea == 0.0 && r.isolationIndex == 0.0 && r.barrierDensity == 0.0)
  }

  /** The annotated working graph: the induced subgraph on `keep` with every
      edge's accessibility cost written, the kerb column taken from its own nodes. */
  function WorkingGraph(g: Graph, keep: set<Node>): Graph {
    var h := InducedSubgraph(g, keep);
    Graph(h.nodes, h.kerb, AnnotateAll(h.edges, KerbColumn(h)))
  }

  /** src/analyzer.py:37-61: from the reachable nodes, the outcome of the hull
      area computation and the working graph's edges to the result record. */
  function Summarize(reachable: set<Node>, hull: Outcome<real>, es: seq<Edge>): (r: AnalysisResult)
    ensures reachable == {} ==> r == Failure(NoAccessibleNodes)
    ensures reachable != {} && hull.Raised? ==> r == Failure(hull.message)
    ensures reachable != {} && hull.Ok? ==>
              && r.error == None && r.reachableArea == hull.value
              && r.isolationIndex * IdealArea(AnalysisRadiusMeters) == hull.value
              && (TotalLengthKm(es) > 0.0 ==> r.barrierDensity * TotalLengthKm(es) == BarrierCount(es) as real)
              && (TotalLengthKm(es) <= 0.0 ==> r.barrierDensity == 0.0)
    ensures (hull.Ok? ==> hull.value >= 0.0) ==> WellShaped(r)
  {
    if reachable == {} then Failure(NoAccessibleNodes)
    else if hull.Raised? then Failure(hull.message)
    else AnalysisResult(hull.value, IsolationIndex(hull.value, AnalysisRadiusMeters), BarrierDensity(es), None)
  }

  /** Annotated costs are impassable or at least the (non-negative) length. */
  lemma AnnotatedWeightsNonNegative(es: seq<Edge>, column: Option<map<Node, Option<string>>>)
    requires forall e :: e in es ==> e.length >= 0.0
    ensures NonNegativeWeights(AnnotateAll(es, column))
  {
    AnnotationPreservesEdges(es, column);
    forall e | e in AnnotateAll(es, column)
      ensures Weight(e).Inf? || Weight(e).r >= 0.0
    {
      var i :| 0 <= i < |es| && AnnotateAll(es, column)[i] == e;
      assert es[i] in es;
    }
  }

  /** The set of nodes a node table lists. */
  function NodeSet(ns: seq<Node>): (r: set<Node>)
    ensures forall n :: n in r <==> n in ns
  {
    set n | n in ns
  }

  /** A component contains the node it is the component of, and the subgraph
      on it lists exactly its nodes. */
  lemma ComponentNotEmpty(g: Graph, c: set<Node>)
    requires IsLargestComponent(g, c)
    ensures c != {} && c <= NodeSet(g.nodes)
    ensures NodeSet(InducedSubgraph(g, c).nodes) == c
  {
    var n :| n in g.nodes && c == Component(g, n);
    assert IsPath(g.edges, [], n, n);
    assert n in c;
    var ns := InducedSubgraph(g, c).nodes;
    assert forall m :: m in NodeSet(ns) <==> m in g.nodes && m in c;
  }

  /** The working graph lists exactly the component's nodes, and its weights
      suit the shortest-path search. */
  lemma WorkingGraphFacts(g: Graph, c: set<Node>)
    requires WellFormed(g) && IsLargestComponent(g, c)
    ensures NodeSet(WorkingGraph(g, c).nodes) == c
    ensures NonNegativeWeights(WorkingGraph(g, c).edges)
  {
    ComponentNotEmpty(g, c);
    var h := InducedSubgraph(g, c);
    AnnotatedWeightsNonNegative(h.edges, KerbColumn(h));
  }

  /** The whole per-stop analysis. `download` is what the map download
      returned, `nearest` the nearest-node lookup, which picks one of the nodes
      it is given or raises, and `hullArea` the projected convex-hull area of a
      node set or the exception the geometry calls raised. */
  method AnalyzeStopAccessibility(download: Outcome<Graph>, nearest: set<Node> -> Outcome<Node>,
                                  hullArea: set<Node> -> Outcome<real>)
    returns (result: AnalysisResult, ghost component: set<Node>, ghost reachable: set<Node>)
    requires download.Ok? ==> WellFormed(download.value)
    requires forall ns: set<Node> :: ns != {} && nearest(ns).Ok? ==> nearest(ns).value in ns
    requires forall ns: set<Node> :: hullArea(ns).Ok? ==> hullArea(ns).value >= 0.0
    ensures WellShaped(result)
    ensures download.Raised? ==> result == Failure(download.message)
    ensures download.Ok? && download.value.nodes == [] ==> result == Failure(EmptyComponents)
    ensures download.Ok? && download.value.nodes != [] ==> IsLargestComponent(download.value, component)
    ensures download.Ok? && download.value.nodes != [] && nearest(component).Raised? ==>
              result == Failure(nearest(component).message)
    ensures download.Ok? && download.value.nodes != [] && nearest(component).Ok? ==>
              var network := WorkingGraph(download.value, component);
              var start := nearest(component).value;
              && start in reachable
              && (forall n :: n in reachable <==> WithinBudget(network.edges, start, n, AnalysisRadiusMeters))
              && (hullArea(reachable).Raised? ==> result == Failure(hullArea(reachable).message))
              && (hullArea(reachable).Ok? ==>
                    && result.error == None
                    && result.reachableArea == hullArea(reachable).value
                    && result.isolationIndex == IsolationIndex(hullArea(reachable).value, AnalysisRadiusMeters)
                    && result.barrierDensity == BarrierDensity(network.edges))
  {
    component, reachable := {}, {};
    if download.Raised? {
      return Failure(download.message), component, reachable;
    }
    var g := download.value;
    var largest := LargestComponent(g);
    component := largest;
    if g.nodes == [] {
      return Failure(EmptyComponents), component, reachable;
    }
    var network := AnnotateGraph(InducedSubgraph(g, largest));
    WorkingGraphFacts(g, largest);
    var lookup := nearest(NodeSet(network.nodes));
    if lookup.Raised? {
      return Failure(lookup.message), component, reachable;
    }
    var start := lookup.value;
    var dist := ShortestDistancesWithin(network.edges, start, AnalysisRadiusMeters);
    reachable := dist.Keys;
    result := Summarize(dist.Keys, hullArea(dist.Keys), network.edges);
  }
}
