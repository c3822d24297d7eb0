/**
 * Accessibility cost of every edge (src/analyzer.py:17-30): stairs are
 * impassable, a main road without a sidewalk counts double, and arriving at a
 * kerb that is neither lowered nor flush costs half as much again.
 */
module CostAnnotation {
  import opened Wrappers
  import opened StreetGraph

  const RoadClasses: seq<string> := ["residential", "tertiary", "secondary", "primary"]
  const NoSidewalk: seq<string> := ["no", "none"]
  const StepFreeKerbs: seq<string> := ["lowered", "flush"]

  /** The `kerb` column of the node table, if there is one: it exists as soon as
      one node of the graph carries a `kerb` tag, and then holds a value, or
      nothing, for every node. */
  function KerbColumn(g: Graph): (column: Option<map<Node, Option<string>>>)
    ensures column.Some? <==> exists n :: n in g.nodes && n in g.kerb
    ensures column.Some? ==> forall n :: n in column.value <==> n in g.nodes
    ensures column.Some? ==> forall n :: n in column.value ==>
              (column.value[n].Some? <==> n in g.kerb) && (n in g.kerb ==> column.value[n] == Some(g.kerb[n]))
  {
    if exists n :: n in g.nodes && n in g.kerb then
      Some(map n | n in g.nodes :: if n in g.kerb then Some(g.kerb[n]) else None)
    else None
  }

  /** A single tag value from the list (a list-valued tag is never equal to a string). */
  predicate TagIn(t: Tag, values: seq<string>) {
    t.Value? && t.text in values
  }

  function Scale(c: Cost, factor: real): Cost {
    match c
    case Fin(r) => Fin(r * factor)
    case Inf => Inf
  }

  /** The cost before the kerb rule. */
  function RoadCost(e: Edge): (c: Cost)
    ensures c == Inf <==> e.highway == Value("steps")
    ensures c.Fin? ==> c.r == e.length || c.r == 2.0 * e.length
    ensures c.Fin? && e.length >= 0.0 ==> c.r >= e.length
  {
    if e.highway == Value("steps") then Inf
    else if TagIn(e.highway, RoadClasses) && TagIn(e.sidewalk, NoSidewalk) then Fin(e.length * 2.0)
    else Fin(e.length)
  }

  /** The kerb rule applies when the column exists and the destination's value
      is not a step-free one; a missing value counts as not step-free. */
  predicate KerbPenalty(column: Option<map<Node, Option<string>>>, v: Node) {
    column.Some? && !(v in column.value && column.value[v].Some? && column.value[v].value in StepFreeKerbs)
  }

  function EdgeCost(e: Edge, column: Option<map<Node, Option<string>>>): (c: Cost)
    ensures c == Inf <==> e.highway == Value("steps")
    ensures c.Fin? && e.length >= 0.0 ==> c.r >= e.length
    ensures !KerbPenalty(column, e.v) ==> c == RoadCost(e)
  {
    var c := RoadCost(e);
    if KerbPenalty(column, e.v) then Scale(c, 1.5) else c
  }

  /** The edge with its `accessibility_cost` written and nothing else changed. */
  function Annotated(e: Edge, column: Option<map<Node, Option<string>>>): Edge {
    e.(accessibilityCost := Some(EdgeCost(e, column)))
  }

  function AnnotateAll(es: seq<Edge>, column: Option<map<Node, Option<string>>>): seq<Edge> {
    seq(|es|, i requires 0 <= i < |es| => Annotated(es[i], column))
  }

  /** The annotation loop of src/analyzer.py:19-30, writing the cost into each edge in place. */
  method AnnotateCosts(edges: array<Edge>, column: Option<map<Node, Option<string>>>)
    modifies edges
    ensures edges[..] == AnnotateAll(old(edges[..]), column)
  {
    for i := 0 to edges.Length
      invariant forall k :: 0 <= k < i ==> edges[k] == Annotated(old(edges[k]), column)
      invariant forall k :: i <= k < edges.Length ==> edges[k] == old(edges[k])
    {
      edges[i] := Annotated(edges[i], column);
    }
  }

  /** src/analyzer.py:17-30 on a whole graph: read the kerb column of its nodes,
      then write the cost into each edge, keeping the nodes and their tags. */
  method AnnotateGraph(h: Graph) returns (network: Graph)
    ensures network.nodes == h.nodes && network.kerb == h.kerb
    ensures network.edges == AnnotateAll(h.edges, KerbColumn(h))
  {
    var column := KerbColumn(h);
    var edges := new Edge[|h.edges|](i requires 0 <= i < |h.edges| => h.edges[i]);
    assert edges[..] == h.edges;
    AnnotateCosts(edges, column);
    network := Graph(h.nodes, h.kerb, edges[..]);
  }

  /** Stairs are impassable whatever their sidewalk and kerb, and the kerb
      multiplier leaves an impassable edge impassable. */
  lemma StepsImpassable(e: Edge, column: Option<map<Node, Option<string>>>)
    requires e.highway == Value("steps")
    ensures EdgeCost(e, column) == Inf
    ensures Scale(EdgeCost(e, column), 1.5) == Inf
  {
  }

  /** The whole decision table: impassable exactly for stairs, otherwise the
      length times the sidewalk factor (2 on a main road without sidewalk, else
      1) times the kerb factor (1.5 when the kerb rule applies, else 1). */
  lemma CostDecisionTable(e: Edge, column: Option<map<Node, Option<string>>>)
    ensures EdgeCost(e, column) == Inf <==> e.highway == Value("steps")
    ensures e.highway != Value("steps") ==>
      EdgeCost(e, column) == Fin(e.length
        * (if TagIn(e.highway, RoadClasses) && TagIn(e.sidewalk, NoSidewalk) then 2.0 else 1.0)
        * (if KerbPenalty(column, e.v) then 1.5 else 1.0))
  {
  }

  /** A main road without sidewalk ending at a raised kerb costs three times its length. */
  lemma ThreefoldPenalty(e: Edge, column: Option<map<Node, Option<string>>>)
    requires TagIn(e.highway, RoadClasses) && TagIn(e.sidewalk, NoSidewalk)
    requires column.Some? && e.v in column.value && column.value[e.v] == Some("raised")
    ensures EdgeCost(e, column) == Fin(3.0 * e.length)
  {
  }

  /** Without a kerb column the kerb rule changes no edge. */
  lemma NoKerbColumnNoPenalty(g: Graph, es: seq<Edge>)
    requires forall n :: n in g.nodes ==> n !in g.kerb
    ensures KerbColumn(g) == None
    ensures forall i :: 0 <= i < |es| ==> AnnotateAll(es, KerbColumn(g))[i].accessibilityCost == Some(RoadCost(es[i]))
  {
  }

  /** With a kerb column, a node that lacks the tag is treated like a raised kerb. */
  lemma MissingKerbValuePenalised(g: Graph, e: Edge)
    requires e.v in g.nodes && e.v !in g.kerb
    requires exists n :: n in g.nodes && n in g.kerb
    ensures EdgeCost(e, KerbColumn(g)) == Scale(RoadCost(e), 1.5)
  {
  }

  /** Annotation only writes `accessibility_cost`: every edge keeps its ends, key,
      length and tags, and its cost is impassable or at least its length. */
  lemma AnnotationPreservesEdges(es: seq<Edge>, column: Option<map<Node, Option<string>>>)
    requires forall e :: e in es ==> e.length >= 0.0
    ensures |AnnotateAll(es, column)| == |es|
    ensures forall i :: 0 <= i < |es| ==>
      var a := AnnotateAll(es, column)[i];
      && a.u == es[i].u && a.v == es[i].v && a.key == es[i].key && a.length == es[i].length
      && a.highway == es[i].highway && a.sidewalk == es[i].sidewalk
      && a.accessibilityCost.Some?
      && (a.accessibilityCost.value.Inf? || a.accessibilityCost.value.r >= es[i].length)
  {
    forall i | 0 <= i < |es|
      ensures AnnotateAll(es, column)[i].accessibilityCost.value.Inf?
           || AnnotateAll(es, column)[i].accessibilityCost.value.r >= es[i].length
    {
      assert es[i] in es;
    }
  }
}
