/**
 * The two summary figures of src/analyzer.py:49-54: the isolation index
 * (reachable area over the area of the ideal disk) and the barrier density
 * (impassable edges per kilometre of the whole working network).
 */
module Metrics {
  import opened Wrappers
  import opened Sequences
  import opened StreetGraph
  import CostAnnotation

  /** `np.pi`. */
  const Pi: real := 3.141592653589793

  /** Area of the disk of the given radius, in square metres. */
  function IdealArea(radius: real): real {
    Pi * (radius * radius)
  }

  /** Reachable area as a fraction of the ideal disk; 0 when the disk has no area. */
  function IsolationIndex(area: real, radius: real): (x: real)
    ensures IdealArea(radius) > 0.0 ==> x * IdealArea(radius) == area
    ensures IdealArea(radius) <= 0.0 ==> x == 0.0
    ensures area >= 0.0 ==> x >= 0.0
  {
    var ideal := IdealArea(radius);
    if ideal > 0.0 then area / ideal else 0.0
  }

  /** Sum of the `length` of every edge, parallel edges included. */
  function SumLengths(es: seq<Edge>): (total: real)
    ensures (forall e :: e in es ==> e.length >= 0.0) ==> total >= 0.0
    decreases |es|
  {
    if es == [] then 0.0
    else
      var init, last := es[..|es| - 1], es[|es| - 1];
      assert forall e :: e in init ==> e in es;
      assert last in es;
      SumLengths(init) + last.length
  }

  /** The total length in kilometres, never negative for non-negative lengths. */
  function TotalLengthKm(es: seq<Edge>): (km: real)
    ensures (forall e :: e in es ==> e.length >= 0.0) ==> km >= 0.0
  {
    SumLengths(es) / 1000.0
  }

  lemma {:induction false} SumLengthsAppend(a: seq<Edge>, b: seq<Edge>)
    ensures SumLengths(a + b) == SumLengths(a) + SumLengths(b)
    decreases |b|
  {
    if b == [] {
      assert a + b == a;
    } else {
      SplitLastOfAppend(a, b);
      SumLengthsAppend(a, b[..|b| - 1]);
    }
  }

  /** The total length does not depend on the order the edges are listed in,
      only on how often each edge occurs. */
  lemma {:induction false} SumLengthsPermutation(a: seq<Edge>, b: seq<Edge>)
    requires multiset(a) == multiset(b)
    ensures SumLengths(a) == SumLengths(b)
    decreases |a|
  {
    if a == [] {
      assert |b| == |multiset(b)| == 0;
    } else {
      var init, x := a[..|a| - 1], a[|a| - 1];
      SplitLast(a);
      var k := MatchLast(a, b);
      var left, right := b[..k], b[k + 1..];
      SumLengthsPermutation(init, left + right);
      SumLengthsAppend(left, right);
      SumLengthsAppend(left + [x], right);
      SumLengthsAppend(left, [x]);
    }
  }

  /** An edge is a barrier when its annotated cost is impassable; an edge
      without the attribute counts as cost 0. */
  predicate IsBarrier(e: Edge) {
    e.accessibilityCost == Some(Inf)
  }

  /** The number of impassable edges; none exactly when no edge is impassable. */
  function BarrierCount(es: seq<Edge>): (n: nat)
    ensures n <= |es|
    ensures n == 0 <==> forall i :: 0 <= i < |es| ==> !IsBarrier(es[i])
    decreases |es|
  {
    if es == [] then 0
    else
      var init := es[..|es| - 1];
      assert forall i :: 0 <= i < |init| ==> init[i] == es[i];
      BarrierCount(init) + (if IsBarrier(es[|es| - 1]) then 1 else 0)
  }

  lemma {:induction false} BarrierCountAppend(a: seq<Edge>, b: seq<Edge>)
    ensures BarrierCount(a + b) == BarrierCount(a) + BarrierCount(b)
    decreases |b|
  {
    if b == [] {
      assert a + b == a;
    } else {
      SplitLastOfAppend(a, b);
      BarrierCountAppend(a, b[..|b| - 1]);
    }
  }

  /** The barrier count does not depend on the order the edges are listed in,
      only on how often each edge occurs. */
  lemma {:induction false} BarrierCountPermutation(a: seq<Edge>, b: seq<Edge>)
    requires multiset(a) == multiset(b)
    ensures BarrierCount(a) == BarrierCount(b)
    decreases |a|
  {
    if a == [] {
      assert |b| == |multiset(b)| == 0;
    } else {
      var init, x := a[..|a| - 1], a[|a| - 1];
      SplitLast(a);
      var k := MatchLast(a, b);
      var left, right := b[..k], b[k + 1..];
      BarrierCountPermutation(init, left + right);
      BarrierCountAppend(left, right);
      BarrierCountAppend(left + [x], right);
      BarrierCountAppend(left, [x]);
    }
  }

  /** The barrier count is the number of edge positions holding a barrier:
      parallel barriers between the same two nodes each count. */
  lemma {:induction false} BarrierCountCountsEdges(es: seq<Edge>)
    ensures BarrierCount(es) == |set i | 0 <= i < |es| && IsBarrier(es[i])|
    decreases |es|
  {
    if es != [] {
      var init := es[..|es| - 1];
      BarrierCountCountsEdges(init);
      var before := set i | 0 <= i < |init| && IsBarrier(init[i]);
      var all := set i | 0 <= i < |es| && IsBarrier(es[i]);
      if IsBarrier(es[|es| - 1]) {
        assert all == before + {|es| - 1};
      } else {
        assert all == before;
      }
    }
  }

  /** Barriers per kilometre; 0 when the network has no length. */
  function BarrierDensity(es: seq<Edge>): (d: real)
    ensures TotalLengthKm(es) > 0.0 ==> d * TotalLengthKm(es) == BarrierCount(es) as real
    ensures TotalLengthKm(es) <= 0.0 ==> d == 0.0
    ensures d >= 0.0
  {
    var km := TotalLengthKm(es);
    if km > 0.0 then BarrierCount(es) as real / km else 0.0
  }

  function StepsCount(es: seq<Edge>): nat
    decreases |es|
  {
    if es == [] then 0
    else StepsCount(es[..|es| - 1]) + (if es[|es| - 1].highway == Value("steps") then 1 else 0)
  }

  /** After the cost annotation the barriers are exactly the stairs: no other
      rule makes an edge impassable. */
  lemma {:induction false} BarriersAreSteps(es: seq<Edge>, column: Option<map<Node, Option<string>>>)
    ensures BarrierCount(CostAnnotation.AnnotateAll(es, column)) == StepsCount(es)
    decreases |es|
  {
    if es != [] {
      var init := es[..|es| - 1];
      BarriersAreSteps(init, column);
      assert CostAnnotation.AnnotateAll(es, column)[..|es| - 1] == CostAnnotation.AnnotateAll(init, column);
      CostAnnotation.CostDecisionTable(es[|es| - 1], column);
    }
  }
}
