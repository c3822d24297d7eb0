/**
 * The accessible part of the network around the start node
 * (src/analyzer.py:32-35): `nx.ego_graph` with `distance='accessibility_cost'`,
 * a Dijkstra search that drops every path longer than the radius.
 */
module EgoGraph {
  import opened StreetGraph

  /** Every weight is impassable or a non-negative number, as Dijkstra needs. */
  predicate NonNegativeWeights(es: seq<Edge>) {
    forall e :: e in es ==> Weight(e).Inf? || Weight(e).r >= 0.0
  }

  /** Some walk from s to n has a finite cost of at most budget. */
  ghost predicate WithinBudget(es: seq<Edge>, s: Node, n: Node, budget: real) {
    exists p :: IsPath(es, p, s, n) && PathCost(p).Fin? && PathCost(p).r <= budget
  }

  /** d is the least cost of a walk from s to n. */
  ghost predicate IsShortestDistance(es: seq<Edge>, s: Node, n: Node, d: real) {
    && (exists p :: IsPath(es, p, s, n) && PathCost(p) == Fin(d))
    && (forall p :: IsPath(es, p, s, n) && PathCost(p).Fin? ==> d <= PathCost(p).r)
  }

  /** A walk over an impassable edge is impassable. */
  lemma {:induction false} ImpassableEdgeBlocksWalk(p: seq<Edge>, k: nat)
    requires k < |p| && Weight(p[k]).Inf?
    ensures PathCost(p) == Inf
    decreases |p|
  {
    if k < |p| - 1 {
      ImpassableEdgeBlocksWalk(p[..|p| - 1], k);
    }
  }

  /** The discovered node not yet settled whose tentative distance is least,
      if any: the next entry Dijkstra's heap yields. */
  method ClosestPending(order: seq<Node>, dist: map<Node, real>, settled: set<Node>)
    returns (found: bool, m: Node)
    requires forall n :: n in order ==> n in dist
    ensures found ==> m in order && m !in settled
    ensures found ==> forall f :: f in order && f !in settled ==> dist[m] <= dist[f]
    ensures !found ==> forall f :: f in order ==> f in settled
  {
    found, m := false, 0;
    for i := 0 to |order|
      invariant found ==> m in order[..i] && m !in settled
      invariant found ==> forall f :: f in order[..i] && f !in settled ==> dist[m] <= dist[f]
      invariant !found ==> forall f :: f in order[..i] ==> f in settled
    {
      var x := order[i];
      assert order[..i + 1] == order[..i] + [x];
      if x !in settled && (!found || dist[x] < dist[m]) {
        found, m := true, x;
      }
    }
    assert order[..|order|] == order;
  }

  /** Every settled node's outgoing edges within the budget have been relaxed. */
  ghost predicate Relaxed(es: seq<Edge>, dist: map<Node, real>, settled: set<Node>, cutoff: real)
    requires settled <= dist.Keys
  {
    forall k :: 0 <= k < |es| && es[k].u in settled && Weight(es[k]).Fin?
                && dist[es[k].u] + Weight(es[k]).r <= cutoff
                ==> es[k].v in dist && dist[es[k].v] <= dist[es[k].u] + Weight(es[k]).r
  }

  /** Each tentative distance is the cost of a recorded walk from s, within the cutoff. */
  ghost predicate Witnessed(es: seq<Edge>, s: Node, cutoff: real, dist: map<Node, real>, via: map<Node, seq<Edge>>) {
    && s in dist && dist[s] == 0.0
    && via.Keys == dist.Keys
    && (forall n :: n in dist ==> 0.0 <= dist[n] <= cutoff)
    && (forall n :: n in dist ==> IsPath(es, via[n], s, n) && PathCost(via[n]) == Fin(dist[n]))
  }

  /** order lists the discovered nodes, which are s and heads of edges. */
  ghost predicate Discovered(es: seq<Edge>, s: Node, order: seq<Node>, dist: map<Node, real>) {
    && (forall n :: n in dist <==> n in order)
    && dist.Keys <= {s} + Targets(es)
  }

  /** The state between two steps of the search. */
  ghost predicate SearchState(es: seq<Edge>, s: Node, cutoff: real, order: seq<Node>,
                              dist: map<Node, real>, via: map<Node, seq<Edge>>, settled: set<Node>) {
    && Discovered(es, s, order, dist)
    && settled <= dist.Keys
    && Witnessed(es, s, cutoff, dist, via)
    && Relaxed(es, dist, settled, cutoff)
    && (forall u, f :: u in settled && f in dist && f !in settled ==> dist[u] <= dist[f])
  }

  /** m lies between the settled nodes and the other pending ones. */
  ghost predicate Between(dist: map<Node, real>, settled: set<Node>, m: Node) {
    && settled <= dist.Keys
    && m in dist && m !in settled
    && (forall u :: u in settled ==> dist[u] <= dist[m])
    && (forall n :: n in dist && n !in settled ==> dist[m] <= dist[n])
  }

  /** The edge es[k] leaves m and fits in the budget, so settling m relaxes it. */
  predicate Relaxes(es: seq<Edge>, cutoff: real, dist: map<Node, real>, m: Node, k: int)
    requires 0 <= k < |es| && m in dist
  {
    es[k].u == m && Weight(es[k]).Fin? && dist[m] + Weight(es[k]).r <= cutoff
  }

  /** The edges leaving m before index j are relaxed. */
  ghost predicate RelaxedBefore(es: seq<Edge>, cutoff: real, dist: map<Node, real>, m: Node, j: int)
    requires m in dist
  {
    forall k :: 0 <= k < j && k < |es| && Relaxes(es, cutoff, dist, m, k)
                ==> es[k].v in dist && dist[es[k].v] <= dist[m] + Weight(es[k]).r
  }

  /** The state while settling m, after relaxing the edges before index j. */
  ghost predicate Settling(es: seq<Edge>, s: Node, cutoff: real, m: Node, settled: set<Node>,
                           order: seq<Node>, dist: map<Node, real>, via: map<Node, seq<Edge>>, j: int)
  {
    && 0 <= j <= |es|
    && Discovered(es, s, order, dist)
    && Between(dist, settled, m)
    && Witnessed(es, s, cutoff, dist, via)
    && Relaxed(es, dist, settled, cutoff)
    && RelaxedBefore(es, cutoff, dist, m, j)
  }

  /** Once every discovered node is settled, every walk within the budget ends
      at a discovered node, no cheaper than the walk. */
  lemma {:induction false} RelaxedCoversWalks(es: seq<Edge>, dist: map<Node, real>, cutoff: real,
                                              s: Node, n: Node, p: seq<Edge>)
    requires NonNegativeWeights(es)
    requires s in dist && dist[s] == 0.0 && Relaxed(es, dist, dist.Keys, cutoff)
    requires IsPath(es, p, s, n) && PathCost(p).Fin? && PathCost(p).r <= cutoff
    ensures n in dist && dist[n] <= PathCost(p).r
    decreases |p|
  {
    if p != [] {
      var init, last := p[..|p| - 1], p[|p| - 1];
      assert last in es;
      RelaxedCoversWalks(es, dist, cutoff, s, last.u, init);
      var k :| 0 <= k < |es| && es[k] == last;
    }
  }

  /** Relaxing an edge that improves nothing keeps the settling state. */
  lemma SkipEdge(es: seq<Edge>, s: Node, cutoff: real, m: Node, settled: set<Node>,
                 order: seq<Node>, dist: map<Node, real>, via: map<Node, seq<Edge>>, j: int)
    requires Settling(es, s, cutoff, m, settled, order, dist, via, j) && j < |es|
    requires Relaxes(es, cutoff, dist, m, j) ==> es[j].v in dist && dist[es[j].v] <= dist[m] + Weight(es[j]).r
    ensures Settling(es, s, cutoff, m, settled, order, dist, via, j + 1)
  {
  }

  /** Lowering the tentative distance of the head of es[j] to the cost through m
      keeps the settling state. */
  lemma ImproveEdge(es: seq<Edge>, s: Node, cutoff: real, m: Node, settled: set<Node>,
                    order: seq<Node>, dist: map<Node, real>, via: map<Node, seq<Edge>>, j: int,
                    order': seq<Node>, dist': map<Node, real>, via': map<Node, seq<Edge>>)
    requires NonNegativeWeights(es)
    requires Settling(es, s, cutoff, m, settled, order, dist, via, j) && j < |es|
    requires Relaxes(es, cutoff, dist, m, j)
    requires es[j].v !in dist || dist[m] + Weight(es[j]).r < dist[es[j].v]
    requires order' == if es[j].v in dist then order else order + [es[j].v]
    requires dist' == dist[es[j].v := dist[m] + Weight(es[j]).r]
    requires via' == via[es[j].v := via[m] + [es[j]]]
    ensures Settling(es, s, cutoff, m, settled, order', dist', via', j + 1)
  {
    assert es[j] in es;
    assert es[j].v !in settled;
    ImproveKeepsDiscovered(es, s, order, dist, es[j], dist[m] + Weight(es[j]).r, order', dist');
    ImproveKeepsBetween(dist, settled, m, es[j].v, dist[m] + Weight(es[j]).r, dist');
    ImproveKeepsWitnessed(es, s, cutoff, dist, via, m, es[j], dist', via');
    ImproveKeepsRelaxed(es, cutoff, dist, settled, es[j].v, dist[m] + Weight(es[j]).r, dist');
    ImproveKeepsRelaxedBefore(es, cutoff, dist, m, j, dist');
  }

  lemma ImproveKeepsDiscovered(es: seq<Edge>, s: Node, order: seq<Node>, dist: map<Node, real>, e: Edge, d: real,
                               order': seq<Node>, dist': map<Node, real>)
    requires Discovered(es, s, order, dist) && e in es
    requires order' == (if e.v in dist then order else order + [e.v]) && dist' == dist[e.v := d]
    ensures Discovered(es, s, order', dist')
  {
  }

  lemma ImproveKeepsBetween(dist: map<Node, real>, settled: set<Node>, m: Node, v: Node, d: real,
                            dist': map<Node, real>)
    requires Between(dist, settled, m) && v !in settled && d >= dist[m]
    requires v in dist ==> d < dist[v]
    requires dist' == dist[v := d]
    ensures Between(dist', settled, m)
  {
  }

  lemma ImproveKeepsWitnessed(es: seq<Edge>, s: Node, cutoff: real, dist: map<Node, real>,
                              via: map<Node, seq<Edge>>, m: Node, e: Edge,
                              dist': map<Node, real>, via': map<Node, seq<Edge>>)
    requires Witnessed(es, s, cutoff, dist, via) && m in dist && e in es && e.u == m
    requires Weight(e).Fin? && Weight(e).r >= 0.0 && dist[m] + Weight(e).r <= cutoff
    requires e.v in dist ==> dist[m] + Weight(e).r < dist[e.v]
    requires dist' == dist[e.v := dist[m] + Weight(e).r] && via' == via[e.v := via[m] + [e]]
    ensures Witnessed(es, s, cutoff, dist', via')
  {
    assert IsPath(es, via[m] + [e], s, e.v) && PathCost(via[m] + [e]) == Fin(dist[m] + Weight(e).r) by {
      assert (via[m] + [e])[..|via[m]|] == via[m];
    }
  }

  lemma ImproveKeepsRelaxedBefore(es: seq<Edge>, cutoff: real, dist: map<Node, real>, m: Node, j: int,
                                  dist': map<Node, real>)
    requires 0 <= j < |es| && m in dist && RelaxedBefore(es, cutoff, dist, m, j)
    requires Relaxes(es, cutoff, dist, m, j) && es[j].v != m
    requires es[j].v in dist ==> dist[m] + Weight(es[j]).r < dist[es[j].v]
    requires dist' == dist[es[j].v := dist[m] + Weight(es[j]).r]
    ensures m in dist' && RelaxedBefore(es, cutoff, dist', m, j + 1)
  {
  }

  /** Lowering the distance of a node outside the settled set keeps them relaxed. */
  lemma ImproveKeepsRelaxed(es: seq<Edge>, cutoff: real, dist: map<Node, real>, settled: set<Node>,
                            v: Node, d: real, dist': map<Node, real>)
    requires settled <= dist.Keys && v !in settled
    requires v in dist ==> d < dist[v]
    requires Relaxed(es, dist, settled, cutoff)
    requires dist' == dist[v := d]
    ensures settled <= dist'.Keys && Relaxed(es, dist', settled, cutoff)
  {
  }

  /** Relax es[j]: if it leaves m and gives its head a shorter distance within
      the cutoff, record that distance. */
  method RelaxEdge(es: seq<Edge>, s: Node, cutoff: real, m: Node, settled: set<Node>,
                   order0: seq<Node>, dist0: map<Node, real>, ghost via0: map<Node, seq<Edge>>, j: int)
    returns (order: seq<Node>, dist: map<Node, real>, ghost via: map<Node, seq<Edge>>)
    requires NonNegativeWeights(es)
    requires Settling(es, s, cutoff, m, settled, order0, dist0, via0, j) && j < |es|
    ensures Settling(es, s, cutoff, m, settled, order, dist, via, j + 1)
  {
    assert m in dist0;
    if Relaxes(es, cutoff, dist0, m, j) && (es[j].v !in dist0 || dist0[m] + Weight(es[j]).r < dist0[es[j].v]) {
      order := if es[j].v in dist0 then order0 else order0 + [es[j].v];
      dist := dist0[es[j].v := dist0[m] + Weight(es[j]).r];
      via := via0[es[j].v := via0[m] + [es[j]]];
      ImproveEdge(es, s, cutoff, m, settled, order0, dist0, via0, j, order, dist, via);
    } else {
      SkipEdge(es, s, cutoff, m, settled, order0, dist0, via0, j);
      order, dist, via := order0, dist0, via0;
    }
  }

  /** Settle m: relax every edge leaving it, in edge order. */
  method SettleNext(es: seq<Edge>, s: Node, cutoff: real, m: Node, settled: set<Node>,
                    order0: seq<Node>, dist0: map<Node, real>, ghost via0: map<Node, seq<Edge>>)
    returns (order: seq<Node>, dist: map<Node, real>, ghost via: map<Node, seq<Edge>>)
    requires NonNegativeWeights(es)
    requires SearchState(es, s, cutoff, order0, dist0, via0, settled)
    requires m in dist0 && m !in settled
    requires forall f :: f in dist0 && f !in settled ==> dist0[m] <= dist0[f]
    ensures SearchState(es, s, cutoff, order, dist, via, settled + {m})
  {
    order, dist, via := order0, dist0, via0;
    StartSettling(es, s, cutoff, m, settled, order, dist, via);
    for j := 0 to |es|
      invariant Settling(es, s, cutoff, m, settled, order, dist, via, j)
    {
      order, dist, via := RelaxEdge(es, s, cutoff, m, settled, order, dist, via, j);
    }
    SettledAfterRelaxing(es, s, cutoff, m, settled, order, dist, via);
  }

  /** Settling m starts from a search state in which m is the closest pending node. */
  lemma StartSettling(es: seq<Edge>, s: Node, cutoff: real, m: Node, settled: set<Node>,
                      order: seq<Node>, dist: map<Node, real>, via: map<Node, seq<Edge>>)
    requires SearchState(es, s, cutoff, order, dist, via, settled)
    requires m in dist && m !in settled
    requires forall f :: f in dist && f !in settled ==> dist[m] <= dist[f]
    ensures Settling(es, s, cutoff, m, settled, order, dist, via, 0)
  {
  }

  /** Once all edges are relaxed, m joins the settled nodes. */
  lemma SettledAfterRelaxing(es: seq<Edge>, s: Node, cutoff: real, m: Node, settled: set<Node>,
                             order: seq<Node>, dist: map<Node, real>, via: map<Node, seq<Edge>>)
    requires Settling(es, s, cutoff, m, settled, order, dist, via, |es|)
    ensures SearchState(es, s, cutoff, order, dist, via, settled + {m})
  {
    forall k | 0 <= k < |es| && es[k].u in settled + {m} && Weight(es[k]).Fin?
               && dist[es[k].u] + Weight(es[k]).r <= cutoff
      ensures es[k].v in dist && dist[es[k].v] <= dist[es[k].u] + Weight(es[k]).r
    {
      if es[k].u == m {
        assert Relaxes(es, cutoff, dist, m, k);
      }
    }
  }

  /** `nx.single_source_dijkstra_path_length(G, s, cutoff)`: the least walk cost
      from s of every node that can be reached within the cutoff. */
  method ShortestDistancesWithin(es: seq<Edge>, s: Node, cutoff: real) returns (dist: map<Node, real>)
    requires NonNegativeWeights(es)
    requires cutoff >= 0.0
    ensures s in dist && dist[s] == 0.0
    ensures forall n :: n in dist <==> WithinBudget(es, s, n, cutoff)
    ensures forall n :: n in dist ==> IsShortestDistance(es, s, n, dist[n])
  {
    ghost var universe := {s} + Targets(es);
    var order := [s];
    dist := map[s := 0.0];
    var settled: set<Node> := {};
    ghost var via: map<Node, seq<Edge>> := map[s := []];
    assert IsPath(es, [], s, s);
    var found, m := ClosestPending(order, dist, settled);
    while found
      invariant SearchState(es, s, cutoff, order, dist, via, settled)
      invariant forall n :: n in dist <==> n in order
      invariant settled <= dist.Keys <= universe
      invariant found ==> m in dist && m !in settled
      invariant found ==> forall f :: f in dist && f !in settled ==> dist[m] <= dist[f]
      invariant !found ==> dist.Keys <= settled
      decreases universe - settled, found
    {
      order, dist, via := SettleNext(es, s, cutoff, m, settled, order, dist, via);
      settled := settled + {m};
      found, m := ClosestPending(order, dist, settled);
    }
    forall n | n in dist
      ensures WithinBudget(es, s, n, cutoff) && IsShortestDistance(es, s, n, dist[n])
    {
      forall p | IsPath(es, p, s, n) && PathCost(p).Fin?
        ensures dist[n] <= PathCost(p).r
      {
        if PathCost(p).r <= cutoff {
          RelaxedCoversWalks(es, dist, cutoff, s, n, p);
        }
      }
    }
    forall n | WithinBudget(es, s, n, cutoff)
      ensures n in dist
    {
      var p :| IsPath(es, p, s, n) && PathCost(p).Fin? && PathCost(p).r <= cutoff;
      RelaxedCoversWalks(es, dist, cutoff, s, n, p);
    }
  }
}
