# Bus-stop pedestrian accessibility, modelled in Dafny

This project models the core of a bus-stop accessibility study. For one bus stop,
`analyze_stop_accessibility` (src/analyzer.py) does the following:

- takes the walking street network around the stop;
- keeps its largest strongly connected component;
- writes an accessibility cost on every edge:
  - stairs are impassable;
  - a main road without a sidewalk counts double;
  - arriving at a kerb that is neither lowered nor flush costs 1.5 times as much;
- finds every node within 400 cost units of the start node with a cost-bounded Dijkstra search;
- reports three figures:
  - the reachable area;
  - the isolation index (that area over the area of a 400 m disk);
  - the barrier density (impassable edges per kilometre);
- turns any failure into an all-zero record that carries the error message.

The batch driver `main` (src/run_analysis.py) works as follows:

- It clips median incomes at zero.
- It drops the stops with missing census figures.
- It derives each stop's disability percentage.
- It puts every stop in a Low, High or N/A group for disability and for income. The thresholds come from quantiles.
- It keeps the stops that are in a group for either.
- It analyses each kept stop whose id is not already in the output file and appends one row per stop. The header is written only before the first row of a new file.

The modules follow the stages of the analysis:

- `StreetGraph` (graph.dfy): the directed multigraph, walks, walk costs and induced subgraphs.
- `Connectivity` (connectivity.dfy): reachability and the largest strongly connected component.
- `CostAnnotation` (costs.dfy): the cost rules. It includes the in-place annotation loop over an array of edges.
- `EgoGraph` (egograph.dfy): the cost-bounded Dijkstra search, proved exact.
- `Metrics` (metrics.dfy): the isolation index, total length, barrier count and barrier density.
- `Analyzer` (analyzer.dfy): the per-stop analysis and its error paths.
- `StopSelection` (stops.dfy): the pandas steps of `main` and the checkpointed batch loop.

Parts of the system outside this model are parameters of the methods:

- the map download is an `Outcome<Graph>`: the network, or the message of the exception the download raised;
- the nearest-node lookup is a function from node sets to an `Outcome<Node>`: one of the nodes it is given, or an exception message;
- the projected convex-hull area is a function from node sets to an `Outcome<real>`: a non-negative area, or an exception message;
- the quantile thresholds are a `Thresholds` value;
- the per-stop analysis called from the batch loop is a function from coordinates to a result record;
- the existing output file is the sequence of its stop ids.

### Where the code and the design description differ

In each of these cases the model follows the code:

- **Order of stages.** The component is taken before the costs are written (src/analyzer.py:14-30). So the `kerb` column exists only if a node of the reduced graph carries the tag.
- **Missing kerb value.** When the column exists, a node without a kerb value gets the 1.5 penalty: a missing value is not in `['lowered', 'flush']`. It is not exempt as an unknown value.
- **A lone start node is a success.** The "No accessible nodes found." error never fires. The start node comes from the reduced graph and is always reachable at cost 0. `Analyzer.AnalyzeStopAccessibility` proves this.
- **List-valued tags.** Tags merged into a list never equal `'steps'` and are never in a list of strings, so no rule fires for them.

## Model

| member | source | states |
|---|---|---|
| StreetGraph.InducedSubgraph | src/analyzer.py:16 | `graph.subgraph(c)` keeps exactly the nodes in c, each edge with both ends in c as many times as it occurs in the graph (parallel edges included) and no other edge, and the kerb tags of the kept nodes; a well-formed graph stays well-formed |
| StreetGraph.FilterNodes | src/analyzer.py:16 | the kept node list holds exactly the listed nodes that are in the set, and is no longer than the original |
| StreetGraph.FilterEdges | src/analyzer.py:16 | the kept edge list holds each edge whose two ends are in the set exactly as many times as the original does, and no other edge |
| StreetGraph.FilterEdgesAppend | src/analyzer.py:16 | filtering a concatenation is the concatenation of the filtered parts, so the kept edges keep their relative order |
| Connectivity.ReachableFrom | src/analyzer.py:14 | the worklist search returns exactly the nodes some walk from s reaches |
| Connectivity.LargestComponent | src/analyzer.py:14-15 | for a non-empty graph, the result is the strongly connected component of some node and no node's component is larger; with no nodes the result is empty (the `max()` of no components) |
| Connectivity.ComponentMutuallyReachable | src/analyzer.py:14 | any two members of a strongly connected component reach each other |
| Connectivity.ComponentOfMember | src/analyzer.py:14 | the component of a member of a component is that same component, so components partition the nodes |
| Connectivity.ComponentWalkStaysInside | src/analyzer.py:14-16 | a walk between two members of a component uses only edges of the subgraph induced by the component |
| Connectivity.ComponentSubgraphStronglyConnected | src/analyzer.py:14-16 | in the reduced graph every node reaches every other node along the reduced graph's own edges |
| CostAnnotation.KerbColumn | src/analyzer.py:17-27 | the node table has a `kerb` column if and only if some node of the graph carries a kerb tag; the column covers exactly the graph's nodes and holds each node's tag, or nothing for an untagged node |
| CostAnnotation.RoadCost | src/analyzer.py:20-26 | the cost before the kerb rule is infinite if and only if the edge is stairs; a finite cost is the length or twice the length, never less than a non-negative length |
| CostAnnotation.EdgeCost | src/analyzer.py:20-28 | the written cost is infinite if and only if the edge is stairs, is never less than a non-negative length, and equals the road cost when the kerb rule does not apply |
| CostAnnotation.AnnotateGraph | src/analyzer.py:17-30 | the annotated graph keeps its nodes and kerb tags and holds every edge annotated with its cost under the graph's own kerb column |
| CostAnnotation.AnnotateCosts | src/analyzer.py:19-30 | the in-place loop leaves every edge of the array annotated with its cost and nothing else changed, in the same order |
| CostAnnotation.CostDecisionTable | src/analyzer.py:20-28 | an edge is impassable if and only if its highway is `steps`; otherwise its cost is length × (2 on a residential/tertiary/secondary/primary road with sidewalk no/none, else 1) × (1.5 when the kerb rule applies, else 1) |
| CostAnnotation.StepsImpassable | src/analyzer.py:22-23 | stairs cost infinity whatever their sidewalk and kerb, and the kerb multiplier keeps infinity infinite |
| CostAnnotation.ThreefoldPenalty | src/analyzer.py:24-28 | a main road without sidewalk ending at a raised kerb costs 3 times its length |
| CostAnnotation.NoKerbColumnNoPenalty | src/analyzer.py:17 | when no node carries a kerb tag there is no kerb column and every edge gets its road cost unchanged |
| CostAnnotation.MissingKerbValuePenalised | src/analyzer.py:27-28 | when the kerb column exists, an edge into a node without a kerb value gets the 1.5 multiplier |
| CostAnnotation.AnnotationPreservesEdges | src/analyzer.py:19-30 | annotation keeps every edge's ends, key, length and tags, writes a cost on each, and that cost is infinite or at least the length |
| EgoGraph.ImpassableEdgeBlocksWalk | src/analyzer.py:33-35 | a walk that uses an impassable edge has infinite cost, so no such walk fits the budget |
| EgoGraph.ClosestPending | src/analyzer.py:33-35 | the next node Dijkstra settles is a discovered unsettled node with the least tentative distance; none is found only when every discovered node is settled |
| EgoGraph.RelaxEdge | src/analyzer.py:33-35 | relaxing one edge leaving the node being settled keeps the search invariant: every tentative distance is the cost of a recorded walk within the cutoff, settled nodes stay below pending ones, relaxed edges stay relaxed |
| EgoGraph.SettleNext | src/analyzer.py:33-35 | settling the closest pending node after relaxing all its outgoing edges keeps the search invariant with that node added to the settled set |
| EgoGraph.RelaxedCoversWalks | src/analyzer.py:33-35 | once every discovered node is settled, every walk from the start within the cutoff ends at a discovered node whose distance is at most the walk's cost |
| EgoGraph.ShortestDistancesWithin | src/analyzer.py:33-35 | the search returns the start at distance 0, exactly the nodes some walk of cost at most the cutoff reaches, and for each of them the least walk cost |
| Metrics.IsolationIndex | src/analyzer.py:49-50 | the index times the ideal disk area is the reachable area when the disk area is positive, 0 otherwise, and non-negative for a non-negative area |
| Metrics.SumLengths | src/analyzer.py:52 | the sum of the lengths of edges of non-negative length is non-negative |
| Metrics.TotalLengthKm | src/analyzer.py:52 | the total length in km of edges of non-negative length is non-negative |
| Metrics.SumLengthsAppend | src/analyzer.py:52 | the length sum of a concatenation is the sum of the parts' length sums |
| Metrics.SumLengthsPermutation | src/analyzer.py:52 | two edge lists with the same multiset of edges have the same length sum, so the order in which the graph lists its edges does not matter |
| Metrics.BarrierCount | src/analyzer.py:53 | the barrier count is at most the number of edges, and is 0 if and only if no edge has an infinite cost |
| Metrics.BarrierCountAppend | src/analyzer.py:53 | the barrier count of a concatenation is the sum of the parts' counts |
| Metrics.BarrierCountPermutation | src/analyzer.py:53 | two edge lists with the same multiset of edges have the same barrier count |
| Metrics.BarrierCountCountsEdges | src/analyzer.py:53 | the barrier count equals the number of edge positions whose cost is infinite, so parallel barriers each count |
| Metrics.BarrierDensity | src/analyzer.py:52-54 | the density times the total length in km is the barrier count when the length is positive, 0 otherwise, and never negative |
| Metrics.BarriersAreSteps | src/analyzer.py:22-23 | after annotation the number of barriers equals the number of stair edges: no other rule makes an edge impassable |
| Analyzer.Failure | src/analyzer.py:63-69 | a caught exception becomes a record carrying its message with all three figures 0 |
| Analyzer.ComponentNotEmpty | src/analyzer.py:15-16 | the largest component of a non-empty graph is a non-empty set of its nodes, and the subgraph on it lists exactly those nodes, so the nearest-node lookup has a node to return |
| Analyzer.WorkingGraphFacts | src/analyzer.py:16-35 | the annotated reduced graph lists exactly the component's nodes and all its weights are infinite or non-negative, as the Dijkstra search needs |
| Analyzer.AnnotatedWeightsNonNegative | src/analyzer.py:19-35 | every annotated weight is infinite or non-negative, as the Dijkstra search requires |
| Analyzer.Summarize | src/analyzer.py:37-69 | no reachable node gives the "No accessible nodes found." failure; a failing hull computation gives the failure record with its message; otherwise the record has no error, the hull area, an isolation index that times the disk area is that area, and a barrier density that times the total km is the barrier count (0 with no length); with a non-negative area the record is well shaped |
| Analyzer.AnalyzeStopAccessibility | src/analyzer.py:8-69 | a failed download gives the all-zero record with its message; an empty graph gives the `max()` error; a failing nearest-node lookup gives its message; otherwise the start node is reachable, the reachable set is exactly the nodes within 400 cost units of the start in the annotated largest component, a failing hull computation gives its message, and a successful one gives its area, the isolation index of that area and the barrier density of the annotated component; "No accessible nodes found." never occurs and every result is well shaped |
| StopSelection.ClipMedianIncomes | src/run_analysis.py:31 | clipping keeps every row and every other column, keeps missing values missing, leaves non-negative incomes as they are and turns negative ones into 0 |
| StopSelection.Percentage | src/run_analysis.py:47 | with a non-zero total the percentage times the total is 100 times the disability population; a zero total gives +inf for a positive disability population, -inf for a negative one and NaN for 0/0 |
| StopSelection.PercentageBounds | src/run_analysis.py:47 | a disability population between 0 and a positive total gives a percentage between 0 and 100 |
| StopSelection.DropIncomplete | src/run_analysis.py:46-47 | the kept stops are exactly the rows with total population, disability population and median income present, each with its derived percentage |
| StopSelection.DropIncompleteAppend | src/run_analysis.py:46 | dropping incomplete rows from a concatenation drops them from each part and concatenates, so kept rows keep their order and multiplicity; no rows give no stops |
| StopSelection.GroupOf | src/run_analysis.py:57-62 | a value is High if and only if it is at least the high threshold, Low if and only if it is at most the low one and not High, and N/A if and only if it meets neither |
| StopSelection.WriteWhere | src/run_analysis.py:59-62 | a masked `.loc` write sets exactly the masked rows to the value and keeps the others |
| StopSelection.ClassifyColumn | src/run_analysis.py:57-62 | writing N/A, then Low where the value is at most the low threshold, then High where it is at least the high one, gives every row the group of the priority rule: High, else Low, else N/A |
| StopSelection.AssignGroups | src/run_analysis.py:57-62 | every stop gets the disability group of its percentage and the income group of its median income |
| StopSelection.HighOverridesLow | src/run_analysis.py:59-62 | a value meeting both thresholds ends High; NaN ends N/A; a stop is Low exactly when it meets the low threshold and not the high one |
| StopSelection.StopsToAnalyze | src/run_analysis.py:64-66 | each stop with a disability group or an income group other than N/A is kept as many times as it occurs, and no other stop is kept |
| StopSelection.StopsToAnalyzeAppend | src/run_analysis.py:64-66 | selecting from a concatenation selects from each part and concatenates, so the boolean mask keeps the row order |
| StopSelection.SelectStops | src/run_analysis.py:46-66 | a classified stop is selected if and only if it comes from a complete row and has a disability or income group; the selection is exactly the group filter applied, in row order, to the classified complete rows |
| StopSelection.Pending | src/run_analysis.py:68-80 | the stops still to analyse are exactly the selected stops whose id is not already in the output file |
| StopSelection.RunBatch | src/run_analysis.py:68-98 | the loop appends exactly the chunks `Appended` describes for the ids in the existing file and whether the file is new |
| StopSelection.Appended | src/run_analysis.py:74-98 | at most one row per selected stop is appended, and a row carries the header if and only if it is the first row of a new file |
| StopSelection.AppendedRows | src/run_analysis.py:74-98 | one row is appended per pending stop, in order, holding that stop's fields and its analysis result; only the first row of a new file carries the header |
| StopSelection.PendingCounts | src/run_analysis.py:78-80 | a stop whose id was processed before gets no row; any other stop gets as many rows as it occurs among the selected stops (ids are not added to the skip set during the run) |

## Left out

- The network download (`ox.graph_from_point`) and the nearest-node lookup (`ox.nearest_nodes`) are external map-data calls. The download is an `Outcome<Graph>` input. The lookup is a function input that returns one of the reduced graph's nodes or raises; coordinates are not modelled.
- The convex hull, the choice of UTM zone, reprojection and the polygon area are geometry library calls. They are the `hullArea` input, whose area is non-negative when it does not raise.
- Exceptions are modelled for the download, the nearest-node lookup, the hull computation, the empty `max()` and the "No accessible nodes found." check. Other exceptions that the `except` clause would also catch (an internal error of networkx or pandas, memory exhaustion) are not modelled.
- StreetGraph.InducedSubgraph lists the kept edges in the order of the original edge list. networkx lists a subgraph's edges in adjacency order. The contract therefore promises each kept edge's multiplicity, not an order. `Metrics.SumLengthsPermutation` and `Metrics.BarrierCountPermutation` show that the total length and the barrier count do not depend on the order.
- Python's `round` to 2 and 3 decimals in the result record is not modelled. The record carries the exact values.
- Floating-point arithmetic is modelled with exact reals: the 2.0 and 1.5 cost multipliers, `np.pi` as a decimal constant, and the divisions. `inf` is a separate `Cost` case. In the disability percentage, the pandas infinities and NaN are separate `Float` cases.
- Connectivity.LargestComponent breaks ties between equally large components by node order. networkx yields components in Tarjan order, so a different one of the tied components may be chosen. The contract states only that the component is a largest one.
- An edge without a `length` attribute (`KeyError`) is not modelled: every edge has a length. Negative lengths are excluded by `WellFormed`, which the map data guarantees.
- The `nodes.loc[v]` lookup of a node missing from the node table cannot happen in a well-formed graph and is not modelled.
- Quantile computation (src/run_analysis.py:52-55) is not modelled. The four thresholds are inputs, so a NaN threshold from an all-NaN column is not represented.
- CSV reading and writing, the GeoDataFrame construction, the spatial join of stops to tracts, the census merges and CRS conversions (src/run_analysis.py:17-44) are not modelled. `MasterRow` is the joined row. The output file is the sequence of chunks appended.
- An existing but empty output file, on which `pd.read_csv` raises, is not modelled.
- `tqdm` progress, `time.sleep`, `f.flush()` and the final `print` have no effect on the data and are left out.
- Stop ids are integers on both sides of the skip test. A type mismatch between the ids read back from the CSV and those in the stop table is not modelled.
- The census download scripts and the dashboard (src/app.py) are not part of this model.
