# TSPTW solvers over a city graph

This project models the solving engine of a small Travelling Salesman
Problem with Time Windows (TSPTW) application. Its parts:

- **The graph.** An undirected graph of named cities. Each city has a time
  window `[earliest, latest]`. Each connection has a distance and a travel
  time, and it is stored in both directions.
- **The path evaluators.**
  - `calculateFeasiblePathCost` walks a path. It waits at a city that is
    reached early and rejects a city that is reached late.
  - `calculateArrivalTime` sums travel times.
- **Four solvers.** The brute-force, greedy and divide-and-conquer solvers
  are each proved equal to a specification function of their own. The
  dynamic program is proved sound, and its final loop is proved equal to a
  recursive minimum over the table it fills.
  - Brute force over all permutations of the other cities.
  - Greedy nearest feasible neighbour.
  - Divide and conquer: a small brute force on pieces of at most three
    cities, then a merge.
  - A bitmask dynamic program over the graph's distance, travel-time and
    time-window matrices.

Modules (one per source file, plus shared helpers):

| module | file | models |
|---|---|---|
| `Basics` | basics.dfy | costs `(distance, time)`, the lexicographic order the solvers compare with, and the strict "first strictly better" scan they share |
| `Bits` | bits.dfy | subset masks as integers: `1 << k` as `Pow2(k)`, membership as `Bit` |
| `GraphModel` | graph.dfy | `class Graph`, with its construction, query, evaluation, matrix and update operations |
| `GraphProperties` | graph_properties.dfy | lemmas relating the graph's evaluators to one another |
| `Permutations` | permutations.dfy | the recursive swap-based permutation generator, in place on an array |
| `BruteForceSolver` | brute_force.dfy | `solveTSPTW_BruteForce` |
| `GreedySolver` | greedy.dfy | `solveTSPTW_Greedy` |
| `DivideAndConquerSolver` | divide_and_conquer.dfy | `solveTSPTW_DivideAndConquer`, `solveSmallTSP`, `mergePaths` |
| `DynamicProgrammingSolver` | dynamic_programming.dfy | `SolveTSPTW_DP` |
| `DpBridge` | dp_bridge.dfy | the dynamic program run on the graph's own matrices |

How the graph is represented. The Java graph is a `HashMap` from names to
nodes, and each node holds a map of its neighbours. The model is a Dafny
class with three fields that its methods reassign:

- `order`: the cities in enumeration order. It stands for the map's
  iteration order.
- `windows`: each city's time window.
- `edges`: a map from ordered pairs of cities to their edge.

`Valid()` holds the invariants every operation keeps:

- `order` lists exactly the cities, each once.
- Every window has `earliest <= latest`.
- Edges join two different known cities and are symmetric.
- Distances and travel times are non-negative.

The Java code signals outcomes in three ways, and the model keeps each:

- An operation that returns `false` returns `Rejected`.
- An operation that returns `true` returns `Accepted`.
- An operation that throws `IllegalArgumentException` returns
  `IllegalArgument`.
- A solver that returns `null` returns `None`.

Each loop of the modelled operations is a Dafny method with invariants,
and each is proved against a specification function. The loops of brute
force, greedy, divide and conquer, the graph's neighbour list and path
evaluators return exactly what their function computes. The dynamic
program's loops leave the tables equal to `TablesBefore`, a recursive
function that replays the relaxation step by step. Its closing loop
returns the minimum over the closable rows, and every reported number has
a real tour behind it. `getNearestNeighbor` is specified by the properties of
its result. The properties of the solvers are proved as lemmas about the
specification functions:

- optimality of brute force and of the small brute force;
- "none exactly when nothing is feasible";
- the tour shape of brute force and greedy;
- coverage for divide and conquer;
- soundness of the dynamic program, both on abstract matrices and on the
  graph's snapshots.

Some behaviour is modelled as written even where it looks unintended:

- `getValidArrivalTime` adds the earliest time to an early arrival instead
  of waiting until it.
- `mergePaths` counts the hop's travel time twice.
- `mergePaths` does not check that an edge joins the last city to the next
  one. A missing edge contributes a travel time of -1, and the city can
  still be appended.
- Greedy overwrites the current time on every improvement during the scan,
  not only for the city it finally picks.
- `SolveTSPTW_DP` takes the smallest closing time independently of the
  smallest closing cost.

## Model

| member | source | states |
|---|---|---|
| GraphModel.Graph.constructor | Graph.java:9-11 | a new graph is valid and has no cities and no connections |
| GraphModel.Graph.AddCity | Graph.java:22-31 | a duplicate name is rejected; `earliest > latest` is an illegal argument; otherwise the city is added with its window, last in the enumeration, and the count grows by one; nothing changes on failure |
| GraphModel.Graph.ConnectCities | Graph.java:42-61 | rejects a self-loop, an unknown city or an existing connection in either direction, and a negative distance or time is an illegal argument; otherwise both directions get the same edge; nothing changes on failure |
| GraphModel.Graph.ClearMap | Graph.java:196-198 | afterwards the graph is empty and valid |
| GraphModel.Graph.AllCities | Graph.java:70-72 | lists every city exactly once and nothing else |
| GraphModel.Graph.NumberOfCities | Graph.java:77-79 | is the number of cities |
| GraphModel.Graph.TravelDistance | Graph.java:88-94 | is -1 exactly when there is no edge, otherwise the edge's distance |
| GraphModel.Graph.TravelTime | Graph.java:103-109 | is -1 exactly when there is no edge, otherwise the edge's travel time |
| GraphModel.Graph.IsEdgeValid | Graph.java:190-192 | holds exactly when the travel time, and equally the distance, is not -1 |
| GraphModel.Graph.CityTimeWindow | Graph.java:147-151 | is the city's `(earliest, latest)`, or `(0, 0)` for an unknown city (the source builds `{0, 0}` explicitly) |
| GraphModel.Graph.CityStartTime | Graph.java:153-155 | is the first entry of the city's window |
| GraphModel.Graph.CityEndTime | Graph.java:157-159 | is the second entry of the city's window |
| GraphModel.Graph.EdgesFromCityName | Graph.java:130-145 | its loop over the cities collects exactly `NeighboursIn` of the whole enumeration: each neighbour of the city exactly once, and only neighbours |
| GraphModel.Graph.NeighboursInSpec | Graph.java:130-145 | over a duplicate-free list of cities, the neighbour list holds no city twice and holds a city exactly when it is in the list and joined to the given city |
| GraphModel.Graph.IsEdgeWithinLatestTimeWindow | Graph.java:169-173 | holds exactly when the time is at most the destination's latest time |
| GraphModel.Graph.IsEdgeWithinEarliestTimeWindow | Graph.java:179-181 | holds exactly when the time is at least the destination's earliest time |
| GraphModel.Graph.ValidArrivalTime | Graph.java:111-122 | with `t` = travel time + given time: -1 when `t` is past the latest time, `t` when inside the window, and `t + earliest` (the source's sum, not a wait) when early |
| GraphModel.Graph.CalculateFeasiblePathCost | Graph.java:208-247 | its loop computes exactly `FeasibleCost`: total distance and final time, waiting when early, `None` on a missing edge or a late arrival |
| GraphModel.Graph.CalculateArrivalTime | Graph.java:257-279 | its loop computes exactly `ArrivalTime`: the sum of the travel times plus the extra time, or -1 on a missing edge |
| GraphModel.Graph.ToAdjacencyMatrix | Graph.java:286-298 | a fresh n×n matrix whose entry (i, j) is the distance between city i and city j, or `Integer.MAX_VALUE` without an edge |
| GraphModel.Graph.ToTravelTimeMatrix | Graph.java:306-325 | a fresh n×n matrix whose entry (i, j) is the travel time, or `Integer.MAX_VALUE` without an edge |
| GraphModel.Graph.ToTimeWindowMatrix | Graph.java:332-351 | a fresh n×2n matrix whose row i holds city i's earliest time in every even column and its latest time in every odd column |
| GraphModel.Graph.GetNearestNeighbor | Graph.java:408-435 | the result is a neighbour reachable before its latest time whose (distance, arrival) is lexicographically smallest and below the `Integer.MAX_VALUE` sentinels; `None` exactly when no reachable neighbour beats the sentinels |
| GraphModel.Graph.UpdateCityName | Graph.java:446-458 | rejects an unknown old name or a taken new name; otherwise the city keeps its window and place in the enumeration under the new name, and every edge is re-keyed |
| GraphModel.Graph.UpdateTimeWindow | Graph.java:468-480 | rejects an unknown city, and `earliest > latest` is an illegal argument; otherwise only that city's window changes |
| GraphModel.Graph.UpdateEdgeValues | Graph.java:491-515 | a negative value is an illegal argument (checked first); unknown cities or a missing edge are rejected; otherwise both directions get the new values |
| GraphModel.Graph.UpdateEdgeTo | Graph.java:527-555 | rejects `from == newTo`; a negative value is an illegal argument; unknown cities or a missing old edge are rejected; otherwise the old edge goes in both directions and the new one comes in both directions |
| GraphModel.RenamePreservesEdges | Graph.java:446-458 | re-keying the edges under a fresh name keeps them symmetric and between known, distinct cities |
| GraphModel.RenamePreservesOrder | Graph.java:446-458 | renaming in the enumeration keeps it duplicate-free and exactly the renamed city set |
| GraphProperties.TravelSymmetric | Graph.java:42-61 | distance, travel time and edge validity are the same in both directions |
| GraphProperties.NumberOfCitiesIsLength | Graph.java:70-79 | the count equals the length of the city list |
| GraphProperties.FeasibleCostIsDistance | Graph.java:208-247 | a feasible path's cost is exactly the sum of its edge distances |
| GraphProperties.FeasibleRespectsWindows | Graph.java:208-247 | every step of a feasible path is an edge, and the final time lies inside the last city's window |
| GraphProperties.FeasibleNotBeforeTravel | Graph.java:208-279 | the plain travel-time sum exists for a feasible path and never exceeds the feasible (waiting) time |
| GraphProperties.TravelFromShift | Graph.java:257-279 | shifting the start time shifts the travel-time sum by the same amount |
| GraphProperties.TravelFromAtLeast | Graph.java:257-279 | the travel-time sum never goes below the start time |
| GraphProperties.ValidArrivalTimeVsWaiting | Graph.java:111-122 | -1 exactly when late; otherwise at least the waiting arrival `max(t, earliest)`, and equal to it only when not early or when `t` is 0 |
| GraphProperties.MatrixEntries | Graph.java:286-325 | the matrices are symmetric, have `Integer.MAX_VALUE` on the diagonal and where there is no edge, and hold the graph's values where there is an edge |
| GraphProperties.FeasibleSnoc | Graph.java:208-247 | extending a feasible path by one edge adds its distance and either rejects a late arrival or waits until the earliest time |
| GraphProperties.PathDistanceSnoc | Graph.java:208-247 | extending a path by one edge adds that edge's distance |
| Permutations.Permute | BruteForce.java:77-88 | the array is restored, and the sequences appended are exactly `Perms` of the array from index `start`, in the recursion's order |
| Permutations.GeneratePermutations | BruteForce.java:64-68 | returns exactly `Perms(cities, 0)` |
| Permutations.PermsLength | BruteForce.java:77-88 | there are (n − start)! sequences |
| Permutations.PermsArePermutations | BruteForce.java:77-88 | every generated sequence is a rearrangement of the input that keeps its first `start` entries |
| Permutations.PermsComplete | BruteForce.java:77-88 | every such rearrangement is generated |
| Permutations.PermsDistinct | BruteForce.java:77-88 | on a duplicate-free input no sequence is generated twice |
| Basics.BestIndexIsFirstLexMin | BruteForce.java:45-50 | the strict update keeps the first entry of lexicographically least (cost, time); there is none exactly when no entry is feasible |
| BruteForceSolver.SolveBruteForce | BruteForce.java:14-55 | its loop over the permutations returns exactly `BruteForceTour` |
| BruteForceSolver.CandidatesAreAllOrders | BruteForce.java:16-22 | the permutations are exactly the orders of the cities other than the start |
| BruteForceSolver.BruteForceOptimal | BruteForce.java:30-51 | when some closed tour is feasible, a tour is returned; it is feasible, and no closed tour has a lexicographically smaller (cost, time) |
| BruteForceSolver.BruteForceNoneIff | BruteForce.java:39-54 | `null` exactly when every closed tour is infeasible |
| BruteForceSolver.BruteForceTourShape | BruteForce.java:32-35 | the tour is feasible, starts and ends at a known start city, and visits every city exactly once before returning |
| BruteForceSolver.SingleCityHasNoTour | BruteForce.java:30-51 | with one city the only candidate `[start, start]` has no edge, so the result is `null` |
| GreedySolver.ScanTo | Greedy.java:31-54 | a chosen city is unvisited and joined to the current city; its (distance, time) is the recorded minimum and below the sentinels; with no choice the scan state is the initial one |
| GreedySolver.ScanChoiceArrives | Greedy.java:40-49 | the chosen city passed `getValidArrivalTime` with a result other than -1, computed from the time current when it was scanned, and that result is the time the scan carries forward |
| GreedySolver.ScanCities | Greedy.java:26-54 | the inner loop computes exactly `Scan`, including the overwrite of the current time on every improvement |
| GreedySolver.SolveGreedy | Greedy.java:13-79 | the outer loop returns exactly `GreedyTour` |
| GreedySolver.ScanMinimal | Greedy.java:44-50 | no candidate that was admissible when scanned has a smaller (distance, time) than the one chosen |
| GreedySolver.ScanKeepsFirst | Greedy.java:44-50 | the chosen city sits at some position w of the scan, and every admissible candidate scanned before w has a (distance, time) strictly above the chosen one, so on a tie the earlier city is kept |
| GreedySolver.ScanNoneIff | Greedy.java:42-59 | no city is chosen exactly when no candidate is admissible from the starting time with (distance, time) below the sentinels |
| GreedySolver.GreedyTourShape | Greedy.java:21-78 | a returned path starts and ends at the start city, visits every city exactly once before returning, and every hop is an edge; every hop of the open path is timed: the next city's time is not -1 and is what `getValidArrivalTime` gave for it, starting from time 0 |
| GreedySolver.GreedyFromTimed | Greedy.java:25-68 | each round of the outer loop extends the timed path: the city appended carries the arrival time `getValidArrivalTime` gave it from the previous city's time |
| DivideAndConquerSolver.SmallTsp | DivideAndConquer.java:44-72 | a returned path is a feasible rearrangement of the cities with the start added when missing |
| DivideAndConquerSolver.SolveSmallTsp | DivideAndConquer.java:44-72 | its loop returns exactly `SmallTsp` |
| DivideAndConquerSolver.SmallTspOptimal | DivideAndConquer.java:60-70 | when some rearrangement is feasible, a path is returned and none has a lexicographically smaller (cost, time) |
| DivideAndConquerSolver.MergeFrom | DivideAndConquer.java:80-101 | a merged path is the first path, then the unvisited cities of the second path in their order with each appended once, then the start city; it holds only cities of the inputs and includes every city of the second path |
| DivideAndConquerSolver.MergeFromAccepts | DivideAndConquer.java:80-101 | the merge succeeds exactly when every appended city gets an arrival other than -1 from the path built before it and an edge joins the last city back to the start |
| DivideAndConquerSolver.NewCitiesAreNew | DivideAndConquer.java:80-92 | the cities the loop appends are pairwise distinct and are exactly the cities of the second path that were not yet visited |
| DivideAndConquerSolver.MergePaths | DivideAndConquer.java:74-102 | its loop returns exactly `Merge` |
| DivideAndConquerSolver.MergeCovers | DivideAndConquer.java:74-102 | a merge keeps the first path as its prefix and ends at the start city; in between it appends the cities of the second path that are not in the first, in the second path's order, none twice and none from the first path; it contains every city of both paths |
| DivideAndConquerSolver.MergeAccepts | DivideAndConquer.java:74-102 | `mergePaths` returns a path exactly when every city of the second path not in the first is accepted by the arrival check on the path built so far and the closing edge to the start exists; `null` otherwise; the path returned is the first path, the new cities and the start |
| DivideAndConquerSolver.MergeCountsHopTwice | DivideAndConquer.java:82-83 | the hop to the next city is accepted exactly when the path's travel time plus twice the hop's travel time is within the city's latest time |
| DivideAndConquerSolver.MergeSkipsMissingEdge | DivideAndConquer.java:82-85 | with no edge from the last city, the missing travel time counts as -1 twice; the city is appended exactly when `getValidArrivalTime`'s window test accepts the path's travel time minus 2 and its result is not -1; from a one-city path into a city whose earliest time is 0 it is always appended |
| DivideAndConquerSolver.DivideAndConquer | DivideAndConquer.java:13-39 | a result is non-empty and holds only the given cities and the start |
| DivideAndConquerSolver.SolveDivideAndConquer | DivideAndConquer.java:13-39 | the recursion returns exactly `DivideAndConquer` |
| DivideAndConquerSolver.DivideAndConquerCovers | DivideAndConquer.java:13-39 | a result contains every given city and the start, and with more than three cities it ends at the start |
| DynamicProgrammingSolver.ExtendPath | DynamicProgramming.java:27-44 | extending a witnessed path by an unvisited node within its window gives a witnessed path for the larger mask, with the cost and arrival the recurrence computes |
| DynamicProgrammingSolver.InitTables | DynamicProgramming.java:11-20 | both tables are `2^n × n`; both hold `Integer.MAX_VALUE` everywhere except `(1, 0)`, which is 0 in both; every entry is witnessed; the tables are `TablesBefore` at the first step |
| DynamicProgrammingSolver.RelaxStep | DynamicProgramming.java:28-44 | for one j, entry `[mask + 2^j][j]` takes the smaller of its old cost and `dp[mask][i] + cost[i][j]` when j is eligible, its arrival time changes exactly when that cost is strictly smaller, no other entry changes, and every finite entry stays witnessed |
| DynamicProgrammingSolver.RelaxFrom | DynamicProgramming.java:27-46 | for every eligible j (outside the mask, not i, both edges present, arrival within the window, `dp[mask][i]` reached), entry `[mask + 2^j][j]` becomes the smaller of its old cost and `dp[mask][i] + cost[i][j]`; its arrival time is rewritten exactly when that cost is strictly smaller; every other entry is unchanged; no entry grows; every finite entry stays witnessed by a window-respecting path over exactly its mask |
| DynamicProgrammingSolver.RelaxMask | DynamicProgramming.java:24-47 | the loop over i for one mask takes the tables from `TablesBefore(mask, 0)` to `TablesBefore(mask, n)`, skipping the nodes outside the mask, and keeps every finite entry witnessed |
| DynamicProgrammingSolver.FillTables | DynamicProgramming.java:23-48 | the loop over all masks from 1 to `fullMask` leaves exactly `TablesBefore(fullMask, n)` in both tables, with every finite entry witnessed |
| DynamicProgrammingSolver.MinOrMaxIsMin | DynamicProgramming.java:51-57 | the recursive minimum is at most `Integer.MAX_VALUE`, a lower bound of its sequence, and either an element of it or `Integer.MAX_VALUE`, which it is for the empty sequence |
| DynamicProgrammingSolver.ClosingCostsAreClosable | DynamicProgramming.java:55-57 | the closing costs are exactly `dp[fullMask][i] + cost[i][0]` over the rows i that are closable (i ≥ 1, entry reached, edge back to node 0) |
| DynamicProgrammingSolver.ClosingTimesAreClosable | DynamicProgramming.java:55-62 | the closing times are exactly `arrivalTime[fullMask][i] + travelTime[i][0]` over the same closable rows |
| DynamicProgrammingSolver.ClosingTour | DynamicProgramming.java:55-62 | a closable row's witness path, closed back to node 0, is a real tour whose cost and time are the row's closing cost and closing time |
| DynamicProgrammingSolver.ClosingMinimum | DynamicProgramming.java:51-67 | with no closable row both minima are `Integer.MAX_VALUE`; otherwise a cost minimum below it is the closing cost of some closable row and no more than that of any |
| DynamicProgrammingSolver.CloseTours | DynamicProgramming.java:51-64 | the cost is the recursive minimum of the closing costs and the time, taken independently, the recursive minimum of the closing times; one node gives no tour; a finite cost is the cost of a real closed tour through every node, and a finite time the time of one |
| DynamicProgrammingSolver.SolveTspTwDp | DynamicProgramming.java:6-68 | the cost is the minimum closing cost over the closable rows of the filled table and the time the minimum closing time, each reported as -1 for `Integer.MAX_VALUE`; both are -1 when no row is closable; a cost other than -1 is the closing cost of some closable row and no more than that of any; with one node the result is (-1, -1); a reported cost is the cost of a closed window-respecting tour from node 0 through every node, and a reported time is the time of such a tour; the filled tables handed to the closing loop are exactly `TablesBefore(fullMask, n)` and every finite entry is witnessed |
| DpBridge.Names | Main.java:70-76 | node k of the program names city k of the graph's enumeration |
| DpBridge.FeasiblePathInGraph | Graph.java:208-247 | on the graph's own matrices, every path the recurrence accepts is accepted by `calculateFeasiblePathCost` with the same distance and final time |
| DpBridge.DpTourVisitsAllCities | DynamicProgramming.java:51-64 | a reported tour, read as cities, starts and ends at the first city and visits every city exactly once |
| DpBridge.DpTourCostInGraph | DynamicProgramming.java:51-67 | on the graph's matrices the reported cost is the tour's distance in the graph, and the reported time is the feasible time of its open part plus the closing edge's travel time |
| Bits.SetBit | DynamicProgramming.java:30 | `mask \| (1 << j)` on a clear bit j adds exactly j to the subset |
| Bits.FullMask | DynamicProgramming.java:8 | `(1 << n) - 1` contains exactly the nodes below n |

## Left out

- 32-bit overflow. Path sums, costs and times are unbounded integers. The
  source's `int` sums could wrap, for example `arrivalTime + travelTime` with
  the `Integer.MAX_VALUE` sentinel in the dynamic program's last loop. Inputs
  to the graph are typed as 32-bit values, so the `Integer.MAX_VALUE`
  sentinel comparisons in Greedy and in `getNearestNeighbor` are exact.
- DynamicProgrammingSolver.SolveTspTwDp: soundness only. It does not claim
  that the cost is minimal. The table keeps one (cost, arrival) label per
  (mask, node), so a costlier but earlier partial path can be dropped, and a
  feasible tour can then be missed.
- DynamicProgrammingSolver.SolveTspTwDp: the -1 for "none" is read off
  `Integer.MAX_VALUE`. So a true minimum of -1 is also reported as -1. A
  closing sum at or above `Integer.MAX_VALUE` is treated as none, where
  Java's wrapped sum would not be.
- DynamicProgrammingSolver.SolveTspTwDp: requires 1 <= n <= 30.
  - n = 0 indexes `dp[1]` of a one-row table and throws.
  - From n = 31 on, `1 << n` overflows.
- Arrays.fill is modelled as filling the tables in their initializer.
- BruteForceSolver.SolveBruteForce and DivideAndConquerSolver.SolveSmallTsp:
  the running optimum starts as "no tour yet" instead of
  `(Integer.MAX_VALUE, Integer.MAX_VALUE)`. The two differ only for a
  feasible path whose cost reaches `Integer.MAX_VALUE`.
- HashMap iteration order is not modelled. The fixed enumeration `order`
  stands for it. Which of several equally good cities Greedy or
  `getNearestNeighbor` picks therefore follows that enumeration.
- GraphModel.Graph.GetNearestNeighbor: returns `None` where the public
  method dereferences `null` and throws. Among equal best candidates it
  promises any one.
- GraphModel.Graph.UpdateCityName: re-keys every edge to the new name. The
  Java method renames the node in place, which leaves the neighbour maps'
  hash keys stale. That stale-key behaviour is not modelled.
- DivideAndConquerSolver.DivideAndConquer: requires every listed city and
  the start to be cities of the graph. The calls in Main.java:56 and
  GraphVisualizer.java:31 meet this: they pass `getAllCities()` and the
  city "A". Unknown names are not modelled.
- GreedySolver.SolveGreedy: the running `totalDistance` is not returned by
  the source and is not modelled.
- Node, Edge and TimeWindow are folded into the `windows` and `edges` maps.
  Their constructor exceptions surface as `IllegalArgument`.
- The solvers' result lists are sequence values, not shared mutable lists.
- The private helpers `getNodeByName`, `getEdgeBetweenTwoCities` and
  `getEdgesFromCity` appear only through the functions that use them.
- The GUI (GraphVisualizer.java), the console driver (Main.java) and the
  sample graphs (TestCase2.java, TestCase3.java) are not part of this model.
  Only Main.java's construction of the three matrices is modelled, in
  `DpBridge.Snapshot`.
