/**
 * How the dynamic program reads a graph: the caller builds the three
 * matrices with toAdjacencyMatrix, toTravelTimeMatrix and toTimeWindowMatrix,
 * so node i of the program is city i of the graph's enumeration. On such
 * matrices a path of the program is a path of cities that
 * calculateFeasiblePathCost accepts with the same totals, and a tour the
 * program reports is a round trip from the first city through every city
 * exactly once.
 */
module DpBridge {
  import opened Basics
  import opened Bits
  import opened GraphModel
  import opened GraphProperties
  import opened DynamicProgrammingSolver

  /** The three matrices are the graph's snapshots, as the matrix builders
      of Graph produce them. */
  ghost predicate Snapshot(g: Graph, costM: array2<int>, travelM: array2<int>, windowsM: array2<int>)
    reads g, costM, travelM, windowsM
    requires g.Valid()
  {
    var n := |g.order|;
    && costM.Length0 == n && costM.Length1 == n
    && travelM.Length0 == n && travelM.Length1 == n
    && windowsM.Length0 == n && windowsM.Length1 == 2 * n
    && (forall i, j :: 0 <= i < n && 0 <= j < n ==> costM[i, j] == g.DistanceEntry(i, j))
    && (forall i, j :: 0 <= i < n && 0 <= j < n ==> travelM[i, j] == g.TravelTimeEntry(i, j))
    && (forall i, c :: 0 <= i < n && 0 <= c < 2 * n ==> windowsM[i, c] == g.WindowEntry(i, c))
  }

  /** The city names of a node path. */
  function Names(g: Graph, p: seq<nat>): (r: seq<string>)
    reads g
    requires InRange(p, |g.order|)
    ensures |r| == |p| && forall k :: 0 <= k < |p| ==> r[k] == g.order[p[k]]
    decreases |p|
  {
    if p == [] then [] else Names(g, p[..|p| - 1]) + [g.order[Last(p)]]
  }

  /** One step of a feasible node path is an edge of the graph with the
      matrices' values. */
  lemma StepIsEdge(g: Graph, costM: array2<int>, travelM: array2<int>, windowsM: array2<int>, i: nat, j: nat)
    requires g.Valid() && Snapshot(g, costM, travelM, windowsM)
    requires i < |g.order| && j < |g.order| && (travelM[i, j] != IntMax || costM[i, j] != IntMax)
    ensures (g.order[i], g.order[j]) in g.edges
    ensures g.TravelTime(g.order[i], g.order[j]) == travelM[i, j]
    ensures g.TravelDistance(g.order[i], g.order[j]) == costM[i, j]
    ensures g.windows[g.order[j]].earliest == windowsM[j, 0] && g.windows[g.order[j]].latest == windowsM[j, 1]
  {
    assert g.TravelTimeEntry(i, j) != IntMax || g.DistanceEntry(i, j) != IntMax;
    assert g.WindowEntry(j, 0) == windowsM[j, 0] && g.WindowEntry(j, 1) == windowsM[j, 1];
  }

  /** On a graph's snapshots, every path the program's recurrence accepts is
      accepted by calculateFeasiblePathCost with the same distance and the
      same final time. */
  lemma {:induction false} FeasiblePathInGraph(g: Graph, costM: array2<int>, travelM: array2<int>,
                                               windowsM: array2<int>, p: seq<nat>)
    requires g.Valid() && Snapshot(g, costM, travelM, windowsM) && |g.order| >= 1
    requires |p| >= 1 && InRange(p, |g.order|)
    requires PathFeasible(costM, travelM, windowsM, |g.order|, p)
    ensures g.FeasibleCost(Names(g, p)) ==
              Some((PathCost(costM, |g.order|, p), PathArrival(travelM, windowsM, |g.order|, p)))
    decreases |p|
  {
    var n := |g.order|;
    if |p| > 1 {
      var q := p[..|p| - 1];
      var i, j := Last(q), Last(p);
      FeasiblePathInGraph(g, costM, travelM, windowsM, q);
      StepIsEdge(g, costM, travelM, windowsM, i, j);
      assert Names(g, p) == Names(g, q) + [g.order[j]];
      assert Last(Names(g, q)) == g.order[i];
      FeasibleSnoc(g, Names(g, q), g.order[j], 0, 0);
      var arrival := PathArrival(travelM, windowsM, n, q) + travelM[i, j];
      assert PathCost(costM, n, p) == PathCost(costM, n, q) + costM[i, j];
      assert PathArrival(travelM, windowsM, n, p) == Max(arrival, windowsM[j, 0]) <= windowsM[j, 1];
    }
  }

  /** A tour the program reports, read as cities, starts and ends at the
      first city of the enumeration and visits every city exactly once in
      between. */
  lemma DpTourVisitsAllCities(g: Graph, costM: array2<int>, travelM: array2<int>, windowsM: array2<int>,
                              t: seq<nat>)
    requires g.Valid() && Snapshot(g, costM, travelM, windowsM) && |g.order| >= 1
    requires IsDpTour(costM, travelM, windowsM, |g.order|, t)
    ensures InRange(t, |g.order|)
    ensures var names := Names(g, t);
            var open := names[..|names| - 1];
            && names[0] == g.order[0] && Last(names) == g.order[0]
            && Distinct(open)
            && (forall c :: c in open <==> c in g.windows)
  {
    var n := |g.order|;
    var p := t[..|t| - 1];
    assert t == p + [0];
    FullPathVisitsAll(costM, travelM, windowsM, n, p);
    NamesCoverGraph(g, p);
    var names := Names(g, t);
    assert names[..|names| - 1] == Names(g, p);
  }

  /** On a graph's snapshots, the numbers the program reports for a tour are
      the graph's: the open part of the tour is feasible for
      calculateFeasiblePathCost with the program's totals, an edge leads back
      to the first city, the reported cost is the distance of the whole
      tour, and the reported time is the open part's final time plus the
      travel time of the closing edge. */
  lemma DpTourCostInGraph(g: Graph, costM: array2<int>, travelM: array2<int>, windowsM: array2<int>,
                          t: seq<nat>)
    requires g.Valid() && Snapshot(g, costM, travelM, windowsM) && |g.order| >= 1
    requires IsDpTour(costM, travelM, windowsM, |g.order|, t)
    ensures InRange(t, |g.order|)
    ensures var names := Names(g, t);
            var open := names[..|names| - 1];
            var n := |g.order|;
            && g.FeasibleCost(open) ==
                 Some((PathCost(costM, n, t[..|t| - 1]), PathArrival(travelM, windowsM, n, t[..|t| - 1])))
            && g.IsEdgeValid(Last(open), g.order[0])
            && PathDistance(g, names) == Some(TourCost(costM, n, t))
            && TourTime(travelM, windowsM, n, t) == g.FeasibleCost(open).value.1 + g.TravelTime(Last(open), g.order[0])
  {
    var n := |g.order|;
    var p := t[..|t| - 1];
    assert t == p + [0];
    var names := Names(g, t);
    var open := names[..|names| - 1];
    assert open == Names(g, p);
    FeasiblePathInGraph(g, costM, travelM, windowsM, p);
    StepIsEdge(g, costM, travelM, windowsM, Last(p), 0);
    assert Last(open) == g.order[Last(p)];
    FeasibleCostIsDistance(g, open, 0, 0);
    ClosingDistance(g, names, PathCost(costM, n, p), costM[Last(p), 0]);
  }

  /** The distance of a path is that of its open part plus the closing edge. */
  lemma ClosingDistance(g: Graph, names: seq<string>, d: int, e: int)
    requires g.Valid() && |names| >= 2
    requires var open := names[..|names| - 1];
             && PathDistance(g, open) == Some(d)
             && (Last(open), Last(names)) in g.edges && g.edges[(Last(open), Last(names))].distance == e
    ensures PathDistance(g, names) == Some(d + e)
  {
    var open := names[..|names| - 1];
    assert names == open + [Last(names)];
    PathDistanceSnoc(g, open, Last(names));
  }

  /** A full-mask path of the program visits every node. */
  lemma FullPathVisitsAll(costM: array2<int>, travelM: array2<int>, windowsM: array2<int>, n: nat, p: seq<nat>)
    requires Dims(costM, travelM, windowsM, n) && |p| >= 1
    requires IsDpPath(costM, travelM, windowsM, n, p, Pow2(n) - 1, Last(p))
    ensures forall x :: 0 <= x < n ==> x in p
  {
    forall x | 0 <= x < n ensures x in p {
      FullMask(n, x);
    }
  }

  /** A node path through every node, each once, names every city once. */
  lemma NamesCoverGraph(g: Graph, p: seq<nat>)
    requires g.Valid() && InRange(p, |g.order|) && Distinct(p)
    requires forall x :: 0 <= x < |g.order| ==> x in p
    ensures Distinct(Names(g, p))
    ensures forall c :: c in Names(g, p) <==> c in g.windows
  {
    var names := Names(g, p);
    forall a, b | 0 <= a < b < |names| ensures names[a] != names[b] {
      assert p[a] != p[b];
    }
    forall c | c in g.windows ensures c in names {
      var x :| 0 <= x < |g.order| && g.order[x] == c;
      assert x in p;
      var k :| 0 <= k < |p| && p[k] == x;
      assert names[k] == c;
    }
  }
}
