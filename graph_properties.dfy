/**
 * Properties of the graph model: the symmetry the mutators maintain, what the
 * path evaluators compute stated against independent sums, the arrival-time
 * rule of getValidArrivalTime compared with "wait until the window opens",
 * and the shape of the matrix snapshots.
 */
module GraphProperties {
  import opened Basics
  import opened GraphModel

  /** Sum of the edge distances along `path`; None when a pair has no edge. */
  function PathDistance(g: Graph, path: seq<string>): Option<int>
    reads g
    requires g.Valid()
    decreases |path|
  {
    if |path| <= 1 then Some(0)
    else if (path[0], path[1]) !in g.edges then None
    else match PathDistance(g, path[1..])
      case None => None
      case Some(d) => Some(g.edges[(path[0], path[1])].distance + d)
  }

  /** Every edge can be walked both ways with the same values. */
  lemma TravelSymmetric(g: Graph, a: string, b: string)
    requires g.Valid()
    ensures g.TravelTime(a, b) == g.TravelTime(b, a)
    ensures g.TravelDistance(a, b) == g.TravelDistance(b, a)
    ensures g.IsEdgeValid(a, b) == g.IsEdgeValid(b, a)
  {
  }

  /** getNumberOfCities agrees with the length of getAllCities. */
  lemma NumberOfCitiesIsLength(g: Graph)
    requires g.Valid()
    ensures g.NumberOfCities() == |g.AllCities()|
  {
    DistinctCard(g.order);
    assert (set c | c in g.order) == g.windows.Keys;
  }

  /** The cost calculateFeasiblePathCost reports is the plain distance sum. */
  lemma {:induction false} FeasibleCostIsDistance(g: Graph, path: seq<string>, cost: int, time: int)
    requires g.Valid()
    requires g.FeasibleFrom(path, cost, time).Some?
    ensures PathDistance(g, path).Some?
    ensures g.FeasibleFrom(path, cost, time).value.0 == cost + PathDistance(g, path).value
    decreases |path|
  {
    if |path| > 1 {
      var travel := g.TravelTime(path[0], path[1]);
      var w := g.windows[path[1]];
      FeasibleCostIsDistance(g, path[1..], cost + g.TravelDistance(path[0], path[1]),
                             Max(time + travel, w.earliest));
    }
  }

  /** A feasible path has an edge between every consecutive pair and
      reaches its last city within that city's window. */
  lemma {:induction false} FeasibleRespectsWindows(g: Graph, path: seq<string>, cost: int, time: int)
    requires g.Valid()
    requires g.FeasibleFrom(path, cost, time).Some?
    ensures forall k :: 0 <= k < |path| - 1 ==> g.IsEdgeValid(path[k], path[k + 1])
    ensures |path| >= 2 ==>
              var t := g.FeasibleFrom(path, cost, time).value.1;
              Last(path) in g.windows && g.windows[Last(path)].earliest <= t <= g.windows[Last(path)].latest
    decreases |path|
  {
    if |path| > 1 {
      var travel := g.TravelTime(path[0], path[1]);
      var w := g.windows[path[1]];
      var rest := path[1..];
      FeasibleRespectsWindows(g, rest, cost + g.TravelDistance(path[0], path[1]), Max(time + travel, w.earliest));
      forall k | 0 <= k < |path| - 1
        ensures g.IsEdgeValid(path[k], path[k + 1])
      {
        if k > 0 {
          assert path[k] == rest[k - 1] && path[k + 1] == rest[k];
        }
      }
      assert Last(rest) == Last(path);
    }
  }

  /** Waiting never makes a tour faster: the finishing time of a feasible path
      is at least the travel-time sum calculateArrivalTime reports, from any
      earlier start. */
  lemma {:induction false} FeasibleNotBeforeTravel(g: Graph, path: seq<string>, cost: int, time: int, start: int)
    requires g.Valid()
    requires start <= time
    requires g.FeasibleFrom(path, cost, time).Some?
    ensures g.TravelFrom(path, start).Some?
    ensures g.TravelFrom(path, start).value <= g.FeasibleFrom(path, cost, time).value.1
    decreases |path|
  {
    if |path| > 1 {
      var travel := g.TravelTime(path[0], path[1]);
      var w := g.windows[path[1]];
      FeasibleNotBeforeTravel(g, path[1..], cost + g.TravelDistance(path[0], path[1]),
                              Max(time + travel, w.earliest), start + travel);
    }
  }

  /** The travel-time sum is a shift: starting later by `d` ends later by `d`. */
  lemma {:induction false} TravelFromShift(g: Graph, path: seq<string>, time: int, d: int)
    requires g.Valid()
    ensures g.TravelFrom(path, time).Some? <==> g.TravelFrom(path, time + d).Some?
    ensures g.TravelFrom(path, time).Some? ==>
              g.TravelFrom(path, time + d).value == g.TravelFrom(path, time).value + d
    decreases |path|
  {
    if |path| > 1 {
      var travel := g.TravelTime(path[0], path[1]);
      if travel != -1 {
        TravelFromShift(g, path[1..], time + travel, d);
      }
    }
  }

  /** Travel times are never negative, so the sum never drops below its start. */
  lemma {:induction false} TravelFromAtLeast(g: Graph, path: seq<string>, time: int)
    requires g.Valid() && g.TravelFrom(path, time).Some?
    ensures g.TravelFrom(path, time).value >= time
    decreases |path|
  {
    if |path| > 1 {
      TravelFromAtLeast(g, path[1..], time + g.TravelTime(path[0], path[1]));
    }
  }

  /**
   * getValidArrivalTime compared with the waiting rule: it rejects exactly
   * the arrivals past the latest time, never reports a time before the
   * window opens, and agrees with max(arrival, earliest) exactly when the
   * arrival is already inside the window or is zero.
   */
  lemma ValidArrivalTimeVsWaiting(g: Graph, c1: string, c2: string, arrivalTime: int)
    requires g.Valid() && (c1, c2) in g.edges && arrivalTime >= 0
    ensures var t := g.TravelTime(c1, c2) + arrivalTime;
            var w := g.windows[c2];
            var r := g.ValidArrivalTime(c1, c2, arrivalTime);
            && (r == -1 <==> t > w.latest)
            && (r != -1 ==> r >= Max(t, w.earliest))
            && (r != -1 ==> (r == Max(t, w.earliest) <==> t >= w.earliest || t == 0))
  {
  }

  /** toAdjacencyMatrix / toTravelTimeMatrix: symmetric, Integer.MAX_VALUE on
      the diagonal, and each entry is the lookup's value where an edge exists. */
  lemma MatrixEntries(g: Graph, i: nat, j: nat)
    requires g.Valid() && i < |g.order| && j < |g.order|
    ensures g.DistanceEntry(i, j) == g.DistanceEntry(j, i)
    ensures g.TravelTimeEntry(i, j) == g.TravelTimeEntry(j, i)
    ensures i == j ==> g.DistanceEntry(i, j) == IntMax && g.TravelTimeEntry(i, j) == IntMax
    ensures g.IsEdgeValid(g.order[i], g.order[j]) ==>
              && g.DistanceEntry(i, j) == g.TravelDistance(g.order[i], g.order[j])
              && g.TravelTimeEntry(i, j) == g.TravelTime(g.order[i], g.order[j])
    ensures !g.IsEdgeValid(g.order[i], g.order[j]) ==>
              g.DistanceEntry(i, j) == IntMax && g.TravelTimeEntry(i, j) == IntMax
  {
  }

  /** Evaluating a path extended by one city along an edge is one more step
      of calculateFeasiblePathCost from the path's totals. */
  lemma {:induction false} FeasibleSnoc(g: Graph, path: seq<string>, x: string, cost: int, time: int)
    requires g.Valid() && |path| >= 1 && (Last(path), x) in g.edges
    requires g.FeasibleFrom(path, cost, time).Some?
    ensures var r := g.FeasibleFrom(path, cost, time).value;
            var arrival := r.1 + g.TravelTime(Last(path), x);
            g.FeasibleFrom(path + [x], cost, time) ==
              if arrival > g.windows[x].latest then None
              else Some((r.0 + g.TravelDistance(Last(path), x), Max(arrival, g.windows[x].earliest)))
    decreases |path|
  {
    if |path| == 1 {
      assert (path + [x])[1..] == [x];
    } else {
      assert (path + [x])[1..] == path[1..] + [x];
      assert (path + [x])[0] == path[0] && (path + [x])[1] == path[1];
      assert Last(path[1..]) == Last(path);
      var cost' := cost + g.TravelDistance(path[0], path[1]);
      var time' := Max(time + g.TravelTime(path[0], path[1]), g.windows[path[1]].earliest);
      assert g.FeasibleFrom(path, cost, time) == g.FeasibleFrom(path[1..], cost', time');
      assert g.FeasibleFrom(path + [x], cost, time) == g.FeasibleFrom(path[1..] + [x], cost', time');
      FeasibleSnoc(g, path[1..], x, cost', time');
    }
  }

  /** The distance of a path extended by one city along an edge. */
  lemma {:induction false} PathDistanceSnoc(g: Graph, path: seq<string>, x: string)
    requires g.Valid() && |path| >= 1 && (Last(path), x) in g.edges
    requires PathDistance(g, path).Some?
    ensures PathDistance(g, path + [x]) == Some(PathDistance(g, path).value + g.edges[(Last(path), x)].distance)
    decreases |path|
  {
    if |path| > 1 {
      assert (path + [x])[1..] == path[1..] + [x];
      PathDistanceSnoc(g, path[1..], x);
    }
  }
}
