/**
 * Greedy.java: nearest-neighbour construction. From the current city, one
 * scan over all cities picks the unvisited neighbour with the smallest
 * distance (ties: smaller travel time) whose arrival is accepted by the
 * graph's arrival rule; the scan overwrites the current time each time it
 * finds a better candidate, so later candidates of the same scan are judged
 * from that time. When every city is visited the tour is closed back to the
 * start, or abandoned.
 */
module GreedySolver {
  import opened Basics
  import opened GraphModel

  /** The scan's running variables: nextNode, minDistance, minTravelTime, currentTime. */
  datatype ScanState = ScanState(next: Option<string>, minDistance: int, minTravelTime: int, time: int)

  /** An unvisited city reachable from `current` by an edge. */
  predicate Candidate(g: Graph, current: string, visited: set<string>, city: string)
    reads g
  {
    city in g.windows && city !in visited && (current, city) in g.edges
  }

  /** The (distance, travel time) pair the scan ranks a candidate by. */
  function Rank(g: Graph, current: string, city: string): Cost
    reads g
    requires (current, city) in g.edges
  {
    (g.edges[(current, city)].distance, g.edges[(current, city)].travelTime)
  }

  /** One iteration of the inner loop, for `city`. */
  function ScanStep(g: Graph, current: string, visited: set<string>, st: ScanState, city: string): ScanState
    reads g
    requires g.Valid() && city in g.windows
  {
    if city !in visited && g.IsEdgeValid(current, city) then
      var travelTime := g.TravelTime(current, city);
      var travelDistance := g.TravelDistance(current, city);
      var arrivalTime := g.ValidArrivalTime(current, city, st.time);
      if arrivalTime != -1 && (travelDistance < st.minDistance ||
                               (travelDistance == st.minDistance && travelTime < st.minTravelTime))
      then ScanState(Some(city), travelDistance, travelTime, arrivalTime)
      else st
    else st
  }

  /** The scan state after examining the first k cities, starting at time `time0`. */
  function ScanTo(g: Graph, current: string, visited: set<string>, time0: int, k: nat): (s: ScanState)
    reads g
    requires g.Valid() && k <= |g.order|
    ensures s.next.Some? ==>
              && Candidate(g, current, visited, s.next.value)
              && (s.minDistance, s.minTravelTime) == Rank(g, current, s.next.value)
              && LexLess(Rank(g, current, s.next.value), (IntMax, IntMax))
    ensures s.next.None? ==> s == ScanState(None, IntMax, IntMax, time0)
  {
    if k == 0 then ScanState(None, IntMax, IntMax, time0)
    else ScanStep(g, current, visited, ScanTo(g, current, visited, time0, k - 1), g.order[k - 1])
  }

  /** One whole scan. */
  function Scan(g: Graph, current: string, visited: set<string>, time0: int): ScanState
    reads g
    requires g.Valid()
  {
    ScanTo(g, current, visited, time0, |g.order|)
  }

  /** The outer loop from a given state, then the closing step. */
  function GreedyFrom(g: Graph, start: string, path: seq<string>, visited: set<string>, current: string, time: int)
    : Option<seq<string>>
    reads g
    requires g.Valid()
    decreases g.windows.Keys - visited
  {
    if |visited| < g.NumberOfCities() then
      var s := Scan(g, current, visited, time);
      match s.next
      case None => None
      case Some(next) => GreedyFrom(g, start, path + [next], visited + {next}, next, s.time)
    else if current != start && g.IsEdgeValid(current, start) then Some(path + [start])
    else None
  }

  /** What solveTSPTW_Greedy returns. */
  function GreedyTour(g: Graph, start: string): Option<seq<string>>
    reads g
    requires g.Valid()
  {
    GreedyFrom(g, start, [start], {start}, start, 0)
  }

  /** The inner loop of solveTSPTW_Greedy: one scan over all cities from
      `currentCity`, with the running time starting at `currentTime`. */
  method ScanCities(g: Graph, currentCity: string, visited: set<string>, currentTime: int)
    returns (nextNode: Option<string>, minDistance: int, minTravelTime: int, time: int)
    requires g.Valid()
    ensures ScanState(nextNode, minDistance, minTravelTime, time) == Scan(g, currentCity, visited, currentTime)
  {
    nextNode := None;
    minDistance := IntMax;
    minTravelTime := IntMax;
    time := currentTime;
    var cities := g.AllCities();
    var k := 0;
    while k < |cities|
      invariant 0 <= k <= |cities| && cities == g.order
      invariant ScanState(nextNode, minDistance, minTravelTime, time) == ScanTo(g, currentCity, visited, currentTime, k)
    {
      var city := cities[k];
      if city !in visited {
        if g.IsEdgeValid(currentCity, city) {
          var travelTime := g.TravelTime(currentCity, city);
          var travelDistance := g.TravelDistance(currentCity, city);
          var arrivalTime := g.ValidArrivalTime(currentCity, city, time);
          if arrivalTime != -1 {
            if travelDistance < minDistance || (travelDistance == minDistance && travelTime < minTravelTime) {
              minDistance := travelDistance;
              minTravelTime := travelTime;
              nextNode := Some(city);
              time := arrivalTime;
            }
          }
        }
      }
      k := k + 1;
    }
  }

  /** solveTSPTW_Greedy. */
  method SolveGreedy(g: Graph, startCity: string) returns (r: Option<seq<string>>)
    requires g.Valid()
    ensures r == GreedyTour(g, startCity)
  {
    var path := [startCity];
    var visited := {startCity};
    var currentCity := startCity;
    var currentTime := 0;
    var totalDistance := 0;

    while |visited| < g.NumberOfCities()
      invariant GreedyFrom(g, startCity, path, visited, currentCity, currentTime) == GreedyTour(g, startCity)
      decreases g.windows.Keys - visited
    {
      var nextNode, minDistance, minTravelTime;
      nextNode, minDistance, minTravelTime, currentTime := ScanCities(g, currentCity, visited, currentTime);
      if nextNode.None? {
        return None;
      }
      visited := visited + {nextNode.value};
      path := path + [nextNode.value];
      totalDistance := totalDistance + minDistance;
      currentCity := nextNode.value;
    }

    if currentCity != startCity && g.IsEdgeValid(currentCity, startCity) {
      path := path + [startCity];
      totalDistance := totalDistance + g.TravelDistance(currentCity, startCity);
    } else {
      return None;
    }
    return Some(path);
  }

  // ---------------- properties ----------------

  /**
   * The scan's choice is minimal: no candidate that was accepted at the time
   * in effect when the scan examined it ranks strictly below the pair the
   * scan ends with.
   */
  lemma {:induction false} ScanMinimal(g: Graph, current: string, visited: set<string>, time0: int, k: nat)
    requires g.Valid() && k <= |g.order|
    ensures var s := ScanTo(g, current, visited, time0, k);
            forall j :: 0 <= j < k && Candidate(g, current, visited, g.order[j])
                        && g.ValidArrivalTime(current, g.order[j], ScanTo(g, current, visited, time0, j).time) != -1
                        ==> !LexLess(Rank(g, current, g.order[j]), (s.minDistance, s.minTravelTime))
  {
    if k > 0 {
      ScanMinimal(g, current, visited, time0, k - 1);
    }
  }

  /**
   * Ties keep the earlier city: the choice is the city at some index w that
   * ranked strictly below the pair recorded before it, every candidate
   * before w that was accepted when examined ranks strictly above the
   * choice, and (by ScanMinimal) none after it ranks strictly below.
   */
  lemma {:induction false} ScanKeepsFirst(g: Graph, current: string, visited: set<string>, time0: int, k: nat)
    requires g.Valid() && k <= |g.order|
    ensures var s := ScanTo(g, current, visited, time0, k);
            s.next.Some? ==>
              exists w :: 0 <= w < k && g.order[w] == s.next.value
                && (forall j :: 0 <= j < w && Candidate(g, current, visited, g.order[j])
                      && g.ValidArrivalTime(current, g.order[j], ScanTo(g, current, visited, time0, j).time) != -1
                      ==> LexLess((s.minDistance, s.minTravelTime), Rank(g, current, g.order[j])))
  {
    if k > 0 {
      var prev := ScanTo(g, current, visited, time0, k - 1);
      var s := ScanTo(g, current, visited, time0, k);
      if s == prev {
        ScanKeepsFirst(g, current, visited, time0, k - 1);
        if s.next.Some? {
          var w :| 0 <= w < k - 1 && g.order[w] == prev.next.value
                   && (forall j :: 0 <= j < w && Candidate(g, current, visited, g.order[j])
                         && g.ValidArrivalTime(current, g.order[j], ScanTo(g, current, visited, time0, j).time) != -1
                         ==> LexLess((prev.minDistance, prev.minTravelTime), Rank(g, current, g.order[j])));
          assert 0 <= w < k && g.order[w] == s.next.value;
        }
      } else {
        ScanMinimal(g, current, visited, time0, k - 1);
        var city := g.order[k - 1];
        assert s.next == Some(city) && LexLess(Rank(g, current, city), (prev.minDistance, prev.minTravelTime));
        assert (s.minDistance, s.minTravelTime) == Rank(g, current, city);
        forall j | 0 <= j < k - 1 && Candidate(g, current, visited, g.order[j])
                   && g.ValidArrivalTime(current, g.order[j], ScanTo(g, current, visited, time0, j).time) != -1
          ensures LexLess((s.minDistance, s.minTravelTime), Rank(g, current, g.order[j]))
        {
          assert !LexLess(Rank(g, current, g.order[j]), (prev.minDistance, prev.minTravelTime));
        }
        assert g.order[k - 1] == s.next.value;
      }
    }
  }

  /**
   * The scan finds nothing exactly when no candidate is accepted from the
   * starting time with a rank below (Integer.MAX_VALUE, Integer.MAX_VALUE).
   */
  lemma {:induction false} ScanNoneIff(g: Graph, current: string, visited: set<string>, time0: int, k: nat)
    requires g.Valid() && k <= |g.order|
    ensures ScanTo(g, current, visited, time0, k).next.None? <==>
              forall j :: 0 <= j < k && Candidate(g, current, visited, g.order[j])
                          && g.ValidArrivalTime(current, g.order[j], time0) != -1
                          ==> !LexLess(Rank(g, current, g.order[j]), (IntMax, IntMax))
  {
    if k > 0 {
      ScanNoneIff(g, current, visited, time0, k - 1);
    }
  }

  /**
   * The scan only chooses a city whose arrival check passed: the running
   * time it ends with is not -1, and it is the value getValidArrivalTime
   * gave for the chosen city at the running time in effect when the scan
   * examined it.
   */
  lemma {:induction false} ScanChoiceArrives(g: Graph, current: string, visited: set<string>, time0: int, k: nat)
    requires g.Valid() && k <= |g.order|
    ensures var s := ScanTo(g, current, visited, time0, k);
            s.next.Some? ==>
              && s.time != -1
              && exists j :: 0 <= j < k && g.order[j] == s.next.value
                             && g.ValidArrivalTime(current, s.next.value, ScanTo(g, current, visited, time0, j).time) == s.time
  {
    if k > 0 {
      ScanChoiceArrives(g, current, visited, time0, k - 1);
      var prev := ScanTo(g, current, visited, time0, k - 1);
      var s := ScanTo(g, current, visited, time0, k);
      var city := g.order[k - 1];
      if s != prev {
        assert s.next == Some(city) && g.ValidArrivalTime(current, city, prev.time) == s.time != -1;
      }
    }
  }

  /** The state the outer loop keeps: a simple path from the start through
      exactly the visited cities, each step along an edge. */
  ghost predicate SimplePath(g: Graph, start: string, path: seq<string>, visited: set<string>, current: string)
    reads g
    requires g.Valid()
  {
    && |path| >= 1 && path[0] == start && Last(path) == current
    && Distinct(path)
    && (forall c :: c in path <==> c in visited)
    && (|path| >= 2 ==> start in g.windows)
    && (forall c :: c in visited && c != start ==> c in g.windows)
    && (forall k :: 0 <= k < |path| - 1 ==> g.IsEdgeValid(path[k], path[k + 1]))
  }

  /** A tour of the whole graph: from `start`, which is a city, through every
      city exactly once, back to `start`, along edges. */
  ghost predicate IsTour(g: Graph, start: string, p: seq<string>)
    reads g
    requires g.Valid()
  {
    && start in g.windows
    && |p| == |g.order| + 1
    && p[0] == start && Last(p) == start
    && Distinct(p[..|p| - 1])
    && (forall c :: c in p <==> c in g.windows)
    && (forall k :: 0 <= k < |p| - 1 ==> g.IsEdgeValid(p[k], p[k + 1]))
  }

  /** The running time the outer loop carries into each city it appends. */
  function GreedyTimes(g: Graph, start: string, path: seq<string>, visited: set<string>, current: string, time: int)
    : seq<int>
    reads g
    requires g.Valid()
    decreases g.windows.Keys - visited
  {
    if |visited| < g.NumberOfCities() then
      var s := Scan(g, current, visited, time);
      match s.next
      case None => []
      case Some(next) => [s.time] + GreedyTimes(g, start, path + [next], visited + {next}, next, s.time)
    else []
  }

  /** The cities of a path, as a set. */
  function Elems(p: seq<string>): (r: set<string>)
    ensures forall c :: c in r <==> c in p
  {
    set c | c in p
  }

  /** Hop k of `p`, from p[k] to p[k + 1], passed the arrival check: the
      time ts[k + 1] carried into p[k + 1] is not -1, and it is what
      getValidArrivalTime gave for p[k + 1] at the running time in effect
      when the scan from p[k], with the cities of p[..k + 1] visited and
      started at ts[k], examined p[k + 1]. */
  ghost predicate TimedHop(g: Graph, p: seq<string>, ts: seq<int>, k: nat)
    reads g
    requires g.Valid() && k + 1 < |p| && k + 1 < |ts|
  {
    && ts[k + 1] != -1
    && exists j :: 0 <= j < |g.order| && g.order[j] == p[k + 1]
                   && g.ValidArrivalTime(p[k], p[k + 1], ScanTo(g, p[k], Elems(p[..k + 1]), ts[k], j).time)
                      == ts[k + 1]
  }

  /** Every hop of `p` passed the arrival check, with ts[k] the time carried
      into p[k]. */
  ghost predicate TimedPath(g: Graph, p: seq<string>, ts: seq<int>)
    reads g
    requires g.Valid()
  {
    |ts| == |p| && forall k :: 0 <= k < |p| - 1 ==> TimedHop(g, p, ts, k)
  }

  /** One iteration of the outer loop keeps the path simple. */
  lemma ExtendSimplePath(g: Graph, start: string, path: seq<string>, visited: set<string>, current: string,
                         next: string)
    requires g.Valid() && SimplePath(g, start, path, visited, current)
    requires Candidate(g, current, visited, next)
    ensures SimplePath(g, start, path + [next], visited + {next}, next)
  {
    var path' := path + [next];
    assert forall c :: c in path' <==> c in visited + {next};
    assert Distinct(path') by {
      assert next !in path;
    }
    forall k | 0 <= k < |path'| - 1 ensures g.IsEdgeValid(path'[k], path'[k + 1]) {
      if k < |path| - 1 {
        assert path'[k] == path[k] && path'[k + 1] == path[k + 1];
      }
    }
    if |path| == 1 {
      assert current == start && (start, next) in g.edges;
    }
  }

  /** Closing a simple path through every city gives a tour. */
  lemma CloseSimplePath(g: Graph, start: string, path: seq<string>, visited: set<string>, current: string)
    requires g.Valid() && SimplePath(g, start, path, visited, current)
    requires |visited| >= g.NumberOfCities()
    requires current != start && g.IsEdgeValid(current, start)
    ensures IsTour(g, start, path + [start])
  {
    var p := path + [start];
    assert (current, start) in g.edges;
    assert |path| >= 2;
    assert visited <= g.windows.Keys;
    SubsetCard(visited, g.windows.Keys);
    SubsetOfSameSize(visited, g.windows.Keys);
    DistinctCard(path);
    assert (set c | c in path) == visited;
    DistinctCard(g.order);
    assert (set c | c in g.order) == g.windows.Keys;
    assert p[..|p| - 1] == path;
    forall k | 0 <= k < |p| - 1 ensures g.IsEdgeValid(p[k], p[k + 1]) {
      if k < |path| - 1 {
        assert p[k] == path[k] && p[k + 1] == path[k + 1];
      }
    }
  }

  lemma {:induction false} GreedyFromShape(g: Graph, start: string, path: seq<string>, visited: set<string>,
                                           current: string, time: int)
    requires g.Valid() && SimplePath(g, start, path, visited, current)
    requires GreedyFrom(g, start, path, visited, current, time).Some?
    ensures IsTour(g, start, GreedyFrom(g, start, path, visited, current, time).value)
    decreases g.windows.Keys - visited
  {
    if |visited| < g.NumberOfCities() {
      var s := Scan(g, current, visited, time);
      var next := s.next.value;
      ExtendSimplePath(g, start, path, visited, current, next);
      GreedyFromShape(g, start, path + [next], visited + {next}, next, s.time);
    } else {
      CloseSimplePath(g, start, path, visited, current);
    }
  }

  /** Appending the city a scan chooses, with the time the scan ends with,
      keeps every hop timed. */
  lemma ExtendTimedPath(g: Graph, path: seq<string>, ts: seq<int>, visited: set<string>, next: string, t: int)
    requires g.Valid() && |path| >= 1 && TimedPath(g, path, ts) && Elems(path) == visited
    requires var s := Scan(g, Last(path), visited, Last(ts));
             s.next == Some(next) && s.time == t
    ensures TimedPath(g, path + [next], ts + [t])
  {
    var current, time := Last(path), Last(ts);
    ScanChoiceArrives(g, current, visited, time, |g.order|);
    var path', ts' := path + [next], ts + [t];
    forall k | 0 <= k < |path'| - 1 ensures TimedHop(g, path', ts', k) {
      if k < |path| - 1 {
        assert path'[k] == path[k] && path'[k + 1] == path[k + 1] && path'[..k + 1] == path[..k + 1];
        assert ts'[k] == ts[k] && ts'[k + 1] == ts[k + 1];
        assert TimedHop(g, path, ts, k);
      } else {
        assert path'[k] == current && path'[k + 1] == next && path'[..k + 1] == path;
        assert ts'[k] == time && ts'[k + 1] == t;
      }
    }
  }

  /** One iteration of the outer loop, unfolded for the path and the times. */
  lemma GreedyStep(g: Graph, start: string, path: seq<string>, visited: set<string>, current: string, time: int)
    requires g.Valid() && |visited| < g.NumberOfCities()
    requires Scan(g, current, visited, time).next.Some?
    ensures var s := Scan(g, current, visited, time);
            var next := s.next.value;
            && GreedyFrom(g, start, path, visited, current, time)
               == GreedyFrom(g, start, path + [next], visited + {next}, next, s.time)
            && GreedyTimes(g, start, path, visited, current, time)
               == [s.time] + GreedyTimes(g, start, path + [next], visited + {next}, next, s.time)
  {
  }

  /** The closing step: the path gets the start city, and no time is added. */
  lemma GreedyClose(g: Graph, start: string, path: seq<string>, visited: set<string>, current: string, time: int)
    requires g.Valid() && |visited| >= g.NumberOfCities()
    requires GreedyFrom(g, start, path, visited, current, time).Some?
    ensures GreedyFrom(g, start, path, visited, current, time) == Some(path + [start])
    ensures GreedyTimes(g, start, path, visited, current, time) == []
  {
  }

  lemma {:induction false} GreedyFromTimed(g: Graph, start: string, path: seq<string>, visited: set<string>,
                                           current: string, time: int, ts: seq<int>)
    requires g.Valid() && |path| >= 1 && Last(path) == current && Elems(path) == visited
    requires TimedPath(g, path, ts) && Last(ts) == time
    requires GreedyFrom(g, start, path, visited, current, time).Some?
    ensures var p := GreedyFrom(g, start, path, visited, current, time).value;
            |p| >= 1 && TimedPath(g, p[..|p| - 1], ts + GreedyTimes(g, start, path, visited, current, time))
    decreases g.windows.Keys - visited
  {
    if |visited| < g.NumberOfCities() {
      var s := Scan(g, current, visited, time);
      assert s.next.Some?;
      var next := s.next.value;
      GreedyStep(g, start, path, visited, current, time);
      assert Elems(path + [next]) == visited + {next};
      ExtendTimedPath(g, path, ts, visited, next, s.time);
      GreedyFromTimed(g, start, path + [next], visited + {next}, next, s.time, ts + [s.time]);
      assert ts + ([s.time] + GreedyTimes(g, start, path + [next], visited + {next}, next, s.time))
          == (ts + [s.time]) + GreedyTimes(g, start, path + [next], visited + {next}, next, s.time);
    } else {
      GreedyClose(g, start, path, visited, current, time);
      var p := path + [start];
      assert p[..|p| - 1] == path && ts + [] == ts;
    }
  }

  /** A greedy tour starts and ends at the start city, which is a city of the
      graph, visits every city exactly once in between, and follows edges;
      every hop before the closing edge passed the arrival check at the time
      in effect, starting from time 0 at the start city. */
  lemma GreedyTourShape(g: Graph, start: string)
    requires g.Valid() && GreedyTour(g, start).Some?
    ensures IsTour(g, start, GreedyTour(g, start).value)
    ensures var p := GreedyTour(g, start).value;
            TimedPath(g, p[..|p| - 1], [0] + GreedyTimes(g, start, [start], {start}, start, 0))
  {
    GreedyFromShape(g, start, [start], {start}, start, 0);
    assert Elems([start]) == {start};
    GreedyFromTimed(g, start, [start], {start}, start, 0, [0]);
  }
}
