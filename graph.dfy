/**
 * The graph of cities (Graph.java): a name-keyed set of cities with time
 * windows, symmetric edges carrying (distance, travelTime), the mutators that
 * build and update it, the lookups with their -1 / Integer.MAX_VALUE
 * sentinels, the two path evaluators and the dense matrix snapshots.
 *
 * Java's HashMap iteration order is unspecified; the field `order` is the one
 * fixed enumeration of the city names that stands in for it wherever the
 * source iterates over `citiesMap` (getAllCities, the matrix builders).
 */
module GraphModel {
  import opened Basics

  /** A city's time window [earliest, latest] (class TimeWindow). */
  datatype Window = Window(earliest: Int32, latest: Int32)

  /** The payload of one directed edge (class Edge). */
  datatype Edge = Edge(distance: Int32, travelTime: Int32)

  /** Replace every occurrence of `a` in `s` by `b`. */
  function Rename(s: seq<string>, a: string, b: string): (r: seq<string>)
    ensures |r| == |s|
    ensures forall k :: 0 <= k < |s| ==> r[k] == (if s[k] == a then b else s[k])
  {
    seq(|s|, k requires 0 <= k < |s| => if s[k] == a then b else s[k])
  }

  function RenameCity(c: string, a: string, b: string): string {
    if c == a then b else c
  }

  function RenamePair(p: (string, string), a: string, b: string): (string, string) {
    (RenameCity(p.0, a, b), RenameCity(p.1, a, b))
  }

  /** The edge map with every endpoint `a` re-keyed to the unused name `b`. */
  function RenameEdges(m: map<(string, string), Edge>, a: string, b: string): (r: map<(string, string), Edge>)
    requires forall p :: p in m ==> p.0 != b && p.1 != b
    ensures forall p :: p in m ==> RenamePair(p, a, b) in r && r[RenamePair(p, a, b)] == m[p]
    ensures forall q :: q in r ==> exists p :: p in m && RenamePair(p, a, b) == q
  {
    map p | p in m :: RenamePair(p, a, b) := m[p]
  }

  /** The well-formedness of an edge map over a window map (part of Graph.Valid). */
  ghost predicate EdgesOver(windows: map<string, Window>, edges: map<(string, string), Edge>) {
    forall a, b :: (a, b) in edges ==>
      && a in windows && b in windows && a != b
      && (b, a) in edges && edges[(b, a)] == edges[(a, b)]
      && edges[(a, b)].distance >= 0 && edges[(a, b)].travelTime >= 0
  }

  lemma RenamePreservesEdges(windows: map<string, Window>, edges: map<(string, string), Edge>, a: string, b: string)
    requires EdgesOver(windows, edges) && a in windows && b !in windows
    ensures forall p :: p in edges ==> p.0 != b && p.1 != b
    ensures EdgesOver((windows - {a})[b := windows[a]], RenameEdges(edges, a, b))
  {
    var renamed := RenameEdges(edges, a, b);
    var w := (windows - {a})[b := windows[a]];
    forall x, y | (x, y) in renamed
      ensures && x in w && y in w && x != y
              && (y, x) in renamed && renamed[(y, x)] == renamed[(x, y)]
              && renamed[(x, y)].distance >= 0 && renamed[(x, y)].travelTime >= 0
    {
      var p :| p in edges && RenamePair(p, a, b) == (x, y);
      RenamedEdge(windows, edges, a, b, p);
    }
  }

  /** One edge of the renamed map, with its reverse. */
  lemma RenamedEdge(windows: map<string, Window>, edges: map<(string, string), Edge>, a: string, b: string,
                    p: (string, string))
    requires EdgesOver(windows, edges) && a in windows && b !in windows && p in edges
    requires forall p :: p in edges ==> p.0 != b && p.1 != b
    ensures var w := (windows - {a})[b := windows[a]];
            var renamed := RenameEdges(edges, a, b);
            var (x, y) := RenamePair(p, a, b);
            && x in w && y in w && x != y
            && (x, y) in renamed && (y, x) in renamed && renamed[(y, x)] == renamed[(x, y)] == edges[p]
  {
    var q := (p.1, p.0);
    assert q in edges && edges[q] == edges[p];
    assert RenamePair(q, a, b) == (RenamePair(p, a, b).1, RenamePair(p, a, b).0);
  }

  lemma RenamePreservesOrder(order: seq<string>, windows: map<string, Window>, a: string, b: string)
    requires Distinct(order) && (forall c :: c in windows <==> c in order) && a in windows && b !in windows
    ensures Distinct(Rename(order, a, b))
    ensures forall c :: c in (windows - {a})[b := windows[a]] <==> c in Rename(order, a, b)
  {
    var r := Rename(order, a, b);
    forall c | c in (windows - {a})[b := windows[a]]
      ensures c in r
    {
      var k :| 0 <= k < |order| && order[k] == (if c == b then a else c);
      assert r[k] == c;
    }
  }

  class Graph {
    var order: seq<string>
    var windows: map<string, Window>
    var edges: map<(string, string), Edge>

    /** The invariants the source's constructors and guards maintain: unique
        names, earliest <= latest, no self-loops, edges between existing
        cities only, symmetric with identical values, never negative. */
    ghost predicate Valid()
      reads this
    {
      && Distinct(order)
      && (forall c :: c in windows <==> c in order)
      && (forall c :: c in windows ==> windows[c].earliest <= windows[c].latest)
      && EdgesOver(windows, edges)
    }

    constructor ()
      ensures Valid()
      ensures order == [] && windows == map[] && edges == map[]
    {
      order := [];
      windows := map[];
      edges := map[];
    }

    // ---------------- construction ----------------

    /** addCity: false on a duplicate name, an exception on an inverted
        window, otherwise exactly one city more. */
    method AddCity(name: string, earliest: Int32, latest: Int32) returns (r: Outcome)
      requires Valid()
      modifies this
      ensures Valid()
      ensures r == (if name in old(windows) then Rejected
                    else if earliest > latest then IllegalArgument
                    else Accepted)
      ensures r == Accepted ==>
                && windows == old(windows)[name := Window(earliest, latest)]
                && order == old(order) + [name]
                && edges == old(edges)
                && NumberOfCities() == old(NumberOfCities()) + 1
      ensures r != Accepted ==> order == old(order) && windows == old(windows) && edges == old(edges)
    {
      if name in windows {
        return Rejected;
      }
      if earliest > latest {
        return IllegalArgument;
      }
      windows := windows[name := Window(earliest, latest)];
      order := order + [name];
      return Accepted;
    }

    /** connectCities: false for a self-loop, an unknown endpoint or an
        existing edge in either direction; negative values throw before
        anything is inserted; otherwise both directions are added. */
    method ConnectCities(from: string, to: string, distance: Int32, travelTime: Int32) returns (r: Outcome)
      requires Valid()
      modifies this
      ensures Valid()
      ensures r == (if from == to then Rejected
                    else if from !in old(windows) || to !in old(windows) then Rejected
                    else if (from, to) in old(edges) || (to, from) in old(edges) then Rejected
                    else if distance < 0 || travelTime < 0 then IllegalArgument
                    else Accepted)
      ensures order == old(order) && windows == old(windows)
      ensures r == Accepted ==>
                edges == old(edges)[(from, to) := Edge(distance, travelTime)][(to, from) := Edge(distance, travelTime)]
      ensures r != Accepted ==> edges == old(edges)
    {
      if from == to {
        return Rejected;
      }
      if from in windows && to in windows {
        if (from, to) in edges || (to, from) in edges {
          return Rejected;
        }
        if distance < 0 || travelTime < 0 {
          return IllegalArgument;
        }
        edges := edges[(from, to) := Edge(distance, travelTime)];
        edges := edges[(to, from) := Edge(distance, travelTime)];
        return Accepted;
      }
      return Rejected;
    }

    /** clearMap. */
    method ClearMap()
      requires Valid()
      modifies this
      ensures Valid() && order == [] && windows == map[] && edges == map[]
    {
      order, windows, edges := [], map[], map[];
    }

    // ---------------- queries ----------------

    /** getAllCities: every city, in the fixed enumeration order. */
    function AllCities(): (r: seq<string>)
      reads this
      requires Valid()
      ensures Distinct(r)
      ensures forall c :: c in r <==> c in windows
    {
      order
    }

    /** getNumberOfCities: the size of the city map. */
    function NumberOfCities(): (n: nat)
      reads this
      requires Valid()
      ensures n == |windows|
    {
      |windows|
    }

    /** getEdgeBetweenTwoCities: null (None) when either city is unknown or
        there is no edge city1 -> city2. */
    function EdgeBetween(city1: string, city2: string): Option<Edge>
      reads this
    {
      if city1 in windows && city2 in windows then
        if (city1, city2) in edges then Some(edges[(city1, city2)]) else None
      else None
    }

    /** getEdgeTravelDistance: -1 exactly when there is no edge. */
    function TravelDistance(city1: string, city2: string): (d: int)
      reads this
      requires Valid()
      ensures d == -1 <==> (city1, city2) !in edges
      ensures (city1, city2) in edges ==> d == edges[(city1, city2)].distance
    {
      match EdgeBetween(city1, city2)
      case None => -1
      case Some(e) => e.distance
    }

    /** getEdgeTravelTime: -1 exactly when there is no edge. */
    function TravelTime(city1: string, city2: string): (t: int)
      reads this
      requires Valid()
      ensures t == -1 <==> (city1, city2) !in edges
      ensures (city1, city2) in edges ==> t == edges[(city1, city2)].travelTime
    {
      match EdgeBetween(city1, city2)
      case None => -1
      case Some(e) => e.travelTime
    }

    /** isEdgeValid: agrees with the -1 sentinel of both lookups. */
    function IsEdgeValid(city1: string, city2: string): (b: bool)
      reads this
      requires Valid()
      ensures b <==> TravelTime(city1, city2) != -1
      ensures b <==> TravelDistance(city1, city2) != -1
    {
      EdgeBetween(city1, city2) != None
    }

    /** getCityTimeWindow: {0, 0} for an unknown city. */
    function CityTimeWindow(city: string): (w: (int, int))
      reads this
      requires Valid()
      ensures w.0 <= w.1
      ensures city in windows ==> w == (windows[city].earliest, windows[city].latest)
      ensures city !in windows ==> w == (0, 0)
    {
      if city in windows then (windows[city].earliest, windows[city].latest) else (0, 0)
    }

    /** getCityStartTime (a NullPointerException for an unknown city). */
    function CityStartTime(city: string): (e: int)
      reads this
      requires Valid() && city in windows
      ensures e == CityTimeWindow(city).0
    {
      windows[city].earliest
    }

    /** getCityEndTime (a NullPointerException for an unknown city). */
    function CityEndTime(city: string): (l: int)
      reads this
      requires Valid() && city in windows
      ensures l == CityTimeWindow(city).1
    {
      windows[city].latest
    }

    /** getEdgesFromCityName: the names reachable by one edge (none for an
        unknown city), collected by a loop in the fixed enumeration order. */
    method EdgesFromCityName(city: string) returns (toCities: seq<string>)
      requires Valid()
      ensures toCities == NeighboursIn(city, order)
      ensures Distinct(toCities)
      ensures forall c :: c in toCities <==> (city, c) in edges
    {
      toCities := [];
      var k := 0;
      while k < |order|
        invariant 0 <= k <= |order|
        invariant toCities == NeighboursIn(city, order[..k])
      {
        assert order[..k + 1][..k] == order[..k];
        if (city, order[k]) in edges {
          toCities := toCities + [order[k]];
        }
        k := k + 1;
      }
      assert order[..k] == order;
      NeighboursInAll(city);
    }

    /** The cities of `cities` joined to `city` by an edge, in order. */
    function NeighboursIn(city: string, cities: seq<string>): (r: seq<string>)
      reads this
      requires Valid()
      decreases |cities|
    {
      if cities == [] then []
      else
        var init := NeighboursIn(city, cities[..|cities| - 1]);
        if (city, Last(cities)) in edges then init + [Last(cities)] else init
    }

    /** On a duplicate-free list, the neighbours are listed once each, and
        they are exactly the listed cities joined to `city`. */
    lemma {:induction false} NeighboursInSpec(city: string, cities: seq<string>)
      requires Valid() && Distinct(cities)
      ensures Distinct(NeighboursIn(city, cities))
      ensures forall c :: c in NeighboursIn(city, cities) <==> c in cities && (city, c) in edges
      decreases |cities|
    {
      if cities != [] {
        var init := cities[..|cities| - 1];
        assert forall c :: c in cities <==> c in init || c == Last(cities);
        NeighboursInSpec(city, init);
        assert Last(cities) !in init;
      }
    }

    /** Over the whole enumeration, the neighbours are exactly the cities
        joined to `city`, each once. */
    lemma NeighboursInAll(city: string)
      requires Valid()
      ensures Distinct(NeighboursIn(city, order))
      ensures forall c :: c in NeighboursIn(city, order) <==> (city, c) in edges
    {
      NeighboursInSpec(city, order);
    }

    /** isEdgeWithinLatestTimeWindow (requireNonNull: the edge must exist). */
    function IsEdgeWithinLatestTimeWindow(city1: string, city2: string, time: int): (b: bool)
      reads this
      requires Valid() && (city1, city2) in edges
      ensures b <==> time <= CityEndTime(city2)
    {
      time <= windows[city2].latest
    }

    /** isEdgeWithinEarliestTimeWindow (requireNonNull: the edge must exist). */
    function IsEdgeWithinEarliestTimeWindow(city1: string, city2: string, time: int): (b: bool)
      reads this
      requires Valid() && (city1, city2) in edges
      ensures b <==> time >= CityStartTime(city2)
    {
      time >= windows[city2].earliest
    }

    /**
     * getValidArrivalTime, as written: t = travelTime + arrivalTime, where a
     * missing edge contributes -1; -1 when t is past the latest time;
     * t + earliest (not max(t, earliest)) when t is before the earliest time;
     * t otherwise. An unknown city2 is a NullPointerException in the source.
     */
    function ValidArrivalTime(city1: string, city2: string, arrivalTime: int): (r: int)
      reads this
      requires Valid() && city2 in windows
      ensures var t := TravelTime(city1, city2) + arrivalTime;
              var w := windows[city2];
              && (t > w.latest ==> r == -1)
              && (t <= w.latest && t >= w.earliest ==> r == t)
              && (t <= w.latest && t < w.earliest ==> r == t + w.earliest)
    {
      var totalTime := TravelTime(city1, city2) + arrivalTime;
      var to := windows[city2];
      if totalTime <= to.latest then
        if !(totalTime >= to.earliest) then totalTime + to.earliest else totalTime
      else -1
    }

    // ---------------- path evaluators ----------------

    /**
     * What calculateFeasiblePathCost computes from position 0 of `path`
     * onward, given the totals accumulated so far: None as soon as a
     * consecutive pair has no edge or an arrival is past the destination's
     * latest time; otherwise waiting until the earliest time when early.
     */
    function FeasibleFrom(path: seq<string>, cost: int, time: int): Option<Cost>
      reads this
      requires Valid()
      decreases |path|
    {
      if |path| <= 1 then Some((cost, time))
      else
        var travel := TravelTime(path[0], path[1]);
        if travel == -1 then None
        else
          var arrival := time + travel;
          var w := windows[path[1]];
          if arrival > w.latest then None
          else FeasibleFrom(path[1..], cost + TravelDistance(path[0], path[1]), Max(arrival, w.earliest))
    }

    /** The (distance, final time) of a path started at time 0, or None. */
    function FeasibleCost(path: seq<string>): Option<Cost>
      reads this
      requires Valid()
    {
      FeasibleFrom(path, 0, 0)
    }

    /** calculateFeasiblePathCost. */
    method CalculateFeasiblePathCost(path: seq<string>) returns (r: Option<Cost>)
      requires Valid()
      ensures r == FeasibleCost(path)
    {
      var totalCost := 0;
      var currentTime := 0;
      var i := 0;
      while i < |path| - 1
        invariant 0 <= i <= |path| || (i == 0 && path == [])
        invariant FeasibleFrom(path[i..], totalCost, currentTime) == FeasibleCost(path)
      {
        var from := path[i];
        var to := path[i + 1];
        var travelTime := TravelTime(from, to);
        if travelTime == -1 {
          return None;
        }
        var arrivalTime := currentTime + travelTime;
        var earliestTime := windows[to].earliest;
        var latestTime := windows[to].latest;
        if arrivalTime > latestTime {
          return None;
        }
        assert path[i..][1..] == path[i + 1..];
        currentTime := Max(arrivalTime, earliestTime);
        totalCost := totalCost + TravelDistance(from, to);
        i := i + 1;
      }
      return Some((totalCost, currentTime));
    }

    /** The plain sum of travel times along `path` added to `time`, with no
        waiting; None when a consecutive pair has no edge. */
    function TravelFrom(path: seq<string>, time: int): Option<int>
      reads this
      requires Valid()
      decreases |path|
    {
      if |path| <= 1 then Some(time)
      else
        var travel := TravelTime(path[0], path[1]);
        if travel == -1 then None
        else TravelFrom(path[1..], time + travel)
    }

    /** What calculateArrivalTime returns: -1 when an edge is missing,
        otherwise the sum of the travel times plus `additionalTravelTime`. */
    function ArrivalTime(path: seq<string>, additionalTravelTime: int): int
      reads this
      requires Valid()
    {
      match TravelFrom(path, 0)
      case None => -1
      case Some(s) => s + additionalTravelTime
    }

    /** calculateArrivalTime. */
    method CalculateArrivalTime(path: seq<string>, additionalTravelTime: int) returns (r: int)
      requires Valid()
      ensures r == ArrivalTime(path, additionalTravelTime)
    {
      var currentTime := 0;
      var i := 0;
      while i < |path| - 1
        invariant 0 <= i <= |path| || (i == 0 && path == [])
        invariant TravelFrom(path[i..], currentTime) == TravelFrom(path, 0)
      {
        var edgeTravelTime := TravelTime(path[i], path[i + 1]);
        if edgeTravelTime == -1 {
          return -1;
        }
        assert path[i..][1..] == path[i + 1..];
        currentTime := currentTime + edgeTravelTime;
        i := i + 1;
      }
      return currentTime + additionalTravelTime;
    }

    // ---------------- matrix snapshots ----------------

    /** Entry [i][j] of toAdjacencyMatrix. */
    function DistanceEntry(i: nat, j: nat): int
      reads this
      requires Valid() && i < |order| && j < |order|
    {
      if (order[i], order[j]) in edges then edges[(order[i], order[j])].distance else IntMax
    }

    /** Entry [i][j] of toTravelTimeMatrix. */
    function TravelTimeEntry(i: nat, j: nat): int
      reads this
      requires Valid() && i < |order| && j < |order|
    {
      if (order[i], order[j]) in edges then edges[(order[i], order[j])].travelTime else IntMax
    }

    /** toAdjacencyMatrix: n x n, the distance or Integer.MAX_VALUE. */
    method ToAdjacencyMatrix() returns (m: array2<int>)
      requires Valid()
      ensures fresh(m)
      ensures m.Length0 == |order| && m.Length1 == |order|
      ensures forall i, j :: 0 <= i < |order| && 0 <= j < |order| ==> m[i, j] == DistanceEntry(i, j)
    {
      var n := |order|;
      m := new int[n, n];
      var i := 0;
      while i < n
        invariant 0 <= i <= n
        invariant forall a, b :: 0 <= a < i && 0 <= b < n ==> m[a, b] == DistanceEntry(a, b)
      {
        var j := 0;
        while j < n
          invariant 0 <= j <= n
          invariant forall a, b :: 0 <= a < i && 0 <= b < n ==> m[a, b] == DistanceEntry(a, b)
          invariant forall b :: 0 <= b < j ==> m[i, b] == DistanceEntry(i, b)
        {
          var edge := EdgeBetween(order[i], order[j]);
          m[i, j] := if edge.Some? then edge.value.distance else IntMax;
          j := j + 1;
        }
        i := i + 1;
      }
    }

    /** toTravelTimeMatrix: n x n, the travel time or Integer.MAX_VALUE. */
    method ToTravelTimeMatrix() returns (m: array2<int>)
      requires Valid()
      ensures fresh(m)
      ensures m.Length0 == |order| && m.Length1 == |order|
      ensures forall i, j :: 0 <= i < |order| && 0 <= j < |order| ==> m[i, j] == TravelTimeEntry(i, j)
    {
      var n := |order|;
      m := new int[n, n];
      var i := 0;
      while i < n
        invariant 0 <= i <= n
        invariant forall a, b :: 0 <= a < i && 0 <= b < n ==> m[a, b] == TravelTimeEntry(a, b)
      {
        var j := 0;
        while j < n
          invariant 0 <= j <= n
          invariant forall a, b :: 0 <= a < i && 0 <= b < n ==> m[a, b] == TravelTimeEntry(a, b)
          invariant forall b :: 0 <= b < j ==> m[i, b] == TravelTimeEntry(i, b)
        {
          var edge := EdgeBetween(order[i], order[j]);
          m[i, j] := if edge.Some? then edge.value.travelTime else IntMax;
          j := j + 1;
        }
        i := i + 1;
      }
    }

    /** Entry [i][c] of toTimeWindowMatrix: city i's earliest time in the even
        columns, its latest time in the odd ones. */
    function WindowEntry(i: nat, c: nat): int
      reads this
      requires Valid() && i < |order|
    {
      if c % 2 == 0 then windows[order[i]].earliest else windows[order[i]].latest
    }

    /** toTimeWindowMatrix: n x 2n; row i repeats city i's (earliest, latest)
        at columns 2j and 2j+1. */
    method ToTimeWindowMatrix() returns (m: array2<int>)
      requires Valid()
      ensures fresh(m)
      ensures m.Length0 == |order| && m.Length1 == 2 * |order|
      ensures forall i, c :: 0 <= i < |order| && 0 <= c < 2 * |order| ==> m[i, c] == WindowEntry(i, c)
    {
      var n := |order|;
      m := new int[n, 2 * n];
      var i := 0;
      while i < n
        invariant 0 <= i <= n
        invariant forall a, c :: 0 <= a < i && 0 <= c < 2 * n ==> m[a, c] == WindowEntry(a, c)
      {
        var j := 0;
        while j < n
          invariant 0 <= j <= n
          invariant forall a, c :: 0 <= a < i && 0 <= c < 2 * n ==> m[a, c] == WindowEntry(a, c)
          invariant forall c :: 0 <= c < 2 * j ==> m[i, c] == WindowEntry(i, c)
        {
          var timeWindow := windows[order[i]];
          m[i, 2 * j] := timeWindow.earliest;
          m[i, 2 * j + 1] := timeWindow.latest;
          j := j + 1;
        }
        i := i + 1;
      }
    }

    // ---------------- nearest neighbour ----------------

    /** A neighbour of `current` reachable no later than its latest time. */
    predicate ReachableNeighbour(current: string, c: string, currentTime: int)
      reads this
      requires Valid()
    {
      (current, c) in edges && currentTime + edges[(current, c)].travelTime <= windows[c].latest
    }

    /** The (distance, arrival) pair getNearestNeighbor ranks neighbours by. */
    function NeighbourRank(current: string, c: string, currentTime: int): Cost
      reads this
      requires Valid() && (current, c) in edges
    {
      (edges[(current, c)].distance, currentTime + edges[(current, c)].travelTime)
    }

    /**
     * getNearestNeighbor: among the neighbours reachable within their latest
     * time, one with the smallest distance, ties broken by the earlier
     * arrival. The running minimum starts at (Integer.MAX_VALUE,
     * Integer.MAX_VALUE), so only neighbours ranked strictly below it are
     * eligible. None where the source dereferences null (no eligible
     * neighbour, or an unknown current city).
     */
    method GetNearestNeighbor(current: string, currentTime: int) returns (r: Option<string>)
      requires Valid()
      ensures r.Some? ==> ReachableNeighbour(current, r.value, currentTime)
      ensures r.Some? ==> LexLess(NeighbourRank(current, r.value, currentTime), (IntMax, IntMax))
      ensures r.Some? ==> forall c :: ReachableNeighbour(current, c, currentTime) ==>
                !LexLess(NeighbourRank(current, c, currentTime), NeighbourRank(current, r.value, currentTime))
      ensures r.None? <==> forall c :: ReachableNeighbour(current, c, currentTime) ==>
                !LexLess(NeighbourRank(current, c, currentTime), (IntMax, IntMax))
    {
      r := None;
      var minDistance := IntMax;
      var earliestArrivalTime := IntMax;
      var k := 0;
      while k < |order|
        invariant 0 <= k <= |order|
        invariant r.None? ==> minDistance == IntMax && earliestArrivalTime == IntMax
        invariant r.Some? ==>
                    && ReachableNeighbour(current, r.value, currentTime)
                    && NeighbourRank(current, r.value, currentTime) == (minDistance, earliestArrivalTime)
                    && LexLess((minDistance, earliestArrivalTime), (IntMax, IntMax))
        invariant forall x :: 0 <= x < k && ReachableNeighbour(current, order[x], currentTime) ==>
                    !LexLess(NeighbourRank(current, order[x], currentTime), (minDistance, earliestArrivalTime))
      {
        var c := order[k];
        if (current, c) in edges {
          var edge := edges[(current, c)];
          var arrivalTime := currentTime + edge.travelTime;
          if arrivalTime <= windows[c].latest {
            if edge.distance < minDistance {
              r := Some(c);
              minDistance := edge.distance;
              earliestArrivalTime := arrivalTime;
            } else if edge.distance == minDistance && arrivalTime < earliestArrivalTime {
              r := Some(c);
              earliestArrivalTime := arrivalTime;
            }
          }
        }
        k := k + 1;
      }
      forall c | ReachableNeighbour(current, c, currentTime)
        ensures !LexLess(NeighbourRank(current, c, currentTime), (minDistance, earliestArrivalTime))
      {
        assert c in windows;
        var x :| 0 <= x < |order| && order[x] == c;
      }
    }

    // ---------------- updates ----------------

    /** updateCityName: false when the old name is unknown or the new name is
        taken; otherwise the city (its window and its edges) goes by the new
        name. */
    method UpdateCityName(oldName: string, newName: string) returns (r: Outcome)
      requires Valid()
      modifies this
      ensures Valid()
      ensures r == (if oldName !in old(windows) || newName in old(windows) then Rejected else Accepted)
      ensures r == Accepted ==>
                && windows == (old(windows) - {oldName})[newName := old(windows)[oldName]]
                && order == Rename(old(order), oldName, newName)
                && (forall p :: p in old(edges) ==> p.0 != newName && p.1 != newName)
                && edges == RenameEdges(old(edges), oldName, newName)
      ensures r == Rejected ==> order == old(order) && windows == old(windows) && edges == old(edges)
    {
      if oldName !in windows {
        return Rejected;
      }
      if newName in windows {
        return Rejected;
      }
      var renamed := RenameEdges(edges, oldName, newName);
      RenamePreservesEdges(windows, edges, oldName, newName);
      RenamePreservesOrder(order, windows, oldName, newName);
      var city := windows[oldName];
      windows := (windows - {oldName})[newName := city];
      order := Rename(order, oldName, newName);
      edges := renamed;
      return Accepted;
    }

    /** updateTimeWindow: false for an unknown city, an exception for an
        inverted window, otherwise the window is replaced. */
    method UpdateTimeWindow(cityName: string, newEarliestTime: Int32, newLatestTime: Int32) returns (r: Outcome)
      requires Valid()
      modifies this
      ensures Valid()
      ensures r == (if cityName !in old(windows) then Rejected
                    else if newEarliestTime > newLatestTime then IllegalArgument
                    else Accepted)
      ensures order == old(order) && edges == old(edges)
      ensures r == Accepted ==> windows == old(windows)[cityName := Window(newEarliestTime, newLatestTime)]
      ensures r != Accepted ==> windows == old(windows)
    {
      if cityName !in windows {
        return Rejected;
      }
      if newEarliestTime > newLatestTime {
        return IllegalArgument;
      }
      windows := windows[cityName := Window(newEarliestTime, newLatestTime)];
      return Accepted;
    }

    /** updateEdgeValues: an exception for negative values (checked first),
        false when a city or either direction of the edge is missing,
        otherwise both directions get the new values. */
    method UpdateEdgeValues(fromCityName: string, toCityName: string, newDistance: Int32, newTravelTime: Int32)
      returns (r: Outcome)
      requires Valid()
      modifies this
      ensures Valid()
      ensures r == (if newDistance < 0 || newTravelTime < 0 then IllegalArgument
                    else if fromCityName !in old(windows) || toCityName !in old(windows) then Rejected
                    else if (fromCityName, toCityName) !in old(edges) || (toCityName, fromCityName) !in old(edges) then Rejected
                    else Accepted)
      ensures order == old(order) && windows == old(windows)
      ensures r == Accepted ==>
                edges == old(edges)[(fromCityName, toCityName) := Edge(newDistance, newTravelTime)]
                                   [(toCityName, fromCityName) := Edge(newDistance, newTravelTime)]
      ensures r != Accepted ==> edges == old(edges)
    {
      if newDistance < 0 || newTravelTime < 0 {
        return IllegalArgument;
      }
      if fromCityName !in windows || toCityName !in windows {
        return Rejected;
      }
      if (fromCityName, toCityName) !in edges || (toCityName, fromCityName) !in edges {
        return Rejected;
      }
      edges := edges[(fromCityName, toCityName) := Edge(newDistance, newTravelTime)];
      edges := edges[(toCityName, fromCityName) := Edge(newDistance, newTravelTime)];
      return Accepted;
    }

    /** updateEdgeTo: false for a self-loop, an exception for negative values,
        false when a city or the edge from -> oldTo is missing; otherwise the
        edge between from and oldTo (both directions) is replaced by one
        between from and newTo (both directions). */
    method UpdateEdgeTo(fromCityName: string, oldToCityName: string, newToCityName: string,
                        newDistance: Int32, newTravelTime: Int32) returns (r: Outcome)
      requires Valid()
      modifies this
      ensures Valid()
      ensures r == (if fromCityName == newToCityName then Rejected
                    else if newDistance < 0 || newTravelTime < 0 then IllegalArgument
                    else if fromCityName !in old(windows) || oldToCityName !in old(windows)
                         || newToCityName !in old(windows) then Rejected
                    else if (fromCityName, oldToCityName) !in old(edges) then Rejected
                    else Accepted)
      ensures order == old(order) && windows == old(windows)
      ensures r == Accepted ==>
                edges == (old(edges) - {(fromCityName, oldToCityName), (oldToCityName, fromCityName)})
                           [(fromCityName, newToCityName) := Edge(newDistance, newTravelTime)]
                           [(newToCityName, fromCityName) := Edge(newDistance, newTravelTime)]
      ensures r != Accepted ==> edges == old(edges)
    {
      if fromCityName == newToCityName {
        return Rejected;
      }
      if newDistance < 0 || newTravelTime < 0 {
        return IllegalArgument;
      }
      if fromCityName !in windows || oldToCityName !in windows || newToCityName !in windows {
        return Rejected;
      }
      if (fromCityName, oldToCityName) !in edges {
        return Rejected;
      }
      edges := edges - {(fromCityName, oldToCityName)};
      edges := edges[(fromCityName, newToCityName) := Edge(newDistance, newTravelTime)];
      edges := edges - {(oldToCityName, fromCityName)};
      edges := edges[(newToCityName, fromCityName) := Edge(newDistance, newTravelTime)];
      return Accepted;
    }
  }
}
