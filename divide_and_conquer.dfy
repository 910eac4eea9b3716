/**
 * DivideAndConquer.java: lists of at most three cities are solved by trying
 * every ordering of the list with the start city put in front when absent
 * (the orderings are open paths and need not begin at the start); longer
 * lists are split in half, the first half is solved from the start, the
 * second half from the last city of the first half's path, and the two paths
 * are merged: the second path's cities not yet present are appended one at a
 * time while the arrival check accepts them, and the start city is appended
 * when an edge leads back to it.
 */
module DivideAndConquerSolver {
  import opened Basics
  import opened GraphModel
  import opened Permutations
  import opened GraphProperties

  // ---------------- small case ----------------

  /** The list `solveSmallTSP` permutes: the cities, with the start city added
      in front when it is not among them. */
  function WithStart(cities: seq<string>, start: string): (r: seq<string>)
    ensures start in r
    ensures forall c :: c in r <==> c in cities || c == start
    ensures start in cities ==> r == cities
    ensures start !in cities ==> |r| == |cities| + 1
  {
    if start in cities then cities else [start] + cities
  }

  /** The feasible cost of each candidate path. */
  function PathCosts(g: Graph, cands: seq<seq<string>>): (r: seq<Option<Cost>>)
    reads g
    requires g.Valid()
    ensures |r| == |cands|
  {
    if cands == [] then []
    else [g.FeasibleCost(cands[0])] + PathCosts(g, cands[1..])
  }

  /** Entry k is candidate k's cost. */
  lemma {:induction false} PathCostAt(g: Graph, cands: seq<seq<string>>, k: nat)
    requires g.Valid() && k < |cands|
    ensures PathCosts(g, cands)[k] == g.FeasibleCost(cands[k])
    decreases k
  {
    if k > 0 {
      PathCostAt(g, cands[1..], k - 1);
    }
  }

  /** What solveSmallTSP returns: the first ordering with the
      lexicographically smallest feasible (distance, time), or None. */
  function SmallTsp(g: Graph, cities: seq<string>, start: string): (r: Option<seq<string>>)
    reads g
    requires g.Valid()
    ensures r.Some? ==> multiset(r.value) == multiset(WithStart(cities, start))
    ensures r.Some? ==> g.FeasibleCost(r.value).Some?
  {
    var cands := Perms(WithStart(cities, start), 0);
    PermsArePermutations(WithStart(cities, start), 0);
    match BestIndex(PathCosts(g, cands))
    case None => None
    case Some(w) => assert cands[w] in cands; PathCostAt(g, cands, w); Some(cands[w])
  }

  /** solveSmallTSP. */
  method SolveSmallTsp(g: Graph, cities: seq<string>, startCity: string) returns (r: Option<seq<string>>)
    requires g.Valid()
    ensures r == SmallTsp(g, cities, startCity)
  {
    var allCities := cities;
    if startCity !in allCities {
      allCities := [startCity] + allCities;
    }
    var permutations := GeneratePermutations(allCities);
    ghost var costs := PathCosts(g, permutations);

    r := None;
    var optimalCost := IntMax;
    var optimalTime := IntMax;
    ghost var best: Option<nat> := None;
    var i := 0;
    while i < |permutations|
      invariant 0 <= i <= |permutations|
      invariant best == BestIndex(costs[..i])
      invariant best.Some? ==> best.value < i
      invariant r == if best.None? then None else Some(permutations[best.value])
      invariant best.Some? ==> costs[best.value] == Some((optimalCost, optimalTime))
    {
      var perm := permutations[i];
      var cost := g.CalculateFeasiblePathCost(perm);
      PathCostAt(g, permutations, i);
      BestIndexSnoc(costs[..i], cost);
      PrefixSnoc(costs, i);
      if cost.Some? {
        if r.None? || cost.value.0 < optimalCost || (cost.value.0 == optimalCost && cost.value.1 < optimalTime) {
          optimalCost := cost.value.0;
          optimalTime := cost.value.1;
          r := Some(perm);
          best := Some(i);
        }
      }
      i := i + 1;
    }
    assert costs[..i] == costs;
  }

  // ---------------- merge ----------------

  /** The arrival the merge checks before appending `city` after `last`:
      getValidArrivalTime(last, city, calculateArrivalTime(merged, travelTime)). */
  function MergeArrival(g: Graph, merged: seq<string>, last: string, city: string): int
    reads g
    requires g.Valid() && city in g.windows
  {
    g.ValidArrivalTime(last, city, g.ArrivalTime(merged, g.TravelTime(last, city)))
  }

  /** The cities of `rest` the merge appends when none is refused: those not
      yet visited, in the order of `rest`, each the first time it occurs. */
  function NewCities(rest: seq<string>, visited: set<string>): (r: seq<string>)
    ensures forall c :: c in r ==> c in rest
    decreases |rest|
  {
    if rest == [] then []
    else if rest[0] in visited then NewCities(rest[1..], visited)
    else [rest[0]] + NewCities(rest[1..], visited + {rest[0]})
  }

  /** The appended cities are distinct, none was visited before, and they are
      exactly the unvisited cities of `rest`. */
  lemma {:induction false} NewCitiesAreNew(rest: seq<string>, visited: set<string>)
    ensures Distinct(NewCities(rest, visited))
    ensures forall c :: c in NewCities(rest, visited) <==> c in rest && c !in visited
    decreases |rest|
  {
    if rest != [] {
      var city := rest[0];
      assert forall c :: c in rest <==> c == city || c in rest[1..];
      if city in visited {
        NewCitiesAreNew(rest[1..], visited);
      } else {
        NewCitiesAreNew(rest[1..], visited + {city});
        var tail := NewCities(rest[1..], visited + {city});
        assert NewCities(rest, visited) == [city] + tail;
        assert city !in tail;
      }
    }
  }

  /** The merge loop from a given state over the remaining cities of path2,
      then the closing edge back to the start. */
  function MergeFrom(g: Graph, merged: seq<string>, visited: set<string>, last: string,
                     rest: seq<string>, start: string): (r: Option<seq<string>>)
    reads g
    requires g.Valid() && (forall c :: c in rest ==> c in g.windows)
    ensures r.Some? ==> |r.value| > |merged| && r.value[..|merged|] == merged && Last(r.value) == start
    ensures r.Some? ==> forall c :: c in r.value ==> c in merged || c in rest || c == start
    ensures r.Some? ==> forall c :: c in rest ==> c in visited || c in r.value
    ensures r.Some? ==> r.value == merged + NewCities(rest, visited) + [start]
    decreases |rest|
  {
    if rest == [] then
      if g.IsEdgeValid(last, start) then Some(merged + [start]) else None
    else
      var city := rest[0];
      if city in visited then MergeFrom(g, merged, visited, last, rest[1..], start)
      else if MergeArrival(g, merged, last, city) != -1 then
        var r := MergeFrom(g, merged + [city], visited + {city}, city, rest[1..], start);
        assert r.Some? ==> r.value[..|merged|] == (r.value[..|merged| + 1])[..|merged|];
        assert r.Some? ==> r.value[|merged|] == (r.value[..|merged| + 1])[|merged|] == city;
        assert r.Some? ==> r.value == merged + NewCities(rest, visited) + [start] by {
          if r.Some? {
            var tail := NewCities(rest[1..], visited + {city});
            assert NewCities(rest, visited) == [city] + tail;
            assert (merged + [city]) + tail + [start] == merged + ([city] + tail) + [start];
          }
        }
        r
      else None
  }

  /**
   * When the merge succeeds: every city it goes to append, in turn, passes
   * the arrival check from the path built so far and its last city, and an
   * edge leads from the last city back to the start. Otherwise it returns
   * null.
   */
  lemma {:induction false} MergeFromAccepts(g: Graph, merged: seq<string>, visited: set<string>, last: string,
                                            rest: seq<string>, start: string)
    requires g.Valid() && (forall c :: c in rest ==> c in g.windows)
    requires |merged| > 0 && last == Last(merged)
    ensures var q := merged + NewCities(rest, visited);
            MergeFrom(g, merged, visited, last, rest, start).Some? <==>
              && (forall k :: |merged| <= k < |q| ==> MergeArrival(g, q[..k], q[k - 1], q[k]) != -1)
              && g.IsEdgeValid(Last(q), start)
    decreases |rest|
  {
    var q := merged + NewCities(rest, visited);
    if rest == [] {
      assert q == merged;
    } else {
      var city := rest[0];
      if city in visited {
        MergeFromAccepts(g, merged, visited, last, rest[1..], start);
      } else {
        var merged' := merged + [city];
        var tail := NewCities(rest[1..], visited + {city});
        assert q == merged' + tail;
        assert q[..|merged|] == merged && q[|merged|] == city;
        if MergeArrival(g, merged, last, city) != -1 {
          MergeFromAccepts(g, merged', visited + {city}, city, rest[1..], start);
        } else {
          assert MergeArrival(g, q[..|merged|], q[|merged| - 1], q[|merged|]) == -1;
        }
      }
    }
  }

  /** What mergePaths returns. */
  function Merge(g: Graph, path1: seq<string>, path2: seq<string>, start: string): Option<seq<string>>
    reads g
    requires g.Valid() && |path1| > 0 && (forall c :: c in path2 ==> c in g.windows)
  {
    MergeFrom(g, path1, (set c | c in path1), Last(path1), path2, start)
  }

  /** mergePaths. */
  method MergePaths(g: Graph, path1: seq<string>, path2: seq<string>, startCity: string) returns (r: Option<seq<string>>)
    requires g.Valid() && |path1| > 0 && (forall c :: c in path2 ==> c in g.windows)
    ensures r == Merge(g, path1, path2, startCity)
  {
    var mergedPath := path1;
    var visited := set c | c in path1;
    var lastCity := Last(path1);
    var k := 0;
    while k < |path2|
      invariant 0 <= k <= |path2|
      invariant MergeFrom(g, mergedPath, visited, lastCity, path2[k..], startCity) == Merge(g, path1, path2, startCity)
    {
      var city := path2[k];
      assert path2[k..][1..] == path2[k + 1..];
      if city in visited {
        assert MergeFrom(g, mergedPath, visited, lastCity, path2[k..], startCity)
            == MergeFrom(g, mergedPath, visited, lastCity, path2[k + 1..], startCity);
      } else {
        var travelTime := g.TravelTime(lastCity, city);
        var arrivalBase := g.CalculateArrivalTime(mergedPath, travelTime);
        var arrivalTime := g.ValidArrivalTime(lastCity, city, arrivalBase);
        assert arrivalTime == MergeArrival(g, mergedPath, lastCity, city);
        if arrivalTime != -1 {
          assert MergeFrom(g, mergedPath, visited, lastCity, path2[k..], startCity)
              == MergeFrom(g, mergedPath + [city], visited + {city}, city, path2[k + 1..], startCity);
          mergedPath := mergedPath + [city];
          visited := visited + {city};
          lastCity := city;
        } else {
          return None;
        }
      }
      k := k + 1;
    }
    if g.IsEdgeValid(lastCity, startCity) {
      mergedPath := mergedPath + [startCity];
    } else {
      return None;
    }
    return Some(mergedPath);
  }

  // ---------------- the recursion ----------------

  /** What solveTSPTW_DivideAndConquer returns. */
  function DivideAndConquer(g: Graph, cities: seq<string>, start: string): (r: Option<seq<string>>)
    reads g
    requires g.Valid() && (forall c :: c in cities ==> c in g.windows) && start in g.windows
    ensures r.Some? ==> |r.value| > 0 && forall c :: c in r.value ==> c in cities || c == start
    decreases |cities|
  {
    if |cities| <= 3 then
      var r := SmallTsp(g, cities, start);
      assert r.Some? ==> forall c :: c in r.value ==> c in multiset(r.value);
      r
    else
      var mid := |cities| / 2;
      var subset1 := cities[..mid];
      var subset2 := cities[mid..];
      match DivideAndConquer(g, subset1, start)
      case None => None
      case Some(path1) =>
        match DivideAndConquer(g, subset2, Last(path1))
        case None => None
        case Some(path2) =>
          assert forall c :: c in subset1 ==> c in cities;
          assert forall c :: c in subset2 ==> c in cities;
          Merge(g, path1, path2, start)
  }

  /** solveTSPTW_DivideAndConquer. Every listed city and the start are
      taken to be cities of the graph, as at the calls in Main.java and
      GraphVisualizer.java, which pass getAllCities() and the city "A". */
  method SolveDivideAndConquer(g: Graph, cities: seq<string>, startCity: string) returns (r: Option<seq<string>>)
    requires g.Valid() && (forall c :: c in cities ==> c in g.windows) && startCity in g.windows
    ensures r == DivideAndConquer(g, cities, startCity)
    decreases |cities|
  {
    if |cities| <= 3 {
      r := SolveSmallTsp(g, cities, startCity);
      return;
    }
    var mid := |cities| / 2;
    var subset1 := cities[..mid];
    var subset2 := cities[mid..];
    var path1 := SolveDivideAndConquer(g, subset1, startCity);
    if path1.None? {
      return None;
    }
    var lastCityInPath1 := Last(path1.value);
    var path2 := SolveDivideAndConquer(g, subset2, lastCityInPath1);
    if path2.None? {
      return None;
    }
    r := MergePaths(g, path1.value, path2.value, startCity);
  }

  // ---------------- properties ----------------

  /** The small-case answer is optimal among all orderings of its list. */
  lemma SmallTspOptimal(g: Graph, cities: seq<string>, start: string, q: seq<string>)
    requires g.Valid()
    requires multiset(q) == multiset(WithStart(cities, start)) && g.FeasibleCost(q).Some?
    ensures SmallTsp(g, cities, start).Some?
    ensures !LexLess(g.FeasibleCost(q).value, g.FeasibleCost(SmallTsp(g, cities, start).value).value)
  {
    var s := WithStart(cities, start);
    var cands := Perms(s, 0);
    var costs := PathCosts(g, cands);
    assert |q| == |multiset(q)| == |multiset(s)| == |s|;
    PermsComplete(s, 0, q);
    var k :| 0 <= k < |cands| && cands[k] == q;
    PathCostAt(g, cands, k);
    BestIndexIsFirstLexMin(costs);
    assert !NoneFeasible(costs);
    PathCostAt(g, cands, BestIndex(costs).value);
  }

  /** mergePaths succeeds exactly when each city of the second path not in
      the first passes, in turn, the arrival check from the path built so far
      and an edge leads from the last city back to the start; the path it
      returns is then those cities after the first path, closed by the start. */
  lemma MergeAccepts(g: Graph, path1: seq<string>, path2: seq<string>, start: string)
    requires g.Valid() && |path1| > 0 && (forall c :: c in path2 ==> c in g.windows)
    ensures var q := path1 + NewCities(path2, set c | c in path1);
            && (Merge(g, path1, path2, start).Some? <==>
                  && (forall k :: |path1| <= k < |q| ==> MergeArrival(g, q[..k], q[k - 1], q[k]) != -1)
                  && g.IsEdgeValid(Last(q), start))
            && (Merge(g, path1, path2, start).Some? ==> Merge(g, path1, path2, start).value == q + [start])
  {
    MergeFromAccepts(g, path1, (set c | c in path1), Last(path1), path2, start);
  }

  /** A merged path is the first path, then the cities of the second path
      that are not in the first, in the second path's order and each once,
      then the start city; so it contains every city of both paths. */
  lemma MergeCovers(g: Graph, path1: seq<string>, path2: seq<string>, start: string)
    requires g.Valid() && |path1| > 0 && (forall c :: c in path2 ==> c in g.windows)
    requires Merge(g, path1, path2, start).Some?
    ensures var p := Merge(g, path1, path2, start).value;
            var added := p[|path1|..|p| - 1];
            && p[..|path1|] == path1 && Last(p) == start
            && added == NewCities(path2, set c | c in path1)
            && Distinct(added)
            && (forall c :: c in added <==> c in path2 && c !in path1)
            && (forall c :: c in path1 || c in path2 ==> c in p)
  {
    var p := Merge(g, path1, path2, start).value;
    var added := NewCities(path2, set c | c in path1);
    assert p == path1 + added + [start];
    assert p[|path1|..|p| - 1] == added;
    NewCitiesAreNew(path2, set c | c in path1);
    forall c | c in path1 || c in path2 ensures c in p {
      if c in path1 {
        assert c in p[..|path1|];
      } else {
        assert c in added;
      }
    }
  }

  /** Every city of the list appears in a divide-and-conquer answer, and a
      split answer ends back at the start city. */
  lemma {:induction false} DivideAndConquerCovers(g: Graph, cities: seq<string>, start: string)
    requires g.Valid() && (forall c :: c in cities ==> c in g.windows) && start in g.windows
    requires DivideAndConquer(g, cities, start).Some?
    ensures var p := DivideAndConquer(g, cities, start).value;
            && (forall c :: c in cities ==> c in p)
            && start in p
            && (|cities| > 3 ==> Last(p) == start)
    decreases |cities|
  {
    var p := DivideAndConquer(g, cities, start).value;
    if |cities| <= 3 {
      assert forall c :: c in WithStart(cities, start) ==> c in multiset(p);
    } else {
      var mid := |cities| / 2;
      var subset1 := cities[..mid];
      var subset2 := cities[mid..];
      var path1 := DivideAndConquer(g, subset1, start).value;
      var path2 := DivideAndConquer(g, subset2, Last(path1)).value;
      assert p == Merge(g, path1, path2, start).value;
      DivideAndConquerCovers(g, subset1, start);
      DivideAndConquerCovers(g, subset2, Last(path1));
      MergeCovers(g, path1, path2, start);
      assert cities == subset1 + subset2;
    }
  }

  /** The merge counts the hop into a city twice: calculateArrivalTime already
      adds its travel time, and getValidArrivalTime adds it again, so a city is
      accepted exactly when the path's travel-time sum plus twice the hop fits
      before its latest time. */
  lemma MergeCountsHopTwice(g: Graph, merged: seq<string>, last: string, city: string)
    requires g.Valid() && (last, city) in g.edges && g.TravelFrom(merged, 0).Some?
    ensures MergeArrival(g, merged, last, city) != -1 <==>
              g.TravelFrom(merged, 0).value + 2 * g.edges[(last, city)].travelTime <= g.windows[city].latest
  {
    TravelFromAtLeast(g, merged, 0);
  }

  /** The merge does not check that an edge leads to the city it appends:
      without one, getEdgeTravelTime's -1 enters both sums, so the checked
      time is the path's travel-time sum less 2, and the city is accepted
      unless that is past its latest time or the time getValidArrivalTime
      returns happens to be -1; in particular a city whose window opens at 0 is accepted right
      after a one-city path. */
  lemma MergeSkipsMissingEdge(g: Graph, merged: seq<string>, last: string, city: string)
    requires g.Valid() && city in g.windows && (last, city) !in g.edges && g.TravelFrom(merged, 0).Some?
    ensures MergeArrival(g, merged, last, city) != -1 <==>
              MissingEdgeAccepted(g.TravelFrom(merged, 0).value - 2, g.windows[city])
    ensures |merged| == 1 && g.windows[city].earliest == 0 ==> MergeArrival(g, merged, last, city) != -1
  {
    var t := g.TravelFrom(merged, 0).value - 2;
    assert g.TravelTime(last, city) == -1;
    assert g.ArrivalTime(merged, g.TravelTime(last, city)) == t + 1;
    assert MergeArrival(g, merged, last, city) == g.ValidArrivalTime(last, city, t + 1);
  }

  /** getValidArrivalTime's verdict on the combined time t: not past the
      latest time, and the time it returns (t, or t + earliest when early)
      is not the -1 the merge reads as a refusal. */
  predicate MissingEdgeAccepted(t: int, w: Window) {
    t <= w.latest && (if t >= w.earliest then t != -1 else t + w.earliest != -1)
  }
}
