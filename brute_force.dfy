/**
 * BruteForce.java: every ordering of the cities other than the start is
 * closed into a tour start, ..., start, evaluated with the graph's feasible
 * path cost, and the first tour with the lexicographically smallest
 * (distance, final time) wins; no feasible tour gives null (None).
 */
module BruteForceSolver {
  import opened Basics
  import opened GraphModel
  import opened Permutations

  /** `[start] + perm + [start]`. */
  function Closed(start: string, perm: seq<string>): (t: seq<string>)
    ensures |t| == |perm| + 2 && t[0] == start && Last(t) == start && t[1..|t| - 1] == perm
  {
    [start] + perm + [start]
  }

  /** The orderings the solver evaluates, in evaluation order. */
  function Candidates(g: Graph, start: string): seq<seq<string>>
    reads g
    requires g.Valid()
  {
    Perms(RemoveFirst(g.AllCities(), start), 0)
  }

  /** The feasible cost of each candidate's closed tour. */
  function TourCosts(g: Graph, start: string, cands: seq<seq<string>>): (r: seq<Option<Cost>>)
    reads g
    requires g.Valid()
    ensures |r| == |cands|
  {
    if cands == [] then []
    else [g.FeasibleCost(Closed(start, cands[0]))] + TourCosts(g, start, cands[1..])
  }

  /** Entry k is candidate k's cost. */
  lemma {:induction false} TourCostAt(g: Graph, start: string, cands: seq<seq<string>>, k: nat)
    requires g.Valid() && k < |cands|
    ensures TourCosts(g, start, cands)[k] == g.FeasibleCost(Closed(start, cands[k]))
    decreases k
  {
    if k > 0 {
      TourCostAt(g, start, cands[1..], k - 1);
    }
  }

  /** What solveTSPTW_BruteForce returns: the closed tour of the first
      candidate with the lexicographically smallest feasible cost, or None. */
  function BruteForceTour(g: Graph, start: string): Option<seq<string>>
    reads g
    requires g.Valid()
  {
    var cands := Candidates(g, start);
    match BestIndex(TourCosts(g, start, cands))
    case None => None
    case Some(w) => Some(Closed(start, cands[w]))
  }

  /** solveTSPTW_BruteForce. */
  method SolveBruteForce(g: Graph, start: string) returns (r: Option<seq<string>>)
    requires g.Valid()
    ensures r == BruteForceTour(g, start)
  {
    var cities := g.AllCities();
    cities := RemoveFirst(cities, start);
    var permutations := GeneratePermutations(cities);
    ghost var costs := TourCosts(g, start, permutations);

    r := None;
    var optimalCost := IntMax;
    var optimalTime := IntMax;
    ghost var best: Option<nat> := None;
    var i := 0;
    while i < |permutations|
      invariant 0 <= i <= |permutations|
      invariant best == BestIndex(costs[..i])
      invariant best.Some? ==> best.value < i
      invariant r == if best.None? then None else Some(Closed(start, permutations[best.value]))
      invariant best.Some? ==> costs[best.value] == Some((optimalCost, optimalTime))
    {
      var path := [start] + permutations[i] + [start];
      var result := g.CalculateFeasiblePathCost(path);
      TourCostAt(g, start, permutations, i);
      BestIndexSnoc(costs[..i], result);
      PrefixSnoc(costs, i);
      if result.Some? {
        var cost := result.value.0;
        var time := result.value.1;
        if r.None? || cost < optimalCost || (cost == optimalCost && time < optimalTime) {
          optimalCost := cost;
          optimalTime := time;
          r := Some(path);
          best := Some(i);
        }
      }
      i := i + 1;
    }
    assert costs[..i] == costs;
  }

  // ---------------- properties ----------------

  /** An ordering of exactly the cities other than `start`. */
  predicate IsTourOrder(g: Graph, start: string, q: seq<string>)
    reads g
    requires g.Valid()
  {
    multiset(q) == multiset(RemoveFirst(g.order, start))
  }

  /** The candidates are exactly the orderings of the other cities. */
  lemma CandidatesAreAllOrders(g: Graph, start: string, q: seq<string>)
    requires g.Valid()
    ensures q in Candidates(g, start) <==> IsTourOrder(g, start, q)
  {
    var s := RemoveFirst(g.order, start);
    PermsArePermutations(s, 0);
    if IsTourOrder(g, start, q) {
      assert |q| == |multiset(q)| == |multiset(s)| == |s|;
      PermsComplete(s, 0, q);
    }
  }

  /** The brute-force answer is optimal: when some tour through all the other
      cities is feasible, a tour is returned, it is feasible, and the other
      tour is not lexicographically cheaper. */
  lemma BruteForceOptimal(g: Graph, start: string, q: seq<string>)
    requires g.Valid()
    requires IsTourOrder(g, start, q) && g.FeasibleCost(Closed(start, q)).Some?
    ensures BruteForceTour(g, start).Some?
    ensures g.FeasibleCost(BruteForceTour(g, start).value).Some?
    ensures !LexLess(g.FeasibleCost(Closed(start, q)).value, g.FeasibleCost(BruteForceTour(g, start).value).value)
  {
    var cands := Candidates(g, start);
    var costs := TourCosts(g, start, cands);
    CandidatesAreAllOrders(g, start, q);
    var k :| 0 <= k < |cands| && cands[k] == q;
    TourCostAt(g, start, cands, k);
    BestIndexIsFirstLexMin(costs);
    assert !NoneFeasible(costs);
    var w := BestIndex(costs).value;
    TourCostAt(g, start, cands, w);
  }

  /** None exactly when no tour through all the other cities is feasible. */
  lemma BruteForceNoneIff(g: Graph, start: string)
    requires g.Valid()
    ensures BruteForceTour(g, start).None? <==>
              forall q :: IsTourOrder(g, start, q) ==> g.FeasibleCost(Closed(start, q)).None?
  {
    var cands := Candidates(g, start);
    if BruteForceTour(g, start).Some? {
      var w := BestIndex(TourCosts(g, start, cands)).value;
      CandidatesAreAllOrders(g, start, cands[w]);
      TourCostAt(g, start, cands, w);
    } else {
      forall q | IsTourOrder(g, start, q) ensures g.FeasibleCost(Closed(start, q)).None? {
        if g.FeasibleCost(Closed(start, q)).Some? {
          BruteForceOptimal(g, start, q);
        }
      }
    }
  }

  /** A returned tour is feasible, leaves from and returns to `start`, which
      is a city of the graph, and visits every other city exactly once. */
  lemma BruteForceTourShape(g: Graph, start: string)
    requires g.Valid() && BruteForceTour(g, start).Some?
    ensures var t := BruteForceTour(g, start).value;
            && g.FeasibleCost(t).Some?
            && start in g.windows
            && t[0] == start && Last(t) == start
            && |t| == |g.order| + 1
            && multiset(t[..|t| - 1]) == multiset(g.order)
  {
    var cands := Candidates(g, start);
    var w := BestIndex(TourCosts(g, start, cands)).value;
    TourCostAt(g, start, cands, w);
    var t := Closed(start, cands[w]);
    assert g.FeasibleCost(t).Some?;
    assert g.TravelTime(t[0], t[1]) != -1;
    CandidateShape(g, start, cands[w]);
  }

  /** A candidate closed into a tour from a city of the graph covers the graph. */
  lemma CandidateShape(g: Graph, start: string, perm: seq<string>)
    requires g.Valid() && start in g.windows && perm in Candidates(g, start)
    ensures var t := Closed(start, perm);
            |t| == |g.order| + 1 && multiset(t[..|t| - 1]) == multiset(g.order)
  {
    var t := Closed(start, perm);
    PermsArePermutations(RemoveFirst(g.order, start), 0);
    assert t[..|t| - 1] == [start] + perm;
    assert |multiset(perm)| == |multiset(RemoveFirst(g.order, start))|;
  }

  /** A graph with only the start city has no tour (there are no self-loops). */
  lemma SingleCityHasNoTour(g: Graph, start: string)
    requires g.Valid() && g.order == [start]
    ensures BruteForceTour(g, start).None?
  {
    assert RemoveFirst(g.order, start) == [];
    assert Candidates(g, start) == [[]];
    assert g.TravelTime(start, start) == -1;
    TourCostAt(g, start, [[]], 0);
    assert TourCosts(g, start, [[]]) == [None];
    assert BestIndex([None]) == None;
  }
}
