/**
 * DynamicProgramming.java: the Held-Karp style bitmask recurrence over three
 * matrices (cost, travel time, time windows as [earliest, latest] rows), with
 * Integer.MAX_VALUE marking a missing edge or an unreached table entry.
 * dp[mask][i] is the cost of the one path from node 0 through exactly the
 * nodes of `mask`, ending at i, that the table keeps, and arrivalTime[mask][i]
 * that path's arrival time; the answer closes a full path back to node 0.
 *
 * The table keeps a single label per (mask, i), so it is sound (every value
 * it reports is the cost of a real window-respecting tour) but not
 * necessarily minimal; only soundness is stated here.
 */
module DynamicProgrammingSolver {
  import opened Basics
  import opened Bits

  /** The shape the source indexes: n = costMatrix.length rows, n columns
      used in the cost and travel-time matrices, two in the window matrix. */
  predicate Dims(costM: array2<int>, travelM: array2<int>, windowsM: array2<int>, n: nat) {
    && costM.Length0 == n && costM.Length1 >= n
    && travelM.Length0 >= n && travelM.Length1 >= n
    && windowsM.Length0 >= n && windowsM.Length1 >= 2
  }

  predicate InRange(p: seq<nat>, n: nat) {
    forall t :: 0 <= t < |p| ==> p[t] < n
  }

  /** Sum of the cost-matrix entries along a node path. */
  function PathCost(costM: array2<int>, n: nat, p: seq<nat>): int
    reads costM
    requires costM.Length0 >= n && costM.Length1 >= n
    requires |p| >= 1 && InRange(p, n)
    decreases |p|
  {
    if |p| == 1 then 0
    else
      var q := p[..|p| - 1];
      PathCost(costM, n, q) + costM[Last(q), Last(p)]
  }

  /** The arrival time the recurrence assigns along a node path started at
      time 0: travel, then wait until the window opens. */
  function PathArrival(travelM: array2<int>, windowsM: array2<int>, n: nat, p: seq<nat>): int
    reads travelM, windowsM
    requires travelM.Length0 >= n && travelM.Length1 >= n && windowsM.Length0 >= n && windowsM.Length1 >= 2
    requires |p| >= 1 && InRange(p, n)
    decreases |p|
  {
    if |p| == 1 then 0
    else
      var q := p[..|p| - 1];
      Max(PathArrival(travelM, windowsM, n, q) + travelM[Last(q), Last(p)], windowsM[Last(p), 0])
  }

  /** Every step of the path uses an existing edge (no Integer.MAX_VALUE
      entry) and arrives no later than the latest time of its node. */
  ghost predicate PathFeasible(costM: array2<int>, travelM: array2<int>, windowsM: array2<int>, n: nat, p: seq<nat>)
    reads costM, travelM, windowsM
    requires Dims(costM, travelM, windowsM, n)
    requires |p| >= 1 && InRange(p, n)
    decreases |p|
  {
    |p| == 1 ||
    (var q := p[..|p| - 1];
     && PathFeasible(costM, travelM, windowsM, n, q)
     && travelM[Last(q), Last(p)] != IntMax
     && costM[Last(q), Last(p)] != IntMax
     && PathArrival(travelM, windowsM, n, p) <= windowsM[Last(p), 1])
  }

  /** A path that can stand behind table entry [mask][k]: from node 0,
      through exactly the nodes of `mask`, each once, ending at k. */
  ghost predicate IsDpPath(costM: array2<int>, travelM: array2<int>, windowsM: array2<int>, n: nat,
                           p: seq<nat>, mask: nat, k: nat)
    reads costM, travelM, windowsM
    requires Dims(costM, travelM, windowsM, n)
  {
    && |p| >= 1 && InRange(p, n)
    && p[0] == 0 && Last(p) == k
    && Distinct(p)
    && (forall x :: 0 <= x < n ==> (x in p <==> Bit(mask, x)))
    && PathFeasible(costM, travelM, windowsM, n, p)
  }

  /** A closed tour the answer can report: a full-mask path ending at some
      node other than 0, followed by an existing edge back to node 0. */
  ghost predicate IsDpTour(costM: array2<int>, travelM: array2<int>, windowsM: array2<int>, n: nat, t: seq<nat>)
    reads costM, travelM, windowsM
    requires Dims(costM, travelM, windowsM, n)
  {
    && |t| >= 2 && Last(t) == 0
    && var p := t[..|t| - 1];
       && IsDpPath(costM, travelM, windowsM, n, p, Pow2(n) - 1, Last(p))
       && Last(p) != 0
       && costM[Last(p), 0] != IntMax
  }

  /** The cost the answer reports for a tour. */
  function TourCost(costM: array2<int>, n: nat, t: seq<nat>): int
    reads costM
    requires costM.Length0 >= n && costM.Length1 >= n
    requires |t| >= 2 && InRange(t, n)
  {
    var p := t[..|t| - 1];
    PathCost(costM, n, p) + costM[Last(p), Last(t)]
  }

  /** The time the answer reports for a tour: the path's arrival at its last
      node plus the travel time back (no waiting, no window check). */
  function TourTime(travelM: array2<int>, windowsM: array2<int>, n: nat, t: seq<nat>): int
    reads travelM, windowsM
    requires travelM.Length0 >= n && travelM.Length1 >= n && windowsM.Length0 >= n && windowsM.Length1 >= 2
    requires |t| >= 2 && InRange(t, n)
  {
    var p := t[..|t| - 1];
    PathArrival(travelM, windowsM, n, p) + travelM[Last(p), Last(t)]
  }

  /** The table invariant: every reached entry is witnessed by a path whose
      cost and arrival time are the entry's. */
  ghost predicate Witnessed(costM: array2<int>, travelM: array2<int>, windowsM: array2<int>, n: nat,
                            dp: array2<int>, arrivalTime: array2<int>, wit: map<(int, int), seq<nat>>)
    reads costM, travelM, windowsM, dp, arrivalTime
    requires Dims(costM, travelM, windowsM, n)
    requires dp.Length0 == arrivalTime.Length0 && dp.Length1 == n && arrivalTime.Length1 == n
  {
    forall m, k :: 0 <= m < dp.Length0 && 0 <= k < n && dp[m, k] != IntMax ==>
      && (m, k) in wit
      && IsDpPath(costM, travelM, windowsM, n, wit[(m, k)], m, k)
      && PathCost(costM, n, wit[(m, k)]) == dp[m, k]
      && PathArrival(travelM, windowsM, n, wit[(m, k)]) == arrivalTime[m, k]
  }

  /** One relaxation step extends a witness path by node j. */
  lemma ExtendPath(costM: array2<int>, travelM: array2<int>, windowsM: array2<int>, n: nat,
                   p: seq<nat>, mask: nat, i: nat, j: nat)
    requires Dims(costM, travelM, windowsM, n)
    requires IsDpPath(costM, travelM, windowsM, n, p, mask, i)
    requires j < n && i != j && !Bit(mask, j)
    requires travelM[i, j] != IntMax && costM[i, j] != IntMax
    requires Max(PathArrival(travelM, windowsM, n, p) + travelM[i, j], windowsM[j, 0]) <= windowsM[j, 1]
    ensures IsDpPath(costM, travelM, windowsM, n, p + [j], mask + Pow2(j), j)
    ensures PathCost(costM, n, p + [j]) == PathCost(costM, n, p) + costM[i, j]
    ensures PathArrival(travelM, windowsM, n, p + [j]) ==
              Max(PathArrival(travelM, windowsM, n, p) + travelM[i, j], windowsM[j, 0])
  {
    var p' := p + [j];
    assert p'[..|p'| - 1] == p;
    assert j !in p;
    forall x | 0 <= x < n ensures x in p' <==> Bit(mask + Pow2(j), x) {
      SetBit(mask, j, x);
    }
  }

  /** `dp[newMask][j] = newCost; arrivalTime[newMask][j] = newArrivalTime;`
      with `path` as the new entry's witness. */
  method Relax(costM: array2<int>, travelM: array2<int>, windowsM: array2<int>, n: nat,
               dp: array2<int>, arrivalTime: array2<int>, ghost wit: map<(int, int), seq<nat>>,
               newMask: nat, j: nat, newCost: int, newArrivalTime: int, ghost path: seq<nat>)
    returns (ghost wit': map<(int, int), seq<nat>>)
    requires Dims(costM, travelM, windowsM, n)
    requires dp.Length0 == arrivalTime.Length0 && dp.Length1 == n && arrivalTime.Length1 == n
    requires dp != arrivalTime
    requires dp != costM && dp != travelM && dp != windowsM
    requires arrivalTime != costM && arrivalTime != travelM && arrivalTime != windowsM
    requires newMask < dp.Length0 && j < n
    requires Witnessed(costM, travelM, windowsM, n, dp, arrivalTime, wit)
    requires IsDpPath(costM, travelM, windowsM, n, path, newMask, j)
    requires PathCost(costM, n, path) == newCost && PathArrival(travelM, windowsM, n, path) == newArrivalTime
    modifies dp, arrivalTime
    ensures dp[newMask, j] == newCost && arrivalTime[newMask, j] == newArrivalTime
    ensures forall m, k :: 0 <= m < dp.Length0 && 0 <= k < n && (m, k) != (newMask, j) ==>
              dp[m, k] == old(dp[m, k]) && arrivalTime[m, k] == old(arrivalTime[m, k])
    ensures Witnessed(costM, travelM, windowsM, n, dp, arrivalTime, wit')
  {
    dp[newMask, j] := newCost;
    arrivalTime[newMask, j] := newArrivalTime;
    wit' := wit[(newMask, j) := path];
  }

  /** The guard of the innermost loop of SolveTSPTW_DP, short of the final
      comparison with dp[newMask][j]: j is outside the mask and not i, both
      edges i -> j exist, the arrival at j (waiting for its earliest time)
      is within its latest time, and dp[mask][i] is reached. `dpMI` and
      `atMI` are dp[mask][i] and arrivalTime[mask][i]. */
  predicate Eligible(costM: array2<int>, travelM: array2<int>, windowsM: array2<int>, n: nat,
                     mask: nat, i: nat, j: nat, dpMI: int, atMI: int)
    reads costM, travelM, windowsM
    requires Dims(costM, travelM, windowsM, n) && i < n && j < n
  {
    && !Bit(mask, j) && i != j
    && travelM[i, j] != IntMax
    && Max(atMI + travelM[i, j], windowsM[j, 0]) <= windowsM[j, 1]
    && dpMI != IntMax && costM[i, j] != IntMax
  }

  /** The cost entry [mask + 2^k][k] holds after the relaxation through
      i -> k, given its old value `oldDp` and dp[mask][i] = `dpMI`. */
  function RelaxedCost(costM: array2<int>, travelM: array2<int>, windowsM: array2<int>, n: nat,
                       mask: nat, i: nat, k: nat, dpMI: int, atMI: int, oldDp: int): int
    reads costM, travelM, windowsM
    requires Dims(costM, travelM, windowsM, n) && i < n && k < n
  {
    if Eligible(costM, travelM, windowsM, n, mask, i, k, dpMI, atMI) then Min(oldDp, dpMI + costM[i, k]) else oldDp
  }

  /** The arrival entry [mask + 2^k][k] holds after the relaxation: the new
      arrival exactly when the cost strictly improved, else `oldAt`. */
  function RelaxedArrival(costM: array2<int>, travelM: array2<int>, windowsM: array2<int>, n: nat,
                          mask: nat, i: nat, k: nat, dpMI: int, atMI: int, oldDp: int, oldAt: int): int
    reads costM, travelM, windowsM
    requires Dims(costM, travelM, windowsM, n) && i < n && k < n
  {
    if Eligible(costM, travelM, windowsM, n, mask, i, k, dpMI, atMI) && oldDp > dpMI + costM[i, k]
    then Max(atMI + travelM[i, k], windowsM[k, 0])
    else oldAt
  }

  /** One iteration j of the innermost loop of SolveTSPTW_DP for (mask, i):
      entry [mask + 2^j][j] is relaxed through the edge i -> j, no other
      entry changes. */
  method RelaxStep(costM: array2<int>, travelM: array2<int>, windowsM: array2<int>, n: nat,
                   dp: array2<int>, arrivalTime: array2<int>, ghost wit: map<(int, int), seq<nat>>,
                   mask: nat, i: nat, j: nat)
    returns (ghost wit': map<(int, int), seq<nat>>)
    requires Dims(costM, travelM, windowsM, n)
    requires dp.Length0 == Pow2(n) && arrivalTime.Length0 == Pow2(n) && dp.Length1 == n && arrivalTime.Length1 == n
    requires dp != arrivalTime
    requires dp != costM && dp != travelM && dp != windowsM
    requires arrivalTime != costM && arrivalTime != travelM && arrivalTime != windowsM
    requires mask < Pow2(n) && i < n && Bit(mask, i) && j < n
    requires Witnessed(costM, travelM, windowsM, n, dp, arrivalTime, wit)
    modifies dp, arrivalTime
    ensures forall m, k :: 0 <= m < Pow2(n) && 0 <= k < n ==>
              if k == j && m == mask + Pow2(k) then
                && dp[m, k] == RelaxedCost(costM, travelM, windowsM, n, mask, i, k,
                                           old(dp[mask, i]), old(arrivalTime[mask, i]), old(dp[m, k]))
                && arrivalTime[m, k] == RelaxedArrival(costM, travelM, windowsM, n, mask, i, k,
                                                       old(dp[mask, i]), old(arrivalTime[mask, i]),
                                                       old(dp[m, k]), old(arrivalTime[m, k]))
              else dp[m, k] == old(dp[m, k]) && arrivalTime[m, k] == old(arrivalTime[m, k])
    ensures Witnessed(costM, travelM, windowsM, n, dp, arrivalTime, wit')
  {
    wit' := wit;
    if !Bit(mask, j) && i != j {
      SetBitBound(mask, n, j);
      var newMask := mask + Pow2(j);  // bit j is clear: mask | (1 << j)
      var travelTime := travelM[i, j];
      if travelTime != IntMax {
        var newArrivalTime := Max(arrivalTime[mask, i] + travelTime, windowsM[j, 0]);
        if newArrivalTime <= windowsM[j, 1] {
          var newCost := dp[mask, i] + costM[i, j];
          if dp[mask, i] != IntMax && costM[i, j] != IntMax && dp[newMask, j] > newCost {
            ExtendPath(costM, travelM, windowsM, n, wit[(mask, i)], mask, i, j);
            wit' := Relax(costM, travelM, windowsM, n, dp, arrivalTime, wit,
                          newMask, j, newCost, newArrivalTime, wit[(mask, i)] + [j]);
          }
        }
      }
    }
  }

  /** The innermost loop of SolveTSPTW_DP for one (mask, i), i in mask:
      relax every node j outside the mask through the edge i -> j. Entry
      [mask + 2^j][j] of an eligible j becomes the smaller of its old cost
      and dp[mask][i] + cost[i][j], its arrival time is rewritten exactly
      when that cost is strictly smaller, and no other entry changes. */
  method RelaxFrom(costM: array2<int>, travelM: array2<int>, windowsM: array2<int>, n: nat,
                   dp: array2<int>, arrivalTime: array2<int>, ghost wit: map<(int, int), seq<nat>>,
                   mask: nat, i: nat)
    returns (ghost wit': map<(int, int), seq<nat>>)
    requires Dims(costM, travelM, windowsM, n)
    requires dp.Length0 == Pow2(n) && arrivalTime.Length0 == Pow2(n) && dp.Length1 == n && arrivalTime.Length1 == n
    requires dp != arrivalTime
    requires dp != costM && dp != travelM && dp != windowsM
    requires arrivalTime != costM && arrivalTime != travelM && arrivalTime != windowsM
    requires mask < Pow2(n) && i < n && Bit(mask, i)
    requires Witnessed(costM, travelM, windowsM, n, dp, arrivalTime, wit)
    modifies dp, arrivalTime
    ensures forall m, k :: 0 <= m < Pow2(n) && 0 <= k < n ==>
              if m == mask + Pow2(k) then
                && dp[m, k] == RelaxedCost(costM, travelM, windowsM, n, mask, i, k,
                                           old(dp[mask, i]), old(arrivalTime[mask, i]), old(dp[m, k]))
                && arrivalTime[m, k] == RelaxedArrival(costM, travelM, windowsM, n, mask, i, k,
                                                       old(dp[mask, i]), old(arrivalTime[mask, i]),
                                                       old(dp[m, k]), old(arrivalTime[m, k]))
              else dp[m, k] == old(dp[m, k]) && arrivalTime[m, k] == old(arrivalTime[m, k])
    ensures forall m, k :: 0 <= m < Pow2(n) && 0 <= k < n ==> dp[m, k] <= old(dp[m, k])
    ensures Witnessed(costM, travelM, windowsM, n, dp, arrivalTime, wit')
  {
    wit' := wit;
    ghost var dpMI, atMI := dp[mask, i], arrivalTime[mask, i];
    var j := 0;
    while j < n
      invariant 0 <= j <= n
      invariant dp[mask, i] == dpMI && arrivalTime[mask, i] == atMI
      invariant forall m, k :: 0 <= m < Pow2(n) && 0 <= k < n ==>
                  if k < j && m == mask + Pow2(k) then
                    && dp[m, k] == RelaxedCost(costM, travelM, windowsM, n, mask, i, k, dpMI, atMI, old(dp[m, k]))
                    && arrivalTime[m, k] == RelaxedArrival(costM, travelM, windowsM, n, mask, i, k, dpMI, atMI,
                                                           old(dp[m, k]), old(arrivalTime[m, k]))
                  else dp[m, k] == old(dp[m, k]) && arrivalTime[m, k] == old(arrivalTime[m, k])
      invariant Witnessed(costM, travelM, windowsM, n, dp, arrivalTime, wit')
    {
      wit' := RelaxStep(costM, travelM, windowsM, n, dp, arrivalTime, wit', mask, i, j);
      j := j + 1;
    }
  }

  /**
   * Entry (m, k) of the two tables, as (cost, arrival time), just before
   * step (mask, i) of the main loops: the filled-in base case before step
   * (1, 0); each step (mask, i) with i in mask relaxes every entry
   * [mask + 2^k][k] from entry [mask][i] as RelaxFrom does, and a step with
   * i outside mask changes nothing. Step (mask, n) is the state once every i
   * of mask is done.
   */
  ghost function TablesBefore(costM: array2<int>, travelM: array2<int>, windowsM: array2<int>, n: nat,
                              mask: nat, i: nat, m: nat, k: nat): (int, int)
    reads costM, travelM, windowsM
    requires Dims(costM, travelM, windowsM, n)
    requires 1 <= mask < Pow2(n) && i <= n && m < Pow2(n) && k < n
    decreases mask, i
  {
    if i == 0 then
      if mask == 1 then (if m == 1 && k == 0 then (0, 0) else (IntMax, IntMax))
      else TablesBefore(costM, travelM, windowsM, n, mask - 1, n, m, k)
    else
      var prev := TablesBefore(costM, travelM, windowsM, n, mask, i - 1, m, k);
      if Bit(mask, i - 1) && m == mask + Pow2(k) then
        var src := TablesBefore(costM, travelM, windowsM, n, mask, i - 1, mask, i - 1);
        (RelaxedCost(costM, travelM, windowsM, n, mask, i - 1, k, src.0, src.1, prev.0),
         RelaxedArrival(costM, travelM, windowsM, n, mask, i - 1, k, src.0, src.1, prev.0, prev.1))
      else prev
  }

  /** The tables hold exactly the contents TablesBefore gives for step (mask, i). */
  ghost predicate TablesAt(costM: array2<int>, travelM: array2<int>, windowsM: array2<int>, n: nat,
                           dp: array2<int>, arrivalTime: array2<int>, mask: nat, i: nat)
    reads costM, travelM, windowsM, dp, arrivalTime
    requires Dims(costM, travelM, windowsM, n)
    requires dp.Length0 == Pow2(n) && arrivalTime.Length0 == Pow2(n) && dp.Length1 == n && arrivalTime.Length1 == n
    requires 1 <= mask < Pow2(n) && i <= n
  {
    forall m, k {:trigger TablesBefore(costM, travelM, windowsM, n, mask, i, m, k)} ::
      0 <= m < Pow2(n) && 0 <= k < n ==>
        (dp[m, k], arrivalTime[m, k]) == TablesBefore(costM, travelM, windowsM, n, mask, i, m, k)
  }

  /** The table allocation and the base case dp[1][0] = arrivalTime[1][0] = 0
      of SolveTSPTW_DP. */
  method InitTables(costM: array2<int>, travelM: array2<int>, windowsM: array2<int>, n: nat)
    returns (dp: array2<int>, arrivalTime: array2<int>, ghost wit: map<(int, int), seq<nat>>)
    requires 1 <= n && Dims(costM, travelM, windowsM, n)
    ensures fresh(dp) && fresh(arrivalTime) && dp != arrivalTime
    ensures dp.Length0 == Pow2(n) && arrivalTime.Length0 == Pow2(n) && dp.Length1 == n && arrivalTime.Length1 == n
    ensures dp[1, 0] == 0 && arrivalTime[1, 0] == 0
    ensures forall m, k :: 0 <= m < Pow2(n) && 0 <= k < n && (m, k) != (1, 0) ==>
              dp[m, k] == IntMax && arrivalTime[m, k] == IntMax
    ensures Witnessed(costM, travelM, windowsM, n, dp, arrivalTime, wit)
    ensures TablesAt(costM, travelM, windowsM, n, dp, arrivalTime, 1, 0)
  {
    var size := Pow2(n);
    dp := new int[size, n]((_, _) => IntMax);
    arrivalTime := new int[size, n]((_, _) => IntMax);
    dp[1, 0] := 0;
    arrivalTime[1, 0] := 0;
    wit := map[(1, 0) := [0]];
    forall x | 0 <= x < n ensures x in [0] <==> Bit(1, x) {
      OneIsFirst(x);
    }
  }

  /** The smallest element of `s`, Integer.MAX_VALUE when `s` is empty (or
      when every element is at least that). */
  function MinOrMax(s: seq<int>): int
    decreases |s|
  {
    if s == [] then IntMax else Min(MinOrMax(s[..|s| - 1]), Last(s))
  }

  /** MinOrMax is a minimum: a lower bound of `s`, at most Integer.MAX_VALUE,
      and either an element of `s` or Integer.MAX_VALUE. */
  lemma {:induction false} MinOrMaxIsMin(s: seq<int>)
    ensures MinOrMax(s) <= IntMax
    ensures forall x :: x in s ==> MinOrMax(s) <= x
    ensures MinOrMax(s) == IntMax || MinOrMax(s) in s
    ensures s == [] ==> MinOrMax(s) == IntMax
    decreases |s|
  {
    if s != [] {
      var q := s[..|s| - 1];
      MinOrMaxIsMin(q);
      assert s == q + [Last(s)];
      forall x | x in s ensures MinOrMax(s) <= x {
        if x in q {
        } else {
          assert x == Last(s);
        }
      }
    }
  }

  lemma MinOrMaxSnoc(s: seq<int>, x: int)
    ensures MinOrMax(s + [x]) == Min(MinOrMax(s), x)
  {
    assert (s + [x])[..|s|] == s;
  }

  /** Row i of the full-mask table can close the tour: i is not the start,
      dp[fullMask][i] is reached and the edge i -> 0 exists. */
  predicate Closable(costM: array2<int>, dp: array2<int>, n: nat, i: nat)
    reads costM, dp
    requires costM.Length0 >= n && costM.Length1 >= n && dp.Length0 == Pow2(n) && dp.Length1 == n
    requires i < n
  {
    1 <= i && dp[Pow2(n) - 1, i] != IntMax && costM[i, 0] != IntMax
  }

  /** dp[fullMask][i] + cost[i][0] for every closable i < k, in order of i. */
  function ClosingCosts(costM: array2<int>, dp: array2<int>, n: nat, k: nat): (r: seq<int>)
    reads costM, dp
    requires costM.Length0 >= n && costM.Length1 >= n && dp.Length0 == Pow2(n) && dp.Length1 == n
    requires k <= n
  {
    if k == 0 then []
    else
      ClosingCosts(costM, dp, n, k - 1) +
      (if Closable(costM, dp, n, k - 1) then [dp[Pow2(n) - 1, k - 1] + costM[k - 1, 0]] else [])
  }

  /** arrivalTime[fullMask][i] + travelTime[i][0] for every closable i < k. */
  function ClosingTimes(costM: array2<int>, travelM: array2<int>, dp: array2<int>, arrivalTime: array2<int>,
                        n: nat, k: nat): (r: seq<int>)
    reads costM, travelM, dp, arrivalTime
    requires costM.Length0 >= n && costM.Length1 >= n && travelM.Length0 >= n && travelM.Length1 >= n
    requires dp.Length0 == Pow2(n) && dp.Length1 == n && arrivalTime.Length0 == Pow2(n) && arrivalTime.Length1 == n
    requires k <= n
  {
    if k == 0 then []
    else
      ClosingTimes(costM, travelM, dp, arrivalTime, n, k - 1) +
      (if Closable(costM, dp, n, k - 1) then [arrivalTime[Pow2(n) - 1, k - 1] + travelM[k - 1, 0]] else [])
  }

  /** The closing costs are exactly those of the closable rows below k. */
  lemma {:induction false} ClosingCostsAreClosable(costM: array2<int>, dp: array2<int>, n: nat, k: nat)
    requires costM.Length0 >= n && costM.Length1 >= n && dp.Length0 == Pow2(n) && dp.Length1 == n
    requires k <= n
    ensures forall x :: x in ClosingCosts(costM, dp, n, k) <==>
              exists i :: 0 <= i < k && Closable(costM, dp, n, i) && x == dp[Pow2(n) - 1, i] + costM[i, 0]
    ensures (forall i :: 0 <= i < k ==> !Closable(costM, dp, n, i)) ==> ClosingCosts(costM, dp, n, k) == []
  {
    if k > 0 {
      ClosingCostsAreClosable(costM, dp, n, k - 1);
    }
  }

  /** The closing times are exactly those of the closable rows below k. */
  lemma {:induction false} ClosingTimesAreClosable(costM: array2<int>, travelM: array2<int>,
                                                   dp: array2<int>, arrivalTime: array2<int>, n: nat, k: nat)
    requires costM.Length0 >= n && costM.Length1 >= n && travelM.Length0 >= n && travelM.Length1 >= n
    requires dp.Length0 == Pow2(n) && dp.Length1 == n && arrivalTime.Length0 == Pow2(n) && arrivalTime.Length1 == n
    requires k <= n
    ensures forall x :: x in ClosingTimes(costM, travelM, dp, arrivalTime, n, k) <==>
              exists i :: 0 <= i < k && Closable(costM, dp, n, i) && x == arrivalTime[Pow2(n) - 1, i] + travelM[i, 0]
    ensures (forall i :: 0 <= i < k ==> !Closable(costM, dp, n, i)) ==>
              ClosingTimes(costM, travelM, dp, arrivalTime, n, k) == []
  {
    if k > 0 {
      ClosingTimesAreClosable(costM, travelM, dp, arrivalTime, n, k - 1);
    }
  }

  /** The closing minimum over the full-mask rows, in the source's terms:
      Integer.MAX_VALUE when no row is closable, otherwise (when below
      Integer.MAX_VALUE) the closing cost of some closable row and no more
      than that of any; the closing time likewise when no row is closable. */
  lemma ClosingMinimum(costM: array2<int>, travelM: array2<int>, dp: array2<int>, arrivalTime: array2<int>, n: nat)
    requires costM.Length0 >= n && costM.Length1 >= n && travelM.Length0 >= n && travelM.Length1 >= n
    requires dp.Length0 == Pow2(n) && dp.Length1 == n && arrivalTime.Length0 == Pow2(n) && arrivalTime.Length1 == n
    ensures (forall i :: 0 <= i < n ==> !Closable(costM, dp, n, i)) ==>
              && MinOrMax(ClosingCosts(costM, dp, n, n)) == IntMax
              && MinOrMax(ClosingTimes(costM, travelM, dp, arrivalTime, n, n)) == IntMax
    ensures var c := MinOrMax(ClosingCosts(costM, dp, n, n));
            c != IntMax ==>
              && (exists i :: 0 <= i < n && Closable(costM, dp, n, i) && c == dp[Pow2(n) - 1, i] + costM[i, 0])
              && (forall i :: 0 <= i < n && Closable(costM, dp, n, i) ==> c <= dp[Pow2(n) - 1, i] + costM[i, 0])
  {
    ClosingCostsAreClosable(costM, dp, n, n);
    ClosingTimesAreClosable(costM, travelM, dp, arrivalTime, n, n);
    var costs := ClosingCosts(costM, dp, n, n);
    MinOrMaxIsMin(costs);
    MinOrMaxIsMin(ClosingTimes(costM, travelM, dp, arrivalTime, n, n));
    forall i | 0 <= i < n && Closable(costM, dp, n, i)
      ensures MinOrMax(costs) <= dp[Pow2(n) - 1, i] + costM[i, 0]
    {
      assert dp[Pow2(n) - 1, i] + costM[i, 0] in costs;
    }
  }

  /** ClosingMinimum for the numbers SolveTSPTW_DP returns, with
      Integer.MAX_VALUE reported as -1. */
  lemma ClosingReported(costM: array2<int>, travelM: array2<int>, dp: array2<int>, arrivalTime: array2<int>,
                        n: nat, cost: int, time: int)
    requires costM.Length0 >= n && costM.Length1 >= n && travelM.Length0 >= n && travelM.Length1 >= n
    requires dp.Length0 == Pow2(n) && dp.Length1 == n && arrivalTime.Length0 == Pow2(n) && arrivalTime.Length1 == n
    requires cost == Reported(MinOrMax(ClosingCosts(costM, dp, n, n)))
    requires time == Reported(MinOrMax(ClosingTimes(costM, travelM, dp, arrivalTime, n, n)))
    ensures (forall i :: 0 <= i < n ==> !Closable(costM, dp, n, i)) ==> cost == -1 && time == -1
    ensures cost != -1 ==>
              && (exists i :: 0 <= i < n && Closable(costM, dp, n, i) && cost == dp[Pow2(n) - 1, i] + costM[i, 0])
              && (forall i :: 0 <= i < n && Closable(costM, dp, n, i) ==> cost <= dp[Pow2(n) - 1, i] + costM[i, 0])
  {
    ClosingMinimum(costM, travelM, dp, arrivalTime, n);
  }

  /** One more row of the final loop: the minima take row i in exactly
      when it is closable. */
  lemma ClosingStep(costM: array2<int>, travelM: array2<int>, dp: array2<int>, arrivalTime: array2<int>,
                    n: nat, i: nat)
    requires costM.Length0 >= n && costM.Length1 >= n && travelM.Length0 >= n && travelM.Length1 >= n
    requires dp.Length0 == Pow2(n) && dp.Length1 == n && arrivalTime.Length0 == Pow2(n) && arrivalTime.Length1 == n
    requires i < n
    ensures MinOrMax(ClosingCosts(costM, dp, n, i + 1)) ==
              if Closable(costM, dp, n, i)
              then Min(MinOrMax(ClosingCosts(costM, dp, n, i)), dp[Pow2(n) - 1, i] + costM[i, 0])
              else MinOrMax(ClosingCosts(costM, dp, n, i))
    ensures MinOrMax(ClosingTimes(costM, travelM, dp, arrivalTime, n, i + 1)) ==
              if Closable(costM, dp, n, i)
              then Min(MinOrMax(ClosingTimes(costM, travelM, dp, arrivalTime, n, i)),
                       arrivalTime[Pow2(n) - 1, i] + travelM[i, 0])
              else MinOrMax(ClosingTimes(costM, travelM, dp, arrivalTime, n, i))
  {
    var costs := ClosingCosts(costM, dp, n, i);
    var times := ClosingTimes(costM, travelM, dp, arrivalTime, n, i);
    if Closable(costM, dp, n, i) {
      MinOrMaxSnoc(costs, dp[Pow2(n) - 1, i] + costM[i, 0]);
      MinOrMaxSnoc(times, arrivalTime[Pow2(n) - 1, i] + travelM[i, 0]);
    } else {
      assert costs + [] == costs && times + [] == times;
    }
  }

  /** `c` is Integer.MAX_VALUE or the cost of the real tour `t`. */
  ghost predicate CostBacked(costM: array2<int>, travelM: array2<int>, windowsM: array2<int>, n: nat,
                             c: int, t: seq<nat>)
    reads costM, travelM, windowsM
    requires Dims(costM, travelM, windowsM, n)
  {
    c != IntMax ==> IsDpTour(costM, travelM, windowsM, n, t) && c == TourCost(costM, n, t)
  }

  /** `c` is Integer.MAX_VALUE or the time of the real tour `t`. */
  ghost predicate TimeBacked(costM: array2<int>, travelM: array2<int>, windowsM: array2<int>, n: nat,
                             c: int, t: seq<nat>)
    reads costM, travelM, windowsM
    requires Dims(costM, travelM, windowsM, n)
  {
    c != IntMax ==> IsDpTour(costM, travelM, windowsM, n, t) && c == TourTime(travelM, windowsM, n, t)
  }

  /** A closable full-mask row closes its witness path into a tour whose
      cost and time are the ones the final loop compares. */
  lemma ClosingTour(costM: array2<int>, travelM: array2<int>, windowsM: array2<int>, n: nat,
                    dp: array2<int>, arrivalTime: array2<int>, wit: map<(int, int), seq<nat>>, i: nat)
    requires 1 <= n && Dims(costM, travelM, windowsM, n)
    requires dp.Length0 == Pow2(n) && arrivalTime.Length0 == Pow2(n) && dp.Length1 == n && arrivalTime.Length1 == n
    requires Witnessed(costM, travelM, windowsM, n, dp, arrivalTime, wit)
    requires i < n && Closable(costM, dp, n, i)
    ensures (Pow2(n) - 1, i) in wit
    ensures var t := wit[(Pow2(n) - 1, i)] + [0];
            && IsDpTour(costM, travelM, windowsM, n, t)
            && TourCost(costM, n, t) == dp[Pow2(n) - 1, i] + costM[i, 0]
            && TourTime(travelM, windowsM, n, t) == arrivalTime[Pow2(n) - 1, i] + travelM[i, 0]
  {
    var t := wit[(Pow2(n) - 1, i)] + [0];
    assert t[..|t| - 1] == wit[(Pow2(n) - 1, i)];
  }

  /** The loop over i of SolveTSPTW_DP for one mask: relax from every node
      of the mask, taking the tables from step (mask, 0) to step (mask, n). */
  method RelaxMask(costM: array2<int>, travelM: array2<int>, windowsM: array2<int>, n: nat,
                   dp: array2<int>, arrivalTime: array2<int>, ghost wit: map<(int, int), seq<nat>>, mask: nat)
    returns (ghost wit': map<(int, int), seq<nat>>)
    requires Dims(costM, travelM, windowsM, n)
    requires dp.Length0 == Pow2(n) && arrivalTime.Length0 == Pow2(n) && dp.Length1 == n && arrivalTime.Length1 == n
    requires dp != arrivalTime
    requires dp != costM && dp != travelM && dp != windowsM
    requires arrivalTime != costM && arrivalTime != travelM && arrivalTime != windowsM
    requires 1 <= mask < Pow2(n)
    requires TablesAt(costM, travelM, windowsM, n, dp, arrivalTime, mask, 0)
    requires Witnessed(costM, travelM, windowsM, n, dp, arrivalTime, wit)
    modifies dp, arrivalTime
    ensures TablesAt(costM, travelM, windowsM, n, dp, arrivalTime, mask, n)
    ensures Witnessed(costM, travelM, windowsM, n, dp, arrivalTime, wit')
  {
    wit' := wit;
    var i := 0;
    while i < n
      invariant 0 <= i <= n
      invariant TablesAt(costM, travelM, windowsM, n, dp, arrivalTime, mask, i)
      invariant Witnessed(costM, travelM, windowsM, n, dp, arrivalTime, wit')
    {
      if Bit(mask, i) {
        wit' := RelaxFrom(costM, travelM, windowsM, n, dp, arrivalTime, wit', mask, i);
      }
      i := i + 1;
    }
  }

  /** The loop over masks of SolveTSPTW_DP: from the base case, every mask
      1 .. 2^n - 1 in increasing order, ending at step (2^n - 1, n). */
  method FillTables(costM: array2<int>, travelM: array2<int>, windowsM: array2<int>, n: nat,
                    dp: array2<int>, arrivalTime: array2<int>, ghost wit: map<(int, int), seq<nat>>)
    returns (ghost wit': map<(int, int), seq<nat>>)
    requires 1 <= n && Dims(costM, travelM, windowsM, n)
    requires dp.Length0 == Pow2(n) && arrivalTime.Length0 == Pow2(n) && dp.Length1 == n && arrivalTime.Length1 == n
    requires dp != arrivalTime
    requires dp != costM && dp != travelM && dp != windowsM
    requires arrivalTime != costM && arrivalTime != travelM && arrivalTime != windowsM
    requires TablesAt(costM, travelM, windowsM, n, dp, arrivalTime, 1, 0)
    requires Witnessed(costM, travelM, windowsM, n, dp, arrivalTime, wit)
    modifies dp, arrivalTime
    ensures TablesAt(costM, travelM, windowsM, n, dp, arrivalTime, Pow2(n) - 1, n)
    ensures Witnessed(costM, travelM, windowsM, n, dp, arrivalTime, wit')
  {
    wit' := wit;
    var fullMask := Pow2(n) - 1;
    var mask := 1;
    while mask <= fullMask
      invariant 1 <= mask <= fullMask + 1
      invariant mask <= fullMask ==> TablesAt(costM, travelM, windowsM, n, dp, arrivalTime, mask, 0)
      invariant mask == fullMask + 1 ==> TablesAt(costM, travelM, windowsM, n, dp, arrivalTime, fullMask, n)
      invariant Witnessed(costM, travelM, windowsM, n, dp, arrivalTime, wit')
    {
      wit' := RelaxMask(costM, travelM, windowsM, n, dp, arrivalTime, wit', mask);
      mask := mask + 1;
    }
  }

  /** The final loop of SolveTSPTW_DP: the smallest closing cost over the
      closable full-mask entries and, independently of which entry gives
      it, the smallest closing time; each is Integer.MAX_VALUE when no entry
      is closable. The two numbers are backed by real tours. */
  method CloseTours(costM: array2<int>, travelM: array2<int>, windowsM: array2<int>, n: nat,
                    dp: array2<int>, arrivalTime: array2<int>, ghost wit: map<(int, int), seq<nat>>)
    returns (minCost: int, totalTime: int, ghost tour: seq<nat>, ghost timeTour: seq<nat>)
    requires 1 <= n && Dims(costM, travelM, windowsM, n)
    requires dp.Length0 == Pow2(n) && arrivalTime.Length0 == Pow2(n) && dp.Length1 == n && arrivalTime.Length1 == n
    requires Witnessed(costM, travelM, windowsM, n, dp, arrivalTime, wit)
    ensures minCost == MinOrMax(ClosingCosts(costM, dp, n, n))
    ensures totalTime == MinOrMax(ClosingTimes(costM, travelM, dp, arrivalTime, n, n))
    ensures n == 1 ==> minCost == IntMax && totalTime == IntMax
    ensures minCost != IntMax ==>
              && IsDpTour(costM, travelM, windowsM, n, tour)
              && minCost == TourCost(costM, n, tour)
    ensures totalTime != IntMax ==>
              && IsDpTour(costM, travelM, windowsM, n, timeTour)
              && totalTime == TourTime(travelM, windowsM, n, timeTour)
  {
    var fullMask := Pow2(n) - 1;
    minCost := IntMax;
    totalTime := IntMax;
    tour := [];
    timeTour := [];
    assert !Closable(costM, dp, n, 0);
    var i := 1;
    while i < n
      invariant 1 <= i <= n
      invariant minCost == MinOrMax(ClosingCosts(costM, dp, n, i))
      invariant totalTime == MinOrMax(ClosingTimes(costM, travelM, dp, arrivalTime, n, i))
      invariant CostBacked(costM, travelM, windowsM, n, minCost, tour)
      invariant TimeBacked(costM, travelM, windowsM, n, totalTime, timeTour)
    {
      ClosingStep(costM, travelM, dp, arrivalTime, n, i);
      if dp[fullMask, i] != IntMax && costM[i, 0] != IntMax {
        ClosingTour(costM, travelM, windowsM, n, dp, arrivalTime, wit, i);
        ghost var t := wit[(fullMask, i)] + [0];
        if dp[fullMask, i] + costM[i, 0] < minCost {
          tour := t;
        }
        minCost := Min(minCost, dp[fullMask, i] + costM[i, 0]);
        if dp[fullMask, i] != IntMax {
          if arrivalTime[fullMask, i] + travelM[i, 0] < totalTime {
            timeTour := t;
          }
          totalTime := Min(totalTime, arrivalTime[fullMask, i] + travelM[i, 0]);
        }
      }
      i := i + 1;
    }
  }

  /** Integer.MAX_VALUE, the "none" of the tables, reported as -1. */
  function Reported(x: int): int {
    if x == IntMax then -1 else x
  }

  /** SolveTSPTW_DP, returning {minCost, totalTime} with -1 for "none".
      `dpTable` and `arrivalTable` are the filled tables, which hold what
      TablesBefore gives after the last step, each finite entry witnessed
      (by `wit`) by a path over its mask; `tour` and `timeTour` are the tours
      behind the two numbers. The cost is the smallest
      closing cost and the time the smallest closing time over the closable
      full-mask rows, each -1 when no row is closable. */
  method SolveTspTwDp(costM: array2<int>, travelM: array2<int>, windowsM: array2<int>)
    returns (cost: int, time: int, ghost dpTable: array2<int>, ghost arrivalTable: array2<int>,
             ghost wit: map<(int, int), seq<nat>>, ghost tour: seq<nat>, ghost timeTour: seq<nat>)
    requires 1 <= costM.Length0 <= 30
    requires Dims(costM, travelM, windowsM, costM.Length0)
    ensures dpTable.Length0 == Pow2(costM.Length0) && dpTable.Length1 == costM.Length0
    ensures arrivalTable.Length0 == Pow2(costM.Length0) && arrivalTable.Length1 == costM.Length0
    ensures cost == Reported(MinOrMax(ClosingCosts(costM, dpTable, costM.Length0, costM.Length0)))
    ensures time == Reported(MinOrMax(ClosingTimes(costM, travelM, dpTable, arrivalTable,
                                                   costM.Length0, costM.Length0)))
    ensures (forall i :: 0 <= i < costM.Length0 ==> !Closable(costM, dpTable, costM.Length0, i)) ==>
              cost == -1 && time == -1
    ensures cost != -1 ==>
              && (exists i :: 0 <= i < costM.Length0 && Closable(costM, dpTable, costM.Length0, i) &&
                    cost == dpTable[Pow2(costM.Length0) - 1, i] + costM[i, 0])
              && (forall i :: 0 <= i < costM.Length0 && Closable(costM, dpTable, costM.Length0, i) ==>
                    cost <= dpTable[Pow2(costM.Length0) - 1, i] + costM[i, 0])
    ensures costM.Length0 == 1 ==> cost == -1 && time == -1
    ensures cost != -1 ==>
              && IsDpTour(costM, travelM, windowsM, costM.Length0, tour)
              && cost == TourCost(costM, costM.Length0, tour)
    ensures time != -1 ==>
              && IsDpTour(costM, travelM, windowsM, costM.Length0, timeTour)
              && time == TourTime(travelM, windowsM, costM.Length0, timeTour)
    ensures TablesAt(costM, travelM, windowsM, costM.Length0, dpTable, arrivalTable,
                     Pow2(costM.Length0) - 1, costM.Length0)
    ensures Witnessed(costM, travelM, windowsM, costM.Length0, dpTable, arrivalTable, wit)
  {
    var n := costM.Length0;
    var dp, arrivalTime;
    dp, arrivalTime, wit := InitTables(costM, travelM, windowsM, n);

    wit := FillTables(costM, travelM, windowsM, n, dp, arrivalTime, wit);

    var minCost, totalTime;
    minCost, totalTime, tour, timeTour := CloseTours(costM, travelM, windowsM, n, dp, arrivalTime, wit);
    cost := if minCost == IntMax then -1 else minCost;
    time := if totalTime == IntMax then -1 else totalTime;
    dpTable, arrivalTable := dp, arrivalTime;
    ClosingReported(costM, travelM, dp, arrivalTime, n, cost, time);
  }
}
