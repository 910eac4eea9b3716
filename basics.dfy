/**
 * Shared vocabulary of the solving engine: the optional value that stands for
 * Java's `null`, the outcome of a graph mutation (true, false or a thrown
 * IllegalArgumentException), Java's `int` range and its `Integer.MAX_VALUE`
 * sentinel, and the lexicographic (distance, time) order every solver uses.
 */
module Basics {

  datatype Option<+T> = None | Some(value: T)

  /** What a boolean-returning mutator of the graph did: returned true,
      returned false, or threw IllegalArgumentException. */
  datatype Outcome = Accepted | Rejected | IllegalArgument

  /** Java's `Integer.MAX_VALUE`, used by the source as "no edge" / "unreached". */
  const IntMax: int := 0x7fff_ffff

  /** The values a Java `int` parameter can carry. */
  type Int32 = x: int | -0x8000_0000 <= x <= 0x7fff_ffff

  function Max(a: int, b: int): (m: int)
    ensures m >= a && m >= b && (m == a || m == b)
  {
    if a >= b then a else b
  }

  function Min(a: int, b: int): (m: int)
    ensures m <= a && m <= b && (m == a || m == b)
  {
    if a <= b then a else b
  }

  /** A (distance, time) pair; the solvers compare these lexicographically. */
  type Cost = (int, int)

  /** `cost < optimalCost || (cost == optimalCost && time < optimalTime)`. */
  predicate LexLess(a: Cost, b: Cost) {
    a.0 < b.0 || (a.0 == b.0 && a.1 < b.1)
  }

  predicate Distinct<T(==)>(s: seq<T>) {
    forall i, j :: 0 <= i < j < |s| ==> s[i] != s[j]
  }

  function Last<T>(s: seq<T>): T
    requires |s| > 0
  {
    s[|s| - 1]
  }

  /** `List.remove(Object)`: drop the first occurrence of `x`, if any. */
  function RemoveFirst<T(==)>(s: seq<T>, x: T): (r: seq<T>)
    ensures x in s ==> multiset(r) + multiset{x} == multiset(s)
    ensures x !in s ==> r == s
  {
    if s == [] then []
    else if s[0] == x then
      assert s == [s[0]] + s[1..];
      s[1..]
    else
      assert s == [s[0]] + s[1..];
      [s[0]] + RemoveFirst(s[1..], x)
  }

  /**
   * Index `w` of a candidate list is the one a strict "keep the better one"
   * scan returns: it is feasible, no feasible candidate is lexicographically
   * smaller, and every feasible candidate before it is strictly worse (so the
   * first of several equal optima wins).
   */
  predicate IsFirstLexMin(costs: seq<Option<Cost>>, w: nat) {
    && w < |costs|
    && costs[w].Some?
    && (forall k :: 0 <= k < |costs| && costs[k].Some? ==> !LexLess(costs[k].value, costs[w].value))
    && (forall k :: 0 <= k < w && costs[k].Some? ==> LexLess(costs[w].value, costs[k].value))
  }

  predicate NoneFeasible(costs: seq<Option<Cost>>) {
    forall k :: 0 <= k < |costs| ==> costs[k].None?
  }

  /** The index a strict "keep the better one" scan over `costs` ends with. */
  function BestIndex(costs: seq<Option<Cost>>): (r: Option<nat>)
    ensures r.Some? ==> r.value < |costs| && costs[r.value].Some?
  {
    if costs == [] then None
    else
      var prefix := costs[..|costs| - 1];
      var c := costs[|costs| - 1];
      var best := BestIndex(prefix);
      if c.Some? && (best.None? || LexLess(c.value, prefix[best.value].value)) then Some(|costs| - 1)
      else best
  }

  /** The scan finds nothing exactly when no candidate is feasible, and
      otherwise ends at the first lexicographic minimum. */
  lemma {:induction false} BestIndexIsFirstLexMin(costs: seq<Option<Cost>>)
    ensures BestIndex(costs).None? <==> NoneFeasible(costs)
    ensures BestIndex(costs).Some? ==> IsFirstLexMin(costs, BestIndex(costs).value)
    decreases |costs|
  {
    if costs != [] {
      var prefix := costs[..|costs| - 1];
      var c := costs[|costs| - 1];
      var best := BestIndex(prefix);
      BestIndexIsFirstLexMin(prefix);
      assert costs == prefix + [c];
      if c.Some? && (best.None? || LexLess(c.value, prefix[best.value].value)) {
        FirstLexMinTake(prefix, if best.None? then 0 else best.value, c);
      } else if best.Some? {
        FirstLexMinKeep(prefix, best.value, c);
      }
    }
  }

  /** One more candidate: the scan's choice moves to it exactly when it is
      feasible and strictly better than the choice so far. */
  lemma BestIndexSnoc(costs: seq<Option<Cost>>, c: Option<Cost>)
    ensures BestIndex(costs + [c]) ==
              if c.Some? && (BestIndex(costs).None? || LexLess(c.value, costs[BestIndex(costs).value].value))
              then Some(|costs|)
              else BestIndex(costs)
  {
    assert (costs + [c])[..|costs|] == costs;
  }

  /** The scan keeps its current best when the next candidate is no better. */
  lemma FirstLexMinKeep(costs: seq<Option<Cost>>, w: nat, c: Option<Cost>)
    requires IsFirstLexMin(costs, w)
    requires c.None? || !LexLess(c.value, costs[w].value)
    ensures IsFirstLexMin(costs + [c], w)
  {
  }

  /** The scan takes the next candidate when it is feasible and strictly better
      than everything before it. */
  lemma FirstLexMinTake(costs: seq<Option<Cost>>, w: nat, c: Option<Cost>)
    requires c.Some?
    requires NoneFeasible(costs) || (IsFirstLexMin(costs, w) && LexLess(c.value, costs[w].value))
    ensures IsFirstLexMin(costs + [c], |costs|)
  {
  }

  /** A distinct sequence has as many distinct elements as entries. */
  lemma {:induction false} DistinctCard<T>(s: seq<T>)
    requires Distinct(s)
    ensures |set x | x in s| == |s|
  {
    if s != [] {
      var rest := s[1..];
      assert Distinct(rest);
      DistinctCard(rest);
      assert (set x | x in s) == {s[0]} + (set x | x in rest);
      assert s[0] !in (set x | x in rest);
    }
  }

  /** A subset as large as its superset is the whole superset. */
  lemma SubsetOfSameSize<T>(a: set<T>, b: set<T>)
    requires a <= b && |a| == |b|
    ensures a == b
  {
    if !(b <= a) {
      var x :| x in b && x !in a;
      SubsetCard(a, b - {x});
    }
  }

  lemma {:induction false} SubsetCard<T>(a: set<T>, b: set<T>)
    requires a <= b
    ensures |a| <= |b|
    decreases a
  {
    if a != {} {
      var y :| y in a;
      SubsetCard(a - {y}, b - {y});
    }
  }

  /** Extending a prefix by one element. */
  lemma PrefixSnoc<T>(s: seq<T>, i: nat)
    requires i < |s|
    ensures s[..i + 1] == s[..i] + [s[i]]
  {
  }
}
