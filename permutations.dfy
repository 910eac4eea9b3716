/**
 * The recursive swap-based permutation generator that BruteForce.java and
 * DivideAndConquer.java both carry (`generatePermutations` / `permute`): the
 * list is permuted in place, position `start` takes each element of the
 * suffix in turn by a swap, the rest is permuted recursively, and the swap is
 * undone; a snapshot is appended once `start` reaches the end.
 */
module Permutations {
  import opened Basics

  /** `Collections.swap(list, k, i)` on a value. */
  function Swap<T>(s: seq<T>, k: nat, i: nat): (r: seq<T>)
    requires k < |s| && i < |s|
    ensures |r| == |s| && r[k] == s[i] && r[i] == s[k]
    ensures forall j :: 0 <= j < |s| && j != k && j != i ==> r[j] == s[j]
  {
    s[k := s[i]][i := s[k]]
  }

  /** The snapshots `permute(s, k, ...)` appends, in order. */
  function Perms<T>(s: seq<T>, k: nat): seq<seq<T>>
    requires k <= |s|
    decreases |s| - k, 1
  {
    if k == |s| then [s] else Branches(s, k, k)
  }

  /** The snapshots appended by the loop iterations i, i+1, ... of `permute(s, k, ...)`. */
  function Branches<T>(s: seq<T>, k: nat, i: nat): seq<seq<T>>
    requires k < |s| && k <= i <= |s|
    decreases |s| - k, 0, |s| - i
  {
    if i == |s| then [] else Perms(Swap(s, k, i), k + 1) + Branches(s, k, i + 1)
  }

  function Factorial(n: nat): (f: nat)
    ensures f >= 1
  {
    if n == 0 then 1 else n * Factorial(n - 1)
  }

  /** `permute(cities, start, result)`: appends `Perms` and leaves the list as it found it. */
  method Permute<T>(a: array<T>, start: nat, result: seq<seq<T>>) returns (r: seq<seq<T>>)
    requires start <= a.Length
    modifies a
    ensures a[..] == old(a[..])
    ensures r == result + Perms(old(a[..]), start)
    decreases a.Length - start
  {
    if start == a.Length {
      return result + [a[..]];
    }
    ghost var s := a[..];
    r := result;
    var i := start;
    while i < a.Length
      invariant start <= i <= a.Length
      invariant a[..] == s
      invariant r + Branches(s, start, i) == result + Perms(s, start)
    {
      a[start], a[i] := a[i], a[start];
      assert a[..] == Swap(s, start, i);
      r := Permute(a, start + 1, r);
      a[start], a[i] := a[i], a[start];
      assert a[..] == s;
      i := i + 1;
    }
  }

  /** `generatePermutations(cities)`. */
  method GeneratePermutations<T>(cities: seq<T>) returns (r: seq<seq<T>>)
    ensures r == Perms(cities, 0)
  {
    var a := new T[|cities|](i requires 0 <= i < |cities| => cities[i]);
    assert a[..] == cities;
    r := Permute(a, 0, []);
  }

  // ---------------- properties ----------------

  /** There are (n - k)! snapshots. */
  lemma {:induction false} PermsLength<T>(s: seq<T>, k: nat)
    requires k <= |s|
    ensures |Perms(s, k)| == Factorial(|s| - k)
    decreases |s| - k, 1
  {
    if k < |s| {
      BranchesLength(s, k, k);
    }
  }

  lemma {:induction false} BranchesLength<T>(s: seq<T>, k: nat, i: nat)
    requires k < |s| && k <= i <= |s|
    ensures |Branches(s, k, i)| == (|s| - i) * Factorial(|s| - k - 1)
    decreases |s| - k, 0, |s| - i
  {
    if i < |s| {
      var f := Factorial(|s| - k - 1);
      var n := |s| - i;
      PermsLength(Swap(s, k, i), k + 1);
      assert |Perms(Swap(s, k, i), k + 1)| == f;
      BranchesLength(s, k, i + 1);
      assert |Branches(s, k, i + 1)| == (n - 1) * f;
      MulSucc(n, f);
    }
  }

  lemma MulSucc(n: nat, f: nat)
    requires n >= 1
    ensures f + (n - 1) * f == n * f
  {
  }

  /** Every snapshot is a rearrangement of the list that keeps positions before k. */
  lemma {:induction false} PermsArePermutations<T>(s: seq<T>, k: nat)
    requires k <= |s|
    ensures forall p :: p in Perms(s, k) ==> |p| == |s| && multiset(p) == multiset(s) && p[..k] == s[..k]
    decreases |s| - k, 1
  {
    if k < |s| {
      BranchesArePermutations(s, k, k);
    }
  }

  lemma {:induction false} BranchesArePermutations<T>(s: seq<T>, k: nat, i: nat)
    requires k < |s| && k <= i <= |s|
    ensures forall p :: p in Branches(s, k, i) ==> |p| == |s| && multiset(p) == multiset(s) && p[..k] == s[..k]
    decreases |s| - k, 0, |s| - i
  {
    if i < |s| {
      var t := Swap(s, k, i);
      PermsArePermutations(t, k + 1);
      BranchesArePermutations(s, k, i + 1);
      SwapIsPermutation(s, k, i);
      assert t[..k] == s[..k];
      forall p | p in Perms(t, k + 1)
        ensures p[..k] == s[..k]
      {
        assert p[..k] == p[..k + 1][..k];
      }
    }
  }

  lemma SwapIsPermutation<T>(s: seq<T>, k: nat, i: nat)
    requires k < |s| && i < |s|
    ensures multiset(Swap(s, k, i)) == multiset(s)
  {
    if k != i {
      calc {
        multiset(Swap(s, k, i));
        multiset(s[k := s[i]][i := s[k]]);
        multiset(s[k := s[i]]) - multiset{s[i]} + multiset{s[k]};
        multiset(s) - multiset{s[k]} + multiset{s[i]} - multiset{s[i]} + multiset{s[k]};
      }
    }
  }

  /** Every rearrangement that keeps positions before k is among the snapshots. */
  lemma {:induction false} PermsComplete<T>(s: seq<T>, k: nat, p: seq<T>)
    requires k <= |s|
    requires |p| == |s| && multiset(p) == multiset(s) && p[..k] == s[..k]
    ensures p in Perms(s, k)
    decreases |s| - k
  {
    if k == |s| {
      assert p == p[..k] && s == s[..k];
    } else {
      var i := SourceIndex(s, k, p);
      var t := Swap(s, k, i);
      SwapIsPermutation(s, k, i);
      assert p[..k + 1] == t[..k + 1] by {
        assert p[..k + 1] == p[..k] + [p[k]];
        assert t[..k + 1] == t[..k] + [t[k]];
      }
      PermsComplete(t, k + 1, p);
      BranchesContain(s, k, k, i);
    }
  }

  /** The element a rearrangement puts at position k sits at or after k in the original. */
  lemma SourceIndex<T>(s: seq<T>, k: nat, p: seq<T>) returns (i: nat)
    requires k < |s|
    requires |p| == |s| && multiset(p) == multiset(s) && p[..k] == s[..k]
    ensures k <= i < |s| && s[i] == p[k]
  {
    SuffixMultiset(s, k, p);
    assert p[k] == p[k..][0];
    assert p[k] in multiset(s[k..]);
    var j :| 0 <= j < |s| - k && s[k..][j] == p[k];
    i := k + j;
  }

  /** Rearrangements that agree before k agree as multisets from k on. */
  lemma SuffixMultiset<T>(s: seq<T>, k: nat, p: seq<T>)
    requires k <= |s|
    requires |p| == |s| && multiset(p) == multiset(s) && p[..k] == s[..k]
    ensures multiset(p[k..]) == multiset(s[k..])
  {
    assert p == p[..k] + p[k..] && s == s[..k] + s[k..];
    assert multiset(p[k..]) == multiset(p) - multiset(p[..k]);
    assert multiset(s[k..]) == multiset(s) - multiset(s[..k]);
  }

  /** The loop iteration for index i contributes to every suffix of iterations that includes it. */
  lemma {:induction false} BranchesContain<T>(s: seq<T>, k: nat, j: nat, i: nat)
    requires k <= j <= i < |s|
    ensures forall p :: p in Perms(Swap(s, k, i), k + 1) ==> p in Branches(s, k, j)
    decreases i - j
  {
    if j < i {
      BranchesContain(s, k, j + 1, i);
    }
  }

  /** With distinct elements, no snapshot is produced twice. */
  lemma {:induction false} PermsDistinct<T>(s: seq<T>, k: nat)
    requires k <= |s| && Distinct(s)
    ensures Distinct(Perms(s, k))
    decreases |s| - k, 1
  {
    if k < |s| {
      BranchesDistinct(s, k, k);
    }
  }

  lemma {:induction false} BranchesDistinct<T>(s: seq<T>, k: nat, i: nat)
    requires k < |s| && k <= i <= |s| && Distinct(s)
    ensures Distinct(Branches(s, k, i))
    ensures forall p :: p in Branches(s, k, i) ==> |p| == |s| && p[k] in s[i..]
    decreases |s| - k, 0, |s| - i
  {
    if i < |s| {
      var t := Swap(s, k, i);
      SwapDistinct(s, k, i);
      PermsDistinct(t, k + 1);
      PermsArePermutations(t, k + 1);
      BranchesDistinct(s, k, i + 1);
      var head := Perms(t, k + 1);
      var tail := Branches(s, k, i + 1);
      forall p | p in head ensures p[k] == s[i] {
        assert p[..k + 1][k] == t[..k + 1][k];
      }
      forall x, y | 0 <= x < y < |head + tail| ensures (head + tail)[x] != (head + tail)[y] {
        if x < |head| && y >= |head| {
          var q := tail[y - |head|];
          assert q in tail;
          var m :| i + 1 <= m < |s| && s[m] == q[k];
          assert head[x][k] == s[i];
        }
      }
      forall p | p in head + tail ensures |p| == |s| && p[k] in s[i..] {
        if p in head {
          assert s[i..][0] == s[i];
        } else {
          assert s[i + 1..] == s[i..][1..];
        }
      }
    }
  }

  lemma SwapDistinct<T>(s: seq<T>, k: nat, i: nat)
    requires k < |s| && i < |s| && Distinct(s)
    ensures Distinct(Swap(s, k, i))
  {
    var t := Swap(s, k, i);
    forall x, y | 0 <= x < y < |t| ensures t[x] != t[y] {
      var x' := if x == k then i else if x == i then k else x;
      var y' := if y == k then i else if y == i then k else y;
      assert t[x] == s[x'] && t[y] == s[y'];
    }
  }
}
