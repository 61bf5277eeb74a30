/**
 * Sequence helpers shared by the graph model: the node ranges that
 * IntStream.range produces, their filters, List.removeAll, and the
 * max/min reductions of an IntStream.
 */
module Sequences {

  /** Strictly increasing, the order in which a filter over 0..n-1 delivers nodes. */
  predicate Ascending(s: seq<int>) {
    forall a, b | 0 <= a < b < |s| :: s[a] < s[b]
  }

  /** No element occurs twice. */
  predicate Distinct(s: seq<int>) {
    forall a, b | 0 <= a < b < |s| :: s[a] != s[b]
  }

  /** Every element lies in 0..n-1. */
  predicate InRange(s: seq<int>, n: int) {
    forall t | 0 <= t < |s| :: 0 <= s[t] < n
  }

  /** The nodes 0, 1, ..., n-1 (Graph.getNodes). */
  function AllNodes(n: nat): (r: seq<int>)
    ensures |r| == n && forall i | 0 <= i < n :: r[i] == i
    ensures forall x :: x in r <==> 0 <= x < n
  {
    if n == 0 then [] else AllNodes(n - 1) + [n - 1]
  }

  /** The nodes of 0..n-1 that satisfy p, in ascending order: IntStream.range(0, n).filter(p). */
  function NodesWhere(n: nat, p: int -> bool): (r: seq<int>)
    ensures forall x {:trigger x in r} :: x in r <==> 0 <= x < n && p(x)
    ensures Ascending(r) && InRange(r, n)
  {
    if n == 0 then [] else NodesWhere(n - 1, p) + (if p(n - 1) then [n - 1] else [])
  }

  /** List.removeAll: the elements of s that do not occur in c, in their original order. */
  function RemoveAll(s: seq<int>, c: seq<int>): (r: seq<int>)
    ensures forall x {:trigger x in r} :: x in r <==> x in s && x !in c
    ensures |r| <= |s|
    ensures s != [] && s[0] in c ==> |r| < |s|
  {
    if s == [] then []
    else (if s[0] in c then [] else [s[0]]) + RemoveAll(s[1..], c)
  }

  lemma {:induction false} RemoveAllCovered(s: seq<int>, c: seq<int>)
    requires forall x | x in s :: x in c
    ensures RemoveAll(s, c) == []
  {
    if s != [] {
      var h := s[0];
      assert h in s;
      assert h in c;
      assert forall x | x in s[1..] :: x in s;
      RemoveAllCovered(s[1..], c);
      assert RemoveAll(s, c) == [] + RemoveAll(s[1..], c);
    }
  }

  /** Removing elements keeps an ascending list ascending. */
  lemma {:induction false} RemoveAllAscending(s: seq<int>, c: seq<int>)
    requires Ascending(s)
    ensures Ascending(RemoveAll(s, c))
  {
    if s != [] {
      var rest := RemoveAll(s[1..], c);
      RemoveAllAscending(s[1..], c);
      forall b | 0 <= b < |rest|
        ensures s[0] < rest[b]
      {
        assert rest[b] in rest;
      }
    }
  }

  /** The largest element (IntStream.max on a non-empty stream). */
  function Max(s: seq<int>): (m: int)
    requires |s| > 0
    ensures m in s && forall x | x in s :: x <= m
  {
    if |s| == 1 then s[0]
    else
      var rest := Max(s[1..]);
      assert s == [s[0]] + s[1..];
      if s[0] > rest then s[0] else rest
  }

  /** The smallest element (IntStream.min on a non-empty stream). */
  function Min(s: seq<int>): (m: int)
    requires |s| > 0
    ensures m in s && forall x | x in s :: m <= x
  {
    if |s| == 1 then s[0]
    else
      var rest := Min(s[1..]);
      assert s == [s[0]] + s[1..];
      if s[0] < rest then s[0] else rest
  }

  /** IntStream.max().orElse(absent). */
  function MaxOr(s: seq<int>, absent: int): (m: int)
    ensures s == [] ==> m == absent
    ensures s != [] ==> m in s && forall x | x in s :: x <= m
  {
    if s == [] then absent else Max(s)
  }

  /** IntStream.min().orElse(absent). */
  function MinOr(s: seq<int>, absent: int): (m: int)
    ensures s == [] ==> m == absent
    ensures s != [] ==> m in s && forall x | x in s :: m <= x
  {
    if s == [] then absent else Min(s)
  }

  /** Position of the first occurrence of x in p. */
  function FirstIndex(p: seq<int>, x: int): (a: nat)
    requires x in p
    ensures a < |p| && p[a] == x && forall t | 0 <= t < a :: p[t] != x
  {
    if p[0] == x then 0 else 1 + FirstIndex(p[1..], x)
  }

  /** Position of the last occurrence of x in p. */
  function LastIndex(p: seq<int>, x: int): (b: nat)
    requires x in p
    ensures b < |p| && p[b] == x && forall t | b < t < |p| :: p[t] != x
  {
    if p[|p| - 1] == x then |p| - 1 else LastIndex(p[..|p| - 1], x)
  }

  /** The number of positive entries among s[0..k): a stream filter(v -> v > 0).count(). */
  function CountPositive(s: seq<int>, k: nat): (r: nat)
    requires k <= |s|
    ensures r == |set t | 0 <= t < k && s[t] > 0|
  {
    if k == 0 then 0
    else
      var smaller := set t | 0 <= t < k - 1 && s[t] > 0;
      assert (set t | 0 <= t < k && s[t] > 0) == smaller + (if s[k - 1] > 0 then {k - 1} else {});
      CountPositive(s, k - 1) + (if s[k - 1] > 0 then 1 else 0)
  }

  lemma ConcatAssociative<T>(a: seq<T>, b: seq<T>, c: seq<T>)
    ensures a + (b + c) == (a + b) + c
  {
  }

  /** Two ascending sequences with the same elements are equal. */
  lemma {:induction false} AscendingUnique(s: seq<int>, t: seq<int>)
    requires Ascending(s) && Ascending(t)
    requires forall x :: x in s <==> x in t
    ensures s == t
  {
    SameElementsSameLength(s, t);
    if |s| > 0 {
      // The heads are both the minimum of the common elements.
      assert t[0] <= s[0] by { assert s[0] in t; }
      assert s[0] <= t[0] by { assert t[0] in s; }
      forall x
        ensures x in s[1..] <==> x in t[1..]
      {
        if x in s[1..] {
          assert x in t && x != t[0];
        }
        if x in t[1..] {
          assert x in s && x != s[0];
        }
      }
      AscendingUnique(s[1..], t[1..]);
      assert s == [s[0]] + s[1..] && t == [t[0]] + t[1..];
    }
  }

  lemma SameElementsSameLength(s: seq<int>, t: seq<int>)
    requires Ascending(s) && Ascending(t)
    requires forall x :: x in s <==> x in t
    ensures |s| == |t|
  {
    DistinctElements(s);
    DistinctElements(t);
    assert (set x | x in s) == (set x | x in t);
  }

  /** A sequence without repetitions over 0..n-1 has at most n elements. */
  lemma {:induction false} DistinctFits(s: seq<int>, n: nat)
    requires Distinct(s) && InRange(s, n)
    ensures |s| <= n
  {
    DistinctElements(s);
    DistinctElements(AllNodes(n));
    var range := set x | x in AllNodes(n);
    var elements := set x | x in s;
    assert elements <= range;
    SubsetSize(elements, range);
  }

  lemma {:induction false} DistinctElements(s: seq<int>)
    requires Distinct(s) || Ascending(s)
    ensures |set x | x in s| == |s|
  {
    if s != [] {
      DistinctElements(s[1..]);
      assert (set x | x in s) == {s[0]} + (set x | x in s[1..]);
      assert s[0] !in s[1..];
    }
  }

  lemma SubsetSize(a: set<int>, b: set<int>)
    requires a <= b
    ensures |a| <= |b|
  {
    assert b == a + (b - a);
    assert a * (b - a) == {};
  }
}
