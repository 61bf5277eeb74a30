/**
 * Why the distance matrix fits in a Java int: when every edge weight is
 * small enough (Bounded), a shortest path never needs to repeat a node,
 * so it has fewer than n steps and weighs less than INF / 2. Then the sum
 * formed in the relaxation never exceeds Integer.MAX_VALUE, and INF in the
 * finished matrix means exactly "no path".
 */
module PathBounds {
  import opened Sequences
  import opened Matrices
  import opened ShortestPaths

  /** Every edge weight w satisfies 2 * n * w < INF for the node count n. */
  predicate Bounded(adj: Matrix)
    requires IsWeightMatrix(adj)
  {
    forall r, c | 0 <= r < |adj| && 0 <= c < |adj| :: 2 * |adj| * adj[r][c] < INF
  }

  /** Some path leads from i to j. */
  ghost predicate Reachable(adj: Matrix, i: int, j: int)
    requires IsWeightMatrix(adj)
  {
    exists p :: PathBetween(adj, p, i, j)
  }

  /**
   * Every path can be shortened to one without repeated nodes that has the
   * same ends, only nodes of the original, and no greater weight.
   */
  lemma {:induction false} Shortcut(adj: Matrix, p: seq<int>) returns (q: seq<int>)
    requires IsWeightMatrix(adj) && IsPath(adj, p)
    ensures PathBetween(adj, q, p[0], p[|p| - 1]) && Distinct(q)
    ensures Weight(adj, q) <= Weight(adj, p)
    ensures forall x | x in q :: x in p
    decreases |p|
  {
    if |p| == 1 {
      q := p;
    } else {
      TailPath(adj, p);
      var r := Shortcut(adj, p[1..]);
      q := Prepend(adj, p, r);
    }
  }

  /** Dropping the first node of a path of two or more nodes leaves a path. */
  lemma TailPath(adj: Matrix, p: seq<int>)
    requires IsWeightMatrix(adj) && IsPath(adj, p) && |p| > 1
    ensures IsPath(adj, p[1..])
    ensures Weight(adj, p) == Direct(adj, p[0], p[1]) + Weight(adj, p[1..])
  {
    var tail := p[1..];
    forall t | 0 <= t < |tail| - 1
      ensures Direct(adj, tail[t], tail[t + 1]) < INF
    {
      assert tail[t] == p[t + 1] && tail[t + 1] == p[t + 2];
    }
  }

  /** The step of Shortcut: put p[0] in front of the shortened tail r, cutting the loop back to p[0] if r has one. */
  lemma Prepend(adj: Matrix, p: seq<int>, r: seq<int>) returns (q: seq<int>)
    requires IsWeightMatrix(adj) && IsPath(adj, p) && |p| > 1
    requires PathBetween(adj, r, p[1], p[|p| - 1]) && Distinct(r)
    requires Weight(adj, r) <= Weight(adj, p[1..])
    requires forall x | x in r :: x in p
    ensures PathBetween(adj, q, p[0], p[|p| - 1]) && Distinct(q)
    ensures Weight(adj, q) <= Weight(adj, p)
    ensures forall x | x in q :: x in p
  {
    TailPath(adj, p);
    if p[0] in r {
      q := CutLoop(adj, r, p[0]);
    } else {
      q := PrependFresh(adj, p[0], r);
    }
  }

  /** The part of a simple path r from the node x on: a simple path to the same end, no heavier. */
  lemma CutLoop(adj: Matrix, r: seq<int>, x: int) returns (q: seq<int>)
    requires IsWeightMatrix(adj) && IsPath(adj, r) && Distinct(r) && x in r
    ensures PathBetween(adj, q, x, r[|r| - 1]) && Distinct(q)
    ensures Weight(adj, q) <= Weight(adj, r)
    ensures forall y | y in q :: y in r
  {
    var a := FirstIndex(r, x);
    SplitPath(adj, r, a);
    q := r[a..];
    forall y | y in q
      ensures y in r
    {
      var t := FirstIndex(q, y);
      assert r[a + t] == y;
    }
  }

  /** A node x not on the simple path r and joined to its start, put in front of r. */
  lemma PrependFresh(adj: Matrix, x: int, r: seq<int>) returns (q: seq<int>)
    requires IsWeightMatrix(adj) && IsPath(adj, r) && Distinct(r) && x !in r
    requires 0 <= x < |adj| && Direct(adj, x, r[0]) < INF
    ensures PathBetween(adj, q, x, r[|r| - 1]) && Distinct(q)
    ensures Weight(adj, q) == Direct(adj, x, r[0]) + Weight(adj, r)
    ensures forall y | y in q :: y == x || y in r
  {
    q := [x] + r;
    assert q[1..] == r;
    forall a, b | 0 <= a < b < |q|
      ensures q[a] != q[b]
    {
      if a == 0 {
        assert q[b] == r[b - 1];
      } else {
        assert q[a] == r[a - 1] && q[b] == r[b - 1];
      }
    }
    forall t | 0 <= t < |q| - 1
      ensures Direct(adj, q[t], q[t + 1]) < INF
    {
      if t > 0 {
        assert q[t] == r[t - 1] && q[t + 1] == r[t];
      }
    }
  }

  /** Shortening keeps the inner nodes below k: a node of q that is not an end of q is an inner node of p. */
  lemma InnerOfSimple(p: seq<int>, q: seq<int>, k: int)
    requires |p| > 0 && |q| > 0 && Distinct(q) && q[0] == p[0] && q[|q| - 1] == p[|p| - 1]
    requires forall x | x in q :: x in p
    requires InnerBelow(p, k)
    ensures InnerBelow(q, k)
  {
    forall t | 0 < t < |q| - 1
      ensures q[t] < k
    {
      assert q[t] in q;
      var s := FirstIndex(p, q[t]);
      assert q[t] != q[0] && q[t] != q[|q| - 1];
    }
  }

  /** A path of m steps over a Bounded matrix satisfies 2 * n * weight <= m * (INF - 1). */
  lemma {:induction false} StepsLight(adj: Matrix, q: seq<int>)
    requires IsWeightMatrix(adj) && Bounded(adj) && IsPath(adj, q)
    ensures 2 * |adj| * Weight(adj, q) <= (|q| - 1) * (INF - 1)
  {
    if |q| > 1 {
      var n := |adj|;
      var r := q[1..];
      TailPath(adj, q);
      StepsLight(adj, r);
      StepLight(adj, q[0], q[1]);
      AddSteps(n, Direct(adj, q[0], q[1]), Weight(adj, r), |r| - 1);
    }
  }

  /** One step over a Bounded matrix satisfies 2 * n * weight < INF. */
  lemma StepLight(adj: Matrix, a: int, b: int)
    requires IsWeightMatrix(adj) && Bounded(adj) && 0 <= a < |adj| && 0 <= b < |adj|
    requires Direct(adj, a, b) < INF
    ensures 2 * |adj| * Direct(adj, a, b) <= INF - 1
  {
  }

  lemma AddSteps(n: nat, step: int, rest: int, m: int)
    requires 2 * n * step <= INF - 1 && 2 * n * rest <= m * (INF - 1)
    ensures 2 * n * (step + rest) <= (m + 1) * (INF - 1)
  {
    assert 2 * n * (step + rest) == 2 * n * step + 2 * n * rest;
  }

  /** A path without repeated nodes over a Bounded matrix weighs less than INF / 2. */
  lemma DistinctPathLight(adj: Matrix, q: seq<int>)
    requires IsWeightMatrix(adj) && Bounded(adj) && IsPath(adj, q) && Distinct(q)
    ensures 2 * Weight(adj, q) < INF
  {
    var n, w := |adj|, Weight(adj, q);
    DistinctFits(q, n);
    StepsLight(adj, q);
    HalfBelowInf(n, w, |q| - 1);
  }

  /** The arithmetic of DistinctPathLight: m < n steps with 2 * n * w <= m * (INF - 1) give 2 * w < INF. */
  lemma HalfBelowInf(n: nat, w: int, m: int)
    requires 0 <= m < n && 2 * n * w <= m * (INF - 1)
    ensures 2 * w < INF
  {
    FewerStepsBelow(m, n);
    assert n * (2 * w) == 2 * n * w;
    CancelFactor(n, 2 * w, INF);
  }

  /** Fewer than n steps, each below INF, weigh less than n * INF. */
  lemma FewerStepsBelow(m: int, n: nat)
    requires m < n
    ensures m * (INF - 1) < n * INF
  {
    MultiplyMonotone(INF, 1, n - m);
    assert n * INF == m * INF + (n - m) * INF;
    assert m * (INF - 1) == m * INF - m;
  }

  /** Dividing both sides of n * a < n * b by a positive n. */
  lemma CancelFactor(n: nat, a: int, b: int)
    requires n > 0 && n * a < n * b
    ensures a < b
  {
    if a >= b {
      MultiplyMonotone(n, b, a);
    }
  }

  lemma {:induction false} MultiplyMonotone(n: nat, a: int, b: int)
    requires a <= b
    ensures n * a <= n * b
  {
    if n > 0 {
      MultiplyMonotone(n - 1, a, b);
      assert n * a == (n - 1) * a + a && n * b == (n - 1) * b + b;
    }
  }

  /** Over a Bounded matrix every finite entry of every pass is below INF / 2. */
  lemma FiniteDistanceSmall(adj: Matrix, k: nat, i: int, j: int)
    requires IsWeightMatrix(adj) && Bounded(adj)
    requires k <= |adj| && 0 <= i < |adj| && 0 <= j < |adj|
    requires Dist(adj, k, i, j) < INF
    ensures 2 * Dist(adj, k, i, j) < INF
  {
    var p := DistSound(adj, k, i, j);
    var q := Shortcut(adj, p);
    InnerOfSimple(p, q, k);
    DistOptimal(adj, k, i, j, q);
    DistinctPathLight(adj, q);
  }

  /**
   * Over a Bounded matrix the sum formed when a detour through pivot k is
   * tried (both legs finite) stays below Integer.MAX_VALUE: the Java int
   * addition does not overflow.
   */
  lemma RelaxationFitsInt(adj: Matrix, k: nat, i: int, j: int)
    requires IsWeightMatrix(adj) && Bounded(adj)
    requires k < |adj| && 0 <= i < |adj| && 0 <= j < |adj|
    requires Dist(adj, k, i, k) < INF && Dist(adj, k, k, j) < INF
    ensures 0 <= Dist(adj, k, i, k) + Dist(adj, k, k, j) < INF
  {
    FiniteDistanceSmall(adj, k, i, k);
    FiniteDistanceSmall(adj, k, k, j);
  }

  /** Over a Bounded matrix, any path from i to j makes the finished entry finite. */
  lemma PathMeansFinite(adj: Matrix, i: int, j: int, p: seq<int>)
    requires IsWeightMatrix(adj) && Bounded(adj) && 0 <= i < |adj| && 0 <= j < |adj|
    requires PathBetween(adj, p, i, j)
    ensures Distances(adj)[i][j] < INF
  {
    var q := Shortcut(adj, p);
    assert InnerBelow(q, |adj|);
    DistOptimal(adj, |adj|, i, j, q);
    DistinctPathLight(adj, q);
  }

  /** Over a Bounded matrix, INF in the finished matrix means exactly that no path exists. */
  lemma NoPathIffInf(adj: Matrix, i: int, j: int)
    requires IsWeightMatrix(adj) && Bounded(adj) && 0 <= i < |adj| && 0 <= j < |adj|
    ensures Distances(adj)[i][j] == INF <==> !Reachable(adj, i, j)
  {
    if Distances(adj)[i][j] < INF {
      var p := DistSound(adj, |adj|, i, j);
    }
    if Reachable(adj, i, j) {
      var p :| PathBetween(adj, p, i, j);
      PathMeansFinite(adj, i, j, p);
    }
  }

  /** Over a Bounded matrix, reachability through the finished matrix is transitive. */
  lemma ReachTransitive(adj: Matrix, i: int, m: int, j: int)
    requires IsWeightMatrix(adj) && Bounded(adj)
    requires 0 <= i < |adj| && 0 <= m < |adj| && 0 <= j < |adj|
    requires Distances(adj)[i][m] < INF && Distances(adj)[m][j] < INF
    ensures Distances(adj)[i][j] < INF
  {
    TriangleInequality(adj, i, m, j);
    FiniteDistanceSmall(adj, |adj|, i, m);
    FiniteDistanceSmall(adj, |adj|, m, j);
  }
}
