/**
 * What Graph.calcDistanceMatrix computes, stated on values.
 *
 * Dist(adj, k, i, j) is the entry [i][j] of the distance matrix after the
 * relaxation passes for the pivots 0..k-1; Dist(adj, 0, i, j) is the
 * initial entry. The lemmas give it its meaning: a finite entry is the
 * weight of a path from i to j whose inner nodes are all below k, and no
 * such path is lighter. Integers are unbounded, so a sum that Java would
 * wrap is kept exact here; INF is Integer.MAX_VALUE.
 */
module ShortestPaths {
  import opened Sequences
  import opened Matrices

  /** Integer.MAX_VALUE, the sentinel for "unreachable". */
  const INF: int := 0x7FFF_FFFF

  /** The adjacency matrices the engine works on: square, each entry a Java int. */
  predicate IsWeightMatrix(adj: Matrix) {
    IsSquare(adj, |adj|) &&
    forall r, c | 0 <= r < |adj| && 0 <= c < |adj| :: adj[r][c] <= INF
  }

  /**
   * The entry before relaxation: 0 on the diagonal, the weight of a
   * positive adjacency entry, INF otherwise (diagonal weights are ignored).
   */
  function Direct(adj: Matrix, i: int, j: int): (w: int)
    requires IsWeightMatrix(adj) && 0 <= i < |adj| && 0 <= j < |adj|
    ensures 0 <= w <= INF
  {
    if i == j then 0 else if adj[i][j] > 0 then adj[i][j] else INF
  }

  /** One relaxation step: replace the entry by the detour through the pivot when both legs are finite and shorter. */
  function Relax(current: int, toPivot: int, fromPivot: int): (r: int)
    ensures r <= current
    ensures r == current || r == toPivot + fromPivot
    ensures toPivot != INF && fromPivot != INF ==> r <= toPivot + fromPivot
  {
    if toPivot == INF || fromPivot == INF then current
    else if current > toPivot + fromPivot then toPivot + fromPivot
    else current
  }

  /** The distance from i to j once the pivots 0..k-1 have been processed. */
  function Dist(adj: Matrix, k: nat, i: int, j: int): (r: int)
    requires IsWeightMatrix(adj) && k <= |adj| && 0 <= i < |adj| && 0 <= j < |adj|
    ensures 0 <= r <= INF
    decreases k
  {
    if k == 0 then Direct(adj, i, j)
    else Relax(Dist(adj, k - 1, i, j), Dist(adj, k - 1, i, k - 1), Dist(adj, k - 1, k - 1, j))
  }

  /** The finished distance matrix. */
  function Distances(adj: Matrix): (d: Matrix)
    requires IsWeightMatrix(adj)
    ensures IsSquare(d, |adj|)
    ensures forall i, j | 0 <= i < |adj| && 0 <= j < |adj| :: d[i][j] == Dist(adj, |adj|, i, j)
  {
    seq(|adj|, i requires 0 <= i < |adj| =>
      seq(|adj|, j requires 0 <= j < |adj| => Dist(adj, |adj|, i, j)))
  }

  // ---------------------------------------------------------------------
  // Paths

  /** A walk through the graph: consecutive nodes are equal or joined by an edge of weight below INF. */
  predicate IsPath(adj: Matrix, p: seq<int>)
    requires IsWeightMatrix(adj)
  {
    |p| > 0 && InRange(p, |adj|) &&
    forall t | 0 <= t < |p| - 1 :: Direct(adj, p[t], p[t + 1]) < INF
  }

  /** A path that starts at i and ends at j. */
  predicate PathBetween(adj: Matrix, p: seq<int>, i: int, j: int)
    requires IsWeightMatrix(adj)
  {
    IsPath(adj, p) && p[0] == i && p[|p| - 1] == j
  }

  /** Every inner node of p (all but the two ends) is below k. */
  predicate InnerBelow(p: seq<int>, k: int) {
    forall t | 0 < t < |p| - 1 :: p[t] < k
  }

  /** The total weight of the steps of p. */
  function Weight(adj: Matrix, p: seq<int>): (w: int)
    requires IsWeightMatrix(adj) && InRange(p, |adj|)
    ensures w >= 0
  {
    if |p| <= 1 then 0 else Direct(adj, p[0], p[1]) + Weight(adj, p[1..])
  }

  /** Two paths that meet end to start form a path whose weight is the sum. */
  lemma {:induction false} JoinPath(adj: Matrix, p: seq<int>, q: seq<int>)
    requires IsWeightMatrix(adj) && IsPath(adj, p) && IsPath(adj, q) && p[|p| - 1] == q[0]
    ensures IsPath(adj, p + q[1..])
    ensures Weight(adj, p + q[1..]) == Weight(adj, p) + Weight(adj, q)
  {
    var pq := p + q[1..];
    forall t | 0 <= t < |pq| - 1
      ensures Direct(adj, pq[t], pq[t + 1]) < INF
    {
      if t < |p| - 1 {
        assert pq[t] == p[t] && pq[t + 1] == p[t + 1];
      } else {
        assert pq[t] == q[t - |p| + 1] && pq[t + 1] == q[t - |p| + 2];
      }
    }
    if |p| == 1 {
      assert pq == q;
    } else {
      JoinPath(adj, p[1..], q);
      assert pq[1..] == p[1..] + q[1..];
    }
  }

  /** Cutting a path at position a gives two paths whose weights add up. */
  lemma SplitPath(adj: Matrix, p: seq<int>, a: int)
    requires IsWeightMatrix(adj) && IsPath(adj, p) && 0 <= a < |p|
    ensures IsPath(adj, p[..a + 1]) && IsPath(adj, p[a..])
    ensures Weight(adj, p) == Weight(adj, p[..a + 1]) + Weight(adj, p[a..])
  {
    var head, tail := p[..a + 1], p[a..];
    forall t | 0 <= t < |head| - 1
      ensures Direct(adj, head[t], head[t + 1]) < INF
    {
      assert head[t] == p[t] && head[t + 1] == p[t + 1];
    }
    forall t | 0 <= t < |tail| - 1
      ensures Direct(adj, tail[t], tail[t + 1]) < INF
    {
      assert tail[t] == p[a + t] && tail[t + 1] == p[a + t + 1];
    }
    assert head + tail[1..] == p;
    JoinPath(adj, head, tail);
  }

  /** Joining keeps the inner nodes below k when the meeting node is below k. */
  lemma JoinInner(p: seq<int>, q: seq<int>, k: int)
    requires |p| > 0 && |q| > 0 && p[|p| - 1] == q[0] && q[0] < k
    requires InnerBelow(p, k) && InnerBelow(q, k)
    ensures InnerBelow(p + q[1..], k)
  {
    var pq := p + q[1..];
    forall t | 0 < t < |pq| - 1
      ensures pq[t] < k
    {
      if t < |p| - 1 {
        assert pq[t] == p[t];
      } else if t == |p| - 1 {
        assert pq[t] == q[0];
      } else {
        assert pq[t] == q[t - |p| + 1];
      }
    }
  }

  // ---------------------------------------------------------------------
  // Properties of the passes

  /** The diagonal stays 0 through every pass. */
  lemma {:induction false} DistDiagonal(adj: Matrix, k: nat, i: int)
    requires IsWeightMatrix(adj) && k <= |adj| && 0 <= i < |adj|
    ensures Dist(adj, k, i, i) == 0
  {
    if k > 0 {
      DistDiagonal(adj, k - 1, i);
    }
  }

  /**
   * Pass k leaves row k and column k as they were. This is why the
   * relaxation may update the matrix in place.
   */
  lemma PassKeepsPivot(adj: Matrix, k: nat, i: int, j: int)
    requires IsWeightMatrix(adj) && k < |adj| && 0 <= i < |adj| && 0 <= j < |adj|
    ensures Dist(adj, k + 1, i, k) == Dist(adj, k, i, k)
    ensures Dist(adj, k + 1, k, j) == Dist(adj, k, k, j)
  {
    DistDiagonal(adj, k, k);
  }

  /** Entries never increase: every pass gives at most the initial entry. */
  lemma {:induction false} DistAtMostDirect(adj: Matrix, k: nat, i: int, j: int)
    requires IsWeightMatrix(adj) && k <= |adj| && 0 <= i < |adj| && 0 <= j < |adj|
    ensures Dist(adj, k, i, j) <= Direct(adj, i, j)
  {
    if k > 0 {
      DistAtMostDirect(adj, k - 1, i, j);
    }
  }

  /** An undirected graph has a symmetric distance matrix after every pass. */
  lemma {:induction false} DistSymmetric(adj: Matrix, k: nat, i: int, j: int)
    requires IsWeightMatrix(adj) && Symmetric(adj)
    requires k <= |adj| && 0 <= i < |adj| && 0 <= j < |adj|
    ensures Dist(adj, k, i, j) == Dist(adj, k, j, i)
  {
    if k > 0 {
      DistSymmetric(adj, k - 1, i, j);
      DistSymmetric(adj, k - 1, i, k - 1);
      DistSymmetric(adj, k - 1, k - 1, j);
    }
  }

  /** A finite entry is the weight of a path from i to j whose inner nodes are below k. */
  lemma {:induction false} DistSound(adj: Matrix, k: nat, i: int, j: int) returns (p: seq<int>)
    requires IsWeightMatrix(adj) && k <= |adj| && 0 <= i < |adj| && 0 <= j < |adj|
    requires Dist(adj, k, i, j) < INF
    ensures PathBetween(adj, p, i, j) && InnerBelow(p, k)
    ensures Weight(adj, p) == Dist(adj, k, i, j)
    decreases k
  {
    if k == 0 {
      if i == j {
        p := [i];
      } else {
        p := [i, j];
        assert Weight(adj, p) == Direct(adj, i, j) + Weight(adj, [j]);
      }
    } else {
      var current := Dist(adj, k - 1, i, j);
      var toPivot := Dist(adj, k - 1, i, k - 1);
      var fromPivot := Dist(adj, k - 1, k - 1, j);
      assert Dist(adj, k, i, j) == Relax(current, toPivot, fromPivot);
      if toPivot == INF || fromPivot == INF || current <= toPivot + fromPivot {
        assert Dist(adj, k, i, j) == current;
        p := DistSound(adj, k - 1, i, j);
      } else {
        assert Dist(adj, k, i, j) == toPivot + fromPivot;
        var first := DistSound(adj, k - 1, i, k - 1);
        var second := DistSound(adj, k - 1, k - 1, j);
        p := JoinThroughPivot(adj, first, second, i, k, j);
      }
    }
  }

  /** A path from i to k-1 joined to a path from k-1 to j, both with inner nodes below k-1. */
  lemma JoinThroughPivot(adj: Matrix, first: seq<int>, second: seq<int>, i: int, k: int, j: int) returns (p: seq<int>)
    requires IsWeightMatrix(adj) && 0 < k
    requires PathBetween(adj, first, i, k - 1) && InnerBelow(first, k - 1)
    requires PathBetween(adj, second, k - 1, j) && InnerBelow(second, k - 1)
    ensures PathBetween(adj, p, i, j) && InnerBelow(p, k)
    ensures Weight(adj, p) == Weight(adj, first) + Weight(adj, second)
  {
    JoinPath(adj, first, second);
    JoinInner(first, second, k);
    p := first + second[1..];
    assert p[0] == first[0];
    if |second| == 1 {
      assert p == first;
    } else {
      assert p[|p| - 1] == second[|second| - 1];
    }
  }

  /** No path from i to j whose inner nodes are below k is lighter than the entry. */
  lemma {:induction false} DistOptimal(adj: Matrix, k: nat, i: int, j: int, p: seq<int>)
    requires IsWeightMatrix(adj) && k <= |adj| && 0 <= i < |adj| && 0 <= j < |adj|
    requires PathBetween(adj, p, i, j) && InnerBelow(p, k)
    ensures Dist(adj, k, i, j) <= Weight(adj, p)
    decreases k
  {
    if k == 0 {
      if |p| == 2 {
        assert Weight(adj, p) == Direct(adj, i, j) + Weight(adj, p[1..]);
      }
    } else {
      var pivot := k - 1;
      if pivot !in p {
        assert InnerBelow(p, pivot) by {
          forall t | 0 < t < |p| - 1
            ensures p[t] < pivot
          {
            assert p[t] in p;
          }
        }
        DistOptimal(adj, pivot, i, j, p);
      } else {
        ThroughPivot(adj, k, i, j, p);
      }
    }
  }

  /** The case of DistOptimal where p visits the pivot k-1: cut at its first and last visit. */
  lemma {:induction false} ThroughPivot(adj: Matrix, k: nat, i: int, j: int, p: seq<int>)
    requires IsWeightMatrix(adj) && 0 < k <= |adj| && 0 <= i < |adj| && 0 <= j < |adj|
    requires PathBetween(adj, p, i, j) && InnerBelow(p, k) && k - 1 in p
    ensures Dist(adj, k, i, j) <= Weight(adj, p)
    decreases k, 0
  {
    var pivot := k - 1;
    var a := FirstIndex(p, pivot);
    var b := LastIndex(p, pivot);
    var head, loop, tail := p[..a + 1], p[a..b + 1], p[b..];
    PathPieces(adj, p, a, b);
    assert InnerBelow(head, pivot) by {
      forall t | 0 < t < |head| - 1
        ensures head[t] < pivot
      {
        assert head[t] == p[t];
      }
    }
    assert InnerBelow(tail, pivot) by {
      forall t | 0 < t < |tail| - 1
        ensures tail[t] < pivot
      {
        assert tail[t] == p[b + t];
      }
    }
    DistOptimal(adj, pivot, i, pivot, head);
    DistOptimal(adj, pivot, pivot, j, tail);
  }

  /** Cutting a path at positions a <= b gives three paths whose weights add up. */
  lemma PathPieces(adj: Matrix, p: seq<int>, a: int, b: int)
    requires IsWeightMatrix(adj) && IsPath(adj, p) && 0 <= a <= b < |p|
    ensures IsPath(adj, p[..a + 1]) && IsPath(adj, p[b..])
    ensures Weight(adj, p) >= Weight(adj, p[..a + 1]) + Weight(adj, p[b..])
  {
    SplitPath(adj, p, a);
    var rest := p[a..];
    SplitPath(adj, rest, b - a);
    assert rest[b - a..] == p[b..];
  }

  // ---------------------------------------------------------------------
  // The finished matrix

  /**
   * Each entry of the finished matrix is a shortest-path weight: a finite
   * entry is the weight of some path, and no path is lighter than the entry.
   */
  lemma ShortestPath(adj: Matrix, i: int, j: int)
    requires IsWeightMatrix(adj) && 0 <= i < |adj| && 0 <= j < |adj|
    ensures 0 <= Distances(adj)[i][j] <= INF
    ensures Distances(adj)[i][j] < INF ==>
      exists p :: PathBetween(adj, p, i, j) && Weight(adj, p) == Distances(adj)[i][j]
    ensures forall p | PathBetween(adj, p, i, j) :: Distances(adj)[i][j] <= Weight(adj, p)
  {
    var n := |adj|;
    if Dist(adj, n, i, j) < INF {
      var p := DistSound(adj, n, i, j);
    }
    forall p | PathBetween(adj, p, i, j)
      ensures Dist(adj, n, i, j) <= Weight(adj, p)
    {
      assert InnerBelow(p, n);
      DistOptimal(adj, n, i, j, p);
    }
  }

  /** The finished matrix satisfies the triangle inequality wherever both legs are finite. */
  lemma TriangleInequality(adj: Matrix, i: int, m: int, j: int)
    requires IsWeightMatrix(adj) && 0 <= i < |adj| && 0 <= m < |adj| && 0 <= j < |adj|
    requires Distances(adj)[i][m] < INF && Distances(adj)[m][j] < INF
    ensures Distances(adj)[i][j] <= Distances(adj)[i][m] + Distances(adj)[m][j]
  {
    var n := |adj|;
    var first := DistSound(adj, n, i, m);
    var second := DistSound(adj, n, m, j);
    JoinPath(adj, first, second);
    var p := first + second[1..];
    assert InnerBelow(p, n);
    DistOptimal(adj, n, i, j, p);
  }

  /** The diagonal of the finished matrix is 0 and no entry exceeds its initial value. */
  lemma FinishedDiagonalAndBound(adj: Matrix, i: int, j: int)
    requires IsWeightMatrix(adj) && 0 <= i < |adj| && 0 <= j < |adj|
    ensures Distances(adj)[i][i] == 0
    ensures Distances(adj)[i][j] <= Direct(adj, i, j)
  {
    DistDiagonal(adj, |adj|, i);
    DistAtMostDirect(adj, |adj|, i, j);
  }

  /** The finished matrix of an undirected graph is symmetric. */
  lemma FinishedSymmetric(adj: Matrix)
    requires IsWeightMatrix(adj) && Symmetric(adj)
    ensures Symmetric(Distances(adj))
  {
    forall i, j | 0 <= i < |adj| && 0 <= j < |adj|
      ensures Distances(adj)[i][j] == Distances(adj)[j][i]
    {
      DistSymmetric(adj, |adj|, i, j);
    }
  }
}
