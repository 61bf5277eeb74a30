/**
 * The handshake relation between getDegree and getEdgeCount on an
 * undirected graph: getEdgeCount counts each edge once (the entries on
 * and below the diagonal), getDegree counts every positive entry of a
 * row, so summing the degrees counts every edge between two nodes twice
 * and every self-loop once.
 */
module Handshake {
  import opened Sequences
  import opened Matrices
  import opened ShortestPaths
  import opened Graphs

  /** Positive entries m[r][c] for lo <= c < hi. */
  function RowCount(m: Matrix, r: int, lo: nat, hi: int): nat
    requires IsSquare(m, |m|) && 0 <= r < |m| && hi <= |m|
    decreases hi - lo
  {
    if hi <= lo then 0 else RowCount(m, r, lo, hi - 1) + (if m[r][hi - 1] > 0 then 1 else 0)
  }

  /** Positive entries m[r][c] for lo <= r < hi. */
  function ColCount(m: Matrix, c: int, lo: nat, hi: int): nat
    requires IsSquare(m, |m|) && 0 <= c < |m| && hi <= |m|
    decreases hi - lo
  {
    if hi <= lo then 0 else ColCount(m, c, lo, hi - 1) + (if m[hi - 1][c] > 0 then 1 else 0)
  }

  lemma {:induction false} RowCountSplit(m: Matrix, r: int, lo: nat, mid: nat, hi: nat)
    requires IsSquare(m, |m|) && 0 <= r < |m| && lo <= mid <= hi <= |m|
    ensures RowCount(m, r, lo, hi) == RowCount(m, r, lo, mid) + RowCount(m, r, mid, hi)
    decreases hi
  {
    if hi > mid {
      RowCountSplit(m, r, lo, mid, hi - 1);
    }
  }

  /** In a symmetric matrix a column counts like the row of the same index. */
  lemma {:induction false} ColumnLikeRow(m: Matrix, c: int, lo: nat, hi: int)
    requires IsSquare(m, |m|) && Symmetric(m) && 0 <= c < |m| && hi <= |m|
    ensures ColCount(m, c, lo, hi) == RowCount(m, c, lo, hi)
    decreases hi - lo
  {
    if hi > lo {
      ColumnLikeRow(m, c, lo, hi - 1);
    }
  }

  lemma {:induction false} CountPositiveIsRowCount(m: Matrix, r: int, k: nat)
    requires IsSquare(m, |m|) && 0 <= r < |m| && k <= |m|
    ensures CountPositive(m[r], k) == RowCount(m, r, 0, k)
  {
    if k > 0 {
      CountPositiveIsRowCount(m, r, k - 1);
    }
  }

  /** Positive entries strictly below the diagonal in the first rows rows. */
  function Below(m: Matrix, rows: nat): nat
    requires IsSquare(m, |m|) && rows <= |m|
  {
    if rows == 0 then 0 else Below(m, rows - 1) + RowCount(m, rows - 1, 0, rows - 1)
  }

  /** Positive entries m[r][c] with r < rows and r < c < hi. */
  function Above(m: Matrix, rows: nat, hi: int): nat
    requires IsSquare(m, |m|) && rows <= |m| && hi <= |m|
  {
    if rows == 0 then 0 else Above(m, rows - 1, hi) + RowCount(m, rows - 1, rows, hi)
  }

  /** Positive diagonal entries (self-loops) among the first rows nodes. */
  function Loops(m: Matrix, rows: nat): nat
    requires IsSquare(m, |m|) && rows <= |m|
  {
    if rows == 0 then 0 else Loops(m, rows - 1) + (if m[rows - 1][rows - 1] > 0 then 1 else 0)
  }

  /** Widening the upper triangle by column hi adds that column's entries above the diagonal. */
  lemma {:induction false} AboveNextColumn(m: Matrix, rows: nat, hi: nat)
    requires IsSquare(m, |m|) && rows <= hi < |m|
    ensures Above(m, rows, hi + 1) == Above(m, rows, hi) + ColCount(m, hi, 0, rows)
  {
    if rows > 0 {
      AboveNextColumn(m, rows - 1, hi);
    }
  }

  /** In a symmetric matrix the strict upper triangle counts like the strict lower one. */
  lemma {:induction false} UpperLikeLower(m: Matrix, k: nat)
    requires IsSquare(m, |m|) && Symmetric(m) && k <= |m|
    ensures Above(m, k, k) == Below(m, k)
  {
    if k > 0 {
      UpperLikeLower(m, k - 1);
      AboveNextColumn(m, k - 1, k - 1);
      ColumnLikeRow(m, k - 1, 0, k - 1);
      assert RowCount(m, k - 1, k, k) == 0;
    }
  }

  /** The full rows split into the part below, the diagonal and the part above. */
  lemma {:induction false} RowsSplit(m: Matrix, rows: nat)
    requires IsSquare(m, |m|) && rows <= |m|
    ensures RowsTotal(m, rows) == Below(m, rows) + Loops(m, rows) + Above(m, rows, |m|)
  {
    if rows > 0 {
      var r := rows - 1;
      RowsSplit(m, r);
      RowCountSplit(m, r, 0, r, |m|);
      RowCountSplit(m, r, r, r + 1, |m|);
      assert RowCount(m, r, r, r + 1) == (if m[r][r] > 0 then 1 else 0);
    }
  }

  /** All positive entries of the first rows rows. */
  function RowsTotal(m: Matrix, rows: nat): nat
    requires IsSquare(m, |m|) && rows <= |m|
  {
    if rows == 0 then 0 else RowsTotal(m, rows - 1) + RowCount(m, rows - 1, 0, |m|)
  }

  /** getEdgeCount's lower triangle is the strict lower triangle plus the self-loops. */
  lemma {:induction false} LowerIsBelowAndLoops(g: Graph, rows: nat)
    requires g.Valid() && rows <= g.nodeCount
    ensures g.LowerCount(rows) == Below(g.adjacency, rows) + Loops(g.adjacency, rows)
  {
    if rows > 0 {
      var r := rows - 1;
      LowerIsBelowAndLoops(g, r);
      CountPositiveIsRowCount(g.adjacency, r, rows);
      assert RowCount(g.adjacency, r, 0, rows) == RowCount(g.adjacency, r, 0, r) +
        (if g.adjacency[r][r] > 0 then 1 else 0);
    }
  }

  /** The degrees of the first k nodes, added up. */
  function DegreeSum(g: Graph, k: nat): nat
    requires g.Valid() && k <= g.nodeCount
  {
    if k == 0 then 0 else DegreeSum(g, k - 1) + g.GetDegree(k - 1)
  }

  lemma {:induction false} DegreeSumIsRowsTotal(g: Graph, k: nat)
    requires g.Valid() && k <= g.nodeCount
    ensures DegreeSum(g, k) == RowsTotal(g.adjacency, k)
  {
    if k > 0 {
      DegreeSumIsRowsTotal(g, k - 1);
      CountPositiveIsRowCount(g.adjacency, k - 1, g.nodeCount);
    }
  }

  /**
   * For a symmetric adjacency matrix the degrees add up to twice
   * getEdgeCount less the self-loops, which getDegree counts once.
   */
  lemma HandshakeLemma(g: Graph)
    requires g.Valid() && Symmetric(g.adjacency)
    ensures DegreeSum(g, g.nodeCount) + Loops(g.adjacency, g.nodeCount) == 2 * g.EdgeCount()
  {
    var m, n := g.adjacency, g.nodeCount;
    DegreeSumIsRowsTotal(g, n);
    RowsSplit(m, n);
    UpperLikeLower(m, n);
    LowerIsBelowAndLoops(g, n);
  }
}
