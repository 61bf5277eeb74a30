/**
 * The relaxation of Graph.calcDistanceMatrix as written: the detour sum is
 * a Java int addition, which wraps around past Integer.MAX_VALUE. The rest
 * of the model compares the detour at full width (ShortestPaths.Relax);
 * the two agree whenever the sum fits, which PathBounds.RelaxationFitsInt
 * guarantees for Bounded matrices.
 */
module Overflow {
  import opened Matrices
  import opened ShortestPaths

  /** Java int addition: the exact sum reduced to the range -2^31 .. 2^31-1. */
  function Wrap32(x: int): (r: int)
    ensures -0x8000_0000 <= r < 0x8000_0000
    ensures -0x8000_0000 <= x < 0x8000_0000 ==> r == x
  {
    (x + 0x8000_0000) % 0x1_0000_0000 - 0x8000_0000
  }

  /** One relaxation step with the int addition of the source. */
  function RelaxAsWritten(current: int, toPivot: int, fromPivot: int): (r: int)
    ensures r <= current
    ensures r == current || r == Wrap32(toPivot + fromPivot)
    ensures toPivot != INF && fromPivot != INF ==> r <= Wrap32(toPivot + fromPivot)
  {
    if toPivot == INF || fromPivot == INF then current
    else
      var dist := Wrap32(toPivot + fromPivot);
      if current > dist then dist else current
  }

  /** Cell (i, j) relaxed through pivot k, in place, as the source does it. */
  function RelaxCell(m: Matrix, k: int, i: int, j: int): (r: Matrix)
    requires IsSquare(m, |m|) && 0 <= k < |m| && 0 <= i < |m| && 0 <= j < |m|
    ensures IsSquare(r, |m|)
    ensures r[i][j] == RelaxAsWritten(m[i][j], m[i][k], m[k][j])
    ensures forall a, b | 0 <= a < |m| && 0 <= b < |m| && (a != i || b != j) :: r[a][b] == m[a][b]
  {
    m[i := m[i][j := RelaxAsWritten(m[i][j], m[i][k], m[k][j])]]
  }

  /** Cells (i, 0) .. (i, j-1) of pass k relaxed one after the other. */
  function RowAsWritten(m: Matrix, k: int, i: int, j: nat): (r: Matrix)
    requires IsSquare(m, |m|) && 0 <= k < |m| && 0 <= i < |m| && j <= |m|
    ensures IsSquare(r, |m|)
    ensures forall a | 0 <= a < |m| && a != i :: r[a] == m[a]
    ensures forall b | j <= b < |m| :: r[i][b] == m[i][b]
  {
    if j == 0 then m else RelaxCell(RowAsWritten(m, k, i, j - 1), k, i, j - 1)
  }

  /** Rows 0 .. i-1 of pass k relaxed one after the other. */
  function PassAsWritten(m: Matrix, k: int, i: nat): (r: Matrix)
    requires IsSquare(m, |m|) && 0 <= k < |m| && i <= |m|
    ensures IsSquare(r, |m|)
  {
    if i == 0 then m else RowAsWritten(PassAsWritten(m, k, i - 1), k, i - 1, |m|)
  }

  /** When the detour sum fits in an int, the source's step and the model's step agree. */
  lemma RelaxAgreesWhenFits(current: int, toPivot: int, fromPivot: int)
    requires 0 <= toPivot && 0 <= fromPivot && toPivot + fromPivot < INF
    ensures RelaxAsWritten(current, toPivot, fromPivot) == Relax(current, toPivot, fromPivot)
  {
  }

  /** Two nodes joined by an edge of weight 2^30. */
  const HeavyEdge: Matrix := [[0, 0x4000_0000], [0x4000_0000, 0]]

  /** Row 0 of the first pass over HeavyEdge changes nothing. */
  lemma HeavyFirstRow()
    ensures IsSquare(HeavyEdge, 2)
    ensures PassAsWritten(HeavyEdge, 0, 1)[0][1] == 0x4000_0000
    ensures PassAsWritten(HeavyEdge, 0, 1)[1] == HeavyEdge[1]
  {
    var r1 := RowAsWritten(HeavyEdge, 0, 0, 1);
    assert r1[0][0] == 0 && r1[0][1] == 0x4000_0000;
    assert PassAsWritten(HeavyEdge, 0, 1) == RelaxCell(r1, 0, 0, 1);
  }

  /** Cell (1, 0) of the first pass over HeavyEdge keeps its weight; cell (1, 1) is still 0. */
  lemma HeavySecondRowStart()
    ensures IsSquare(HeavyEdge, 2)
    ensures var q := RowAsWritten(PassAsWritten(HeavyEdge, 0, 1), 0, 1, 1);
      q[1][1] == 0 && q[1][0] == 0x4000_0000 && q[0][1] == 0x4000_0000
  {
    HeavyFirstRow();
  }

  /** Cell (1, 1) of the first pass over HeavyEdge wraps to Integer.MIN_VALUE. */
  lemma HeavyCellWraps()
    ensures IsSquare(HeavyEdge, 2)
    ensures PassAsWritten(HeavyEdge, 0, 2)[1][1] == -0x8000_0000
  {
    var w := 0x4000_0000;
    assert Wrap32(w + w) == -0x8000_0000;
    HeavySecondRowStart();
    var p1 := PassAsWritten(HeavyEdge, 0, 1);
    var q1 := RowAsWritten(p1, 0, 1, 1);
    assert PassAsWritten(HeavyEdge, 0, 2) == RowAsWritten(p1, 0, 1, 2) == RelaxCell(q1, 0, 1, 1);
  }

  /**
   * On HeavyEdge the first pass of the source, at cell (1, 1), adds
   * 2^30 + 2^30, which wraps to Integer.MIN_VALUE, and stores that as the
   * distance from node 1 to itself; the model keeps 0 there.
   */
  lemma HeavyEdgeOverflows()
    ensures IsWeightMatrix(HeavyEdge)
    ensures forall i, j | 0 <= i < 2 && 0 <= j < 2 :: HeavyEdge[i][j] == Direct(HeavyEdge, i, j)
    ensures PassAsWritten(HeavyEdge, 0, 2)[1][1] == -0x8000_0000
    ensures Dist(HeavyEdge, 1, 1, 1) == 0
  {
    HeavyCellWraps();
    DistDiagonal(HeavyEdge, 1, 1);
  }
}
