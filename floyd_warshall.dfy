/**
 * Graph.calcDistanceMatrix: the Floyd-Warshall algorithm, updating the
 * distance matrix in place, proved to leave Distances(adjacency) in it.
 */
module FloydWarshall {
  import opened Matrices
  import opened ShortestPaths

  /**
   * Fills distanceMatrix with the initial entries (0 on the diagonal, the
   * weight of a positive adjacency entry, INF otherwise), then relaxes
   * every pair (i, j) through every pivot k, in place.
   */
  method CalcDistanceMatrix(adjacency: Matrix, distanceMatrix: array2<int>)
    requires IsWeightMatrix(adjacency)
    requires distanceMatrix.Length0 == |adjacency| && distanceMatrix.Length1 == |adjacency|
    modifies distanceMatrix
    ensures forall i, j | 0 <= i < |adjacency| && 0 <= j < |adjacency| ::
      distanceMatrix[i, j] == Dist(adjacency, |adjacency|, i, j)
  {
    InitDistances(adjacency, distanceMatrix);
    for k := 0 to |adjacency|
      invariant forall r, c | 0 <= r < |adjacency| && 0 <= c < |adjacency| ::
        distanceMatrix[r, c] == Dist(adjacency, k, r, c)
    {
      RelaxThrough(adjacency, distanceMatrix, k);
    }
  }

  /** The first loop of calcDistanceMatrix: every entry gets its value before relaxation. */
  method InitDistances(adjacency: Matrix, distanceMatrix: array2<int>)
    requires IsWeightMatrix(adjacency)
    requires distanceMatrix.Length0 == |adjacency| && distanceMatrix.Length1 == |adjacency|
    modifies distanceMatrix
    ensures forall r, c | 0 <= r < |adjacency| && 0 <= c < |adjacency| ::
      distanceMatrix[r, c] == Dist(adjacency, 0, r, c)
  {
    var nodeCount := |adjacency|;
    for row := 0 to nodeCount
      invariant forall r, c | 0 <= r < row && 0 <= c < nodeCount ::
        distanceMatrix[r, c] == Dist(adjacency, 0, r, c)
    {
      for col := 0 to nodeCount
        invariant forall r, c | 0 <= r < row && 0 <= c < nodeCount ::
          distanceMatrix[r, c] == Dist(adjacency, 0, r, c)
        invariant forall c | 0 <= c < col :: distanceMatrix[row, c] == Dist(adjacency, 0, row, c)
      {
        if row == col {
          distanceMatrix[row, col] := 0;
          continue;
        }
        var weight := adjacency[row][col];
        if weight > 0 {
          distanceMatrix[row, col] := weight;
          continue;
        }
        distanceMatrix[row, col] := INF;
      }
    }
  }

  /** One round of the outer loop over k: every pair (i, j) relaxed through pivot k, in place. */
  method RelaxThrough(adjacency: Matrix, distanceMatrix: array2<int>, k: nat)
    requires IsWeightMatrix(adjacency) && k < |adjacency|
    requires distanceMatrix.Length0 == |adjacency| && distanceMatrix.Length1 == |adjacency|
    requires forall r, c | 0 <= r < |adjacency| && 0 <= c < |adjacency| ::
      distanceMatrix[r, c] == Dist(adjacency, k, r, c)
    modifies distanceMatrix
    ensures forall r, c | 0 <= r < |adjacency| && 0 <= c < |adjacency| ::
      distanceMatrix[r, c] == Dist(adjacency, k + 1, r, c)
  {
    var nodeCount := |adjacency|;
    forall c | 0 <= c < nodeCount
      ensures Dist(adjacency, k + 1, k, c) == Dist(adjacency, k, k, c)
    {
      PassKeepsPivot(adjacency, k, k, c);
    }
    for i := 0 to nodeCount
      invariant forall r, c | 0 <= r < i && 0 <= c < nodeCount ::
        distanceMatrix[r, c] == Dist(adjacency, k + 1, r, c)
      invariant forall r, c | i <= r < nodeCount && 0 <= c < nodeCount ::
        distanceMatrix[r, c] == Dist(adjacency, k, r, c)
    {
      RelaxRow(adjacency, distanceMatrix, k, i);
    }
  }

  /** One round of the loop over i: the entries of row i relaxed through pivot k, in place. */
  method RelaxRow(adjacency: Matrix, distanceMatrix: array2<int>, k: nat, i: nat)
    requires IsWeightMatrix(adjacency) && k < |adjacency| && i < |adjacency|
    requires distanceMatrix.Length0 == |adjacency| && distanceMatrix.Length1 == |adjacency|
    requires forall c | 0 <= c < |adjacency| :: distanceMatrix[i, c] == Dist(adjacency, k, i, c)
    requires forall c | 0 <= c < |adjacency| :: distanceMatrix[k, c] == Dist(adjacency, k, k, c)
    modifies distanceMatrix
    ensures forall c | 0 <= c < |adjacency| :: distanceMatrix[i, c] == Dist(adjacency, k + 1, i, c)
    ensures forall r, c | 0 <= r < |adjacency| && r != i && 0 <= c < |adjacency| ::
      distanceMatrix[r, c] == old(distanceMatrix[r, c])
  {
    var nodeCount := |adjacency|;
    for j := 0 to nodeCount
      invariant forall c | 0 <= c < j :: distanceMatrix[i, c] == Dist(adjacency, k + 1, i, c)
      invariant forall c | j <= c < nodeCount :: distanceMatrix[i, c] == Dist(adjacency, k, i, c)
      invariant forall c | 0 <= c < nodeCount :: distanceMatrix[k, c] == Dist(adjacency, k, k, c)
      invariant forall r, c | 0 <= r < nodeCount && r != i && 0 <= c < nodeCount ::
        distanceMatrix[r, c] == old(distanceMatrix[r, c])
    {
      PassKeepsPivot(adjacency, k, i, j);
      if distanceMatrix[i, k] == INF {
        continue;
      }
      if distanceMatrix[k, j] == INF {
        continue;
      }
      var dist := distanceMatrix[i, k] + distanceMatrix[k, j];
      if distanceMatrix[i, j] > dist {
        distanceMatrix[i, j] := dist;
      }
    }
  }
}
