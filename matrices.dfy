/** Square integer matrices, the shape of Graph's int[][] fields. */
module Matrices {

  type Matrix = seq<seq<int>>

  /** n rows of n entries each. */
  predicate IsSquare(m: Matrix, n: nat) {
    |m| == n && forall r | 0 <= r < n :: |m[r]| == n
  }

  /** An undirected graph's adjacency matrix: entry [r][c] equals entry [c][r]. */
  predicate Symmetric(m: Matrix)
    requires IsSquare(m, |m|)
  {
    forall r, c | 0 <= r < |m| && 0 <= c < |m| :: m[r][c] == m[c][r]
  }

  /** The value held by a two-dimensional array. */
  function ToMatrix(a: array2<int>): (m: Matrix)
    reads a
    ensures |m| == a.Length0
    ensures forall r | 0 <= r < a.Length0 :: |m[r]| == a.Length1
    ensures forall r, c | 0 <= r < a.Length0 && 0 <= c < a.Length1 :: m[r][c] == a[r, c]
  {
    seq(a.Length0, r reads a requires 0 <= r < a.Length0 =>
      seq(a.Length1, c reads a requires 0 <= c < a.Length1 => a[r, c]))
  }

  /** Square matrices of one size with the same entries are equal. */
  lemma SameMatrix(a: Matrix, b: Matrix, n: nat)
    requires IsSquare(a, n) && IsSquare(b, n)
    requires forall r, c | 0 <= r < n && 0 <= c < n :: a[r][c] == b[r][c]
    ensures a == b
  {
    forall r | 0 <= r < n
      ensures a[r] == b[r]
    {
      assert forall c | 0 <= c < n :: a[r][c] == b[r][c];
    }
  }
}
