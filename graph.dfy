/**
 * The Graph class: an undirected weighted graph given by its adjacency
 * matrix, with the distance matrix computed once at construction, the
 * metrics read off it, and the operations that build reduced graphs.
 *
 * A Graph never changes after construction (both matrices are final and
 * no method writes them), so it is a datatype here. Valid() is the
 * constructor's postcondition: the distance matrix is the Floyd-Warshall
 * result for the adjacency matrix.
 */
module Graphs {
  import opened Sequences
  import opened Matrices
  import opened ShortestPaths
  import opened FloydWarshall

  /** The GraphException cases: an out-of-range node, and a CSV row of the wrong length (1-based line, expected count). */
  datatype GraphError = InvalidNode(node: int) | InvalidRowLength(line: int, expected: int)

  /** A value or the GraphException thrown instead. */
  datatype Result<T> = Success(value: T) | Failure(error: GraphError)

  /** A check that returns normally or throws. */
  datatype Outcome = Pass | Fail(error: GraphError)

  datatype Graph = Graph(adjacency: Matrix, distanceMatrix: Matrix) {
    const nodeCount: nat := |adjacency|

    /** What the constructor establishes. */
    predicate Valid() {
      IsWeightMatrix(adjacency) && distanceMatrix == Distances(adjacency)
    }

    /** Node 0 reaches every node (vacuously true without nodes). */
    predicate IsConnected()
      requires Valid()
    {
      !exists node | 0 <= node < nodeCount :: distanceMatrix[0][node] == INF
    }

    /** INF in a disconnected graph, else the largest distance from startNode (INF without nodes). */
    function GetEccentricity(startNode: int): (e: int)
      requires Valid() && (IsConnected() && nodeCount > 0 ==> 0 <= startNode < nodeCount)
      ensures !IsConnected() || nodeCount == 0 ==> e == INF
      ensures IsConnected() && nodeCount > 0 ==>
        (exists v | 0 <= v < nodeCount :: e == distanceMatrix[startNode][v]) &&
        forall v | 0 <= v < nodeCount :: distanceMatrix[startNode][v] <= e
    {
      if !IsConnected() then INF
      else if nodeCount == 0 then INF
      else
        var e := MaxOr(distanceMatrix[startNode], INF);
        assert forall v | 0 <= v < nodeCount :: distanceMatrix[startNode][v] in distanceMatrix[startNode];
        e
    }

    /** The eccentricity of every node, in node order. */
    function Eccentricities(): (es: seq<int>)
      requires Valid()
      ensures |es| == nodeCount && forall v | 0 <= v < nodeCount :: es[v] == GetEccentricity(v)
    {
      seq(nodeCount, v requires 0 <= v < nodeCount => GetEccentricity(v))
    }

    /** INF if the graph is disconnected or has no nodes, else the largest eccentricity. */
    function GetDiameter(): (r: int)
      requires Valid()
      ensures !IsConnected() || nodeCount == 0 ==> r == INF
      ensures IsConnected() && nodeCount > 0 ==>
        (exists v | 0 <= v < nodeCount :: r == GetEccentricity(v)) &&
        forall v | 0 <= v < nodeCount :: GetEccentricity(v) <= r
    {
      if !IsConnected() then INF
      else
        var es := Eccentricities();
        assert forall v | 0 <= v < nodeCount :: es[v] in es;
        MaxOr(es, INF)
    }

    /** INF if the graph is disconnected or has no nodes, else the smallest eccentricity. */
    function GetRadius(): (r: int)
      requires Valid()
      ensures !IsConnected() || nodeCount == 0 ==> r == INF
      ensures IsConnected() && nodeCount > 0 ==>
        (exists v | 0 <= v < nodeCount :: r == GetEccentricity(v)) &&
        forall v | 0 <= v < nodeCount :: r <= GetEccentricity(v)
    {
      if !IsConnected() then INF
      else
        var es := Eccentricities();
        assert forall v | 0 <= v < nodeCount :: es[v] in es;
        MinOr(es, INF)
    }

    /** The nodes whose eccentricity equals a finite radius, ascending; none if the radius is INF. */
    function GetCenter(): (r: seq<int>)
      requires Valid()
      ensures Ascending(r)
      ensures forall v {:trigger v in r} :: v in r <==>
        GetRadius() < INF && 0 <= v < nodeCount && GetEccentricity(v) == GetRadius()
    {
      var radius := GetRadius();
      if radius == INF then []
      else NodesWhere(nodeCount, v => 0 <= v < nodeCount && GetEccentricity(v) == radius)
    }

    /** Graph.ensureValidNode: throws for a node outside 0..nodeCount-1. */
    function EnsureValidNode(node: int): (r: Outcome)
      ensures r.Pass? <==> 0 <= node < nodeCount
      ensures r.Fail? ==> r.error == InvalidNode(node)
    {
      if node < 0 || node >= nodeCount then Fail(InvalidNode(node)) else Pass
    }

    /** The number of nodes n with a positive entry adjacency[node][n]; a self-loop counts once. */
    function GetDegree(node: int): (r: nat)
      requires Valid() && (nodeCount > 0 ==> 0 <= node < nodeCount)
      ensures nodeCount == 0 ==> r == 0
      ensures nodeCount > 0 ==> r == |set n | 0 <= n < nodeCount && adjacency[node][n] > 0|
    {
      if nodeCount == 0 then 0 else CountPositive(adjacency[node], nodeCount)
    }

    /** The nodes at finite distance from startNode, ascending; startNode is one of them. */
    function GetReachableNodes(startNode: int): (r: seq<int>)
      requires Valid() && (nodeCount > 0 ==> 0 <= startNode < nodeCount)
      ensures Ascending(r) && InRange(r, nodeCount)
      ensures forall v {:trigger v in r} :: v in r <==> 0 <= v < nodeCount && distanceMatrix[startNode][v] != INF
      ensures nodeCount > 0 ==> startNode in r
    {
      assert nodeCount > 0 ==> distanceMatrix[startNode][startNode] == 0 by {
        if nodeCount > 0 {
          FinishedDiagonalAndBound(adjacency, startNode, startNode);
        }
      }
      NodesWhere(nodeCount, v => 0 <= v < nodeCount && distanceMatrix[startNode][v] != INF)
    }

    /**
     * What getSubgraphs collects from the list of unvisited nodes: the
     * nodes reachable from the first one, then the same for what is left
     * once those are removed.
     */
    function SubgraphsFrom(unvisited: seq<int>): (r: seq<seq<int>>)
      requires Valid() && InRange(unvisited, nodeCount)
      ensures |r| <= |unvisited|
      decreases |unvisited|
    {
      if unvisited == [] then []
      else
        var reachable := GetReachableNodes(unvisited[0]);
        var rest := RemoveAll(unvisited, reachable);
        assert InRange(rest, nodeCount) by {
          assert forall t | 0 <= t < |rest| :: rest[t] in rest;
        }
        [reachable] + SubgraphsFrom(rest)
    }

    /** One round of getSubgraphs' loop: a subgraph is split off and the rest stays unvisited. */
    lemma SubgraphsFromStep(unvisited: seq<int>)
      requires Valid() && InRange(unvisited, nodeCount) && unvisited != []
      ensures InRange(RemoveAll(unvisited, GetReachableNodes(unvisited[0])), nodeCount)
      ensures |RemoveAll(unvisited, GetReachableNodes(unvisited[0]))| < |unvisited|
      ensures SubgraphsFrom(unvisited) ==
        [GetReachableNodes(unvisited[0])] + SubgraphsFrom(RemoveAll(unvisited, GetReachableNodes(unvisited[0])))
    {
      var rest := RemoveAll(unvisited, GetReachableNodes(unvisited[0]));
      assert forall t | 0 <= t < |rest| :: rest[t] in rest;
    }

    /** The subgraphs getSubgraphs returns, starting from all nodes unvisited. */
    function Subgraphs(): (r: seq<seq<int>>)
      requires Valid()
    {
      SubgraphsFrom(AllNodes(nodeCount))
    }

    /** Graph.getSubgraphs. */
    method GetSubgraphs() returns (result: seq<seq<int>>)
      requires Valid()
      ensures result == Subgraphs()
    {
      result := [];
      var unvisited := AllNodes(nodeCount);
      while |unvisited| != 0
        invariant InRange(unvisited, nodeCount)
        invariant result + SubgraphsFrom(unvisited) == Subgraphs()
        decreases |unvisited|
      {
        var startNode := unvisited[0];
        var reachableNodes := GetReachableNodes(startNode);
        ghost var before := unvisited;
        unvisited := RemoveAll(unvisited, reachableNodes);
        SubgraphsFromStep(before);
        ConcatAssociative(result, [reachableNodes], SubgraphsFrom(unvisited));
        result := result + [GetReachableNodes(startNode)];
      }
    }

    /** Positive entries on or below the diagonal of the first rows rows. */
    function LowerCount(rows: nat): nat
      requires Valid() && rows <= nodeCount
    {
      if rows == 0 then 0 else LowerCount(rows - 1) + CountPositive(adjacency[rows - 1], rows)
    }

    /** The edges of the undirected graph: positive entries on or below the diagonal. */
    function EdgeCount(): nat
      requires Valid()
    {
      LowerCount(nodeCount)
    }

    /** Graph.getEdgeCount. */
    method GetEdgeCount() returns (count: int)
      requires Valid()
      ensures count == EdgeCount()
    {
      count := 0;
      for row := 0 to nodeCount
        invariant count == LowerCount(row)
      {
        for col := 0 to row + 1
          invariant count == LowerCount(row) + CountPositive(adjacency[row], col)
        {
          if adjacency[row][col] > 0 {
            count := count + 1;
          }
        }
      }
    }

    /** Graph.removeNode: the graph without node and its edges, the other nodes renumbered down. */
    method RemoveNode(node: int) returns (r: Result<Graph>)
      requires Valid()
      ensures r.Failure? <==> !(0 <= node < nodeCount)
      ensures r.Failure? ==> r.error == InvalidNode(node)
      ensures r.Success? ==> r.value.Valid() && r.value.adjacency == WithoutNode(adjacency, node)
    {
      var check := EnsureValidNode(node);
      if check.Fail? {
        return Failure(check.error);
      }
      var reduced := new int[nodeCount - 1, nodeCount - 1];
      CopyWithoutNode(adjacency, node, reduced);
      var smaller := ToMatrix(reduced);
      SameMatrix(smaller, WithoutNode(adjacency, node), nodeCount - 1);
      var g := NewGraph(smaller);
      return Success(g);
    }

    /** Graph.removeEdge: the graph with both entries between node1 and node2 set to 0. */
    method RemoveEdge(node1: int, node2: int) returns (r: Result<Graph>)
      requires Valid()
      ensures r.Failure? <==> !(0 <= node1 < nodeCount && 0 <= node2 < nodeCount)
      ensures r.Failure? ==> r.error == InvalidNode(if 0 <= node1 < nodeCount then node2 else node1)
      ensures r.Success? ==> r.value.Valid() && r.value.adjacency == WithoutEdge(adjacency, node1, node2)
    {
      var check := EnsureValidNode(node1);
      if check.Fail? {
        return Failure(check.error);
      }
      check := EnsureValidNode(node2);
      if check.Fail? {
        return Failure(check.error);
      }
      var copy := new int[nodeCount, nodeCount];
      for row := 0 to nodeCount
        invariant forall r, c | 0 <= r < row && 0 <= c < nodeCount :: copy[r, c] == adjacency[r][c]
      {
        for col := 0 to nodeCount
          invariant forall r, c | 0 <= r < row && 0 <= c < nodeCount :: copy[r, c] == adjacency[r][c]
          invariant forall c | 0 <= c < col :: copy[row, c] == adjacency[row][c]
        {
          copy[row, col] := adjacency[row][col];
        }
      }
      copy[node1, node2] := 0;
      copy[node2, node1] := 0;
      var smaller := ToMatrix(copy);
      SameMatrix(smaller, WithoutEdge(adjacency, node1, node2), nodeCount);
      var g := NewGraph(smaller);
      return Success(g);
    }

    /** Removing v splits the graph into more subgraphs than it has. */
    predicate IsArticulation(v: int)
      requires Valid() && 0 <= v < nodeCount
    {
      |GraphOf(WithoutNode(adjacency, v)).Subgraphs()| > |Subgraphs()|
    }

    /** The articulation points among the nodes 0..k-1, ascending. */
    function ArticulationsBefore(k: nat): (r: seq<int>)
      requires Valid() && k <= nodeCount
      ensures Ascending(r) && forall t | 0 <= t < |r| :: r[t] < k
      ensures forall v {:trigger v in r} :: v in r <==> 0 <= v < k && IsArticulation(v)
    {
      if k == 0 then []
      else
        var before := ArticulationsBefore(k - 1);
        before + if IsArticulation(k - 1) then [k - 1] else []
    }

    /** Graph.getArticulations: the articulation points, ascending. */
    method GetArticulations() returns (r: seq<int>)
      requires Valid()
      ensures r == ArticulationsBefore(nodeCount)
      ensures Ascending(r)
      ensures forall v {:trigger v in r} :: v in r <==> 0 <= v < nodeCount && IsArticulation(v)
    {
      var all := GetSubgraphs();
      var subgraphCount := |all|;
      r := [];
      for node := 0 to nodeCount
        invariant r == ArticulationsBefore(node)
      {
        var found := SplitsWithoutNode(node, subgraphCount);
        if found {
          r := r + [node];
        }
      }
    }

    /** The filter of getArticulations: removeNode(node) has more subgraphs; false if removeNode throws. */
    method SplitsWithoutNode(node: int, subgraphCount: int) returns (found: bool)
      requires Valid() && 0 <= node < nodeCount && subgraphCount == |Subgraphs()|
      ensures found == IsArticulation(node)
    {
      found := false;
      var reduced := RemoveNode(node);
      if reduced.Success? {
        var parts := reduced.value.GetSubgraphs();
        ValidIsGraphOf(reduced.value);
        found := |parts| > subgraphCount;
      }
    }

    /** Removing the edge between node1 and node2 splits the graph into more subgraphs than it has. */
    predicate IsBridge(node1: int, node2: int)
      requires Valid() && 0 <= node1 < nodeCount && 0 <= node2 < nodeCount
    {
      |GraphOf(WithoutEdge(adjacency, node1, node2)).Subgraphs()| > |Subgraphs()|
    }

    /** Pairs (a, b) ordered by b and then by a. */
    static predicate PairsOrdered(r: seq<(int, int)>) {
      forall t, u | 0 <= t < u < |r| :: r[t].1 < r[u].1 || (r[t].1 == r[u].1 && r[t].0 < r[u].0)
    }

    /** Two ordered lists of pairs, the first below row and the second in it, concatenate to an ordered list. */
    static lemma OrderedConcat(a: seq<(int, int)>, b: seq<(int, int)>, row: int)
      requires PairsOrdered(a) && PairsOrdered(b)
      requires forall t | 0 <= t < |a| :: a[t].1 < row
      requires forall t | 0 <= t < |b| :: b[t].1 == row
      ensures PairsOrdered(a + b)
    {
      forall t, u | 0 <= t < u < |a + b|
        ensures (a + b)[t].1 < (a + b)[u].1 || ((a + b)[t].1 == (a + b)[u].1 && (a + b)[t].0 < (a + b)[u].0)
      {
        if u < |a| {
          assert (a + b)[t] == a[t] && (a + b)[u] == a[u];
        } else if t < |a| {
          assert (a + b)[t] == a[t] && (a + b)[u] == b[u - |a|];
        } else {
          assert (a + b)[t] == b[t - |a|] && (a + b)[u] == b[u - |a|];
        }
      }
    }

    /** The bridges (node2, node1) found in row node1 among the columns 0..node2-1. */
    function RowSeparators(node1: int, node2: nat): (r: seq<(int, int)>)
      requires Valid() && 0 <= node1 < nodeCount && node2 <= nodeCount
      ensures PairsOrdered(r) && forall t | 0 <= t < |r| :: r[t].1 == node1 && r[t].0 < node2
      ensures forall a, b {:trigger (a, b) in r} :: (a, b) in r <==>
        b == node1 && 0 <= a < node2 && adjacency[node1][a] > 0 && IsBridge(node1, a)
    {
      if node2 == 0 then []
      else
        var before := RowSeparators(node1, node2 - 1);
        var a := node2 - 1;
        before + (if adjacency[node1][a] > 0 && IsBridge(node1, a) then [(a, node1)] else [])
    }

    /** The bridges found in the rows 0..rows-1, each row over the columns up to the diagonal. */
    function SeparatorsBefore(rows: nat): (r: seq<(int, int)>)
      requires Valid() && rows <= nodeCount
      ensures PairsOrdered(r) && forall t | 0 <= t < |r| :: r[t].1 < rows
      ensures forall a, b {:trigger (a, b) in r} :: (a, b) in r <==>
        0 <= a <= b < rows && adjacency[b][a] > 0 && IsBridge(b, a)
    {
      if rows == 0 then []
      else
        var before, last := SeparatorsBefore(rows - 1), RowSeparators(rows - 1, rows);
        OrderedConcat(before, last, rows - 1);
        before + last
    }

    /**
     * Graph.getEdgeSeparators: the bridges as pairs (smaller node, larger
     * node) from the lower triangle, ordered by the larger node and then
     * by the smaller one.
     */
    method GetEdgeSeparators() returns (r: seq<(int, int)>)
      requires Valid()
      ensures r == SeparatorsBefore(nodeCount)
      ensures PairsOrdered(r)
      ensures forall a, b {:trigger (a, b) in r} :: (a, b) in r <==>
        0 <= a <= b < nodeCount && adjacency[b][a] > 0 && IsBridge(b, a)
    {
      var all := GetSubgraphs();
      var subgraphCount := |all|;
      r := [];
      for node1 := 0 to nodeCount
        invariant r == SeparatorsBefore(node1)
      {
        var row := RowBridges(node1, subgraphCount);
        r := r + row;
      }
    }

    /** One pass of the inner loop of getEdgeSeparators: the bridges from row node1 to the columns up to the diagonal. */
    method RowBridges(node1: int, subgraphCount: int) returns (r: seq<(int, int)>)
      requires Valid() && 0 <= node1 < nodeCount && subgraphCount == |Subgraphs()|
      ensures r == RowSeparators(node1, node1 + 1)
    {
      r := [];
      for node2 := 0 to node1 + 1
        invariant r == RowSeparators(node1, node2)
      {
        var found := false;
        if adjacency[node1][node2] > 0 {
          found := SplitsWithoutEdge(node1, node2, subgraphCount);
        }
        if found {
          r := r + [(node2, node1)];
        }
      }
    }

    /** The test in getEdgeSeparators: removeEdge(node1, node2) has more subgraphs; false if removeEdge throws. */
    method SplitsWithoutEdge(node1: int, node2: int, subgraphCount: int) returns (found: bool)
      requires Valid() && 0 <= node1 < nodeCount && 0 <= node2 < nodeCount && subgraphCount == |Subgraphs()|
      ensures found == IsBridge(node1, node2)
    {
      found := false;
      var newGraph := RemoveEdge(node1, node2);
      if newGraph.Success? {
        var parts := newGraph.value.GetSubgraphs();
        ValidIsGraphOf(newGraph.value);
        found := |parts| > subgraphCount;
      }
    }
  }

  /** The graph the private constructor builds from an adjacency matrix (valid by construction). */
  function GraphOf(adjacency: Matrix): (g: Graph)
    requires IsWeightMatrix(adjacency)
    ensures g.Valid() && g.adjacency == adjacency
  {
    Graph(adjacency, Distances(adjacency))
  }

  /** A valid graph is determined by its adjacency matrix. */
  lemma ValidIsGraphOf(g: Graph)
    requires g.Valid()
    ensures g == GraphOf(g.adjacency)
  {
  }

  /** Graph's constructor: allocates the distance matrix and runs calcDistanceMatrix on it. */
  method NewGraph(adjacency: Matrix) returns (g: Graph)
    requires IsWeightMatrix(adjacency)
    ensures g.Valid() && g.adjacency == adjacency
  {
    var nodeCount := |adjacency|;
    var distanceMatrix := new int[nodeCount, nodeCount];
    CalcDistanceMatrix(adjacency, distanceMatrix);
    var distances := ToMatrix(distanceMatrix);
    SameMatrix(distances, Distances(adjacency), nodeCount);
    g := Graph(adjacency, distances);
  }

  /** The copy loop of removeNode: the entries outside row and column node, moved up and left past them. */
  method CopyWithoutNode(adjacency: Matrix, node: int, reduced: array2<int>)
    requires IsWeightMatrix(adjacency) && 0 <= node < |adjacency|
    requires reduced.Length0 == |adjacency| - 1 && reduced.Length1 == |adjacency| - 1
    modifies reduced
    ensures forall dr, dc | 0 <= dr < |adjacency| - 1 && 0 <= dc < |adjacency| - 1 ::
      reduced[dr, dc] == adjacency[Skip(dr, node)][Skip(dc, node)]
  {
    var nodeCount := |adjacency|;
    var destRow := 0;
    for row := 0 to nodeCount
      invariant destRow == (if row <= node then row else row - 1)
      invariant forall dr, dc | 0 <= dr < destRow && 0 <= dc < nodeCount - 1 ::
        reduced[dr, dc] == adjacency[Skip(dr, node)][Skip(dc, node)]
    {
      if row == node {
        continue;
      }
      var destCol := 0;
      for col := 0 to nodeCount
        invariant destCol == (if col <= node then col else col - 1)
        invariant forall dr, dc | 0 <= dr < destRow && 0 <= dc < nodeCount - 1 ::
          reduced[dr, dc] == adjacency[Skip(dr, node)][Skip(dc, node)]
        invariant forall dc | 0 <= dc < destCol :: reduced[destRow, dc] == adjacency[row][Skip(dc, node)]
      {
        if col == node {
          continue;
        }
        reduced[destRow, destCol] := adjacency[row][col];
        destCol := destCol + 1;
      }
      destRow := destRow + 1;
    }
  }

  /** The index in the full matrix of index x of the matrix without node. */
  function Skip(x: int, node: int): (r: int)
    ensures r != node
    ensures x < node ==> r == x
    ensures x >= node ==> r == x + 1
  {
    if x < node then x else x + 1
  }

  /** The adjacency matrix without row and column node. */
  function WithoutNode(adj: Matrix, node: int): (r: Matrix)
    requires IsWeightMatrix(adj) && 0 <= node < |adj|
    ensures IsWeightMatrix(r) && |r| == |adj| - 1
    ensures forall i, j | 0 <= i < |r| && 0 <= j < |r| :: r[i][j] == adj[Skip(i, node)][Skip(j, node)]
  {
    seq(|adj| - 1, i requires 0 <= i < |adj| - 1 =>
      seq(|adj| - 1, j requires 0 <= j < |adj| - 1 => adj[Skip(i, node)][Skip(j, node)]))
  }

  /** The adjacency matrix with the entries [node1][node2] and [node2][node1] set to 0. */
  function WithoutEdge(adj: Matrix, node1: int, node2: int): (r: Matrix)
    requires IsWeightMatrix(adj) && 0 <= node1 < |adj| && 0 <= node2 < |adj|
    ensures IsWeightMatrix(r) && |r| == |adj|
    ensures forall i, j | 0 <= i < |r| && 0 <= j < |r| ::
      r[i][j] == if (i == node1 && j == node2) || (i == node2 && j == node1) then 0 else adj[i][j]
  {
    seq(|adj|, i requires 0 <= i < |adj| =>
      seq(|adj|, j requires 0 <= j < |adj| =>
        if (i == node1 && j == node2) || (i == node2 && j == node1) then 0 else adj[i][j]))
  }

  /**
   * Graph.fromFile once the numbers of each non-empty line have been
   * read: every line must hold as many values as there are lines.
   */
  method FromRows(lines: seq<seq<int>>) returns (r: Result<Graph>)
    requires forall t, c | 0 <= t < |lines| && 0 <= c < |lines[t]| :: -0x8000_0000 <= lines[t][c] <= INF
    ensures r.Success? <==> forall t | 0 <= t < |lines| :: |lines[t]| == |lines|
    ensures r.Success? ==> r.value.Valid() && r.value.adjacency == lines
    ensures r.Failure? ==> exists bad | 0 <= bad < |lines| ::
      |lines[bad]| != |lines| && (forall t | 0 <= t < bad :: |lines[t]| == |lines|) &&
      r.error == InvalidRowLength(bad + 1, |lines|)
  {
    var nodeCount := |lines|;
    var adjacency := new int[nodeCount, nodeCount];
    var row := 0;
    while row < nodeCount
      invariant 0 <= row <= nodeCount
      invariant forall t | 0 <= t < row :: |lines[t]| == nodeCount
      invariant forall t, c | 0 <= t < row && 0 <= c < nodeCount :: adjacency[t, c] == lines[t][c]
    {
      var line := lines[row];
      if |line| != nodeCount {
        return Failure(InvalidRowLength(row + 1, nodeCount));
      }
      var col := 0;
      while col < |line|
        invariant 0 <= col <= |line|
        invariant forall t, c | 0 <= t < row && 0 <= c < nodeCount :: adjacency[t, c] == lines[t][c]
        invariant forall c | 0 <= c < col :: adjacency[row, c] == line[c]
      {
        adjacency[row, col] := line[col];
        col := col + 1;
      }
      row := row + 1;
    }
    var matrix := ToMatrix(adjacency);
    SameMatrix(matrix, lines, nodeCount);
    var g := NewGraph(matrix);
    return Success(g);
  }
}
