/**
 * What removeNode and removeEdge do to a graph: removing an edge is
 * symmetric in its ends and idempotent, both removals keep an undirected
 * graph undirected, neither ever shortens a distance, and in a connected
 * graph an articulation point or a bridge is exactly a node or an edge
 * whose removal disconnects the graph.
 */
module Removal {
  import opened Sequences
  import opened Matrices
  import opened ShortestPaths
  import opened PathBounds
  import opened Graphs
  import opened Connectivity

  /** removeEdge(a, b) and removeEdge(b, a) leave the same matrix. */
  lemma WithoutEdgeEndsCommute(adj: Matrix, a: int, b: int)
    requires IsWeightMatrix(adj) && 0 <= a < |adj| && 0 <= b < |adj|
    ensures WithoutEdge(adj, a, b) == WithoutEdge(adj, b, a)
  {
    SameMatrix(WithoutEdge(adj, a, b), WithoutEdge(adj, b, a), |adj|);
  }

  /** Removing an edge a second time changes nothing. */
  lemma WithoutEdgeIdempotent(adj: Matrix, a: int, b: int)
    requires IsWeightMatrix(adj) && 0 <= a < |adj| && 0 <= b < |adj|
    ensures WithoutEdge(WithoutEdge(adj, a, b), a, b) == WithoutEdge(adj, a, b)
  {
    var once := WithoutEdge(adj, a, b);
    SameMatrix(WithoutEdge(once, a, b), once, |adj|);
  }

  /** Removing an edge whose two entries are already 0 changes nothing. */
  lemma WithoutAbsentEdge(adj: Matrix, a: int, b: int)
    requires IsWeightMatrix(adj) && 0 <= a < |adj| && 0 <= b < |adj|
    requires adj[a][b] == 0 && adj[b][a] == 0
    ensures WithoutEdge(adj, a, b) == adj
  {
    SameMatrix(WithoutEdge(adj, a, b), adj, |adj|);
  }

  /** Removing an edge keeps a symmetric, Bounded matrix so. */
  lemma WithoutEdgeUndirected(adj: Matrix, a: int, b: int)
    requires IsWeightMatrix(adj) && Symmetric(adj) && Bounded(adj) && 0 <= a < |adj| && 0 <= b < |adj|
    ensures Symmetric(WithoutEdge(adj, a, b)) && Bounded(WithoutEdge(adj, a, b))
  {
  }

  lemma FewerNodesLighter(n: int, w: int)
    requires n >= 1 && 2 * n * w < INF
    ensures 2 * (n - 1) * w < INF
  {
    assert 2 * (n - 1) * w == 2 * n * w - 2 * w;
  }

  /** Removing a node keeps a symmetric, Bounded matrix so. */
  lemma WithoutNodeUndirected(adj: Matrix, node: int)
    requires IsWeightMatrix(adj) && Symmetric(adj) && Bounded(adj) && 0 <= node < |adj|
    ensures Symmetric(WithoutNode(adj, node)) && Bounded(WithoutNode(adj, node))
  {
    var r := WithoutNode(adj, node);
    forall i, j | 0 <= i < |r| && 0 <= j < |r|
      ensures 2 * |r| * r[i][j] < INF
    {
      FewerNodesLighter(|adj|, adj[Skip(i, node)][Skip(j, node)]);
    }
  }

  /** Every step usable in adj2 is usable in adj and no heavier there. */
  predicate StepsCarryOver(adj: Matrix, adj2: Matrix)
    requires IsWeightMatrix(adj) && IsWeightMatrix(adj2) && |adj| == |adj2|
  {
    forall x, y | 0 <= x < |adj| && 0 <= y < |adj| && Direct(adj2, x, y) < INF ::
      Direct(adj, x, y) <= Direct(adj2, x, y)
  }

  lemma {:induction false} PathCarriesOver(adj: Matrix, adj2: Matrix, p: seq<int>)
    requires IsWeightMatrix(adj) && IsWeightMatrix(adj2) && |adj| == |adj2|
    requires StepsCarryOver(adj, adj2) && IsPath(adj2, p)
    ensures IsPath(adj, p) && Weight(adj, p) <= Weight(adj2, p)
  {
    if |p| > 1 {
      assert Direct(adj2, p[0], p[1]) < INF;
      forall t | 0 <= t < |p[1..]| - 1
        ensures Direct(adj2, p[1..][t], p[1..][t + 1]) < INF
      {
        assert p[1..][t] == p[t + 1] && p[1..][t + 1] == p[t + 2];
      }
      PathCarriesOver(adj, adj2, p[1..]);
      forall t | 0 <= t < |p| - 1
        ensures Direct(adj, p[t], p[t + 1]) < INF
      {
        if t > 0 {
          assert p[1..][t - 1] == p[t] && p[1..][t] == p[t + 1];
        }
      }
    }
  }

  /** Where adj2 offers no lighter steps than adj, no distance in adj2 is shorter. */
  lemma DistancesNeverShrink(adj: Matrix, adj2: Matrix, i: int, j: int)
    requires IsWeightMatrix(adj) && IsWeightMatrix(adj2) && |adj| == |adj2|
    requires StepsCarryOver(adj, adj2) && 0 <= i < |adj| && 0 <= j < |adj|
    ensures Distances(adj)[i][j] <= Distances(adj2)[i][j]
  {
    ShortestPath(adj2, i, j);
    ShortestPath(adj, i, j);
    if Distances(adj2)[i][j] < INF {
      var p :| PathBetween(adj2, p, i, j) && Weight(adj2, p) == Distances(adj2)[i][j];
      PathCarriesOver(adj, adj2, p);
      assert PathBetween(adj, p, i, j);
    }
  }

  /** removeEdge never makes a distance shorter. */
  lemma RemovingEdgeNeverShortens(adj: Matrix, a: int, b: int, i: int, j: int)
    requires IsWeightMatrix(adj) && 0 <= a < |adj| && 0 <= b < |adj| && 0 <= i < |adj| && 0 <= j < |adj|
    ensures Distances(adj)[i][j] <= Distances(WithoutEdge(adj, a, b))[i][j]
  {
    var removed := WithoutEdge(adj, a, b);
    forall x, y | 0 <= x < |adj| && 0 <= y < |adj| && Direct(removed, x, y) < INF
      ensures Direct(adj, x, y) <= Direct(removed, x, y)
    {
      if x != y {
        assert removed[x][y] > 0;
      }
    }
    DistancesNeverShrink(adj, removed, i, j);
  }

  /** The nodes of p renumbered into the graph the node was removed from. */
  function Lift(p: seq<int>, node: int): (q: seq<int>)
    ensures |q| == |p| && forall t | 0 <= t < |p| :: q[t] == Skip(p[t], node)
  {
    seq(|p|, t requires 0 <= t < |p| => Skip(p[t], node))
  }

  lemma DirectWithoutNode(adj: Matrix, node: int, x: int, y: int)
    requires IsWeightMatrix(adj) && 0 <= node < |adj| && 0 <= x < |adj| - 1 && 0 <= y < |adj| - 1
    ensures Direct(WithoutNode(adj, node), x, y) == Direct(adj, Skip(x, node), Skip(y, node))
  {
  }

  /** Each step of a path of the reduced graph, renumbered, is a step of the full graph. */
  lemma LiftSteps(adj: Matrix, node: int, p: seq<int>)
    requires IsWeightMatrix(adj) && 0 <= node < |adj| && IsPath(WithoutNode(adj, node), p)
    ensures IsPath(adj, Lift(p, node))
  {
    var q := Lift(p, node);
    forall t | 0 <= t < |p| - 1
      ensures Direct(adj, q[t], q[t + 1]) < INF
    {
      DirectWithoutNode(adj, node, p[t], p[t + 1]);
    }
  }

  /** Renumbering keeps the weight of a walk of the reduced graph. */
  lemma {:induction false} LiftWeight(adj: Matrix, node: int, p: seq<int>)
    requires IsWeightMatrix(adj) && 0 <= node < |adj| && InRange(p, |adj| - 1)
    ensures InRange(Lift(p, node), |adj|)
    ensures Weight(adj, Lift(p, node)) == Weight(WithoutNode(adj, node), p)
  {
    var q := Lift(p, node);
    if |p| > 1 {
      LiftWeight(adj, node, p[1..]);
      assert Lift(p[1..], node) == q[1..];
      DirectWithoutNode(adj, node, p[0], p[1]);
    }
  }

  /** A path of the reduced graph, renumbered, is a path of the same weight in the full graph. */
  lemma LiftPath(adj: Matrix, node: int, p: seq<int>)
    requires IsWeightMatrix(adj) && 0 <= node < |adj| && IsPath(WithoutNode(adj, node), p)
    ensures IsPath(adj, Lift(p, node)) && Weight(adj, Lift(p, node)) == Weight(WithoutNode(adj, node), p)
  {
    LiftSteps(adj, node, p);
    LiftWeight(adj, node, p);
  }

  /** removeNode never makes a distance between the remaining nodes shorter. */
  lemma RemovingNodeNeverShortens(adj: Matrix, node: int, i: int, j: int)
    requires IsWeightMatrix(adj) && 0 <= node < |adj| && 0 <= i < |adj| - 1 && 0 <= j < |adj| - 1
    ensures Distances(adj)[Skip(i, node)][Skip(j, node)] <= Distances(WithoutNode(adj, node))[i][j]
  {
    var reduced := WithoutNode(adj, node);
    ShortestPath(reduced, i, j);
    ShortestPath(adj, Skip(i, node), Skip(j, node));
    if Distances(reduced)[i][j] < INF {
      var p :| PathBetween(reduced, p, i, j) && Weight(reduced, p) == Distances(reduced)[i][j];
      LiftPath(adj, node, p);
      assert PathBetween(adj, Lift(p, node), Skip(i, node), Skip(j, node));
    }
  }

  /** A graph with nodes has at least one subgraph. */
  lemma SomeSubgraph(g: Graph)
    requires g.Valid() && g.nodeCount > 0
    ensures |g.Subgraphs()| >= 1
  {
    g.SubgraphsFromStep(AllNodes(g.nodeCount));
  }

  /** In a connected graph with two or more nodes, an articulation point is a node whose removal disconnects it. */
  lemma ArticulationIffDisconnects(g: Graph, v: int)
    requires Undirected(g) && g.IsConnected() && g.nodeCount >= 2 && 0 <= v < g.nodeCount
    ensures g.IsArticulation(v) <==> !GraphOf(WithoutNode(g.adjacency, v)).IsConnected()
  {
    var h := GraphOf(WithoutNode(g.adjacency, v));
    WithoutNodeUndirected(g.adjacency, v);
    ConnectedIffOneSubgraph(g);
    ConnectedIffOneSubgraph(h);
    SomeSubgraph(h);
  }

  /** In a connected graph, a bridge is an edge whose removal disconnects it. */
  lemma BridgeIffDisconnects(g: Graph, a: int, b: int)
    requires Undirected(g) && g.IsConnected() && 0 <= a < g.nodeCount && 0 <= b < g.nodeCount
    ensures g.IsBridge(a, b) <==> !GraphOf(WithoutEdge(g.adjacency, a, b)).IsConnected()
  {
    var h := GraphOf(WithoutEdge(g.adjacency, a, b));
    WithoutEdgeUndirected(g.adjacency, a, b);
    ConnectedIffOneSubgraph(g);
    ConnectedIffOneSubgraph(h);
    SomeSubgraph(h);
  }
}
