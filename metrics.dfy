/**
 * What the distance-based measures of Graph mean for an undirected graph:
 * isConnected, which inspects row 0 only, decides connectivity of every
 * pair; eccentricity, diameter and radius are finite exactly on connected
 * graphs; the radius never exceeds the diameter, which never exceeds
 * twice the radius; and the center is empty only where the radius is INF.
 */
module Metrics {
  import opened Matrices
  import opened ShortestPaths
  import opened PathBounds
  import opened Graphs
  import opened Connectivity

  /** Looking at row 0 suffices: isConnected holds exactly when every pair of nodes is linked. */
  lemma ConnectedIffAllPairs(g: Graph)
    requires Undirected(g)
    ensures g.IsConnected() <==>
      forall u, v | 0 <= u < g.nodeCount && 0 <= v < g.nodeCount :: Linked(g, u, v)
  {
    if g.IsConnected() {
      forall u, v | 0 <= u < g.nodeCount && 0 <= v < g.nodeCount
        ensures Linked(g, u, v)
      {
        assert g.distanceMatrix[0][u] != INF && g.distanceMatrix[0][v] != INF;
        LinkedSymmetric(g, 0, u);
        LinkedTransitive(g, u, 0, v);
      }
    } else {
      var node :| 0 <= node < g.nodeCount && g.distanceMatrix[0][node] == INF;
      assert !Linked(g, 0, node);
    }
  }

  /** isConnected holds exactly when a path joins every pair of nodes. */
  lemma ConnectedIffPaths(g: Graph)
    requires Undirected(g)
    ensures g.IsConnected() <==>
      forall u, v | 0 <= u < g.nodeCount && 0 <= v < g.nodeCount :: Reachable(g.adjacency, u, v)
  {
    ConnectedIffAllPairs(g);
    forall u, v | 0 <= u < g.nodeCount && 0 <= v < g.nodeCount
      ensures Linked(g, u, v) <==> Reachable(g.adjacency, u, v)
    {
      NoPathIffInf(g.adjacency, u, v);
    }
  }

  /** A node's eccentricity is finite exactly when the graph is connected. */
  lemma EccentricityFiniteIffConnected(g: Graph, v: int)
    requires Undirected(g) && 0 <= v < g.nodeCount
    ensures g.GetEccentricity(v) < INF <==> g.IsConnected()
  {
    if g.IsConnected() {
      ConnectedIffAllPairs(g);
      var w :| 0 <= w < g.nodeCount && g.GetEccentricity(v) == g.distanceMatrix[v][w];
      assert Linked(g, v, w);
    }
  }

  /** Diameter and radius are finite exactly when the graph is connected and has nodes. */
  lemma DiameterRadiusFiniteIffConnected(g: Graph)
    requires Undirected(g)
    ensures g.GetDiameter() < INF <==> g.IsConnected() && g.nodeCount > 0
    ensures g.GetRadius() < INF <==> g.IsConnected() && g.nodeCount > 0
  {
    if g.IsConnected() && g.nodeCount > 0 {
      var v :| 0 <= v < g.nodeCount && g.GetDiameter() == g.GetEccentricity(v);
      EccentricityFiniteIffConnected(g, v);
      var c :| 0 <= c < g.nodeCount && g.GetRadius() == g.GetEccentricity(c);
      EccentricityFiniteIffConnected(g, c);
    }
  }

  /** In a connected graph no eccentricity exceeds twice the radius. */
  lemma EccentricityAtMostTwiceRadius(g: Graph, u: int)
    requires Undirected(g) && g.IsConnected() && 0 <= u < g.nodeCount
    ensures g.GetEccentricity(u) <= 2 * g.GetRadius()
  {
    var d := g.distanceMatrix;
    ConnectedIffAllPairs(g);
    var c :| 0 <= c < g.nodeCount && g.GetRadius() == g.GetEccentricity(c);
    var w :| 0 <= w < g.nodeCount && g.GetEccentricity(u) == d[u][w];
    assert Linked(g, u, c) && Linked(g, c, w);
    TriangleInequality(g.adjacency, u, c, w);
    DistSymmetric(g.adjacency, g.nodeCount, u, c);
    assert d[u][c] == d[c][u] <= g.GetEccentricity(c);
    assert d[c][w] <= g.GetEccentricity(c);
  }

  /** radius <= diameter always, and diameter <= 2 * radius when the graph is connected. */
  lemma RadiusDiameterBounds(g: Graph)
    requires Undirected(g)
    ensures g.GetRadius() <= g.GetDiameter()
    ensures g.IsConnected() ==> g.GetDiameter() <= 2 * g.GetRadius()
  {
    if g.IsConnected() && g.nodeCount > 0 {
      var v :| 0 <= v < g.nodeCount && g.GetDiameter() == g.GetEccentricity(v);
      EccentricityAtMostTwiceRadius(g, v);
    }
  }

  /** The diameter is the largest entry of the distance matrix, the longest shortest path. */
  lemma DiameterIsLongestDistance(g: Graph)
    requires Undirected(g) && g.IsConnected() && g.nodeCount > 0
    ensures exists u, v | 0 <= u < g.nodeCount && 0 <= v < g.nodeCount :: g.GetDiameter() == g.distanceMatrix[u][v]
    ensures forall u, v | 0 <= u < g.nodeCount && 0 <= v < g.nodeCount :: g.distanceMatrix[u][v] <= g.GetDiameter()
  {
    var u :| 0 <= u < g.nodeCount && g.GetDiameter() == g.GetEccentricity(u);
    var v :| 0 <= v < g.nodeCount && g.GetEccentricity(u) == g.distanceMatrix[u][v];
    forall a, b | 0 <= a < g.nodeCount && 0 <= b < g.nodeCount
      ensures g.distanceMatrix[a][b] <= g.GetDiameter()
    {
      assert g.distanceMatrix[a][b] <= g.GetEccentricity(a);
    }
  }

  /** The center has a node exactly when the graph is connected and has nodes. */
  lemma CenterNonEmptyIffConnected(g: Graph)
    requires Undirected(g)
    ensures |g.GetCenter()| > 0 <==> g.IsConnected() && g.nodeCount > 0
  {
    DiameterRadiusFiniteIffConnected(g);
    var center := g.GetCenter();
    if |center| > 0 {
      assert center[0] in center;
    }
    if g.IsConnected() && g.nodeCount > 0 {
      var c :| 0 <= c < g.nodeCount && g.GetRadius() == g.GetEccentricity(c);
      assert c in center;
    }
  }
}
