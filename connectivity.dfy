/**
 * What getReachableNodes and getSubgraphs mean for the graphs the program
 * is written for (symmetric adjacency, Bounded weights): the reachable
 * nodes are those joined to the start by a path, and the subgraphs are
 * the connected components, each node in exactly one of them.
 */
module Connectivity {
  import opened Sequences
  import opened Matrices
  import opened ShortestPaths
  import opened PathBounds
  import opened Graphs

  /** A valid graph with a symmetric adjacency matrix and Bounded weights. */
  predicate Undirected(g: Graph) {
    g.Valid() && Symmetric(g.adjacency) && Bounded(g.adjacency)
  }

  /** u and v lie in the same subgraph: the distance between them is finite. */
  predicate Linked(g: Graph, u: int, v: int)
    requires g.Valid() && 0 <= u < g.nodeCount && 0 <= v < g.nodeCount
  {
    g.distanceMatrix[u][v] < INF
  }

  lemma LinkedReflexive(g: Graph, u: int)
    requires g.Valid() && 0 <= u < g.nodeCount
    ensures Linked(g, u, u)
  {
    FinishedDiagonalAndBound(g.adjacency, u, u);
  }

  lemma LinkedSymmetric(g: Graph, u: int, v: int)
    requires Undirected(g) && 0 <= u < g.nodeCount && 0 <= v < g.nodeCount
    ensures Linked(g, u, v) <==> Linked(g, v, u)
  {
    DistSymmetric(g.adjacency, g.nodeCount, u, v);
  }

  lemma LinkedTransitive(g: Graph, u: int, m: int, v: int)
    requires Undirected(g) && 0 <= u < g.nodeCount && 0 <= m < g.nodeCount && 0 <= v < g.nodeCount
    requires Linked(g, u, m) && Linked(g, m, v)
    ensures Linked(g, u, v)
  {
    ReachTransitive(g.adjacency, u, m, v);
  }

  /** getReachableNodes(s) holds exactly the nodes that some path from s reaches. */
  lemma ReachableIffPath(g: Graph, s: int, v: int)
    requires Undirected(g) && 0 <= s < g.nodeCount && 0 <= v < g.nodeCount
    ensures v in g.GetReachableNodes(s) <==> Reachable(g.adjacency, s, v)
  {
    NoPathIffInf(g.adjacency, s, v);
  }

  /** getReachableNodes' contract fixes its list: an ascending list with the same members is that list. */
  lemma ReachableNodesDetermined(g: Graph, s: int, r: seq<int>)
    requires g.Valid() && 0 <= s < g.nodeCount && Ascending(r)
    requires forall v :: v in r <==> 0 <= v < g.nodeCount && g.distanceMatrix[s][v] != INF
    ensures r == g.GetReachableNodes(s)
  {
    AscendingUnique(r, g.GetReachableNodes(s));
  }

  /** Every node linked to a node of U lies in U. */
  predicate Closed(g: Graph, unvisited: seq<int>)
    requires g.Valid()
  {
    forall x, y | x in unvisited && 0 <= x < g.nodeCount && 0 <= y < g.nodeCount && Linked(g, x, y) :: y in unvisited
  }

  /** Node v lies in one of the subgraphs. */
  predicate InSomeSubgraph(parts: seq<seq<int>>, v: int) {
    exists i | 0 <= i < |parts| :: v in parts[i]
  }

  /** No node lies in two of the subgraphs. */
  predicate Disjoint(parts: seq<seq<int>>) {
    forall i, j, v | 0 <= i < j < |parts| :: !(v in parts[i] && v in parts[j])
  }

  /** Every node of every subgraph lies in U. */
  predicate Inside(parts: seq<seq<int>>, unvisited: seq<int>) {
    forall i, v | 0 <= i < |parts| && v in parts[i] :: v in unvisited
  }

  /** Every node of U lies in some subgraph. */
  predicate Covers(parts: seq<seq<int>>, unvisited: seq<int>) {
    forall v | v in unvisited :: InSomeSubgraph(parts, v)
  }

  /** Every subgraph is the set of nodes reachable from one of its nodes. */
  predicate FromClasses(g: Graph, parts: seq<seq<int>>)
    requires g.Valid()
  {
    forall i | 0 <= i < |parts| :: exists c | 0 <= c < g.nodeCount :: parts[i] == g.GetReachableNodes(c)
  }

  /** A node linked to a member of c's subgraph is itself a member. */
  lemma LinkedJoinsSubgraph(g: Graph, c: int, x: int, y: int)
    requires Undirected(g) && 0 <= c < g.nodeCount && 0 <= x < g.nodeCount && 0 <= y < g.nodeCount
    requires Linked(g, x, y) && y in g.GetReachableNodes(c)
    ensures x in g.GetReachableNodes(c)
  {
    LinkedSymmetric(g, x, y);
    LinkedTransitive(g, c, y, x);
  }

  /** One round of getSubgraphs on a closed U: the subgraph found lies in U and the rest stays closed. */
  lemma RoundKeepsClosed(g: Graph, unvisited: seq<int>)
    requires Undirected(g) && InRange(unvisited, g.nodeCount) && Closed(g, unvisited) && unvisited != []
    ensures forall x | x in g.GetReachableNodes(unvisited[0]) :: x in unvisited
    ensures Closed(g, RemoveAll(unvisited, g.GetReachableNodes(unvisited[0])))
  {
    var c := unvisited[0];
    assert c in unvisited;
    var found := g.GetReachableNodes(c);
    var rest := RemoveAll(unvisited, found);
    forall x | x in found
      ensures x in unvisited
    {
      assert Linked(g, c, x);
    }
    forall x, y | x in rest && 0 <= x < g.nodeCount && 0 <= y < g.nodeCount && Linked(g, x, y)
      ensures y in rest
    {
      assert x in unvisited;
      if y in found {
        LinkedJoinsSubgraph(g, c, x, y);
      } else {
        assert y in unvisited;
      }
    }
  }

  lemma ConsInside(found: seq<int>, later: seq<seq<int>>, unvisited: seq<int>, rest: seq<int>)
    requires Inside(later, rest)
    requires forall x | x in rest :: x in unvisited
    requires forall x | x in found :: x in unvisited
    ensures Inside([found] + later, unvisited)
  {
    var parts := [found] + later;
    forall i, v | 0 <= i < |parts| && v in parts[i]
      ensures v in unvisited
    {
      if i > 0 {
        assert parts[i] == later[i - 1];
      }
    }
  }

  lemma ConsCovers(found: seq<int>, later: seq<seq<int>>, unvisited: seq<int>, rest: seq<int>)
    requires Covers(later, rest)
    requires forall x | x in unvisited :: x in found || x in rest
    ensures Covers([found] + later, unvisited)
  {
    var parts := [found] + later;
    forall v | v in unvisited
      ensures InSomeSubgraph(parts, v)
    {
      if v in found {
        assert v in parts[0];
      } else {
        assert InSomeSubgraph(later, v);
        var i :| 0 <= i < |later| && v in later[i];
        assert v in parts[i + 1];
      }
    }
  }

  lemma ConsDisjoint(found: seq<int>, later: seq<seq<int>>, rest: seq<int>)
    requires Disjoint(later) && Inside(later, rest)
    requires forall x | x in rest :: x !in found
    ensures Disjoint([found] + later)
  {
    var parts := [found] + later;
    forall i, j, v | 0 <= i < j < |parts|
      ensures !(v in parts[i] && v in parts[j])
    {
      assert parts[j] == later[j - 1];
      if i > 0 {
        assert parts[i] == later[i - 1];
      }
    }
  }

  lemma ConsFromClasses(g: Graph, c: int, later: seq<seq<int>>)
    requires g.Valid() && 0 <= c < g.nodeCount && FromClasses(g, later)
    ensures FromClasses(g, [g.GetReachableNodes(c)] + later)
  {
    var parts := [g.GetReachableNodes(c)] + later;
    forall i | 0 <= i < |parts|
      ensures exists d | 0 <= d < g.nodeCount :: parts[i] == g.GetReachableNodes(d)
    {
      if i == 0 {
        assert parts[0] == g.GetReachableNodes(c);
      } else {
        assert parts[i] == later[i - 1];
      }
    }
  }

  /**
   * On a closed U, the subgraphs collected from U are reachability sets,
   * lie inside U, cover U and are pairwise disjoint.
   */
  lemma {:induction false} SubgraphsFromPartition(g: Graph, unvisited: seq<int>)
    requires Undirected(g) && InRange(unvisited, g.nodeCount) && Closed(g, unvisited)
    ensures FromClasses(g, g.SubgraphsFrom(unvisited))
    ensures Inside(g.SubgraphsFrom(unvisited), unvisited)
    ensures Covers(g.SubgraphsFrom(unvisited), unvisited)
    ensures Disjoint(g.SubgraphsFrom(unvisited))
    decreases |unvisited|
  {
    if unvisited != [] {
      var c := unvisited[0];
      var found := g.GetReachableNodes(c);
      var rest := RemoveAll(unvisited, found);
      g.SubgraphsFromStep(unvisited);
      RoundKeepsClosed(g, unvisited);
      SubgraphsFromPartition(g, rest);
      var later := g.SubgraphsFrom(rest);
      ConsFromClasses(g, c, later);
      ConsInside(found, later, unvisited, rest);
      ConsCovers(found, later, unvisited, rest);
      ConsDisjoint(found, later, rest);
    }
  }

  /** Every subgraph is non-empty and starts with a node of U. */
  predicate HeadsIn(parts: seq<seq<int>>, unvisited: seq<int>) {
    forall i | 0 <= i < |parts| :: |parts[i]| > 0 && parts[i][0] in unvisited
  }

  /** The subgraphs' first nodes strictly ascend. */
  predicate HeadsAscending(parts: seq<seq<int>>)
    requires forall i | 0 <= i < |parts| :: |parts[i]| > 0
  {
    forall i, j | 0 <= i < j < |parts| :: parts[i][0] < parts[j][0]
  }

  /** The first round's subgraph starts with the round's start node, the smallest node of a closed ascending U. */
  lemma FirstHead(g: Graph, unvisited: seq<int>)
    requires Undirected(g) && InRange(unvisited, g.nodeCount) && Closed(g, unvisited)
    requires Ascending(unvisited) && unvisited != []
    ensures |g.GetReachableNodes(unvisited[0])| > 0 && g.GetReachableNodes(unvisited[0])[0] == unvisited[0]
  {
    var c := unvisited[0];
    var found := g.GetReachableNodes(c);
    RoundKeepsClosed(g, unvisited);
    assert c in found;
    assert found[0] in found;
    assert found[0] in unvisited;
    assert found[0] <= c by {
      var t :| 0 <= t < |found| && found[t] == c;
    }
    assert c <= found[0] by {
      var t :| 0 <= t < |unvisited| && unvisited[t] == found[0];
    }
  }

  lemma ConsHeads(c: int, found: seq<int>, later: seq<seq<int>>, unvisited: seq<int>, rest: seq<int>)
    requires Ascending(unvisited) && unvisited != [] && c == unvisited[0]
    requires |found| > 0 && found[0] == c
    requires HeadsIn(later, rest) && HeadsAscending(later)
    requires forall x | x in rest :: x in unvisited && x != c
    ensures HeadsIn([found] + later, unvisited) && HeadsAscending([found] + later)
  {
    var parts := [found] + later;
    forall i | 0 <= i < |parts|
      ensures |parts[i]| > 0 && parts[i][0] in unvisited
    {
      if i > 0 {
        assert parts[i] == later[i - 1];
      } else {
        assert parts[0] == found && unvisited[0] in unvisited;
      }
    }
    forall i, j | 0 <= i < j < |parts|
      ensures parts[i][0] < parts[j][0]
    {
      assert parts[j] == later[j - 1];
      if i > 0 {
        assert parts[i] == later[i - 1];
      } else {
        var h := later[j - 1][0];
        assert h in rest;
        var t :| 0 <= t < |unvisited| && unvisited[t] == h;
        assert t > 0;
      }
    }
  }

  /**
   * From a closed ascending U, getSubgraphs' rounds give non-empty
   * subgraphs, each starting with a node of U, whose first nodes strictly
   * ascend: every subgraph starts with the node its round started from.
   */
  lemma {:induction false} SubgraphsFromOrdered(g: Graph, unvisited: seq<int>)
    requires Undirected(g) && InRange(unvisited, g.nodeCount) && Closed(g, unvisited) && Ascending(unvisited)
    ensures HeadsIn(g.SubgraphsFrom(unvisited), unvisited)
    ensures HeadsAscending(g.SubgraphsFrom(unvisited))
    decreases |unvisited|
  {
    if unvisited != [] {
      var c := unvisited[0];
      var found := g.GetReachableNodes(c);
      var rest := RemoveAll(unvisited, found);
      g.SubgraphsFromStep(unvisited);
      RoundKeepsClosed(g, unvisited);
      RemoveAllAscending(unvisited, found);
      SubgraphsFromOrdered(g, rest);
      FirstHead(g, unvisited);
      assert c in found;
      ConsHeads(c, found, g.SubgraphsFrom(rest), unvisited, rest);
    }
  }

  /**
   * getSubgraphs returns the connected components (the subgraph of a
   * node u holds exactly the nodes linked to u), every node lies in one
   * of them, and no node lies in two.
   */
  lemma SubgraphsAreComponents(g: Graph)
    requires Undirected(g)
    ensures forall v | 0 <= v < g.nodeCount :: InSomeSubgraph(g.Subgraphs(), v)
    ensures Disjoint(g.Subgraphs())
    ensures forall i, u, v | 0 <= i < |g.Subgraphs()| && u in g.Subgraphs()[i] && 0 <= v < g.nodeCount ::
      0 <= u < g.nodeCount && (v in g.Subgraphs()[i] <==> Linked(g, u, v))
  {
    var all := AllNodes(g.nodeCount);
    SubgraphsFromPartition(g, all);
    var parts := g.Subgraphs();
    forall v | 0 <= v < g.nodeCount
      ensures InSomeSubgraph(parts, v)
    {
      assert v in all;
    }
    forall i, u, v | 0 <= i < |parts| && u in parts[i] && 0 <= v < g.nodeCount
      ensures 0 <= u < g.nodeCount && (v in parts[i] <==> Linked(g, u, v))
    {
      var c :| 0 <= c < g.nodeCount && parts[i] == g.GetReachableNodes(c);
      LinkedSymmetric(g, c, u);
      if v in parts[i] {
        LinkedTransitive(g, u, c, v);
      }
      if Linked(g, u, v) {
        LinkedTransitive(g, c, u, v);
      }
    }
  }

  /** In a connected graph the first round of getSubgraphs collects every node. */
  lemma ConnectedOneRound(g: Graph)
    requires Undirected(g) && g.nodeCount > 0 && g.IsConnected()
    ensures g.Subgraphs() == [g.GetReachableNodes(0)]
  {
    var all := AllNodes(g.nodeCount);
    g.SubgraphsFromStep(all);
    var found := g.GetReachableNodes(0);
    forall x | x in all
      ensures x in found
    {
      assert g.distanceMatrix[0][x] != INF;
    }
    RemoveAllCovered(all, found);
  }

  /** A single subgraph holds every node, so every node is linked to node 0. */
  lemma OneSubgraphConnected(g: Graph)
    requires Undirected(g) && g.nodeCount > 0 && |g.Subgraphs()| == 1
    ensures g.IsConnected()
  {
    SubgraphsAreComponents(g);
    var parts := g.Subgraphs();
    assert InSomeSubgraph(parts, 0);
    forall v | 0 <= v < g.nodeCount
      ensures g.distanceMatrix[0][v] != INF
    {
      assert InSomeSubgraph(parts, v);
      assert v in parts[0];
      assert Linked(g, 0, v);
    }
  }

  /**
   * getSubgraphs returns non-empty subgraphs in the order of their first
   * nodes, and each subgraph's first node is its smallest.
   */
  lemma SubgraphsInOrder(g: Graph)
    requires Undirected(g)
    ensures forall i | 0 <= i < |g.Subgraphs()| :: |g.Subgraphs()[i]| > 0
    ensures HeadsAscending(g.Subgraphs())
    ensures forall i | 0 <= i < |g.Subgraphs()| :: Ascending(g.Subgraphs()[i])
  {
    var all := AllNodes(g.nodeCount);
    SubgraphsFromOrdered(g, all);
    SubgraphsFromPartition(g, all);
    var parts := g.Subgraphs();
    forall i | 0 <= i < |parts|
      ensures Ascending(parts[i])
    {
      var c :| 0 <= c < g.nodeCount && parts[i] == g.GetReachableNodes(c);
    }
  }

  /** A graph with nodes is connected exactly when getSubgraphs returns one subgraph; without nodes it returns none. */
  lemma ConnectedIffOneSubgraph(g: Graph)
    requires Undirected(g)
    ensures g.nodeCount == 0 ==> |g.Subgraphs()| == 0
    ensures g.nodeCount > 0 ==> (g.IsConnected() <==> |g.Subgraphs()| == 1)
  {
    if g.nodeCount > 0 {
      if g.IsConnected() {
        ConnectedOneRound(g);
      }
      if |g.Subgraphs()| == 1 {
        OneSubgraphConnected(g);
      }
    }
  }
}
