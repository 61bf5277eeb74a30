# Graph analysis engine — a Dafny model

This project models the engine of GraphenprogrammJava, the class `Graph`.
`Graph` reads the adjacency matrix of an undirected, weighted graph. Its
constructor computes all-pairs shortest distances with the Floyd–Warshall
algorithm. From the distance matrix it derives:

- connectivity, eccentricity, diameter, radius and center;
- degrees and the edge count;
- connected components (`getSubgraphs`);
- articulation points and bridges (`getEdgeSeparators`), found by removing a
  node or an edge (`removeNode`, `removeEdge`) and counting the components
  again.

## How the model is laid out

- `graph.dfy` (module `Graphs`) is the class itself.
  - Java's `Graph` never changes its fields after construction, and
    `removeNode`/`removeEdge` return new graphs. So a graph is a value:
    `datatype Graph = Graph(adjacency, distanceMatrix)`.
  - `Valid()` says the distance matrix is the one the constructor computes.
  - The query methods that are plain stream expressions are functions.
  - The query methods built from loops (`getSubgraphs`, `getEdgeCount`,
    `getArticulations`, `getEdgeSeparators`) are methods of the `Graph`
    datatype. Their `while`/`for` loops run over sequence values, and each
    method is proved against a specification function.
  - Code that fills a new matrix works on an `array2<int>`, proved against a
    specification function. This covers the copy loop of `removeNode`
    (`CopyWithoutNode`), the copy in `removeEdge`, the copy loops of
    `fromFile` (`FromRows`), and the constructor (`NewGraph`), which also
    runs the in-place `CalcDistanceMatrix`.
  - Java exceptions (`GraphException`) become the `Result`/`Outcome`
    datatypes. `getArticulations` and `getEdgeSeparators` treat the error
    case as "no" for that candidate, as Java's catch blocks do.
- `floyd_warshall.dfy` (module `FloydWarshall`) is `calcDistanceMatrix`.
  - It works in place on an `array2<int>`, with the initialisation loop and
    the triple relaxation loop of the source.
  - It is proved to leave exactly the specification value
    `ShortestPaths.Dist(adj, n, i, j)` in every cell.
- `shortest_paths.dfy` (module `ShortestPaths`) gives that value its meaning.
  - A finite entry is the weight of a path.
  - No path is lighter.
  - The matrix is symmetric for a symmetric adjacency matrix.
  - The triangle inequality holds.
- `path_bounds.dfy` (module `PathBounds`) covers the `Bounded` adjacency
  matrices, where every entry is below `INF / (2n)`.
  - Every finite distance is below `INF / 2`, so the sum at Graph.java:166
    never overflows.
  - An entry is `INF` exactly when no path exists.
- `connectivity.dfy`, `metrics.dfy`, `removal.dfy` and `handshake.dfy` prove
  what the queries mean for undirected graphs:
  - `isConnected` (which only inspects row 0) decides every pair of nodes.
  - `getSubgraphs` returns the connected components, each node in exactly
    one of them. Each component is ascending and non-empty, and the
    components come in ascending order of their first nodes.
  - radius ≤ diameter ≤ 2·radius.
  - The center is empty exactly when the graph is disconnected or has no
    nodes.
  - Removing a node or an edge never shortens a distance.
  - In a connected graph, articulation points and bridges are exactly the
    nodes and edges whose removal disconnects the graph.
  - The degrees sum to twice the edge count, less the self-loops.
- `overflow.dfy` (module `Overflow`) models the relaxation step with Java's
  32-bit int addition, as written. It exhibits the wrap-around described
  under Findings.
- `sequences.dfy` and `matrices.dfy` hold the IntStream, List and matrix
  helpers.

`INF` is `Integer.MAX_VALUE` (`0x7FFF_FFFF`), Graph.java:16. The code
handles a diagonal entry (a self-loop) in two different ways:

- Floyd–Warshall ignores it: the distance from a node to itself is 0.
- `getEdgeCount` (col ≤ row) and `getDegree` count a positive diagonal
  entry once. `Handshake.HandshakeLemma` accounts for these entries.

## Model

| member | source | states |
|---|---|---|
| ShortestPaths.Direct | Graph.java:136-150 | the initial entry: 0 on the diagonal, a positive weight as is, INF for 0 or a negative entry; always within 0..INF |
| ShortestPaths.Dist | Graph.java:159-169 | the entry after the pivots 0..k-1 have been processed; always within 0..INF |
| ShortestPaths.Distances | Graph.java:131-170 | the finished distance matrix is n×n and holds Dist(adj, n, i, j) in cell (i, j) |
| FloydWarshall.CalcDistanceMatrix | Graph.java:131-170 | the in-place algorithm leaves exactly Dist(adj, n, i, j) in every cell of the array |
| FloydWarshall.InitDistances | Graph.java:136-150 | the initialisation loops (with their `continue`s) leave Dist(adj, 0, r, c) = Direct(adj, r, c) in every cell |
| FloydWarshall.RelaxThrough | Graph.java:159-169 | the pass for pivot k turns the matrix for pivots below k into the one for pivots below k+1, although it updates cells in place |
| FloydWarshall.RelaxRow | Graph.java:160-168 | one row i of pass k: row i reaches its pivot-k+1 value, every other row is unchanged |
| ShortestPaths.Relax | Graph.java:162-168 | one relaxation step at full width: never above the current entry; it is the current entry or the detour sum; it is at most the detour when both legs are finite |
| ShortestPaths.PassKeepsPivot | Graph.java:162-168 | the pivot's own row and column do not change during pass k, which is why the in-place update is correct |
| ShortestPaths.DistSound | Graph.java:152-169 | a finite entry is the weight of a path from i to j whose inner nodes are all below k |
| ShortestPaths.DistOptimal | Graph.java:152-169 | no path from i to j with inner nodes below k is lighter than the entry |
| ShortestPaths.ShortestPath | Graph.java:39-41 | each finished entry lies in 0..INF; a finite one is the weight of some path from i to j; no path from i to j is lighter |
| ShortestPaths.DistDiagonal | Graph.java:138-140 | the distance from a node to itself stays 0 through every pass |
| ShortestPaths.DistAtMostDirect | Graph.java:145-147 | a distance never exceeds the initial entry |
| ShortestPaths.DistSymmetric | Graph.java:30-31 | for a symmetric adjacency matrix every intermediate distance matrix is symmetric |
| ShortestPaths.FinishedSymmetric | Graph.java:30-31 | for a symmetric adjacency matrix the finished distance matrix is symmetric |
| ShortestPaths.FinishedDiagonalAndBound | Graph.java:136-150 | the finished diagonal is 0 and no entry exceeds its initial value |
| ShortestPaths.TriangleInequality | Graph.java:152-156 | d[i][j] ≤ d[i][m] + d[m][j] whenever both legs are finite |
| PathBounds.Shortcut | Graph.java:152-158 | every path can be replaced by a repetition-free path with the same ends that is no heavier and uses only its nodes |
| PathBounds.DistinctPathLight | Graph.java:166 | on a Bounded matrix a repetition-free path weighs less than INF / 2 |
| PathBounds.FiniteDistanceSmall | Graph.java:166 | on a Bounded matrix every finite intermediate distance is below INF / 2 |
| PathBounds.RelaxationFitsInt | Graph.java:166-167 | on a Bounded matrix the detour sum of two finite legs lies in 0..INF-1, so it fits in an int |
| PathBounds.PathMeansFinite | Graph.java:179-185 | on a Bounded matrix a path from i to j gives a finite distance |
| PathBounds.NoPathIffInf | Graph.java:179-185 | on a Bounded matrix an entry is INF exactly when no path joins the two nodes |
| PathBounds.ReachTransitive | Graph.java:152-158 | two finite legs give a finite distance |
| Overflow.Wrap32 | Graph.java:166 | Java int addition: the result lies in the int range and equals the exact sum when that fits |
| Overflow.RelaxAgreesWhenFits | Graph.java:162-168 | when the detour sum fits in an int, the source's step and the model's step agree |
| Overflow.RelaxAsWritten | Graph.java:162-168 | the step with int addition: never above the current entry; it is the current entry or the wrapped sum; it is at most the wrapped sum when both legs are finite |
| Overflow.RelaxCell | Graph.java:162-168 | relaxing cell (i, j) in place stores the step's result there and changes no other cell |
| Overflow.RowAsWritten | Graph.java:162-168 | relaxing cells (i, 0) .. (i, j-1) in order changes no other row and no later cell of row i |
| Overflow.PassAsWritten | Graph.java:160-168 | the relaxation pass with wrapping addition, cell by cell in the source's order, stays square |
| Overflow.HeavyEdgeOverflows | Graph.java:166-167 | on HeavyEdge the first pass as written stores Integer.MIN_VALUE as the distance from node 1 to itself, where the corrected Dist stays 0 |
| Graphs.NewGraph | Graph.java:21-26 | the constructor: allocates the distance matrix, runs the algorithm and yields a valid graph over the given matrix |
| Graphs.GraphOf | Graph.java:21-26 | the graph the constructor builds from a weight matrix is valid and keeps that matrix |
| Graphs.ValidIsGraphOf | Graph.java:21-26 | a valid graph is determined by its adjacency matrix |
| Graphs.FromRows | Graph.java:111-124 | succeeds exactly when every row has as many values as there are rows, and then yields the valid graph over those rows; otherwise it reports the first bad row, 1-based, with the expected count |
| Graphs.Graph.LowerCount | Graph.java:28-37 | the positive entries of rows 0..rows-1 at or below the diagonal (definition; Handshake.LowerIsBelowAndLoops splits it) |
| Graphs.Graph.EdgeCount | Graph.java:28-37 | the positive entries on or below the diagonal of the whole matrix (definition; Handshake.HandshakeLemma relates it to the degrees) |
| Graphs.Graph.GetEdgeCount | Graph.java:28-37 | the loops count exactly the positive entries on and below the diagonal (EdgeCount) |
| Sequences.AllNodes | Graph.java:51-53 | the nodes 0..n-1, in order, and nothing else |
| Graphs.Graph.IsConnected | Graph.java:60-62 | no entry of row 0 of the distance matrix is INF (definition; Metrics.ConnectedIffAllPairs shows it decides every pair) |
| Graphs.Graph.EnsureValidNode | Graph.java:93-96 | passes exactly for nodes in 0..n-1, and otherwise fails with InvalidNode(node) |
| Graphs.Graph.GetEccentricity | Graph.java:270-275 | INF for a disconnected graph or one without nodes; otherwise the largest entry of the node's row, attained by some node |
| Graphs.Graph.GetDiameter | Graph.java:68-71 | INF for a disconnected graph or one without nodes (orElse); otherwise the largest eccentricity, attained by some node |
| Graphs.Graph.GetRadius | Graph.java:77-80 | INF for a disconnected graph or one without nodes (orElse); otherwise the smallest eccentricity, attained by some node |
| Graphs.Graph.GetCenter | Graph.java:86-91 | ascending; a node belongs exactly when the radius is finite and the node's eccentricity equals it |
| Graphs.Graph.GetDegree | Graph.java:175-177 | the number of columns with a positive entry in the node's row (0 in a graph without nodes) |
| Graphs.Graph.GetReachableNodes | Graph.java:183-185 | ascending; a node belongs exactly when its distance from the start is not INF; the start node belongs |
| Graphs.Graph.SubgraphsFrom | Graph.java:198-207 | the loop's rounds from a given unvisited list: no more subgraphs than unvisited nodes |
| Graphs.Graph.SubgraphsFromStep | Graph.java:200-206 | one round: the subgraphs are the reachable set of the first unvisited node followed by those of the remaining list, which stays in range and is shorter |
| Graphs.Graph.Subgraphs | Graph.java:193-209 | the list getSubgraphs computes: the rounds of SubgraphsFrom started from 0..n-1; SubgraphsAreComponents and SubgraphsInOrder state what it holds |
| Graphs.Graph.GetSubgraphs | Graph.java:193-209 | the while loop returns the subgraphs collected from 0..n-1 |
| Graphs.Graph.RemoveNode | Graph.java:215-231 | fails exactly for an invalid node, with InvalidNode(node); otherwise a valid graph with n-1 nodes whose entry (i, j) is the old entry at the indices with node skipped |
| Graphs.CopyWithoutNode | Graph.java:217-229 | the destRow/destCol copy loops fill the reduced array with the old entries at the skipped indices |
| Graphs.WithoutNode | Graph.java:215-231 | the reduced matrix is a weight matrix of size n-1 whose entry (i, j) is adjacency[Skip(i)][Skip(j)] |
| Graphs.Skip | Graph.java:220-226 | index i of the reduced graph names old node i below the removed node and i+1 from it on, never the removed node |
| Graphs.Graph.RemoveEdge | Graph.java:236-248 | fails exactly when a node is invalid, reporting node1 first and then node2; otherwise a valid graph whose two entries between the nodes are 0 and where nothing else changes |
| Graphs.WithoutEdge | Graph.java:240-246 | the copied matrix keeps every entry except (node1, node2) and (node2, node1), which are 0 |
| Graphs.Graph.IsArticulation | Graph.java:258 | removing the node leaves more subgraphs than the graph has (definition; Removal.ArticulationIffDisconnects characterises it) |
| Graphs.Graph.ArticulationsBefore | Graph.java:254-263 | ascending; a node below k belongs exactly when removing it raises the number of subgraphs |
| Graphs.Graph.GetArticulations | Graph.java:254-263 | the articulation points, ascending: exactly the nodes whose removal raises the number of subgraphs |
| Graphs.Graph.SplitsWithoutNode | Graph.java:257-261 | the filter's lambda: true exactly when removeNode(node) has more subgraphs than the graph; the catch branch gives false |
| Graphs.Graph.IsBridge | Graph.java:290 | removing the edge leaves more subgraphs than the graph has (definition; Removal.BridgeIffDisconnects characterises it) |
| Graphs.Graph.RowSeparators | Graph.java:286-294 | the pairs (node2, node1) with node2 below the bound, a positive entry and a bridge, ordered by node2 |
| Graphs.Graph.SeparatorsBefore | Graph.java:285-294 | the pairs (node2, node1) with node1 below rows, node2 ≤ node1, a positive entry [node1][node2] and a bridge, in iteration order |
| Graphs.Graph.GetEdgeSeparators | Graph.java:282-296 | exactly the pairs (node2, node1) with node2 ≤ node1, a positive entry and more subgraphs after removing the edge, ordered by node1 and then node2 |
| Graphs.Graph.RowBridges | Graph.java:286-294 | the inner loop over node2 ≤ node1 collects that row's bridges |
| Graphs.Graph.SplitsWithoutEdge | Graph.java:288-293 | true exactly when removeEdge(node1, node2) has more subgraphs than the graph |
| Graphs.Graph.OrderedConcat | Graph.java:285-291 | appending the next row's pairs keeps the result in iteration order |
| Sequences.RemoveAll | Graph.java:205 | List.removeAll: exactly the elements of the list not in the removed collection; shorter when the head is removed |
| Sequences.NodesWhere | Graph.java:90 | filtering 0..n-1 gives, in ascending order, exactly the nodes satisfying the predicate |
| Sequences.MaxOr | Graph.java:70 | max().orElse(INF): INF on an empty stream, otherwise a member that bounds every element from above |
| Sequences.MinOr | Graph.java:79 | min().orElse(INF): INF on an empty stream, otherwise a member that bounds every element from below |
| Sequences.CountPositive | Graph.java:176 | filter(v > 0).count() over the first k entries equals the size of the set of those positions |
| Sequences.RemoveAllAscending | Graph.java:197-206 | removing elements keeps the unvisited list ascending |
| Sequences.RemoveAllCovered | Graph.java:198-205 | removing every element of a list leaves it empty, which ends getSubgraphs' loop |
| Sequences.AscendingUnique | Graph.java:183-185 | two ascending sequences with the same elements are equal |
| Sequences.DistinctFits | Graph.java:51-53 | a repetition-free sequence of nodes has at most n elements |
| Matrices.ToMatrix | Graph.java:22-24 | reading an n×n array back as a value gives the same entries |
| Matrices.SameMatrix | Graph.java:22-24 | two n×n matrices with the same entries are equal |
| Connectivity.LinkedSymmetric | Graph.java:55-59 | in an undirected graph, u reaches v exactly when v reaches u |
| Connectivity.LinkedTransitive | Graph.java:55-59 | in an undirected graph, reachability is transitive |
| Connectivity.LinkedReflexive | Graph.java:138-140 | every node reaches itself |
| Connectivity.ReachableIffPath | Graph.java:179-185 | a node is among getReachableNodes(s) exactly when some path leads from s to it |
| Connectivity.RoundKeepsClosed | Graph.java:200-206 | a round takes only unvisited nodes and leaves an unvisited list closed under reachability |
| Connectivity.SubgraphsFromPartition | Graph.java:193-209 | from a closed unvisited list, the subgraphs are reachable sets that lie in the list, cover it and are pairwise disjoint |
| Connectivity.FirstHead | Graph.java:200-202 | the subgraph of a round starts with the round's start node, the smallest unvisited node |
| Connectivity.SubgraphsFromOrdered | Graph.java:198-207 | from a closed ascending unvisited list, every subgraph is non-empty, starts with an unvisited node, and the subgraphs' first nodes strictly ascend |
| Connectivity.SubgraphsInOrder | Graph.java:193-209 | getSubgraphs' list: each subgraph is non-empty and ascending, and the subgraphs come in strictly ascending order of their first nodes |
| Connectivity.ReachableNodesDetermined | Graph.java:183-185 | an ascending list of exactly the nodes at finite distance from the start is getReachableNodes' list, so its contract fixes the result |
| Connectivity.SubgraphsAreComponents | Graph.java:187-209 | every node lies in some subgraph and none in two; a subgraph holding u holds exactly the nodes linked to u |
| Connectivity.ConnectedIffOneSubgraph | Graph.java:55-62 | a graph with nodes is connected exactly when getSubgraphs returns one subgraph; a graph without nodes has none |
| Metrics.ConnectedIffAllPairs | Graph.java:55-62 | isConnected, which inspects row 0 only, holds exactly when every pair of nodes is at finite distance |
| Metrics.ConnectedIffPaths | Graph.java:55-62 | isConnected holds exactly when a path joins every pair of nodes |
| Metrics.EccentricityFiniteIffConnected | Graph.java:265-275 | a node's eccentricity is finite exactly when the graph is connected |
| Metrics.DiameterRadiusFiniteIffConnected | Graph.java:64-80 | diameter and radius are finite exactly when the graph is connected and has nodes |
| Metrics.EccentricityAtMostTwiceRadius | Graph.java:265-275 | in a connected graph no eccentricity exceeds twice the radius |
| Metrics.RadiusDiameterBounds | Graph.java:64-80 | radius ≤ diameter, and diameter ≤ 2·radius for a connected graph |
| Metrics.DiameterIsLongestDistance | Graph.java:64-71 | in a connected graph with nodes, the diameter is the largest entry of the distance matrix and is attained |
| Metrics.CenterNonEmptyIffConnected | Graph.java:82-91 | the center has a node exactly when the graph is connected and has nodes |
| Removal.WithoutEdgeEndsCommute | Graph.java:245-246 | removeEdge(a, b) and removeEdge(b, a) leave the same matrix |
| Removal.WithoutEdgeIdempotent | Graph.java:245-246 | removing the same edge a second time changes nothing |
| Removal.WithoutAbsentEdge | Graph.java:240-246 | removing an edge whose entries are already 0 leaves the matrix as it was |
| Removal.WithoutEdgeUndirected | Graph.java:236-248 | removing an edge keeps the matrix symmetric and Bounded |
| Removal.WithoutNodeUndirected | Graph.java:215-231 | removing a node keeps the matrix symmetric and Bounded |
| Removal.DistancesNeverShrink | Graph.java:152-169 | a matrix that offers no usable step lighter than another's has no shorter distances |
| Removal.RemovingEdgeNeverShortens | Graph.java:236-248 | no distance in removeEdge's graph is shorter than in the original |
| Removal.LiftPath | Graph.java:220-229 | a path of the reduced graph, renumbered by Skip, is a path of the same weight in the original |
| Removal.RemovingNodeNeverShortens | Graph.java:215-231 | no distance between remaining nodes in removeNode's graph is shorter than in the original |
| Removal.SomeSubgraph | Graph.java:197-207 | a graph with nodes has at least one subgraph |
| Removal.ArticulationIffDisconnects | Graph.java:250-263 | in a connected graph with at least two nodes, a node is an articulation point exactly when removing it disconnects the graph |
| Removal.BridgeIffDisconnects | Graph.java:277-296 | in a connected graph, an edge is a bridge exactly when removing it disconnects the graph |
| Handshake.ColumnLikeRow | Graph.java:30-31 | in a symmetric matrix a column has as many positive entries as the row of the same index |
| Handshake.UpperLikeLower | Graph.java:30-31 | in a symmetric matrix the strict upper triangle has as many positive entries as the strict lower one |
| Handshake.LowerIsBelowAndLoops | Graph.java:32-35 | getEdgeCount's lower triangle is the strict lower triangle plus the self-loops |
| Handshake.HandshakeLemma | Graph.java:28-37 | for a symmetric matrix the degrees add up to twice getEdgeCount less the self-loops (getDegree counts a loop once) |

## Left out

- Program.java (the command-line front end, printing, reading the file name) is not part of this model.
- File reading, the `\d+` regex tokenising and `Integer.parseInt` (Graph.java:102-110) are I/O. `Graphs.FromRows` starts from the parsed rows.
- Graphs.FromRows: requires entries to be Java ints, which is all parseInt can yield. It does not model the NumberFormatException for a digit string that is too long.
- The texts of the exception messages are not modelled: `GraphError` carries only the node, or the 1-based line and the expected count.
- `getDistanceMatrix` and `getNodes` are plain accessors. `getNodes` is `Sequences.AllNodes`. The model does not capture that Java hands out its internal arrays (aliasing), because graphs here are values.
- Java int wrap-around in the relaxation sum (Graph.java:166). The model compares the detour at full width, which is what a `long` sum would do; see Findings. A single step of the two agrees whenever its sum fits in an int (`Overflow.RelaxAgreesWhenFits`). On a Bounded matrix every sum the algorithm forms fits (`PathBounds.RelaxationFitsInt`).
- The theory lemmas (Connectivity, Metrics, Removal) assume a symmetric adjacency matrix with Bounded weights. Without symmetry the source's reachability is not an equivalence, so those statements would not hold. Without Bounded, the source's own results may be affected by the overflow (Bounded is sufficient to rule it out, not necessary).
- Graphs.Graph.GetEccentricity and Graphs.Graph.GetDegree: require an in-range node where Java would throw ArrayIndexOutOfBoundsException. The unchecked runtime exception is not modelled as an error value.
- A graph without nodes is connected (`anyMatch` over nothing is false) but has diameter and radius INF (`orElse`). The contracts state this as the source has it.
- The doc comment at Graph.java:39-41 says infinite distances are stored as null. The code stores `INF`, and the model follows the code.
- Running time is not modelled: articulation points and bridges are recomputed by brute force, as in the source, and only the result is specified.

## Findings

| source | as written | input that shows it | evidently intended | confidence | as-written member | corrected member |
|---|---|---|---|---|---|---|
| Graph.java:166-167 | `var dist = distanceMatrix[i][k] + distanceMatrix[k][j];` is a 32-bit int addition, which wraps past Integer.MAX_VALUE | `[[0, 1073741824], [1073741824, 0]]`: in pass k = 0, cell (1, 1) adds 2^30 + 2^30, which wraps to Integer.MIN_VALUE and is stored as the distance from node 1 to itself | the detour replaces the entry only when it is really shorter, so the distance from a node to itself stays 0 and every entry is a shortest-path weight | not executed | Overflow.HeavyEdgeOverflows | ShortestPaths.ShortestPath |
