# java-util-graph in Dafny

A model of the core of `java-util-graph`. This is a small Java library for
undirected graphs whose adjacency lists are compressed bitmaps
(RoaringBitmap). The model covers:

- **The adjacency store of `BitSetGraph`.** It maps each vertex index to
  its neighbour set. The model includes `addEdge`, the degree and
  neighbour queries, the edge and vertex counts, `selectSeeds` (greedy
  seeds whose visitors, grown by `distance` in-place or-rounds as
  `OrNeighbours` performs them, cover the graph) and `join` (the
  quotient graph of a partition into blocks, with block sizes, meta-edge
  sizes and overlaps).
- **Three pieces of the abstract `Graph` class:**
  - the sweep of `communityDetectionPpr`, which picks the prefix of an
    ordered vertex list with the smallest conductance;
  - `cut` and `conductance` of a block;
  - the METIS loader, which filters comment lines, checks the header and
    turns body line `k` into edges from vertex `k`.
- **`Vertex` and `Edge`.** Vertex equality, hashing and ordering by index;
  the edge constructor that orders its endpoints; edge `equals` and
  `hashCode`.
- **`Stream2.combinations`.** It enumerates the `size`-element
  subsequences of a list in lexicographic order of positions.

Layout, one module per file:

| file | module | models |
|---|---|---|
| `errors.dfy` | `Errors` | the exceptions the core can throw, `Option`, `Result` |
| `bitmaps.dfy` | `Bitmaps` | a bitmap as a set of ints: ascending iteration, counting, cardinality facts |
| `vertex.dfy` | `Vertices` | `Vertex` |
| `edge.dfy` | `Edges` | `Edge` (and the endpoints of `Overlap`), Java `int` wrap-around of the hash |
| `stream2.dfy` | `Stream2` | `combinations`, `pipe` and the `main` example |
| `bitsetgraph.dfy` | `BitSetGraphs` | the adjacency map, reachability, arcs between blocks, the `BitSetGraph` class and the `Join` result |
| `graph.dfy` | `Graphs` | exact ratios, the sweep, `cut`/`conductance`, the METIS token model and loader |

The model works on a few fixed representations:

- **`BitSetGraph`** is a class. Its one field `adj: map<int, set<int>>` is
  what the Java field `vertices` holds. `AddEdge`, `Join` and the loader
  methods change it in place. Its invariant `Valid()` is symmetry: `u` is
  a neighbour of `v` iff `v` is a neighbour of `u`. `AddEdge` preserves it
  and `Join` establishes it for the graph it builds.
- **Java exceptions** become `Failure(...)` values of `Result`:
  - `IllegalArgumentException`;
  - the `NullPointerException` of a lookup of a missing vertex
    (`LookupFailure`);
  - `NoSuchElementException`;
  - `InputMismatchException`;
  - `IndexOutOfBoundsException`.
- **Conductances are exact ratios.** `Ratio(num, den)` is compared by
  cross-multiplication, not computed as a `double`.

## Model

| member | source | states |
|---|---|---|
| `Vertices.Vertex.CompareTo` | src/main/java/util/graph/Vertex.java:15-18 | result is -1, 0 or 1 by comparing indices, and 0 exactly when `equals` holds |
| `Vertices.EqualsIgnoresHost` | src/main/java/util/graph/Vertex.java:30-38 | vertex equality is index equality whatever the host graph, is symmetric and implies equal hash codes |
| `Vertices.CompareToIsTotalOrder` | src/main/java/util/graph/Vertex.java:15-18 | `compareTo` is antisymmetric, transitive and reflexive |
| `Edges.Edge.HashCode` | src/main/java/util/graph/Edge.java:46-49 | `Objects.hash(source, target)` stays within the 32-bit `int` range |
| `Edges.Wrap32` | src/main/java/util/graph/Edge.java:46-49 | the result lies in the `int` range and is congruent to its argument modulo 2^32 |
| `Edges.Wrap32Sum` | src/main/java/util/graph/BitSetGraph.java:42-43 | adding in `int` arithmetic to an operand that was itself wrapped agrees with adding exactly and wrapping once |
| `Edges.Half` | src/main/java/util/graph/BitSetGraph.java:44 | `int` division by 2 truncates toward zero: the quotient is at most half a non-negative dividend and at least half a negative one, within one |
| `Edges.NewEdge` | src/main/java/util/graph/Edge.java:17-25 | the stored source has the larger index, and the edge holds the two given vertices in one of the two orders |
| `Edges.CanonicalIndices` | src/main/java/util/graph/Edge.java:17-25 | the index pair is (larger, smaller) and holds both given indices |
| `Edges.NewEdgeIsCanonical` | src/main/java/util/graph/Edge.java:17-25 | the constructed edge's endpoint indices are the canonical pair |
| `Edges.NewEdgeSymmetric` | src/main/java/util/graph/Edge.java:17-25 | swapping the constructor's arguments gives the same indices and hash, and the same edge within one graph |
| `Edges.SourceIsMaximum` | src/main/java/util/graph/Edge.java:14-25 | `new Edge(v1, v2)` and `new Edge(v2, v1)` both have source index 2, not the minimum the class comment announces |
| `Edges.EqualsTestsReceiverLoop` | src/main/java/util/graph/Edge.java:36-44 | `equals` holds iff the argument is an edge and the receiver is a loop; the argument's endpoints play no part |
| `Edges.EqualsNotReflexive` | src/main/java/util/graph/Edge.java:36-44 | a non-loop edge is not equal to itself, and a loop equals an unrelated edge |
| `Edges.SameEdgeIsUnorderedPair` | src/main/java/util/graph/Edge.java:17-49 | the intended equality holds iff the constructed edges have the same unordered index pair; it is reflexive and agrees with `hashCode` |
| `Stream2.Pipe` | src/main/java/util/graph/Stream2.java:58-62 | the result is the head followed by the whole tail |
| `Stream2.PipeAll` | src/main/java/util/graph/Stream2.java:53-54 | the head is prepended to each tail, in order |
| `Stream2.CombinationsShape` | src/main/java/util/graph/Stream2.java:49-56 | every produced list has `size` elements and is a subsequence of `l` |
| `Stream2.CombinationsAreSubsequences` | src/main/java/util/graph/Stream2.java:49-56 | a list is produced for its own length iff it is a subsequence of `l` |
| `Stream2.SubsequenceProduced` | src/main/java/util/graph/Stream2.java:49-56 | every subsequence of `l` is produced |
| `Stream2.CombinationsCount` | src/main/java/util/graph/Stream2.java:49-56 | there are `Binomial(\|l\|, size)` results; size 0 gives one empty list; a negative size or one above `\|l\|` gives none |
| `Stream2.ExpandCount` | src/main/java/util/graph/Stream2.java:53-54 | the `flatMap` over start positions `from..\|l\|` yields `Binomial(\|l\| - from, size)` lists |
| `Stream2.CombinationsSorted` | src/main/java/util/graph/Stream2.java:49-56 | over a strictly increasing list the results come in strict lexicographic order |
| `Stream2.ExpandSorted` | src/main/java/util/graph/Stream2.java:53-54 | the `flatMap` output is lexicographically sorted, and each list starts at or after `from` |
| `Stream2.CombinationsNatural` | src/main/java/util/graph/Stream2.java:49-56 | mapping elements commutes with taking combinations (elements play no part in the choice) |
| `Stream2.CombinationsByPosition` | src/main/java/util/graph/Stream2.java:49-56 | combinations of any non-empty list are those of its positions mapped to elements, and the positions come in lexicographic order |
| `Stream2.ExpandOne` | src/main/java/util/graph/Stream2.java:53-54 | with size 1 every remaining element forms a singleton, in order |
| `Stream2.PairsOfFour` | src/main/java/util/graph/Stream2.java:64-67 | the pairs of `a, b, c, d` are ab, ac, ad, bc, bd, cd, in that order |
| `BitSetGraphs.AddEdgeTo` | src/main/java/util/graph/BitSetGraph.java:18-26 | both endpoints become keys, each gains the other as neighbour, every other vertex is unchanged |
| `BitSetGraphs.AddEdgeKeepsSymmetry` | src/main/java/util/graph/BitSetGraph.java:18-26 | adding an edge to a symmetric adjacency keeps it symmetric |
| `BitSetGraphs.AddEdgeIdempotent` | src/main/java/util/graph/BitSetGraph.java:18-26 | adding an edge twice, in either direction, changes nothing more |
| `BitSetGraphs.AddEdgeToContents` | src/main/java/util/graph/BitSetGraph.java:18-26 | after adding s-t, u neighbours v iff it did before or {u, v} is {s, t} |
| `BitSetGraphs.AddEdgesKeys` | src/main/java/util/graph/BitSetGraph.java:18-26 | adding a list of edges adds exactly their endpoints as vertices |
| `BitSetGraphs.AddEdgesNeighbours` | src/main/java/util/graph/BitSetGraph.java:18-26 | after a list of edges, u neighbours v iff it did before or one of the edges joins them |
| `BitSetGraphs.AddEdgesKeepSymmetry` | src/main/java/util/graph/BitSetGraph.java:18-26 | any list of `addEdge` calls keeps a symmetric adjacency symmetric |
| `BitSetGraphs.DegreeAfterAddEdge` | src/main/java/util/graph/BitSetGraph.java:18-31 | the source's degree grows by one exactly when the target was not yet a neighbour |
| `BitSetGraphs.DegreeAfterBothDirections` | src/test/java/util/graph/GraphTest.java:48-54 | after `addEdge(1, 2); addEdge(2, 1)` vertex 1 has degree 1 |
| `BitSetGraphs.DegreeSumAfterAddEdge` | src/main/java/util/graph/BitSetGraph.java:18-45 | adding an edge leaves the degree sum alone when it was present, raises it by 1 for a new loop and by 2 for a new edge between two vertices |
| `BitSetGraphs.NumEdgesAfterAddEdge` | src/main/java/util/graph/BitSetGraph.java:18-45 | on a symmetric graph, adding a new non-loop edge raises `numEdges` by one and adding an existing one leaves it |
| `BitSetGraphs.HopsAreWalks` | src/main/java/util/graph/BitSetGraph.java:144-152 | `k` steps of neighbours (the ball a visitor always contains) reach exactly the vertices at the end of a walk of at most `k` steps from the start |
| `BitSetGraphs.HopsInGraph` | src/main/java/util/graph/BitSetGraph.java:144-152 | `k` steps of neighbours keep the start and never leave the key set of a symmetric graph |
| `BitSetGraphs.RoundFrom` | src/main/java/util/graph/BitSetGraph.java:149-151 | the rest of a round, reading position `k` of the current contents and then position `k + 1` of the contents after the or, keeps the visitor and stays within the graph |
| `BitSetGraphs.RoundFromGrows` | src/main/java/util/graph/BitSetGraph.java:149-151 | every member a round started with gets its bitmap or-ed in: bits added meanwhile only push an unread member to a later position |
| `BitSetGraphs.RoundFromReachable` | src/main/java/util/graph/BitSetGraph.java:149-151 | a round adds only vertices reachable by a walk from the visitor it started with |
| `BitSetGraphs.RoundBounds` | src/main/java/util/graph/BitSetGraph.java:149-151 | one round lies between one step of neighbours (`Grow`) and the vertices reachable from its start |
| `BitSetGraphs.RoundsCoverHops` | src/main/java/util/graph/BitSetGraph.java:146-152 | `k` rounds hold at least the vertices within `k` steps of the start |
| `BitSetGraphs.RoundsReachable` | src/main/java/util/graph/BitSetGraph.java:146-152 | `k` rounds hold only vertices reachable from the start |
| `BitSetGraphs.VisitorBounds` | src/main/java/util/graph/BitSetGraph.java:144-152 | a seed's visitor holds its ball of radius `distance` and only vertices reachable from the seed |
| `BitSetGraphs.CoveredByVisitors` | src/main/java/util/graph/BitSetGraph.java:137-154 | the visited set is exactly the union of the visitors of the seeds picked so far |
| `BitSetGraphs.GreedySeedsBound` | src/main/java/util/graph/BitSetGraph.java:133-156 | greedy seeds that cover the graph are distinct, at most one per vertex, and absent only for the empty graph |
| `BitSetGraphs.SeedsSpread` | src/main/java/util/graph/BitSetGraph.java:133-156 | greedy covering seeds lie more than `distance` steps from every earlier seed, and every vertex is reachable from some seed |
| `BitSetGraphs.SeedStep` | src/main/java/util/graph/BitSetGraph.java:138-154 | picking an unvisited vertex keeps the seeds greedy, adds its visitor to the visited set and strictly enlarges it |
| `BitSetGraphs.PathOfThreeRoundFromOne` | src/main/java/util/graph/BitSetGraph.java:149-151 | on the path 1-2-3 one round from {1} reaches 3, because the bit 2 it adds lands after the cursor |
| `BitSetGraphs.PathOfThreeRoundFromThree` | src/main/java/util/graph/BitSetGraph.java:149-151 | on the path 1-2-3 one round from {3} gives {2, 3}: the bit 2 lands before the cursor, so 3 is read twice and 2 never |
| `BitSetGraphs.PathOfThreeGrow` | src/main/java/util/graph/BitSetGraph.java:149-151 | one step of neighbours from {1} on the path 1-2-3 is only {1, 2} |
| `BitSetGraphs.PathOfThreeSeeds` | src/main/java/util/graph/BitSetGraph.java:133-156 | with distance 1 on the path 1-2-3 the single seed 1 covers every vertex, although 3 is outside its ball; seed 3 alone does not cover 1 |
| `BitSetGraphs.ArcsSymmetric` | src/main/java/util/graph/BitSetGraph.java:77-90 | on a symmetric graph there are as many arcs from block a to b as from b to a |
| `BitSetGraphs.CellsExactly` | src/main/java/util/graph/BitSetGraph.java:73-79 | the row-major loop visits exactly the cells (a, b) with a <= b in the upper triangle, up to the current one |
| `BitSetGraphs.MetaEdgesAre` | src/main/java/util/graph/BitSetGraph.java:88-92 | a meta-edge is added for a visited cell iff arcs cross between its blocks |
| `BitSetGraphs.EdgeSizesAt` | src/main/java/util/graph/BitSetGraph.java:88-95 | an edge size is stored under the canonical key iff arcs cross, and it is half their number |
| `BitSetGraphs.OverlapsAre` | src/main/java/util/graph/BitSetGraph.java:79-87 | an overlap is recorded iff the blocks are distinct and share members, with the number they share |
| `BitSetGraphs.JoinCell` | src/main/java/util/graph/BitSetGraph.java:66-120 | for any two blocks, the joined graph links them iff arcs cross; the size is half the crossings; the overlap is recorded iff they are distinct and intersect |
| `BitSetGraphs.JoinResult.SizeOfVertex` | src/main/java/util/graph/BitSetGraph.java:100-102 | the size is the stored block size, and the lookup fails for an index with no block |
| `BitSetGraphs.JoinResult.SizeOfEdge` | src/main/java/util/graph/BitSetGraph.java:104-110 | 0 when no size is stored under the edge's canonical index pair |
| `BitSetGraphs.JoinEdgeSize` | src/main/java/util/graph/BitSetGraph.java:91-94 | `size(e)` of the intended lookup is the stored `count / 2`, half the arcs between the two blocks, whichever order the edge names them in |
| `BitSetGraphs.PairEdgeSizeHalved` | src/main/java/util/graph/BitSetGraph.java:91-94 | for the single edge 1-2 split into blocks {1} and {2}, join adds the meta-edge but records size 0 |
| `BitSetGraphs.BlockEdgesBetweenBlocks` | src/main/java/util/graph/Join.java:13-16 | between two disjoint blocks the number of edges is the number of arcs from one to the other, none counted twice, symmetric, and positive iff join adds the meta-edge |
| `BitSetGraphs.LookupAsWritten` | src/main/java/util/graph/BitSetGraph.java:104-110 | a size is found iff some stored key has the same hash and passes `e.equals(key)`, and it is the value of the first such entry |
| `BitSetGraphs.PathLoopSizeAsWritten` | src/test/java/util/graph/GraphTest.java:86 | in testJoin, `size(edge(0, 0))` and `size(edge(1, 1))` as written find their entry and answer 1 in every bucket order |
| `BitSetGraphs.NonLoopSizeLost` | src/main/java/util/graph/BitSetGraph.java:104-110 | with the `Edge.equals` as written, no edge between two different blocks is ever found |
| `BitSetGraphs.PathEdgeSizeLost` | src/test/java/util/graph/GraphTest.java:69-87 | in the testJoin graph one arc pair joins the two blocks, yet `size(edge(0, 1))` as written finds nothing |
| `BitSetGraphs.PathJoinCounts` | src/test/java/util/graph/GraphTest.java:79-82 | the joined graph of testJoin has 2 vertices and 2 edges |
| `BitSetGraphs.PathBlockSizes` | src/test/java/util/graph/GraphTest.java:83-84 | both blocks of testJoin have size 2 |
| `BitSetGraphs.PathOverlaps` | src/test/java/util/graph/GraphTest.java:85 | testJoin records exactly one overlap, of one shared vertex |
| `BitSetGraphs.PathLoopSize` | src/test/java/util/graph/GraphTest.java:86 | the loop of block 0 has size 1 |
| `BitSetGraphs.BitSetGraph.constructor` | src/main/java/util/graph/BitSetGraph.java:15 | a new graph is empty and symmetric |
| `BitSetGraphs.BitSetGraph.AddEdge` | src/main/java/util/graph/BitSetGraph.java:18-26 | the new adjacency is `AddEdgeTo` of the old one, and symmetry is preserved |
| `BitSetGraphs.BitSetGraph.DegreeOf` | src/main/java/util/graph/BitSetGraph.java:29-31 | the neighbour count of a present vertex; a lookup failure for an absent one |
| `BitSetGraphs.BitSetGraph.NeighborsOf` | src/main/java/util/graph/BitSetGraph.java:34-38 | exactly the neighbours, each once, in the bitmap's order (ascending as unsigned 32-bit ints), as vertices of this graph; a lookup failure for an absent vertex |
| `BitSetGraphs.BitSetGraph.NumEdges` | src/main/java/util/graph/BitSetGraph.java:41-45 | the cardinalities summed with `int` wrap-around and halved by `int` division (0 for the empty graph), i.e. `NumEdgesInt` |
| `BitSetGraphs.NumEdgesInt` | src/main/java/util/graph/BitSetGraph.java:41-45 | while the degree sum fits in an `int`, `numEdges` is the degree sum halved, the number of edges |
| `BitSetGraphs.NumEdgesWraps` | src/main/java/util/graph/BitSetGraph.java:41-45 | with more than 2^31 - 1 arcs (and fewer than 2^32 - 1) the `int` sum wraps and `numEdges` is negative |
| `BitSetGraphs.BitSetGraph.NumVertices` | src/main/java/util/graph/BitSetGraph.java:48-50 | the number of vertex keys |
| `BitSetGraphs.BitSetGraph.Optimize` | src/main/java/util/graph/BitSetGraph.java:53-58 | the adjacency is unchanged |
| `BitSetGraphs.BitSetGraph.Vertex` | src/main/java/util/graph/BitSetGraph.java:61-63 | a vertex with the given index hosted by this graph |
| `BitSetGraphs.BitSetGraph.VertexSet` | src/main/java/util/graph/BitSetGraph.java:123-125 | exactly the vertices of the keys |
| `BitSetGraphs.BitSetGraph.Edge` | src/main/java/util/graph/BitSetGraph.java:128-130 | the edge of this graph whose source has the larger index |
| `BitSetGraphs.BitSetGraph.SelectSeeds` | src/main/java/util/graph/BitSetGraph.java:133-156 | fails iff `distance < 1`; otherwise every seed was unvisited when picked and the visitors of the seeds cover every vertex |
| `BitSetGraphs.BitSetGraph.Visit` | src/main/java/util/graph/BitSetGraph.java:144-152 | the visitor is `distance` rounds of or-ing in neighbours while iterating, starting from the seed |
| `BitSetGraphs.BitSetGraph.OrNeighbours` | src/main/java/util/graph/BitSetGraph.java:149-151 | one round is `Round`: the loop reads position `k` of the visitor's current contents until `k` passes the end, so it also reads bits or-ed in during the round |
| `BitSetGraphs.BitSetGraph.CutList` | src/main/java/util/graph/BitSetGraph.java:77-78 | fails iff a member is not a vertex; otherwise counting its entries in any block counts the arcs into that block |
| `BitSetGraphs.JoinCapacity` | src/main/java/util/graph/BitSetGraph.java:69-70 | the `edgeSize` capacity `n * (n - 1) / 2` in `int` arithmetic is the number of block pairs for up to 46341 blocks |
| `BitSetGraphs.JoinCapacityWraps` | src/main/java/util/graph/BitSetGraph.java:69-70 | from 46342 to 65536 blocks the capacity wraps to a negative `int` |
| `BitSetGraphs.PairsFit` | src/main/java/util/graph/BitSetGraph.java:69-70 | up to 46341 blocks `n * (n - 1)` does not overflow an `int` |
| `BitSetGraphs.BitSetGraph.Join` | src/main/java/util/graph/BitSetGraph.java:66-120 | fails iff the `edgeSize` capacity is negative (`IllegalArgument`, the `HashMap` constructor's exception) or a block holds a non-vertex (a lookup failure); otherwise a fresh symmetric graph with one meta-edge per crossing cell, block sizes, halved edge sizes and overlaps over all cells |
| `BitSetGraphs.BitSetGraph.JoinRow` | src/main/java/util/graph/BitSetGraph.java:79-96 | one row extends the sizes, overlaps and joined graph from the cells before row i to those before row i + 1 |
| `BitSetGraphs.VertexDegree` | src/main/java/util/graph/Vertex.java:26-28 | `degree()` is the host graph's neighbour count of the index |
| `BitSetGraphs.VertexNeighbors` | src/main/java/util/graph/Vertex.java:20-22 | `neighbors()` returns the host graph's neighbours of the index |
| `Graphs.CutCountLoopFree` | src/main/java/util/graph/Graph.java:110-114 | on a graph without loops, `cutS` counts exactly the arcs leaving the prefix |
| `Graphs.CutCountsLoops` | src/main/java/util/graph/Graph.java:110-114 | a self-loop is counted as leaving the block although no arc leaves it |
| `Graphs.CutStep` | src/main/java/util/graph/Graph.java:112-114 | adding a vertex changes the cut count by its neighbours outside the block minus those inside |
| `Graphs.SweepStep` | src/main/java/util/graph/Graph.java:110-115 | one iteration moves `volS`, `cutS` and the block to their values for the next prefix |
| `Graphs.RunningStep` | src/main/java/util/graph/Graph.java:110-115 | the running volume, cut count and block stay those of the current prefix |
| `Graphs.BestAdvance` | src/main/java/util/graph/Graph.java:115-119 | the strict `<` keeps the earliest prefix of least conductance as the best |
| `Graphs.BestStep` | src/main/java/util/graph/Graph.java:115-119 | one comparison keeps the best prefix so far consistent with all prefixes seen |
| `Graphs.SweepEnd` | src/main/java/util/graph/Graph.java:103-121 | after the loop the input was usable, the best block is the best prefix, and it holds the first vertex |
| `Graphs.Sweep` | src/main/java/util/graph/Graph.java:103-121 | fails iff the list is empty (index 0) or a vertex is missing or has no neighbours; otherwise the block is the earliest prefix of least conductance below 1, or the first vertex alone, and holds the first vertex |
| `Graphs.Cut` | src/main/java/util/graph/Graph.java:159-164 | fails iff a member is not a vertex; otherwise exactly the neighbours of members that are not members |
| `Graphs.Conductance` | src/main/java/util/graph/Graph.java:166-169 | fails iff `cut` does; otherwise `\|cut\| / (2 * size + \|cut\|)` |
| `Graphs.CutBound` | src/main/java/util/graph/Graph.java:159-169 | the cut has at most as many vertices as arcs leave the block, and no more than the sweep's count |
| `Graphs.ConductanceBelowOne` | src/main/java/util/graph/Graph.java:166-169 | for a non-empty block of vertices, the conductance is defined, non-negative and below 1 |
| `Graphs.ConductanceZeroIffClosed` | src/main/java/util/graph/Graph.java:166-169 | the conductance is 0 iff no neighbour of the block lies outside it |
| `Graphs.ConductanceOfEmpty` | src/main/java/util/graph/Graph.java:166-169 | the empty block has conductance 0/0 |
| `Graphs.ConductanceUsesSize` | src/main/java/util/graph/Graph.java:115-168 | `conductance` (block size) and the sweep (volume) give different values for the middle of a 3-path |
| `Graphs.LessChain` | src/main/java/util/graph/Graph.java:116 | below a ratio that another is not below implies below that other |
| `Graphs.LessTransitive` | src/main/java/util/graph/Graph.java:116 | the ratio order is transitive |
| `Graphs.Kept` | src/main/java/util/graph/Graph.java:133-134 | the filter keeps no more lines than the file has |
| `Graphs.KeptAreLines` | src/main/java/util/graph/Graph.java:133-134 | a line is kept iff it is in the file and is neither empty nor starts with '%' |
| `Graphs.KeptAppend` | src/main/java/util/graph/Graph.java:133-134 | the filter works line by line: it distributes over concatenation |
| `Graphs.CommentsIgnored` | src/main/java/util/graph/Graph.java:133-134 | inserting a comment line anywhere changes nothing that is kept |
| `Graphs.IntPrefix` | src/main/java/util/graph/Graph.java:141-152 | the ints at the front of a line, stopping at the first non-int token |
| `Graphs.HeaderError` | src/main/java/util/graph/Graph.java:137-147 | the header passes iff it starts with two ints and its first format number, if any, is 0; a missing count is `NoSuchElement`, a non-int count `InputMismatch`, and a non-zero first format number is reported as unsupported |
| `Graphs.LineEdges` | src/main/java/util/graph/Graph.java:151-154 | line `v` adds `(v, n)` for each leading int `n`, in order |
| `Graphs.BodyEdgesAre` | src/main/java/util/graph/Graph.java:148-155 | the body adds (a, b) iff a numbers a body line from 1 and b is an int on that line |
| `Graphs.MetisNeighbours` | src/main/java/util/graph/Graph.java:148-155 | after loading, u neighbours v iff it did before or line v lists u or line u lists v |
| `Graphs.AddLine` | src/main/java/util/graph/Graph.java:152-154 | the graph gains exactly the edges of one line, in order |
| `Graphs.LoadBody` | src/main/java/util/graph/Graph.java:148-155 | the graph gains exactly the edges of the kept body lines |
| `Graphs.LoadMetis` | src/main/java/util/graph/Graph.java:132-157 | fails iff there is no header line or the header is bad, leaving the graph alone; otherwise returns the graph with exactly the file's edges added, still symmetric |

## Left out

- The PageRank-nibble push phase of `communityDetectionPpr` (Graph.java lines 76-102) is left out. It is floating point throughout. The double sort that orders the vertices is left out too. `Sweep` takes the ordered vertex list `sv` as its input.
- `Graphs.Sweep`: `cond` is an exact ratio, not a `double`, so prefixes whose conductances differ only by rounding may compare differently. `volS`, `cutS` and the METIS `vertexIndex` are unbounded, not 32-bit. The list is required to be duplicate-free, as a key set sorted by value is.
- The parallel overload of `communityDetectionPpr` and the parallel streams of `numEdges`, `optimize`, `cut` and `join` are not modelled. Every stream here is taken as sequential, which gives the same results for these reductions.
- `loadFrom`, file reading and `Scanner` tokenisation are left out. Lines arrive as the raw text (for the comment filter) plus tokens, each token an int or something else. A Java `int` overflow inside `nextInt` is not modelled.
- `Stream2.generate` is not modelled as a stream. Its two uses become `IntPrefix` (the ints of a line) and `Ascending` (bitmap iteration).
- RoaringBitmap compression, `runOptimize` and `trim` are not modelled. A bitmap is its set of ints.
- `BitSetGraphs.BitSetGraph.SelectSeeds`: HashMap key order is not modelled. Any unvisited vertex may be picked, and the contract holds for every choice.
- `BitSetGraphs.BitSetGraph.OrNeighbours`: the round reads position `k` of the sorted contents and re-reads the contents after each or. That is how RoaringBitmap iterates one array container that is updated in place (indices in one 65536-wide block, at most 4096 bits). For other layouts, which added bits get read depends on the container: a bitmap container copies each 64-bit word before reading it, and a conversion from array to bitmap keeps iterating the old container.
- `BitSetGraphs.BitSetGraph.Visit`: exact under the same condition as `OrNeighbours`. For other layouts the source's visitor lies between the ball of radius `distance` and the vertices reachable from the seed (`VisitorBounds`), and the model does not pin it down further.
- `BitSetGraphs.BitSetGraph.SelectSeeds`: the seeds depend on the visitors, so they are exact only under the same condition as `OrNeighbours`. `SeedsSpread` holds either way.
- `Graphs.Cut` and `BitSetGraphs.BitSetGraph.CutList`: which missing member a lookup failure names depends on iteration order. `Cut` reports the least one, and `CutList` one of them.
- `Block`, `Partition` and `Pprcd` are not part of this model. A block is a set of vertex indices and a partition a sequence of blocks.
- The "skip loops" remark on Graph.java line 86 is not implemented by the source and not modelled. The push phase is left out anyway.
- The tests that read fixture graph files (`testRead`, `testSelectSeeds`, `testCommunityDetection`, `testParallelCommunityDetection`) are not modelled, because the fixture files are not part of this model. `testVertex` and `testJoin` are.
- `BitSetGraphs.BitSetGraph.Join`: `join` stores `count / 2` for every cell, the diagonal included. The diagonal count already counts each internal edge twice, while loops count once. Off the diagonal each edge between the blocks is counted once, so halving loses half of them (see Findings). The model records the value as written.
- The JDK `HashMap` bucket layout and the hash spreading are not modelled. `LookupAsWritten` scans the entries in an arbitrary order and applies the hash and `equals` tests that `HashMap.get` applies.
- `BitSetGraphs.BitSetGraph.Join`: `edgeSize.put` is not modelled with the `equals` of `Edge`. `HashMap.put` uses the same test as `get`, so putting a loop key replaces the value of an earlier non-loop key with the same hash. For example, `edge(31, 31)` and `edge(32, 0)` both hash to 1953, and cell (0, 32) is visited before cell (31, 31). The model keeps one entry per cell, so `LookupAsWritten` describes `size` only for partitions without such collisions.
- `BitSetGraphs.BitSetGraph.Join`: `partition.size()` is taken to be the length of the block list; a Java list longer than 2^31 - 1 is not modelled.

## Findings

| source | as written | input that shows it | evidently intended | confidence | as-written member | corrected member |
|---|---|---|---|---|---|---|
| src/main/java/util/graph/Edge.java:36-44 | `equals` returns `s.equals(t)`: whether the receiver is a loop, ignoring the argument | `new Edge(v1, v2).equals(itself)` is false; a loop `(v3, v3)` equals `(v2, v1)` | equal when the canonical endpoint indices agree | not executed | `Edges.EqualsNotReflexive` | `Edges.SameEdgeIsUnorderedPair` |
| src/main/java/util/graph/BitSetGraph.java:104-110 | `size(e)` looks up `edgeSize` with that `equals`, so only loops are ever found | testJoin's partition: blocks {1,2} and {1,3} of the graph 1-2, 1-3; `size(edge(0, 1))` is 0 although one edge crosses | the stored size | not executed | `BitSetGraphs.NonLoopSizeLost` | `BitSetGraphs.JoinEdgeSize` |
| src/main/java/util/graph/BitSetGraph.java:91-94 | off the diagonal `size(e)` is stored as `count / 2`, though `count` already counts each edge between the blocks once | the single edge 1-2 with blocks {1} and {2}: join adds the meta-edge and stores size 0 | the number of edges between the blocks, as Join.java line 14 describes it | not executed | `BitSetGraphs.PairEdgeSizeHalved` | `BitSetGraphs.BlockEdgesBetweenBlocks` |
