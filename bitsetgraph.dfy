/**
 * The compressed-bitset adjacency store (BitSetGraph.java). The Java class
 * keeps a `HashMap<Vertex, RoaringBitmap>`; since `Vertex` equality and
 * hashing only look at the index, the map is keyed by the index here, and
 * each bitmap is the set of neighbour indices.
 */
module BitSetGraphs {

  import opened Errors
  import opened Bitmaps
  import Vertices
  import Edges

  /** vertex index -> neighbour indices */
  type Adjacency = map<int, set<int>>

  /**
   * The shape every graph built by `addEdge` has: a neighbour is itself a
   * vertex, and adjacency goes both ways.
   */
  ghost predicate Symmetric(adj: Adjacency)
  {
    forall v, u :: v in adj && u in adj[v] ==> u in adj && v in adj[u]
  }

  /** `vertices.getOrDefault(v, new RoaringBitmap())`, as contents. */
  function NeighbourSet(adj: Adjacency, v: int): set<int>
  {
    if v in adj then adj[v] else {}
  }

  /**
   * What `addEdge(source, target)` does to the map: `target` joins the
   * bitmap of `source` and `source` joins the bitmap of `target`; both
   * become vertices; no other bitmap changes.
   */
  function AddEdgeTo(adj: Adjacency, source: int, target: int): (r: Adjacency)
    ensures r.Keys == adj.Keys + {source, target}
    ensures r[source] == NeighbourSet(adj, source) + {target}
    ensures r[target] == NeighbourSet(adj, target) + {source}
    ensures forall v :: v in adj && v != source && v != target ==> r[v] == adj[v]
  {
    adj[source := NeighbourSet(adj, source) + {target}][target := NeighbourSet(adj, target) + {source}]
  }

  /** A run of `addEdge` calls, in order. */
  function AddEdges(adj: Adjacency, edges: seq<(int, int)>): Adjacency
  {
    if edges == [] then adj
    else
      var last := edges[|edges| - 1];
      AddEdgeTo(AddEdges(adj, edges[..|edges| - 1]), last.0, last.1)
  }

  /** The indices named by a run of `addEdge` calls. */
  function Endpoints(edges: seq<(int, int)>): set<int>
  {
    (set e | e in edges :: e.0) + (set e | e in edges :: e.1)
  }

  lemma AddEdgeKeepsSymmetry(adj: Adjacency, source: int, target: int)
    requires Symmetric(adj)
    ensures Symmetric(AddEdgeTo(adj, source, target))
  {
    var r := AddEdgeTo(adj, source, target);
    forall v, u | v in r && u in r[v] ensures u in r && v in r[u] {
      if v != source && v != target {
        assert u in adj[v];
      } else if u != source && u != target {
        assert u in NeighbourSet(adj, v) && u in adj[v];
      }
    }
  }

  /**
   * `addEdge` is idempotent and does not care about the order of its
   * arguments: after `addEdge(u, v)`, both `addEdge(u, v)` and
   * `addEdge(v, u)` change nothing.
   */
  lemma AddEdgeIdempotent(adj: Adjacency, u: int, v: int)
    ensures AddEdgeTo(AddEdgeTo(adj, u, v), u, v) == AddEdgeTo(adj, u, v)
    ensures AddEdgeTo(AddEdgeTo(adj, u, v), v, u) == AddEdgeTo(adj, u, v)
  {
    var once := AddEdgeTo(adj, u, v);
    assert AddEdgeTo(once, u, v) == once;
    assert AddEdgeTo(once, v, u) == once;
  }

  /** One `addEdge(s, t)` call joins exactly `s` and `t`, in both directions. */
  lemma AddEdgeToContents(adj: Adjacency, s: int, t: int, v: int, u: int)
    requires v in AddEdgeTo(adj, s, t)
    ensures u in AddEdgeTo(adj, s, t)[v] <==>
              (v in adj && u in adj[v]) || (v, u) == (s, t) || (u, v) == (s, t)
  {
  }

  /** A run of `addEdge` calls adds every index it names as a vertex, and nothing else. */
  lemma EndpointsSnoc(edges: seq<(int, int)>, e: (int, int))
    ensures Endpoints(edges + [e]) == Endpoints(edges) + {e.0, e.1}
  {
    var longer := edges + [e];
    assert forall x :: x in longer <==> x in edges || x == e;
  }

  lemma {:induction false} AddEdgesKeys(adj: Adjacency, edges: seq<(int, int)>)
    ensures AddEdges(adj, edges).Keys == adj.Keys + Endpoints(edges)
  {
    if edges != [] {
      var init := edges[..|edges| - 1];
      var last := edges[|edges| - 1];
      AddEdgesKeys(adj, init);
      assert edges == init + [last];
      EndpointsSnoc(init, last);
    } else {
      assert Endpoints(edges) == {};
    }
  }

  /**
   * After a run of `addEdge` calls, `u` is a neighbour of `v` exactly when
   * it was before or one of the calls joined `v` and `u`, in either order.
   */
  lemma {:induction false} AddEdgesNeighbours(adj: Adjacency, edges: seq<(int, int)>, v: int, u: int)
    requires v in AddEdges(adj, edges)
    ensures u in AddEdges(adj, edges)[v] <==>
              (v in adj && u in adj[v]) || (v, u) in edges || (u, v) in edges
  {
    if edges != [] {
      var init := edges[..|edges| - 1];
      var last := edges[|edges| - 1];
      var before := AddEdges(adj, init);
      assert AddEdges(adj, edges) == AddEdgeTo(before, last.0, last.1);
      AddEdgeToContents(before, last.0, last.1, v, u);
      if v in before {
        AddEdgesNeighbours(adj, init, v, u);
      } else {
        AddEdgesKeys(adj, init);
      }
      assert edges == init + [last];
      assert (v, u) in edges <==> (v, u) in init || (v, u) == last;
      assert (u, v) in edges <==> (u, v) in init || (u, v) == last;
    }
  }

  lemma {:induction false} AddEdgesKeepSymmetry(adj: Adjacency, edges: seq<(int, int)>)
    requires Symmetric(adj)
    ensures Symmetric(AddEdges(adj, edges))
  {
    if edges != [] {
      var last := edges[|edges| - 1];
      AddEdgesKeepSymmetry(adj, edges[..|edges| - 1]);
      AddEdgeKeepsSymmetry(AddEdges(adj, edges[..|edges| - 1]), last.0, last.1);
    }
  }

  // ---------------------------------------------------------------------
  // Degrees
  // ---------------------------------------------------------------------

  /**
   * How `addEdge(u, v)` changes the degree of `u`: up by one when `v` was
   * not yet a neighbour (the vertex may even be new), unchanged otherwise.
   */
  lemma DegreeAfterAddEdge(adj: Adjacency, u: int, v: int)
    ensures |AddEdgeTo(adj, u, v)[u]| ==
              |NeighbourSet(adj, u)| + (if v in NeighbourSet(adj, u) then 0 else 1)
  {
    var s := NeighbourSet(adj, u);
    if v !in s {
      assert |s + {v}| == |s| + 1;
    } else {
      assert s + {v} == s;
    }
  }

  /**
   * The scenario of testVertex: after `addEdge(1, 2); addEdge(2, 1)` on an
   * empty graph, vertex 1 has degree 1.
   */
  lemma DegreeAfterBothDirections()
    ensures 1 in AddEdgeTo(AddEdgeTo(map[], 1, 2), 2, 1)
    ensures |AddEdgeTo(AddEdgeTo(map[], 1, 2), 2, 1)[1]| == 1
  {
    AddEdgeIdempotent(map[], 1, 2);
    assert AddEdgeTo(map[], 1, 2)[1] == {2};
  }

  /** Sum of the bitmap cardinalities of the vertices in `vs`. */
  ghost function DegreeSum(adj: Adjacency, vs: set<int>): nat
    decreases |vs|
  {
    if vs == {} then 0
    else
      var v := Pick(vs);
      |NeighbourSet(adj, v)| + DegreeSum(adj, vs - {v})
  }

  /** The sum may be split at any vertex, not just the one `DegreeSum` picks. */
  lemma {:induction false} DegreeSumSplit(adj: Adjacency, vs: set<int>, v: int)
    requires v in vs
    ensures DegreeSum(adj, vs) == |NeighbourSet(adj, v)| + DegreeSum(adj, vs - {v})
    decreases |vs|
  {
    var w := Pick(vs);
    if w != v {
      DegreeSumSplit(adj, vs - {w}, v);
      DegreeSumSplit(adj, vs - {v}, w);
      assert vs - {w} - {v} == vs - {v} - {w};
    }
  }

  /** Changing the bitmap of one vertex `v` moves the sum by the change in size. */
  lemma {:induction false} DegreeSumUpdate(adj: Adjacency, vs: set<int>, v: int, s: set<int>)
    ensures DegreeSum(adj[v := s], vs) ==
              DegreeSum(adj, vs) + (if v in vs then |s| - |NeighbourSet(adj, v)| else 0)
    decreases |vs|
  {
    if vs != {} {
      var w := Pick(vs);
      DegreeSumUpdate(adj, vs - {w}, v, s);
    }
  }

  /** `numEdges`: the degree sum halved; an empty map gives 0. */
  ghost function NumEdgesOf(adj: Adjacency): nat
  {
    DegreeSum(adj, adj.Keys) / 2
  }

  /**
   * What `numEdges` returns: the degree sum added up in `int` arithmetic,
   * halved by `int` division. While the degree sum fits in an `int` this
   * is the number of edges.
   */
  ghost function NumEdgesInt(adj: Adjacency): (r: int)
    ensures DegreeSum(adj, adj.Keys) <= Edges.MaxInt ==> r == NumEdgesOf(adj)
  {
    var sum := DegreeSum(adj, adj.Keys);
    if sum <= Edges.MaxInt then Edges.Wrap32InRange(sum); Edges.Half(Edges.Wrap32(sum))
    else Edges.Half(Edges.Wrap32(sum))
  }

  /**
   * Past 2^31 - 1 arcs the sum wraps to a negative `int`, and `numEdges`
   * reports a negative number of edges.
   */
  lemma NumEdgesWraps(adj: Adjacency)
    requires Edges.MaxInt < DegreeSum(adj, adj.Keys) < 0x1_0000_0000 - 1
    ensures NumEdgesInt(adj) < 0
  {
    var sum: int := DegreeSum(adj, adj.Keys);
    Edges.Wrap32InRange(sum - 0x1_0000_0000);
    Edges.Wrap32Congruent(sum, sum - 0x1_0000_0000);
  }

  /** An index that is not a vertex adds nothing to a degree sum. */
  lemma DegreeSumAbsent(adj: Adjacency, vs: set<int>, w: int)
    requires w !in adj && w !in vs
    ensures DegreeSum(adj, vs + {w}) == DegreeSum(adj, vs)
  {
    DegreeSumSplit(adj, vs + {w}, w);
    assert vs + {w} - {w} == vs;
  }

  /** Adding an index to a set that already holds it changes nothing. */
  lemma SizeWith(s: set<int>, x: int)
    ensures |s + {x}| == |s| + (if x in s then 0 else 1)
  {
    if x in s {
      assert s + {x} == s;
    }
  }

  /** Naming an index already named, or one that is not a vertex, adds nothing to a degree sum. */
  lemma DegreeSumWithIndex(adj: Adjacency, vs: set<int>, w: int)
    requires w in vs || w !in adj
    ensures DegreeSum(adj, vs + {w}) == DegreeSum(adj, vs)
  {
    if w in vs {
      assert vs + {w} == vs;
    } else {
      DegreeSumAbsent(adj, vs, w);
    }
  }

  /** Naming two more indices adds nothing to the degree sum of a map. */
  lemma DegreeSumWithEnds(adj: Adjacency, u: int, v: int)
    ensures DegreeSum(adj, adj.Keys + {u, v}) == DegreeSum(adj, adj.Keys)
  {
    DegreeSumWithIndex(adj, adj.Keys, u);
    DegreeSumWithIndex(adj, adj.Keys + {u}, v);
    assert adj.Keys + {u} + {v} == adj.Keys + {u, v};
  }

  /** Two successive bitmap replacements, as `addEdge` performs them. */
  lemma DegreeSumTwoUpdates(adj: Adjacency, keys: set<int>, u: int, v: int, su: set<int>, sv: set<int>)
    requires u in keys && v in keys
    ensures DegreeSum(adj[u := su][v := sv], keys) ==
              DegreeSum(adj, keys) + |su| - |NeighbourSet(adj, u)| +
              |sv| - (if u == v then |su| else |NeighbourSet(adj, v)|)
  {
    DegreeSumUpdate(adj, keys, u, su);
    DegreeSumUpdate(adj[u := su], keys, v, sv);
  }

  /**
   * How `addEdge(u, v)` changes the degree sum over all vertices: not at
   * all when the edge is already there, by one for a new self-loop and by
   * two for any other new edge.
   */
  lemma DegreeSumAfterAddEdge(adj: Adjacency, u: int, v: int)
    requires Symmetric(adj)
    ensures DegreeSum(AddEdgeTo(adj, u, v), AddEdgeTo(adj, u, v).Keys) ==
              DegreeSum(adj, adj.Keys) +
              (if u in adj && v in adj[u] then 0 else if u == v then 1 else 2)
  {
    var keys := adj.Keys + {u, v};
    var su, sv := NeighbourSet(adj, u) + {v}, NeighbourSet(adj, v) + {u};
    assert AddEdgeTo(adj, u, v) == adj[u := su][v := sv];
    DegreeSumWithEnds(adj, u, v);
    DegreeSumTwoUpdates(adj, keys, u, v, su, sv);
    SizeWith(NeighbourSet(adj, u), v);
    SizeWith(NeighbourSet(adj, v), u);
    SymmetricPair(adj, u, v);
  }

  /** In a symmetric map, `v` is a neighbour of `u` exactly when `u` is one of `v`. */
  lemma SymmetricPair(adj: Adjacency, u: int, v: int)
    requires Symmetric(adj)
    ensures v in NeighbourSet(adj, u) <==> u in NeighbourSet(adj, v)
  {
    if v in NeighbourSet(adj, u) {
      assert u in adj && v in adj[u];
    }
    if u in NeighbourSet(adj, v) {
      assert v in adj && u in adj[v];
    }
  }

  /**
   * `numEdges` after `addEdge(u, v)` with `u != v`: one more when the edge
   * is new, the same when it was already there.
   */
  lemma NumEdgesAfterAddEdge(adj: Adjacency, u: int, v: int)
    requires Symmetric(adj) && u != v
    ensures NumEdgesOf(AddEdgeTo(adj, u, v)) ==
              NumEdgesOf(adj) + (if u in adj && v in adj[u] then 0 else 1)
  {
    DegreeSumAfterAddEdge(adj, u, v);
  }

  // ---------------------------------------------------------------------
  // Reachability
  // ---------------------------------------------------------------------

  /** All neighbours of the vertices in `x`. */
  function Neighbourhood(adj: Adjacency, x: set<int>): set<int>
  {
    set v, u | v in x && v in adj && u in adj[v] :: u
  }

  /** `x` with the neighbours of each of its members. */
  function Grow(adj: Adjacency, x: set<int>): set<int>
  {
    x + Neighbourhood(adj, x)
  }

  /** `k` rounds of `Grow` starting from `x`. */
  function Hops(adj: Adjacency, x: set<int>, k: nat): set<int>
  {
    if k == 0 then x else Grow(adj, Hops(adj, x, k - 1))
  }

  /** The vertices within `distance` steps of `seed`. */
  function Ball(adj: Adjacency, seed: int, distance: nat): set<int>
  {
    Hops(adj, {seed}, distance)
  }

  /** Consecutive entries of `p` are adjacent. */
  ghost predicate IsWalk(adj: Adjacency, p: seq<int>)
  {
    forall i :: 0 <= i < |p| - 1 ==> p[i] in adj && p[i + 1] in adj[p[i]]
  }

  /** `p` is a walk from some vertex of `x` to `target`. */
  ghost predicate WalkInto(adj: Adjacency, x: set<int>, p: seq<int>, target: int)
  {
    |p| > 0 && p[0] in x && p[|p| - 1] == target && IsWalk(adj, p)
  }

  lemma WalkExtend(adj: Adjacency, x: set<int>, p: seq<int>, y: int, target: int)
    requires WalkInto(adj, x, p, y) && y in adj && target in adj[y]
    ensures WalkInto(adj, x, p + [target], target)
  {
  }

  lemma WalkShorten(adj: Adjacency, x: set<int>, p: seq<int>, target: int)
    requires WalkInto(adj, x, p, target) && |p| > 1
    ensures WalkInto(adj, x, p[..|p| - 1], p[|p| - 2])
    ensures p[|p| - 2] in adj && target in adj[p[|p| - 2]]
  {
  }

  /**
   * `k` rounds reach exactly the vertices at the end of a walk of at most
   * `k` steps from the start set.
   */
  lemma {:induction false} HopsAreWalks(adj: Adjacency, x: set<int>, k: nat, target: int)
    ensures target in Hops(adj, x, k) <==> exists p :: WalkInto(adj, x, p, target) && |p| <= k + 1
  {
    if k == 0 {
      if target in x {
        assert WalkInto(adj, x, [target], target);
      }
    } else {
      var prev := Hops(adj, x, k - 1);
      if target in Hops(adj, x, k) {
        if target in prev {
          HopsAreWalks(adj, x, k - 1, target);
        } else {
          var y :| y in prev && y in adj && target in adj[y];
          HopsAreWalks(adj, x, k - 1, y);
          var p :| WalkInto(adj, x, p, y) && |p| <= k;
          WalkExtend(adj, x, p, y, target);
        }
      }
      if exists p :: WalkInto(adj, x, p, target) && |p| <= k + 1 {
        var p :| WalkInto(adj, x, p, target) && |p| <= k + 1;
        if |p| <= k {
          HopsAreWalks(adj, x, k - 1, target);
        } else {
          WalkShorten(adj, x, p, target);
          HopsAreWalks(adj, x, k - 1, p[|p| - 2]);
          assert p[|p| - 2] in prev;
        }
      }
    }
  }

  /** Growing never drops a vertex. */
  lemma {:induction false} HopsContainStart(adj: Adjacency, x: set<int>, k: nat)
    ensures x <= Hops(adj, x, k)
  {
    if k > 0 {
      HopsContainStart(adj, x, k - 1);
    }
  }

  /** Growing from vertices of a symmetric map never leaves its vertices. */
  lemma {:induction false} HopsInGraph(adj: Adjacency, x: set<int>, k: nat)
    requires Symmetric(adj) && x <= adj.Keys
    ensures x <= Hops(adj, x, k) <= adj.Keys
  {
    if k > 0 {
      HopsInGraph(adj, x, k - 1);
    }
  }

  // ---------------------------------------------------------------------
  // One round of the visitor: forEach over a bitmap that grows under it
  // ---------------------------------------------------------------------

  /**
   * The rest of one round of `visitor.forEach(v -> visitor.or(bitmap of v))`
   * once the iteration has reached position `k` and the visitor holds `y`.
   * The iteration reads the member at position `k` of the current
   * contents, or-s in its bitmap and moves on to position `k + 1` of the
   * contents as they now are, until the position passes the end. A bit
   * or-ed in before position `k` shifts the later members one place on,
   * so a member may be read twice and a bit added behind the cursor may
   * still be read. The members of a symmetric graph all have a bitmap,
   * so no lookup fails.
   */
  function RoundFrom(adj: Adjacency, y: set<int>, k: nat): (r: set<int>)
    requires Symmetric(adj) && y <= adj.Keys
    ensures y <= r <= adj.Keys
    decreases |adj.Keys| - k
  {
    if k >= |y| then y
    else
      ReadStep(adj, y, k);
      RoundFrom(adj, y + adj[Select(y, k)], k + 1)
  }

  /** The member read at a position inside the contents is a vertex, and its bitmap stays in the graph. */
  lemma ReadStep(adj: Adjacency, y: set<int>, k: nat)
    requires Symmetric(adj) && y <= adj.Keys && k < |y|
    ensures k < |adj.Keys|
    ensures var v := Select(y, k); v in y && v in adj && y + adj[v] <= adj.Keys
  {
    SubsetCardinality(y, adj.Keys);
    NeighboursInGraph(adj, Select(y, k));
  }

  /** In a symmetric graph every neighbour is itself a vertex. */
  lemma NeighboursInGraph(adj: Adjacency, v: int)
    requires Symmetric(adj) && v in adj
    ensures adj[v] <= adj.Keys
  {
    forall u | u in adj[v] ensures u in adj {
      assert v in adj && u in adj[v];
    }
  }

  /** One whole round, starting at the first position of `x`. */
  function Round(adj: Adjacency, x: set<int>): (r: set<int>)
    requires Symmetric(adj) && x <= adj.Keys
    ensures x <= r <= adj.Keys
  {
    RoundFrom(adj, x, 0)
  }

  /**
   * Every member the round started with is read: bits or-ed in only push
   * a member not yet read to a later position, never to an earlier one,
   * so it is still ahead of the cursor.
   */
  lemma {:induction false} RoundFromGrows(adj: Adjacency, x: set<int>, y: set<int>, k: nat)
    requires Symmetric(adj) && x <= y <= adj.Keys
    requires forall u :: u in x && !(adj[u] <= y) ==> Position(y, u) >= k
    ensures Grow(adj, x) <= RoundFrom(adj, y, k)
    decreases |adj.Keys| - k
  {
    if k >= |y| {
      RoundDone(adj, x, y, k);
    } else {
      ReadStep(adj, y, k);
      ReadPushesOn(adj, x, y, k);
      RoundFromGrows(adj, x, y + adj[Select(y, k)], k + 1);
    }
  }

  /** Once the cursor has passed the end, every starting member has been read. */
  lemma RoundDone(adj: Adjacency, x: set<int>, y: set<int>, k: nat)
    requires x <= y <= adj.Keys && k >= |y|
    requires forall u :: u in x && !(adj[u] <= y) ==> Position(y, u) >= k
    ensures Grow(adj, x) <= y
  {
    forall u | u in x ensures adj[u] <= y {
      PositionBound(y, u);
    }
    forall w | w in Neighbourhood(adj, x) ensures w in y {
      var u :| u in x && u in adj && w in adj[u];
    }
  }

  /**
   * Reading position `k` settles the member there; every starting member
   * still unread was after it and stays after it.
   */
  lemma ReadPushesOn(adj: Adjacency, x: set<int>, y: set<int>, k: nat)
    requires Symmetric(adj) && x <= y <= adj.Keys && k < |y|
    requires forall u :: u in x && !(adj[u] <= y) ==> Position(y, u) >= k
    ensures var y' := y + adj[Select(y, k)];
      forall u :: u in x && !(adj[u] <= y') ==> Position(y', u) >= k + 1
  {
    var v := Select(y, k);
    ReadStep(adj, y, k);
    SelectPosition(y, k);
    var y' := y + adj[v];
    forall u | u in x && !(adj[u] <= y') ensures Position(y', u) >= k + 1 {
      PositionsDiffer(y, u, v);
      PositionGrows(y, y', u);
    }
  }

  /** What a round adds is reachable from what the visitor already held. */
  lemma {:induction false} RoundFromReachable(adj: Adjacency, s: set<int>, y: set<int>, k: nat)
    requires Symmetric(adj) && y <= adj.Keys
    requires forall w :: w in y ==> exists p :: WalkInto(adj, s, p, w)
    ensures forall w :: w in RoundFrom(adj, y, k) ==> exists p :: WalkInto(adj, s, p, w)
    decreases |adj.Keys| - k
  {
    if k < |y| {
      var v := Select(y, k);
      ReadStep(adj, y, k);
      forall w | w in y + adj[v] ensures exists p :: WalkInto(adj, s, p, w) {
        if w !in y {
          var p :| WalkInto(adj, s, p, v);
          WalkExtend(adj, s, p, v, w);
        }
      }
      RoundFromReachable(adj, s, y + adj[v], k + 1);
    }
  }

  /**
   * A round or-s in the bitmap of every member it started with, and
   * everything in the visitor afterwards is reachable from those members.
   */
  lemma RoundBounds(adj: Adjacency, x: set<int>)
    requires Symmetric(adj) && x <= adj.Keys
    ensures Grow(adj, x) <= Round(adj, x)
    ensures forall w :: w in Round(adj, x) ==> exists p :: WalkInto(adj, x, p, w)
  {
    RoundFromGrows(adj, x, x, 0);
    StartReachable(adj, x);
    RoundFromReachable(adj, x, x, 0);
  }

  /** Every vertex of the start set is reached by the walk of length one. */
  lemma StartReachable(adj: Adjacency, x: set<int>)
    ensures forall w :: w in x ==> exists p :: WalkInto(adj, x, p, w)
  {
    forall w | w in x ensures exists p :: WalkInto(adj, x, p, w) {
      assert WalkInto(adj, x, [w], w);
    }
  }

  /** `k` rounds starting from `x`. */
  function Rounds(adj: Adjacency, x: set<int>, k: nat): (r: set<int>)
    requires Symmetric(adj) && x <= adj.Keys
    ensures x <= r <= adj.Keys
  {
    if k == 0 then x else Round(adj, Rounds(adj, x, k - 1))
  }

  /** The visitor bitmap of one seed after `distance` rounds. */
  function Visitor(adj: Adjacency, seed: int, distance: nat): (r: set<int>)
    requires Symmetric(adj) && seed in adj
    ensures seed in r && r <= adj.Keys
  {
    Rounds(adj, {seed}, distance)
  }

  lemma GrowMonotone(adj: Adjacency, x: set<int>, y: set<int>)
    requires x <= y
    ensures Grow(adj, x) <= Grow(adj, y)
  {
  }

  /** After `k` rounds the visitor holds at least the vertices within `k` steps of the start. */
  lemma {:induction false} RoundsCoverHops(adj: Adjacency, x: set<int>, k: nat)
    requires Symmetric(adj) && x <= adj.Keys
    ensures Hops(adj, x, k) <= Rounds(adj, x, k)
  {
    if k > 0 {
      var prev := Rounds(adj, x, k - 1);
      RoundsCoverHops(adj, x, k - 1);
      GrowMonotone(adj, Hops(adj, x, k - 1), prev);
      RoundFromGrows(adj, prev, prev, 0);
    }
  }

  /** After `k` rounds the visitor holds only vertices reachable from the start. */
  lemma {:induction false} RoundsReachable(adj: Adjacency, x: set<int>, k: nat)
    requires Symmetric(adj) && x <= adj.Keys
    ensures forall w :: w in Rounds(adj, x, k) ==> exists p :: WalkInto(adj, x, p, w)
  {
    if k == 0 {
      StartReachable(adj, x);
    } else {
      RoundsReachable(adj, x, k - 1);
      RoundFromReachable(adj, x, Rounds(adj, x, k - 1), 0);
    }
  }

  /**
   * A seed's visitor holds its ball of radius `distance` and nothing it
   * cannot reach.
   */
  lemma VisitorBounds(adj: Adjacency, seed: int, distance: nat)
    requires Symmetric(adj) && seed in adj
    ensures Ball(adj, seed, distance) <= Visitor(adj, seed, distance)
    ensures forall w :: w in Visitor(adj, seed, distance) ==> exists p :: WalkInto(adj, {seed}, p, w)
  {
    RoundsCoverHops(adj, {seed}, distance);
    RoundsReachable(adj, {seed}, distance);
  }

  // ---------------------------------------------------------------------
  // Seeds
  // ---------------------------------------------------------------------

  /** The seeds are vertices of a symmetric graph, so each has a visitor. */
  ghost predicate SeedsInGraph(adj: Adjacency, seeds: seq<int>)
  {
    Symmetric(adj) && forall i :: 0 <= i < |seeds| ==> seeds[i] in adj
  }

  /** The union of the visitors of `seeds`: the `visited` bitmap of selectSeeds. */
  function Covered(adj: Adjacency, seeds: seq<int>, distance: nat): (r: set<int>)
    requires SeedsInGraph(adj, seeds)
    ensures r <= adj.Keys
  {
    if seeds == [] then {}
    else Covered(adj, seeds[..|seeds| - 1], distance) + Visitor(adj, seeds[|seeds| - 1], distance)
  }

  lemma {:induction false} CoveredByVisitors(adj: Adjacency, seeds: seq<int>, distance: nat, x: int)
    requires SeedsInGraph(adj, seeds)
    ensures x in Covered(adj, seeds, distance) <==>
              exists i :: 0 <= i < |seeds| && x in Visitor(adj, seeds[i], distance)
  {
    if seeds != [] {
      var init := seeds[..|seeds| - 1];
      CoveredByVisitors(adj, init, distance, x);
      if exists i :: 0 <= i < |seeds| && x in Visitor(adj, seeds[i], distance) {
        var i :| 0 <= i < |seeds| && x in Visitor(adj, seeds[i], distance);
        if i < |init| {
          assert init[i] == seeds[i];
        }
      }
      if exists i :: 0 <= i < |init| && x in Visitor(adj, init[i], distance) {
        var i :| 0 <= i < |init| && x in Visitor(adj, init[i], distance);
        assert seeds[i] == init[i];
      }
    }
  }

  /**
   * What selectSeeds promises of its seeds: each is a vertex, and each was
   * still unvisited when it was chosen, that is, outside the visitor of
   * every earlier seed.
   */
  ghost predicate GreedySeeds(adj: Adjacency, seeds: seq<int>, distance: nat)
  {
    SeedsInGraph(adj, seeds) &&
    forall i, j :: 0 <= i < j < |seeds| ==> seeds[j] !in Visitor(adj, seeds[i], distance)
  }

  /**
   * Seeds chosen greedily whose visitors cover the graph are distinct, at
   * most as many as the vertices, and there are none exactly when the
   * graph is empty.
   */
  lemma GreedySeedsBound(adj: Adjacency, seeds: seq<int>, distance: nat)
    requires GreedySeeds(adj, seeds, distance)
    requires Covered(adj, seeds, distance) == adj.Keys
    ensures forall i, j :: 0 <= i < j < |seeds| ==> seeds[i] != seeds[j]
    ensures |seeds| <= |adj.Keys|
    ensures seeds == [] <==> adj == map[]
  {
    DistinctCardinality(seeds);
    var elements := set x | x in seeds;
    SubsetCardinality(elements, adj.Keys);
    if seeds != [] {
      assert seeds[0] in adj.Keys;
    } else {
      assert adj.Keys == {};
    }
  }

  /**
   * Greedy seeds covering the graph lie more than `distance` steps apart
   * (no seed is in the ball of an earlier one), and every vertex is
   * reachable from one of them.
   */
  lemma SeedsSpread(adj: Adjacency, seeds: seq<int>, distance: nat)
    requires GreedySeeds(adj, seeds, distance)
    requires Covered(adj, seeds, distance) == adj.Keys
    ensures forall i, j :: 0 <= i < j < |seeds| ==> seeds[j] !in Ball(adj, seeds[i], distance)
    ensures forall v :: v in adj ==> exists i, p :: 0 <= i < |seeds| && WalkInto(adj, {seeds[i]}, p, v)
  {
    forall i, j | 0 <= i < j < |seeds| ensures seeds[j] !in Ball(adj, seeds[i], distance) {
      VisitorBounds(adj, seeds[i], distance);
    }
    forall v | v in adj ensures exists i, p :: 0 <= i < |seeds| && WalkInto(adj, {seeds[i]}, p, v) {
      CoveredByVisitors(adj, seeds, distance, v);
      var i :| 0 <= i < |seeds| && v in Visitor(adj, seeds[i], distance);
      VisitorBounds(adj, seeds[i], distance);
      var p :| WalkInto(adj, {seeds[i]}, p, v);
    }
  }

  /**
   * One round of the outer loop of selectSeeds keeps its invariant: an
   * unvisited vertex is a valid next seed, and the visited set grows by
   * its visitor, strictly and within the graph.
   */
  lemma SeedStep(adj: Adjacency, picked: seq<int>, distance: nat, visited: set<int>, seed: int)
    requires GreedySeeds(adj, picked, distance) && visited == Covered(adj, picked, distance)
    requires seed in adj && seed !in visited
    ensures GreedySeeds(adj, picked + [seed], distance)
    ensures Covered(adj, picked + [seed], distance) == visited + Visitor(adj, seed, distance)
    ensures |visited| < |visited + Visitor(adj, seed, distance)|
  {
    var next := picked + [seed];
    assert next[..|picked|] == picked;
    forall i | 0 <= i < |picked| ensures seed !in Visitor(adj, picked[i], distance) {
      CoveredByVisitors(adj, picked, distance, seed);
    }
    assert forall i :: 0 <= i < |picked| ==> next[i] == picked[i];
    SubsetCardinality(visited, visited + Visitor(adj, seed, distance));
  }

  /** The path 1 - 2 - 3. */
  const PathOfThree: Adjacency := map[1 := {2}, 2 := {1, 3}, 3 := {2}]

  lemma PathOfThreeSymmetric()
    ensures Symmetric(PathOfThree)
  {
  }

  /** One read of a round: the member at position `k`, `v`, or-s in its bitmap. */
  lemma RoundFromStep(adj: Adjacency, y: set<int>, k: nat, v: int)
    requires Symmetric(adj) && y <= adj.Keys && v in y && Position(y, v) == k
    ensures v in adj && y + adj[v] <= adj.Keys
    ensures RoundFrom(adj, y, k) == RoundFrom(adj, y + adj[v], k + 1)
  {
    SelectUnique(y, k, v);
    ReadStep(adj, y, k);
  }

  /**
   * On the path 1 - 2 - 3 one round from {1} reaches 3: the bit 2 it or-s
   * in lands after the cursor, so the same round reads it too.
   */
  lemma PathOfThreeRoundFromOne()
    ensures Symmetric(PathOfThree)
    ensures Round(PathOfThree, {1}) == {1, 2, 3}
  {
    var adj := PathOfThree;
    PathOfThreeSymmetric();
    assert Preceding({1}, 1) == {};
    RoundFromStep(adj, {1}, 0, 1);
    assert {1} + adj[1] == {1, 2};
    assert Preceding({1, 2}, 2) == {1};
    RoundFromStep(adj, {1, 2}, 1, 2);
    assert {1, 2} + adj[2] == {1, 2, 3};
    assert Preceding({1, 2, 3}, 3) == {1, 2};
    RoundFromStep(adj, {1, 2, 3}, 2, 3);
    assert {1, 2, 3} + adj[3] == {1, 2, 3};
  }

  /**
   * From {3} the bit 2 lands before the cursor and pushes 3 to the next
   * position: 3 is read twice, 2 never, and 1 is not reached.
   */
  lemma PathOfThreeRoundFromThree()
    ensures Symmetric(PathOfThree)
    ensures Round(PathOfThree, {3}) == {2, 3}
  {
    var adj := PathOfThree;
    PathOfThreeSymmetric();
    assert Preceding({3}, 3) == {};
    RoundFromStep(adj, {3}, 0, 3);
    assert {3} + adj[3] == {2, 3};
    assert Preceding({2, 3}, 3) == {2};
    RoundFromStep(adj, {2, 3}, 1, 3);
    assert {2, 3} + adj[3] == {2, 3};
  }

  /** Without the bits added during the round, {1} would only grow to {1, 2}. */
  lemma PathOfThreeGrow()
    ensures Grow(PathOfThree, {1}) == {1, 2}
  {
    var adj := PathOfThree;
    assert 1 in {1} && 1 in adj && 2 in adj[1];
    forall u | u in Neighbourhood(adj, {1}) ensures u == 2 {
      var v :| v in {1} && v in adj && u in adj[v];
    }
  }

  /**
   * So selectSeeds(1) on the path may return the single seed 1, although
   * vertex 3 is two steps away from it; starting from 3 it needs a second
   * seed.
   */
  lemma PathOfThreeSeeds()
    ensures Symmetric(PathOfThree)
    ensures GreedySeeds(PathOfThree, [1], 1) && Covered(PathOfThree, [1], 1) == PathOfThree.Keys
    ensures 3 !in Ball(PathOfThree, 1, 1)
    ensures 1 !in Covered(PathOfThree, [3], 1)
  {
    PathOfThreeRoundFromOne();
    PathOfThreeRoundFromThree();
    PathOfThreeGrow();
    assert Covered(PathOfThree, [1], 1) == Visitor(PathOfThree, 1, 1);
    assert Covered(PathOfThree, [3], 1) == Visitor(PathOfThree, 3, 1);
    assert Ball(PathOfThree, 1, 1) == Grow(PathOfThree, {1});
  }

  /** The indices of a list of vertices. */
  function Indices<H>(vs: seq<Vertices.Vertex<H>>): (r: seq<int>)
    ensures |r| == |vs| && forall k :: 0 <= k < |vs| ==> r[k] == vs[k].index
  {
    seq(|vs|, k requires 0 <= k < |vs| => vs[k].index)
  }

  // ---------------------------------------------------------------------
  // Arcs between vertex sets, as counted by join
  // ---------------------------------------------------------------------

  /**
   * The arcs `(v, u)` from a vertex of `a` to a neighbour of it in `b`:
   * every edge between the two sets once for each direction it crosses.
   */
  function Arcs(adj: Adjacency, a: set<int>, b: set<int>): set<(int, int)>
  {
    set v, u | v in a && v in adj && u in adj[v] && u in b :: (v, u)
  }

  /** The pairs `(v, u)` for `u` in `x`: one per element. */
  lemma {:induction false} PairsFromCount(v: int, x: set<int>)
    ensures |set u | u in x :: (v, u)| == |x|
    decreases |x|
  {
    if x != {} {
      var w := Pick(x);
      PairsFromCount(v, x - {w});
      assert (set u | u in x :: (v, u)) == (set u | u in x - {w} :: (v, u)) + {(v, w)};
    } else {
      assert (set u | u in x :: (v, u)) == {};
    }
  }

  /** Adding a vertex `v` to the source set adds one arc per neighbour of `v` in `b`. */
  lemma ArcsAddSource(adj: Adjacency, a: set<int>, v: int, b: set<int>)
    requires v !in a && v in adj
    ensures |Arcs(adj, a + {v}, b)| == |Arcs(adj, a, b)| + |adj[v] * b|
  {
    var fromV := set u | u in adj[v] * b :: (v, u);
    assert Arcs(adj, a + {v}, b) == Arcs(adj, a, b) + fromV;
    assert Arcs(adj, a, b) * fromV == {};
    PairsFromCount(v, adj[v] * b);
  }

  /** Pairs with their components swapped: one per pair. */
  lemma {:induction false} SwappedCount(x: set<(int, int)>)
    ensures |set p | p in x :: (p.1, p.0)| == |x|
    decreases |x|
  {
    if x != {} {
      var w := Pick(x);
      SwappedCount(x - {w});
      assert (set p | p in x :: (p.1, p.0)) == (set p | p in x - {w} :: (p.1, p.0)) + {(w.1, w.0)};
    } else {
      assert (set p | p in x :: (p.1, p.0)) == {};
    }
  }

  /**
   * In a symmetric graph as many arcs go from `a` to `b` as from `b` to
   * `a`: the count join computes for cell `(i, j)` is the one row `j`
   * would compute for `(j, i)`.
   */
  lemma ArcsSymmetric(adj: Adjacency, a: set<int>, b: set<int>)
    requires Symmetric(adj)
    ensures |Arcs(adj, a, b)| == |Arcs(adj, b, a)|
  {
    assert Arcs(adj, b, a) == set p | p in Arcs(adj, a, b) :: (p.1, p.0);
    SwappedCount(Arcs(adj, a, b));
  }

  // ---------------------------------------------------------------------
  // join: the quotient graph of a partition
  // ---------------------------------------------------------------------

  /** `Overlap(vertex(i), vertex(j), overlap)`: an edge between blocks that share vertices. */
  datatype Overlap = Overlap(blocks: (int, int), overlap: int)

  /**
   * The initial capacity join asks of the `edgeSize` map for `n` blocks:
   * `n * (n - 1) / 2` in `int` arithmetic. Up to 46341 blocks it is the
   * number of block pairs.
   */
  function JoinCapacity(n: nat): (c: int)
    ensures n <= 46341 ==> c == n * (n - 1) / 2
  {
    var pairs := n * (n - 1);
    if n <= 46341 then PairsFit(n); Edges.Wrap32InRange(pairs); Edges.Half(Edges.Wrap32(pairs))
    else Edges.Half(Edges.Wrap32(pairs))
  }

  /** Up to 46341 blocks the product `n * (n - 1)` fits in an `int`. */
  lemma PairsFit(n: nat)
    requires n <= 46341
    ensures 0 <= n * (n - 1) <= Edges.MaxInt
  {
    PairsMonotone(n, 46341);
  }

  /** `n * (n - 1)` grows with `n`. */
  lemma PairsMonotone(a: nat, b: nat)
    requires a <= b
    ensures a * (a - 1) <= b * (b - 1)
  {
    if a > 0 {
      assert a * (a - 1) <= a * (b - 1) by { MultiplyMonotone(a, a - 1, b - 1); }
      assert a * (b - 1) <= b * (b - 1) by { MultiplyMonotone(b - 1, a, b); }
    }
  }

  /** Multiplying by a natural number keeps the order. */
  lemma MultiplyMonotone(k: nat, x: int, y: int)
    requires x <= y
    ensures k * x <= k * y
  {
    assert k * y - k * x == k * (y - x);
  }

  /**
   * From 46342 to 65536 blocks the product wraps to a negative `int`, the
   * capacity is negative, and the `HashMap` constructor rejects it.
   */
  lemma JoinCapacityWraps(n: nat)
    requires 46342 <= n <= 65536
    ensures JoinCapacity(n) < 0
  {
    var pairs := n * (n - 1);
    PairsMonotone(46342, n);
    PairsMonotone(n, 65536);
    Edges.Wrap32InRange(pairs - 0x1_0000_0000);
    Edges.Wrap32Congruent(pairs, pairs - 0x1_0000_0000);
  }

  /** Block `a` of the partition, empty outside it. */
  function Block(partition: seq<set<int>>, a: int): set<int>
  {
    if 0 <= a < |partition| then partition[a] else {}
  }

  /** Arcs from block `a` to block `b`: what join counts for cell `(a, b)`. */
  function Crossing(adj: Adjacency, partition: seq<set<int>>, a: int, b: int): nat
  {
    |Arcs(adj, Block(partition, a), Block(partition, b))|
  }

  /**
   * The cells of the upper triangle (diagonal included) of an `n` by `n`
   * matrix that join visits, in row-major order, before cell `(i, j)`.
   */
  function Cells(n: nat, i: nat, j: nat): seq<(int, int)>
    requires i <= j <= n
    decreases i, j
  {
    if j > i then Cells(n, i, j - 1) + [(i, j - 1)]
    else if i == 0 then []
    else Cells(n, i - 1, n)
  }

  /** The next cell of row `i` extends the list by one. */
  lemma CellsNext(n: nat, i: nat, j: nat)
    requires i <= j < n
    ensures Cells(n, i, j + 1) == Cells(n, i, j) + [(i, j)]
  {
  }

  lemma {:induction false} CellsExactly(n: nat, i: nat, j: nat, a: int, b: int)
    requires i <= j <= n
    ensures (a, b) in Cells(n, i, j) <==> 0 <= a <= b < n && (a < i || (a == i && b < j))
    decreases i, j
  {
    if j > i {
      CellsExactly(n, i, j - 1, a, b);
    } else if i > 0 {
      CellsExactly(n, i - 1, n, a, b);
    }
  }

  /** The weights of the meta-edges among the `cells`: half the arc count, keyed canonically. */
  function EdgeSizes(adj: Adjacency, partition: seq<set<int>>, cells: seq<(int, int)>): map<(int, int), int>
  {
    if cells == [] then map[]
    else
      var c := cells[|cells| - 1];
      var sizes := EdgeSizes(adj, partition, cells[..|cells| - 1]);
      var count := Crossing(adj, partition, c.0, c.1);
      if count > 0 then sizes[Edges.CanonicalIndices(c.0, c.1) := count / 2] else sizes
  }

  /** The cells among `cells` with at least one arc, in order: the `addEdge` calls on the joined graph. */
  function MetaEdges(adj: Adjacency, partition: seq<set<int>>, cells: seq<(int, int)>): seq<(int, int)>
  {
    if cells == [] then []
    else
      var c := cells[|cells| - 1];
      var edges := MetaEdges(adj, partition, cells[..|cells| - 1]);
      if Crossing(adj, partition, c.0, c.1) > 0 then edges + [c] else edges
  }

  /** The overlaps between distinct blocks of the `cells` that share vertices. */
  function Overlaps(partition: seq<set<int>>, cells: seq<(int, int)>): set<Overlap>
  {
    if cells == [] then {}
    else
      var c := cells[|cells| - 1];
      var found := Overlaps(partition, cells[..|cells| - 1]);
      var shared := |Block(partition, c.0) * Block(partition, c.1)|;
      if c.0 != c.1 && shared > 0 then found + {Overlap(Edges.CanonicalIndices(c.0, c.1), shared)}
      else found
  }

  /** The block sizes of the first `k` blocks, keyed by block index. */
  function BlockSizes(partition: seq<set<int>>, k: nat): map<int, int>
    requires k <= |partition|
  {
    map i | 0 <= i < k :: |partition[i]|
  }

  lemma BlockSizesStep(partition: seq<set<int>>, k: nat)
    requires k < |partition|
    ensures BlockSizes(partition, k + 1) == BlockSizes(partition, k)[k := |partition[k]|]
  {
  }

  /** The state of join after its first `k` rows. */
  ghost predicate JoinedRows(adj: Adjacency, partition: seq<set<int>>, k: nat,
                             vertexSize: map<int, int>, edgeSize: map<(int, int), int>,
                             overlaps: set<Overlap>, joined: Adjacency)
  {
    k <= |partition| &&
    vertexSize == BlockSizes(partition, k) &&
    edgeSize == EdgeSizes(adj, partition, Cells(|partition|, k, k)) &&
    overlaps == Overlaps(partition, Cells(|partition|, k, k)) &&
    joined == AddEdges(map[], MetaEdges(adj, partition, Cells(|partition|, k, k)))
  }

  /** What join has recorded after the cells `done`. */
  ghost predicate RowState(adj: Adjacency, partition: seq<set<int>>, done: seq<(int, int)>,
                           edgeSize: map<(int, int), int>, overlaps: set<Overlap>, joined: Adjacency)
  {
    edgeSize == EdgeSizes(adj, partition, done) &&
    overlaps == Overlaps(partition, done) &&
    joined == AddEdges(map[], MetaEdges(adj, partition, done))
  }

  /** Cell `(i, j)` of join updates the recorded state as its loop body does. */
  lemma RowAdvance(adj: Adjacency, partition: seq<set<int>>, i: nat, j: nat, done: seq<(int, int)>,
                   edgeSize: map<(int, int), int>, overlaps: set<Overlap>, joined: Adjacency,
                   edgeSize': map<(int, int), int>, overlaps': set<Overlap>, joined': Adjacency)
    requires i <= j < |partition| && RowState(adj, partition, done, edgeSize, overlaps, joined)
    requires var shared := |partition[i] * partition[j]|;
      overlaps' == if i != j && shared > 0 then overlaps + {Overlap(Edges.CanonicalIndices(i, j), shared)} else overlaps
    requires var count := |Arcs(adj, partition[i], partition[j])|;
      edgeSize' == (if count > 0 then edgeSize[Edges.CanonicalIndices(i, j) := count / 2] else edgeSize) &&
      joined' == (if count > 0 then AddEdgeTo(joined, i, j) else joined)
    ensures RowState(adj, partition, done + [(i, j)], edgeSize', overlaps', joined')
  {
    assert Block(partition, i) == partition[i] && Block(partition, j) == partition[j];
    CellStep(adj, partition, done, i, j);
  }

  /** Before the first row nothing is recorded and no block has been checked. */
  lemma JoinStart(adj: Adjacency, partition: seq<set<int>>)
    ensures JoinedRows(adj, partition, 0, map[], map[], {}, map[])
    ensures BlocksInGraphUpTo(adj, partition, 0)
  {
    assert Cells(|partition|, 0, 0) == [];
  }

  /** Row `i` of join moves the recorded state from `JoinedRows(i)` to `JoinedRows(i + 1)`. */
  lemma JoinAdvance(adj: Adjacency, partition: seq<set<int>>, i: nat,
                    vertexSize: map<int, int>, edgeSize: map<(int, int), int>,
                    overlaps: set<Overlap>, joined: Adjacency)
    requires i < |partition| && BlocksInGraphUpTo(adj, partition, i) && partition[i] <= adj.Keys
    requires vertexSize == BlockSizes(partition, i)[i := |partition[i]|]
    requires edgeSize == EdgeSizes(adj, partition, Cells(|partition|, i + 1, i + 1))
    requires overlaps == Overlaps(partition, Cells(|partition|, i + 1, i + 1))
    requires joined == AddEdges(map[], MetaEdges(adj, partition, Cells(|partition|, i + 1, i + 1)))
    ensures JoinedRows(adj, partition, i + 1, vertexSize, edgeSize, overlaps, joined)
    ensures BlocksInGraphUpTo(adj, partition, i + 1)
  {
    BlockSizesStep(partition, i);
  }

  /** A block with a vertex outside the graph makes join fail. */
  lemma JoinStuck(adj: Adjacency, partition: seq<set<int>>, i: nat)
    requires i < |partition| && !(partition[i] <= adj.Keys)
    ensures !BlocksInGraph(adj, partition)
  {
  }

  /** join can only look up blocks whose vertices are all in the graph. */
  ghost predicate BlocksInGraph(adj: Adjacency, partition: seq<set<int>>)
  {
    BlocksInGraphUpTo(adj, partition, |partition|)
  }

  /** The first `k` blocks hold only vertices of the graph. */
  ghost predicate BlocksInGraphUpTo(adj: Adjacency, partition: seq<set<int>>, k: nat)
  {
    forall i :: 0 <= i < k && i < |partition| ==> partition[i] <= adj.Keys
  }

  /** The whole upper triangle of a partition's cells. */
  function AllCells(partition: seq<set<int>>): seq<(int, int)>
  {
    Cells(|partition|, |partition|, |partition|)
  }

  lemma {:induction false} EdgeSizesAt(adj: Adjacency, partition: seq<set<int>>, cells: seq<(int, int)>, a: int, b: int)
    requires forall c :: c in cells ==> c.0 <= c.1
    requires a <= b
    ensures (b, a) in EdgeSizes(adj, partition, cells) <==>
              (a, b) in cells && Crossing(adj, partition, a, b) > 0
    ensures (b, a) in EdgeSizes(adj, partition, cells) ==>
              EdgeSizes(adj, partition, cells)[(b, a)] == Crossing(adj, partition, a, b) / 2
  {
    if cells != [] {
      var init := cells[..|cells| - 1];
      var c := cells[|cells| - 1];
      assert cells == init + [c];
      EdgeSizesAt(adj, partition, init, a, b);
      assert Edges.CanonicalIndices(c.0, c.1) == (b, a) <==> c == (a, b);
    }
  }

  lemma {:induction false} EdgeSizesKeys(adj: Adjacency, partition: seq<set<int>>, cells: seq<(int, int)>, k: (int, int))
    requires forall c :: c in cells ==> c.0 <= c.1
    requires k in EdgeSizes(adj, partition, cells)
    ensures k.1 <= k.0 && (k.1, k.0) in cells
  {
    if cells != [] {
      var init := cells[..|cells| - 1];
      var c := cells[|cells| - 1];
      assert cells == init + [c];
      if k != Edges.CanonicalIndices(c.0, c.1) || Crossing(adj, partition, c.0, c.1) == 0 {
        EdgeSizesKeys(adj, partition, init, k);
      }
    }
  }

  lemma {:induction false} MetaEdgesAre(adj: Adjacency, partition: seq<set<int>>, cells: seq<(int, int)>, e: (int, int))
    ensures e in MetaEdges(adj, partition, cells) <==> e in cells && Crossing(adj, partition, e.0, e.1) > 0
  {
    if cells != [] {
      var init := cells[..|cells| - 1];
      assert cells == init + [cells[|cells| - 1]];
      MetaEdgesAre(adj, partition, init, e);
    }
  }

  lemma {:induction false} OverlapsAre(partition: seq<set<int>>, cells: seq<(int, int)>, o: Overlap)
    requires forall c :: c in cells ==> c.0 <= c.1
    ensures o in Overlaps(partition, cells) <==>
              o.blocks.1 < o.blocks.0 && (o.blocks.1, o.blocks.0) in cells &&
              o.overlap == |Block(partition, o.blocks.1) * Block(partition, o.blocks.0)| && o.overlap > 0
  {
    if cells != [] {
      var init := cells[..|cells| - 1];
      var c := cells[|cells| - 1];
      assert cells == init + [c];
      OverlapsAre(partition, init, o);
    }
  }

  /** Visiting one more cell extends each of join's folds by that cell. */
  lemma CellStep(adj: Adjacency, partition: seq<set<int>>, done: seq<(int, int)>, i: int, j: int)
    ensures var next := done + [(i, j)];
      var count := Crossing(adj, partition, i, j);
      EdgeSizes(adj, partition, next) ==
        (if count > 0 then EdgeSizes(adj, partition, done)[Edges.CanonicalIndices(i, j) := count / 2]
         else EdgeSizes(adj, partition, done)) &&
      MetaEdges(adj, partition, next) ==
        (if count > 0 then MetaEdges(adj, partition, done) + [(i, j)] else MetaEdges(adj, partition, done)) &&
      AddEdges(map[], MetaEdges(adj, partition, next)) ==
        (if count > 0 then AddEdgeTo(AddEdges(map[], MetaEdges(adj, partition, done)), i, j)
         else AddEdges(map[], MetaEdges(adj, partition, done)))
    ensures var shared := |Block(partition, i) * Block(partition, j)|;
      Overlaps(partition, done + [(i, j)]) ==
        (if i != j && shared > 0 then Overlaps(partition, done) + {Overlap(Edges.CanonicalIndices(i, j), shared)}
         else Overlaps(partition, done))
  {
    var next := done + [(i, j)];
    assert next[..|done|] == done;
    var edges := MetaEdges(adj, partition, done);
    assert (edges + [(i, j)])[..|edges|] == edges;
  }

  /**
   * What join computes, cell by cell, for blocks `a <= b` of the partition:
   * the joined graph has an edge between them exactly when some arc goes
   * from block `a` to block `b`; its recorded size is then half the arc
   * count (for a loop, the number of edges inside the block); an overlap
   * is recorded exactly for two distinct blocks that share vertices, with
   * the number they share.
   */
  lemma JoinCell(adj: Adjacency, partition: seq<set<int>>, a: int, b: int)
    requires 0 <= a <= b < |partition|
    ensures var g := AddEdges(map[], MetaEdges(adj, partition, AllCells(partition)));
      (a in g && b in g[a]) <==> Crossing(adj, partition, a, b) > 0
    ensures var g := AddEdges(map[], MetaEdges(adj, partition, AllCells(partition)));
      (b in g && a in g[b]) <==> Crossing(adj, partition, a, b) > 0
    ensures var sizes := EdgeSizes(adj, partition, AllCells(partition));
      ((b, a) in sizes <==> Crossing(adj, partition, a, b) > 0) &&
      ((b, a) in sizes ==> sizes[(b, a)] == Crossing(adj, partition, a, b) / 2)
    ensures var shared := |partition[a] * partition[b]|;
      Overlap((b, a), shared) in Overlaps(partition, AllCells(partition)) <==> a != b && shared > 0
  {
    var n := |partition|;
    var cells := AllCells(partition);
    forall c | c in cells ensures c.0 <= c.1 {
      CellsExactly(n, n, n, c.0, c.1);
    }
    CellsExactly(n, n, n, a, b);
    CellsExactly(n, n, n, b, a);
    var edges := MetaEdges(adj, partition, cells);
    MetaEdgesAre(adj, partition, cells, (a, b));
    MetaEdgesAre(adj, partition, cells, (b, a));
    AddEdgesKeys(map[], edges);
    if a in AddEdges(map[], edges) {
      AddEdgesNeighbours(map[], edges, a, b);
    }
    if b in AddEdges(map[], edges) {
      AddEdgesNeighbours(map[], edges, b, a);
    }
    if Crossing(adj, partition, a, b) > 0 {
      assert (a, b) in edges;
      assert a in Endpoints(edges) && b in Endpoints(edges);
    }
    EdgeSizesAt(adj, partition, cells, a, b);
    OverlapsAre(partition, cells, Overlap((b, a), |partition[a] * partition[b]|));
  }

  /**
   * The `Join` object join returns. Its edge sizes are keyed by the
   * canonical index pair of the meta-edge, that is, under the equality an
   * unordered edge calls for (see `Edges.SameEdge`).
   */
  datatype JoinResult = JoinResult(
    vertexSize: map<int, int>,
    edgeSize: map<(int, int), int>,
    overlaps: set<Overlap>,
    graph: BitSetGraph)
  {
    /** `size(v)`: the size of the block; fails for an index with no block. */
    function SizeOfVertex<H>(v: Vertices.Vertex<H>): (r: Result<int>)
      ensures r.Success? <==> v.index in vertexSize
      ensures r.Failure? ==> r.error == LookupFailure(v.index)
      ensures r.Success? ==> r.value == vertexSize[v.index]
    {
      if v.index in vertexSize then Success(vertexSize[v.index]) else Failure(LookupFailure(v.index))
    }

    /** `size(e)`: the recorded size of the meta-edge, 0 when there is none. */
    function SizeOfEdge<H>(e: Edges.Edge<H>): (n: int)
      ensures Edges.CanonicalIndices(e.source.index, e.target.index) !in edgeSize ==> n == 0
    {
      var key := Edges.CanonicalIndices(e.source.index, e.target.index);
      if key in edgeSize then edgeSize[key] else 0
    }
  }

  // ---------------------------------------------------------------------
  // The graph object
  // ---------------------------------------------------------------------

  class BitSetGraph {

    /** The Java field `vertices`, keyed by vertex index. */
    var adj: Adjacency

    ghost predicate Valid()
      reads this
    {
      Symmetric(adj)
    }

    constructor ()
      ensures adj == map[] && Valid()
    {
      adj := map[];
    }

    /**
     * `addEdge(source, target)`: each end joins the other's bitmap. When
     * `source == target` both reads return the same bitmap, which then
     * holds the vertex itself.
     */
    method AddEdge(source: int, target: int)
      modifies this
      ensures adj == AddEdgeTo(old(adj), source, target)
      ensures old(Valid()) ==> Valid()
    {
      var s := if source in adj then adj[source] else {};
      var t := if target in adj then adj[target] else {};
      s := s + {target};
      t := t + {source};
      if source == target {
        t := s;
      }
      adj := adj[source := s];
      adj := adj[target := t];
      if old(Valid()) {
        AddEdgeKeepsSymmetry(old(adj), source, target);
      }
    }

    /** `degreeOf`: the number of neighbours; fails for an absent vertex. */
    function DegreeOf<H>(v: Vertices.Vertex<H>): (r: Result<nat>)
      reads this
      ensures r.Success? <==> v.index in adj
      ensures r.Failure? ==> r.error == LookupFailure(v.index)
      ensures r.Success? ==> r.value == |adj[v.index]|
    {
      if v.index in adj then Success(|adj[v.index]|) else Failure(LookupFailure(v.index))
    }

    /**
     * `neighborsOf`: the neighbours in the order a bitmap iterates in
     * (ascending as unsigned 32-bit indices), as vertices of this graph;
     * fails for an absent vertex.
     */
    function NeighborsOf<H>(v: Vertices.Vertex<H>): (r: Result<seq<Vertices.Vertex<BitSetGraph>>>)
      reads this
      ensures r.Success? <==> v.index in adj
      ensures r.Failure? ==> r.error == LookupFailure(v.index)
      ensures r.Success? ==> |r.value| == |adj[v.index]|
      ensures r.Success? ==> forall k :: 0 <= k < |r.value| ==>
                r.value[k].host == this && r.value[k].index in adj[v.index]
      ensures r.Success? ==> forall u :: u in adj[v.index] ==>
                exists k :: 0 <= k < |r.value| && r.value[k].index == u
      ensures r.Success? ==> forall k, l :: 0 <= k < l < |r.value| ==>
                Before(r.value[k].index, r.value[l].index)
    {
      if v.index in adj then
        var xs := Ascending(adj[v.index]);
        var r := seq(|xs|, k requires 0 <= k < |xs| => Vertices.Vertex(xs[k], this));
        assert forall k :: 0 <= k < |r| ==> r[k].index == xs[k];
        Success(r)
      else
        Failure(LookupFailure(v.index))
    }

    /**
     * `numEdges`: the cardinalities of all bitmaps added up with
     * `Integer::sum` and halved, all in `int` arithmetic.
     */
    method NumEdges() returns (n: int)
      ensures n == NumEdgesInt(adj)
    {
      var rest := adj.Keys;
      var sum := 0;
      while rest != {}
        invariant rest <= adj.Keys
        invariant Edges.MinInt <= sum <= Edges.MaxInt
        invariant Edges.Wrap32(sum + DegreeSum(adj, rest)) == Edges.Wrap32(DegreeSum(adj, adj.Keys))
        decreases |rest|
      {
        // a witness, so that the choice below is known to succeed
        ghost var w := Pick(rest);
        var v :| v in rest;
        DegreeSumSplit(adj, rest, v);
        Edges.Wrap32Sum(sum, |adj[v]|, DegreeSum(adj, rest - {v}));
        sum := Edges.Wrap32(sum + Edges.Wrap32(|adj[v]|));
        rest := rest - {v};
      }
      Edges.Wrap32InRange(sum);
      n := Edges.Half(sum);
    }

    /** `numVertices`: the number of keys. */
    function NumVertices(): (n: nat)
      reads this
      ensures n == |adj.Keys|
    {
      |adj|
    }

    /** `optimize`: compacts each bitmap; the sets they hold do not change. */
    method Optimize()
      modifies this
      ensures adj == old(adj)
    {
    }

    /** `vertex(i)`: the vertex with index `i` of this graph. */
    function Vertex(i: int): (v: Vertices.Vertex<BitSetGraph>)
      ensures v.index == i && v.host == this
    {
      Vertices.Vertex(i, this)
    }

    /** `vertices`: the key set, as vertices of this graph. */
    function VertexSet(): (r: set<Vertices.Vertex<BitSetGraph>>)
      reads this
      ensures forall v :: v in r ==> v.index in adj && v.host == this
      ensures forall i :: i in adj ==> Vertex(i) in r
    {
      set i | i in adj :: Vertex(i)
    }

    /** `edge(source, target)`: the canonical edge between the two vertices. */
    function Edge(source: int, target: int): (e: Edges.Edge<BitSetGraph>)
      ensures e.source.host == this && e.target.host == this
      ensures e.source.index == if source > target then source else target
      ensures e.target.index == if source > target then target else source
    {
      Edges.NewEdge(Vertex(source), Vertex(target))
    }

    /**
     * `selectSeeds(distance)`: repeatedly picks a vertex not yet visited
     * (in whatever order the key set yields), makes it a seed and marks
     * its visitor after `distance` rounds visited, until every vertex is
     * visited.
     */
    method SelectSeeds(distance: int) returns (r: Result<seq<Vertices.Vertex<BitSetGraph>>>)
      requires Valid()
      ensures r.Failure? <==> distance < 1
      ensures r.Failure? ==> r.error == IllegalArgument
      ensures r.Success? ==> forall k :: 0 <= k < |r.value| ==> r.value[k].host == this
      ensures r.Success? ==> GreedySeeds(adj, Indices(r.value), distance)
      ensures r.Success? ==> Covered(adj, Indices(r.value), distance) == adj.Keys
    {
      if distance < 1 {
        return Failure(IllegalArgument);
      }
      var seeds: seq<Vertices.Vertex<BitSetGraph>> := [];
      ghost var picked: seq<int> := [];
      var visited: set<int> := {};
      while |visited| < NumVertices()
        invariant picked == Indices(seeds)
        invariant forall k :: 0 <= k < |seeds| ==> seeds[k].host == this
        invariant GreedySeeds(adj, picked, distance)
        invariant visited == Covered(adj, picked, distance)
        decreases |adj.Keys| - |visited|
      {
        SubsetCardinality(visited, adj.Keys);
        // a witness, so that the choice below is known to succeed
        ghost var w := Pick(adj.Keys - visited);
        var unvisited :| unvisited in adj && unvisited !in visited;
        seeds := seeds + [Vertex(unvisited)];
        var visitor := Visit(unvisited, distance);
        SeedStep(adj, picked, distance, visited, unvisited);
        picked := picked + [unvisited];
        visited := visited + visitor;
      }
      SubsetCardinality(visited, adj.Keys);
      return Success(seeds);
    }

    /** The visitor bitmap of one seed: `distance` rounds of or-ing in neighbours. */
    method Visit(seed: int, distance: int) returns (visitor: set<int>)
      requires Valid() && seed in adj && distance >= 0
      ensures visitor == Visitor(adj, seed, distance)
    {
      visitor := {seed};
      var d := distance;
      while d > 0
        invariant 0 <= d <= distance
        invariant visitor == Rounds(adj, {seed}, distance - d)
      {
        visitor := OrNeighbours(visitor);
        d := d - 1;
      }
    }

    /**
     * The `cut` list of join for one block: the neighbours of every member,
     * with repetitions, so that filtering it by a target block counts the
     * arcs into that block. Fails on the first member that is not a vertex.
     */
    method CutList(source: set<int>) returns (r: Result<seq<int>>)
      ensures r.Success? <==> source <= adj.Keys
      ensures r.Failure? ==> r.error.LookupFailure? && r.error.index in source && r.error.index !in adj
      ensures r.Success? ==> forall t :: CountIn(r.value, t) == |Arcs(adj, source, t)|
    {
      var cut: seq<int> := [];
      var rest := source;
      while rest != {}
        invariant rest <= source
        invariant source - rest <= adj.Keys
        invariant forall t :: CountIn(cut, t) == |Arcs(adj, source - rest, t)|
        decreases |rest|
      {
        // a witness, so that the choice below is known to succeed
        ghost var w := Pick(rest);
        var v :| v in rest;
        if v !in adj {
          return Failure(LookupFailure(v));
        }
        ghost var done := source - rest;
        forall t ensures CountIn(cut + Ascending(adj[v]), t) == |Arcs(adj, done + {v}, t)| {
          CountInAppend(cut, Ascending(adj[v]), t);
          CountInAscending(adj[v], t);
          ArcsAddSource(adj, done, v, t);
        }
        cut := cut + Ascending(adj[v]);
        assert source - (rest - {v}) == done + {v};
        rest := rest - {v};
      }
      assert source - rest == source;
      return Success(cut);
    }

    /**
     * `join(partition)`: the quotient graph. For each cell `(i, j)`,
     * `i <= j`, of the upper triangle in row-major order it records the
     * overlap of two distinct blocks, and when arcs go from block `i` to
     * block `j` it adds the meta-edge and records half their number as its
     * size. Fails when a block holds an index that is not a vertex.
     */
    method Join(partition: seq<set<int>>) returns (r: Result<JoinResult>)
      ensures r.Failure? <==> JoinCapacity(|partition|) < 0 || !BlocksInGraph(adj, partition)
      ensures JoinCapacity(|partition|) < 0 ==> r == Failure(IllegalArgument)
      ensures JoinCapacity(|partition|) >= 0 && r.Failure? ==> r.error.LookupFailure? && r.error.index !in adj
      ensures r.Success? ==> fresh(r.value.graph) && r.value.graph.Valid()
      ensures r.Success? ==> r.value.graph.adj == AddEdges(map[], MetaEdges(adj, partition, AllCells(partition)))
      ensures r.Success? ==> r.value.vertexSize == BlockSizes(partition, |partition|)
      ensures r.Success? ==> r.value.edgeSize == EdgeSizes(adj, partition, AllCells(partition))
      ensures r.Success? ==> r.value.overlaps == Overlaps(partition, AllCells(partition))
    {
      var n := |partition|;
      var overlaps: set<Overlap> := {};
      var vertexSize: map<int, int> := map[];
      if JoinCapacity(n) < 0 {
        return Failure(IllegalArgument);
      }
      var edgeSize: map<(int, int), int> := map[];
      var joined := new BitSetGraph();
      JoinStart(adj, partition);
      for i := 0 to n
        invariant fresh(joined)
        invariant BlocksInGraphUpTo(adj, partition, i)
        invariant JoinedRows(adj, partition, i, vertexSize, edgeSize, overlaps, joined.adj)
      {
        var source := partition[i];
        vertexSize := vertexSize[joined.Vertex(i).index := |source|];
        var cut := CutList(source);
        if cut.Failure? {
          JoinStuck(adj, partition, i);
          return Failure(cut.error);
        }
        edgeSize, overlaps := JoinRow(partition, i, cut.value, joined, edgeSize, overlaps);
        JoinAdvance(adj, partition, i, vertexSize, edgeSize, overlaps, joined.adj);
      }
      AddEdgesKeepSymmetry(map[], MetaEdges(adj, partition, AllCells(partition)));
      r := Success(JoinResult(vertexSize, edgeSize, overlaps, joined));
    }

    /** Row `i` of join: cells `(i, i)` to `(i, n - 1)`. */
    method JoinRow(partition: seq<set<int>>, i: nat, cut: seq<int>, joined: BitSetGraph,
                   edgeSize0: map<(int, int), int>, overlaps0: set<Overlap>)
      returns (edgeSize: map<(int, int), int>, overlaps: set<Overlap>)
      requires i < |partition| && joined != this
      requires forall t :: CountIn(cut, t) == |Arcs(adj, partition[i], t)|
      requires edgeSize0 == EdgeSizes(adj, partition, Cells(|partition|, i, i))
      requires overlaps0 == Overlaps(partition, Cells(|partition|, i, i))
      requires joined.adj == AddEdges(map[], MetaEdges(adj, partition, Cells(|partition|, i, i)))
      modifies joined
      ensures edgeSize == EdgeSizes(adj, partition, Cells(|partition|, i + 1, i + 1))
      ensures overlaps == Overlaps(partition, Cells(|partition|, i + 1, i + 1))
      ensures joined.adj == AddEdges(map[], MetaEdges(adj, partition, Cells(|partition|, i + 1, i + 1)))
    {
      var n := |partition|;
      var source := partition[i];
      edgeSize, overlaps := edgeSize0, overlaps0;
      ghost var done := Cells(n, i, i);
      for j := i to n
        invariant done == Cells(n, i, j)
        invariant RowState(adj, partition, done, edgeSize, overlaps, joined.adj)
      {
        ghost var edgeSize0, overlaps0, joined0 := edgeSize, overlaps, joined.adj;
        var target := partition[j];
        if i != j {
          var overlap := |source * target|;
          if overlap > 0 {
            var e := joined.Edge(i, j);
            overlaps := overlaps + {Overlap((e.source.index, e.target.index), overlap)};
          }
        }
        var count := CountIn(cut, target);
        if count > 0 {
          joined.AddEdge(i, j);
          var e := joined.Edge(i, j);
          edgeSize := edgeSize[(e.source.index, e.target.index) := count / 2];
        }
        RowAdvance(adj, partition, i, j, done, edgeSize0, overlaps0, joined0, edgeSize, overlaps, joined.adj);
        CellsNext(n, i, j);
        done := done + [(i, j)];
      }
      assert Cells(n, i + 1, i + 1) == Cells(n, i, n);
    }

    /**
     * `visitor.forEach(v -> visitor.or(neighbours of v))`, one round. The
     * iteration reads position `k` of the bitmap's current contents while
     * the loop body adds bits to it.
     */
    method OrNeighbours(visitor: set<int>) returns (next: set<int>)
      requires Valid() && visitor <= adj.Keys
      ensures next == Round(adj, visitor)
    {
      next := visitor;
      var k := 0;
      while k < |next|
        invariant next <= adj.Keys
        invariant RoundFrom(adj, next, k) == Round(adj, visitor)
        decreases |adj.Keys| - k
      {
        var v := Select(next, k);
        ReadStep(adj, next, k);
        next := next + adj[v];
        k := k + 1;
      }
    }
  }

  // ---------------------------------------------------------------------
  // Vertex delegation and the Join accessors
  // ---------------------------------------------------------------------

  /** `Vertex.degree()`: asks the graph the vertex belongs to. */
  function VertexDegree(v: Vertices.Vertex<BitSetGraph>): (r: Result<nat>)
    reads v.host
    ensures r.Success? <==> v.index in v.host.adj
    ensures r.Success? ==> r.value == |v.host.adj[v.index]|
  {
    v.host.DegreeOf(v)
  }

  /** `Vertex.neighbors()`: asks the graph the vertex belongs to. */
  function VertexNeighbors(v: Vertices.Vertex<BitSetGraph>): (r: Result<seq<Vertices.Vertex<BitSetGraph>>>)
    reads v.host
    ensures r.Success? <==> v.index in v.host.adj
    ensures r.Success? ==> forall k :: 0 <= k < |r.value| ==>
              r.value[k].host == v.host && r.value[k].index in v.host.adj[v.index]
    ensures r.Success? ==> |r.value| == |v.host.adj[v.index]|
  {
    v.host.NeighborsOf(v)
  }

  /**
   * The size join records for the meta-edge between blocks `a` and `b`,
   * in either order: half the number of arcs between them, so 0 when
   * there are none.
   */
  lemma JoinEdgeSize<H>(adj: Adjacency, partition: seq<set<int>>, r: JoinResult, e: Edges.Edge<H>)
    requires Symmetric(adj)
    requires r.edgeSize == EdgeSizes(adj, partition, AllCells(partition))
    requires 0 <= e.source.index < |partition| && 0 <= e.target.index < |partition|
    ensures r.SizeOfEdge(e) == Crossing(adj, partition, e.source.index, e.target.index) / 2
  {
    var a, b := e.source.index, e.target.index;
    ArcsSymmetric(adj, Block(partition, a), Block(partition, b));
    if a <= b {
      JoinCell(adj, partition, a, b);
    } else {
      JoinCell(adj, partition, b, a);
    }
  }

  /** The graph with the single edge 1 - 2, split into the blocks {1} and {2}. */
  function PairGraph(): Adjacency
  {
    AddEdgeTo(map[], 1, 2)
  }

  /**
   * Off the diagonal join halves a count in which every edge appears only
   * once: the two blocks of the single edge 1 - 2 get a meta-edge, whose
   * recorded size is 0.
   */
  lemma PairEdgeSizeHalved()
    ensures Crossing(PairGraph(), [{1}, {2}], 0, 1) == 1
    ensures var g := AddEdges(map[], MetaEdges(PairGraph(), [{1}, {2}], AllCells([{1}, {2}])));
      0 in g && 1 in g[0]
    ensures EdgeSizes(PairGraph(), [{1}, {2}], AllCells([{1}, {2}])) == map[(1, 0) := 0]
  {
    var adj := PairGraph();
    var p := [{1}, {2}];
    assert adj[1] == {2} && adj[2] == {1};
    assert adj == map[1 := {2}, 2 := {1}];
    assert Arcs(adj, {1}, {1}) == {};
    assert Arcs(adj, {1}, {2}) == {(1, 2)};
    assert Arcs(adj, {2}, {2}) == {};
    TwoBlockCells();
    var cells := [(0, 0), (0, 1), (1, 1)];
    assert cells[..2] == [(0, 0), (0, 1)] && cells[..2][..1] == [(0, 0)];
    assert [(0, 0)][..0] == [];
    JoinCell(adj, p, 0, 1);
  }

  /**
   * The number of edges between blocks `a` and `b`, as the Join interface
   * describes the size of a meta-edge: between two blocks each edge shows
   * as one arc from `a` to `b`, within a block as two arcs.
   */
  function BlockEdges(adj: Adjacency, partition: seq<set<int>>, a: int, b: int): nat
  {
    if a == b then Crossing(adj, partition, a, b) / 2 else Crossing(adj, partition, a, b)
  }

  /**
   * Between two disjoint blocks no edge is counted twice, the count does
   * not depend on the order the blocks are named in, and it is positive
   * exactly when join adds the meta-edge.
   */
  lemma BlockEdgesBetweenBlocks(adj: Adjacency, partition: seq<set<int>>, a: int, b: int)
    requires Symmetric(adj) && 0 <= a < b < |partition| && partition[a] * partition[b] == {}
    ensures forall v, u :: (v, u) in Arcs(adj, partition[a], partition[b]) ==>
              (u, v) !in Arcs(adj, partition[a], partition[b])
    ensures BlockEdges(adj, partition, a, b) == BlockEdges(adj, partition, b, a)
    ensures BlockEdges(adj, partition, a, b) == |Arcs(adj, partition[a], partition[b])|
    ensures var g := AddEdges(map[], MetaEdges(adj, partition, AllCells(partition)));
      BlockEdges(adj, partition, a, b) > 0 <==> a in g && b in g[a]
  {
    var x, y := partition[a], partition[b];
    forall v, u | (v, u) in Arcs(adj, x, y) ensures (u, v) !in Arcs(adj, x, y) {
      assert v in x && u in y;
      assert u !in x * y;
    }
    ArcsSymmetric(adj, x, y);
    JoinCell(adj, partition, a, b);
  }

  /**
   * `edgeSize.get(e)` as the Java HashMap performs it with the Edge.equals
   * of the source: a stored key matches when its hash code is the same and
   * either it is the very object passed in or `e.equals(key)` holds. The
   * edges join stores are objects of its own, so only the equals test can
   * match. `entries` is the bucket order, which does not matter below.
   */
  function LookupAsWritten<H>(entries: seq<(Edges.Edge<H>, int)>, e: Edges.Edge<H>): (r: Option<int>)
    ensures r.Some? <==> exists k :: 0 <= k < |entries| && Matches(entries[k], e)
    ensures r.Some? ==> exists k :: FirstMatch(entries, e, k) && entries[k].1 == r.value
  {
    if entries == [] then None
    else if Matches(entries[0], e) then
      Some(entries[0].1)
    else
      var rest := LookupAsWritten(entries[1..], e);
      assert forall k :: 1 <= k < |entries| ==> entries[k] == entries[1..][k - 1];
      assert rest.Some? ==> exists k :: FirstMatch(entries, e, k) && entries[k].1 == rest.value by {
        if rest.Some? {
          var k :| FirstMatch(entries[1..], e, k) && entries[1..][k].1 == rest.value;
          assert Matches(entries[k + 1], e) && entries[k + 1].1 == rest.value;
          forall j | 0 <= j < k + 1 ensures !Matches(entries[j], e) {
            if j > 0 {
              assert entries[j] == entries[1..][j - 1];
            }
          }
          assert FirstMatch(entries, e, k + 1);
        }
      }
      rest
  }

  /** A stored key matches the lookup of `e`: equal hash codes, then `e.equals(key)`. */
  predicate Matches<H>(entry: (Edges.Edge<H>, int), e: Edges.Edge<H>)
  {
    entry.0.HashCode() == e.HashCode() && e.Equals(Edges.EdgeObject(entry.0))
  }

  /** Entry `k` is the first one in `entries` that matches the lookup of `e`. */
  predicate FirstMatch<H>(entries: seq<(Edges.Edge<H>, int)>, e: Edges.Edge<H>, k: int)
  {
    0 <= k < |entries| && Matches(entries[k], e) && forall j :: 0 <= j < k ==> !Matches(entries[j], e)
  }

  /**
   * As written, `size(e)` finds no entry for any edge that is not a loop,
   * whatever the map holds: it answers 0 even for two blocks joined by
   * arcs.
   */
  lemma {:induction false} NonLoopSizeLost<H>(entries: seq<(Edges.Edge<H>, int)>, e: Edges.Edge<H>)
    requires e.source.index != e.target.index
    ensures LookupAsWritten(entries, e) == None
  {
    if entries != [] {
      NonLoopSizeLost(entries[1..], e);
    }
  }

  // ---------------------------------------------------------------------
  // The scenario of testJoin
  // ---------------------------------------------------------------------

  /** The graph of testJoin: `addEdge(1, 2); addEdge(1, 3)`. */
  function PathGraph(): Adjacency
  {
    AddEdgeTo(AddEdgeTo(map[], 1, 2), 1, 3)
  }

  /** The partition of testJoin: blocks {1, 2} and {1, 3}. */
  function PathPartition(): seq<set<int>>
  {
    [{1, 2}, {1, 3}]
  }

  lemma PathGraphContents()
    ensures PathGraph() == map[1 := {2, 3}, 2 := {1}, 3 := {1}]
  {
    var first := AddEdgeTo(map[], 1, 2);
    assert first[1] == {2} && first[2] == {1};
    assert first == map[1 := {2}, 2 := {1}];
    var second := AddEdgeTo(first, 1, 3);
    assert second[1] == {2, 3} && second[3] == {1} && second[2] == {1};
    assert second == map[1 := {2, 3}, 2 := {1}, 3 := {1}];
  }

  lemma TwoBlockCells()
    ensures AllCells(PathPartition()) == [(0, 0), (0, 1), (1, 1)]
  {
    assert Cells(2, 0, 0) == [];
    assert Cells(2, 0, 2) == [(0, 0), (0, 1)];
    assert Cells(2, 1, 1) == Cells(2, 0, 2);
  }

  /** Two arcs inside each block, and two arcs from the first block to the second. */
  lemma PathCrossings()
    ensures Crossing(PathGraph(), PathPartition(), 0, 0) == 2
    ensures Crossing(PathGraph(), PathPartition(), 0, 1) == 2
    ensures Crossing(PathGraph(), PathPartition(), 1, 1) == 2
  {
    var adj := PathGraph();
    PathGraphContents();
    assert Arcs(adj, {1, 2}, {1, 2}) == {(1, 2), (2, 1)};
    assert Arcs(adj, {1, 2}, {1, 3}) == {(1, 3), (2, 1)};
    assert Arcs(adj, {1, 3}, {1, 3}) == {(1, 3), (3, 1)};
  }

  /** Every cell of testJoin has arcs, so every cell becomes a meta-edge. */
  lemma PathMetaEdges()
    ensures MetaEdges(PathGraph(), PathPartition(), AllCells(PathPartition())) == [(0, 0), (0, 1), (1, 1)]
  {
    var adj, p := PathGraph(), PathPartition();
    TwoBlockCells();
    PathCrossings();
    var cells := [(0, 0), (0, 1), (1, 1)];
    assert cells[..2] == [(0, 0), (0, 1)];
    assert cells[..2][..1] == [(0, 0)];
    assert [(0, 0)][..0] == [];
    assert MetaEdges(adj, p, [(0, 0)]) == [(0, 0)];
    assert MetaEdges(adj, p, [(0, 0), (0, 1)]) == [(0, 0), (0, 1)];
  }

  /** The joined graph of testJoin: both blocks carry a loop and are joined to each other. */
  lemma PathJoinGraph()
    ensures AddEdges(map[], [(0, 0), (0, 1), (1, 1)]) == map[0 := {0, 1}, 1 := {0, 1}]
  {
    var cells := [(0, 0), (0, 1), (1, 1)];
    assert cells[..2] == [(0, 0), (0, 1)];
    assert cells[..2][..1] == [(0, 0)];
    assert [(0, 0)][..0] == [];
    var one := AddEdges(map[], [(0, 0)]);
    assert one == AddEdgeTo(map[], 0, 0);
    assert one[0] == {0};
    assert one == map[0 := {0}];
    var two := AddEdges(map[], [(0, 0), (0, 1)]);
    assert two == AddEdgeTo(one, 0, 1);
    assert two[0] == {0, 1} && two[1] == {0};
    assert two == map[0 := {0, 1}, 1 := {0}];
    var three := AddEdgeTo(two, 1, 1);
    assert three[0] == {0, 1} && three[1] == {0, 1};
    assert three == map[0 := {0, 1}, 1 := {0, 1}];
  }

  /** testJoin: the joined graph has 2 vertices and 2 edges. */
  lemma PathJoinCounts()
    ensures var joined := AddEdges(map[], MetaEdges(PathGraph(), PathPartition(), AllCells(PathPartition())));
      |joined.Keys| == 2 && NumEdgesOf(joined) == 2
  {
    PathMetaEdges();
    PathJoinGraph();
    SquareDegreeSum();
  }

  lemma SquareDegreeSum()
    ensures var joined := map[0 := {0, 1}, 1 := {0, 1}];
      joined.Keys == {0, 1} && DegreeSum(joined, joined.Keys) == 4
  {
    var joined := map[0 := {0, 1}, 1 := {0, 1}];
    assert joined.Keys == {0, 1};
    DegreeSumSplit(joined, {0, 1}, 0);
    assert {0, 1} - {0} == {1};
    DegreeSumSplit(joined, {1}, 1);
    assert {1} - {1} == {};
  }

  /** testJoin: both blocks have size 2. */
  lemma PathBlockSizes()
    ensures BlockSizes(PathPartition(), 2).Keys == {0, 1}
    ensures BlockSizes(PathPartition(), 2)[0] == 2 && BlockSizes(PathPartition(), 2)[1] == 2
  {
    var p := PathPartition();
    assert |p[0]| == 2 by {
      assert p[0] == {1} + {2};
    }
    assert |p[1]| == 2 by {
      assert p[1] == {1} + {3};
    }
  }

  /** testJoin: there is exactly one overlap, between blocks 0 and 1, of one vertex. */
  lemma PathOverlaps()
    ensures Overlaps(PathPartition(), AllCells(PathPartition())) == {Overlap((1, 0), 1)}
  {
    var p := PathPartition();
    TwoBlockCells();
    var cells := [(0, 0), (0, 1), (1, 1)];
    assert cells[..2] == [(0, 0), (0, 1)] && cells[..2][..1] == [(0, 0)];
    assert [(0, 0)][..0] == [];
    assert p[0] * p[1] == {1};
    assert Overlaps(p, [(0, 0)]) == {};
    assert Overlaps(p, [(0, 0), (0, 1)]) == {Overlap((1, 0), 1)};
  }

  /** testJoin: the loop on block 0 has size 1. */
  lemma PathLoopSize()
    ensures (0, 0) in EdgeSizes(PathGraph(), PathPartition(), AllCells(PathPartition()))
    ensures EdgeSizes(PathGraph(), PathPartition(), AllCells(PathPartition()))[(0, 0)] == 1
  {
    PathCrossings();
    JoinCell(PathGraph(), PathPartition(), 0, 0);
  }

  /**
   * testJoin's lookups of the two loops, as written: whatever the bucket
   * order of the three stored entries, `size(edge(0, 0))` and
   * `size(edge(1, 1))` find their entry and answer 1, the stored size.
   */
  lemma PathLoopSizeAsWritten(g: BitSetGraph, entries: seq<(Edges.Edge<BitSetGraph>, int)>)
    requires forall k :: 0 <= k < |entries| ==>
               entries[k] in {(g.Edge(0, 0), 1), (g.Edge(0, 1), 1), (g.Edge(1, 1), 1)}
    requires (g.Edge(0, 0), 1) in entries && (g.Edge(1, 1), 1) in entries
    ensures LookupAsWritten(entries, g.Edge(0, 0)) == Some(1)
    ensures LookupAsWritten(entries, g.Edge(1, 1)) == Some(1)
  {
    var k0 :| 0 <= k0 < |entries| && entries[k0] == (g.Edge(0, 0), 1);
    assert Matches(entries[k0], g.Edge(0, 0));
    var k1 :| 0 <= k1 < |entries| && entries[k1] == (g.Edge(1, 1), 1);
    assert Matches(entries[k1], g.Edge(1, 1));
  }

  /**
   * The discrepancy on testJoin's input: blocks 0 and 1 are joined by two
   * arcs, so the intended size of `edge(0, 1)` is 1, but the lookup as
   * written finds nothing and `size` answers 0.
   */
  lemma PathEdgeSizeLost(g: BitSetGraph, entries: seq<(Edges.Edge<BitSetGraph>, int)>)
    ensures Crossing(PathGraph(), PathPartition(), 0, 1) / 2 == 1
    ensures LookupAsWritten(entries, g.Edge(0, 1)) == None
  {
    PathCrossings();
    NonLoopSizeLost(entries, g.Edge(0, 1));
  }
}
