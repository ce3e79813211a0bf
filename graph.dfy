/**
 * The integer and set logic of the abstract `Graph` class (Graph.java):
 * the sweep that picks the best prefix of an ordered vertex list, `cut`
 * and `conductance` of a block, and the line-to-edge mapping of the METIS
 * loader. A block is a set of vertex indices.
 */
module Graphs {

  import opened Errors
  import opened Bitmaps
  import opened BitSetGraphs

  // ---------------------------------------------------------------------
  // Exact ratios
  // ---------------------------------------------------------------------

  /** `num / den`, kept as a pair of integers instead of a double. */
  datatype Ratio = Ratio(num: int, den: int)

  /** The starting value of `bestcond`. */
  const One := Ratio(1, 1)

  /** `a < b` on ratios with positive denominators, by cross-multiplication. */
  predicate Less(a: Ratio, b: Ratio)
  {
    a.num * b.den < b.num * a.den
  }

  lemma MultiplyBoth(x: int, y: int, z: int)
    requires z > 0
    ensures x < y <==> x * z < y * z
    ensures x <= y <==> x * z <= y * z
  {
  }

  /**
   * `Less` is a strict order that chains with its own negation: from
   * `a < b` and `b < c`, or `a < b` and `b <= c`, follows `a < c`.
   */
  lemma LessChain(a: Ratio, b: Ratio, c: Ratio)
    requires a.den > 0 && b.den > 0 && c.den > 0
    requires Less(a, b) && !Less(c, b)
    ensures Less(a, c)
  {
    // a.num * b.den < b.num * a.den and b.num * c.den <= c.num * b.den
    MultiplyBoth(a.num * b.den, b.num * a.den, c.den);
    MultiplyBoth(b.num * c.den, c.num * b.den, a.den);
    assert a.num * b.den * c.den < b.num * a.den * c.den;
    assert b.num * c.den * a.den <= c.num * b.den * a.den;
    assert a.num * c.den * b.den < c.num * a.den * b.den;
    MultiplyBoth(a.num * c.den, c.num * a.den, b.den);
  }

  /** From `b <= x` and `c < b` follows `c <= x`... strictly, `x` is not below `c`. */
  lemma NotBelow(x: Ratio, b: Ratio, c: Ratio)
    requires x.den > 0 && b.den > 0 && c.den > 0
    requires !Less(x, b) && Less(c, b)
    ensures !Less(x, c)
  {
    LessChain(c, b, x);
  }

  lemma LessTransitive(a: Ratio, b: Ratio, c: Ratio)
    requires a.den > 0 && b.den > 0 && c.den > 0
    requires Less(a, b) && Less(b, c)
    ensures Less(a, c)
  {
    MultiplyBoth(b.num * c.den, c.num * b.den, a.den);
    LessChain(a, b, c);
  }

  // ---------------------------------------------------------------------
  // The sweep of communityDetectionPpr
  // ---------------------------------------------------------------------

  /** The vertices of a list, as a block. */
  function Members(xs: seq<int>): set<int>
  {
    set x | x in xs
  }

  /** The vertices of `s` that are their own neighbour. */
  function Loops(adj: Adjacency, s: set<int>): set<int>
  {
    set v | v in s && v in adj && v in adj[v]
  }

  /**
   * The value the sweep keeps in `cutS` for a block `s`: the arcs leaving
   * the block, plus one for each member with a self-loop (a loop is never
   * inside the block yet when its vertex is added, so it counts as leaving).
   */
  function CutCount(adj: Adjacency, s: set<int>): nat
  {
    |Arcs(adj, s, adj.Keys - s)| + |Loops(adj, s)|
  }

  /** The sum of the degrees of the listed vertices: `volS`. */
  function Volume(adj: Adjacency, xs: seq<int>): nat
  {
    if xs == [] then 0
    else Volume(adj, xs[..|xs| - 1]) + |NeighbourSet(adj, xs[|xs| - 1])|
  }

  /** The conductance the sweep computes for the prefix of length `k`. */
  function PrefixConductance(adj: Adjacency, sv: seq<int>, k: nat): Ratio
    requires k <= |sv|
  {
    var cut := CutCount(adj, Members(sv[..k]));
    Ratio(cut, 2 * Volume(adj, sv[..k]) + cut)
  }

  /** What the sweep needs of its ordered list: non-empty, every vertex present with a neighbour. */
  ghost predicate SweepInput(adj: Adjacency, sv: seq<int>)
  {
    sv != [] && UsableUpTo(adj, sv, |sv|)
  }

  /** The first `i` vertices of `sv` are present and have a neighbour. */
  ghost predicate UsableUpTo(adj: Adjacency, sv: seq<int>, i: nat)
  {
    forall j :: 0 <= j < i && j < |sv| ==> sv[j] in adj && adj[sv[j]] != {}
  }

  /**
   * The prefix length the sweep settles on: if some prefix has conductance
   * below 1, the earliest one of smallest conductance (every prefix before
   * it is strictly worse, none after it is strictly better); otherwise the
   * single first vertex.
   */
  ghost predicate BestPrefix(adj: Adjacency, sv: seq<int>, k: nat)
  {
    1 <= k <= |sv| &&
    if exists j :: 1 <= j <= |sv| && Less(PrefixConductance(adj, sv, j), One) then
      Less(PrefixConductance(adj, sv, k), One) &&
      (forall j :: 1 <= j <= |sv| ==> !Less(PrefixConductance(adj, sv, j), PrefixConductance(adj, sv, k))) &&
      (forall j :: 1 <= j < k ==> Less(PrefixConductance(adj, sv, k), PrefixConductance(adj, sv, j)))
    else
      k == 1
  }

  /**
   * The state of the sweep after the first `i` vertices: the best prefix
   * so far has length `k` and `best` is its conductance, or `best` is
   * still 1 and no prefix went below it.
   */
  ghost predicate BestSoFar(adj: Adjacency, sv: seq<int>, i: nat, k: nat, best: Ratio)
    requires i <= |sv|
  {
    (best == One && k == 1 &&
      forall j :: 1 <= j <= i ==> !Less(PrefixConductance(adj, sv, j), One)) ||
    (1 <= k <= i && best == PrefixConductance(adj, sv, k) && Less(best, One) &&
      (forall j :: 1 <= j <= i ==> !Less(PrefixConductance(adj, sv, j), best)) &&
      (forall j :: 1 <= j < k ==> Less(best, PrefixConductance(adj, sv, j))))
  }

  lemma ArcsSplitTarget(adj: Adjacency, a: set<int>, x: set<int>, y: set<int>)
    requires x !! y
    ensures |Arcs(adj, a, x + y)| == |Arcs(adj, a, x)| + |Arcs(adj, a, y)|
  {
    assert Arcs(adj, a, x + y) == Arcs(adj, a, x) + Arcs(adj, a, y);
    assert Arcs(adj, a, x) !! Arcs(adj, a, y);
  }

  lemma ArcsSplitSource(adj: Adjacency, a: set<int>, b: set<int>, x: set<int>)
    requires a !! b
    ensures |Arcs(adj, a + b, x)| == |Arcs(adj, a, x)| + |Arcs(adj, b, x)|
  {
    assert Arcs(adj, a + b, x) == Arcs(adj, a, x) + Arcs(adj, b, x);
    assert Arcs(adj, a, x) !! Arcs(adj, b, x);
  }

  lemma ArcsFromOne(adj: Adjacency, s: int, b: set<int>)
    requires s in adj
    ensures |Arcs(adj, {s}, b)| == |adj[s] * b|
  {
    ArcsAddSource(adj, {}, s, b);
    assert Arcs(adj, {}, b) == {};
    assert {} + {s} == {s};
  }

  lemma LoopsWith(adj: Adjacency, s: set<int>, v: int)
    requires v !in s && v in adj
    ensures |Loops(adj, s + {v})| == |Loops(adj, s)| + (if v in adj[v] then 1 else 0)
  {
    if v in adj[v] {
      assert Loops(adj, s + {v}) == Loops(adj, s) + {v};
    } else {
      assert Loops(adj, s + {v}) == Loops(adj, s);
    }
  }

  lemma NeighboursOutside(adj: Adjacency, s: set<int>, v: int)
    requires Symmetric(adj) && v in adj && v !in s
    ensures |adj[v] * (adj.Keys - (s + {v}))| == |adj[v] - s| - (if v in adj[v] then 1 else 0)
  {
    assert forall u :: u in adj[v] ==> u in adj;
    assert adj[v] * (adj.Keys - (s + {v})) == (adj[v] - s) - {v};
    if v in adj[v] {
      assert (adj[v] - s) == ((adj[v] - s) - {v}) + {v};
    } else {
      assert (adj[v] - s) - {v} == adj[v] - s;
    }
  }

  /**
   * What one step of the sweep adds to `cutS`: +1 for each neighbour of
   * the new vertex outside the block, -1 for each one inside.
   */
  lemma CutStep(adj: Adjacency, s: set<int>, v: int)
    requires Symmetric(adj) && v in adj && v !in s && s <= adj.Keys
    ensures CutCount(adj, s + {v}) == CutCount(adj, s) + |adj[v] - s| - |adj[v] * s|
  {
    var keys := adj.Keys;
    var s' := s + {v};
    var outside := keys - s';
    assert keys - s == outside + {v};
    ArcsSplitTarget(adj, s, outside, {v});
    ArcsSplitSource(adj, s, {v}, outside);
    ArcsSymmetric(adj, s, {v});
    ArcsFromOne(adj, v, s);
    ArcsFromOne(adj, v, outside);
    NeighboursOutside(adj, s, v);
    LoopsWith(adj, s, v);
  }

  /**
   * In a graph without self-loops, `cutS` is exactly the number of arcs
   * from the block to the rest of the graph.
   */
  lemma CutCountLoopFree(adj: Adjacency, s: set<int>)
    requires forall v :: v in adj ==> v !in adj[v]
    ensures CutCount(adj, s) == |Arcs(adj, s, adj.Keys - s)|
  {
    assert forall x :: x !in Loops(adj, s);
    assert Loops(adj, s) == {};
  }

  /**
   * A self-loop counts towards `cutS` even though no arc leaves the block:
   * for the single vertex 1 with a loop, `cutS` is 1.
   */
  lemma CutCountsLoops()
    ensures CutCount(map[1 := {1}], {1}) == 1
    ensures Arcs(map[1 := {1}], {1}, {}) == {}
  {
    assert Loops(map[1 := {1}], {1}) == {1};
    assert map[1 := {1}].Keys - {1} == {};
    assert Arcs(map[1 := {1}], {1}, {}) == {};
  }

  /** One more prefix keeps `BestSoFar`, whether or not it beats the best so far. */
  lemma BestStep(adj: Adjacency, sv: seq<int>, i: nat, k: nat, best: Ratio)
    requires i < |sv| && BestSoFar(adj, sv, i, k, best)
    requires best.den > 0
    requires PositiveUpTo(adj, sv, i + 1)
    ensures var c := PrefixConductance(adj, sv, i + 1);
      if Less(c, best) then BestSoFar(adj, sv, i + 1, i + 1, c) else BestSoFar(adj, sv, i + 1, k, best)
  {
    var c := PrefixConductance(adj, sv, i + 1);
    if Less(c, best) {
      if best != One {
        LessTransitive(c, best, One);
      }
      forall j | 1 <= j <= i + 1 ensures !Less(PrefixConductance(adj, sv, j), c) {
        if j <= i {
          NotBelow(PrefixConductance(adj, sv, j), best, c);
        }
      }
      forall j | 1 <= j < i + 1 ensures Less(c, PrefixConductance(adj, sv, j)) {
        LessChain(c, best, PrefixConductance(adj, sv, j));
      }
    }
  }

  /** The conductances of the prefixes up to length `i` have positive denominators. */
  ghost predicate PositiveUpTo(adj: Adjacency, sv: seq<int>, i: nat)
    requires i <= |sv|
  {
    forall j :: 1 <= j <= i ==> PrefixConductance(adj, sv, j).den > 0
  }

  /**
   * One step of the sweep: adding `sv[i]` to the prefix of length `i`
   * moves `volS` by its degree and `cutS` by its neighbours outside the
   * prefix minus those inside, and the new conductance has a positive
   * denominator.
   */
  lemma SweepStep(adj: Adjacency, sv: seq<int>, i: nat)
    requires Symmetric(adj) && Distinct(sv) && i < |sv|
    requires Members(sv[..i]) <= adj.Keys
    requires sv[i] in adj && adj[sv[i]] != {}
    ensures var s, v := Members(sv[..i]), sv[i];
      Members(sv[..i + 1]) == s + {v} &&
      Volume(adj, sv[..i + 1]) == Volume(adj, sv[..i]) + |adj[v]| &&
      CutCount(adj, s + {v}) == CutCount(adj, s) + |adj[v] - s| - |adj[v] * s| &&
      PrefixConductance(adj, sv, i + 1).den > 0
  {
    var s, v := Members(sv[..i]), sv[i];
    assert v !in s by {
      assert forall j :: 0 <= j < i ==> sv[j] != v;
    }
    CutStep(adj, s, v);
    PrefixStep(adj, sv, i);
    assert |adj[v]| > 0;
  }

  /** The prefix of length `i + 1` adds `sv[i]` to the members and its degree to the volume. */
  lemma PrefixStep(adj: Adjacency, sv: seq<int>, i: nat)
    requires i < |sv|
    ensures Members(sv[..i + 1]) == Members(sv[..i]) + {sv[i]}
    ensures Volume(adj, sv[..i + 1]) == Volume(adj, sv[..i]) + |NeighbourSet(adj, sv[i])|
  {
    assert sv[..i + 1] == sv[..i] + [sv[i]];
    assert sv[..i + 1][..i] == sv[..i];
  }

  /** After the whole list, the best prefix so far is the sweep's choice. */
  lemma BestFinal(adj: Adjacency, sv: seq<int>, k: nat, best: Ratio)
    requires sv != [] && BestSoFar(adj, sv, |sv|, k, best)
    ensures BestPrefix(adj, sv, k)
  {
  }

  /** A list without repetitions. */
  ghost predicate Distinct(xs: seq<int>)
  {
    forall i, j :: 0 <= i < j < |xs| ==> xs[i] != xs[j]
  }

  /**
   * The running variables of the sweep after its first `i` vertices: `s`
   * holds them, `volS` is their volume and `cutS` their cut count.
   */
  ghost predicate Running(adj: Adjacency, sv: seq<int>, i: nat, s: set<int>, volS: int, cutS: int)
  {
    i <= |sv| &&
    s == Members(sv[..i]) && s <= adj.Keys &&
    volS == Volume(adj, sv[..i]) && cutS == CutCount(adj, s) &&
    UsableUpTo(adj, sv, i) && PositiveUpTo(adj, sv, i)
  }

  /** The best block after `i` vertices: the prefix of length `bestLen`, of conductance `bestcond`. */
  ghost predicate Best(adj: Adjacency, sv: seq<int>, i: nat, bestLen: nat, bestcond: Ratio, bestBlock: set<int>)
  {
    i <= |sv| && BestSoFar(adj, sv, i, bestLen, bestcond) && bestcond.den > 0 &&
    1 <= bestLen <= |sv| && bestBlock == Members(sv[..bestLen])
  }

  /** Adding the next vertex updates the running variables as the loop body does. */
  lemma RunningStep(adj: Adjacency, sv: seq<int>, i: nat, s: set<int>, volS: int, cutS: int)
    requires Symmetric(adj) && Distinct(sv) && i < |sv|
    requires Running(adj, sv, i, s, volS, cutS)
    requires sv[i] in adj && adj[sv[i]] != {}
    ensures var v := sv[i];
      var vol, cut := volS + |adj[v]|, cutS + (|adj[v] - s| - |adj[v] * s|);
      Running(adj, sv, i + 1, s + {v}, vol, cut) &&
      Members(sv[..i + 1]) == s + {v} &&
      PrefixConductance(adj, sv, i + 1) == Ratio(cut, 2 * vol + cut)
  {
    SweepStep(adj, sv, i);
  }

  /** Comparing the next prefix with the best one keeps `Best`. */
  lemma BestAdvance(adj: Adjacency, sv: seq<int>, i: nat, bestLen: nat, bestcond: Ratio, bestBlock: set<int>,
                    cond: Ratio, block: set<int>)
    requires i < |sv| && Best(adj, sv, i, bestLen, bestcond, bestBlock)
    requires PositiveUpTo(adj, sv, i + 1)
    requires cond == PrefixConductance(adj, sv, i + 1) && block == Members(sv[..i + 1])
    ensures Less(cond, bestcond) ==> Best(adj, sv, i + 1, i + 1, cond, block)
    ensures !Less(cond, bestcond) ==> Best(adj, sv, i + 1, bestLen, bestcond, bestBlock)
  {
    BestStep(adj, sv, i, bestLen, bestcond);
  }

  /** Before the loop: nothing added yet, and the best block is the first vertex alone. */
  lemma SweepStart(adj: Adjacency, sv: seq<int>)
    requires sv != []
    ensures Running(adj, sv, 0, {}, 0, 0)
    ensures Best(adj, sv, 0, 1, One, {sv[0]})
  {
    assert Members(sv[..1]) == {sv[0]};
    assert Members(sv[..0]) == {};
  }

  /** A vertex that is absent or has no neighbour makes the list unusable. */
  lemma SweepStuck(adj: Adjacency, sv: seq<int>, i: nat)
    requires i < |sv| && (sv[i] !in adj || adj[sv[i]] == {})
    ensures !SweepInput(adj, sv)
  {
  }

  /** After the loop: the list was usable and the best block is the best prefix, holding the first vertex. */
  lemma SweepEnd(adj: Adjacency, sv: seq<int>, s: set<int>, volS: int, cutS: int,
                 bestLen: nat, bestcond: Ratio, bestBlock: set<int>)
    requires sv != []
    requires Running(adj, sv, |sv|, s, volS, cutS) && Best(adj, sv, |sv|, bestLen, bestcond, bestBlock)
    ensures SweepInput(adj, sv)
    ensures BestPrefix(adj, sv, bestLen) && bestBlock == Members(sv[..bestLen])
    ensures sv[0] in bestBlock
  {
    BestFinal(adj, sv, bestLen, bestcond);
    assert sv[0] in Members(sv[..bestLen]);
  }

  /**
   * The sweep of `communityDetectionPpr` over the already ordered vertex
   * list `sv`: it adds the vertices one at a time, keeping the volume
   * `volS` and the cut count `cutS` of the growing prefix, and remembers
   * the prefix with the smallest conductance `cutS / (2 * volS + cutS)`
   * that beats every earlier one, starting from the bound 1 and the block
   * holding the first vertex alone.
   */
  method Sweep(adj: Adjacency, sv: seq<int>) returns (r: Result<set<int>>)
    requires Symmetric(adj) && Distinct(sv)
    ensures r.Failure? <==> !SweepInput(adj, sv)
    ensures sv == [] ==> r == Failure(IndexOutOfBounds(0))
    ensures r.Success? ==> exists k: nat :: BestPrefix(adj, sv, k) && r.value == Members(sv[..k])
    ensures r.Success? ==> sv[0] in r.value
  {
    if |sv| == 0 {
      return Failure(IndexOutOfBounds(0));
    }
    var s: set<int> := {};
    var bestcond := One;
    var volS := 0;
    var cutS := 0;
    var bestBlock := {sv[0]};
    ghost var bestLen := 1;
    SweepStart(adj, sv);
    for i := 0 to |sv|
      invariant Running(adj, sv, i, s, volS, cutS)
      invariant Best(adj, sv, i, bestLen, bestcond, bestBlock)
    {
      var v := sv[i];
      if v !in adj {
        SweepStuck(adj, sv, i);
        return Failure(LookupFailure(v));
      }
      volS := volS + |adj[v]|;
      if adj[v] == {} {
        SweepStuck(adj, sv, i);
        return Failure(NoSuchElement);
      }
      RunningStep(adj, sv, i, s, volS - |adj[v]|, cutS);
      cutS := cutS + (|adj[v] - s| - |adj[v] * s|);
      s := s + {v};
      var cond := Ratio(cutS, 2 * volS + cutS);
      BestAdvance(adj, sv, i, bestLen, bestcond, bestBlock, cond, s);
      if Less(cond, bestcond) {
        bestcond := cond;
        bestBlock := s;
        bestLen := i + 1;
      }
    }
    SweepEnd(adj, sv, s, volS, cutS, bestLen, bestcond, bestBlock);
    return Success(bestBlock);
  }

  // ---------------------------------------------------------------------
  // cut and conductance of a block
  // ---------------------------------------------------------------------

  /**
   * `cut(members)`: the neighbours of the members that are not members
   * themselves. Looking up a member that is not a vertex of the graph
   * fails (the `neighbors` call dereferences a missing bitmap); which
   * missing member is reported is not fixed by the source, the least one
   * is taken here.
   */
  function Cut(adj: Adjacency, block: set<int>): (r: Result<set<int>>)
    ensures r.Failure? <==> !(block <= adj.Keys)
    ensures r.Failure? ==> r.error.LookupFailure? && r.error.index in block && r.error.index !in adj
    ensures r.Success? ==> forall u :: u in r.value <==> u !in block && exists v :: v in block && v in adj && u in adj[v]
  {
    if block <= adj.Keys then Success(Neighbourhood(adj, block) - block)
    else
      NotSubset(block, adj.Keys);
      Failure(LookupFailure(Min(block - adj.Keys)))
  }

  /**
   * `conductance(community)`: `|cut| / (2 * |community| + |cut|)`, with
   * the block's size where the sweep uses its volume. For the empty block
   * the denominator is 0 (the double division gives NaN).
   */
  function Conductance(adj: Adjacency, block: set<int>): (r: Result<Ratio>)
    ensures r.Failure? <==> Cut(adj, block).Failure?
    ensures r.Success? ==> r.value.den == 2 * |block| + r.value.num && r.value.num == |Cut(adj, block).value|
  {
    match Cut(adj, block)
    case Failure(e) => Failure(e)
    case Success(c) => Success(Ratio(|c|, 2 * |block| + |c|))
  }

  /**
   * Every vertex of the cut is the far end of an arc leaving the block, so
   * the cut has at most as many vertices as there are such arcs, and at
   * most the count the sweep keeps for the same block.
   */
  lemma CutBound(adj: Adjacency, block: set<int>)
    requires Symmetric(adj) && block <= adj.Keys
    ensures |Cut(adj, block).value| <= |Arcs(adj, block, adj.Keys - block)| <= CutCount(adj, block)
  {
    var c := Cut(adj, block).value;
    var arcs := Arcs(adj, block, adj.Keys - block);
    var second := (p: (int, int)) => p.1;
    forall u | u in c ensures exists p :: p in arcs && second(p) == u {
      var v :| v in block && v in adj && u in adj[v];
      assert u in adj;
      assert (v, u) in arcs;
    }
    ImageCardinality(arcs, c, second);
  }

  /** A non-empty block of the graph has a conductance in [0, 1). */
  lemma ConductanceBelowOne(adj: Adjacency, block: set<int>)
    requires block <= adj.Keys && block != {}
    ensures Conductance(adj, block).Success?
    ensures var r := Conductance(adj, block).value; 0 <= r.num && r.den > 0 && Less(r, One)
  {
    var v := Pick(block);
    assert v in block;
  }

  /** The conductance of a block is 0 exactly when no neighbour of a member lies outside it. */
  lemma ConductanceZeroIffClosed(adj: Adjacency, block: set<int>)
    requires block <= adj.Keys
    ensures Conductance(adj, block).value.num == 0 <==> Neighbourhood(adj, block) <= block
  {
    var c := Cut(adj, block).value;
    if Neighbourhood(adj, block) <= block {
      assert c == {};
    } else {
      var u :| u in Neighbourhood(adj, block) && u !in block;
      assert u in c;
    }
  }

  /** The empty block has the undefined conductance 0 / 0. */
  lemma ConductanceOfEmpty(adj: Adjacency)
    ensures Conductance(adj, {}) == Success(Ratio(0, 0))
  {
    assert Neighbourhood(adj, {}) == {};
  }

  lemma MiddleConductance()
    ensures Conductance(PathOfThree, {2}) == Success(Ratio(2, 4))
  {
    var adj := PathOfThree;
    assert adj[2] == {1, 3};
    assert Neighbourhood(adj, {2}) == {1, 3};
    assert Cut(adj, {2}).value == {1, 3};
  }

  lemma MiddlePrefixConductance()
    ensures PrefixConductance(PathOfThree, [2], 1) == Ratio(2, 6)
  {
    var adj := PathOfThree;
    assert adj[2] == {1, 3};
    assert [2][..1] == [2] && [2][..0] == [];
    assert Members([2]) == {2};
    assert Arcs(adj, {2}, adj.Keys - {2}) == {(2, 1), (2, 3)};
    assert Loops(adj, {2}) == {};
  }

  /**
   * `conductance` measures a block by its size and the sweep by its
   * volume: on the path 1 - 2 - 3 the block {2} has conductance 2/4 while
   * the sweep's prefix [2] has 2/6.
   */
  lemma ConductanceUsesSize()
    ensures Conductance(PathOfThree, {2}).value != PrefixConductance(PathOfThree, [2], 1)
  {
    MiddleConductance();
    MiddlePrefixConductance();
  }

  // ---------------------------------------------------------------------
  // The METIS loader, over lines already split into tokens
  // ---------------------------------------------------------------------

  /** A whitespace-separated token as `Scanner` sees it: an int, or anything else. */
  datatype Token = IntToken(value: int) | Word

  /** A line of the file: its raw text, for the comment filter, and its tokens. */
  datatype Line = Line(text: string, tokens: seq<Token>)

  /** The filter of `loadMetis`: empty lines and lines starting with '%' are skipped. */
  predicate Comment(line: Line)
  {
    line.text == [] || line.text[0] == '%'
  }

  /** The lines that pass the filter, in file order. */
  function Kept(lines: seq<Line>): (r: seq<Line>)
    ensures |r| <= |lines|
  {
    if lines == [] then []
    else
      var last := lines[|lines| - 1];
      Kept(lines[..|lines| - 1]) + (if Comment(last) then [] else [last])
  }

  /** The filter distributes over concatenation. */
  lemma {:induction false} KeptAppend(a: seq<Line>, b: seq<Line>)
    ensures Kept(a + b) == Kept(a) + Kept(b)
    decreases |b|
  {
    if b != [] {
      var init := b[..|b| - 1];
      assert (a + b)[..|a + b| - 1] == a + init;
      KeptAppend(a, init);
    } else {
      assert a + b == a;
    }
  }

  /** The filter keeps exactly the lines that are not comments, and keeps them all. */
  lemma {:induction false} KeptAreLines(lines: seq<Line>, l: Line)
    ensures l in Kept(lines) <==> l in lines && !Comment(l)
  {
    if lines != [] {
      KeptAreLines(lines[..|lines| - 1], l);
      assert lines == lines[..|lines| - 1] + [lines[|lines| - 1]];
    }
  }

  /** A comment line anywhere in the file changes nothing that is loaded. */
  lemma CommentsIgnored(a: seq<Line>, c: Line, b: seq<Line>)
    requires Comment(c)
    ensures Kept(a + [c] + b) == Kept(a + b)
  {
    KeptAppend(a + [c], b);
    KeptAppend(a, [c]);
    KeptAppend(a, b);
    assert [c][..0] == [];
  }

  /**
   * What `Stream2.generate(s::nextInt, s::hasNextInt)` yields: the ints at
   * the front of the tokens, up to the first token that is not an int.
   */
  function IntPrefix(tokens: seq<Token>): (r: seq<int>)
    ensures |r| <= |tokens|
    ensures forall i {:trigger r[i]} :: 0 <= i < |r| ==> tokens[i] == IntToken(r[i])
    ensures |r| < |tokens| ==> tokens[|r|].Word?
  {
    if tokens == [] || tokens[0].Word? then []
    else [tokens[0].value] + IntPrefix(tokens[1..])
  }

  /**
   * The header check of `loadMetis`: two `nextInt` calls (number of
   * vertices and of edges) that fail on a missing or a non-int token, then
   * the format numbers, the first of which must be 0 when present.
   */
  function HeaderError(tokens: seq<Token>): (r: Option<Error>)
    ensures r.None? <==>
      |tokens| >= 2 && tokens[0].IntToken? && tokens[1].IntToken? &&
      (|tokens| == 2 || tokens[2].Word? || tokens[2].value == 0)
    ensures |tokens| == 0 || (tokens[0].IntToken? && |tokens| == 1) ==> r == Some(NoSuchElement)
    ensures (|tokens| > 0 && tokens[0].Word?) || (|tokens| > 1 && tokens[0].IntToken? && tokens[1].Word?) ==>
              r == Some(InputMismatch)
    ensures r.Some? && r.value.UnsupportedFormat? ==> |tokens| > 2 && tokens[2] == IntToken(r.value.fmt) && r.value.fmt != 0
    ensures |tokens| > 2 && tokens[0].IntToken? && tokens[1].IntToken? && tokens[2].IntToken? && tokens[2].value != 0 ==>
              r == Some(UnsupportedFormat(tokens[2].value))
  {
    if |tokens| == 0 then Some(NoSuchElement)
    else if tokens[0].Word? then Some(InputMismatch)
    else if |tokens| == 1 then Some(NoSuchElement)
    else if tokens[1].Word? then Some(InputMismatch)
    else
      var fmt := IntPrefix(tokens[2..]);
      if |fmt| > 0 && fmt[0] != 0 then Some(UnsupportedFormat(fmt[0])) else None
  }

  /** Why loading the file fails, if it does: no header line, or a bad header. */
  function MetisError(lines: seq<Line>): Option<Error>
  {
    var kept := Kept(lines);
    if kept == [] then Some(NoSuchElement) else HeaderError(kept[0].tokens)
  }

  /** The edges line `v` of the body adds: `(v, n)` for each int `n` on it, in order. */
  function LineEdges(v: int, line: Line): (r: seq<(int, int)>)
    ensures |r| == |IntPrefix(line.tokens)|
    ensures forall i {:trigger r[i]} :: 0 <= i < |r| ==> r[i] == (v, IntPrefix(line.tokens)[i])
  {
    var ints := IntPrefix(line.tokens);
    seq(|ints|, i requires 0 <= i < |ints| => (v, ints[i]))
  }

  /** The edges of the body lines, the `k`-th of them (from 1) being vertex `k`. */
  function BodyEdges(body: seq<Line>): seq<(int, int)>
  {
    if body == [] then []
    else BodyEdges(body[..|body| - 1]) + LineEdges(|body|, body[|body| - 1])
  }

  /** All edges the file adds: those of the kept lines after the header. */
  function MetisEdges(lines: seq<Line>): seq<(int, int)>
  {
    var kept := Kept(lines);
    if kept == [] then [] else BodyEdges(kept[1..])
  }

  /**
   * The body adds edge `(a, b)` exactly when `a` numbers a body line (from
   * 1) and `b` is one of the ints on that line; so no edge leaves vertex 0.
   */
  lemma {:induction false} BodyEdgesAre(body: seq<Line>, a: int, b: int)
    ensures (a, b) in BodyEdges(body) <==> 1 <= a <= |body| && b in IntPrefix(body[a - 1].tokens)
  {
    if body != [] {
      var init := body[..|body| - 1];
      BodyEdgesAre(init, a, b);
      var line := LineEdges(|body|, body[|body| - 1]);
      assert (a, b) in line <==> a == |body| && b in IntPrefix(body[|body| - 1].tokens) by {
        if (a, b) in line {
          var i :| 0 <= i < |line| && line[i] == (a, b);
        }
        if a == |body| && b in IntPrefix(body[|body| - 1].tokens) {
          var i :| 0 <= i < |IntPrefix(body[|body| - 1].tokens)| && IntPrefix(body[|body| - 1].tokens)[i] == b;
          assert line[i] == (a, b);
        }
      }
      if 1 <= a < |body| {
        assert body[a - 1] == init[a - 1];
      }
    }
  }

  /**
   * After loading a file into a graph, `u` is a neighbour of `v` exactly
   * when it was before, or `u` is listed on body line `v`, or `v` on body
   * line `u`.
   */
  lemma MetisNeighbours(adj: Adjacency, lines: seq<Line>, v: int, u: int)
    requires Kept(lines) != [] && v in AddEdges(adj, MetisEdges(lines))
    ensures var body := Kept(lines)[1..];
      u in AddEdges(adj, MetisEdges(lines))[v] <==>
        (v in adj && u in adj[v]) ||
        (1 <= v <= |body| && u in IntPrefix(body[v - 1].tokens)) ||
        (1 <= u <= |body| && v in IntPrefix(body[u - 1].tokens))
  {
    var body := Kept(lines)[1..];
    AddEdgesNeighbours(adj, MetisEdges(lines), v, u);
    BodyEdgesAre(body, v, u);
    BodyEdgesAre(body, u, v);
  }

  /** A run of `addEdge` calls split in two. */
  lemma {:induction false} AddEdgesConcat(adj: Adjacency, a: seq<(int, int)>, b: seq<(int, int)>)
    ensures AddEdges(adj, a + b) == AddEdges(AddEdges(adj, a), b)
    decreases |b|
  {
    if b == [] {
      assert a + b == a;
    } else {
      var init := b[..|b| - 1];
      assert (a + b)[..|a + b| - 1] == a + init;
      assert (a + b)[|a + b| - 1] == b[|b| - 1];
      AddEdgesConcat(adj, a, init);
    }
  }

  /** The next body line appends its own edges. */
  lemma BodyEdgesStep(body: seq<Line>, line: Line)
    ensures BodyEdges(body + [line]) == BodyEdges(body) + LineEdges(|body| + 1, line)
  {
    var longer := body + [line];
    assert longer[..|longer| - 1] == body;
    assert longer[|longer| - 1] == line;
    assert BodyEdges(longer) == BodyEdges(longer[..|longer| - 1]) + LineEdges(|longer|, longer[|longer| - 1]);
  }

  /** Widening the window of lines by one adds that line when it is kept. */
  lemma KeptStep(lines: seq<Line>, from: nat, to: nat)
    requires from <= to < |lines|
    ensures Kept(lines[from..to + 1]) == Kept(lines[from..to]) + (if Comment(lines[to]) then [] else [lines[to]])
  {
    assert lines[from..to + 1][..to - from] == lines[from..to];
  }

  /** Extending the prefix of lines by one adds that line when it is kept. */
  lemma KeptPrefixStep(lines: seq<Line>, k: nat)
    requires k < |lines|
    ensures Kept(lines[..k + 1]) == Kept(lines[..k]) + (if Comment(lines[k]) then [] else [lines[k]])
  {
    assert lines[..k + 1][..k] == lines[..k];
  }

  /** After only comments, the first line that is not one heads the kept lines. */
  lemma KeptFrom(a: seq<Line>, x: Line, b: seq<Line>)
    requires Kept(a) == [] && !Comment(x)
    ensures Kept(a + [x] + b) == [x] + Kept(b)
  {
    KeptAppend(a + [x], b);
    KeptAppend(a, [x]);
    assert [x][..0] == [];
  }

  /** The calls `addEdge(v, n)` for the ints `n` of one body line, in order. */
  method AddLine(g: BitSetGraph, v: int, line: Line)
    modifies g
    ensures g.adj == AddEdges(old(g.adj), LineEdges(v, line))
  {
    var ints := IntPrefix(line.tokens);
    ghost var edges := LineEdges(v, line);
    for j := 0 to |ints|
      invariant g.adj == AddEdges(old(g.adj), edges[..j])
    {
      assert edges[..j + 1] == edges[..j] + [(v, ints[j])];
      AddEdgesSnoc(old(g.adj), edges[..j], (v, ints[j]));
      g.AddEdge(v, ints[j]);
    }
    assert edges[..|ints|] == edges;
  }

  /** Adding one more edge at the end of a run of `addEdge` calls. */
  lemma AddEdgesSnoc(adj: Adjacency, edges: seq<(int, int)>, e: (int, int))
    ensures AddEdges(adj, edges + [e]) == AddEdgeTo(AddEdges(adj, edges), e.0, e.1)
  {
    assert (edges + [e])[..|edges|] == edges;
  }

  /**
   * The body loop has read lines `from` to `next - 1`: `body` holds those
   * of them that were kept, and `adj` is `adj0` with their edges added.
   */
  ghost predicate Loaded(adj0: Adjacency, lines: seq<Line>, from: nat, next: nat, body: seq<Line>, adj: Adjacency)
  {
    from <= next <= |lines| && body == Kept(lines[from..next]) && adj == AddEdges(adj0, BodyEdges(body))
  }

  lemma LoadStart(adj0: Adjacency, lines: seq<Line>, from: nat)
    requires from <= |lines|
    ensures Loaded(adj0, lines, from, from, [], adj0)
  {
    assert lines[from..from] == [];
  }

  /** One line of the body loop: a comment is skipped, any other line adds its edges. */
  lemma LoadStep(adj0: Adjacency, lines: seq<Line>, from: nat, next: nat, body: seq<Line>, adj: Adjacency)
    requires next < |lines| && Loaded(adj0, lines, from, next, body, adj)
    ensures Comment(lines[next]) ==> Loaded(adj0, lines, from, next + 1, body, adj)
    ensures !Comment(lines[next]) ==>
      Loaded(adj0, lines, from, next + 1, body + [lines[next]], AddEdges(adj, LineEdges(|body| + 1, lines[next])))
  {
    KeptStep(lines, from, next);
    AddEdgesConcat(adj0, BodyEdges(body), LineEdges(|body| + 1, lines[next]));
    BodyEdgesStep(body, lines[next]);
  }

  lemma LoadDone(adj0: Adjacency, lines: seq<Line>, from: nat, body: seq<Line>, adj: Adjacency)
    requires Loaded(adj0, lines, from, |lines|, body, adj)
    ensures adj == AddEdges(adj0, BodyEdges(Kept(lines[from..])))
  {
    assert lines[from..|lines|] == lines[from..];
  }

  /**
   * The body of `loadMetis`: every kept line from `from` on is the next
   * vertex, numbered from 1, and gets an edge to each int on it.
   */
  method LoadBody(g: BitSetGraph, lines: seq<Line>, from: nat)
    requires from <= |lines|
    modifies g
    ensures g.adj == AddEdges(old(g.adj), BodyEdges(Kept(lines[from..])))
  {
    var vertexIndex := 1;
    var next := from;
    ghost var body: seq<Line> := [];
    LoadStart(g.adj, lines, from);
    while next < |lines|
      invariant Loaded(old(g.adj), lines, from, next, body, g.adj)
      invariant vertexIndex == |body| + 1
    {
      var line := lines[next];
      LoadStep(old(g.adj), lines, from, next, body, g.adj);
      if !Comment(line) {
        var v := vertexIndex;
        vertexIndex := vertexIndex + 1;
        AddLine(g, v, line);
        body := body + [line];
      }
      next := next + 1;
    }
    LoadDone(old(g.adj), lines, from, body, g.adj);
  }

  /**
   * `loadMetis` on the lines of a file: it skips comments up to the header,
   * checks it, then numbers the remaining kept lines from 1 and calls
   * `addEdge(v, n)` for every int `n` on line `v`. A bad header fails
   * before any edge is added.
   */
  method LoadMetis(g: BitSetGraph, lines: seq<Line>) returns (r: Result<BitSetGraph>)
    modifies g
    ensures r.Failure? <==> MetisError(lines).Some?
    ensures r.Failure? ==> r.error == MetisError(lines).value && g.adj == old(g.adj)
    ensures r.Success? ==> r.value == g && g.adj == AddEdges(old(g.adj), MetisEdges(lines))
    ensures old(g.Valid()) ==> g.Valid()
  {
    var k := 0;
    while k < |lines| && Comment(lines[k])
      invariant 0 <= k <= |lines|
      invariant Kept(lines[..k]) == []
      invariant g.adj == old(g.adj)
    {
      KeptPrefixStep(lines, k);
      k := k + 1;
    }
    if k == |lines| {
      assert lines[..k] == lines;
      return Failure(NoSuchElement);
    }
    assert lines == lines[..k] + [lines[k]] + lines[k + 1..];
    KeptFrom(lines[..k], lines[k], lines[k + 1..]);
    assert Kept(lines)[0] == lines[k] && Kept(lines)[1..] == Kept(lines[k + 1..]);
    var header := HeaderError(lines[k].tokens);
    if header.Some? {
      return Failure(header.value);
    }
    LoadBody(g, lines, k + 1);
    if old(g.Valid()) {
      AddEdgesKeepSymmetry(old(g.adj), MetisEdges(lines));
    }
    return Success(g);
  }
}
