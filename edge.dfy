/**
 * Undirected edges (Edge.java, and Overlap.java which only adds a count).
 * The constructor orders the two endpoints once; `equals` and `hashCode`
 * are expressions over the stored endpoints.
 */
module Edges {

  import opened Vertices

  datatype Edge<H> = Edge(source: Vertex<H>, target: Vertex<H>) {

    /**
     * `hashCode()`: `Objects.hash(source, target)`, i.e.
     * 31 * (31 * 1 + source.hashCode()) + target.hashCode() in 32-bit
     * arithmetic.
     */
    function HashCode(): (h: int)
      ensures MinInt <= h <= MaxInt
    {
      Wrap32(31 * (31 + source.HashCode()) + target.HashCode())
    }

    /**
     * `equals(obj)` as written: for an Edge argument it answers whether the
     * receiver's own endpoints are equal, ignoring the argument's endpoints;
     * for anything else it answers false.
     */
    function Equals(obj: Object<H>): bool
    {
      match obj
      case EdgeObject(_) => source.Equals(target.HashCode())
      case OtherObject => false
    }
  }

  /** The argument of `equals(Object)`: another edge, or any other object (or null). */
  datatype Object<H> = EdgeObject(edge: Edge<H>) | OtherObject

  const MinInt: int := -0x8000_0000
  const MaxInt: int := 0x7fff_ffff

  /** Two's-complement wrap-around of Java `int` arithmetic. */
  function Wrap32(x: int): (r: int)
    ensures MinInt <= r <= MaxInt
    ensures (r - x) % 0x1_0000_0000 == 0
  {
    (x - MinInt) % 0x1_0000_0000 + MinInt
  }

  /** Values congruent modulo 2^32 wrap to the same `int`. */
  lemma Wrap32Congruent(x: int, y: int)
    requires (x - y) % 0x1_0000_0000 == 0
    ensures Wrap32(x) == Wrap32(y)
  {
    var q := (x - y) / 0x1_0000_0000;
    assert x - MinInt == (y - MinInt) + q * 0x1_0000_0000;
    ModuloShift(y - MinInt, q);
  }

  lemma ModuloShift(a: int, q: int)
    ensures (a + q * 0x1_0000_0000) % 0x1_0000_0000 == a % 0x1_0000_0000
  {
  }

  /**
   * Adding in `int` arithmetic, with an operand that was itself wrapped,
   * agrees with adding exactly and wrapping once at the end.
   */
  lemma Wrap32Sum(a: int, b: int, c: int)
    ensures Wrap32(Wrap32(a + Wrap32(b)) + c) == Wrap32(a + b + c)
  {
    var wb := Wrap32(b);
    var s := Wrap32(a + wb);
    assert s - (a + wb) == ((s - (a + wb)) / 0x1_0000_0000) * 0x1_0000_0000;
    assert wb - b == ((wb - b) / 0x1_0000_0000) * 0x1_0000_0000;
    var q := (s - (a + wb)) / 0x1_0000_0000 + (wb - b) / 0x1_0000_0000;
    assert (s + c) - (a + b + c) == q * 0x1_0000_0000;
    ModuloShift(0, q);
    Wrap32Congruent(s + c, a + b + c);
  }

  /** An `int` already in range wraps to itself. */
  lemma Wrap32InRange(x: int)
    requires MinInt <= x <= MaxInt
    ensures Wrap32(x) == x
  {
  }

  /** Java's `int` division by 2, which truncates toward zero. */
  function Half(x: int): (r: int)
    ensures x >= 0 ==> 0 <= 2 * r <= x <= 2 * r + 1
    ensures x < 0 ==> 2 * r - 1 <= x <= 2 * r <= 0
  {
    if x >= 0 then x / 2 else -((-x) / 2)
  }

  /**
   * The constructor `Edge(source, target)`: it keeps the given order only
   * when `source.compareTo(target) == 1`, and swaps the endpoints
   * otherwise (ties included). So the source ends up with the larger index.
   */
  function NewEdge<H(==)>(source: Vertex<H>, target: Vertex<H>): (e: Edge<H>)
    ensures e.source.index >= e.target.index
    ensures e == Edge(source, target) || e == Edge(target, source)
  {
    if source.CompareTo(target) == 1 then Edge(source, target) else Edge(target, source)
  }

  /** The canonical index pair (larger, smaller) that the constructor produces. */
  function CanonicalIndices(a: int, b: int): (p: (int, int))
    ensures p.0 >= p.1
    ensures (p.0 == a && p.1 == b) || (p.0 == b && p.1 == a)
  {
    if a > b then (a, b) else (b, a)
  }

  /** The constructor stores its endpoints in canonical index order. */
  lemma NewEdgeIsCanonical<H>(a: Vertex<H>, b: Vertex<H>)
    ensures var e := NewEdge(a, b); (e.source.index, e.target.index) == CanonicalIndices(a.index, b.index)
  {
  }

  /**
   * The order of the constructor's arguments does not matter: both orders
   * give the same endpoint indices, hence the same hash code, and within
   * one host graph the very same edge.
   */
  lemma NewEdgeSymmetric<H>(a: Vertex<H>, b: Vertex<H>)
    ensures NewEdge(a, b).source.index == NewEdge(b, a).source.index
    ensures NewEdge(a, b).target.index == NewEdge(b, a).target.index
    ensures NewEdge(a, b).HashCode() == NewEdge(b, a).HashCode()
    ensures a.host == b.host ==> NewEdge(a, b) == NewEdge(b, a)
  {
  }

  /**
   * The class comment promises the minimum index as source; the
   * constructor stores the maximum: `new Edge(v1, v2)` has source index 2.
   */
  lemma SourceIsMaximum<H>(host: H)
    ensures NewEdge(Vertex(1, host), Vertex(2, host)).source.index == 2
    ensures NewEdge(Vertex(2, host), Vertex(1, host)).source.index == 2
  {
  }

  /** `equals` only tests whether the receiver is a loop: its argument's endpoints play no part. */
  lemma EqualsTestsReceiverLoop<H>(e: Edge<H>, obj: Object<H>)
    ensures e.Equals(obj) <==> obj.EdgeObject? && e.source.index == e.target.index
  {
  }

  /**
   * Consequences of the defect: an edge between two different vertices is
   * not equal to itself, and a loop equals every edge.
   */
  lemma EqualsNotReflexive<H>(host: H)
    ensures var e := NewEdge(Vertex(1, host), Vertex(2, host)); !e.Equals(EdgeObject(e))
    ensures var loop := NewEdge(Vertex(3, host), Vertex(3, host));
            loop.Equals(EdgeObject(NewEdge(Vertex(1, host), Vertex(2, host))))
  {
  }

  /**
   * The evidently intended equality: two edges are equal when their
   * canonical endpoint indices agree.
   */
  predicate SameEdge<H>(e: Edge<H>, o: Edge<H>)
  {
    e.source.index == o.source.index && e.target.index == o.target.index
  }

  /**
   * `SameEdge` on constructed edges identifies exactly the unordered index
   * pairs, is reflexive, and agrees with `hashCode`.
   */
  lemma SameEdgeIsUnorderedPair<H>(a: Vertex<H>, b: Vertex<H>, c: Vertex<H>, d: Vertex<H>)
    ensures SameEdge(NewEdge(a, b), NewEdge(c, d)) <==>
              ((a.index == c.index && b.index == d.index) || (a.index == d.index && b.index == c.index))
    ensures SameEdge(NewEdge(a, b), NewEdge(a, b))
    ensures SameEdge(NewEdge(a, b), NewEdge(c, d)) ==> NewEdge(a, b).HashCode() == NewEdge(c, d).HashCode()
  {
  }
}
