/**
 * Vertex handles (Vertex.java): an int index plus a non-owning reference
 * to the host graph. The host is a type parameter so that the model can
 * show which operations look at it and which do not.
 */
module Vertices {

  datatype Vertex<H> = Vertex(index: int, host: H) {

    /** `hashCode()`: the index itself. */
    function HashCode(): int
    {
      index
    }

    /**
     * `equals(obj)`: compares this vertex's hash code with the hash code of
     * `obj`, whatever `obj` is. The argument is that hash code.
     */
    function Equals(objHash: int): bool
    {
      HashCode() == objHash
    }

    /** `compareTo(o)`: `Integer.compare` of the two indices. */
    function CompareTo(o: Vertex<H>): (r: int)
      ensures r == -1 || r == 0 || r == 1
      ensures r == -1 <==> index < o.index
      ensures r == 1 <==> index > o.index
      ensures r == 0 <==> Equals(o.HashCode())
    {
      if index < o.index then -1 else if index == o.index then 0 else 1
    }
  }

  /** Two vertices are equal exactly when their indices are, whatever their hosts. */
  lemma EqualsIgnoresHost<H>(a: Vertex<H>, b: Vertex<H>)
    ensures a.Equals(b.HashCode()) <==> a.index == b.index
    ensures a.Equals(b.HashCode()) <==> b.Equals(a.HashCode())
    ensures a.Equals(b.HashCode()) ==> a.HashCode() == b.HashCode()
  {
  }

  /** `compareTo` is a total order on indices: antisymmetric and transitive. */
  lemma CompareToIsTotalOrder<H>(a: Vertex<H>, b: Vertex<H>, c: Vertex<H>)
    ensures a.CompareTo(b) == -b.CompareTo(a)
    ensures a.CompareTo(b) <= 0 && b.CompareTo(c) <= 0 ==> a.CompareTo(c) <= 0
    ensures a.CompareTo(a) == 0
  {
  }
}
