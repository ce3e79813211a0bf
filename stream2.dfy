/**
 * The list helpers of Stream2.java that the graph code builds on:
 * `combinations(l, size)`, the k-combinations of a list as a stream of
 * lists, and `pipe(head, tail)`. Streams are modelled as the sequences
 * they produce, in order.
 */
module Stream2 {

  /** `pipe(head, tail)`: a new list, `head` followed by a copy of `tail`. */
  function Pipe<E>(head: E, tail: seq<E>): (r: seq<E>)
    ensures |r| == |tail| + 1 && r[0] == head && r[1..] == tail
  {
    [head] + tail
  }

  /** `.map(t -> pipe(head, t))` over a stream of lists. */
  function PipeAll<E>(head: E, tails: seq<seq<E>>): (r: seq<seq<E>>)
    ensures |r| == |tails|
    ensures forall i :: 0 <= i < |r| ==> r[i] == Pipe(head, tails[i])
  {
    seq(|tails|, i requires 0 <= i < |tails| => Pipe(head, tails[i]))
  }

  /**
   * `combinations(l, size)`: the single empty list when `size == 0`,
   * otherwise the `flatMap` over the positions of `l` (see `Expand`).
   */
  function Combinations<E>(l: seq<E>, size: int): seq<seq<E>>
    decreases |l|, 1
  {
    if size == 0 then [[]] else Expand(l, 0, size)
  }

  /**
   * The `flatMap` of `combinations` over positions `from`, ..., |l| - 1:
   * for position i, every combination of size - 1 taken from the sublist
   * after i, with `l[i]` put in front.
   */
  function Expand<E>(l: seq<E>, from: nat, size: int): seq<seq<E>>
    requires from <= |l|
    decreases |l|, 0, |l| - from
  {
    if from == |l| then []
    else PipeAll(l[from], Combinations(l[from + 1..], size - 1)) + Expand(l, from + 1, size)
  }

  // ---------------------------------------------------------------------
  // Reference notions: subsequences, binomial coefficients, lexicographic order
  // ---------------------------------------------------------------------

  /** `c` is obtained from `l` by deleting elements, keeping the rest in order. */
  ghost predicate IsSubsequence<E>(c: seq<E>, l: seq<E>)
    decreases |l|
  {
    if c == [] then true
    else if l == [] then false
    else (c[0] == l[0] && IsSubsequence(c[1..], l[1..])) || IsSubsequence(c, l[1..])
  }

  /** Binomial coefficient by Pascal's rule; zero for k < 0 and for k > n. */
  function Binomial(n: nat, k: int): nat
  {
    if k < 0 then 0
    else if k == 0 then 1
    else if n == 0 then 0
    else Binomial(n - 1, k - 1) + Binomial(n - 1, k)
  }

  /** Strict lexicographic order on int lists (a proper prefix comes first). */
  predicate LexLess(a: seq<int>, b: seq<int>)
    decreases |a|
  {
    |b| > 0 && (|a| == 0 || a[0] < b[0] || (a[0] == b[0] && LexLess(a[1..], b[1..])))
  }

  predicate LexSorted(ss: seq<seq<int>>)
  {
    forall i, j :: 0 <= i < j < |ss| ==> LexLess(ss[i], ss[j])
  }

  predicate StrictlyIncreasing(s: seq<int>)
  {
    forall i, j :: 0 <= i < j < |s| ==> s[i] < s[j]
  }

  /** The positions 0, 1, ..., n - 1 of a list of length n. */
  function Positions(n: nat): (r: seq<int>)
    ensures |r| == n && StrictlyIncreasing(r)
    ensures forall i :: 0 <= i < n ==> r[i] == i
  {
    seq(n, i => i)
  }

  function MapSeq<A, B>(f: A -> B, s: seq<A>): (r: seq<B>)
    ensures |r| == |s| && forall i :: 0 <= i < |s| ==> r[i] == f(s[i])
  {
    seq(|s|, i requires 0 <= i < |s| => f(s[i]))
  }

  function MapAll<A, B>(f: A -> B, ss: seq<seq<A>>): (r: seq<seq<B>>)
    ensures |r| == |ss| && forall i :: 0 <= i < |ss| ==> r[i] == MapSeq(f, ss[i])
  {
    seq(|ss|, i requires 0 <= i < |ss| => MapSeq(f, ss[i]))
  }

  // ---------------------------------------------------------------------
  // Shape: every result has `size` elements and is a subsequence of `l`
  // ---------------------------------------------------------------------

  lemma {:induction false} SubsequenceAfter<E>(l: seq<E>, from: nat, j: nat, t: seq<E>)
    requires from <= j < |l|
    requires IsSubsequence(t, l[j + 1..])
    ensures IsSubsequence(Pipe(l[j], t), l[from..])
    decreases j - from
  {
    var c := Pipe(l[j], t);
    assert l[from..][1..] == l[from + 1..];
    if j == from {
      assert c[0] == l[from..][0] && c[1..] == t;
    } else {
      SubsequenceAfter(l, from + 1, j, t);
    }
  }

  lemma {:induction false} CombinationsShape<E>(l: seq<E>, size: int)
    ensures forall c :: c in Combinations(l, size) ==> |c| == size && IsSubsequence(c, l)
    decreases |l|, 1
  {
    if size != 0 {
      ExpandShape(l, 0, size);
      assert l[0..] == l;
    }
  }

  lemma {:induction false} ExpandShape<E>(l: seq<E>, from: nat, size: int)
    requires from <= |l|
    ensures forall c :: c in Expand(l, from, size) ==> |c| == size && IsSubsequence(c, l[from..])
    decreases |l|, 0, |l| - from
  {
    if from < |l| {
      var tails := Combinations(l[from + 1..], size - 1);
      CombinationsShape(l[from + 1..], size - 1);
      ExpandShape(l, from + 1, size);
      forall c | c in Expand(l, from, size)
        ensures |c| == size && IsSubsequence(c, l[from..])
      {
        if c in PipeAll(l[from], tails) {
          var i :| 0 <= i < |tails| && c == Pipe(l[from], tails[i]);
          assert tails[i] in tails;
          SubsequenceAfter(l, from, from, tails[i]);
        } else {
          assert c in Expand(l, from + 1, size);
          SubsequenceSkip(c, l, from);
        }
      }
    }
  }

  lemma {:induction false} SubsequenceSkip<E>(c: seq<E>, l: seq<E>, from: nat)
    requires from < |l|
    requires IsSubsequence(c, l[from + 1..])
    ensures IsSubsequence(c, l[from..])
  {
    assert l[from..][1..] == l[from + 1..];
  }

  // ---------------------------------------------------------------------
  // Completeness: every subsequence of the right length is produced
  // ---------------------------------------------------------------------

  /** Dropping the first element of `l` shifts the positions of `Expand` by one. */
  lemma {:induction false} ExpandShift<E>(l: seq<E>, from: nat, size: int)
    requires from < |l|
    ensures Expand(l, from + 1, size) == Expand(l[1..], from, size)
    decreases |l| - from
  {
    if from + 1 < |l| {
      assert l[1..][from] == l[from + 1];
      assert l[1..][from + 1..] == l[from + 2..];
      ExpandShift(l, from + 1, size);
    }
  }

  /**
   * Results are exactly the subsequences of `l` of length `size`:
   * both directions.
   */
  lemma {:induction false} CombinationsAreSubsequences<E>(l: seq<E>, c: seq<E>)
    ensures c in Combinations(l, |c|) <==> IsSubsequence(c, l)
  {
    CombinationsShape(l, |c|);
    if IsSubsequence(c, l) {
      SubsequenceProduced(l, c);
    }
  }

  lemma {:induction false} SubsequenceProduced<E>(l: seq<E>, c: seq<E>)
    requires IsSubsequence(c, l)
    ensures c in Combinations(l, |c|)
    decreases |l|
  {
    if c != [] {
      assert l != [];
      if c[0] == l[0] && IsSubsequence(c[1..], l[1..]) {
        SubsequenceProduced(l[1..], c[1..]);
        HeadProduced(l, c);
      } else {
        assert IsSubsequence(c, l[1..]);
        SubsequenceProduced(l[1..], c);
        ExpandShift(l, 0, |c|);
      }
    }
  }

  lemma HeadProduced<E>(l: seq<E>, c: seq<E>)
    requires l != [] && c != [] && c[0] == l[0]
    requires c[1..] in Combinations(l[1..], |c| - 1)
    ensures c in Combinations(l, |c|)
  {
    var tails := Combinations(l[0 + 1..], |c| - 1);
    assert l[0 + 1..] == l[1..];
    var i :| 0 <= i < |tails| && tails[i] == c[1..];
    assert PipeAll(l[0], tails)[i] == c;
    assert c in PipeAll(l[0], tails);
  }

  // ---------------------------------------------------------------------
  // Count: C(|l|, size) results, none for size < 0 or size > |l|
  // ---------------------------------------------------------------------

  lemma {:induction false} BinomialAboveN(n: nat, k: int)
    requires k > n
    ensures Binomial(n, k) == 0
  {
    if n > 0 {
      BinomialAboveN(n - 1, k - 1);
      BinomialAboveN(n - 1, k);
    }
  }

  lemma {:induction false} CombinationsCount<E>(l: seq<E>, size: int)
    ensures |Combinations(l, size)| == Binomial(|l|, size)
    ensures size == 0 ==> Combinations(l, size) == [[]]
    ensures size < 0 || size > |l| ==> Combinations(l, size) == []
    decreases |l|, 1
  {
    if size != 0 {
      ExpandCount(l, 0, size);
      if size > |l| {
        BinomialAboveN(|l|, size);
      }
    }
  }

  lemma {:induction false} ExpandCount<E>(l: seq<E>, from: nat, size: int)
    requires from <= |l| && size != 0
    ensures |Expand(l, from, size)| == Binomial(|l| - from, size)
    decreases |l|, 0, |l| - from
  {
    if from < |l| {
      var n := |l| - from;
      var first := PipeAll(l[from], Combinations(l[from + 1..], size - 1));
      assert Expand(l, from, size) == first + Expand(l, from + 1, size);
      CombinationsCount(l[from + 1..], size - 1);
      assert |first| == Binomial(n - 1, size - 1);
      ExpandCount(l, from + 1, size);
      assert Binomial(n, size) == Binomial(n - 1, size - 1) + Binomial(n - 1, size);
    }
  }

  // ---------------------------------------------------------------------
  // Order: lexicographic in the chosen positions
  // ---------------------------------------------------------------------

  lemma {:induction false} LexLessPipe(h: int, a: seq<int>, b: seq<int>)
    requires LexLess(a, b)
    ensures LexLess(Pipe(h, a), Pipe(h, b))
  {
    assert Pipe(h, a)[1..] == a && Pipe(h, b)[1..] == b;
  }

  lemma {:induction false} LexSortedConcat(a: seq<seq<int>>, b: seq<seq<int>>)
    requires LexSorted(a) && LexSorted(b)
    requires forall x, y :: x in a && y in b ==> LexLess(x, y)
    ensures LexSorted(a + b)
  {
    forall i, j | 0 <= i < j < |a + b| ensures LexLess((a + b)[i], (a + b)[j]) {
      if j < |a| {
        assert (a + b)[i] == a[i] && (a + b)[j] == a[j];
      } else if i >= |a| {
        assert (a + b)[i] == b[i - |a|] && (a + b)[j] == b[j - |a|];
      } else {
        assert (a + b)[i] == a[i] && (a + b)[j] == b[j - |a|];
        assert a[i] in a && b[j - |a|] in b;
      }
    }
  }

  /**
   * Over a strictly increasing list, the results of `Expand` from
   * position `from` are lexicographically sorted and each starts with an
   * element at position `from` or later.
   */
  lemma {:induction false} ExpandSorted(l: seq<int>, from: nat, size: int)
    requires from <= |l| && StrictlyIncreasing(l)
    ensures LexSorted(Expand(l, from, size))
    ensures forall c :: c in Expand(l, from, size) ==> |c| > 0 && c[0] in l[from..]
    decreases |l|, 0, |l| - from
  {
    if from < |l| {
      var tails := Combinations(l[from + 1..], size - 1);
      var block := PipeAll(l[from], tails);
      var rest := Expand(l, from + 1, size);
      CombinationsSorted(l[from + 1..], size - 1);
      ExpandSorted(l, from + 1, size);
      forall i, j | 0 <= i < j < |block| ensures LexLess(block[i], block[j]) {
        LexLessPipe(l[from], tails[i], tails[j]);
      }
      forall x, y | x in block && y in rest ensures LexLess(x, y) {
        assert x[0] == l[from];
        var k :| from + 1 <= k < |l| && y[0] == l[k] by {
          assert y[0] in l[from + 1..];
          var m :| 0 <= m < |l[from + 1..]| && l[from + 1..][m] == y[0];
          assert l[from + 1 + m] == y[0];
        }
      }
      LexSortedConcat(block, rest);
      forall c | c in block + rest ensures |c| > 0 && c[0] in l[from..] {
        if c in block {
          assert c[0] == l[from..][0];
        } else {
          assert c[0] in l[from + 1..];
          assert l[from + 1..] == l[from..][1..];
        }
      }
    }
  }

  lemma {:induction false} CombinationsSorted(l: seq<int>, size: int)
    requires StrictlyIncreasing(l)
    ensures LexSorted(Combinations(l, size))
    decreases |l|, 1
  {
    if size != 0 {
      ExpandSorted(l, 0, size);
    }
  }

  // ---------------------------------------------------------------------
  // Element-independence: results are the input picked at chosen positions
  // ---------------------------------------------------------------------

  lemma {:induction false} MapAllConcat<A, B>(f: A -> B, a: seq<seq<A>>, b: seq<seq<A>>)
    ensures MapAll(f, a + b) == MapAll(f, a) + MapAll(f, b)
  {
    assert forall i :: 0 <= i < |a| ==> (a + b)[i] == a[i];
    assert forall i :: |a| <= i < |a + b| ==> (a + b)[i] == b[i - |a|];
  }

  lemma {:induction false} MapAllPipe<A, B>(f: A -> B, h: A, tails: seq<seq<A>>)
    ensures MapAll(f, PipeAll(h, tails)) == PipeAll(f(h), MapAll(f, tails))
  {
    forall i | 0 <= i < |tails|
      ensures MapSeq(f, Pipe(h, tails[i])) == Pipe(f(h), MapSeq(f, tails[i]))
    {
      var x := MapSeq(f, Pipe(h, tails[i]));
      assert x[0] == f(h);
      assert forall j :: 1 <= j < |x| ==> x[j] == f(tails[i][j - 1]);
    }
  }

  /** Mapping the elements first or mapping the combinations afterwards gives the same lists. */
  lemma {:induction false} CombinationsNatural<A, B>(f: A -> B, l: seq<A>, size: int)
    ensures Combinations(MapSeq(f, l), size) == MapAll(f, Combinations(l, size))
    decreases |l|, 1
  {
    if size != 0 {
      ExpandNatural(f, l, 0, size);
    } else {
      assert MapSeq(f, []) == [];
    }
  }

  lemma {:induction false} ExpandNatural<A, B>(f: A -> B, l: seq<A>, from: nat, size: int)
    requires from <= |l|
    ensures Expand(MapSeq(f, l), from, size) == MapAll(f, Expand(l, from, size))
    decreases |l|, 0, |l| - from
  {
    if from < |l| {
      var m := MapSeq(f, l);
      var tails := Combinations(l[from + 1..], size - 1);
      assert m[from + 1..] == MapSeq(f, l[from + 1..]);
      CombinationsNatural(f, l[from + 1..], size - 1);
      ExpandNatural(f, l, from + 1, size);
      MapAllConcat(f, PipeAll(l[from], tails), Expand(l, from + 1, size));
      MapAllPipe(f, l[from], tails);
    }
  }

  /**
   * `combinations(l, size)` picks `l` at the position lists of
   * `combinations([0, ..., |l| - 1], size)`, and those position lists come
   * in strictly increasing lexicographic order.
   */
  lemma CombinationsByPosition<E>(l: seq<E>, size: int)
    requires |l| > 0
    ensures var at := (i: int) => if 0 <= i < |l| then l[i] else l[0];
            Combinations(l, size) == MapAll(at, Combinations(Positions(|l|), size))
    ensures LexSorted(Combinations(Positions(|l|), size))
  {
    var at := (i: int) => if 0 <= i < |l| then l[i] else l[0];
    assert MapSeq(at, Positions(|l|)) == l;
    CombinationsNatural(at, Positions(|l|), size);
    CombinationsSorted(Positions(|l|), size);
  }

  /** Size-one combinations are the one-element lists, in list order. */
  lemma {:induction false} ExpandOne<E>(l: seq<E>, from: nat)
    requires from <= |l|
    ensures Expand(l, from, 1) == seq(|l| - from, i requires 0 <= i < |l| - from => [l[from + i]])
    decreases |l| - from
  {
    if from < |l| {
      ExpandOne(l, from + 1);
      assert Combinations(l[from + 1..], 0) == [[]];
      assert Pipe(l[from], []) == [l[from]];
      assert PipeAll(l[from], [[]]) == [[l[from]]];
    }
  }

  /** The list of the example in Stream2.main. */
  const Letters: seq<char> := ['a', 'b', 'c', 'd']

  lemma LettersTail()
    ensures Expand(Letters, 3, 2) == []
    ensures Expand(Letters, 2, 2) == [['c', 'd']]
  {
    ExpandOne(Letters[3..], 0);
    ExpandOne(Letters[4..], 0);
    assert Expand(Letters, 3, 2) == PipeAll('d', Combinations(Letters[4..], 1)) + Expand(Letters, 4, 2);
    assert Combinations(Letters[3..], 1) == [['d']];
    assert Pipe('c', ['d']) == ['c', 'd'];
    assert PipeAll('c', [['d']]) == [['c', 'd']];
  }

  lemma PairsWithB()
    ensures PipeAll('b', Combinations(Letters[2..], 1)) == [['b', 'c'], ['b', 'd']]
  {
    ExpandOne(Letters[2..], 0);
    assert Combinations(Letters[2..], 1) == [['c'], ['d']];
    assert Pipe('b', ['c']) == ['b', 'c'] && Pipe('b', ['d']) == ['b', 'd'];
  }

  lemma LettersFromB()
    ensures Expand(Letters, 1, 2) == [['b', 'c'], ['b', 'd'], ['c', 'd']]
  {
    LettersTail();
    PairsWithB();
    assert Expand(Letters, 1, 2) == PipeAll('b', Combinations(Letters[2..], 1)) + Expand(Letters, 2, 2);
  }

  lemma LettersFromA()
    ensures PipeAll('a', Combinations(Letters[1..], 1)) == [['a', 'b'], ['a', 'c'], ['a', 'd']]
  {
    ExpandOne(Letters[1..], 0);
    assert Combinations(Letters[1..], 1) == [['b'], ['c'], ['d']];
    assert Pipe('a', ['b']) == ['a', 'b'] && Pipe('a', ['c']) == ['a', 'c'] && Pipe('a', ['d']) == ['a', 'd'];
  }

  /** The example of Stream2.main: the six pairs of a, b, c, d in order. */
  lemma PairsOfFour()
    ensures Combinations(Letters, 2) ==
            [['a', 'b'], ['a', 'c'], ['a', 'd'], ['b', 'c'], ['b', 'd'], ['c', 'd']]
  {
    LettersFromA();
    LettersFromB();
    assert Combinations(Letters, 2) == PipeAll('a', Combinations(Letters[1..], 1)) + Expand(Letters, 1, 2);
  }
}
