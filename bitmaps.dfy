/**
 * A compressed bitmap (RoaringBitmap) seen through its contents: a finite
 * set of ints. Compression, run-optimisation and trimming do not change the
 * contents and are not modelled; what is modelled is the ascending
 * iteration order and the counting done over iterated elements.
 */
module Bitmaps {

  /** Some element of a non-empty set; a witness for `:|` over sets of ints. */
  ghost function Pick<T>(s: set<T>): (y: T)
    requires s != {}
    ensures y in s
  {
    var y :| y in s; y
  }

  /** The least element of a non-empty set, found by removing one element at a time. */
  ghost function LeastOf(s: set<int>): (m: int)
    requires s != {}
    ensures m in s && forall x :: x in s ==> m <= x
    decreases |s|
  {
    var y := Pick(s);
    var rest := s - {y};
    assert forall x :: x in s ==> x == y || x in rest;
    if rest == {} then y
    else
      var m := LeastOf(rest);
      if y < m then y else m
  }

  /** The least element of a non-empty set. */
  function Min(s: set<int>): (m: int)
    requires s != {}
    ensures m in s && forall x :: x in s ==> m <= x
  {
    // LeastOf is the witness that the choice below can be made
    var least := LeastOf(s);
    var m :| m in s && forall x :: x in s ==> m <= x;
    m
  }

  /**
   * The order a bitmap keeps its ints in: RoaringBitmap compares them as
   * unsigned 32-bit values, so the non-negative ints come first, ascending,
   * and the negative ones after them, ascending.
   */
  predicate Before(a: int, b: int)
  {
    if (a < 0) == (b < 0) then a < b else b < 0
  }

  /** `Before` is a strict total order. */
  lemma BeforeIsOrder(a: int, b: int, c: int)
    ensures !Before(a, a)
    ensures a != b ==> Before(a, b) || Before(b, a)
    ensures Before(a, b) ==> !Before(b, a)
    ensures Before(a, b) && Before(b, c) ==> Before(a, c)
  {
  }

  /** The first int of a non-empty bitmap in its iteration order (RoaringBitmap.first). */
  function First(s: set<int>): (m: int)
    requires s != {}
    ensures m in s && forall x :: x in s && x != m ==> Before(m, x)
  {
    var naturals := set x | x in s && x >= 0;
    if naturals != {} then
      var m := Min(naturals);
      assert forall x :: x in s && x != m ==> Before(m, x) by {
        forall x | x in s && x != m ensures Before(m, x) {
          if x >= 0 {
            assert x in naturals;
          }
        }
      }
      m
    else
      assert forall x :: x in s ==> x < 0 by {
        forall x | x in s ensures x < 0 {
          assert x >= 0 ==> x in naturals;
        }
      }
      Min(s)
  }

  /**
   * The iteration order of a bitmap: its elements in ascending unsigned
   * order, each exactly once.
   */
  function Ascending(s: set<int>): (r: seq<int>)
    ensures |r| == |s|
    ensures forall x :: x in r <==> x in s
    ensures forall i, j :: 0 <= i < j < |r| ==> Before(r[i], r[j])
    decreases |s|
  {
    if s == {} then []
    else
      var m := First(s);
      [m] + Ascending(s - {m})
  }

  /** The members of `s` that the iteration visits before `u`. */
  function Preceding(s: set<int>, u: int): (r: set<int>)
    ensures r <= s && u !in r
    ensures forall w :: w in r <==> w in s && Before(w, u)
  {
    BeforeIsOrder(u, u, u);
    set w | w in s && Before(w, u)
  }

  /** The position of `u` in the iteration of `s`, were it a member. */
  function Position(s: set<int>, u: int): (r: nat)
  {
    |Preceding(s, u)|
  }

  /**
   * The member at position `k` of the iteration, as an array container
   * holds it in `content[k]`.
   */
  function Select(s: set<int>, k: nat): (v: int)
    requires k < |s|
    ensures v in s
    decreases k
  {
    var m := First(s);
    if k == 0 then m else Select(s - {m}, k - 1)
  }

  /** The member at position `k` has exactly `k` members before it. */
  lemma {:induction false} SelectPosition(s: set<int>, k: nat)
    requires k < |s|
    ensures Position(s, Select(s, k)) == k
    decreases k
  {
    var m := First(s);
    var u := Select(s, k);
    if k == 0 {
      forall w | w in Preceding(s, m) ensures false {
        BeforeIsOrder(m, w, w);
      }
      assert Preceding(s, m) == {};
    } else {
      var rest := s - {m};
      SelectPosition(rest, k - 1);
      assert u in rest;
      BeforeIsOrder(u, m, m);
      assert Preceding(s, u) == Preceding(rest, u) + {m};
    }
  }

  /** A member with `k` members before it is the one at position `k`. */
  lemma SelectUnique(s: set<int>, k: nat, v: int)
    requires v in s && Position(s, v) == k
    ensures k < |s| && Select(s, k) == v
  {
    PositionBound(s, v);
    var u := Select(s, k);
    SelectPosition(s, k);
    if u != v {
      PositionsDiffer(s, u, v);
    }
  }

  /** A member's position lies within the iteration. */
  lemma PositionBound(s: set<int>, u: int)
    requires u in s
    ensures Position(s, u) < |s|
  {
    SubsetCardinality(Preceding(s, u), s);
  }

  /** Adding members never moves a member to an earlier position. */
  lemma PositionGrows(s: set<int>, t: set<int>, u: int)
    requires s <= t
    ensures Position(s, u) <= Position(t, u)
  {
    SubsetCardinality(Preceding(s, u), Preceding(t, u));
  }

  /** Two different members have different positions. */
  lemma PositionsDiffer(s: set<int>, u: int, v: int)
    requires u in s && v in s && u != v
    ensures Position(s, u) != Position(s, v)
  {
    BeforeIsOrder(u, v, v);
    if Before(u, v) {
      forall w | w in Preceding(s, u) ensures w in Preceding(s, v) {
        BeforeIsOrder(w, u, v);
      }
      assert u in Preceding(s, v);
      SubsetCardinality(Preceding(s, u), Preceding(s, v));
    } else {
      forall w | w in Preceding(s, v) ensures w in Preceding(s, u) {
        BeforeIsOrder(w, v, u);
      }
      assert v in Preceding(s, u);
      SubsetCardinality(Preceding(s, v), Preceding(s, u));
    }
  }

  /** How many elements of `xs`, counted with multiplicity, lie in `t`. */
  function CountIn(xs: seq<int>, t: set<int>): (n: nat)
    ensures n <= |xs|
  {
    if xs == [] then 0 else (if xs[0] in t then 1 else 0) + CountIn(xs[1..], t)
  }

  lemma {:induction false} CountInAppend(a: seq<int>, b: seq<int>, t: set<int>)
    ensures CountIn(a + b, t) == CountIn(a, t) + CountIn(b, t)
  {
    if a != [] {
      assert (a + b)[1..] == a[1..] + b;
      CountInAppend(a[1..], b, t);
    } else {
      assert a + b == b;
    }
  }

  /** Counting the iterated elements of a bitmap that lie in `t` gives |s ∩ t|. */
  lemma {:induction false} CountInAscending(s: set<int>, t: set<int>)
    ensures CountIn(Ascending(s), t) == |s * t|
    decreases |s|
  {
    if s != {} {
      var m := First(s);
      var rest := Ascending(s - {m});
      assert Ascending(s) == [m] + rest;
      assert ([m] + rest)[1..] == rest;
      CountInAscending(s - {m}, t);
      IntersectionWithout(s, t, m);
    }
  }

  /** Taking one element out of `s` takes it out of `s ∩ t` when it was there. */
  lemma IntersectionWithout(s: set<int>, t: set<int>, m: int)
    requires m in s
    ensures |s * t| == (if m in t then 1 else 0) + |(s - {m}) * t|
  {
    var r := (s - {m}) * t;
    if m in t {
      assert s * t == r + {m};
    } else {
      assert s * t == r;
    }
  }

  /** A sequence without repeated elements has as many elements as its set. */
  lemma {:induction false} DistinctCardinality(xs: seq<int>)
    requires forall i, j :: 0 <= i < j < |xs| ==> xs[i] != xs[j]
    ensures |set x | x in xs| == |xs|
  {
    if xs != [] {
      DistinctCardinality(xs[1..]);
      assert (set x | x in xs) == (set x | x in xs[1..]) + {xs[0]};
      assert xs[0] !in (set x | x in xs[1..]);
    } else {
      assert (set x | x in xs) == {};
    }
  }

  /** A subset has at most as many elements, and fewer when it misses one. */
  lemma {:induction false} SubsetCardinality<T>(a: set<T>, b: set<T>)
    requires a <= b
    ensures |a| <= |b|
    ensures a != b ==> |a| < |b|
    decreases |b|
  {
    if a != b {
      assert exists y :: y in b && y !in a;
      var x :| x in b && x !in a;
      SubsetCardinality(a, b - {x});
    }
  }

  /** A set covered by the image of `f` on `x` has at most `|x|` elements. */
  lemma {:induction false} ImageCardinality<A, B>(x: set<A>, y: set<B>, f: A -> B)
    requires forall b :: b in y ==> exists a :: a in x && f(a) == b
    ensures |y| <= |x|
    decreases |x|
  {
    if y != {} {
      var b := Pick(y);
      var a :| a in x && f(a) == b;
      var x', y' := x - {a}, y - {f(a)};
      forall b | b in y' ensures exists a' :: a' in x' && f(a') == b {
        var c :| c in x && f(c) == b;
        assert c != a;
        assert c in x';
      }
      ImageCardinality(x', y', f);
      assert y <= y' + {f(a)};
      SubsetCardinality(y, y' + {f(a)});
    }
  }

  /** A set that is not a subset of `b` has an element outside `b`. */
  lemma NotSubset<T>(a: set<T>, b: set<T>)
    requires !(a <= b)
    ensures a - b != {}
  {
    assert exists x :: x in a && x !in b;
    var x :| x in a && x !in b;
    assert x in a - b;
  }
}
