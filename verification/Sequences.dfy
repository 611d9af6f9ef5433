/** The two ends of a sequence, the concatenation of many, and how many elements finite sets have. */
module Sequences {
  function Last<T>(xs: seq<T>): T
    requires |xs| >= 1
  {
    xs[|xs| - 1]
  }

  function Init<T>(xs: seq<T>): seq<T>
    requires |xs| >= 1
  {
    xs[..|xs| - 1]
  }

  /** All elements of a sequence of sequences, in order. */
  function Flatten<T>(xss: seq<seq<T>>): seq<T> {
    if xss == [] then [] else Flatten(Init(xss)) + Last(xss)
  }

  lemma FlattenLast<T>(xss: seq<seq<T>>, xs: seq<T>)
    ensures Flatten(xss + [xs]) == Flatten(xss) + xs
  {
    assert Init(xss + [xs]) == xss;
  }

  function Elements<T>(xs: seq<T>): set<T> {
    set x | x in xs
  }

  lemma CardinalityMonotone<T>(a: set<T>, b: set<T>)
    requires a <= b
    ensures |a| <= |b|
    ensures a != b ==> |a| < |b|
  {
    assert b == a + (b - a);
  }

  /** The more is taken away, the less is left. */
  lemma FewerLeft<T>(all: set<T>, a: set<T>, b: set<T>)
    requires a <= b
    ensures |all - b| <= |all - a|
  {
    CardinalityMonotone(all - b, all - a);
  }

  lemma OneFewerLeft<T>(all: set<T>, a: set<T>, b: set<T>, x: T)
    requires a <= b && x in all && x in b && x !in a
    ensures |all - b| < |all - a|
  {
    CardinalityMonotone(all - b, all - a);
  }

  /** A list without repetition is no longer than the set it is taken from. */
  lemma {:induction false} DistinctBound<T>(p: seq<T>, all: set<T>)
    requires forall i :: 0 <= i < |p| ==> p[i] in all
    requires forall i, j :: 0 <= i < j < |p| ==> p[i] != p[j]
    ensures |p| <= |all|
  {
    if p != [] {
      var k := |p| - 1;
      forall i | 0 <= i < k ensures p[..k][i] in all - {p[k]} {
        assert p[i] in all && p[i] != p[k];
      }
      DistinctBound(p[..k], all - {p[k]});
    }
  }
}
