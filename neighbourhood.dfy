/** The d-neighbourhood of a probe sort: the sorts of a collection, in their
    order and with repetitions, whose distance from the probe is at most d. */
module NeighbourhoodFilter {
  import opened CardSorts
  import opened DistanceMetric

  /** `a` can be obtained from `b` by deleting elements. */
  ghost predicate IsSubsequence<X>(a: seq<X>, b: seq<X>)
    decreases |b|
  {
    if a == [] then true
    else if b == [] then false
    else if a[0] == b[0] then IsSubsequence(a[1..], b[1..])
    else IsSubsequence(a, b[1..])
  }

  /** Every sort of `sorts` can be measured against `probe`. */
  predicate ComparableWith<T>(probe: CardSort<T>, sorts: seq<CardSort<T>>)
  {
    forall s :: s in sorts ==> Comparable(probe, s)
  }

  /** neighbourhood.py: keep the sorts within `d` of the probe, measured from the probe. */
  function Neighbourhood<T>(d: int, probe: CardSort<T>, sorts: seq<CardSort<T>>): (r: seq<CardSort<T>>)
    requires ComparableWith(probe, sorts)
    ensures |r| <= |sorts|
    ensures forall s :: s in r ==> s in sorts && Distance(probe, s) <= d
  {
    if sorts == [] then []
    else
      var rest := Neighbourhood(d, probe, sorts[1..]);
      assert sorts == [sorts[0]] + sorts[1..];
      if Distance(probe, sorts[0]) <= d then [sorts[0]] + rest else rest
  }

  /** The neighbourhood keeps every close sort, as often as the collection holds it,
      and nothing else. */
  lemma {:induction false} NeighbourhoodMultiplicity<T>(d: int, probe: CardSort<T>, sorts: seq<CardSort<T>>)
    requires ComparableWith(probe, sorts)
    ensures forall s :: s in sorts ==>
      multiset(Neighbourhood(d, probe, sorts))[s] == if Distance(probe, s) <= d then multiset(sorts)[s] else 0
    ensures forall s :: s in sorts && Distance(probe, s) <= d ==> s in Neighbourhood(d, probe, sorts)
    decreases |sorts|
  {
    if sorts != [] {
      NeighbourhoodMultiplicity(d, probe, sorts[1..]);
      assert sorts == [sorts[0]] + sorts[1..];
    }
  }

  /** A subsequence of `b` is a subsequence of `b` with an element put in front. */
  lemma {:induction false} SubsequenceOfTail<X>(a: seq<X>, b: seq<X>, x: X)
    requires IsSubsequence(a, b)
    ensures IsSubsequence(a, [x] + b)
    decreases |b|, 1
  {
    assert ([x] + b)[1..] == b;
    if a != [] && a[0] == x {
      DropFirst(a, b);
    }
  }

  /** Dropping the first element of a subsequence keeps it a subsequence. */
  lemma {:induction false} DropFirst<X>(a: seq<X>, b: seq<X>)
    requires a != [] && IsSubsequence(a, b)
    ensures IsSubsequence(a[1..], b)
    decreases |b|, 0
  {
    assert [b[0]] + b[1..] == b;
    if a[0] != b[0] {
      DropFirst(a, b[1..]);
    }
    SubsequenceOfTail(a[1..], b[1..], b[0]);
  }

  /** The neighbourhood keeps the input order. */
  lemma {:induction false} NeighbourhoodIsSubsequence<T>(d: int, probe: CardSort<T>, sorts: seq<CardSort<T>>)
    requires ComparableWith(probe, sorts)
    ensures IsSubsequence(Neighbourhood(d, probe, sorts), sorts)
    decreases |sorts|
  {
    if sorts != [] {
      var rest := Neighbourhood(d, probe, sorts[1..]);
      NeighbourhoodIsSubsequence(d, probe, sorts[1..]);
      if Distance(probe, sorts[0]) <= d {
        assert ([sorts[0]] + rest)[1..] == rest;
      } else {
        SubsequenceOfTail(rest, sorts[1..], sorts[0]);
        assert [sorts[0]] + sorts[1..] == sorts;
      }
    }
  }

  /** A larger threshold never loses a sort: the smaller neighbourhood is a
      subsequence of the larger one. */
  lemma {:induction false} NeighbourhoodMonotone<T>(d1: int, d2: int, probe: CardSort<T>, sorts: seq<CardSort<T>>)
    requires d1 <= d2 && ComparableWith(probe, sorts)
    ensures IsSubsequence(Neighbourhood(d1, probe, sorts), Neighbourhood(d2, probe, sorts))
    decreases |sorts|
  {
    if sorts != [] {
      var r1 := Neighbourhood(d1, probe, sorts[1..]);
      var r2 := Neighbourhood(d2, probe, sorts[1..]);
      NeighbourhoodMonotone(d1, d2, probe, sorts[1..]);
      if Distance(probe, sorts[0]) <= d1 {
        assert ([sorts[0]] + r1)[1..] == r1;
        assert ([sorts[0]] + r2)[1..] == r2;
      } else if Distance(probe, sorts[0]) <= d2 {
        SubsequenceOfTail(r1, r2, sorts[0]);
      }
    }
  }

  /** For a threshold of at least 0 the probe is in its neighbourhood exactly
      when the collection holds it. */
  lemma ProbeInNeighbourhoodIffPresent<T>(d: int, probe: CardSort<T>, sorts: seq<CardSort<T>>)
    requires ComparableWith(probe, sorts) && d >= 0
    ensures probe in Neighbourhood(d, probe, sorts) <==> probe in sorts
  {
    DistanceToSelf(probe);
  }
}
