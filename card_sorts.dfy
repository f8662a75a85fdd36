/** Card sorts: a card sort is a sequence of groups, each group a set of cards. */
module CardSorts {

  type Group<T> = set<T>
  type CardSort<T> = seq<Group<T>>

  /** The number of cards in a sort, counted group by group. */
  function TotalCards<T>(s: CardSort<T>): nat
  {
    if s == [] then 0 else |s[0]| + TotalCards(s[1..])
  }

  /** The assignment solver needs at least one row and one column; the only
      degenerate case the distance handles itself is "both sorts have no groups". */
  predicate Comparable<T>(s1: CardSort<T>, s2: CardSort<T>)
  {
    (|s1| == 0) == (|s2| == 0)
  }

  /** Every two members of a collection can be measured against each other:
      either all have groups or none has. */
  predicate MutuallyComparable<T>(sorts: seq<CardSort<T>>)
  {
    (forall a :: a in sorts ==> |a| == 0) || (forall a :: a in sorts ==> |a| > 0)
  }

  lemma {:induction false} TotalCardsAppend<T>(a: CardSort<T>, b: CardSort<T>)
    ensures TotalCards(a + b) == TotalCards(a) + TotalCards(b)
  {
    if a != [] {
      assert (a + b)[1..] == a[1..] + b;
      TotalCardsAppend(a[1..], b);
    } else {
      assert a + b == b;
    }
  }

  /** An intersection never has more cards than either side. */
  lemma IntersectionAtMost<T>(a: Group<T>, b: Group<T>)
    ensures |a * b| <= |a| && |a * b| <= |b|
  {
    assert |a * b| + |a - b| == |a| by {
      assert (a * b) + (a - b) == a;
      assert (a * b) * (a - b) == {};
    }
    assert |a * b| + |b - a| == |b| by {
      assert (a * b) + (b - a) == b;
      assert (a * b) * (b - a) == {};
    }
  }
}
