/** The order in which Kruskal's algorithm visits a weighted edge map: its items
    sorted by weight, items of equal weight kept in map order.  The sort itself is
    Python's stable `sorted`; it is specified here by an insertion sort. */
module EdgeOrder {
  import opened Graphs

  /** An item of the edge map: an edge and its weight. */
  type Item<K> = (Edge<K>, int)

  predicate SortedByWeight<K>(s: seq<Item<K>>)
  {
    forall i, j :: 0 <= i < j < |s| ==> s[i].1 <= s[j].1
  }

  /** The items of weight `w`, in order. */
  function WithWeight<K>(s: seq<Item<K>>, w: int): (r: seq<Item<K>>)
    ensures forall x :: x in r ==> x in s && x.1 == w
  {
    if s == [] then []
    else if s[0].1 == w then [s[0]] + WithWeight(s[1..], w)
    else WithWeight(s[1..], w)
  }

  /** Puts `x` in front of the first item that weighs at least as much. */
  function Insert<K>(x: Item<K>, s: seq<Item<K>>): (r: seq<Item<K>>)
    ensures multiset(r) == multiset(s) + multiset{x}
  {
    if s == [] then [x]
    else if x.1 <= s[0].1 then [x] + s
    else
      assert s == [s[0]] + s[1..];
      [s[0]] + Insert(x, s[1..])
  }

  /** The edge map's items in visiting order. */
  function SortByWeight<K>(s: seq<Item<K>>): (r: seq<Item<K>>)
    ensures multiset(r) == multiset(s)
  {
    if s == [] then []
    else
      assert s == [s[0]] + s[1..];
      Insert(s[0], SortByWeight(s[1..]))
  }

  /** The edges alone, in order. */
  function Edges<K>(s: seq<Item<K>>): (es: seq<Edge<K>>)
    ensures |es| == |s| && forall i :: 0 <= i < |s| ==> es[i] == s[i].0
  {
    seq(|s|, i requires 0 <= i < |s| => s[i].0)
  }

  lemma {:induction false} InsertSorted<K>(x: Item<K>, s: seq<Item<K>>)
    requires SortedByWeight(s)
    ensures SortedByWeight(Insert(x, s))
    decreases |s|
  {
    if s != [] && x.1 > s[0].1 {
      InsertSorted(x, s[1..]);
      var r := Insert(x, s[1..]);
      assert multiset(r) == multiset(s[1..]) + multiset{x};
      forall y | y in r
        ensures s[0].1 <= y.1
      {
        assert y in multiset(r);
        if y != x {
          assert y in multiset(s[1..]);
        }
      }
    }
  }

  /** The visiting order never decreases in weight. */
  lemma {:induction false} SortByWeightSorted<K>(s: seq<Item<K>>)
    ensures SortedByWeight(SortByWeight(s))
    decreases |s|
  {
    if s != [] {
      SortByWeightSorted(s[1..]);
      InsertSorted(s[0], SortByWeight(s[1..]));
    }
  }

  /** Inserting `x` adds it in front of the items of its own weight and leaves the
      items of every other weight alone. */
  lemma {:induction false} WithWeightInsert<K>(x: Item<K>, s: seq<Item<K>>, w: int)
    ensures WithWeight(Insert(x, s), w) == if x.1 == w then [x] + WithWeight(s, w) else WithWeight(s, w)
    decreases |s|
  {
    if s == [] {
    } else if x.1 <= s[0].1 {
      assert ([x] + s)[1..] == s;
    } else {
      WithWeightInsert(x, s[1..], w);
      assert ([s[0]] + Insert(x, s[1..]))[1..] == Insert(x, s[1..]);
      if x.1 == w {
        assert s[0].1 != w;
      }
    }
  }

  /** The sort is stable: for every weight, the items of that weight appear in the
      visiting order exactly as they appear in the map. */
  lemma {:induction false} SortByWeightStable<K>(s: seq<Item<K>>, w: int)
    ensures WithWeight(SortByWeight(s), w) == WithWeight(s, w)
    decreases |s|
  {
    if s != [] {
      SortByWeightStable(s[1..], w);
      WithWeightInsert(s[0], SortByWeight(s[1..]), w);
    }
  }
}
