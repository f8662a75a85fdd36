/** The orthogonality of a collection of card sorts: the weight of a minimum
    spanning tree of the complete graph on the sorts, where each edge weighs the
    distance between its two sorts, divided by the number of sorts. */
module Orthogonality {
  import opened CardSorts
  import opened DistanceMetric
  import opened Graphs
  import opened EdgeOrder
  import opened SpanningTree

  /** The order in which pairs of indices come out of `combinations`: by first
      index, then by second. */
  predicate Before(e: Edge<int>, f: Edge<int>)
  {
    e.0 < f.0 || (e.0 == f.0 && e.1 < f.1)
  }

  /** The edges from sort `i` to every later sort, weighed by their distance. */
  function Row<T>(sorts: seq<CardSort<T>>, i: nat): (r: seq<Item<int>>)
    requires i < |sorts| && MutuallyComparable(sorts)
    ensures |r| == |sorts| - 1 - i
    ensures forall k :: 0 <= k < |r| ==> r[k] == ((i, i + 1 + k), Distance(sorts[i], sorts[i + 1 + k]) as int)
  {
    seq(|sorts| - 1 - i, k requires 0 <= k < |sorts| - 1 - i =>
      assert sorts[i] in sorts && sorts[i + 1 + k] in sorts;
      ((i, i + 1 + k), Distance(sorts[i], sorts[i + 1 + k]) as int))
  }

  /** The items of the edge map, in map order, whose first index is at least `i`. */
  function EdgesFrom<T>(sorts: seq<CardSort<T>>, i: nat): (r: seq<Item<int>>)
    requires MutuallyComparable(sorts)
    decreases |sorts| - i
  {
    if i >= |sorts| then [] else Row(sorts, i) + EdgesFrom(sorts, i + 1)
  }

  /** orthogonality.py: one edge per pair of indices `a < b`, weighing the distance
      from sort `a` to sort `b`. */
  function CompleteEdges<T>(sorts: seq<CardSort<T>>): seq<Item<int>>
    requires MutuallyComparable(sorts)
  {
    EdgesFrom(sorts, 0)
  }

  /** Each item of the edge map from `i` on joins two indices `i <= a < b` and
      weighs the distance from sort `a` to sort `b`. */
  lemma {:induction false} EdgesFromItems<T>(sorts: seq<CardSort<T>>, i: nat)
    requires MutuallyComparable(sorts)
    ensures forall k :: 0 <= k < |EdgesFrom(sorts, i)| ==>
      var e := EdgesFrom(sorts, i)[k];
      && i <= e.0.0 < e.0.1 < |sorts|
      && e.1 == Distance(sorts[e.0.0], sorts[e.0.1]) as int
    decreases |sorts| - i
  {
    if i < |sorts| {
      var row, rest := Row(sorts, i), EdgesFrom(sorts, i + 1);
      EdgesFromItems(sorts, i + 1);
      var r := row + rest;
      assert EdgesFrom(sorts, i) == r;
      forall k | 0 <= k < |r|
        ensures i <= r[k].0.0 < r[k].0.1 < |sorts|
        ensures r[k].1 == Distance(sorts[r[k].0.0], sorts[r[k].0.1]) as int
      {
        if k < |row| {
          assert r[k] == row[k];
        } else {
          assert r[k] == rest[k - |row|];
        }
      }
    }
  }

  /** The edge map lists its pairs in the order of `combinations`, so none twice. */
  lemma {:induction false} EdgesFromOrdered<T>(sorts: seq<CardSort<T>>, i: nat)
    requires MutuallyComparable(sorts)
    ensures forall k, m :: 0 <= k < m < |EdgesFrom(sorts, i)| ==>
      Before(EdgesFrom(sorts, i)[k].0, EdgesFrom(sorts, i)[m].0)
    decreases |sorts| - i
  {
    if i < |sorts| {
      var row, rest := Row(sorts, i), EdgesFrom(sorts, i + 1);
      EdgesFromOrdered(sorts, i + 1);
      EdgesFromItems(sorts, i + 1);
      var r := row + rest;
      forall k, m | 0 <= k < m < |r|
        ensures Before(r[k].0, r[m].0)
      {
        if m < |row| {
        } else if k < |row| {
          assert r[m] == rest[m - |row|];
        } else {
          assert r[k] == rest[k - |row|] && r[m] == rest[m - |row|];
        }
      }
    }
  }

  /** Every pair `i <= a < b` of indices is an edge of the map. */
  lemma {:induction false} EdgesFromCovers<T>(sorts: seq<CardSort<T>>, i: nat)
    requires MutuallyComparable(sorts)
    ensures forall a, b :: i <= a < b < |sorts| ==> (a, b) in Edges(EdgesFrom(sorts, i))
    decreases |sorts| - i
  {
    if i < |sorts| {
      var row, rest := Row(sorts, i), EdgesFrom(sorts, i + 1);
      EdgesFromCovers(sorts, i + 1);
      var r := row + rest;
      forall a, b | i <= a < b < |sorts|
        ensures (a, b) in Edges(r)
      {
        if a == i {
          assert Edges(r)[b - i - 1] == (a, b);
        } else {
          var k :| 0 <= k < |rest| && Edges(rest)[k] == (a, b);
          assert Edges(r)[|row| + k] == (a, b);
        }
      }
    }
  }

  /** What `ComputeOrthogonality` needs of the edge map: its endpoints are indices,
      its weights are distances and so not negative, it lists no edge twice, and a
      single sort has no edges. */
  lemma CompleteEdgesFacts<T>(sorts: seq<CardSort<T>>)
    requires MutuallyComparable(sorts)
    ensures var edges := CompleteEdges(sorts);
      forall k :: 0 <= k < |edges| ==>
        edges[k].0.0 in Indices(|sorts|) && edges[k].0.1 in Indices(|sorts|) && edges[k].1 >= 0
    ensures DistinctEdges(CompleteEdges(sorts))
    ensures |sorts| == 1 ==> CompleteEdges(sorts) == []
  {
    var edges := CompleteEdges(sorts);
    var vertices := Indices(|sorts|);
    EdgesFromItems(sorts, 0);
    EdgesFromOrdered(sorts, 0);
    forall k | 0 <= k < |edges|
      ensures edges[k].0.0 in vertices && edges[k].0.1 in vertices
    {
      assert vertices[edges[k].0.0] == edges[k].0.0 && vertices[edges[k].0.1] == edges[k].0.1;
    }
    forall k, m | 0 <= k < m < |edges|
      ensures edges[k].0 != edges[m].0
    {
      assert Before(edges[k].0, edges[m].0);
    }
    if |sorts| == 1 {
      assert EdgesFrom(sorts, 1) == [];
    }
  }

  // ---------------------------------------------------------------------------
  // The tree's weight

  /** The weight recorded for each edge of an edge map. */
  ghost function WeightMap(items: seq<Item<int>>): (m: map<Edge<int>, int>)
    ensures m.Keys == set e | e in Edges(items)
  {
    if items == [] then map[]
    else
      var m := WeightMap(items[1..])[items[0].0 := items[0].1];
      assert forall e :: e in Edges(items) <==> e == items[0].0 || e in Edges(items[1..]) by {
        assert forall k :: 0 < k < |items| ==> Edges(items)[k] == Edges(items[1..])[k - 1];
        assert forall k :: 0 <= k < |items| - 1 ==> Edges(items[1..])[k] == Edges(items)[k + 1];
      }
      m
  }

  /** No edge is listed twice. */
  predicate DistinctEdges(items: seq<Item<int>>)
  {
    forall k, m :: 0 <= k < m < |items| ==> items[k].0 != items[m].0
  }

  /** The sum of the weights of the edges of `s`, taken in any order. */
  ghost function SumOver(s: set<Edge<int>>, weight: map<Edge<int>, int>): int
    requires s <= weight.Keys
  {
    if s == {} then 0
    else
      var e :| e in s;
      weight[e] + SumOver(s - {e}, weight)
  }

  /** Any edge can be taken first. */
  lemma {:induction false} SumOverRemove(s: set<Edge<int>>, weight: map<Edge<int>, int>, x: Edge<int>)
    requires s <= weight.Keys && x in s
    ensures SumOver(s, weight) == weight[x] + SumOver(s - {x}, weight)
    decreases |s|
  {
    var y :| y in s && SumOver(s, weight) == weight[y] + SumOver(s - {y}, weight);
    if y != x {
      SumOverRemove(s - {y}, weight, x);
      SumOverRemove(s - {x}, weight, y);
      assert s - {y} - {x} == s - {x} - {y};
    }
  }

  /** The sum reads only the weights of the edges summed. */
  lemma {:induction false} SumOverAgree(s: set<Edge<int>>, w1: map<Edge<int>, int>, w2: map<Edge<int>, int>)
    requires s <= w1.Keys && s <= w2.Keys
    requires forall e :: e in s ==> w1[e] == w2[e]
    ensures SumOver(s, w1) == SumOver(s, w2)
    decreases |s|
  {
    if s != {} {
      var x :| x in s;
      SumOverRemove(s, w1, x);
      SumOverRemove(s, w2, x);
      SumOverAgree(s - {x}, w1, w2);
    }
  }

  /** The weights of the listed edges that lie in `tree`. */
  function TreeWeight(items: seq<Item<int>>, tree: set<Edge<int>>): int
  {
    if items == [] then 0
    else (if items[0].0 in tree then items[0].1 else 0) + TreeWeight(items[1..], tree)
  }

  /** Summing the map's items that lie in the tree adds the weight of every tree edge
      of the map exactly once. */
  lemma {:induction false} TreeWeightIsSum(items: seq<Item<int>>, tree: set<Edge<int>>)
    requires DistinctEdges(items)
    ensures var keys := set e | e in Edges(items);
      TreeWeight(items, tree) == SumOver(tree * keys, WeightMap(items))
  {
    if items != [] {
      var h, t := items[0], items[1..];
      var keys, tailKeys := set e | e in Edges(items), set e | e in Edges(t);
      assert DistinctEdges(t) by {
        forall k, m | 0 <= k < m < |t|
          ensures t[k].0 != t[m].0
        {
          assert t[k] == items[k + 1] && t[m] == items[m + 1];
        }
      }
      TreeWeightIsSum(t, tree);
      assert h.0 !in tailKeys by {
        forall k | 0 <= k < |t|
          ensures Edges(t)[k] != h.0
        {
          assert t[k] == items[k + 1];
        }
      }
      var m := WeightMap(items);
      assert m == WeightMap(t)[h.0 := h.1];
      assert keys == tailKeys + {h.0};
      SumOverAgree(tree * tailKeys, WeightMap(t), m);
      if h.0 in tree {
        SumOverRemove(tree * keys, m, h.0);
        assert tree * keys - {h.0} == tree * tailKeys;
      } else {
        assert tree * keys == tree * tailKeys;
      }
    }
  }

  lemma {:induction false} TreeWeightNonNegative(items: seq<Item<int>>, tree: set<Edge<int>>)
    requires forall k :: 0 <= k < |items| ==> items[k].1 >= 0
    ensures TreeWeight(items, tree) >= 0
  {
    if items != [] {
      TreeWeightNonNegative(items[1..], tree);
    }
  }

  // ---------------------------------------------------------------------------

  /** The vertices of the complete graph: the indices of the sorts. */
  function Indices(n: nat): (vs: seq<int>)
    ensures |vs| == n && forall i :: 0 <= i < n ==> vs[i] == i
  {
    seq(n, i requires 0 <= i < n => i)
  }

  /** The tree that Kruskal's algorithm builds for a collection of sorts. */
  ghost function TreeOf<T>(sorts: seq<CardSort<T>>): set<Edge<int>>
    requires MutuallyComparable(sorts)
  {
    Kruskal(Edges(SortByWeight(CompleteEdges(sorts))))
  }

  /** orthogonality.py: the weight of the minimum spanning tree over the sorts
      divided by their number.  No sorts at all would divide by zero. */
  method ComputeOrthogonality<T>(sorts: seq<CardSort<T>>) returns (r: real)
    requires |sorts| > 0 && MutuallyComparable(sorts)
    ensures TreeOf(sorts) <= set e | e in Edges(CompleteEdges(sorts))
    ensures r == SumOver(TreeOf(sorts), WeightMap(CompleteEdges(sorts))) as real / |sorts| as real
    ensures r >= 0.0
    ensures |sorts| == 1 ==> r == 0.0
  {
    var edges := CompleteEdges(sorts);
    CompleteEdgesFacts(sorts);
    var tree := MinSpanningTree(Indices(|sorts|), edges);
    TreeOfWeight(sorts);
    var totalWeight := TreeWeight(edges, tree);
    r := totalWeight as real / |sorts| as real;
    QuotientNonNegative(totalWeight, |sorts|);
  }

  lemma QuotientNonNegative(a: int, n: int)
    requires a >= 0 && n > 0
    ensures a as real / n as real >= 0.0
  {
  }

  /** Summing the tree's edges over the edge map gives the tree's weight, which is
      not negative, and is 0 for a single sort. */
  lemma TreeOfWeight<T>(sorts: seq<CardSort<T>>)
    requires MutuallyComparable(sorts)
    ensures TreeOf(sorts) <= set e | e in Edges(CompleteEdges(sorts))
    ensures TreeWeight(CompleteEdges(sorts), TreeOf(sorts)) == SumOver(TreeOf(sorts), WeightMap(CompleteEdges(sorts)))
    ensures TreeWeight(CompleteEdges(sorts), TreeOf(sorts)) >= 0
    ensures |sorts| == 1 ==> TreeWeight(CompleteEdges(sorts), TreeOf(sorts)) == 0
  {
    CompleteEdgesFacts(sorts);
    TreeOfWeightIsSum(sorts);
    TreeWeightNonNegative(CompleteEdges(sorts), TreeOf(sorts));
  }

  lemma TreeOfWeightIsSum<T>(sorts: seq<CardSort<T>>)
    requires MutuallyComparable(sorts) && DistinctEdges(CompleteEdges(sorts))
    ensures TreeOf(sorts) <= set e | e in Edges(CompleteEdges(sorts))
    ensures TreeWeight(CompleteEdges(sorts), TreeOf(sorts)) == SumOver(TreeOf(sorts), WeightMap(CompleteEdges(sorts)))
  {
    var edges := CompleteEdges(sorts);
    var tree := TreeOf(sorts);
    var keys := set e | e in Edges(edges);
    KruskalOfItemsForest(edges);
    assert tree <= keys;
    TreeWeightIsSum(edges, tree);
    assert tree * keys == tree;
  }

  /** Every pair of distinct indices is an edge of the complete graph. */
  lemma PairIsEdge<T>(sorts: seq<CardSort<T>>, a: int, b: int)
    requires MutuallyComparable(sorts) && 0 <= a < |sorts| && 0 <= b < |sorts| && a != b
    ensures (if a < b then (a, b) else (b, a)) in Edges(CompleteEdges(sorts))
  {
    EdgesFromCovers(sorts, 0);
  }

  /** The tree spans every sort and closes no cycle: it is a spanning tree of the
      complete graph. */
  lemma TreeSpans<T>(sorts: seq<CardSort<T>>)
    requires MutuallyComparable(sorts)
    ensures IsForest(TreeOf(sorts))
    ensures forall a, b :: 0 <= a < |sorts| && 0 <= b < |sorts| ==> Connected(TreeOf(sorts), a, b)
  {
    var edges := CompleteEdges(sorts);
    var tree := TreeOf(sorts);
    KruskalOfItemsForest(edges);
    KruskalOfItemsSpans(edges);
    forall a, b | 0 <= a < |sorts| && 0 <= b < |sorts|
      ensures Connected(tree, a, b)
    {
      if a == b {
        ConnectedRefl(tree, a);
      } else {
        var e := if a < b then (a, b) else (b, a);
        PairIsEdge(sorts, a, b);
        var k :| 0 <= k < |edges| && Edges(edges)[k] == e;
        assert Connected(tree, edges[k].0.0, edges[k].0.1);
        if a > b {
          ConnectedSym(tree, b, a);
        }
      }
    }
  }
}
