/** Kruskal's algorithm over a weighted edge map: visit the edges by weight and
    keep each one whose endpoints are not yet connected, using a disjoint-set
    forest to tell. */
module SpanningTree {
  import opened Graphs
  import opened EdgeOrder
  import opened UnionFind

  /** The edges Kruskal's rule keeps from `es`, visited in order: an edge is kept
      exactly when the edges kept before it do not connect its endpoints. */
  ghost function Kruskal<K(!new)>(es: seq<Edge<K>>): set<Edge<K>>
  {
    if es == [] then {}
    else
      var f := Kruskal(es[..|es| - 1]);
      var e := es[|es| - 1];
      if Connected(f, e.0, e.1) then f else f + {e}
  }

  /** Kruskal keeps only edges it was given. */
  lemma {:induction false} KruskalSubset<K(!new)>(es: seq<Edge<K>>)
    ensures forall e :: e in Kruskal(es) ==> e in es
    decreases |es|
  {
    if es != [] {
      var front := es[..|es| - 1];
      KruskalSubset(front);
      assert forall e :: e in front ==> e in es;
    }
  }

  /** Kruskal never closes a cycle. */
  lemma {:induction false} KruskalForest<K(!new)>(es: seq<Edge<K>>)
    ensures IsForest(Kruskal(es))
    decreases |es|
  {
    if es != [] {
      var front := es[..|es| - 1];
      var e := es[|es| - 1];
      KruskalForest(front);
      if !Connected(Kruskal(front), e.0, e.1) {
        AddBridgeKeepsForest(Kruskal(front), e.0, e.1);
      }
    }
  }

  /** The endpoints of every edge given are connected through the edges kept. */
  lemma {:induction false} KruskalSpans<K(!new)>(es: seq<Edge<K>>)
    ensures forall k :: 0 <= k < |es| ==> Connected(Kruskal(es), es[k].0, es[k].1)
    decreases |es|
  {
    if es != [] {
      var front := es[..|es| - 1];
      var e := es[|es| - 1];
      var f := Kruskal(front);
      KruskalSpans(front);
      forall k | 0 <= k < |es|
        ensures Connected(Kruskal(es), es[k].0, es[k].1)
      {
        if k < |es| - 1 {
          assert es[k] == front[k];
          ConnectedMono(f, Kruskal(es), es[k].0, es[k].1);
        } else if !Connected(f, e.0, e.1) {
          ConnectedEdge(f + {e}, e.0, e.1);
        }
      }
    }
  }

  // ---------------------------------------------------------------------------
  // The forest's representatives follow connectivity through the kept edges.

  /** Two keys share a representative exactly when the edges `f` connect them. */
  ghost predicate Tracks<K(!new)>(p: map<K, K>, rank: map<K, nat>, f: set<Edge<K>>)
    requires Ranked(p, rank)
  {
    forall x, y {:trigger Connected(f, x, y)} :: x in p && y in p ==>
      (Root(p, rank, x) == Root(p, rank, y) <==> Connected(f, x, y))
  }

  lemma FindTracks<K(!new)>(p: map<K, K>, rank: map<K, nat>, e: K, f: set<Edge<K>>)
    requires Ranked(p, rank) && e in p && Tracks(p, rank, f)
    ensures Ranked(AfterFind(p, rank, e), rank) && Tracks(AfterFind(p, rank, e), rank, f)
  {
    FindKeeps(p, rank, e);
  }

  /** Merging the endpoints of an edge that joins two components follows adding
      that edge. */
  lemma MergeTracks<K(!new)>(p: map<K, K>, rank: map<K, nat>, sizes: map<K, nat>, e1: K, e2: K, f: set<Edge<K>>)
    requires Ranked(p, rank) && Counted(p, rank, sizes) && e1 in p && e2 in p
    requires Tracks(p, rank, f) && !Connected(f, e1, e2)
    ensures Ranked(MergedParents(p, rank, sizes, e1, e2), MergedRank(p, rank, sizes, e1, e2))
    ensures Tracks(MergedParents(p, rank, sizes, e1, e2), MergedRank(p, rank, sizes, e1, e2), f + {(e1, e2)})
  {
    MergeKeeps(p, rank, sizes, e1, e2);
    var q, rank2 := MergedParents(p, rank, sizes, e1, e2), MergedRank(p, rank, sizes, e1, e2);
    var r1, r2 := Root(p, rank, e1), Root(p, rank, e2);
    assert r1 != r2 by {
      ConnectedRefl(f, e1);
    }
    forall x, y | x in p && y in p
      ensures Root(q, rank2, x) == Root(q, rank2, y) <==> Connected(f + {(e1, e2)}, x, y)
    {
      ConnectedAddEdge(f, e1, e2, x, y);
      assert Connected(f, x, e1) <==> Root(p, rank, x) == r1;
      assert Connected(f, x, e2) <==> Root(p, rank, x) == r2;
      assert Connected(f, e1, y) <==> r1 == Root(p, rank, y);
      assert Connected(f, e2, y) <==> r2 == Root(p, rank, y);
      assert Connected(f, x, y) <==> Root(p, rank, x) == Root(p, rank, y);
    }
  }

  // ---------------------------------------------------------------------------

  /** One more visited edge is kept exactly when the edges kept so far do not
      connect its endpoints. */
  lemma KruskalStep<K(!new)>(es: seq<Edge<K>>, i: nat)
    requires i < |es|
    ensures Kruskal(es[..i + 1]) ==
      if Connected(Kruskal(es[..i]), es[i].0, es[i].1) then Kruskal(es[..i]) else Kruskal(es[..i]) + {es[i]}
  {
    assert es[..i + 1][..i] == es[..i];
  }

  /** Kruskal over the edge map's items in visiting order keeps only edges of the
      map, and closes no cycle. */
  lemma KruskalOfItemsForest<K(!new)>(edges: seq<Item<K>>)
    ensures forall e :: e in Kruskal(Edges(SortByWeight(edges))) ==> e in Edges(edges)
    ensures IsForest(Kruskal(Edges(SortByWeight(edges))))
  {
    var order := SortByWeight(edges);
    var es := Edges(order);
    KruskalSubset(es);
    KruskalForest(es);
    forall e | e in Kruskal(es)
      ensures e in Edges(edges)
    {
      var j :| 0 <= j < |es| && es[j] == e;
      assert order[j] in multiset(edges);
      var k :| 0 <= k < |edges| && edges[k] == order[j];
      assert Edges(edges)[k] == e;
    }
  }

  /** Kruskal over the edge map's items in visiting order connects the endpoints of
      every edge of the map. */
  lemma KruskalOfItemsSpans<K(!new)>(edges: seq<Item<K>>)
    ensures forall k :: 0 <= k < |edges| ==> Connected(Kruskal(Edges(SortByWeight(edges))), edges[k].0.0, edges[k].0.1)
  {
    var es := Edges(SortByWeight(edges));
    KruskalSpans(es);
    forall k | 0 <= k < |edges|
      ensures Connected(Kruskal(es), edges[k].0.0, edges[k].0.1)
    {
      var j := VisitedAt(edges, k);
    }
  }

  /** Where the `k`-th item of the map is visited. */
  lemma VisitedAt<K>(edges: seq<Item<K>>, k: nat) returns (j: nat)
    requires k < |edges|
    ensures j < |SortByWeight(edges)| && Edges(SortByWeight(edges))[j] == edges[k].0
  {
    var order := SortByWeight(edges);
    assert edges[k] in multiset(order);
    j :| j < |order| && order[j] == edges[k];
  }

  // ---------------------------------------------------------------------------

  /** orthogonality.py: Kruskal's algorithm.  `edges` lists the edge map's items in
      map order; every endpoint must be a vertex. */
  method MinSpanningTree<K(==, !new)>(vertices: seq<K>, edges: seq<Item<K>>) returns (f: set<Edge<K>>)
    requires forall k :: 0 <= k < |edges| ==> edges[k].0.0 in vertices && edges[k].0.1 in vertices
    ensures f == Kruskal(Edges(SortByWeight(edges)))
    ensures forall e :: e in f ==> e in Edges(edges)
    ensures IsForest(f)
    ensures forall k :: 0 <= k < |edges| ==> Connected(f, edges[k].0.0, edges[k].0.1)
  {
    f := {};
    var forest := new DisjointSet(vertices);
    var order := SortByWeight(edges);
    ghost var es := Edges(order);
    ghost var keys := forest.parents.Keys;
    assert forall v :: v in keys <==> v in vertices;
    forall x, y | x in keys && y in keys
      ensures Root(forest.parents, forest.rank, x) == Root(forest.parents, forest.rank, y) <==> Connected(f, x, y)
    {
      ConnectedNoEdges(x, y);
    }
    for i := 0 to |order|
      invariant forest.Valid() && forest.parents.Keys == keys
      invariant Tracks(forest.parents, forest.rank, f)
      invariant f == Kruskal(es[..i])
    {
      var (e, _) := order[i];
      var (e1, e2) := e;
      assert order[i] in multiset(edges);
      KruskalStep(es, i);
      ghost var p0 := forest.parents;
      FindTracks(p0, forest.rank, e1, f);
      FindKeeps(p0, forest.rank, e1);
      var root1 := forest.Find(e1);
      ghost var p1 := forest.parents;
      FindTracks(p1, forest.rank, e2, f);
      var root2 := forest.Find(e2);
      assert root1 == Root(p1, forest.rank, e1);
      assert root1 != root2 <==> !Connected(f, e1, e2);
      if root1 != root2 {
        MergeTracks(forest.parents, forest.rank, forest.sizes, e1, e2, f);
        MergeKeeps(forest.parents, forest.rank, forest.sizes, e1, e2);
        f := f + {e};
        forest.Merge(e1, e2);
      }
    }
    assert es[..|order|] == es;
    KruskalOfItemsForest(edges);
    KruskalOfItemsSpans(edges);
  }
}
