/** A union-find forest over the keys of a parent map, with path compression in
    `Find` and union by size in `Merge`.  A ghost rank, strictly increasing from
    a node to its parent, bounds every walk towards a root. */
module UnionFind {

  /** Every parent is a key and every non-root has a smaller rank than its parent. */
  ghost predicate Ranked<K>(p: map<K, K>, rank: map<K, nat>)
  {
    && p.Keys == rank.Keys
    && p.Values <= p.Keys
    && (forall x {:trigger p[x]} :: x in p && p[x] != x ==> rank[x] < rank[p[x]])
  }

  /** The keys ranked above `x`: this set shrinks along every walk to a root. */
  ghost function Above<K>(rank: map<K, nat>, x: K): set<K>
    requires x in rank
  {
    set y | y in rank.Keys && rank[y] > rank[x]
  }

  lemma AboveShrinks<K>(rank: map<K, nat>, x: K, y: K)
    requires x in rank && y in rank && rank[x] < rank[y]
    ensures Above(rank, y) < Above(rank, x)
  {
    assert y in Above(rank, x);
  }

  /** The representative of `x`: the root reached by following parents. */
  ghost function Root<K>(p: map<K, K>, rank: map<K, nat>, x: K): (r: K)
    requires Ranked(p, rank) && x in p
    ensures r in p && p[r] == r
    ensures rank[x] <= rank[r] && (p[x] != x ==> rank[x] < rank[r])
    decreases Above(rank, x)
  {
    if p[x] == x then x
    else
      AboveShrinks(rank, x, p[x]);
      Root(p, rank, p[x])
  }

  /** The nodes walked from `x` towards its root, the root excluded. */
  ghost function Path<K>(p: map<K, K>, rank: map<K, nat>, x: K): (s: set<K>)
    requires Ranked(p, rank) && x in p
    ensures forall y {:trigger y in s} :: y in s ==>
      y in p && p[y] != y && Root(p, rank, y) == Root(p, rank, x) && rank[y] < rank[Root(p, rank, x)]
    decreases Above(rank, x)
  {
    if p[x] == x then {}
    else
      AboveShrinks(rank, x, p[x]);
      {x} + Path(p, rank, p[x])
  }

  /** The parent map after every node of `s` has been pointed at `r`. */
  ghost function Compressed<K>(p: map<K, K>, s: set<K>, r: K): (q: map<K, K>)
    ensures q.Keys == p.Keys
    ensures forall y {:trigger q[y]} :: y in q ==> q[y] == if y in s then r else p[y]
  {
    map y | y in p :: if y in s then r else p[y]
  }

  /** The keys whose representative is `r`. */
  ghost function Component<K>(p: map<K, K>, rank: map<K, nat>, r: K): set<K>
    requires Ranked(p, rank)
  {
    set y | y in p.Keys && Root(p, rank, y) == r
  }

  // ---------------------------------------------------------------------------
  // Path compression keeps the ranking, the roots and every representative.

  /** The parent map once the walk from `e` points directly at its root. */
  ghost function AfterFind<K>(p: map<K, K>, rank: map<K, nat>, e: K): map<K, K>
    requires Ranked(p, rank) && e in p
  {
    Compressed(p, Path(p, rank, e), Root(p, rank, e))
  }

  lemma CompressKeepsRanked<K>(p: map<K, K>, rank: map<K, nat>, s: set<K>, r: K)
    requires Ranked(p, rank) && r in p && p[r] == r
    requires forall y {:trigger y in s} :: y in s ==> y in p && p[y] != y && rank[y] < rank[r]
    ensures Ranked(Compressed(p, s, r), rank)
  {
  }

  lemma {:induction false} CompressKeepsRoot<K>(p: map<K, K>, rank: map<K, nat>, s: set<K>, r: K, z: K)
    requires Ranked(p, rank) && r in p && p[r] == r
    requires forall y {:trigger y in s} :: y in s ==> y in p && p[y] != y && rank[y] < rank[r] && Root(p, rank, y) == r
    requires z in p
    ensures Ranked(Compressed(p, s, r), rank)
    ensures Root(Compressed(p, s, r), rank, z) == Root(p, rank, z)
    decreases Above(rank, z)
  {
    CompressKeepsRanked(p, rank, s, r);
    var q := Compressed(p, s, r);
    if p[z] == z {
      assert z !in s && q[z] == z;
    } else if z in s {
      assert q[z] == r && q[r] == r;
    } else {
      AboveShrinks(rank, z, p[z]);
      CompressKeepsRoot(p, rank, s, r, p[z]);
    }
  }

  /** After `Find(e)` the ranking still holds, the roots are the same nodes, every
      key keeps its representative and so every component is unchanged; each
      pointer is either unchanged or leads straight to the representative. */
  lemma FindKeeps<K>(p: map<K, K>, rank: map<K, nat>, e: K)
    requires Ranked(p, rank) && e in p
    ensures Ranked(AfterFind(p, rank, e), rank)
    ensures AfterFind(p, rank, e).Keys == p.Keys
    ensures forall x {:trigger AfterFind(p, rank, e)[x]} :: x in p ==>
      && (AfterFind(p, rank, e)[x] == x <==> p[x] == x)
      && (AfterFind(p, rank, e)[x] == p[x] || AfterFind(p, rank, e)[x] == Root(p, rank, x))
    ensures forall x {:trigger Root(AfterFind(p, rank, e), rank, x)} :: x in p ==>
      Root(AfterFind(p, rank, e), rank, x) == Root(p, rank, x)
    ensures forall r {:trigger Component(AfterFind(p, rank, e), rank, r)} ::
      Component(AfterFind(p, rank, e), rank, r) == Component(p, rank, r)
  {
    var s, r := Path(p, rank, e), Root(p, rank, e);
    var q := AfterFind(p, rank, e);
    CompressKeepsRanked(p, rank, s, r);
    forall x | x in p
      ensures Root(q, rank, x) == Root(p, rank, x)
    {
      CompressKeepsRoot(p, rank, s, r, x);
    }
    forall c
      ensures Component(q, rank, c) == Component(p, rank, c)
    {
      assert forall y :: y in Component(q, rank, c) <==> y in Component(p, rank, c);
    }
  }

  /** The second loop of `Find` has pointed the nodes of `walked` at `root` and
      stands at `node`; the rest of the walk from `e` lies ahead of it. */
  ghost predicate Walk<K>(p0: map<K, K>, rank: map<K, nat>, e: K, root: K, walked: set<K>, node: K, q: map<K, K>)
  {
    && Ranked(p0, rank) && e in p0 && node in p0
    && root == Root(p0, rank, e) && Root(p0, rank, node) == root
    && walked + Path(p0, rank, node) == Path(p0, rank, e)
    && (forall y {:trigger y in walked} :: y in walked ==> rank[y] < rank[node])
    && q == Compressed(p0, walked, root)
  }

  lemma WalkStart<K>(p0: map<K, K>, rank: map<K, nat>, e: K)
    requires Ranked(p0, rank) && e in p0
    ensures Walk(p0, rank, e, Root(p0, rank, e), {}, e, p0)
  {
    assert Compressed(p0, {}, Root(p0, rank, e)) == p0;
  }

  lemma WalkStep<K>(p0: map<K, K>, rank: map<K, nat>, e: K, root: K, walked: set<K>, node: K, q: map<K, K>)
    requires Walk(p0, rank, e, root, walked, node, q) && q[node] != root
    ensures q[node] == p0[node] && p0[node] != node && rank[node] < rank[p0[node]]
    ensures Walk(p0, rank, e, root, walked + {node}, p0[node], q[node := root])
  {
    assert node !in walked;
    var parent := p0[node];
    assert Path(p0, rank, node) == {node} + Path(p0, rank, parent);
    forall y | y in walked + {node}
      ensures rank[y] < rank[parent]
    {
    }
    assert q[node := root] == Compressed(p0, walked + {node}, root);
  }

  lemma WalkEnd<K>(p0: map<K, K>, rank: map<K, nat>, e: K, root: K, walked: set<K>, node: K, q: map<K, K>)
    requires Walk(p0, rank, e, root, walked, node, q) && q[node] == root
    ensures q == AfterFind(p0, rank, e)
  {
    if node != root {
      assert node !in walked && p0[node] == root;
      assert Path(p0, rank, node) == {node};
      assert q == Compressed(p0, walked + {node}, root);
    }
  }

  // ---------------------------------------------------------------------------
  // Hanging one root under another.

  /** The rank after root `l` is hung under root `w`: `w` rises above `l` when needed. */
  ghost function LinkRank<K>(rank: map<K, nat>, l: K, w: K): map<K, nat>
    requires l in rank && w in rank
  {
    rank[w := if rank[w] > rank[l] then rank[w] else rank[l] + 1]
  }

  /** The sizes after root `l` is hung under root `w`: `w` counts both. */
  function LinkSizes<K>(sizes: map<K, nat>, l: K, w: K): map<K, nat>
    requires l in sizes && w in sizes
  {
    sizes[w := sizes[w] + sizes[l]]
  }

  lemma LinkKeepsRanked<K>(p: map<K, K>, rank: map<K, nat>, l: K, w: K)
    requires Ranked(p, rank) && l in p && w in p && l != w && p[l] == l && p[w] == w
    ensures Ranked(p[l := w], LinkRank(rank, l, w))
  {
  }

  lemma {:induction false} LinkRoot<K>(p: map<K, K>, rank: map<K, nat>, l: K, w: K, z: K)
    requires Ranked(p, rank) && l in p && w in p && l != w && p[l] == l && p[w] == w
    requires z in p
    ensures Ranked(p[l := w], LinkRank(rank, l, w))
    ensures Root(p[l := w], LinkRank(rank, l, w), z) == if Root(p, rank, z) == l then w else Root(p, rank, z)
    decreases Above(rank, z)
  {
    LinkKeepsRanked(p, rank, l, w);
    var q := p[l := w];
    if z == l {
      assert q[l] == w && q[w] == w;
    } else if p[z] != z {
      AboveShrinks(rank, z, p[z]);
      LinkRoot(p, rank, l, w, p[z]);
    }
  }

  /** After hanging root `l` under root `w` the ranking still holds, the nodes of
      `l`'s component have representative `w`, no other node changes
      representative, and the component of `w` is the union of the two old
      components, which are disjoint. */
  lemma LinkKeeps<K>(p: map<K, K>, rank: map<K, nat>, l: K, w: K)
    requires Ranked(p, rank) && l in p && w in p && l != w && p[l] == l && p[w] == w
    ensures Ranked(p[l := w], LinkRank(rank, l, w))
    ensures forall x {:trigger Root(p[l := w], LinkRank(rank, l, w), x)} :: x in p ==>
      Root(p[l := w], LinkRank(rank, l, w), x) == if Root(p, rank, x) == l then w else Root(p, rank, x)
    ensures Component(p[l := w], LinkRank(rank, l, w), w) == Component(p, rank, w) + Component(p, rank, l)
    ensures Component(p, rank, w) !! Component(p, rank, l)
    ensures forall r {:trigger Component(p[l := w], LinkRank(rank, l, w), r)} :: r != w && r != l ==>
      Component(p[l := w], LinkRank(rank, l, w), r) == Component(p, rank, r)
  {
    LinkKeepsRanked(p, rank, l, w);
    var q, rank2 := p[l := w], LinkRank(rank, l, w);
    forall x | x in p
      ensures Root(q, rank2, x) == if Root(p, rank, x) == l then w else Root(p, rank, x)
    {
      LinkRoot(p, rank, l, w, x);
    }
    assert forall y :: y in Component(q, rank2, w) <==> y in Component(p, rank, w) + Component(p, rank, l);
    forall c | c != w && c != l
      ensures Component(q, rank2, c) == Component(p, rank, c)
    {
      assert forall y :: y in Component(q, rank2, c) <==> y in Component(p, rank, c);
    }
  }

  // ---------------------------------------------------------------------------
  // Sizes, and the two finds and the link of a merge.

  /** Each root's size is the number of keys it represents. */
  ghost predicate Counted<K>(p: map<K, K>, rank: map<K, nat>, sizes: map<K, nat>)
    requires Ranked(p, rank)
  {
    && sizes.Keys == p.Keys
    && forall r {:trigger Component(p, rank, r)} :: r in p && p[r] == r ==> sizes[r] == |Component(p, rank, r)|
  }

  lemma FindKeepsCounted<K>(p: map<K, K>, rank: map<K, nat>, sizes: map<K, nat>, e: K)
    requires Ranked(p, rank) && Counted(p, rank, sizes) && e in p
    ensures Ranked(AfterFind(p, rank, e), rank) && Counted(AfterFind(p, rank, e), rank, sizes)
  {
    FindKeeps(p, rank, e);
  }

  lemma LinkKeepsCounted<K>(p: map<K, K>, rank: map<K, nat>, sizes: map<K, nat>, l: K, w: K)
    requires Ranked(p, rank) && Counted(p, rank, sizes)
    requires l in p && w in p && l != w && p[l] == l && p[w] == w
    ensures Ranked(p[l := w], LinkRank(rank, l, w))
    ensures Counted(p[l := w], LinkRank(rank, l, w), LinkSizes(sizes, l, w))
  {
    LinkKeeps(p, rank, l, w);
    var q, rank2, sizes2 := p[l := w], LinkRank(rank, l, w), LinkSizes(sizes, l, w);
    forall r | r in q && q[r] == r
      ensures sizes2[r] == |Component(q, rank2, r)|
    {
      if r == w {
        assert Component(q, rank2, w) == Component(p, rank, w) + Component(p, rank, l);
        assert sizes[w] == |Component(p, rank, w)| && sizes[l] == |Component(p, rank, l)|;
      } else {
        assert Component(q, rank2, r) == Component(p, rank, r);
        assert sizes[r] == |Component(p, rank, r)|;
      }
    }
  }

  /** Of two distinct roots, the one that stays a root: the larger, or the
      first on a tie. */
  function Winner<K>(sizes: map<K, nat>, r1: K, r2: K): K
    requires r1 in sizes && r2 in sizes
  {
    if sizes[r1] < sizes[r2] then r2 else r1
  }

  /** The root that is hung under the winner. */
  function Loser<K>(sizes: map<K, nat>, r1: K, r2: K): K
    requires r1 in sizes && r2 in sizes
  {
    if sizes[r1] < sizes[r2] then r1 else r2
  }

  /** The parent map after `Find(e1)` and then `Find(e2)`. */
  ghost function AfterFinds<K>(p: map<K, K>, rank: map<K, nat>, e1: K, e2: K): (q: map<K, K>)
    requires Ranked(p, rank) && e1 in p && e2 in p
    ensures Ranked(q, rank) && q.Keys == p.Keys
  {
    FindKeeps(p, rank, e1);
    FindKeeps(AfterFind(p, rank, e1), rank, e2);
    AfterFind(AfterFind(p, rank, e1), rank, e2)
  }

  /** The parent map after merging `e1` and `e2`. */
  ghost function MergedParents<K>(p: map<K, K>, rank: map<K, nat>, sizes: map<K, nat>, e1: K, e2: K): map<K, K>
    requires Ranked(p, rank) && Counted(p, rank, sizes) && e1 in p && e2 in p
  {
    var r1, r2 := Root(p, rank, e1), Root(p, rank, e2);
    if r1 == r2 then AfterFinds(p, rank, e1, e2)
    else AfterFinds(p, rank, e1, e2)[Loser(sizes, r1, r2) := Winner(sizes, r1, r2)]
  }

  /** The sizes after merging `e1` and `e2`: the winner adds the loser's size. */
  ghost function MergedSizes<K>(p: map<K, K>, rank: map<K, nat>, sizes: map<K, nat>, e1: K, e2: K): map<K, nat>
    requires Ranked(p, rank) && Counted(p, rank, sizes) && e1 in p && e2 in p
  {
    var r1, r2 := Root(p, rank, e1), Root(p, rank, e2);
    if r1 == r2 then sizes else LinkSizes(sizes, Loser(sizes, r1, r2), Winner(sizes, r1, r2))
  }

  /** The ghost rank after merging `e1` and `e2`. */
  ghost function MergedRank<K>(p: map<K, K>, rank: map<K, nat>, sizes: map<K, nat>, e1: K, e2: K): map<K, nat>
    requires Ranked(p, rank) && Counted(p, rank, sizes) && e1 in p && e2 in p
  {
    var r1, r2 := Root(p, rank, e1), Root(p, rank, e2);
    if r1 == r2 then rank else LinkRank(rank, Loser(sizes, r1, r2), Winner(sizes, r1, r2))
  }

  /** A merge keeps the forest ranked and counted and its keys; afterwards the
      keys of both old components have the winner as representative and every
      other key keeps its representative; each pointer, except the loser's, is
      unchanged or leads straight to the old representative. */
  lemma MergeKeeps<K>(p: map<K, K>, rank: map<K, nat>, sizes: map<K, nat>, e1: K, e2: K)
    requires Ranked(p, rank) && Counted(p, rank, sizes) && e1 in p && e2 in p
    ensures Ranked(MergedParents(p, rank, sizes, e1, e2), MergedRank(p, rank, sizes, e1, e2))
    ensures Counted(MergedParents(p, rank, sizes, e1, e2), MergedRank(p, rank, sizes, e1, e2), MergedSizes(p, rank, sizes, e1, e2))
    ensures MergedParents(p, rank, sizes, e1, e2).Keys == p.Keys
    ensures var r1, r2 := Root(p, rank, e1), Root(p, rank, e2);
      forall x {:trigger Root(MergedParents(p, rank, sizes, e1, e2), MergedRank(p, rank, sizes, e1, e2), x)} :: x in p ==>
        Root(MergedParents(p, rank, sizes, e1, e2), MergedRank(p, rank, sizes, e1, e2), x)
        == if Root(p, rank, x) in {r1, r2} then Winner(sizes, r1, r2) else Root(p, rank, x)
    ensures var r1, r2 := Root(p, rank, e1), Root(p, rank, e2);
      forall x {:trigger MergedParents(p, rank, sizes, e1, e2)[x]} :: x in p && (r1 == r2 || x != Loser(sizes, r1, r2)) ==>
        var q := MergedParents(p, rank, sizes, e1, e2);
        q[x] == p[x] || q[x] == Root(p, rank, x)
    ensures Root(MergedParents(p, rank, sizes, e1, e2), MergedRank(p, rank, sizes, e1, e2), e1)
      == Root(MergedParents(p, rank, sizes, e1, e2), MergedRank(p, rank, sizes, e1, e2), e2)
    ensures var r1, r2 := Root(p, rank, e1), Root(p, rank, e2);
      var w, l := Winner(sizes, r1, r2), Loser(sizes, r1, r2);
      r1 != r2 ==>
        && sizes[l] <= sizes[w]
        && MergedParents(p, rank, sizes, e1, e2)[l] == w
        && MergedSizes(p, rank, sizes, e1, e2)[w] == sizes[r1] + sizes[r2]
  {
    var r1, r2 := Root(p, rank, e1), Root(p, rank, e2);
    var p1 := AfterFind(p, rank, e1);
    FindKeeps(p, rank, e1);
    FindKeeps(p1, rank, e2);
    FindKeepsCounted(p, rank, sizes, e1);
    FindKeepsCounted(p1, rank, sizes, e2);
    var p2 := AfterFinds(p, rank, e1, e2);
    assert Root(p2, rank, r1) == r1 && Root(p2, rank, r2) == r2;
    if r1 != r2 {
      var w, l := Winner(sizes, r1, r2), Loser(sizes, r1, r2);
      LinkKeeps(p2, rank, l, w);
      LinkKeepsCounted(p2, rank, sizes, l, w);
    }
  }

  // ---------------------------------------------------------------------------

  class DisjointSet<K(==)> {
    var parents: map<K, K>
    var sizes: map<K, nat>
    ghost var rank: map<K, nat>

    /** The forest is ranked, and each root's size counts its component. */
    ghost predicate Valid()
      reads this
    {
      Ranked(parents, rank) && Counted(parents, rank, sizes)
    }

    /** orthogonality.py: every element starts as a root of size 1. */
    constructor (elements: seq<K>)
      ensures Valid()
      ensures parents == map e | e in elements :: e
      ensures sizes == map e | e in elements :: 1
      ensures forall e :: e in elements ==> Root(parents, rank, e) == e
    {
      parents := map e | e in elements :: e;
      sizes := map e | e in elements :: 1;
      rank := map e | e in elements :: 0;
      new;
      forall r | r in parents
        ensures Component(parents, rank, r) == {r}
      {
      }
    }

    /** Walks to the root, then points every node of the walk directly at it. */
    method Find(e: K) returns (root: K)
      requires Valid() && e in parents
      modifies this
      ensures Valid()
      ensures root == old(Root(parents, rank, e))
      ensures parents == old(AfterFind(parents, rank, e))
      ensures root in parents && parents[root] == root
      ensures sizes == old(sizes) && rank == old(rank)
    {
      root := e;
      while parents[root] != root
        invariant parents == old(parents) && rank == old(rank) && sizes == old(sizes)
        invariant Valid() && root in parents && Root(parents, rank, root) == Root(parents, rank, e)
        decreases Above(rank, root)
      {
        AboveShrinks(rank, root, parents[root]);
        root := parents[root];
      }
      ghost var p0 := parents;
      ghost var walked: set<K> := {};
      WalkStart(p0, rank, e);
      var node := e;
      while parents[node] != root
        invariant p0 == old(parents) && rank == old(rank) && sizes == old(sizes)
        invariant Walk(p0, rank, e, root, walked, node, parents)
        decreases Above(rank, node)
      {
        WalkStep(p0, rank, e, root, walked, node, parents);
        AboveShrinks(rank, node, parents[node]);
        var parent := parents[node];
        parents := parents[node := root];
        walked := walked + {node};
        node := parent;
      }
      WalkEnd(p0, rank, e, root, walked, node, parents);
      FindKeeps(p0, rank, e);
    }

    /** Hangs root `l` under root `w`, whose size becomes the sum of both. */
    method Link(w: K, l: K)
      requires Valid() && w in parents && l in parents
      requires w != l && parents[w] == w && parents[l] == l
      modifies this
      ensures parents == old(parents)[l := w]
      ensures sizes == LinkSizes(old(sizes), l, w)
      ensures rank == LinkRank(old(rank), l, w)
      ensures Valid()
    {
      LinkKeepsCounted(parents, rank, sizes, l, w);
      parents, sizes, rank := parents[l := w], LinkSizes(sizes, l, w), LinkRank(rank, l, w);
    }

    /** Unites the components of `e1` and `e2`: the root of the smaller one (the
        second on a tie) is hung under the other, whose size becomes the sum.
        Merging two elements of one component only compresses paths. */
    method Merge(e1: K, e2: K)
      requires Valid() && e1 in parents && e2 in parents
      modifies this
      ensures Valid()
      ensures parents == MergedParents(old(parents), old(rank), old(sizes), e1, e2)
      ensures sizes == MergedSizes(old(parents), old(rank), old(sizes), e1, e2)
      ensures rank == MergedRank(old(parents), old(rank), old(sizes), e1, e2)
    {
      ghost var p0, rank0, s0 := parents, rank, sizes;
      MergeKeeps(p0, rank0, s0, e1, e2);
      FindKeeps(p0, rank0, e1);
      var root1 := Find(e1);
      var root2 := Find(e2);
      if root1 == root2 {
        return;
      }
      ghost var r1, r2 := root1, root2;
      assert r1 == Root(p0, rank0, e1) && r2 == Root(p0, rank0, e2) && sizes == s0;
      if sizes[root1] < sizes[root2] {
        root1, root2 := root2, root1;
      }
      assert root1 == Winner(s0, r1, r2) && root2 == Loser(s0, r1, r2);
      Link(root1, root2);
    }
  }
}
