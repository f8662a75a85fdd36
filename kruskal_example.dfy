/** The seven-vertex graph of the spanning-tree test, replayed through the
    model: the visiting order that the stable sort gives, and the tree that
    Kruskal's rule keeps. */
module KruskalExample {
  import opened Graphs
  import opened EdgeOrder
  import opened SpanningTree

  const AB: Item<char> := (('A', 'B'), 7)
  const AD: Item<char> := (('A', 'D'), 5)
  const BC: Item<char> := (('B', 'C'), 8)
  const BD: Item<char> := (('B', 'D'), 9)
  const BE: Item<char> := (('B', 'E'), 7)
  const CE: Item<char> := (('C', 'E'), 5)
  const DE: Item<char> := (('D', 'E'), 15)
  const DF: Item<char> := (('D', 'F'), 6)
  const EF: Item<char> := (('E', 'F'), 8)
  const EG: Item<char> := (('E', 'G'), 9)
  const FG: Item<char> := (('F', 'G'), 11)

  /** The test's edge map, in map order. */
  const TestEdges: seq<Item<char>> := [AB, AD, BC, BD, BE, CE, DE, DF, EF, EG, FG]

  /** The order the stable sort visits them in. */
  const TestOrder: seq<Item<char>> := [AD, CE, DF, AB, BE, BC, EF, BD, EG, FG, DE]

  /** The edges alone, in visiting order. */
  const VisitedEdges: seq<Edge<char>> := [('A', 'D'), ('C', 'E'), ('D', 'F'), ('A', 'B'), ('B', 'E'), ('B', 'C'), ('E', 'F'), ('B', 'D'), ('E', 'G'), ('F', 'G'), ('D', 'E')]

  // ---------------------------------------------------------------------------
  // The sort, one insertion at a time

  /** Sorting puts the first item into the sorted rest. */
  lemma SortCons<K>(x: Item<K>, s: seq<Item<K>>)
    ensures SortByWeight([x] + s) == Insert(x, SortByWeight(s))
  {
    assert ([x] + s)[1..] == s;
  }

  /** Inserting `x` between the lighter items `p` and the rest `q`. */
  lemma {:induction false} InsertBetween<K>(x: Item<K>, p: seq<Item<K>>, q: seq<Item<K>>)
    requires forall y :: y in p ==> y.1 < x.1
    requires q == [] || x.1 <= q[0].1
    ensures Insert(x, p + q) == p + [x] + q
    decreases |p|
  {
    if p == [] {
      assert p + q == q;
    } else {
      var rest := p[1..];
      assert p + q == [p[0]] + (rest + q);
      InsertBetween(x, rest, q);
      assert p + [x] + q == [p[0]] + (rest + [x] + q);
    }
  }

  // The sort of the test's map is worked out one insertion at a time, for any
  // eleven items that weigh what the test's items weigh, `t[k]` standing for
  // the `k`-th item in map order.

  /** The weights of the test's edge map, in map order. */
  ghost predicate TestWeights<K>(t: seq<Item<K>>)
  {
    |t| == 11 && t[0].1 == 7 && t[1].1 == 5 && t[2].1 == 8 && t[3].1 == 9 && t[4].1 == 7 && t[5].1 == 5 && t[6].1 == 15 && t[7].1 == 6 && t[8].1 == 8 && t[9].1 == 9 && t[10].1 == 11
  }

  lemma Sort10<K>(t: seq<Item<K>>)
    requires TestWeights(t)
    ensures SortByWeight([t[10]]) == [t[10]]
  {
    SortCons(t[10], []);
  }

  lemma Sort9<K>(t: seq<Item<K>>)
    requires TestWeights(t)
    ensures SortByWeight([t[9], t[10]]) == [t[9], t[10]]
  {
    Sort10(t);
    SortCons(t[9], [t[10]]);
  }

  lemma Sort8<K>(t: seq<Item<K>>)
    requires TestWeights(t)
    ensures SortByWeight([t[8], t[9], t[10]]) == [t[8], t[9], t[10]]
  {
    Sort9(t);
    SortCons(t[8], [t[9], t[10]]);
  }

  lemma Sort7<K>(t: seq<Item<K>>)
    requires TestWeights(t)
    ensures SortByWeight([t[7], t[8], t[9], t[10]]) == [t[7], t[8], t[9], t[10]]
  {
    Sort8(t);
    SortCons(t[7], [t[8], t[9], t[10]]);
  }

  lemma Insert6Shape<K>(t: seq<K>)
    requires |t| == 11
    ensures [t[7], t[8], t[9], t[10]] + [] == [t[7], t[8], t[9], t[10]]
    ensures [t[7], t[8], t[9], t[10]] + [t[6]] + [] == [t[7], t[8], t[9], t[10], t[6]]
  {
  }

  lemma Insert6<K>(t: seq<Item<K>>)
    requires TestWeights(t)
    ensures Insert(t[6], [t[7], t[8], t[9], t[10]]) == [t[7], t[8], t[9], t[10], t[6]]
  {
    Insert6Shape(t);
    InsertBetween(t[6], [t[7], t[8], t[9], t[10]], []);
  }

  lemma Sort6<K>(t: seq<Item<K>>)
    requires TestWeights(t)
    ensures SortByWeight([t[6], t[7], t[8], t[9], t[10]]) == [t[7], t[8], t[9], t[10], t[6]]
  {
    Sort7(t);
    Insert6(t);
    SortCons(t[6], [t[7], t[8], t[9], t[10]]);
  }

  lemma Insert5Shape<K>(t: seq<K>)
    requires |t| == 11
    ensures [] + [t[7], t[8], t[9], t[10], t[6]] == [t[7], t[8], t[9], t[10], t[6]]
    ensures [] + [t[5]] + [t[7], t[8], t[9], t[10], t[6]] == [t[5], t[7], t[8], t[9], t[10], t[6]]
  {
  }

  lemma Insert5<K>(t: seq<Item<K>>)
    requires TestWeights(t)
    ensures Insert(t[5], [t[7], t[8], t[9], t[10], t[6]]) == [t[5], t[7], t[8], t[9], t[10], t[6]]
  {
    Insert5Shape(t);
    InsertBetween(t[5], [], [t[7], t[8], t[9], t[10], t[6]]);
  }

  lemma Sort5<K>(t: seq<Item<K>>)
    requires TestWeights(t)
    ensures SortByWeight([t[5], t[6], t[7], t[8], t[9], t[10]]) == [t[5], t[7], t[8], t[9], t[10], t[6]]
  {
    Sort6(t);
    Insert5(t);
    SortCons(t[5], [t[6], t[7], t[8], t[9], t[10]]);
  }

  lemma Insert4Shape<K>(t: seq<K>)
    requires |t| == 11
    ensures [t[5], t[7]] + [t[8], t[9], t[10], t[6]] == [t[5], t[7], t[8], t[9], t[10], t[6]]
    ensures [t[5], t[7]] + [t[4]] + [t[8], t[9], t[10], t[6]] == [t[5], t[7], t[4], t[8], t[9], t[10], t[6]]
  {
  }

  lemma Insert4<K>(t: seq<Item<K>>)
    requires TestWeights(t)
    ensures Insert(t[4], [t[5], t[7], t[8], t[9], t[10], t[6]]) == [t[5], t[7], t[4], t[8], t[9], t[10], t[6]]
  {
    Insert4Shape(t);
    InsertBetween(t[4], [t[5], t[7]], [t[8], t[9], t[10], t[6]]);
  }

  lemma Sort4<K>(t: seq<Item<K>>)
    requires TestWeights(t)
    ensures SortByWeight([t[4], t[5], t[6], t[7], t[8], t[9], t[10]]) == [t[5], t[7], t[4], t[8], t[9], t[10], t[6]]
  {
    Sort5(t);
    Insert4(t);
    SortCons(t[4], [t[5], t[6], t[7], t[8], t[9], t[10]]);
  }

  lemma Insert3Shape<K>(t: seq<K>)
    requires |t| == 11
    ensures [t[5], t[7], t[4], t[8]] + [t[9], t[10], t[6]] == [t[5], t[7], t[4], t[8], t[9], t[10], t[6]]
    ensures [t[5], t[7], t[4], t[8]] + [t[3]] + [t[9], t[10], t[6]] == [t[5], t[7], t[4], t[8], t[3], t[9], t[10], t[6]]
  {
  }

  lemma Insert3<K>(t: seq<Item<K>>)
    requires TestWeights(t)
    ensures Insert(t[3], [t[5], t[7], t[4], t[8], t[9], t[10], t[6]]) == [t[5], t[7], t[4], t[8], t[3], t[9], t[10], t[6]]
  {
    Insert3Shape(t);
    InsertBetween(t[3], [t[5], t[7], t[4], t[8]], [t[9], t[10], t[6]]);
  }

  lemma Sort3<K>(t: seq<Item<K>>)
    requires TestWeights(t)
    ensures SortByWeight([t[3], t[4], t[5], t[6], t[7], t[8], t[9], t[10]]) == [t[5], t[7], t[4], t[8], t[3], t[9], t[10], t[6]]
  {
    Sort4(t);
    Insert3(t);
    SortCons(t[3], [t[4], t[5], t[6], t[7], t[8], t[9], t[10]]);
  }

  lemma Insert2Shape<K>(t: seq<K>)
    requires |t| == 11
    ensures [t[5], t[7], t[4]] + [t[8], t[3], t[9], t[10], t[6]] == [t[5], t[7], t[4], t[8], t[3], t[9], t[10], t[6]]
    ensures [t[5], t[7], t[4]] + [t[2]] + [t[8], t[3], t[9], t[10], t[6]] == [t[5], t[7], t[4], t[2], t[8], t[3], t[9], t[10], t[6]]
  {
  }

  lemma Insert2<K>(t: seq<Item<K>>)
    requires TestWeights(t)
    ensures Insert(t[2], [t[5], t[7], t[4], t[8], t[3], t[9], t[10], t[6]]) == [t[5], t[7], t[4], t[2], t[8], t[3], t[9], t[10], t[6]]
  {
    Insert2Shape(t);
    InsertBetween(t[2], [t[5], t[7], t[4]], [t[8], t[3], t[9], t[10], t[6]]);
  }

  lemma Sort2<K>(t: seq<Item<K>>)
    requires TestWeights(t)
    ensures SortByWeight([t[2], t[3], t[4], t[5], t[6], t[7], t[8], t[9], t[10]]) == [t[5], t[7], t[4], t[2], t[8], t[3], t[9], t[10], t[6]]
  {
    Sort3(t);
    Insert2(t);
    SortCons(t[2], [t[3], t[4], t[5], t[6], t[7], t[8], t[9], t[10]]);
  }

  lemma Insert1Shape<K>(t: seq<K>)
    requires |t| == 11
    ensures [] + [t[5], t[7], t[4], t[2], t[8], t[3], t[9], t[10], t[6]] == [t[5], t[7], t[4], t[2], t[8], t[3], t[9], t[10], t[6]]
    ensures [] + [t[1]] + [t[5], t[7], t[4], t[2], t[8], t[3], t[9], t[10], t[6]] == [t[1], t[5], t[7], t[4], t[2], t[8], t[3], t[9], t[10], t[6]]
  {
  }

  lemma Insert1<K>(t: seq<Item<K>>)
    requires TestWeights(t)
    ensures Insert(t[1], [t[5], t[7], t[4], t[2], t[8], t[3], t[9], t[10], t[6]]) == [t[1], t[5], t[7], t[4], t[2], t[8], t[3], t[9], t[10], t[6]]
  {
    Insert1Shape(t);
    InsertBetween(t[1], [], [t[5], t[7], t[4], t[2], t[8], t[3], t[9], t[10], t[6]]);
  }

  lemma Sort1<K>(t: seq<Item<K>>)
    requires TestWeights(t)
    ensures SortByWeight([t[1], t[2], t[3], t[4], t[5], t[6], t[7], t[8], t[9], t[10]]) == [t[1], t[5], t[7], t[4], t[2], t[8], t[3], t[9], t[10], t[6]]
  {
    Sort2(t);
    Insert1(t);
    SortCons(t[1], [t[2], t[3], t[4], t[5], t[6], t[7], t[8], t[9], t[10]]);
  }

  lemma Insert0Shape<K>(t: seq<K>)
    requires |t| == 11
    ensures [t[1], t[5], t[7]] + [t[4], t[2], t[8], t[3], t[9], t[10], t[6]] == [t[1], t[5], t[7], t[4], t[2], t[8], t[3], t[9], t[10], t[6]]
    ensures [t[1], t[5], t[7]] + [t[0]] + [t[4], t[2], t[8], t[3], t[9], t[10], t[6]] == [t[1], t[5], t[7], t[0], t[4], t[2], t[8], t[3], t[9], t[10], t[6]]
  {
  }

  lemma Insert0<K>(t: seq<Item<K>>)
    requires TestWeights(t)
    ensures Insert(t[0], [t[1], t[5], t[7], t[4], t[2], t[8], t[3], t[9], t[10], t[6]]) == [t[1], t[5], t[7], t[0], t[4], t[2], t[8], t[3], t[9], t[10], t[6]]
  {
    Insert0Shape(t);
    InsertBetween(t[0], [t[1], t[5], t[7]], [t[4], t[2], t[8], t[3], t[9], t[10], t[6]]);
  }

  lemma Sort0<K>(t: seq<Item<K>>)
    requires TestWeights(t)
    ensures SortByWeight([t[0], t[1], t[2], t[3], t[4], t[5], t[6], t[7], t[8], t[9], t[10]]) == [t[1], t[5], t[7], t[0], t[4], t[2], t[8], t[3], t[9], t[10], t[6]]
  {
    Sort1(t);
    Insert0(t);
    SortCons(t[0], [t[1], t[2], t[3], t[4], t[5], t[6], t[7], t[8], t[9], t[10]]);
  }

  /** The stable sort visits the test's map as `TestOrder` lists: `AD` before
      `CE`, `AB` before `BE`, `BC` before `EF` and `BD` before `EG`, as in map
      order. */
  lemma SortTestEdges()
    ensures SortByWeight(TestEdges) == TestOrder
  {
    var t := TestEdges;
    Sort0(t);
    assert [t[0], t[1], t[2], t[3], t[4], t[5], t[6], t[7], t[8], t[9], t[10]] == TestEdges;
    assert [t[1], t[5], t[7], t[0], t[4], t[2], t[8], t[3], t[9], t[10], t[6]] == TestOrder;
  }

  // ---------------------------------------------------------------------------
  // Kruskal's rule, one visited edge at a time.  `VisitK` decides whether the
  // edges kept before the `K`-th visited edge connect its endpoints: a path when
  // they do, a partition of the vertices that no kept edge crosses when they
  // do not.  `TreeK` is the set kept from the first `K` visited edges.

  /** The visited edges. */
  lemma TestOrderEdges()
    ensures Edges(TestOrder) == VisitedEdges
  {
  }

  lemma Visit0()
    ensures !Connected({}, 'A', 'D')
  {
    ConnectedNoEdges('A', 'D');
  }

  lemma Visit1()
    ensures !Connected({('A', 'D')}, 'C', 'E')
  {
    ConnectedSamePart({('A', 'D')}, c => if c == 'C' then 1 else 0, 'C', 'E');
  }

  lemma Visit2()
    ensures !Connected({('A', 'D'), ('C', 'E')}, 'D', 'F')
  {
    ConnectedSamePart({('A', 'D'), ('C', 'E')}, c => if c == 'F' then 1 else 0, 'D', 'F');
  }

  lemma Visit3()
    ensures !Connected({('A', 'D'), ('C', 'E'), ('D', 'F')}, 'A', 'B')
  {
    ConnectedSamePart({('A', 'D'), ('C', 'E'), ('D', 'F')}, c => if c == 'B' then 1 else 0, 'A', 'B');
  }

  lemma Visit4()
    ensures !Connected({('A', 'D'), ('C', 'E'), ('D', 'F'), ('A', 'B')}, 'B', 'E')
  {
    ConnectedSamePart({('A', 'D'), ('C', 'E'), ('D', 'F'), ('A', 'B')}, c => if c == 'C' || c == 'E' then 1 else 0, 'B', 'E');
  }

  lemma Visit5()
    ensures Connected({('A', 'D'), ('C', 'E'), ('D', 'F'), ('A', 'B'), ('B', 'E')}, 'B', 'C')
  {
    assert IsPath({('A', 'D'), ('C', 'E'), ('D', 'F'), ('A', 'B'), ('B', 'E')}, ['B', 'E', 'C']);
  }

  lemma Visit6()
    ensures Connected({('A', 'D'), ('C', 'E'), ('D', 'F'), ('A', 'B'), ('B', 'E')}, 'E', 'F')
  {
    assert IsPath({('A', 'D'), ('C', 'E'), ('D', 'F'), ('A', 'B'), ('B', 'E')}, ['E', 'B', 'A', 'D', 'F']);
  }

  lemma Visit7()
    ensures Connected({('A', 'D'), ('C', 'E'), ('D', 'F'), ('A', 'B'), ('B', 'E')}, 'B', 'D')
  {
    assert IsPath({('A', 'D'), ('C', 'E'), ('D', 'F'), ('A', 'B'), ('B', 'E')}, ['B', 'A', 'D']);
  }

  lemma Visit8()
    ensures !Connected({('A', 'D'), ('C', 'E'), ('D', 'F'), ('A', 'B'), ('B', 'E')}, 'E', 'G')
  {
    ConnectedSamePart({('A', 'D'), ('C', 'E'), ('D', 'F'), ('A', 'B'), ('B', 'E')}, c => if c == 'G' then 1 else 0, 'E', 'G');
  }

  lemma Visit9()
    ensures Connected({('A', 'D'), ('C', 'E'), ('D', 'F'), ('A', 'B'), ('B', 'E'), ('E', 'G')}, 'F', 'G')
  {
    assert IsPath({('A', 'D'), ('C', 'E'), ('D', 'F'), ('A', 'B'), ('B', 'E'), ('E', 'G')}, ['F', 'D', 'A', 'B', 'E', 'G']);
  }

  lemma Visit10()
    ensures Connected({('A', 'D'), ('C', 'E'), ('D', 'F'), ('A', 'B'), ('B', 'E'), ('E', 'G')}, 'D', 'E')
  {
    assert IsPath({('A', 'D'), ('C', 'E'), ('D', 'F'), ('A', 'B'), ('B', 'E'), ('E', 'G')}, ['D', 'A', 'B', 'E']);
  }

  lemma Tree0(es: seq<Edge<char>>)
    requires es == VisitedEdges
    ensures Kruskal(es[..0]) == {}
  {
    assert es[..0] == [];
  }

  lemma Tree1(es: seq<Edge<char>>)
    requires es == VisitedEdges
    ensures Kruskal(es[..1]) == {('A', 'D')}
  {
    Tree0(es);
    Visit0();
    KruskalStep(es, 0);
  }

  lemma Tree2(es: seq<Edge<char>>)
    requires es == VisitedEdges
    ensures Kruskal(es[..2]) == {('A', 'D'), ('C', 'E')}
  {
    Tree1(es);
    Visit1();
    KruskalStep(es, 1);
  }

  lemma Tree3(es: seq<Edge<char>>)
    requires es == VisitedEdges
    ensures Kruskal(es[..3]) == {('A', 'D'), ('C', 'E'), ('D', 'F')}
  {
    Tree2(es);
    Visit2();
    KruskalStep(es, 2);
  }

  lemma Tree4(es: seq<Edge<char>>)
    requires es == VisitedEdges
    ensures Kruskal(es[..4]) == {('A', 'D'), ('C', 'E'), ('D', 'F'), ('A', 'B')}
  {
    Tree3(es);
    Visit3();
    KruskalStep(es, 3);
  }

  lemma Tree5(es: seq<Edge<char>>)
    requires es == VisitedEdges
    ensures Kruskal(es[..5]) == {('A', 'D'), ('C', 'E'), ('D', 'F'), ('A', 'B'), ('B', 'E')}
  {
    Tree4(es);
    Visit4();
    KruskalStep(es, 4);
  }

  lemma Tree6(es: seq<Edge<char>>)
    requires es == VisitedEdges
    ensures Kruskal(es[..6]) == {('A', 'D'), ('C', 'E'), ('D', 'F'), ('A', 'B'), ('B', 'E')}
  {
    Tree5(es);
    Visit5();
    KruskalStep(es, 5);
  }

  lemma Tree7(es: seq<Edge<char>>)
    requires es == VisitedEdges
    ensures Kruskal(es[..7]) == {('A', 'D'), ('C', 'E'), ('D', 'F'), ('A', 'B'), ('B', 'E')}
  {
    Tree6(es);
    Visit6();
    KruskalStep(es, 6);
  }

  lemma Tree8(es: seq<Edge<char>>)
    requires es == VisitedEdges
    ensures Kruskal(es[..8]) == {('A', 'D'), ('C', 'E'), ('D', 'F'), ('A', 'B'), ('B', 'E')}
  {
    Tree7(es);
    Visit7();
    KruskalStep(es, 7);
  }

  lemma Tree9(es: seq<Edge<char>>)
    requires es == VisitedEdges
    ensures Kruskal(es[..9]) == {('A', 'D'), ('C', 'E'), ('D', 'F'), ('A', 'B'), ('B', 'E'), ('E', 'G')}
  {
    Tree8(es);
    Visit8();
    KruskalStep(es, 8);
  }

  lemma Tree10(es: seq<Edge<char>>)
    requires es == VisitedEdges
    ensures Kruskal(es[..10]) == {('A', 'D'), ('C', 'E'), ('D', 'F'), ('A', 'B'), ('B', 'E'), ('E', 'G')}
  {
    Tree9(es);
    Visit9();
    KruskalStep(es, 9);
  }

  lemma Tree11(es: seq<Edge<char>>)
    requires es == VisitedEdges
    ensures Kruskal(es[..11]) == {('A', 'D'), ('C', 'E'), ('D', 'F'), ('A', 'B'), ('B', 'E'), ('E', 'G')}
    ensures Kruskal(es) == Kruskal(es[..11])
  {
    Tree10(es);
    Visit10();
    KruskalStep(es, 10);
    WholeSlice(es);
  }

  /** The whole of a sequence is its slice up to its length. */
  lemma WholeSlice<T>(s: seq<T>)
    ensures s[..|s|] == s
  {
  }

  /** Kruskal's rule keeps exactly the tree the test expects. */
  lemma SevenVertexTree(edges: seq<Item<char>>)
    requires edges == TestEdges
    ensures Kruskal(Edges(SortByWeight(edges))) == {('E', 'G'), ('A', 'B'), ('D', 'F'), ('C', 'E'), ('B', 'E'), ('A', 'D')}
  {
    SortTestEdges();
    TestOrderEdges();
    var es := Edges(SortByWeight(edges));
    Tree11(es);
  }
}
