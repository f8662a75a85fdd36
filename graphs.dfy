/** Undirected graphs given by edge sets: paths, connectivity and forests. */
module Graphs {

  /** An edge joins its two endpoints; the graph is undirected. */
  type Edge<K> = (K, K)

  ghost predicate Adjacent<K>(es: set<Edge<K>>, x: K, y: K)
  {
    (x, y) in es || (y, x) in es
  }

  /** A non-empty walk whose consecutive nodes are joined by edges of `es`. */
  ghost predicate IsPath<K>(es: set<Edge<K>>, p: seq<K>)
  {
    |p| > 0 && forall i :: 0 <= i < |p| - 1 ==> Adjacent(es, p[i], p[i + 1])
  }

  /** Some path of `es` leads from `u` to `v`. */
  ghost predicate Connected<K(!new)>(es: set<Edge<K>>, u: K, v: K)
  {
    exists p :: IsPath(es, p) && p[0] == u && p[|p| - 1] == v
  }

  /** No edge closes a cycle: removing any edge disconnects its endpoints. */
  ghost predicate IsForest<K(!new)>(es: set<Edge<K>>)
  {
    forall e :: e in es ==> !Connected(es - {e}, e.0, e.1)
  }

  // ---------------------------------------------------------------------------
  // Connectivity is an equivalence, grows with the edge set, and is trivial
  // without edges.

  lemma ConnectedRefl<K(!new)>(es: set<Edge<K>>, x: K)
    ensures Connected(es, x, x)
  {
    assert IsPath(es, [x]);
  }

  lemma ConnectedEdge<K(!new)>(es: set<Edge<K>>, x: K, y: K)
    requires Adjacent(es, x, y)
    ensures Connected(es, x, y)
  {
    assert IsPath(es, [x, y]);
  }

  lemma ConnectedSym<K(!new)>(es: set<Edge<K>>, x: K, y: K)
    requires Connected(es, x, y)
    ensures Connected(es, y, x)
  {
    var p :| IsPath(es, p) && p[0] == x && p[|p| - 1] == y;
    var q := seq(|p|, i requires 0 <= i < |p| => p[|p| - 1 - i]);
    forall i | 0 <= i < |q| - 1
      ensures Adjacent(es, q[i], q[i + 1])
    {
      assert Adjacent(es, p[|p| - 2 - i], p[|p| - 1 - i]);
    }
    assert IsPath(es, q);
  }

  lemma ConnectedTrans<K(!new)>(es: set<Edge<K>>, x: K, y: K, z: K)
    requires Connected(es, x, y) && Connected(es, y, z)
    ensures Connected(es, x, z)
  {
    var p :| IsPath(es, p) && p[0] == x && p[|p| - 1] == y;
    var q :| IsPath(es, q) && q[0] == y && q[|q| - 1] == z;
    var r := p + q[1..];
    forall i | 0 <= i < |r| - 1
      ensures Adjacent(es, r[i], r[i + 1])
    {
      if i < |p| - 1 {
        assert r[i] == p[i] && r[i + 1] == p[i + 1];
      } else {
        var j := i - |p| + 1;
        assert r[i] == q[j] && r[i + 1] == q[j + 1];
      }
    }
    assert IsPath(es, r);
  }

  lemma ConnectedMono<K(!new)>(es: set<Edge<K>>, fs: set<Edge<K>>, x: K, y: K)
    requires es <= fs && Connected(es, x, y)
    ensures Connected(fs, x, y)
  {
    var p :| IsPath(es, p) && p[0] == x && p[|p| - 1] == y;
    assert IsPath(fs, p);
  }

  /** A path of two or more nodes uses an edge. */
  lemma PathHasEdge<K>(es: set<Edge<K>>, p: seq<K>)
    requires IsPath(es, p) && |p| > 1
    ensures es != {}
  {
    assert Adjacent(es, p[0], p[1]);
  }

  lemma ConnectedNoEdges<K(!new)>(x: K, y: K)
    ensures Connected({}, x, y) <==> x == y
  {
    if Connected({}, x, y) {
      var p :| IsPath({}, p) && p[0] == x && p[|p| - 1] == y;
      if |p| > 1 {
        PathHasEdge({}, p);
        assert false;
      }
    } else {
      ConnectedRefl({}, x);
    }
  }

  /** A partition that agrees across every edge is constant along a path. */
  lemma {:induction false} PartAlongPath<K>(es: set<Edge<K>>, part: K -> int, p: seq<K>, i: nat)
    requires forall e :: e in es ==> part(e.0) == part(e.1)
    requires IsPath(es, p) && i < |p|
    ensures part(p[i]) == part(p[0])
    decreases i
  {
    if i > 0 {
      PartAlongPath(es, part, p, i - 1);
      assert Adjacent(es, p[i - 1], p[i]);
    }
  }

  /** Nodes that a partition agreeing across every edge tells apart are not
      connected. */
  lemma ConnectedSamePart<K(!new)>(es: set<Edge<K>>, part: K -> int, x: K, y: K)
    requires forall e :: e in es ==> part(e.0) == part(e.1)
    ensures Connected(es, x, y) ==> part(x) == part(y)
  {
    if Connected(es, x, y) {
      var p :| IsPath(es, p) && p[0] == x && p[|p| - 1] == y;
      PartAlongPath(es, part, p, |p| - 1);
    }
  }

  // ---------------------------------------------------------------------------
  // Adding one edge

  /** A path that may use the new edge `(a, b)` splits at it. */
  lemma {:induction false} SplitPath<K(!new)>(es: set<Edge<K>>, a: K, b: K, p: seq<K>)
    requires IsPath(es + {(a, b)}, p)
    ensures var x, y := p[0], p[|p| - 1];
      || Connected(es, x, y)
      || (Connected(es, x, a) && Connected(es, b, y))
      || (Connected(es, x, b) && Connected(es, a, y))
    decreases |p|
  {
    var x, y := p[0], p[|p| - 1];
    if |p| == 1 {
      ConnectedRefl(es, x);
    } else {
      var front := p[..|p| - 1];
      var w := front[|front| - 1];
      assert IsPath(es + {(a, b)}, front) by {
        forall i | 0 <= i < |front| - 1
          ensures Adjacent(es + {(a, b)}, front[i], front[i + 1])
        {
          assert front[i] == p[i] && front[i + 1] == p[i + 1];
        }
      }
      SplitPath(es, a, b, front);
      assert front[0] == x && w == p[|p| - 2];
      assert Adjacent(es + {(a, b)}, w, y);
      if Adjacent(es, w, y) {
        ConnectedEdge(es, w, y);
        if Connected(es, x, w) {
          ConnectedTrans(es, x, w, y);
        } else if Connected(es, x, a) && Connected(es, b, w) {
          ConnectedTrans(es, b, w, y);
        } else {
          ConnectedTrans(es, a, w, y);
        }
      } else if w == a && y == b {
        ConnectedRefl(es, b);
        if Connected(es, x, a) && Connected(es, b, a) {
          ConnectedSym(es, b, a);
          ConnectedTrans(es, x, a, b);
        }
      } else {
        assert w == b && y == a;
        ConnectedRefl(es, a);
        if Connected(es, x, b) && Connected(es, a, b) {
          ConnectedSym(es, a, b);
          ConnectedTrans(es, x, b, a);
        }
      }
    }
  }

  /** After adding `(a, b)`, `x` and `y` are connected exactly when they were, or
      one reaches `a` and the other `b`. */
  lemma ConnectedAddEdge<K(!new)>(es: set<Edge<K>>, a: K, b: K, x: K, y: K)
    ensures Connected(es + {(a, b)}, x, y) <==>
      || Connected(es, x, y)
      || (Connected(es, x, a) && Connected(es, b, y))
      || (Connected(es, x, b) && Connected(es, a, y))
  {
    var fs := es + {(a, b)};
    if Connected(fs, x, y) {
      var p :| IsPath(fs, p) && p[0] == x && p[|p| - 1] == y;
      SplitPath(es, a, b, p);
    } else {
      ConnectedEdge(fs, a, b);
      ConnectedEdge(fs, b, a);
      if Connected(es, x, y) {
        ConnectedMono(es, fs, x, y);
      } else if Connected(es, x, a) && Connected(es, b, y) {
        ConnectedMono(es, fs, x, a);
        ConnectedMono(es, fs, b, y);
        ConnectedTrans(fs, x, a, b);
        ConnectedTrans(fs, x, b, y);
      } else if Connected(es, x, b) && Connected(es, a, y) {
        ConnectedMono(es, fs, x, b);
        ConnectedMono(es, fs, a, y);
        ConnectedTrans(fs, x, b, a);
        ConnectedTrans(fs, x, a, y);
      }
    }
  }

  /** An edge between two unconnected nodes keeps a forest a forest. */
  lemma AddBridgeKeepsForest<K(!new)>(es: set<Edge<K>>, a: K, b: K)
    requires IsForest(es) && !Connected(es, a, b)
    ensures IsForest(es + {(a, b)})
  {
    var e := (a, b);
    var fs := es + {e};
    assert e !in es by {
      if e in es {
        ConnectedEdge(es, a, b);
      }
    }
    forall g | g in fs
      ensures !Connected(fs - {g}, g.0, g.1)
    {
      if g == e {
        assert fs - {g} == es;
      } else {
        var (c, d) := g;
        var rest := es - {g};
        assert fs - {g} == rest + {e};
        if Connected(rest + {e}, c, d) {
          ConnectedAddEdge(rest, a, b, c, d);
          assert !Connected(rest, c, d);
          ConnectedEdge(es, c, d);
          if Connected(rest, c, a) && Connected(rest, b, d) {
            ConnectedMono(rest, es, c, a);
            ConnectedMono(rest, es, b, d);
            ConnectedSym(es, c, a);
            ConnectedSym(es, b, d);
            ConnectedTrans(es, a, c, d);
            ConnectedTrans(es, a, d, b);
          } else {
            assert Connected(rest, c, b) && Connected(rest, a, d);
            ConnectedMono(rest, es, c, b);
            ConnectedMono(rest, es, a, d);
            ConnectedSym(es, c, d);
            ConnectedTrans(es, a, d, c);
            ConnectedTrans(es, a, c, b);
          }
        }
      }
    }
  }
}
