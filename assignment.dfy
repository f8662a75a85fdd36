/** The assignment problem on a weight matrix: pick (row, column) pairs, each
    row and each column at most once, maximising the summed weight.  The
    solver itself is foreign code; this module only defines what an optimal
    answer is, and proves that `MaxMatch` is the optimum. */
module Assignments {

  type Matrix = seq<seq<nat>>
  type Pair = (nat, nat)

  /** Every row of `w` has exactly `m` columns. */
  predicate Rectangular(w: Matrix, m: nat)
  {
    forall i :: 0 <= i < |w| ==> |w[i]| == m
  }

  /** Every pair names a cell of the `|w|` by `m` matrix. */
  predicate InRange(w: Matrix, m: nat, ps: seq<Pair>)
  {
    forall k :: 0 <= k < |ps| ==> ps[k].0 < |w| && ps[k].1 < m
  }

  /** A partial assignment: cells in range, no row and no column used twice. */
  predicate IsAssignment(w: Matrix, m: nat, ps: seq<Pair>)
  {
    && InRange(w, m, ps)
    && forall k, l :: 0 <= k < l < |ps| ==> ps[k].0 != ps[l].0 && ps[k].1 != ps[l].1
  }

  /** The summed weight of the chosen cells. */
  function Weight(w: Matrix, m: nat, ps: seq<Pair>): nat
    requires Rectangular(w, m) && InRange(w, m, ps)
  {
    if ps == [] then 0
    else Weight(w, m, ps[..|ps| - 1]) + w[ps[|ps| - 1].0][ps[|ps| - 1].1]
  }

  function Max(a: nat, b: nat): nat
  {
    if a < b then b else a
  }

  /** The best weight obtainable from rows `i..` using only columns outside `used`. */
  function MaxFrom(w: Matrix, m: nat, i: nat, used: set<nat>): nat
    requires Rectangular(w, m) && i <= |w|
    decreases |w| - i, m + 1
  {
    if i == |w| then 0
    else Max(MaxFrom(w, m, i + 1, used), BestColumn(w, m, i, used, 0))
  }

  /** The best weight obtainable when row `i` is matched to some free column `j..`. */
  function BestColumn(w: Matrix, m: nat, i: nat, used: set<nat>, j: nat): nat
    requires Rectangular(w, m) && i < |w| && j <= m
    decreases |w| - i, m - j
  {
    if j == m then 0
    else
      var here := if j in used then 0 else w[i][j] + MaxFrom(w, m, i + 1, used + {j});
      Max(here, BestColumn(w, m, i, used, j + 1))
  }

  /** The weight of a weight-optimal assignment (see `MaxMatchIsOptimum`). */
  function MaxMatch(w: Matrix, m: nat): nat
    requires Rectangular(w, m)
  {
    MaxFrom(w, m, 0, {})
  }

  /** What the assignment solver promises: an assignment of maximal weight. */
  predicate IsOptimalAssignment(w: Matrix, m: nat, ps: seq<Pair>)
    requires Rectangular(w, m)
  {
    IsAssignment(w, m, ps) && Weight(w, m, ps) == MaxMatch(w, m)
  }

  // ---------------------------------------------------------------------------
  // Facts about Weight

  lemma {:induction false} WeightRemoveAt(w: Matrix, m: nat, ps: seq<Pair>, k: nat)
    requires Rectangular(w, m) && InRange(w, m, ps) && k < |ps|
    ensures InRange(w, m, ps[..k] + ps[k + 1..])
    ensures Weight(w, m, ps) == Weight(w, m, ps[..k] + ps[k + 1..]) + w[ps[k].0][ps[k].1]
  {
    var rest := ps[..k] + ps[k + 1..];
    assert InRange(w, m, rest) by {
      forall t | 0 <= t < |rest|
        ensures rest[t].0 < |w| && rest[t].1 < m
      {
        assert rest[t] == if t < k then ps[t] else ps[t + 1];
      }
    }
    if k == |ps| - 1 {
      assert rest == ps[..|ps| - 1];
    } else {
      var front := ps[..|ps| - 1];
      var frontRest := front[..k] + front[k + 1..];
      WeightRemoveAt(w, m, front, k);
      assert front[k] == ps[k];
      assert frontRest == rest[..|rest| - 1];
      assert rest[|rest| - 1] == ps[|ps| - 1];
      assert Weight(w, m, rest) == Weight(w, m, frontRest) + w[ps[|ps| - 1].0][ps[|ps| - 1].1];
    }
  }

  lemma WeightAppend(w: Matrix, m: nat, ps: seq<Pair>, p: Pair)
    requires Rectangular(w, m) && InRange(w, m, ps) && p.0 < |w| && p.1 < m
    ensures InRange(w, m, ps + [p])
    ensures Weight(w, m, ps + [p]) == Weight(w, m, ps) + w[p.0][p.1]
  {
    assert (ps + [p])[..|ps|] == ps;
  }

  // ---------------------------------------------------------------------------
  // MaxMatch is an upper bound on every assignment

  lemma {:induction false} BestColumnAtLeast(w: Matrix, m: nat, i: nat, used: set<nat>, k: nat, j: nat)
    requires Rectangular(w, m) && i < |w| && k <= j < m && j !in used
    ensures BestColumn(w, m, i, used, k) >= w[i][j] + MaxFrom(w, m, i + 1, used + {j})
    decreases j - k
  {
    if k < j {
      BestColumnAtLeast(w, m, i, used, k + 1, j);
    }
  }

  /** Taking out the pair that uses row `i` leaves an assignment of rows `i + 1..`
      that also avoids that pair's column. */
  lemma RemoveRow(w: Matrix, m: nat, i: nat, used: set<nat>, ps: seq<Pair>, k: nat)
    requires IsAssignment(w, m, ps) && k < |ps| && ps[k].0 == i
    requires forall t :: 0 <= t < |ps| ==> ps[t].0 >= i && ps[t].1 !in used
    ensures var rest := ps[..k] + ps[k + 1..];
      && IsAssignment(w, m, rest)
      && forall t :: 0 <= t < |rest| ==> rest[t].0 >= i + 1 && rest[t].1 !in used + {ps[k].1}
  {
    var rest := ps[..k] + ps[k + 1..];
    assert forall t :: 0 <= t < |rest| ==> rest[t] == (if t < k then ps[t] else ps[t + 1]);
    forall t, u | 0 <= t < u < |rest|
      ensures rest[t].0 != rest[u].0 && rest[t].1 != rest[u].1
    {
      var t', u' := if t < k then t else t + 1, if u < k then u else u + 1;
      assert rest[t] == ps[t'] && rest[u] == ps[u'] && t' < u';
    }
    forall t | 0 <= t < |rest|
      ensures rest[t].0 >= i + 1 && rest[t].1 !in used + {ps[k].1}
    {
      var t' := if t < k then t else t + 1;
      assert rest[t] == ps[t'] && t' != k;
      assert ps[t'].0 != ps[k].0 && ps[t'].1 != ps[k].1;
    }
  }

  lemma {:induction false} AssignmentAtMostMaxFrom(w: Matrix, m: nat, i: nat, used: set<nat>, ps: seq<Pair>)
    requires Rectangular(w, m) && i <= |w| && IsAssignment(w, m, ps)
    requires forall k :: 0 <= k < |ps| ==> ps[k].0 >= i && ps[k].1 !in used
    ensures Weight(w, m, ps) <= MaxFrom(w, m, i, used)
    decreases |w| - i
  {
    if i == |w| {
      if ps != [] {
        assert false;
      }
    } else if k :| 0 <= k < |ps| && ps[k].0 == i {
      var j := ps[k].1;
      var rest := ps[..k] + ps[k + 1..];
      WeightRemoveAt(w, m, ps, k);
      RemoveRow(w, m, i, used, ps, k);
      AssignmentAtMostMaxFrom(w, m, i + 1, used + {j}, rest);
      BestColumnAtLeast(w, m, i, used, 0, j);
    } else {
      AssignmentAtMostMaxFrom(w, m, i + 1, used, ps);
    }
  }

  // ---------------------------------------------------------------------------
  // MaxMatch is attained by some assignment

  lemma {:induction false} BestColumnAttained(w: Matrix, m: nat, i: nat, used: set<nat>, k: nat) returns (j: nat)
    requires Rectangular(w, m) && i < |w| && k <= m && BestColumn(w, m, i, used, k) > 0
    ensures k <= j < m && j !in used
    ensures BestColumn(w, m, i, used, k) == w[i][j] + MaxFrom(w, m, i + 1, used + {j})
    decreases m - k
  {
    var here := if k in used then 0 else w[i][k] + MaxFrom(w, m, i + 1, used + {k});
    if here >= BestColumn(w, m, i, used, k + 1) && here > 0 {
      j := k;
    } else {
      j := BestColumnAttained(w, m, i, used, k + 1);
    }
  }

  lemma {:induction false} MaxFromAttained(w: Matrix, m: nat, i: nat, used: set<nat>) returns (ps: seq<Pair>)
    requires Rectangular(w, m) && i <= |w|
    ensures IsAssignment(w, m, ps)
    ensures forall k :: 0 <= k < |ps| ==> ps[k].0 >= i && ps[k].1 !in used
    ensures Weight(w, m, ps) == MaxFrom(w, m, i, used)
    decreases |w| - i
  {
    if i == |w| {
      ps := [];
    } else if MaxFrom(w, m, i + 1, used) >= BestColumn(w, m, i, used, 0) {
      ps := MaxFromAttained(w, m, i + 1, used);
    } else {
      var j := BestColumnAttained(w, m, i, used, 0);
      var rest := MaxFromAttained(w, m, i + 1, used + {j});
      ps := rest + [(i, j)];
      WeightAppend(w, m, rest, (i, j));
      assert forall k :: 0 <= k < |rest| ==> ps[k] == rest[k];
    }
  }

  /** `MaxMatch` is the optimum: no assignment weighs more, and some assignment weighs exactly that. */
  lemma MaxMatchIsOptimum(w: Matrix, m: nat)
    requires Rectangular(w, m)
    ensures forall ps :: IsAssignment(w, m, ps) ==> Weight(w, m, ps) <= MaxMatch(w, m)
    ensures exists ps :: IsAssignment(w, m, ps) && Weight(w, m, ps) == MaxMatch(w, m)
  {
    forall ps | IsAssignment(w, m, ps)
      ensures Weight(w, m, ps) <= MaxMatch(w, m)
    {
      AssignmentAtMostMaxFrom(w, m, 0, {}, ps);
    }
    var best := MaxFromAttained(w, m, 0, {});
  }

  /** An assignment has weight `MaxMatch` exactly when no assignment weighs more. */
  lemma OptimalIffMaximal(w: Matrix, m: nat, ps: seq<Pair>)
    requires Rectangular(w, m) && IsAssignment(w, m, ps)
    ensures IsOptimalAssignment(w, m, ps) <==>
            forall qs :: IsAssignment(w, m, qs) ==> Weight(w, m, qs) <= Weight(w, m, ps)
  {
    MaxMatchIsOptimum(w, m);
    if forall qs :: IsAssignment(w, m, qs) ==> Weight(w, m, qs) <= Weight(w, m, ps) {
      var best := MaxFromAttained(w, m, 0, {});
      assert Weight(w, m, best) <= Weight(w, m, ps);
    }
  }

  // ---------------------------------------------------------------------------
  // Row bounds

  /** The sum of `b[i..]`. */
  function SumFrom(b: seq<nat>, i: nat): nat
    requires i <= |b|
    decreases |b| - i
  {
    if i == |b| then 0 else b[i] + SumFrom(b, i + 1)
  }

  /** If no cell of row `k` exceeds `b[k]`, no assignment from row `i` on exceeds `b[i..]`'s sum. */
  lemma {:induction false} MaxFromAtMostRowBounds(w: Matrix, m: nat, b: seq<nat>, i: nat, used: set<nat>)
    requires Rectangular(w, m) && i <= |w| && |b| == |w|
    requires forall k, j :: 0 <= k < |w| && 0 <= j < m ==> w[k][j] <= b[k]
    ensures MaxFrom(w, m, i, used) <= SumFrom(b, i)
    decreases |w| - i, m + 1
  {
    if i < |w| {
      MaxFromAtMostRowBounds(w, m, b, i + 1, used);
      BestColumnAtMostRowBounds(w, m, b, i, used, 0);
    }
  }

  lemma {:induction false} BestColumnAtMostRowBounds(w: Matrix, m: nat, b: seq<nat>, i: nat, used: set<nat>, j: nat)
    requires Rectangular(w, m) && i < |w| && j <= m && |b| == |w|
    requires forall k, c :: 0 <= k < |w| && 0 <= c < m ==> w[k][c] <= b[k]
    ensures BestColumn(w, m, i, used, j) <= SumFrom(b, i)
    decreases |w| - i, m - j
  {
    if j < m {
      if j !in used {
        MaxFromAtMostRowBounds(w, m, b, i + 1, used + {j});
      }
      BestColumnAtMostRowBounds(w, m, b, i, used, j + 1);
    }
  }
}
