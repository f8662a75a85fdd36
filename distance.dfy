/** The edit distance between two card sorts: the number of cards of the first
    sort minus the largest number of cards that an optimal pairing of its groups
    with the groups of the second sort keeps together. */
module DistanceMetric {
  import opened CardSorts
  import opened Assignments

  /** Entry `[i][j]` is the number of cards group `i` of `s1` shares with group `j` of `s2`. */
  function Weights<T>(s1: CardSort<T>, s2: CardSort<T>): (w: Matrix)
    ensures |w| == |s1| && Rectangular(w, |s2|)
    ensures forall i, j :: 0 <= i < |s1| && 0 <= j < |s2| ==> w[i][j] == |s1[i] * s2[j]|
  {
    seq(|s1|, i requires 0 <= i < |s1| => seq(|s2|, j requires 0 <= j < |s2| => |s1[i] * s2[j]|))
  }

  /** The distance, with the total taken from `s1` alone. */
  function Distance<T>(s1: CardSort<T>, s2: CardSort<T>): (r: nat)
    requires Comparable(s1, s2)
    ensures r <= TotalCards(s1)
    ensures s1 == [] && s2 == [] ==> r == 0
  {
    MatchAtMostCards(s1, s2);
    TotalCards(s1) - MaxMatch(Weights(s1, s2), |s2|)
  }

  /** The row sums of the weight matrix are bounded by the group sizes of `s1`. */
  lemma MatchAtMostCards<T>(s1: CardSort<T>, s2: CardSort<T>)
    ensures MaxMatch(Weights(s1, s2), |s2|) <= TotalCards(s1)
  {
    var w := Weights(s1, s2);
    var b := seq(|s1|, k requires 0 <= k < |s1| => |s1[k]|);
    forall k, j | 0 <= k < |w| && 0 <= j < |s2|
      ensures w[k][j] <= b[k]
    {
      IntersectionAtMost(s1[k], s2[j]);
    }
    MaxFromAtMostRowBounds(w, |s2|, b, 0, {});
    SumFromIsCards(s1, b, 0);
    assert s1[0..] == s1;
  }

  lemma {:induction false} SumFromIsCards<T>(s: CardSort<T>, b: seq<nat>, i: nat)
    requires |b| == |s| && i <= |s|
    requires forall k :: 0 <= k < |s| ==> b[k] == |s[k]|
    ensures SumFrom(b, i) == TotalCards(s[i..])
    decreases |s| - i
  {
    if i < |s| {
      SumFromIsCards(s, b, i + 1);
      assert s[i..][1..] == s[i + 1..];
    }
  }

  /** distance.py: the weight matrix is filled row by row, then the weights of the
      pairs the assignment solver returns are summed.  `pairs` stands for the
      solver's answer on that matrix. */
  method ComputeDistance<T>(sort1: CardSort<T>, sort2: CardSort<T>, pairs: seq<Pair>) returns (r: int)
    requires Comparable(sort1, sort2)
    requires IsOptimalAssignment(Weights(sort1, sort2), |sort2|, pairs)
    ensures r == Distance(sort1, sort2)
  {
    if |sort1| == 0 && |sort2| == 0 {
      return 0;
    }
    ghost var w := Weights(sort1, sort2);
    var matchingWeights: seq<seq<nat>> := seq(|sort1|, _ => []);
    for i := 0 to |sort1|
      invariant |matchingWeights| == |sort1|
      invariant forall k :: 0 <= k < i ==> matchingWeights[k] == w[k]
      invariant forall k :: i <= k < |sort1| ==> matchingWeights[k] == []
    {
      for j := 0 to |sort2|
        invariant |matchingWeights| == |sort1|
        invariant forall k :: 0 <= k < i ==> matchingWeights[k] == w[k]
        invariant matchingWeights[i] == w[i][..j]
        invariant forall k :: i < k < |sort1| ==> matchingWeights[k] == []
      {
        var intersection := |sort1[i] * sort2[j]|;
        matchingWeights := matchingWeights[i := matchingWeights[i] + [intersection]];
      }
      assert w[i][..|sort2|] == w[i];
    }
    assert matchingWeights == w;
    var runningSum := 0;
    for k := 0 to |pairs|
      invariant runningSum == Weight(w, |sort2|, pairs[..k])
    {
      WeightAppend(w, |sort2|, pairs[..k], pairs[k]);
      assert pairs[..k + 1] == pairs[..k] + [pairs[k]];
      runningSum := runningSum + matchingWeights[pairs[k].0][pairs[k].1];
    }
    assert pairs[..|pairs|] == pairs;
    r := TotalCards(sort1) - runningSum;
  }

  // ---------------------------------------------------------------------------
  // Properties of the distance

  /** Pairing group `k` with group `k` for every `k < n`. */
  function Diagonal(n: nat): (ps: seq<Pair>)
    ensures |ps| == n && forall k :: 0 <= k < n ==> ps[k] == (k, k)
  {
    seq(n, k requires 0 <= k < n => (k, k))
  }

  lemma {:induction false} DiagonalWeight<T>(s: CardSort<T>, e: CardSort<T>, n: nat)
    requires n <= |s|
    ensures IsAssignment(Weights(s, s + e), |s + e|, Diagonal(n))
    ensures Weight(Weights(s, s + e), |s + e|, Diagonal(n)) == TotalCards(s[..n])
  {
    var w := Weights(s, s + e);
    if n > 0 {
      DiagonalWeight(s, e, n - 1);
      assert Diagonal(n)[..n - 1] == Diagonal(n - 1);
      assert w[n - 1][n - 1] == |s[n - 1]| by {
        assert s[n - 1] * (s + e)[n - 1] == s[n - 1];
      }
      TotalCardsAppend(s[..n - 1], [s[n - 1]]);
      assert s[..n - 1] + [s[n - 1]] == s[..n];
      assert [s[n - 1]][1..] == [];
    } else {
      assert s[..0] == [];
    }
  }

  /** A sort is at distance 0 from any sort that extends it with further groups;
      in particular an extra empty group is never counted. */
  lemma DistanceToExtension<T>(s: CardSort<T>, e: CardSort<T>)
    requires Comparable(s, s + e)
    ensures Distance(s, s + e) == 0
  {
    DiagonalWeight(s, e, |s|);
    AssignmentAtMostMaxFrom(Weights(s, s + e), |s + e|, 0, {}, Diagonal(|s|));
    assert s[..|s|] == s;
  }

  /** Every sort is at distance 0 from itself. */
  lemma DistanceToSelf<T>(s: CardSort<T>)
    ensures Distance(s, s) == 0
  {
    DistanceToExtension(s, []);
    assert s + [] == s;
  }

  /** For one group on each side the distance is the number of cards of the
      first group that the second lacks. */
  lemma SingleGroupDistance<T>(a: Group<T>, b: Group<T>)
    ensures Distance([a], [b]) == |a| - |a * b|
  {
    var w := Weights([a], [b]);
    assert |w| == 1 && |w[0]| == 1 && w[0][0] == |a * b|;
    assert MaxFrom(w, 1, 1, {}) == 0;
    assert MaxFrom(w, 1, 1, {0}) == 0;
    assert BestColumn(w, 1, 0, {}, 1) == 0;
    assert BestColumn(w, 1, 0, {}, 0) == |a * b|;
    assert TotalCards([a]) == |a| by {
      assert [a][1..] == [];
    }
  }

  /** The distance is not symmetric: only the first sort supplies the total. */
  lemma DistanceNotSymmetric()
    ensures Distance([{1, 2}], [{1}]) == 1
    ensures Distance([{1}], [{1, 2}]) == 0
  {
    SingleGroupDistance({1, 2}, {1});
    SingleGroupDistance({1}, {1, 2});
    assert {1, 2} * {1} == {1};
    assert {1} * {1, 2} == {1};
    assert |{1, 2}| == 2;
  }
}
