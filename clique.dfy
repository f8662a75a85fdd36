/** Growing a d-clique around a probe sort: candidates are the sorts close to the
    probe; a strategy picks one, and the candidates shrink to those close to the
    pick, until none are left. */
module CliqueGrowth {
  import opened CardSorts
  import opened DistanceMetric
  import opened NeighbourhoodFilter

  /** Selector.select: some member of a non-empty collection.  The program draws
      it at random; the model leaves the choice open. */
  method Select<X>(collection: seq<X>) returns (x: X)
    requires |collection| > 0
    ensures x in collection
  {
    var i :| 0 <= i < |collection|;
    x := collection[i];
  }

  /** random_strategy: ignores the threshold and lets the selector pick. */
  method RandomStrategy<T>(d: int, candidates: seq<CardSort<T>>) returns (s: CardSort<T>)
    requires |candidates| > 0
    ensures s in candidates
  {
    s := Select(candidates);
  }

  /** How many candidates lie within `d` of candidate `c` (`c` included, measured from `c`). */
  function NeighbourCount<T>(d: int, c: CardSort<T>, candidates: seq<CardSort<T>>): nat
    requires c in candidates && MutuallyComparable(candidates)
  {
    |Neighbourhood(d, c, candidates)|
  }

  /** The last index below `n` whose candidate has a non-empty neighbourhood, or -1. */
  function LastCrowded<T>(d: int, candidates: seq<CardSort<T>>, n: nat): (k: int)
    requires n <= |candidates| && MutuallyComparable(candidates)
    ensures -1 <= k < n
  {
    if n == 0 then -1
    else if NeighbourCount(d, candidates[n - 1], candidates) > 0 then n - 1
    else LastCrowded(d, candidates, n - 1)
  }

  /** The loop of greedy_strategy as written.  `current_max` starts at 0 and is
      never updated, so every candidate with a non-empty neighbourhood restarts
      the shortlist, and the candidates after it (all with empty neighbourhoods)
      are appended. */
  method GreedyShortlist<T>(d: int, candidates: seq<CardSort<T>>) returns (maxCandidates: seq<CardSort<T>>)
    requires MutuallyComparable(candidates)
    ensures var k := LastCrowded(d, candidates, |candidates|);
      maxCandidates == if k < 0 then candidates else candidates[k..]
    ensures |candidates| > 0 ==> |maxCandidates| > 0
    ensures d >= 0 && |candidates| > 0 ==> maxCandidates == [candidates[|candidates| - 1]]
  {
    var currentMax := 0;
    maxCandidates := [];
    ghost var start := 0;
    for i := 0 to |candidates|
      invariant start == ShortlistStart(d, candidates, i)
      invariant start <= i && maxCandidates == candidates[start..i]
    {
      var candidate := candidates[i];
      var size := NeighbourCount(d, candidate, candidates);
      ShortlistStartStep(d, candidates, i);
      if size > currentMax {
        maxCandidates := [candidate];
        start := i;
      } else if size == currentMax {
        maxCandidates := maxCandidates + [candidate];
      }
      SliceExtend(candidates, start, i);
    }
    assert candidates[..|candidates|] == candidates;
    if d >= 0 && |candidates| > 0 {
      OwnNeighbourhoodNonEmpty(d, candidates[|candidates| - 1], candidates);
    }
  }

  /** Where the shortlist starts after the first `n` candidates. */
  function ShortlistStart<T>(d: int, candidates: seq<CardSort<T>>, n: nat): (start: nat)
    requires n <= |candidates| && MutuallyComparable(candidates)
    ensures start <= n
    ensures LastCrowded(d, candidates, n) < 0 ==> start == 0
    ensures LastCrowded(d, candidates, n) >= 0 ==> start == LastCrowded(d, candidates, n)
  {
    var k := LastCrowded(d, candidates, n);
    if k < 0 then 0 else k
  }

  /** A candidate with a non-empty neighbourhood restarts the shortlist; any other
      candidate extends it. */
  lemma ShortlistStartStep<T>(d: int, candidates: seq<CardSort<T>>, i: nat)
    requires i < |candidates| && MutuallyComparable(candidates)
    ensures ShortlistStart(d, candidates, i + 1) ==
      if NeighbourCount(d, candidates[i], candidates) > 0 then i else ShortlistStart(d, candidates, i)
  {
  }

  lemma SliceExtend<X>(s: seq<X>, a: nat, b: nat)
    requires a <= b < |s|
    ensures s[a..b + 1] == s[a..b] + [s[b]]
  {
  }

  /** With `d >= 0` a candidate is in its own neighbourhood. */
  lemma OwnNeighbourhoodNonEmpty<T>(d: int, c: CardSort<T>, candidates: seq<CardSort<T>>)
    requires d >= 0 && c in candidates && MutuallyComparable(candidates)
    ensures NeighbourCount(d, c, candidates) > 0
  {
    DistanceToSelf(c);
    NeighbourhoodMultiplicity(d, c, candidates);
  }

  /** greedy_strategy as written: with `d >= 0` it always returns the last candidate enumerated. */
  method GreedyStrategy<T>(d: int, candidates: seq<CardSort<T>>) returns (s: CardSort<T>)
    requires |candidates| > 0 && MutuallyComparable(candidates)
    ensures s in candidates
    ensures d >= 0 ==> s == candidates[|candidates| - 1]
  {
    var shortlist := GreedyShortlist(d, candidates);
    s := Select(shortlist);
  }

  // ---------------------------------------------------------------------------
  // The strategy its documentation describes

  /** The largest neighbourhood size among the first `n` candidates (0 for none). */
  function MaxCount<T>(d: int, candidates: seq<CardSort<T>>, n: nat): nat
    requires n <= |candidates| && MutuallyComparable(candidates)
  {
    if n == 0 then 0
    else
      var m := MaxCount(d, candidates, n - 1);
      var c := NeighbourCount(d, candidates[n - 1], candidates);
      if c > m then c else m
  }

  /** No candidate among the first `n` has a larger neighbourhood than `MaxCount`. */
  lemma {:induction false} MaxCountIsMaximum<T>(d: int, candidates: seq<CardSort<T>>, n: nat)
    requires n <= |candidates| && MutuallyComparable(candidates)
    ensures forall k :: 0 <= k < n ==> NeighbourCount(d, candidates[k], candidates) <= MaxCount(d, candidates, n)
  {
    if n > 0 {
      MaxCountIsMaximum(d, candidates, n - 1);
    }
  }

  /** Some candidate among the first `n` reaches `MaxCount`. */
  lemma {:induction false} MaxCountIsAttained<T>(d: int, candidates: seq<CardSort<T>>, n: nat)
    requires 0 < n <= |candidates| && MutuallyComparable(candidates)
    ensures exists k :: 0 <= k < n && NeighbourCount(d, candidates[k], candidates) == MaxCount(d, candidates, n)
  {
    var c := NeighbourCount(d, candidates[n - 1], candidates);
    if c < MaxCount(d, candidates, n) {
      assert MaxCount(d, candidates, 0) == 0 && n > 1;
      MaxCountIsAttained(d, candidates, n - 1);
      var k :| 0 <= k < n - 1 && NeighbourCount(d, candidates[k], candidates) == MaxCount(d, candidates, n - 1);
      assert NeighbourCount(d, candidates[k], candidates) == MaxCount(d, candidates, n);
    } else {
      assert NeighbourCount(d, candidates[n - 1], candidates) == MaxCount(d, candidates, n);
    }
  }

  /** The loop of greedy_strategy with `current_max` updated, as its documentation
      describes: the shortlist is every candidate of largest neighbourhood, in order. */
  method IntendedGreedyShortlist<T>(d: int, candidates: seq<CardSort<T>>) returns (maxCandidates: seq<CardSort<T>>)
    requires MutuallyComparable(candidates)
    ensures forall c :: c in maxCandidates ==>
      c in candidates && NeighbourCount(d, c, candidates) == MaxCount(d, candidates, |candidates|)
    ensures forall k :: 0 <= k < |candidates| && NeighbourCount(d, candidates[k], candidates) == MaxCount(d, candidates, |candidates|) ==>
      candidates[k] in maxCandidates
    ensures |candidates| > 0 ==> |maxCandidates| > 0
  {
    var currentMax := 0;
    maxCandidates := [];
    for i := 0 to |candidates|
      invariant Shortlisted(d, candidates, i, currentMax, maxCandidates)
    {
      var candidate := candidates[i];
      var size := NeighbourCount(d, candidate, candidates);
      ShortlistedStep(d, candidates, i, currentMax, maxCandidates);
      if size > currentMax {
        currentMax := size;
        maxCandidates := [candidate];
      } else if size == currentMax {
        maxCandidates := maxCandidates + [candidate];
      }
    }
  }

  /** After the first `n` candidates, `m` is their largest neighbourhood size and
      `shortlist` holds exactly the candidates among them that reach it. */
  ghost predicate Shortlisted<T>(d: int, candidates: seq<CardSort<T>>, n: nat, m: nat, shortlist: seq<CardSort<T>>)
    requires n <= |candidates| && MutuallyComparable(candidates)
  {
    && m == MaxCount(d, candidates, n)
    && (forall c :: c in shortlist ==> c in candidates && NeighbourCount(d, c, candidates) == m)
    && (forall k :: 0 <= k < n && NeighbourCount(d, candidates[k], candidates) == m ==> candidates[k] in shortlist)
    && (n > 0 ==> |shortlist| > 0)
  }

  /** One iteration of the intended loop keeps `Shortlisted`. */
  lemma ShortlistedStep<T>(d: int, candidates: seq<CardSort<T>>, i: nat, m: nat, shortlist: seq<CardSort<T>>)
    requires i < |candidates| && MutuallyComparable(candidates)
    requires Shortlisted(d, candidates, i, m, shortlist)
    ensures var c := candidates[i];
      var size := NeighbourCount(d, c, candidates);
      if size > m then Shortlisted(d, candidates, i + 1, size, [c])
      else if size == m then Shortlisted(d, candidates, i + 1, m, shortlist + [c])
      else Shortlisted(d, candidates, i + 1, m, shortlist)
  {
    var c := candidates[i];
    var size := NeighbourCount(d, c, candidates);
    assert MaxCount(d, candidates, i + 1) == if size > m then size else m;
    if size > m {
      MaxCountIsMaximum(d, candidates, i);
      assert forall k :: 0 <= k < i + 1 && NeighbourCount(d, candidates[k], candidates) == size ==>
        k == i && candidates[k] in [c];
    } else if size == m {
      assert forall k :: 0 <= k < i + 1 && NeighbourCount(d, candidates[k], candidates) == m ==>
        candidates[k] in shortlist + [c];
    }
  }

  /** The intended strategy picks a candidate whose neighbourhood is largest. */
  method IntendedGreedyStrategy<T>(d: int, candidates: seq<CardSort<T>>) returns (s: CardSort<T>)
    requires |candidates| > 0 && MutuallyComparable(candidates)
    ensures s in candidates
    ensures forall c :: c in candidates ==> NeighbourCount(d, c, candidates) <= NeighbourCount(d, s, candidates)
  {
    var shortlist := IntendedGreedyShortlist(d, candidates);
    s := Select(shortlist);
    MaxCountIsMaximum(d, candidates, |candidates|);
  }

  /** An input on which greedy_strategy as written picks a candidate whose
      neighbourhood is strictly smaller than another's: two distinct sorts, so a
      set of candidates can be enumerated this way. */
  lemma GreedyMissesLargestNeighbourhood()
    ensures var a, b := [{1}], [{1, 2}];
      && a != b
      && MutuallyComparable([a, b])
      && NeighbourCount(0, b, [a, b]) == 1
      && NeighbourCount(0, a, [a, b]) == 2
  {
    var a: CardSort<int>, b: CardSort<int> := [{1}], [{1, 2}];
    assert a[0] != b[0] by {
      assert 2 in b[0];
    }
    DistanceNotSymmetric();
    DistanceToSelf(a);
    DistanceToSelf(b);
    assert [a, b][1..] == [b] && [b][1..] == [];
    assert Neighbourhood(0, b, [a, b]) == [b] by {
      assert Neighbourhood(0, b, [b]) == [b];
    }
    assert Neighbourhood(0, a, [a, b]) == [a, b] by {
      assert Neighbourhood(0, a, [b]) == [b];
    }
  }

  // ---------------------------------------------------------------------------
  // The clique loop

  /** The strategies a caller can plug into the clique loop. */
  datatype Strategy = RandomPick | GreedyPick | IntendedGreedyPick

  method ApplyStrategy<T>(strategy: Strategy, d: int, candidates: seq<CardSort<T>>) returns (s: CardSort<T>)
    requires |candidates| > 0 && MutuallyComparable(candidates)
    ensures s in candidates
  {
    match strategy
    case RandomPick => s := RandomStrategy(d, candidates);
    case GreedyPick => s := GreedyStrategy(d, candidates);
    case IntendedGreedyPick => s := IntendedGreedyStrategy(d, candidates);
  }

  /** The elements of a set in some order, each once; the program's set
      iteration order is left open. */
  method Enumerate<X>(s: set<X>) returns (q: seq<X>)
    ensures |q| == |s|
    ensures forall x :: x in q <==> x in s
    ensures forall i, j :: 0 <= i < j < |q| ==> q[i] != q[j]
  {
    q := [];
    var rest := s;
    while rest != {}
      invariant rest <= s
      invariant forall x :: x in q <==> x in s && x !in rest
      invariant forall i, j :: 0 <= i < j < |q| ==> q[i] != q[j]
      invariant |q| + |rest| == |s|
      decreases rest
    {
      var x :| x in rest;
      q := q + [x];
      rest := rest - {x};
    }
  }

  /** The members picked after the probe: sorts of the collection other than the
      probe, within `d` of the probe and of every earlier pick, each picked once. */
  ghost predicate PicksWithin<T>(d: int, probe: CardSort<T>, sorts: seq<CardSort<T>>, picks: seq<CardSort<T>>)
    requires ComparableWith(probe, sorts)
  {
    && (forall k :: 0 <= k < |picks| ==>
          picks[k] in sorts && picks[k] != probe && Distance(picks[k], probe) <= d)
    && (forall j, k :: 0 <= j < k < |picks| ==>
          picks[j] != picks[k] && Distance(picks[k], picks[j]) <= d)
  }

  /** The candidates: exactly the sorts of the collection other than the probe
      and the picks that lie within `d` of the probe and of every pick. */
  ghost predicate CandidatesWithin<T>(d: int, probe: CardSort<T>, sorts: seq<CardSort<T>>, picks: seq<CardSort<T>>, candidates: set<CardSort<T>>)
    requires ComparableWith(probe, sorts) && PicksWithin(d, probe, sorts, picks)
  {
    candidates == Viable(d, probe, sorts, picks)
  }

  /** The sorts of the collection that could still join the clique. */
  ghost function Viable<T>(d: int, probe: CardSort<T>, sorts: seq<CardSort<T>>, picks: seq<CardSort<T>>): set<CardSort<T>>
    requires ComparableWith(probe, sorts) && PicksWithin(d, probe, sorts, picks)
  {
    set c | c in sorts && ViableCandidate(d, probe, sorts, picks, c)
  }

  /** A sort that could still join the clique: in the collection, neither the
      probe nor a pick, and within `d` of the probe and of every pick. */
  ghost predicate ViableCandidate<T>(d: int, probe: CardSort<T>, sorts: seq<CardSort<T>>, picks: seq<CardSort<T>>, c: CardSort<T>)
    requires ComparableWith(probe, sorts) && PicksWithin(d, probe, sorts, picks)
  {
    && c in sorts && c != probe && c !in picks && Distance(c, probe) <= d
    && forall k :: 0 <= k < |picks| ==> Distance(c, picks[k]) <= d
  }

  /** The body of the clique loop: the strategy picks a candidate, and the
      candidates shrink to the others within `d` of the pick. */
  method CliqueStep<T>(d: int, ghost probe: CardSort<T>, candidates: set<CardSort<T>>, strategy: Strategy)
      returns (selected: CardSort<T>, next: set<CardSort<T>>)
    requires candidates != {} && forall s :: s in candidates ==> (|s| == 0) == (|probe| == 0)
    ensures selected in candidates
    ensures next == set s | s in candidates && s != selected && Distance(s, selected) <= d
  {
    var order := Enumerate(candidates);
    selected := ApplyStrategy(strategy, d, order);
    next := set s | s in candidates && s != selected && Distance(s, selected) <= d;
  }

  /** Before the first round every sort within `d` of the probe is a candidate. */
  lemma CliqueStart<T>(d: int, probe: CardSort<T>, sorts: seq<CardSort<T>>)
    requires ComparableWith(probe, sorts)
    ensures PicksWithin(d, probe, sorts, [])
    ensures CandidatesWithin(d, probe, sorts, [], set s | s in sorts && s != probe && Distance(s, probe) <= d)
  {
  }

  /** One round of the clique loop keeps both predicates. */
  lemma CliqueRound<T>(d: int, probe: CardSort<T>, sorts: seq<CardSort<T>>, picks: seq<CardSort<T>>,
                       candidates: set<CardSort<T>>, selected: CardSort<T>, next: set<CardSort<T>>)
    requires ComparableWith(probe, sorts) && PicksWithin(d, probe, sorts, picks)
    requires CandidatesWithin(d, probe, sorts, picks, candidates) && selected in candidates
    requires next == set s | s in candidates && s != selected && Distance(s, selected) <= d
    ensures PicksWithin(d, probe, sorts, picks + [selected])
    ensures CandidatesWithin(d, probe, sorts, picks + [selected], next)
    ensures next < candidates
  {
    var picks' := picks + [selected];
    assert forall k :: 0 <= k < |picks| ==> picks'[k] == picks[k];
    assert picks'[|picks|] == selected;
    assert selected !in next;
    assert PicksWithin(d, probe, sorts, picks');
    forall c
      ensures c in next <==> ViableCandidate(d, probe, sorts, picks', c)
    {
      if c in sorts {
        assert c in picks' <==> c in picks || c == selected;
      }
    }
  }

  /** clique.py: the clique around `probe`.  The probe comes first when the
      collection holds it; every later member is a sort of the collection other
      than the probe, within `d` of the probe and of every member picked before
      it (measured from the later member), and no sort is picked twice.  The
      loop stops only when no sort can join: every sort of the collection left
      out, other than the probe, is more than `d` from the probe or from some
      pick. */
  method Clique<T>(d: int, probe: CardSort<T>, sorts: seq<CardSort<T>>, strategy: Strategy) returns (clique: seq<CardSort<T>>)
    requires ComparableWith(probe, sorts)
    ensures (|clique| > 0 && clique[0] == probe) <==> probe in sorts
    ensures var start := if probe in sorts then 1 else 0;
      && start <= |clique|
      && (forall k :: start <= k < |clique| ==>
            clique[k] in sorts && clique[k] != probe && Distance(clique[k], probe) <= d)
      && (forall j, k :: start <= j < k < |clique| ==>
            clique[j] != clique[k] && Distance(clique[k], clique[j]) <= d)
      && (forall s :: s in sorts && s != probe && s !in clique && Distance(s, probe) <= d ==>
            exists k :: start <= k < |clique| && Distance(s, clique[k]) > d)
  {
    var head := if probe in sorts then [probe] else [];
    var picks := [];
    var candidates := set s | s in sorts && s != probe && Distance(s, probe) <= d;
    CliqueStart(d, probe, sorts);
    while candidates != {}
      invariant PicksWithin(d, probe, sorts, picks)
      invariant CandidatesWithin(d, probe, sorts, picks, candidates)
      decreases candidates
    {
      var selected, next := CliqueStep(d, probe, candidates, strategy);
      CliqueRound(d, probe, sorts, picks, candidates, selected, next);
      picks := picks + [selected];
      candidates := next;
    }
    clique := head + picks;
    PicksInClique(d, probe, sorts, head, picks);
    CliqueMaximal(d, probe, sorts, head, picks);
  }

  /** Reading the postcondition of `Clique` off its loop invariant. */
  lemma PicksInClique<T>(d: int, probe: CardSort<T>, sorts: seq<CardSort<T>>, head: seq<CardSort<T>>, picks: seq<CardSort<T>>)
    requires ComparableWith(probe, sorts) && PicksWithin(d, probe, sorts, picks)
    requires head == if probe in sorts then [probe] else []
    ensures var clique, start := head + picks, |head|;
      && ((|clique| > 0 && clique[0] == probe) <==> probe in sorts)
      && (forall k :: start <= k < |clique| ==>
            clique[k] in sorts && clique[k] != probe && Distance(clique[k], probe) <= d)
      && (forall j, k :: start <= j < k < |clique| ==>
            clique[j] != clique[k] && Distance(clique[k], clique[j]) <= d)
  {
    var clique := head + picks;
    assert forall k :: |head| <= k < |clique| ==> clique[k] == picks[k - |head|];
    if probe !in sorts && |clique| > 0 {
      assert clique[0] == picks[0];
    }
  }

  /** Once no candidate is left, every sort of the collection outside the
      clique, other than the probe and within `d` of it, is more than `d` from
      some pick. */
  lemma CliqueMaximal<T>(d: int, probe: CardSort<T>, sorts: seq<CardSort<T>>, head: seq<CardSort<T>>, picks: seq<CardSort<T>>)
    requires ComparableWith(probe, sorts) && PicksWithin(d, probe, sorts, picks)
    requires Viable(d, probe, sorts, picks) == {}
    requires head == if probe in sorts then [probe] else []
    ensures var clique, start := head + picks, |head|;
      forall s :: s in sorts && s != probe && s !in clique && Distance(s, probe) <= d ==>
        exists k :: start <= k < |clique| && clique[k] in sorts && Distance(s, clique[k]) > d
  {
    var clique := head + picks;
    forall s | s in sorts && s != probe && s !in clique && Distance(s, probe) <= d
      ensures exists k :: |head| <= k < |clique| && clique[k] in sorts && Distance(s, clique[k]) > d
    {
      assert s !in picks;
      assert s !in Viable(d, probe, sorts, picks);
      var k :| 0 <= k < |picks| && Distance(s, picks[k]) > d;
      assert clique[|head| + k] == picks[k];
    }
  }
}
