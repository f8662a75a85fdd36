# cardy in Dafny

A model of the algorithms in `cardy`, a small library for comparing card sorts.
A card sort is a sequence of groups, and each group is a set of cards
(`CardSorts.CardSort<T> = seq<set<T>>`). The model covers four parts of the library.

- **Edit distance** (`distance.dfy`, with `assignment.dfy` and `card_sorts.dfy`).
  - The distance from `sort1` to `sort2` is the number of cards in `sort1` minus the
    weight of an optimal assignment of rows to columns in the intersection-size matrix.
  - Each row and each column is used at most once.
  - The optimal assignment comes from the foreign `munkres` library. It is specified by
    `Assignments.MaxMatch`, a recursive maximum over all partial assignments, which is
    proved to be the optimum.
  - `ComputeDistance` fills the matrix with the same nested loops as the program and
    sums the solver's pairs.
  - The solver's answer is a parameter. The only thing required of it is that it is an
    optimal assignment.
- **d-neighbourhood** (`neighbourhood.dfy`): an order-preserving filter. It keeps a
  sort `s` exactly when the distance from the probe to `s` is at most `d`, with the
  probe as first argument.
- **d-clique growth** (`clique.dfy`).
  - `Selector.select` is an arbitrary choice of a member.
  - `random_strategy` and `greedy_strategy` are modelled, the latter as written.
  - The corrected greedy strategy, as its documentation describes it, is also modelled
    (see Findings).
  - `Clique` models the clique loop. The program iterates over the candidate set in an
    order it does not specify; here that order is an arbitrary enumeration (`Enumerate`).
- **Union-find, Kruskal and orthogonality** (`union_find.dfy`, `graphs.dfy`,
  `edge_order.dfy`, `spanning_tree.dfy`, `orthogonality.dfy`).
  - `DisjointSet` is a class whose `parents` and `sizes` maps the methods update.
  - `Find` walks to the root and then compresses the path.
  - `Merge` applies union by size.
  - A ghost rank, which strictly increases from a node to its parent, proves that every
    walk ends.
  - `MinSpanningTree` is Kruskal's algorithm over the edge map's items, stably sorted
    by weight. It is proved against the ghost function `SpanningTree.Kruskal`.
  - The result is proved to be a forest over the map's edges that connects the
    endpoints of every edge.
  - `ComputeOrthogonality` builds the complete distance graph over the sort indices. It
    returns the tree's weight divided by the number of sorts.
  - `kruskal_example.dfy` replays the seven-vertex spanning-tree test: the visiting
    order of its edges and the tree Kruskal's rule keeps.

Points where the model is more precise than the program's documentation:

- The distance is not symmetric, because only `sort1` supplies the total
  (`DistanceNotSymmetric`). Every caller's argument order is kept: `neighbourhood`
  measures from the probe, and `clique` measures from the candidate to the probe or pick.
- The docstrings of `clique` and its strategies describe `d` as the largest distance
  between any two sorts in the clique. The code checks only the distance from each new
  candidate to the probe and from each new candidate to every earlier pick. Since the
  distance is not symmetric, the model promises what the code ensures: every member is
  within `d` of the probe and of every earlier pick, measured from the later member.
  The loop runs until its candidate set is empty, so the result is also maximal in
  that sense: every sort of the collection left out, other than the probe, is more
  than `d` from the probe or from some pick, again measured from the left-out sort.
- `munkres` cannot handle a pair in which exactly one sort has no groups. Such a pair is
  excluded by the precondition `Comparable`.
  - For collections this becomes `MutuallyComparable`: all sorts have groups, or none has.
  - The other case the program handles, both sorts empty, gives 0.
- `find` and `merge` look their arguments up in the maps, and the program raises
  `KeyError` for a missing key. The model requires the arguments to be keys.
  - For the same reason `MinSpanningTree` requires every endpoint to be a vertex.
- `orthogonality` divides by the number of sorts, so the model requires at least one sort.

## Model

| member | source | states |
|---|---|---|
| CardSorts.TotalCardsAppend | src/cardy/distance.py:37 | the card count of a concatenation is the sum of the card counts |
| CardSorts.IntersectionAtMost | src/cardy/distance.py:28 | an intersection has no more cards than either group, so no weight exceeds its row's group size |
| Assignments.MaxMatchIsOptimum | src/cardy/distance.py:31-35 | `MaxMatch` bounds the weight of every assignment that uses each row and column at most once, and some assignment reaches it |
| Assignments.OptimalIffMaximal | src/cardy/distance.py:31-35 | an assignment weighs `MaxMatch` if and only if no assignment weighs more, which is what the solver promises |
| Assignments.AssignmentAtMostMaxFrom | src/cardy/distance.py:31-35 | no assignment of rows `i..` that avoids the used columns weighs more than `MaxFrom` |
| Assignments.MaxFromAttained | src/cardy/distance.py:31-35 | some assignment of rows `i..` that avoids the used columns weighs exactly `MaxFrom` |
| Assignments.BestColumnAtLeast | src/cardy/distance.py:31-35 | matching row `i` to any free column `j` and then the later rows optimally is no better than `BestColumn` |
| Assignments.BestColumnAttained | src/cardy/distance.py:31-35 | a positive `BestColumn` is reached by some free column |
| Assignments.WeightRemoveAt | src/cardy/distance.py:33-35 | taking out one pair lowers the summed weight by exactly that pair's cell |
| Assignments.RemoveRow | src/cardy/distance.py:31-35 | taking out the pair that uses row `i` leaves an assignment of the later rows that also avoids that pair's column |
| Assignments.MaxFromAtMostRowBounds | src/cardy/distance.py:28-37 | when every cell of a row is at most that row's bound, the optimum is at most the sum of the bounds |
| Assignments.BestColumnAtMostRowBounds | src/cardy/distance.py:28-37 | the same bound for the best choice of a column for one row |
| DistanceMetric.Distance | src/cardy/distance.py:10-11 | the distance is a natural number, at most the card count of `sort1`, and 0 when both sorts have no groups |
| DistanceMetric.MatchAtMostCards | src/cardy/distance.py:28-37 | the optimal matched weight never exceeds the card count of `sort1`, so the subtraction never goes negative |
| DistanceMetric.SumFromIsCards | src/cardy/distance.py:37 | summing the group sizes from group `i` on gives the card count of the remaining groups |
| DistanceMetric.ComputeDistance | src/cardy/distance.py:8-37 | the nested loops build exactly the weight matrix; given an optimal assignment, the result is the card count of `sort1` minus the optimum, with the empty/empty shortcut |
| DistanceMetric.DiagonalWeight | src/cardy/distance.py:28-35 | pairing group `k` of a sort with group `k` of any extension of it is an assignment whose weight is the card count of the first `n` groups |
| DistanceMetric.DistanceToExtension | tests/test_neighbourhood.py:5-6 | a sort is at distance 0 from that sort extended with more groups, for example an extra empty group |
| DistanceMetric.DistanceToSelf | tests/test_neighbourhood.py:15-16 | every sort is at distance 0 from itself |
| DistanceMetric.SingleGroupDistance | src/cardy/distance.py:25-37 | between two one-group sorts the distance is the number of cards of the first group that the second lacks |
| DistanceMetric.DistanceNotSymmetric | src/cardy/distance.py:37 | `[{1,2}]` is at distance 1 from `[{1}]`, but `[{1}]` is at distance 0 from `[{1,2}]` |
| NeighbourhoodFilter.Neighbourhood | src/cardy/neighbourhood.py:26 | the output is no longer than the input, and every output sort is in the input and within `d` of the probe, measured from the probe |
| NeighbourhoodFilter.NeighbourhoodMultiplicity | src/cardy/neighbourhood.py:26 | each close sort is kept as many times as the input holds it, every other sort is dropped, and every close input sort appears in the output |
| NeighbourhoodFilter.NeighbourhoodIsSubsequence | src/cardy/neighbourhood.py:26 | the output is a subsequence of the input, so input order is kept |
| NeighbourhoodFilter.SubsequenceOfTail | src/cardy/neighbourhood.py:26 | a subsequence stays one when an element is put in front of the sequence |
| NeighbourhoodFilter.DropFirst | src/cardy/neighbourhood.py:26 | dropping the first element of a subsequence keeps it a subsequence |
| NeighbourhoodFilter.NeighbourhoodMonotone | tests/test_neighbourhood.py:15-23 | for `d1 <= d2` the `d1` neighbourhood is a subsequence of the `d2` neighbourhood |
| NeighbourhoodFilter.ProbeInNeighbourhoodIffPresent | src/cardy/neighbourhood.py:18-19 | for `d >= 0` the probe is in its neighbourhood exactly when the input holds it |
| CliqueGrowth.Select | src/cardy/clique.py:15-17 | a non-empty collection yields one of its members |
| CliqueGrowth.RandomStrategy | src/cardy/clique.py:20-34 | ignores `d` and returns a member of the candidates |
| CliqueGrowth.LastCrowded | src/cardy/clique.py:57-60 | the last index below `n` whose candidate has a non-empty neighbourhood, or -1 |
| CliqueGrowth.GreedyShortlist | src/cardy/clique.py:55-62 | because `current_max` stays 0, the shortlist is every candidate from the last one with a non-empty neighbourhood on; it is non-empty for non-empty input; for `d >= 0` it is exactly the last candidate |
| CliqueGrowth.OwnNeighbourhoodNonEmpty | src/cardy/clique.py:58 | with `d >= 0` every candidate lies in its own neighbourhood |
| CliqueGrowth.GreedyStrategy | src/cardy/clique.py:37-63 | returns a candidate; for `d >= 0` it returns the last candidate enumerated |
| CliqueGrowth.MaxCountIsMaximum | src/cardy/clique.py:53 | no candidate among the first `n` has a larger neighbourhood than `MaxCount` |
| CliqueGrowth.MaxCountIsAttained | src/cardy/clique.py:53 | some candidate among the first `n` has a neighbourhood of size `MaxCount` |
| CliqueGrowth.IntendedGreedyShortlist | src/cardy/clique.py:53-63 | with `current_max` updated, the shortlist holds exactly the candidates of largest neighbourhood, and is non-empty for non-empty input |
| CliqueGrowth.ShortlistedStep | src/cardy/clique.py:57-62 | one iteration of the corrected loop keeps the running maximum and the shortlist exact |
| CliqueGrowth.IntendedGreedyStrategy | src/cardy/clique.py:53 | returns a candidate whose neighbourhood is at least as large as every other candidate's |
| CliqueGrowth.GreedyMissesLargestNeighbourhood | src/cardy/clique.py:55-63 | on the two distinct candidates `a = [{1}]` and `b = [{1, 2}]`, enumerated as `[a, b]` with `d = 0`, the last candidate `b` has a neighbourhood of size 1 and `a` one of size 2 |
| CliqueGrowth.ApplyStrategy | src/cardy/clique.py:92 | every strategy returns a member of the non-empty candidate sequence |
| CliqueGrowth.Enumerate | src/cardy/clique.py:57 | the set's members in some order, each exactly once |
| CliqueGrowth.CliqueStep | src/cardy/clique.py:92-97 | the pick is a candidate, and the new candidates are the other candidates within `d` of the pick, measured from the candidate |
| CliqueGrowth.CliqueRound | src/cardy/clique.py:91-97 | one round keeps the picks within `d` of the probe and of each other, keeps the candidates exactly the sorts outside the probe and the picks that lie within `d` of the probe and of every pick, and strictly shrinks the candidate set, so the loop ends |
| CliqueGrowth.Clique | src/cardy/clique.py:66-98 | the probe comes first exactly when the collection holds it; every later member is a sort of the collection other than the probe, within `d` of the probe and of every earlier pick, and none appears twice; every other sort of the collection within `d` of the probe that is left out is more than `d` from some pick |
| CliqueGrowth.PicksInClique | src/cardy/clique.py:89-98 | reads the result's structure off the loop invariant |
| CliqueGrowth.CliqueMaximal | src/cardy/clique.py:91-98 | once the candidate set is empty, every sort of the collection left out, other than the probe and within `d` of it, is more than `d` from some pick |
| Graphs.ConnectedRefl | src/cardy/orthogonality.py:44 | every node is connected to itself |
| Graphs.ConnectedEdge | src/cardy/orthogonality.py:44 | an edge connects its endpoints, in either direction |
| Graphs.ConnectedSym | src/cardy/orthogonality.py:44 | connectivity is symmetric |
| Graphs.ConnectedTrans | src/cardy/orthogonality.py:44 | connectivity is transitive |
| Graphs.ConnectedMono | src/cardy/orthogonality.py:44-45 | more edges never disconnect two nodes |
| Graphs.PathHasEdge | src/cardy/orthogonality.py:44 | a path of two or more nodes uses an edge |
| Graphs.ConnectedNoEdges | src/cardy/orthogonality.py:41-42 | without edges two nodes are connected if and only if they are equal |
| Graphs.SplitPath | src/cardy/orthogonality.py:45 | a path that may use a new edge splits at that edge |
| Graphs.ConnectedAddEdge | src/cardy/orthogonality.py:45 | after adding edge `(a, b)` two nodes are connected if and only if they were already, or one reaches `a` and the other reaches `b` |
| Graphs.AddBridgeKeepsForest | src/cardy/orthogonality.py:44-45 | an edge between two unconnected nodes keeps a forest acyclic |
| Graphs.PartAlongPath | src/cardy/orthogonality.py:44 | a partition of the nodes that no edge crosses gives every node of a path the same part |
| Graphs.ConnectedSamePart | src/cardy/orthogonality.py:44 | nodes in different parts of a partition that no edge crosses are not connected |
| EdgeOrder.WithWeight | src/cardy/orthogonality.py:43 | the items of one weight, in order, are all items of the input with that weight |
| EdgeOrder.Insert | src/cardy/orthogonality.py:43 | insertion adds exactly one item, as a multiset |
| EdgeOrder.SortByWeight | src/cardy/orthogonality.py:43 | the visiting order is a permutation of the items |
| EdgeOrder.InsertSorted | src/cardy/orthogonality.py:43 | inserting into a weight-sorted sequence keeps it sorted |
| EdgeOrder.SortByWeightSorted | src/cardy/orthogonality.py:43 | the visiting order never decreases in weight |
| EdgeOrder.WithWeightInsert | src/cardy/orthogonality.py:43 | insertion puts an item in front of the items of its own weight and leaves every other weight alone |
| EdgeOrder.SortByWeightStable | src/cardy/orthogonality.py:43 | the sort is stable: for every weight, the items of that weight come in map order |
| UnionFind.AboveShrinks | src/cardy/orthogonality.py:17-18 | stepping to a higher-ranked node shrinks the set of nodes above, which bounds every walk |
| UnionFind.Root | src/cardy/orthogonality.py:16-18 | the representative is a root, and a non-root ranks below it |
| UnionFind.Path | src/cardy/orthogonality.py:19-22 | every node walked has the same root and is not a root |
| UnionFind.CompressKeepsRanked | src/cardy/orthogonality.py:19-22 | pointing nodes of one tree at its root keeps the forest ranked |
| UnionFind.CompressKeepsRoot | src/cardy/orthogonality.py:19-22 | and keeps every representative |
| UnionFind.FindKeeps | src/cardy/orthogonality.py:15-23 | path compression keeps the keys, the roots and every representative and component; each pointer is either unchanged or leads straight to the representative |
| UnionFind.WalkStart | src/cardy/orthogonality.py:19 | the invariant of the compression loop holds before it |
| UnionFind.WalkStep | src/cardy/orthogonality.py:20-22 | one compression step keeps the invariant and climbs the rank |
| UnionFind.WalkEnd | src/cardy/orthogonality.py:19-23 | when the loop stops, the parent map is the compressed one |
| UnionFind.LinkKeepsRanked | src/cardy/orthogonality.py:33 | hanging one root under another keeps the forest ranked |
| UnionFind.LinkRoot | src/cardy/orthogonality.py:33 | after linking, the keys of the loser's tree have the winner as representative and every other key keeps its representative |
| UnionFind.LinkKeeps | src/cardy/orthogonality.py:33-34 | linking unites exactly the two components, which were disjoint, and leaves every other component alone |
| UnionFind.FindKeepsCounted | src/cardy/orthogonality.py:15-23 | path compression keeps every root's size equal to its component's size |
| UnionFind.LinkKeepsCounted | src/cardy/orthogonality.py:33-34 | the winner's size becomes the sum of both and still counts its component |
| UnionFind.AfterFinds | src/cardy/orthogonality.py:26-27 | the parent map after both finds of a merge is still ranked over the same keys |
| UnionFind.MergeKeeps | src/cardy/orthogonality.py:25-34 | a merge keeps the forest ranked and counted over the same keys; both old components get the winner as representative and every other key keeps its own; the smaller root joins the larger and the sizes add; merging two keys of one component changes no representative |
| UnionFind.DisjointSet.constructor | src/cardy/orthogonality.py:11-13 | every element is its own parent and its own representative, with size 1 |
| UnionFind.DisjointSet.Find | src/cardy/orthogonality.py:15-23 | returns the representative, which is a root; the new parent map points every walked node at it; sizes are unchanged |
| UnionFind.DisjointSet.Link | src/cardy/orthogonality.py:33-34 | the loser's parent becomes the winner, and the winner's size becomes the sum of both sizes |
| UnionFind.DisjointSet.Merge | src/cardy/orthogonality.py:25-34 | the new parents, sizes and rank are those of `MergedParents` and its companions, about which `MergeKeeps` proves the union-by-size properties |
| SpanningTree.KruskalSubset | src/cardy/orthogonality.py:43-45 | Kruskal keeps only edges it visits |
| SpanningTree.KruskalForest | src/cardy/orthogonality.py:44-45 | Kruskal never closes a cycle |
| SpanningTree.KruskalSpans | src/cardy/orthogonality.py:43-46 | the endpoints of every visited edge are connected through the kept edges |
| SpanningTree.FindTracks | src/cardy/orthogonality.py:44 | path compression keeps two keys sharing a representative exactly when the kept edges connect them |
| SpanningTree.MergeTracks | src/cardy/orthogonality.py:45-46 | merging the endpoints of an edge between two components keeps that correspondence for the edge set with that edge added |
| SpanningTree.KruskalOfItemsForest | src/cardy/orthogonality.py:41-47 | the tree holds only edges of the map and is acyclic |
| SpanningTree.KruskalOfItemsSpans | src/cardy/orthogonality.py:43-47 | the tree connects the endpoints of every edge of the map |
| SpanningTree.VisitedAt | src/cardy/orthogonality.py:43 | every item of the map has a position in the visiting order |
| SpanningTree.MinSpanningTree | src/cardy/orthogonality.py:37-47 | the loop computes Kruskal's tree over the stably sorted items; the tree holds only edges of the map, is acyclic, and connects the endpoints of every edge |
| KruskalExample.InsertBetween | src/cardy/orthogonality.py:43 | an item inserted into a sequence whose lighter items all come first lands right after them |
| KruskalExample.SortTestEdges | tests/test_orthogonality.py:28-40 | the stable sort visits the test's eleven edges as AD, CE, DF, AB, BE, BC, EF, BD, EG, FG, DE, keeping map order among equal weights |
| KruskalExample.SevenVertexTree | tests/test_orthogonality.py:25-43 | Kruskal's rule over the test's edge map keeps exactly AB, AD, BE, CE, DF and EG, the tree the test expects from `min_spanning_tree` |
| Orthogonality.EdgesFromItems | src/cardy/orthogonality.py:57-60 | every edge joins two indices `a < b` and weighs the distance from sort `a` to sort `b` |
| Orthogonality.EdgesFromOrdered | src/cardy/orthogonality.py:59 | the edges come in the order `combinations` yields them: by first index, then by second |
| Orthogonality.EdgesFromCovers | src/cardy/orthogonality.py:57-60 | every pair of indices `a < b` is an edge |
| Orthogonality.CompleteEdgesFacts | src/cardy/orthogonality.py:56-61 | the endpoints are vertices, the weights are not negative, no edge repeats, and a single sort has no edges |
| Orthogonality.WeightMap | src/cardy/orthogonality.py:57-60 | the map's keys are exactly the listed edges |
| Orthogonality.SumOverRemove | src/cardy/orthogonality.py:62 | a sum over a set is one element's weight plus the sum over the rest |
| Orthogonality.SumOverAgree | src/cardy/orthogonality.py:62 | sums over a set agree under two weight maps that agree on it |
| Orthogonality.TreeWeightIsSum | src/cardy/orthogonality.py:62 | summing the listed items whose edge is in the tree gives the sum of `edges[e]` over the tree edges that are keys |
| Orthogonality.TreeWeightNonNegative | src/cardy/orthogonality.py:62 | with non-negative weights the total is not negative |
| Orthogonality.TreeOfWeight | src/cardy/orthogonality.py:61-62 | the tree holds only edges of the map, its total weight is the sum of `edges[e]` over it, that total is not negative, and it is 0 for a single sort |
| Orthogonality.TreeOfWeightIsSum | src/cardy/orthogonality.py:61-62 | the tree holds only edges of the map and its total weight is the sum of `edges[e]` over it |
| Orthogonality.ComputeOrthogonality | src/cardy/orthogonality.py:50-63 | the result is the weight of Kruskal's tree over the complete distance graph divided by the number of sorts, is not negative, and is 0 for a single sort |
| Orthogonality.PairIsEdge | src/cardy/orthogonality.py:57-60 | every two distinct indices are joined by an edge of the map, with the smaller index first |
| Orthogonality.TreeSpans | src/cardy/orthogonality.py:56-61 | the tree is acyclic and connects every two sort indices, so it is a spanning tree of the complete graph |

## Left out

- The Hungarian algorithm in `munkres` and `make_cost_matrix` are foreign code. The
  solver's answer is a parameter of `ComputeDistance`, and the only requirement on it is
  that it is an optimal assignment.
- A pair in which exactly one sort has no groups is excluded by `Comparable`, because
  the behaviour is decided inside `munkres`.
- `random.Random` inside `Selector`, and the seed, are not modelled. `Select` is an
  arbitrary choice of a member, so no particular random draw is modelled.
- Python's set iteration order is not modelled. `Enumerate` yields the members in an
  order the model leaves open.
- Floating point: `ComputeOrthogonality` returns a Dafny `real`. IEEE rounding and the
  tests' `approx` comparisons are not modelled.
- The commented-out alternative implementation in `distance.py` is not modelled.
- Python's `sorted` is specified by an insertion sort. The model proves that this sort
  orders the items by weight, that it is a permutation, and that it is stable. The
  algorithm CPython uses is not modelled.
- The concrete examples of the tests are not replayed:
  - the neighbourhoods of `SORTS` at distances 0 to 3;
  - the orthogonality values 7/3 and 11.0;
  - the ten-element union-find scenario.

  Evaluating the assignment optimum or the concrete union-find states by unfolding is
  beyond what the verifier does cheaply. The general properties those tests check are
  proved instead, by `MergeKeeps`, `MinSpanningTree` and `TreeSpans` among others. The
  seven-vertex spanning tree is replayed (`KruskalExample.SevenVertexTree`).
- The clique tests that use a mapping-of-ids interface, and their JSON fixtures, target
  code that is not shown. They are not modelled.
- `SpanningTree.MinSpanningTree`: minimality of the tree is not proved (the cut
  property). Neither is its edge count of `n - 1` for a connected graph. The contract
  states that the result is Kruskal's tree, acyclic, within the map's edges, and
  spanning.
- `CliqueGrowth.Clique`: the picks are collected in their own sequence and appended
  after the probe at the end. The program appends each pick to one list. The result is
  the same.
- `UnionFind.DisjointSet.Find`: the contract does not restate that every
  representative is unchanged. That fact follows from `parents == AfterFind(...)`
  together with `FindKeeps`.

## Findings

| source | as written | input that shows it | evidently intended | confidence | as-written member | corrected member |
|---|---|---|---|---|---|---|
| src/cardy/clique.py:55-62 | `current_max` starts at 0 and is never reassigned. Every candidate with a non-empty neighbourhood restarts `max_candidates`, so for `d >= 0` the strategy always returns the last candidate enumerated. | `d = 0`, the candidate set `{a, b}` with `a = ({1},)` and `b = ({1, 2},)`, enumerated as `[a, b]`: `a` is within 0 of both and `b` only of itself, so the neighbourhood of `a` has 2 members and that of `b` has 1, yet `b` is returned | update `current_max` when a larger size is seen, so that the shortlist holds the candidates of largest neighbourhood, as the docstring at line 53 says | high; not executed | CliqueGrowth.GreedyStrategy, CliqueGrowth.GreedyMissesLargestNeighbourhood | CliqueGrowth.IntendedGreedyStrategy |
