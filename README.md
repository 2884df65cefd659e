# Homophilic preferential-attachment graph generator

This is a Dafny model of the generator for the homophilic Barabási–Albert
network: the growth loop `homophilic_ba_graph` and its per-node target picker
`_pick_targets`. The model has three modules.

- `Graphs` (graph.dfy): the graph as a value. It holds N labelled nodes and a
  set of unordered edges, each stored with its smaller endpoint first. The
  degree of a node is computed from the current edge set.
- `TargetSelection` (target_selection.dfy): the picker.
  - Each candidate k gets a weight: the homophily factor (`homophily` when k is
    in the same group as `source`, else `1 - homophily`) times
    `degree(k) + 0.00001`.
  - The total is computed once. If it is zero, nothing is picked.
  - Otherwise the picker runs up to N attempts. Each attempt consumes one
    uniform draw and walks the running shares `weight / total` over a private
    copy of the list, in list order. It takes the first candidate whose
    running share exceeds the draw and removes that candidate from the copy.
  - The picker stops once m targets are chosen.
  - Each loop has two forms: a method with loop invariants (`WeightTable`,
    `DrawOne`, `DrawTargets`) and a function it is proved equal to
    (`WeightMap`, `FirstExceeding`, `SampleFrom`). The method `PickTargets`
    calls these loops and is proved equal to the function `PickSpec`. The
    properties are lemmas about those functions.
- `Generator` (generator.dfy): the growth loop.
  - The nodes in the minority sample are labelled minority.
  - The candidate list starts as `[0 .. m-1]`.
  - Each node `source = m .. N-1` is joined to the targets picked for it.
  - `source` is then appended to the candidate list.
  - `Grow` is the recursive definition of the whole run. `Populate` and
    `HomophilicBaGraph` are proved to return exactly `Grow`'s graph.
    `GrowShape` proves the structural guarantees about `Grow`'s result.

Randomness is an input. The minority sample is a set argument of the right
size. The uniform draws are a stream `draws: nat -> real` read through a
cursor. The picker returns the position of the next unused draw, so one
stream feeds the whole run in the order the source consumes its random
numbers. The weights and running shares are exact reals.

## Model

| member | source | states |
|---|---|---|
| Graphs.Pair | generate_homophilic_graph_symmetric.py:75 | an edge added between `source` and a target is the unordered pair of the two, with distinct ordered endpoints |
| Graphs.Degree | generate_homophilic_graph_symmetric.py:89 | `G.degree(target)` is the number of neighbours in the current edge set; it is zero exactly when no edge touches the node |
| Graphs.DegreeBound | generate_homophilic_graph_symmetric.py:89 | in a simple graph on N nodes a node's degree, as used in the weight, is at most N-1 |
| TargetSelection.Weight | generate_homophilic_graph_symmetric.py:87-90 | a candidate's weight is non-negative; it is zero exactly when its homophily factor is (homophily 0 for a same-group candidate, 1 for an other-group one); it is positive when homophily is strictly between 0 and 1 |
| TargetSelection.WeightMap | generate_homophilic_graph_symmetric.py:86-90 | `target_prob_dict`: exactly one entry per listed candidate, each a non-negative weight |
| TargetSelection.WeightTable | generate_homophilic_graph_symmetric.py:86-90 | the loop fills a table with exactly one entry per listed candidate, holding that candidate's weight |
| TargetSelection.Total | generate_homophilic_graph_symmetric.py:92 | `prob_sum`, the sum of the listed candidates' weights; it is non-negative when every weight is |
| TargetSelection.TotalZeroIff | generate_homophilic_graph_symmetric.py:92 | with non-negative weights, `prob_sum` is non-negative, and zero iff every candidate weighs zero |
| TargetSelection.Cum | generate_homophilic_graph_symmetric.py:106-108 | `cumsum` after the first n candidates of the copy, the sum of their `weight / prob_sum`; non-negative for non-negative weights and a positive total |
| TargetSelection.CumShare | generate_homophilic_graph_symmetric.py:106-108 | the running sum after n candidates equals their total weight divided by `prob_sum` |
| TargetSelection.CumMonotone | generate_homophilic_graph_symmetric.py:106-108 | with a positive total the running sum never decreases along the list |
| TargetSelection.FirstFrom | generate_homophilic_graph_symmetric.py:107-112 | the scan resumed at position j stops at the first later position whose running sum exceeds the draw, or runs off the end when none does |
| TargetSelection.FirstExceeding | generate_homophilic_graph_symmetric.py:107-112 | the selected position is the first whose running sum exceeds the draw (no earlier running sum does); returning the end of the list means no running sum exceeds it |
| TargetSelection.DrawHitsIff | generate_homophilic_graph_symmetric.py:105-112 | a draw r >= 0 selects a candidate iff r is below the remaining pool's weight over the original `prob_sum`; larger draws select nothing |
| TargetSelection.DrawOne | generate_homophilic_graph_symmetric.py:106-112 | the cumulative-sum loop returns exactly the position `FirstExceeding` defines |
| TargetSelection.RemoveAt | generate_homophilic_graph_symmetric.py:111 | removing the drawn candidate from the private copy drops exactly that candidate and keeps every other in its list order, so the copy stays repeat-free |
| TargetSelection.SampleFrom | generate_homophilic_graph_symmetric.py:101-112 | the draw loop consumes at most one draw per remaining attempt (at most `len(G)` in all), and it stops short of m picks only after using every remaining attempt |
| TargetSelection.SampleShape | generate_homophilic_graph_symmetric.py:101-112 | the draw loop keeps earlier picks and picks at most m. Each pick came from the pool, and at most one is added per draw. Afterwards the picks and the remaining copy partition the starting pool, and the copy has no repeats |
| TargetSelection.DrawTargets | generate_homophilic_graph_symmetric.py:94-114 | the `while len(targets) < m` loop with its attempt counter returns exactly the targets and draw position `SampleFrom` defines |
| TargetSelection.PickSpec | generate_homophilic_graph_symmetric.py:84-114 | a selection uses at most `len(G)` draws; it returns fewer than m targets only when `prob_sum` is zero or all `len(G)` attempts were used |
| TargetSelection.PickShape | generate_homophilic_graph_symmetric.py:94-114 | the returned targets are candidates from the list, at most m of them, and targets plus remaining copy partition the candidate list |
| TargetSelection.PickTargets | generate_homophilic_graph_symmetric.py:84-114 | `_pick_targets` returns `PickSpec`'s targets and draw position; the targets are a subset of the list, at most m, using at most `len(G)` draws |
| TargetSelection.ZeroTotalIff | generate_homophilic_graph_symmetric.py:88-92 | `prob_sum` is zero iff every candidate's homophily factor is zero |
| TargetSelection.NoWeightNoTargets | generate_homophilic_graph_symmetric.py:98-99 | when every factor is zero (e.g. homophily 1 and all candidates in the other group) the result is empty and no draw is used |
| TargetSelection.InteriorHomophilyPositiveTotal | generate_homophilic_graph_symmetric.py:88-92 | for homophily strictly between 0 and 1 and a non-empty list the total is positive, so the zero-total exit is never taken |
| Generator.Range | generate_homophilic_graph_symmetric.py:67 | `list(range(n))` holds i at position i, n entries |
| Generator.RangeMembers | generate_homophilic_graph_symmetric.py:67-77 | the candidate list `[0..n-1]` contains exactly the nodes below n, each once |
| Generator.MinorityMask | generate_homophilic_graph_symmetric.py:63 | node v is marked minority iff v is in the minority sample |
| Generator.MinorityCount | generate_homophilic_graph_symmetric.py:60-63 | exactly as many nodes are marked as the sample holds |
| Generator.Attach | generate_homophilic_graph_symmetric.py:74-75 | the added edges join `source` to each target and to nothing else |
| Generator.AttachParents | generate_homophilic_graph_symmetric.py:74-75 | after the commit the nodes `source` attached to are exactly its targets; every other node's attachments are unchanged |
| Generator.GrownEmpty | generate_homophilic_graph_symmetric.py:58-69 | the edgeless starting graph has the growth shape |
| Generator.CommitKeepsGrown | generate_homophilic_graph_symmetric.py:71-79 | committing at most m earlier targets for `source` (or nothing) keeps the shape: every edge goes from a node to a strictly smaller one, no node below m added edges, no node past `source` has any, no node attached to more than m |
| Generator.Grow | generate_homophilic_graph_symmetric.py:69-79 | the run from `source` on: pick with `PickSpec` from `[0..source-1]` on the current graph, add the edges when the pick is non-empty, continue at the next draw position, stop at N; it keeps the node count and the labels |
| Generator.GrowKeepsEdges | generate_homophilic_graph_symmetric.py:71-79 | the run never removes an edge: every edge present when growth reaches `source` is in the final graph |
| Generator.GrowShape | generate_homophilic_graph_symmetric.py:69-79 | the whole run keeps the node count and labels and ends with that shape up to node N-1 |
| Generator.AddNode | generate_homophilic_graph_symmetric.py:72-79 | one round joins `source` to exactly the targets `PickSpec` picks from `[0..source-1]` (no edge when none are picked), moves the draw position to where that pick stops, keeps the node count and labels, and leaves the rest of the run as `Grow` defines it |
| Generator.Populate | generate_homophilic_graph_symmetric.py:67-79 | the loop returns `Grow`'s graph; the candidate list ends as `[0..N-1]` when N > m and as `[0..m-1]` otherwise |
| Generator.HomophilicBaGraph | generate_homophilic_graph_symmetric.py:17-82 | the generator returns `Grow`'s graph. It has N nodes, and exactly the `int(minority_fraction*N)` sampled nodes carry the minority label. There are no self-loops and no edge leaves `[0, N)`. Every edge's larger end is at least m, and no node attached to more than m nodes. N <= m gives no edges, and every degree is at most N-1 |

## Left out

- networkx is not modelled.
  - `nx.Graph`, `add_nodes_from` and `add_edges_from` become a value with a node count, a label sequence and a set of normalised pairs. `G.degree` is the neighbour count in that set.
  - `zip([source]*m, targets)` never truncates, because at most m targets are returned.
- Random number generation is not modelled. `random.seed`/`np.random.seed` (lines 55-57), `random.sample` (line 62) and `random.random` (line 105) become inputs: the minority set, and a stream of draws with a cursor. The `seed` parameter is therefore absent.
- Floating-point rounding is not modelled: weights, `prob_sum` and the running sums are exact reals. The minority count at line 60, `int(minority_fraction * N)`, is the exact real floor; the float product can round below an integer (`0.29 * 100` gives 28 in Python, 29 here).
- The `"red"`/`"blue"` colour attribute is modelled as a boolean label per node.
- The `__main__` demo is not modelled.
- No statistical claim about cross-group edge rates is modelled. Those are properties of the distribution, not of one run.
- HomophilicBaGraph: the source mutates one graph object in place. The model reassigns a graph value in the loop, so aliasing of `G` is not captured. The candidate list is a value appended in the loop.
- HomophilicBaGraph: the source does no parameter validation. The valid ranges (fractions in [0, 1], minority sample of size `int(minority_fraction*N)` inside `[0, N)`) are preconditions.
- PickTargets: the candidate list must have no repeats. The source accepts any list, but its only caller passes `[0..source-1]`, and with repeats the weight dict would collapse entries.
- DrawHitsIff: draws are only assumed non-negative, not below 1. The other members accept any real draw.
