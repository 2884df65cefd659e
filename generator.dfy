/** The growth loop of the homophilic preferential-attachment generator: label
    the minority nodes, then add nodes m, m+1, ..., N-1 in order, each joined
    to the targets the selector picks from the nodes before it. */
module Generator {
  import opened Graphs
  import opened TargetSelection

  /** The list [0, 1, ..., n-1]. */
  function Range(n: nat): (r: seq<nat>)
    ensures |r| == n && forall i :: 0 <= i < n ==> r[i] == i
  {
    if n == 0 then [] else Range(n - 1) + [n - 1]
  }

  /** The members of [0 .. n-1] are exactly the nodes below n, each once. */
  lemma RangeMembers(n: nat)
    ensures forall t: nat :: t in Range(n) <==> t < n
    ensures Distinct(Range(n))
  {
    var r := Range(n);
    forall t | t in r ensures t < n {
      var i :| 0 <= i < n && r[i] == t;
    }
    forall t: nat | t < n ensures t in r {
      assert r[t] == t;
    }
  }

  /** The group label of every node: true exactly for the minority nodes. */
  function MinorityMask(n: nat, minorityNodes: set<nat>): (mask: seq<bool>)
    ensures |mask| == n && forall v :: 0 <= v < n ==> (mask[v] <==> v in minorityNodes)
  {
    seq(n, v => v in minorityNodes)
  }

  /** Exactly the sampled nodes carry the minority label. */
  lemma MinorityCount(n: nat, minorityNodes: set<nat>)
    requires forall v :: v in minorityNodes ==> v < n
    ensures |set v: nat | v < n && MinorityMask(n, minorityNodes)[v]| == |minorityNodes|
  {
    var mask := MinorityMask(n, minorityNodes);
    assert (set v: nat | v < n && mask[v]) == minorityNodes;
  }

  /** The edges from a new node `source` to each of its targets. */
  function Attach(source: nat, targets: set<nat>): (added: set<Edge>)
    requires forall t :: t in targets ==> t < source
    ensures forall e :: e in added ==> e.hi == source && e.lo in targets
    ensures forall t :: t in targets ==> Edge(t, source) in added
  {
    set t | t in targets :: Pair(source, t)
  }

  /** Committing a selection adds exactly the chosen targets as the parents of
      `source` and leaves every other node's parents as they were. */
  lemma AttachParents(edges: set<Edge>, source: nat, targets: set<nat>)
    requires forall t :: t in targets ==> t < source
    requires forall e :: e in edges ==> e.hi < source
    ensures Parents(edges + Attach(source, targets), source) == targets
    ensures forall s :: s != source ==> Parents(edges + Attach(source, targets), s) == Parents(edges, s)
  {
    var grown := edges + Attach(source, targets);
    forall t | t in targets ensures t in Parents(grown, source) {
      assert Edge(t, source) in grown;
    }
    forall s | s != source ensures Parents(grown, s) == Parents(edges, s) {
      assert forall e :: e in grown && e.hi == s ==> e in edges;
    }
  }

  /** The shape of the graph once nodes m .. source-1 are added: every edge
      joins a node to a strictly smaller one, no node below m added an edge of
      its own, no node after source-1 has an edge yet, and no node has more
      than m parents. */
  ghost predicate Grown(edges: set<Edge>, m: nat, source: nat)
  {
    && (forall e :: e in edges ==> e.lo < e.hi && m <= e.hi < source)
    && (forall s :: |Parents(edges, s)| <= m)
  }

  /** The edgeless graph on which growth starts has that shape. */
  lemma GrownEmpty(m: nat)
    ensures Grown({}, m, m)
  {
    forall s ensures |Parents({}, s)| <= m {
      assert Parents({}, s) == {};
    }
  }

  /** Committing a selection of at most m earlier nodes for `source` keeps that shape. */
  lemma CommitKeepsGrown(edges: set<Edge>, m: nat, source: nat, targets: set<nat>)
    requires Grown(edges, m, source) && m <= source
    requires (forall t :: t in targets ==> t < source) && |targets| <= m
    ensures Grown(if targets != {} then edges + Attach(source, targets) else edges, m, source + 1)
  {
    if targets != {} {
      AttachParents(edges, source, targets);
    }
  }

  /** The growth from node `source` on, with [0 .. source-1] as candidate list. */
  function Grow(g: Graph, m: nat, mask: seq<bool>, homophily: real, draws: nat -> real,
                source: nat, cursor: nat): (r: Graph)
    requires |mask| == g.order && m <= source && 0.0 <= homophily <= 1.0
    ensures r.order == g.order && r.minority == g.minority
    decreases g.order - source
  {
    if source >= g.order then g
    else
      var candidates := Range(source);
      var p := PickSpec(g, source, candidates, mask, homophily, m, draws, cursor);
      PickShape(g, source, candidates, mask, homophily, m, draws, cursor);
      var g' := if p.targets != {} then g.(edges := g.edges + Attach(source, p.targets)) else g;
      Grow(g', m, mask, homophily, draws, source + 1, p.cursor)
  }

  /** One step of the growth, unfolded: node `source` is joined to its pick
      and the run continues at the next node and draw position. */
  lemma GrowStep(g: Graph, m: nat, mask: seq<bool>, homophily: real, draws: nat -> real,
                 source: nat, cursor: nat, p: Picked)
    requires |mask| == g.order && m <= source < g.order && 0.0 <= homophily <= 1.0
    requires Candidates(g, source, Range(source), mask)
    requires p == PickSpec(g, source, Range(source), mask, homophily, m, draws, cursor)
    requires forall t :: t in p.targets ==> t < source
    ensures Grow(g, m, mask, homophily, draws, source, cursor)
            == Grow(if p.targets != {} then g.(edges := g.edges + Attach(source, p.targets)) else g,
                    m, mask, homophily, draws, source + 1, p.cursor)
  {
    hide PickSpec, WeightMap, Total;
  }

  /** Growing from a graph of that shape yields one of the same shape, with
      every node up to N-1 added. */
  lemma {:induction false} GrowShape(g: Graph, m: nat, mask: seq<bool>, homophily: real, draws: nat -> real,
                                     source: nat, cursor: nat)
    requires |mask| == g.order && m <= source && 0.0 <= homophily <= 1.0
    requires Grown(g.edges, m, source)
    ensures var r := Grow(g, m, mask, homophily, draws, source, cursor);
            && r.order == g.order && r.minority == g.minority
            && Grown(r.edges, m, if source < g.order then g.order else source)
    decreases g.order - source
  {
    hide Grow, Grown, PickSpec, WeightMap, Total;
    if source < g.order {
      var candidates := Range(source);
      var p := PickSpec(g, source, candidates, mask, homophily, m, draws, cursor);
      RangeMembers(source);
      PickShape(g, source, candidates, mask, homophily, m, draws, cursor);
      CommitKeepsGrown(g.edges, m, source, p.targets);
      var g' := if p.targets != {} then g.(edges := g.edges + Attach(source, p.targets)) else g;
      GrowStep(g, m, mask, homophily, draws, source, cursor, p);
      GrowShape(g', m, mask, homophily, draws, source + 1, p.cursor);
    } else {
      GrowDone(g, m, mask, homophily, draws, source, cursor);
    }
  }

  /** The run only ever adds edges: every edge present when growth reaches
      `source` is still there at the end. */
  lemma {:induction false} GrowKeepsEdges(g: Graph, m: nat, mask: seq<bool>, homophily: real, draws: nat -> real,
                                          source: nat, cursor: nat)
    requires |mask| == g.order && m <= source && 0.0 <= homophily <= 1.0
    ensures forall e :: e in g.edges ==> e in Grow(g, m, mask, homophily, draws, source, cursor).edges
    decreases g.order - source
  {
    hide Grow, PickSpec, WeightMap, Total;
    if source < g.order {
      RangeMembers(source);
      var p := PickSpec(g, source, Range(source), mask, homophily, m, draws, cursor);
      PickShape(g, source, Range(source), mask, homophily, m, draws, cursor);
      var g' := if p.targets != {} then g.(edges := g.edges + Attach(source, p.targets)) else g;
      GrowStep(g, m, mask, homophily, draws, source, cursor, p);
      GrowKeepsEdges(g', m, mask, homophily, draws, source + 1, p.cursor);
    } else {
      GrowDone(g, m, mask, homophily, draws, source, cursor);
    }
  }

  /** Growth that has reached the last node changes nothing more. */
  lemma GrowDone(g: Graph, m: nat, mask: seq<bool>, homophily: real, draws: nat -> real,
                 source: nat, cursor: nat)
    requires |mask| == g.order && m <= source && 0.0 <= homophily <= 1.0 && g.order <= source
    ensures Grow(g, m, mask, homophily, draws, source, cursor) == g
  {
  }

  /** One round of the growth loop: pick the targets of `source` among the
      nodes before it, join it to them, and move on to the next node. */
  method AddNode(g: Graph, m: nat, mask: seq<bool>, homophily: real, draws: nat -> real,
                 source: nat, targetList: seq<nat>, cursor: nat) returns (g': Graph, next: nat)
    requires |mask| == g.order && m <= source < g.order && 0.0 <= homophily <= 1.0
    requires targetList == Range(source)
    ensures g'.order == g.order && g'.minority == g.minority
    ensures Grow(g', m, mask, homophily, draws, source + 1, next) == Grow(g, m, mask, homophily, draws, source, cursor)
    ensures var p := PickSpec(g, source, Range(source), mask, homophily, m, draws, cursor);
            && next == p.cursor
            && g'.edges == (if p.targets != {} then g.edges + Attach(source, p.targets) else g.edges)
  {
    RangeMembers(source);
    var targets;
    targets, next := PickTargets(g, source, targetList, mask, homophily, m, draws, cursor);
    g' := g;
    if targets != {} {
      g' := g.(edges := g.edges + Attach(source, targets));
    }
  }

  /** The growth loop: starting from the nodes 0 .. m-1 as candidates, add
      nodes m .. N-1 one at a time, each becoming a candidate for the ones
      after it. */
  method Populate(start: Graph, m: nat, mask: seq<bool>, homophily: real, draws: nat -> real)
    returns (g: Graph, ghost candidates: seq<nat>)
    requires |mask| == start.order && 0.0 <= homophily <= 1.0
    ensures g == Grow(start, m, mask, homophily, draws, m, 0)
    ensures candidates == Range(if start.order > m then start.order else m)
  {
    // The loop only chains AddNode's steps; no unfolding of Grow or PickSpec is needed.
    hide Grow;
    hide PickSpec, WeightMap, Total;
    var n := start.order;
    g := start;
    var targetList := Range(m);
    var source := m;
    var cursor := 0;
    while source < n
      invariant m <= source && (source <= n || source == m)
      invariant g.order == n
      invariant targetList == Range(source)
      invariant Grow(g, m, mask, homophily, draws, source, cursor) == Grow(start, m, mask, homophily, draws, m, 0)
    {
      var next;
      g, next := AddNode(g, m, mask, homophily, draws, source, targetList, cursor);
      targetList := targetList + [source];
      source := source + 1;
      cursor := next;
    }
    GrowDone(g, m, mask, homophily, draws, source, cursor);
    candidates := targetList;
  }

  /** The generator. The minority sample and the stream of uniform draws are
      inputs; the returned graph is the one `Grow` describes, and it has the
      promised shape whatever the draws are. `candidates` is the final
      candidate list. */
  method HomophilicBaGraph(n: nat, m: nat, minorityFraction: real, homophily: real,
                           minorityNodes: set<nat>, draws: nat -> real)
    returns (g: Graph, ghost candidates: seq<nat>)
    requires 0.0 <= minorityFraction <= 1.0 && 0.0 <= homophily <= 1.0
    requires |minorityNodes| == (minorityFraction * (n as real)).Floor
    requires forall v :: v in minorityNodes ==> v < n
    ensures g == Grow(Graph(n, MinorityMask(n, minorityNodes), {}), m, MinorityMask(n, minorityNodes),
                      homophily, draws, m, 0)
    ensures g.order == n && |g.minority| == n
    ensures forall v :: 0 <= v < n ==> (g.minority[v] <==> v in minorityNodes)
    ensures |set v: nat | v < n && g.minority[v]| == (minorityFraction * (n as real)).Floor
    ensures Simple(n, g.edges)
    ensures forall e :: e in g.edges ==> m <= e.hi
    ensures forall s :: |Parents(g.edges, s)| <= m
    ensures n <= m ==> g.edges == {}
    ensures forall v :: 0 <= v < n ==> Degree(g.edges, v) <= n - 1
    ensures candidates == Range(if n > m then n else m)
  {
    var mask := MinorityMask(n, minorityNodes);
    g := Graph(n, mask, {});
    ghost var start := g;
    g, candidates := Populate(g, m, mask, homophily, draws);
    GrownEmpty(m);
    GrowShape(start, m, mask, homophily, draws, m, 0);
    MinorityCount(n, minorityNodes);
    forall v | 0 <= v < n ensures Degree(g.edges, v) <= n - 1 {
      DegreeBound(n, g.edges, v);
    }
  }
}
