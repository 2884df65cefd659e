/** Undirected simple graphs over the node indices 0..order-1, with a group
    label per node and the degree derived from the current edge set. */
module Graphs {

  /** An undirected edge, stored with its smaller endpoint first, so that the
      pairs (u, v) and (v, u) are one and the same value. */
  datatype Edge = Edge(lo: nat, hi: nat)

  /** The unordered pair {u, v}, as the graph stores an edge given either way round. */
  function Pair(u: nat, v: nat): (e: Edge)
    requires u != v
    ensures e.lo < e.hi && {e.lo, e.hi} == {u, v}
  {
    if u < v then Edge(u, v) else Edge(v, u)
  }

  /** The graph being grown: its node count, the group label of each node
      (true for the minority group) and its set of edges. */
  datatype Graph = Graph(order: nat, minority: seq<bool>, edges: set<Edge>)

  /** No self-loops and no edge to a node outside 0..order-1 (duplicate edges
      cannot arise, since edges form a set of normalised pairs). */
  predicate Simple(order: nat, edges: set<Edge>)
  {
    forall e :: e in edges ==> e.lo < e.hi < order
  }

  /** The nodes joined to v by an edge. */
  function Neighbours(edges: set<Edge>, v: nat): set<nat>
  {
    (set e | e in edges && e.lo == v :: e.hi) + (set e | e in edges && e.hi == v :: e.lo)
  }

  /** The degree of v at the current point of growth (a simple graph has one
      edge per neighbour). */
  function Degree(edges: set<Edge>, v: nat): (d: nat)
    ensures d == 0 <==> forall e :: e in edges ==> e.lo != v && e.hi != v
  {
    var around := Neighbours(edges, v);
    assert forall e :: e in edges && e.lo == v ==> e.hi in around;
    assert forall e :: e in edges && e.hi == v ==> e.lo in around;
    |around|
  }

  /** The lower endpoints of the edges whose higher endpoint is s: in a grown
      graph, the targets that node s attached to when it was added. */
  function Parents(edges: set<Edge>, s: nat): set<nat>
  {
    set e | e in edges && e.hi == s :: e.lo
  }

  /** The node indices below n. */
  function Below(n: nat): (s: set<nat>)
    ensures |s| == n
    ensures forall u: nat :: u in s <==> u < n
  {
    if n == 0 then {} else
    var below := Below(n - 1);
    assert n - 1 !in below;
    below + {n - 1}
  }

  lemma {:induction false} SubsetSize(a: set<nat>, b: set<nat>)
    requires a <= b
    ensures |a| <= |b|
    decreases |a|
  {
    if a != {} {
      var x :| x in a;
      SubsetSize(a - {x}, b - {x});
    }
  }

  /** In a simple graph on `order` nodes no node has more than order - 1 neighbours. */
  lemma DegreeBound(order: nat, edges: set<Edge>, v: nat)
    requires Simple(order, edges) && v < order
    ensures Degree(edges, v) <= order - 1
  {
    var others := Below(order) - {v};
    assert Neighbours(edges, v) <= others;
    SubsetSize(Neighbours(edges, v), others);
  }
}
