/**
 * Adjacency-list graphs: an undirected graph stores each edge in both
 * endpoints' lists, a directed graph stores it in the source's list and,
 * reversed, in the target's inverse list. `Graph` dispatches to either.
 */
module Graphs {
  import opened Wrappers

  /** An edge to node `to` with weight `weight`. */
  datatype Edge<E> = Edge(to: nat, weight: E)

  datatype Ordering = Less | Equal | Greater

  /** `Edge`'s `PartialEq`: only the weights are compared. */
  predicate EdgeEq<E(==,!new)>(a: Edge<E>, b: Edge<E>)
  {
    a.weight == b.weight
  }

  /** `Edge`'s `Ord`: the order of the weights. */
  function EdgeCmp(a: Edge<int>, b: Edge<int>): Ordering
  {
    if a.weight < b.weight then Less else if a.weight == b.weight then Equal else Greater
  }

  function Flip(o: Ordering): Ordering
  {
    match o
    case Less => Greater
    case Equal => Equal
    case Greater => Less
  }

  /** The order is consistent with `EdgeEq`, antisymmetric, and blind to the target node. */
  lemma EdgeOrderFacts(a: Edge<int>, b: Edge<int>, t: nat)
    ensures EdgeCmp(a, b) == Equal <==> EdgeEq(a, b)
    ensures EdgeCmp(b, a) == Flip(EdgeCmp(a, b))
    ensures EdgeCmp(a.(to := t), b) == EdgeCmp(a, b)
  {
  }

  /** The order is transitive. */
  lemma EdgeOrderTransitive(a: Edge<int>, b: Edge<int>, c: Edge<int>)
    requires EdgeCmp(a, b) != Greater && EdgeCmp(b, c) != Greater
    ensures EdgeCmp(a, c) != Greater
    ensures EdgeCmp(a, b) == Less || EdgeCmp(b, c) == Less ==> EdgeCmp(a, c) == Less
  {
  }

  /** Two edges to different nodes with the same weight are equal as `Edge`s. */
  lemma EdgeEqIgnoresTarget()
    ensures EdgeEq(Edge(0, 5), Edge(1, 5)) && Edge(0, 5) != Edge(1, 5)
    ensures EdgeCmp(Edge(0, 5), Edge(1, 5)) == Equal
  {
  }

  /** Every edge of every list points at a node of the graph. */
  ghost predicate TargetsInRange<E>(lists: seq<seq<Edge<E>>>, n: nat)
  {
    forall u, k :: 0 <= u < |lists| && 0 <= k < |lists[u]| ==> lists[u][k].to < n
  }

  /** `u` lists an edge to `v` of weight `w` as often as `v` lists one to `u`. */
  ghost predicate Symmetric<E(!new)>(edges: seq<seq<Edge<E>>>)
  {
    forall u, v, w :: 0 <= u < |edges| && 0 <= v < |edges| ==>
      multiset(edges[u])[Edge(v, w)] == multiset(edges[v])[Edge(u, w)]
  }

  /** `inv[v]` lists `u` with weight `w` as often as `edges[u]` lists `v` with weight `w`. */
  ghost predicate Mirrors<E(!new)>(edges: seq<seq<Edge<E>>>, inv: seq<seq<Edge<E>>>)
  {
    |edges| == |inv| &&
    forall u, v, w :: 0 <= u < |edges| && 0 <= v < |edges| ==>
      multiset(edges[u])[Edge(v, w)] == multiset(inv[v])[Edge(u, w)]
  }

  /** The lists after appending `e` to list `i`. */
  function Appended<E>(lists: seq<seq<Edge<E>>>, i: nat, e: Edge<E>): (r: seq<seq<Edge<E>>>)
    requires i < |lists|
    ensures |r| == |lists| && r[i] == lists[i] + [e]
    ensures forall j :: 0 <= j < |lists| && j != i ==> r[j] == lists[j]
  {
    lists[i := lists[i] + [e]]
  }

  /** How often `x` occurs in list `j` after appending `e` to list `i`. */
  lemma AppendedCount<E(!new)>(lists: seq<seq<Edge<E>>>, i: nat, e: Edge<E>, j: nat, x: Edge<E>)
    requires i < |lists| && j < |lists|
    ensures multiset(Appended(lists, i, e)[j])[x] == multiset(lists[j])[x] + (if j == i && x == e then 1 else 0)
  {
    if j == i {
      assert multiset(lists[i] + [e]) == multiset(lists[i]) + multiset{e};
    }
  }

  /** Adding both halves of an undirected edge keeps the lists symmetric. */
  lemma AddBothKeepsSymmetric<E(!new)>(edges: seq<seq<Edge<E>>>, from: nat, to: nat, w: E)
    requires from < |edges| && to < |edges| && Symmetric(edges)
    ensures Symmetric(Appended(Appended(edges, from, Edge(to, w)), to, Edge(from, w)))
  {
    var e1 := Appended(edges, from, Edge(to, w));
    var e2 := Appended(e1, to, Edge(from, w));
    forall u, v, x | 0 <= u < |edges| && 0 <= v < |edges|
      ensures multiset(e2[u])[Edge(v, x)] == multiset(e2[v])[Edge(u, x)]
    {
      AppendedCount(edges, from, Edge(to, w), u, Edge(v, x));
      AppendedCount(e1, to, Edge(from, w), u, Edge(v, x));
      AppendedCount(edges, from, Edge(to, w), v, Edge(u, x));
      AppendedCount(e1, to, Edge(from, w), v, Edge(u, x));
    }
  }

  /** Adding an edge forwards and its reverse to the inverse lists keeps them mirrored. */
  lemma AddDirectedKeepsMirror<E(!new)>(edges: seq<seq<Edge<E>>>, inv: seq<seq<Edge<E>>>, from: nat, to: nat, w: E)
    requires from < |edges| && to < |edges| && Mirrors(edges, inv)
    ensures Mirrors(Appended(edges, from, Edge(to, w)), Appended(inv, to, Edge(from, w)))
  {
    var e1 := Appended(edges, from, Edge(to, w));
    var i1 := Appended(inv, to, Edge(from, w));
    forall u, v, x | 0 <= u < |edges| && 0 <= v < |edges|
      ensures multiset(e1[u])[Edge(v, x)] == multiset(i1[v])[Edge(u, x)]
    {
      AppendedCount(edges, from, Edge(to, w), u, Edge(v, x));
      AppendedCount(inv, to, Edge(from, w), v, Edge(u, x));
    }
  }

  /** Appending an edge to an in-range node keeps every target in range. */
  lemma AppendedInRange<E>(lists: seq<seq<Edge<E>>>, n: nat, i: nat, e: Edge<E>)
    requires i < |lists| && e.to < n && TargetsInRange(lists, n)
    ensures TargetsInRange(Appended(lists, i, e), n)
  {
    var r: seq<seq<Edge<E>>> := Appended(lists, i, e);
    forall u: int, k: int | 0 <= u < |r| && 0 <= k < |r[u]|
      ensures r[u][k].to < n
    {
      if u == i && k == |lists[i]| {
        assert r[u][k] == e;
      } else {
        assert r[u][k] == lists[u][k];
      }
    }
  }

  /** Adding both halves of an undirected edge between nodes of the graph keeps the lists well formed. */
  lemma AddBothKeepsValid<E(!new)>(edges: seq<seq<Edge<E>>>, n: nat, from: nat, to: nat, w: E)
    requires from < n && to < n && |edges| == n && TargetsInRange(edges, n) && Symmetric(edges)
    ensures Symmetric(Appended(Appended(edges, from, Edge(to, w)), to, Edge(from, w)))
    ensures TargetsInRange(Appended(Appended(edges, from, Edge(to, w)), to, Edge(from, w)), n)
  {
    AddBothKeepsSymmetric(edges, from, to, w);
    AppendedInRange(edges, n, from, Edge(to, w));
    AppendedInRange(Appended(edges, from, Edge(to, w)), n, to, Edge(from, w));
  }

  /** `node_weight(i)`: the weight of node `i`, or `None` past the end. */
  function NodeWeightOf<N>(nodes: seq<N>, i: nat): (r: Option<N>)
    ensures r.None? <==> i >= |nodes|
    ensures r.Some? ==> r.value == nodes[i]
  {
    if i < |nodes| then Some(nodes[i]) else None
  }

  /** An undirected graph: node weights and, per node, its incident edges. */
  class UndirectedGraph<N, E(==,!new)> {
    var nodes: seq<N>
    var edges: seq<seq<Edge<E>>>

    ghost predicate Valid()
      reads this
    {
      |edges| == |nodes| && TargetsInRange(edges, |nodes|) && Symmetric(edges)
    }

    /** `UndirectedGraph::new(size)`: `size` nodes of the default weight and no edges. */
    constructor (size: nat, default: N)
      ensures nodes == seq(size, _ => default) && edges == seq(size, _ => [])
      ensures Valid()
    {
      nodes := seq(size, _ => default);
      edges := seq(size, _ => []);
    }

    /** `From<Vec<Node<N>>>`: the given nodes and no edges. */
    constructor FromNodes(ns: seq<N>)
      ensures nodes == ns && edges == seq(|ns|, _ => [])
      ensures Valid()
    {
      nodes := ns;
      edges := seq(|ns|, _ => []);
    }

    /** `add_edge(from, to, w)`: `to` joins `from`'s list, then `from` joins `to`'s list. */
    method AddEdge(from: nat, to: nat, w: E)
      requires Valid() && from < |nodes| && to < |nodes|
      modifies this
      ensures Valid() && nodes == old(nodes)
      ensures edges == Appended(Appended(old(edges), from, Edge(to, w)), to, Edge(from, w))
    {
      var e0 := edges;
      edges := Appended(Appended(edges, from, Edge(to, w)), to, Edge(from, w));
      AddBothKeepsValid(e0, |nodes|, from, to, w);
    }

    function NodeWeight(i: nat): (r: Option<N>)
      reads this
      ensures r.None? <==> i >= |nodes|
      ensures r.Some? ==> r.value == nodes[i]
    {
      NodeWeightOf(nodes, i)
    }

    function Len(): nat
      reads this
    {
      |nodes|
    }

    /** `self[i]`: the edges of node `i`; out of range panics. */
    function Adjacent(i: nat): seq<Edge<E>>
      requires i < |edges|
      reads this
    {
      edges[i]
    }
  }

  /** A directed graph: node weights, forward lists, and inverse lists. */
  class DirectedGraph<N, E(==,!new)> {
    var nodes: seq<N>
    var edges: seq<seq<Edge<E>>>
    var inv: seq<seq<Edge<E>>>

    ghost predicate Valid()
      reads this
    {
      |edges| == |nodes| && TargetsInRange(edges, |nodes|) && TargetsInRange(inv, |nodes|) && Mirrors(edges, inv)
    }

    /** `DirectedGraph::new(size)`: `size` nodes of the default weight and no edges. */
    constructor (size: nat, default: N)
      ensures nodes == seq(size, _ => default) && edges == seq(size, _ => []) && inv == seq(size, _ => [])
      ensures Valid()
    {
      nodes := seq(size, _ => default);
      edges := seq(size, _ => []);
      inv := seq(size, _ => []);
    }

    /** `From<Vec<Node<N>>>`: the given nodes and no edges. */
    constructor FromNodes(ns: seq<N>)
      ensures nodes == ns && edges == seq(|ns|, _ => []) && inv == seq(|ns|, _ => [])
      ensures Valid()
    {
      nodes := ns;
      edges := seq(|ns|, _ => []);
      inv := seq(|ns|, _ => []);
    }

    /** `add_edge(from, to, w)`: `to` joins `edges[from]` and `from` joins `inv[to]`. */
    method AddEdge(from: nat, to: nat, w: E)
      requires Valid() && from < |nodes| && to < |nodes|
      modifies this
      ensures Valid() && nodes == old(nodes)
      ensures edges == Appended(old(edges), from, Edge(to, w))
      ensures inv == Appended(old(inv), to, Edge(from, w))
    {
      AddDirectedKeepsMirror(edges, inv, from, to, w);
      AppendedInRange(edges, |nodes|, from, Edge(to, w));
      AppendedInRange(inv, |nodes|, to, Edge(from, w));
      edges := Appended(edges, from, Edge(to, w));
      inv := Appended(inv, to, Edge(from, w));
    }

    function NodeWeight(i: nat): (r: Option<N>)
      reads this
      ensures r.None? <==> i >= |nodes|
      ensures r.Some? ==> r.value == nodes[i]
    {
      NodeWeightOf(nodes, i)
    }

    function Len(): nat
      reads this
    {
      |nodes|
    }

    /** `self[i]`: the outgoing edges of node `i`; out of range panics. */
    function Adjacent(i: nat): seq<Edge<E>>
      requires i < |edges|
      reads this
    {
      edges[i]
    }
  }

  /** `Graph`: either kind of graph, with every operation dispatched to it. */
  datatype Graph<N, E(==,!new)> = Directed(dg: DirectedGraph<N, E>) | Undirected(ug: UndirectedGraph<N, E>)
  {
    function Obj(): object
    {
      match this
      case Directed(g) => g
      case Undirected(g) => g
    }

    ghost predicate Valid()
      reads Obj()
    {
      match this
      case Directed(g) => g.Valid()
      case Undirected(g) => g.Valid()
    }

    predicate IsDirected()
    {
      Directed?
    }

    predicate IsUndirected()
    {
      Undirected?
    }

    /** The node weights of the wrapped graph. */
    function Nodes(): seq<N>
      reads Obj()
    {
      match this
      case Directed(g) => g.nodes
      case Undirected(g) => g.nodes
    }

    function Len(): (r: nat)
      reads Obj()
      ensures r == |Nodes()|
    {
      match this
      case Directed(g) => g.Len()
      case Undirected(g) => g.Len()
    }

    /** The adjacency lists `self[i]` reads: forward lists of a directed graph, incident lists of an undirected one. */
    function Lists(): seq<seq<Edge<E>>>
      reads Obj()
    {
      match this
      case Directed(g) => g.edges
      case Undirected(g) => g.edges
    }

    function Adjacent(i: nat): (r: seq<Edge<E>>)
      requires i < |Lists()|
      reads Obj()
      ensures r == Lists()[i]
    {
      match this
      case Directed(g) => g.Adjacent(i)
      case Undirected(g) => g.Adjacent(i)
    }

    function NodeWeight(i: nat): (r: Option<N>)
      reads Obj()
      ensures r.None? <==> i >= Len()
      ensures r.Some? ==> r.value == Nodes()[i]
    {
      match this
      case Directed(g) => g.NodeWeight(i)
      case Undirected(g) => g.NodeWeight(i)
    }

    /** `Graph::add_edge`: the wrapped graph's `add_edge`. */
    method AddEdge(from: nat, to: nat, w: E)
      requires Valid() && from < Len() && to < Len()
      modifies Obj()
      ensures Valid() && Nodes() == old(Nodes())
      ensures Directed? ==> Lists() == Appended(old(Lists()), from, Edge(to, w))
      ensures Directed? ==> dg.inv == Appended(old(dg.inv), to, Edge(from, w))
      ensures Undirected? ==> Lists() == Appended(Appended(old(Lists()), from, Edge(to, w)), to, Edge(from, w))
    {
      match this
      case Directed(g) => g.AddEdge(from, to, w);
      case Undirected(g) => g.AddEdge(from, to, w);
    }

    /** `Graph::new_directed(size)`. */
    static method NewDirected(size: nat, default: N) returns (g: Graph<N, E>)
      ensures g.Directed? && fresh(g.Obj()) && g.Valid()
      ensures g.Nodes() == seq(size, _ => default)
      ensures g.Lists() == seq(size, _ => []) && g.dg.inv == seq(size, _ => [])
    {
      var d := new DirectedGraph(size, default);
      g := Directed(d);
    }

    /** `Graph::new_undirected(size)`. */
    static method NewUndirected(size: nat, default: N) returns (g: Graph<N, E>)
      ensures g.Undirected? && fresh(g.Obj()) && g.Valid()
      ensures g.Nodes() == seq(size, _ => default) && g.Lists() == seq(size, _ => [])
    {
      var u := new UndirectedGraph(size, default);
      g := Undirected(u);
    }
  }

  /** A valid graph has one list per node, every edge stays inside the graph, and `node_weight(i)` is `None` exactly past the end. */
  lemma NodeWeightPastEnd<N, E(!new)>(g: Graph<N, E>, i: nat)
    requires g.Valid()
    ensures |g.Lists()| == g.Len() && TargetsInRange(g.Lists(), g.Len())
    ensures g.NodeWeight(i).None? <==> i >= |g.Lists()|
  {
  }
}
