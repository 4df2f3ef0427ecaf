/**
 * Dijkstra's algorithm over a graph's adjacency lists (`Dijkstra<N, E>`),
 * with integer edge weights, `top` standing for `E::max()`, and the binary
 * heap of `(distance, node)` pairs as an abstract minimum-first queue.
 */
module ShortestPath {
  import opened Wrappers
  import opened Graphs

  type Adjacency = seq<seq<Edge<int>>>

  /** Every list belongs to a node and every edge points at one. */
  ghost predicate Shape(adj: Adjacency)
  {
    TargetsInRange(adj, |adj|)
  }

  ghost predicate NonNegative(adj: Adjacency)
  {
    forall u, k :: 0 <= u < |adj| && 0 <= k < |adj[u]| ==> adj[u][k].weight >= 0
  }

  /** No edge out of `v` offers a shorter distance to its target. */
  ghost predicate Relaxed(adj: Adjacency, dists: seq<int>, v: nat)
  {
    v < |adj| &&
    forall k :: 0 <= k < |adj[v]| && adj[v][k].to < |dists| && v < |dists| ==>
      dists[adj[v][k].to] <= dists[v] + adj[v][k].weight
  }

  /**
   * `backs[w] = Some(u)` names edge `via[w]` of `u`, which reaches `w` within
   * `dists[w]`; `w` is reached, and `u` ranks strictly below `w` by distance
   * and then by the ghost time `stamp` at which the distance was last lowered.
   */
  ghost predicate BackEdge(adj: Adjacency, top: int, dists: seq<int>, backs: seq<Option<nat>>, via: seq<nat>, stamp: seq<nat>, w: nat)
    requires |dists| == |backs| == |via| == |stamp| == |adj| && w < |adj| && backs[w].Some?
  {
    var u := backs[w].value;
    u < |adj| && via[w] < |adj[u]| && adj[u][via[w]].to == w &&
    dists[u] + adj[u][via[w]].weight <= dists[w] && dists[w] < top &&
    (dists[u] < dists[w] || (dists[u] == dists[w] && stamp[u] < stamp[w]))
  }

  /** Distances lie in `[0, top]` and every back pointer is a `BackEdge`. */
  ghost predicate Tree(adj: Adjacency, top: int, dists: seq<int>, backs: seq<Option<nat>>, via: seq<nat>, stamp: seq<nat>)
  {
    |dists| == |backs| == |via| == |stamp| == |adj| &&
    (forall v :: 0 <= v < |adj| ==> 0 <= dists[v] <= top) &&
    (forall w :: 0 <= w < |adj| && backs[w].Some? ==> BackEdge(adj, top, dists, backs, via, stamp, w))
  }

  /** `start` is at distance 0 with no back pointer; any other node without one is unreached. */
  ghost predicate Rooted(start: nat, top: int, dists: seq<int>, backs: seq<Option<nat>>)
    requires |dists| == |backs|
  {
    start < |dists| && dists[start] == 0 && backs[start].None? &&
    forall w :: 0 <= w < |dists| && w != start && backs[w].None? ==> dists[w] == top
  }

  /** The state `build(start)` leaves: a rooted tree of back pointers and every reached node relaxed. */
  ghost predicate ShortestTree(adj: Adjacency, start: nat, top: int, dists: seq<int>, backs: seq<Option<nat>>, via: seq<nat>, stamp: seq<nat>)
  {
    Shape(adj) && NonNegative(adj) && Tree(adj, top, dists, backs, via, stamp) && Rooted(start, top, dists, backs) &&
    forall v {:trigger Relaxed(adj, dists, v)} :: 0 <= v < |adj| && dists[v] < top ==> Relaxed(adj, dists, v)
  }

  /** Every reached node other than `except` is relaxed or still waits in the heap at its current distance. */
  ghost predicate Pending(adj: Adjacency, top: int, dists: seq<int>, heap: seq<(int, nat)>, except: int)
  {
    |dists| == |adj| && (forall x :: x in heap ==> x.1 < |adj|) &&
    forall v {:trigger Relaxed(adj, dists, v)} :: 0 <= v < |adj| && v != except && dists[v] < top ==> (dists[v], v) in heap || Relaxed(adj, dists, v)
  }

  /** Lowering the target `w` of edge `k` of `v` to `dists[v] + weight` keeps the back pointers a ranked tree. */
  lemma LowerKeepsTree(adj: Adjacency, top: int, dists: seq<int>, backs: seq<Option<nat>>, via: seq<nat>, stamp: seq<nat>,
                       clock: nat, v: nat, k: nat, dists': seq<int>, backs': seq<Option<nat>>, via': seq<nat>, stamp': seq<nat>)
    requires Shape(adj) && NonNegative(adj) && Tree(adj, top, dists, backs, via, stamp)
    requires Stamped(stamp, clock)
    requires v < |adj| && k < |adj[v]| && dists[adj[v][k].to] > dists[v] + adj[v][k].weight
    requires dists' == dists[adj[v][k].to := dists[v] + adj[v][k].weight] && backs' == backs[adj[v][k].to := Some(v)]
    requires via' == via[adj[v][k].to := k] && stamp' == stamp[adj[v][k].to := clock]
    ensures Tree(adj, top, dists', backs', via', stamp') && Stamped(stamp', clock + 1)
  {
    var w, nd := adj[v][k].to, dists[v] + adj[v][k].weight;
    assert adj[v][k].weight >= 0;
    forall y | 0 <= y < |adj| && backs'[y].Some?
      ensures BackEdge(adj, top, dists', backs', via', stamp', y)
    {
      if y != w {
        assert BackEdge(adj, top, dists, backs, via, stamp, y);
        var u := backs[y].value;
        assert adj[u][via[y]].weight >= 0;
      }
    }
  }

  /** The same lowering keeps `start` the root. */
  lemma LowerKeepsRooted(adj: Adjacency, start: nat, top: int, dists: seq<int>, backs: seq<Option<nat>>, v: nat, k: nat,
                         dists': seq<int>, backs': seq<Option<nat>>)
    requires Shape(adj) && NonNegative(adj) && |dists| == |backs| == |adj| && Rooted(start, top, dists, backs)
    requires forall u :: 0 <= u < |adj| ==> 0 <= dists[u]
    requires v < |adj| && k < |adj[v]| && dists[adj[v][k].to] > dists[v] + adj[v][k].weight
    requires dists' == dists[adj[v][k].to := dists[v] + adj[v][k].weight] && backs' == backs[adj[v][k].to := Some(v)]
    ensures adj[v][k].to != v && adj[v][k].to != start && Rooted(start, top, dists', backs')
  {
    assert adj[v][k].weight >= 0;
  }

  /** The same lowering, with `(nd, w)` pushed, keeps every reached node relaxed or waiting. */
  lemma LowerKeepsPending(adj: Adjacency, top: int, dists: seq<int>, heap: seq<(int, nat)>, except: int, v: nat, k: nat,
                          dists': seq<int>, heap': seq<(int, nat)>)
    requires Shape(adj) && Pending(adj, top, dists, heap, except)
    requires v < |adj| && k < |adj[v]| && dists[adj[v][k].to] > dists[v] + adj[v][k].weight
    requires dists' == dists[adj[v][k].to := dists[v] + adj[v][k].weight]
    requires heap' == heap + [(dists[v] + adj[v][k].weight, adj[v][k].to)]
    ensures Pending(adj, top, dists', heap', except)
  {
    var w, nd := adj[v][k].to, dists[v] + adj[v][k].weight;
    forall u | 0 <= u < |adj| && Relaxed(adj, dists, u) && u != w
      ensures Relaxed(adj, dists', u)
    {
      forall j | 0 <= j < |adj[u]|
        ensures dists'[adj[u][j].to] <= dists'[u] + adj[u][j].weight
      {
        assert adj[u][j].to < |dists|;
      }
    }
    forall u | 0 <= u < |adj| && u != except && dists'[u] < top
      ensures (dists'[u], u) in heap' || Relaxed(adj, dists', u)
    {
      assert u == except || dists[u] >= top || (dists[u], u) in heap || Relaxed(adj, dists, u);
      if u == w {
        assert heap'[|heap|] == (nd, w);
      } else if (dists[u], u) in heap {
        assert (dists'[u], u) in heap';
      }
    }
  }

  /** The first `k` edges out of `v` are relaxed. */
  ghost predicate RelaxedUpTo(adj: Adjacency, dists: seq<int>, v: nat, k: nat)
  {
    v < |adj| && k <= |adj[v]| && |dists| == |adj| && Shape(adj) &&
    forall j :: 0 <= j < k ==> dists[adj[v][j].to] <= dists[v] + adj[v][j].weight
  }

  /** Handling edge `k` of `v` (lowering its target when that is shorter) extends the relaxed prefix by one edge. */
  lemma RelaxedUpToStep(adj: Adjacency, dists: seq<int>, v: nat, k: nat, dists': seq<int>)
    requires RelaxedUpTo(adj, dists, v, k) && k < |adj[v]|
    requires var w, nd := adj[v][k].to, dists[v] + adj[v][k].weight;
      if dists[w] > nd then w != v && dists' == dists[w := nd] else dists' == dists
    ensures RelaxedUpTo(adj, dists', v, k + 1) && dists'[v] == dists[v]
  {
  }

  /** Once all of `v`'s edges are relaxed, `v` need not wait in the heap. */
  lemma PendingSettled(adj: Adjacency, top: int, dists: seq<int>, heap: seq<(int, nat)>, v: nat)
    requires v < |adj| && Pending(adj, top, dists, heap, v) && RelaxedUpTo(adj, dists, v, |adj[v]|)
    ensures Pending(adj, top, dists, heap, -1)
  {
    assert Relaxed(adj, dists, v);
  }

  /** The sum of the distances, which every relaxation lowers. */
  function Total(s: seq<int>): int
  {
    if s == [] then 0 else Total(s[..|s| - 1]) + s[|s| - 1]
  }

  lemma {:induction false} TotalUpdate(s: seq<int>, i: nat, x: int)
    requires i < |s|
    ensures Total(s[i := x]) == Total(s) - s[i] + x
    decreases |s|
  {
    var t := s[i := x];
    if i < |s| - 1 {
      assert t[..|t| - 1] == s[..|s| - 1][i := x];
      TotalUpdate(s[..|s| - 1], i, x);
    } else {
      assert t[..|t| - 1] == s[..|s| - 1];
    }
  }

  lemma {:induction false} TotalNonNegative(s: seq<int>)
    requires forall i :: 0 <= i < |s| ==> s[i] >= 0
    ensures Total(s) >= 0
    decreases |s|
  {
    if s != [] {
      TotalNonNegative(s[..|s| - 1]);
    }
  }

  /** `(d, v)` comes no later than `(e, w)` in the heap's order of `Reverse((distance, node))`. */
  predicate NoLater(x: (int, nat), y: (int, nat))
  {
    x.0 < y.0 || (x.0 == y.0 && x.1 <= y.1)
  }

  /** `heap.pop()` on a non-empty heap: its least pair, and the remaining pairs. */
  method PopMin(heap: seq<(int, nat)>) returns (x: (int, nat), rest: seq<(int, nat)>)
    requires heap != []
    ensures x in heap && multiset(heap) == multiset(rest) + multiset{x} && |rest| == |heap| - 1
    ensures forall y :: y in heap ==> NoLater(x, y)
    ensures forall y :: y in heap ==> y == x || y in rest
    ensures forall y :: y in rest ==> y in heap
  {
    var m := 0;
    for i := 1 to |heap|
      invariant m < |heap|
      invariant forall j :: 0 <= j < i ==> NoLater(heap[m], heap[j])
    {
      if !NoLater(heap[m], heap[i]) {
        m := i;
      }
    }
    x := heap[m];
    rest := heap[..m] + heap[m + 1..];
    assert heap == heap[..m] + [x] + heap[m + 1..];
    forall y | y in heap
      ensures y == x || y in rest
    {
      var j :| 0 <= j < |heap| && heap[j] == y;
      if j < m {
        assert rest[j] == y;
      } else if j > m {
        assert rest[j - 1] == y;
      }
    }
  }

  /** A step of a walk: a node and the index of one of its edges. */
  type Step = (nat, nat)

  /** The steps form a walk from `start`: each names an existing edge, and each leaves where the previous one arrived. */
  ghost predicate IsWalk(adj: Adjacency, start: nat, steps: seq<Step>)
  {
    (forall i :: 0 <= i < |steps| ==> steps[i].0 < |adj| && steps[i].1 < |adj[steps[i].0]|) &&
    (steps != [] ==> steps[0].0 == start) &&
    forall i :: 0 < i < |steps| ==> steps[i].0 == adj[steps[i - 1].0][steps[i - 1].1].to
  }

  /** Where a walk from `start` arrives. */
  ghost function WalkEnd(adj: Adjacency, start: nat, steps: seq<Step>): nat
    requires IsWalk(adj, start, steps)
  {
    if steps == [] then start else adj[steps[|steps| - 1].0][steps[|steps| - 1].1].to
  }

  /** The weight of the edge a step names (0 for a step that names none). */
  ghost function StepWeight(adj: Adjacency, s: Step): int
  {
    if s.0 < |adj| && s.1 < |adj[s.0]| then adj[s.0][s.1].weight else 0
  }

  /** The summed weight of a walk. */
  ghost function WalkLength(adj: Adjacency, steps: seq<Step>): int
  {
    if steps == [] then 0 else WalkLength(adj, steps[..|steps| - 1]) + StepWeight(adj, steps[|steps| - 1])
  }

  /** Extending a walk by one edge out of its end adds that edge's weight to its length. */
  lemma WalkExtend(adj: Adjacency, start: nat, steps: seq<Step>, k: nat)
    requires IsWalk(adj, start, steps) && WalkEnd(adj, start, steps) < |adj| && k < |adj[WalkEnd(adj, start, steps)]|
    ensures var e := adj[WalkEnd(adj, start, steps)][k];
      IsWalk(adj, start, steps + [(WalkEnd(adj, start, steps), k)]) &&
      WalkEnd(adj, start, steps + [(WalkEnd(adj, start, steps), k)]) == e.to &&
      WalkLength(adj, steps + [(WalkEnd(adj, start, steps), k)]) == WalkLength(adj, steps) + e.weight
  {
    var steps' := steps + [(WalkEnd(adj, start, steps), k)];
    assert steps'[..|steps|] == steps;
  }

  /** After `build(start)`, no walk from `start` is shorter than the distance recorded for its end. */
  lemma {:induction false} WalkLowerBound(adj: Adjacency, start: nat, top: int, dists: seq<int>, backs: seq<Option<nat>>,
                                          via: seq<nat>, stamp: seq<nat>, steps: seq<Step>)
    requires ShortestTree(adj, start, top, dists, backs, via, stamp) && IsWalk(adj, start, steps)
    ensures WalkEnd(adj, start, steps) < |adj| && dists[WalkEnd(adj, start, steps)] <= WalkLength(adj, steps)
    decreases |steps|
  {
    if steps != [] {
      var m := |steps| - 1;
      var prefix := steps[..m];
      assert IsWalk(adj, start, prefix);
      WalkLowerBound(adj, start, top, dists, backs, via, stamp, prefix);
      var (u, k) := steps[m];
      assert WalkEnd(adj, start, prefix) == u;
      assert adj[u][k].weight >= 0;
      if dists[u] < top {
        assert Relaxed(adj, dists, u);
      }
    }
  }

  /** The back pointers from a node to the root, read as a walk. */
  ghost predicate BackChain(backs: seq<Option<nat>>, r: seq<nat>)
  {
    r != [] && (forall k :: 0 <= k < |r| ==> r[k] < |backs|) && backs[r[0]].None? &&
    forall k :: 0 < k < |r| ==> backs[r[k]] == Some(r[k - 1])
  }

  /** The steps a back chain takes: from each node, the edge its successor's back pointer names. */
  ghost function ChainSteps(via: seq<nat>, r: seq<nat>): seq<Step>
    requires r != [] && forall k :: 0 <= k < |r| ==> r[k] < |via|
  {
    seq(|r| - 1, k requires 0 <= k < |r| - 1 => (r[k], via[r[k + 1]]))
  }

  /** Following back pointers walks along graph edges from the chain's first node to its last. */
  lemma ChainIsWalk(adj: Adjacency, top: int, dists: seq<int>, backs: seq<Option<nat>>, via: seq<nat>, stamp: seq<nat>,
                    r: seq<nat>)
    requires Tree(adj, top, dists, backs, via, stamp) && BackChain(backs, r)
    ensures IsWalk(adj, r[0], ChainSteps(via, r)) && WalkEnd(adj, r[0], ChainSteps(via, r)) == r[|r| - 1]
  {
    var steps := ChainSteps(via, r);
    forall i | 0 <= i < |steps|
      ensures steps[i].0 < |adj| && steps[i].1 < |adj[steps[i].0]| && adj[steps[i].0][steps[i].1].to == r[i + 1]
    {
      assert steps[i] == (r[i], via[r[i + 1]]) && backs[r[i + 1]] == Some(r[i]);
      assert BackEdge(adj, top, dists, backs, via, stamp, r[i + 1]);
    }
  }

  /** The walk along back pointers never costs more than the rise in recorded distance. */
  lemma {:induction false} ChainWithinDistance(adj: Adjacency, top: int, dists: seq<int>, backs: seq<Option<nat>>,
                                               via: seq<nat>, stamp: seq<nat>, r: seq<nat>)
    requires Tree(adj, top, dists, backs, via, stamp) && BackChain(backs, r)
    ensures WalkLength(adj, ChainSteps(via, r)) <= dists[r[|r| - 1]] - dists[r[0]]
    decreases |r|
  {
    if |r| > 1 {
      var m := |r| - 2;
      var r' := r[..m + 1];
      var steps := ChainSteps(via, r);
      assert ChainSteps(via, r') == steps[..m];
      ChainWithinDistance(adj, top, dists, backs, via, stamp, r');
      assert steps[m] == (r[m], via[r[m + 1]]) && backs[r[m + 1]] == Some(r[m]);
      assert BackEdge(adj, top, dists, backs, via, stamp, r[m + 1]);
    }
  }

  /** After `build(start)`, the back chain to any node ends at `start` and is a shortest walk to it. */
  lemma ChainIsShortest(adj: Adjacency, start: nat, top: int, dists: seq<int>, backs: seq<Option<nat>>,
                        via: seq<nat>, stamp: seq<nat>, r: seq<nat>)
    requires ShortestTree(adj, start, top, dists, backs, via, stamp) && BackChain(backs, r) && |r| > 1
    ensures r[0] == start && IsWalk(adj, start, ChainSteps(via, r)) && WalkEnd(adj, start, ChainSteps(via, r)) == r[|r| - 1]
    ensures WalkLength(adj, ChainSteps(via, r)) == dists[r[|r| - 1]]
    ensures forall steps :: IsWalk(adj, start, steps) && WalkEnd(adj, start, steps) == r[|r| - 1] ==> dists[r[|r| - 1]] <= WalkLength(adj, steps)
  {
    ChainIsWalk(adj, top, dists, backs, via, stamp, r);
    ChainWithinDistance(adj, top, dists, backs, via, stamp, r);
    var g := r[|r| - 1];
    assert BackEdge(adj, top, dists, backs, via, stamp, g);
    ChainNoHigher(adj, top, dists, backs, via, stamp, r);
    assert r[0] == start;
    WalkLowerBound(adj, start, top, dists, backs, via, stamp, ChainSteps(via, r));
    forall steps | IsWalk(adj, start, steps) && WalkEnd(adj, start, steps) == g
      ensures dists[g] <= WalkLength(adj, steps)
    {
      WalkLowerBound(adj, start, top, dists, backs, via, stamp, steps);
    }
  }

  /** Distances never rise along a back chain. */
  lemma {:induction false} ChainNoHigher(adj: Adjacency, top: int, dists: seq<int>, backs: seq<Option<nat>>,
                                         via: seq<nat>, stamp: seq<nat>, r: seq<nat>)
    requires Tree(adj, top, dists, backs, via, stamp) && BackChain(backs, r)
    ensures dists[r[0]] <= dists[r[|r| - 1]]
    decreases |r|
  {
    if |r| > 1 {
      ChainNoHigher(adj, top, dists, backs, via, stamp, r[..|r| - 1]);
      assert BackEdge(adj, top, dists, backs, via, stamp, r[|r| - 1]);
    }
  }

  /** After `build(start)`, every reached node has a back chain, so a walk from `start` of exactly its distance. */
  lemma {:induction false} ReachedHasChain(adj: Adjacency, start: nat, top: int, dists: seq<int>, backs: seq<Option<nat>>,
                                           via: seq<nat>, stamp: seq<nat>, v: nat) returns (r: seq<nat>)
    requires ShortestTree(adj, start, top, dists, backs, via, stamp) && v < |adj| && dists[v] < top
    ensures BackChain(backs, r) && r[|r| - 1] == v && r[0] == start
    decreases dists[v], stamp[v]
  {
    if backs[v].None? {
      r := [v];
    } else {
      var u := backs[v].value;
      assert BackEdge(adj, top, dists, backs, via, stamp, v);
      var r' := ReachedHasChain(adj, start, top, dists, backs, via, stamp, u);
      r := r' + [v];
    }
  }

  /** Every stamp is older than `clock`. */
  ghost predicate Stamped(stamp: seq<nat>, clock: nat)
  {
    forall v :: 0 <= v < |stamp| ==> stamp[v] < clock
  }

  /** Lowering the target of edge `k` of `v` keeps every invariant of `build`'s inner loop, one edge further on. */
  lemma LowerStep(adj: Adjacency, top: int, start: nat, v: nat, k: nat, heap: seq<(int, nat)>, pushed: seq<(int, nat)>,
                  dists: seq<int>, backs: seq<Option<nat>>, via: seq<nat>, stamp: seq<nat>, clock: nat,
                  dists': seq<int>, backs': seq<Option<nat>>, via': seq<nat>, stamp': seq<nat>)
    requires Shape(adj) && NonNegative(adj) && Tree(adj, top, dists, backs, via, stamp) && Stamped(stamp, clock)
    requires Rooted(start, top, dists, backs) && Pending(adj, top, dists, heap + pushed, v) && RelaxedUpTo(adj, dists, v, k)
    requires k < |adj[v]| && dists[adj[v][k].to] > dists[v] + adj[v][k].weight
    requires dists' == dists[adj[v][k].to := dists[v] + adj[v][k].weight] && backs' == backs[adj[v][k].to := Some(v)]
    requires via' == via[adj[v][k].to := k] && stamp' == stamp[adj[v][k].to := clock]
    ensures Tree(adj, top, dists', backs', via', stamp') && Stamped(stamp', clock + 1) && Rooted(start, top, dists', backs')
    ensures Pending(adj, top, dists', heap + (pushed + [(dists[v] + adj[v][k].weight, adj[v][k].to)]), v)
    ensures RelaxedUpTo(adj, dists', v, k + 1) && Total(dists') < Total(dists)
  {
    var w, nd := adj[v][k].to, dists[v] + adj[v][k].weight;
    LowerKeepsTree(adj, top, dists, backs, via, stamp, clock, v, k, dists', backs', via', stamp');
    LowerKeepsRooted(adj, start, top, dists, backs, v, k, dists', backs');
    LowerKeepsPending(adj, top, dists, heap + pushed, v, v, k, dists', heap + pushed + [(nd, w)]);
    RelaxedUpToStep(adj, dists, v, k, dists');
    TotalUpdate(dists, w, nd);
    assert heap + pushed + [(nd, w)] == heap + (pushed + [(nd, w)]);
  }

  /**
   * The inner loop of `build`: relax every edge out of `v`; an edge to `w`
   * that offers a shorter distance sets `dists[w]` and `backs[w] = Some(v)`
   * and pushes `(dists[w], w)`.
   */
  method RelaxFrom(adj: Adjacency, top: int, ghost start: nat, v: nat, heap: seq<(int, nat)>,
                   dists: seq<int>, backs: seq<Option<nat>>, ghost via: seq<nat>, ghost stamp: seq<nat>, ghost clock: nat)
    returns (dists': seq<int>, backs': seq<Option<nat>>, ghost via': seq<nat>, ghost stamp': seq<nat>, ghost clock': nat,
             pushed: seq<(int, nat)>)
    requires Shape(adj) && NonNegative(adj) && Tree(adj, top, dists, backs, via, stamp) && Stamped(stamp, clock)
    requires v < |adj| && Rooted(start, top, dists, backs) && Pending(adj, top, dists, heap, v)
    ensures Tree(adj, top, dists', backs', via', stamp') && Stamped(stamp', clock') && Rooted(start, top, dists', backs')
    ensures Pending(adj, top, dists', heap + pushed, -1) && Relaxed(adj, dists', v)
    ensures Total(dists') <= Total(dists) && (pushed != [] ==> Total(dists') < Total(dists))
  {
    dists', backs', via', stamp', clock', pushed := dists, backs, via, stamp, clock, [];
    for k := 0 to |adj[v]|
      invariant Tree(adj, top, dists', backs', via', stamp') && Stamped(stamp', clock') && Rooted(start, top, dists', backs')
      invariant Pending(adj, top, dists', heap + pushed, v) && RelaxedUpTo(adj, dists', v, k)
      invariant Total(dists') <= Total(dists) && (pushed != [] ==> Total(dists') < Total(dists))
    {
      var e := adj[v][k];
      var nd := dists'[v] + e.weight;
      if dists'[e.to] > nd {
        var d1, b1 := dists'[e.to := nd], backs'[e.to := Some(v)];
        ghost var v1, s1 := via'[e.to := k], stamp'[e.to := clock'];
        LowerStep(adj, top, start, v, k, heap, pushed, dists', backs', via', stamp', clock', d1, b1, v1, s1);
        dists', backs', via', stamp', clock', pushed := d1, b1, v1, s1, clock' + 1, pushed + [(nd, e.to)];
      } else {
        RelaxedUpToStep(adj, dists', v, k, dists');
      }
    }
    PendingSettled(adj, top, dists', heap + pushed, v);
  }

  /** Popping `x` off the heap keeps every other reached node waiting or relaxed, and `x`'s node too unless `x` is its current entry. */
  lemma PopKeepsPending(adj: Adjacency, top: int, dists: seq<int>, heap: seq<(int, nat)>, x: (int, nat), rest: seq<(int, nat)>)
    requires Pending(adj, top, dists, heap, -1) && x in heap && x.1 < |adj|
    requires (forall y :: y in heap ==> y == x || y in rest) && (forall y :: y in rest ==> y in heap)
    ensures Pending(adj, top, dists, rest, x.1)
    ensures dists[x.1] < x.0 ==> Pending(adj, top, dists, rest, -1)
  {
  }

  /** The loop of `build(start)` on the distances and back pointers, from the state `from` leaves. */
  method Settle(adj: Adjacency, top: int, start: nat, dists: seq<int>, backs: seq<Option<nat>>,
                ghost via: seq<nat>, ghost stamp: seq<nat>, ghost clock: nat)
    returns (dists': seq<int>, backs': seq<Option<nat>>, ghost via': seq<nat>, ghost stamp': seq<nat>, ghost clock': nat)
    requires Shape(adj) && NonNegative(adj) && top >= 0 && Tree(adj, top, dists, backs, via, stamp) && Stamped(stamp, clock)
    requires start < |adj| && forall v :: 0 <= v < |adj| ==> dists[v] == top && backs[v].None?
    ensures ShortestTree(adj, start, top, dists', backs', via', stamp') && Stamped(stamp', clock')
  {
    dists', backs', via', stamp', clock' := dists[start := 0], backs, via, stamp, clock;
    var heap := [(dists'[start], start)];
    assert Tree(adj, top, dists', backs', via', stamp');
    assert Pending(adj, top, dists', heap, -1) by {
      assert heap[0] == (dists'[start], start);
    }
    TotalNonNegative(dists');
    while heap != []
      invariant Tree(adj, top, dists', backs', via', stamp') && Stamped(stamp', clock')
      invariant Rooted(start, top, dists', backs') && Pending(adj, top, dists', heap, -1) && Total(dists') >= 0
      decreases Total(dists'), |heap|
    {
      var x, rest := PopMin(heap);
      var (d, v) := x;
      PopKeepsPending(adj, top, dists', heap, x, rest);
      if dists'[v] < d {
        heap := rest;
        continue;
      }
      var pushed;
      dists', backs', via', stamp', clock', pushed := RelaxFrom(adj, top, start, v, rest, dists', backs', via', stamp', clock');
      TotalNonNegative(dists');
      heap := rest + pushed;
    }
    forall u | 0 <= u < |adj| && dists'[u] < top
      ensures Relaxed(adj, dists', u)
    {
      assert (dists'[u], u) !in heap;
    }
  }

  /**
   * `Dijkstra<N, E>`: the graph's adjacency lists, `dists`, and `backs`; the
   * ghost fields record, for each back pointer, which edge it stands for and
   * when the distance was last lowered.
   */
  class Dijkstra {
    var adj: Adjacency
    var top: int
    var dists: seq<int>
    var backs: seq<Option<nat>>
    ghost var via: seq<nat>
    ghost var stamp: seq<nat>
    ghost var clock: nat

    ghost predicate Valid()
      reads this
    {
      Shape(adj) && top >= 0 && Tree(adj, top, dists, backs, via, stamp) && Stamped(stamp, clock)
    }

    /** The state `from` leaves: every distance `top` and no back pointer. */
    ghost predicate Fresh()
      reads this
    {
      |dists| == |backs| == |adj| && forall v :: 0 <= v < |adj| ==> dists[v] == top && backs[v].None?
    }

    /** `Dijkstra::from(graph)`, with `top` as `E::max()`. */
    constructor From<N>(graph: Graph<N, int>, top: int)
      requires graph.Valid() && top >= 0
      ensures adj == graph.Lists() && |adj| == graph.Len() && this.top == top
      ensures Fresh() && Valid()
    {
      NodeWeightPastEnd(graph, 0);
      var n := graph.Len();
      adj := graph.Lists();
      this.top := top;
      dists := seq(n, _ => top);
      backs := seq(n, _ => None);
      via := seq(n, _ => 0);
      stamp := seq(n, _ => 0);
      clock := 1;
    }

    /** `build(start)`: settle nodes in heap order, relaxing the edges of each. */
    method Build(start: nat)
      requires Valid() && Fresh() && start < |adj| && NonNegative(adj)
      modifies this
      ensures adj == old(adj) && top == old(top) && Valid()
      ensures ShortestTree(adj, start, top, dists, backs, via, stamp)
    {
      var ds, bs;
      ghost var vs, ss, c;
      ds, bs, vs, ss, c := Settle(adj, top, start, dists, backs, via, stamp, clock);
      dists, backs, via, stamp, clock := ds, bs, vs, ss, c;
    }

    /** `restore(goal)`: `[]` without a back pointer, otherwise the back chain from the root to `goal`. */
    method Restore(goal: nat) returns (path: seq<nat>)
      requires Valid() && goal < |adj|
      ensures backs[goal].None? ==> path == []
      ensures backs[goal].Some? ==> |path| > 1 && path[|path| - 1] == goal && BackChain(backs, path)
    {
      var trail: seq<nat> := [goal];
      var cur := backs[goal];
      if cur.None? {
        return [];
      }
      while cur.Some?
        invariant |backs| == |adj| == |dists| == |stamp| == |via|
        invariant forall k :: 0 <= k < |trail| ==> trail[k] < |adj|
        invariant trail != [] && trail[0] == goal && cur == backs[trail[|trail| - 1]]
        invariant forall k :: 0 < k < |trail| ==> backs[trail[k - 1]] == Some(trail[k])
        decreases if cur.Some? then dists[cur.value] + 1 else 0, if cur.Some? then stamp[cur.value] else 0
      {
        var v := cur.value;
        assert BackEdge(adj, top, dists, backs, via, stamp, trail[|trail| - 1]);
        if backs[v].Some? {
          assert BackEdge(adj, top, dists, backs, via, stamp, v);
        }
        trail := trail + [v];
        cur := backs[v];
      }
      path := Reversed(trail);
    }
  }

  function Reversed(s: seq<nat>): (r: seq<nat>)
    ensures |r| == |s| && forall k :: 0 <= k < |s| ==> r[k] == s[|s| - 1 - k]
  {
    seq(|s|, k requires 0 <= k < |s| => s[|s| - 1 - k])
  }

  /** The directed graph of the first test: `0 → 1` (1), `0 → 2` (4), `1 → 2` (2), `2 → 3` (1), `1 → 3` (5). */
  function FirstGraph(): Adjacency
  {
    [[Edge(1, 1), Edge(2, 4)], [Edge(2, 2), Edge(3, 5)], [Edge(3, 1)], []]
  }

  /** The directed graph of the second test: `0 → 1` (1), `0 → 2` (4), `2 → 0` (1), `1 → 2` (2), `3 → 1` (1), `3 → 2` (5). */
  function SecondGraph(): Adjacency
  {
    [[Edge(1, 1), Edge(2, 4)], [Edge(2, 2)], [Edge(0, 1)], [Edge(1, 1), Edge(2, 5)]]
  }

  /** A reached node other than the root has a back pointer along an edge no longer than its distance. */
  lemma Predecessor(adj: Adjacency, start: nat, top: int, dists: seq<int>, backs: seq<Option<nat>>, via: seq<nat>, stamp: seq<nat>,
                    w: nat) returns (u: nat, k: nat)
    requires Tree(adj, top, dists, backs, via, stamp) && Rooted(start, top, dists, backs)
    requires w < |adj| && w != start && dists[w] < top
    ensures backs[w] == Some(u) && u < |adj| && k < |adj[u]| && adj[u][k].to == w && dists[u] + adj[u][k].weight <= dists[w]
  {
    assert BackEdge(adj, top, dists, backs, via, stamp, w);
    u, k := backs[w].value, via[w];
  }

  /** A node that no edge enters has no back pointer. */
  lemma NoEdgeIn(adj: Adjacency, top: int, dists: seq<int>, backs: seq<Option<nat>>, via: seq<nat>, stamp: seq<nat>, w: nat)
    requires Tree(adj, top, dists, backs, via, stamp) && w < |adj|
    requires forall u, k :: 0 <= u < |adj| && 0 <= k < |adj[u]| ==> adj[u][k].to != w
    ensures backs[w].None?
  {
    assert backs[w].Some? ==> BackEdge(adj, top, dists, backs, via, stamp, w);
  }

  lemma FourElements<T>(s: seq<T>)
    requires |s| == 4
    ensures s == [s[0], s[1], s[2], s[3]]
  {
  }

  /** The edges of the first graph, listed. */
  lemma FirstEdges(u: nat, k: nat)
    requires u < |FirstGraph()| && k < |FirstGraph()[u]|
    ensures var e := FirstGraph()[u][k];
      (u == 0 && e == Edge(1, 1)) || (u == 0 && e == Edge(2, 4)) || (u == 1 && e == Edge(2, 2)) ||
      (u == 1 && e == Edge(3, 5)) || (u == 2 && e == Edge(3, 1))
  {
  }

  /** In the first graph, the walks `0 → 1`, `0 → 1 → 2` and `0 → 1 → 2 → 3` of lengths 1, 3 and 4 bound the distances from above. */
  lemma FirstUpperBounds(top: int, dists: seq<int>, backs: seq<Option<nat>>, via: seq<nat>, stamp: seq<nat>)
    requires ShortestTree(FirstGraph(), 0, top, dists, backs, via, stamp)
    ensures dists[1] <= 1 && dists[2] <= 3 && dists[3] <= 4
  {
    var adj: Adjacency := FirstGraph();
    var w0: seq<Step> := [];
    WalkExtend(adj, 0, w0, 0);
    var w1 := w0 + [(0, 0)];
    WalkExtend(adj, 0, w1, 0);
    var w2 := w1 + [(1, 0)];
    WalkExtend(adj, 0, w2, 0);
    var w3 := w2 + [(2, 0)];
    WalkLowerBound(adj, 0, top, dists, backs, via, stamp, w1);
    WalkLowerBound(adj, 0, top, dists, backs, via, stamp, w2);
    WalkLowerBound(adj, 0, top, dists, backs, via, stamp, w3);
  }

  /** Within those bounds, the back pointers of the first graph can only be the edges `0 → 1`, `1 → 2` and `2 → 3`. */
  lemma FirstBackPointers(top: int, dists: seq<int>, backs: seq<Option<nat>>, via: seq<nat>, stamp: seq<nat>)
    requires top > 4 && Tree(FirstGraph(), top, dists, backs, via, stamp) && Rooted(0, top, dists, backs)
    requires dists[1] <= 1 && dists[2] <= 3 && dists[3] <= 4
    ensures dists == [0, 1, 3, 4] && backs == [None, Some(0), Some(1), Some(2)]
  {
    var adj: Adjacency := FirstGraph();
    var u1, k1 := Predecessor(adj, 0, top, dists, backs, via, stamp, 1);
    FirstEdges(u1, k1);
    assert u1 == 0 && dists[1] == 1;
    var u2, k2 := Predecessor(adj, 0, top, dists, backs, via, stamp, 2);
    FirstEdges(u2, k2);
    assert u2 == 1 && dists[2] == 3;
    var u3, k3 := Predecessor(adj, 0, top, dists, backs, via, stamp, 3);
    FirstEdges(u3, k3);
    assert u3 == 2 && dists[3] == 4;
    FourElements(dists);
    FourElements(backs);
  }

  /** After `build(0)` on the first graph the distances are `[0, 1, 3, 4]` and the back pointers spell the path `0, 1, 2, 3`. */
  lemma FirstExample(top: int, dists: seq<int>, backs: seq<Option<nat>>, via: seq<nat>, stamp: seq<nat>)
    requires top > 4 && ShortestTree(FirstGraph(), 0, top, dists, backs, via, stamp)
    ensures dists == [0, 1, 3, 4] && backs == [None, Some(0), Some(1), Some(2)]
  {
    FirstUpperBounds(top, dists, backs, via, stamp);
    FirstBackPointers(top, dists, backs, via, stamp);
  }

  lemma ChainLink(backs: seq<Option<nat>>, r: seq<nat>, k: nat)
    requires BackChain(backs, r) && 0 < k < |r|
    ensures backs[r[k]] == Some(r[k - 1])
  {
  }

  /** With those back pointers, the only back chain to `3` is `[0, 1, 2, 3]`, so `restore(3)` returns it. */
  lemma FirstExampleRestore(r: seq<nat>)
    requires BackChain([None, Some(0), Some(1), Some(2)], r) && r[|r| - 1] == 3
    ensures r == [0, 1, 2, 3]
  {
    var n := |r|;
    assert n > 1;
    assert r[n - 2] == 2;
    assert n > 2;
    assert r[n - 3] == 1;
    assert n > 3;
    assert r[n - 4] == 0;
    if n > 4 {
      ChainLink([None, Some(0), Some(1), Some(2)], r, n - 4);
    }
  }

  /** With the same back pointers, the only back chain to `2` is `[0, 1, 2]`, so `restore(2)` returns it. */
  lemma FirstExampleRestoreTwo(r: seq<nat>)
    requires BackChain([None, Some(0), Some(1), Some(2)], r) && r[|r| - 1] == 2
    ensures r == [0, 1, 2]
  {
    var n := |r|;
    assert n > 1;
    assert r[n - 2] == 1;
    assert n > 2;
    assert r[n - 3] == 0;
    if n > 3 {
      ChainLink([None, Some(0), Some(1), Some(2)], r, n - 3);
    }
  }

  /** The edges of the second graph, listed. */
  lemma SecondEdges(u: nat, k: nat)
    requires u < |SecondGraph()| && k < |SecondGraph()[u]|
    ensures var e := SecondGraph()[u][k];
      (u == 0 && e == Edge(1, 1)) || (u == 0 && e == Edge(2, 4)) || (u == 1 && e == Edge(2, 2)) ||
      (u == 2 && e == Edge(0, 1)) || (u == 3 && e == Edge(1, 1)) || (u == 3 && e == Edge(2, 5))
  {
  }

  /** In the second graph, the walks `1 → 2` and `1 → 2 → 0` of lengths 2 and 3 bound the distances from above. */
  lemma SecondUpperBounds(top: int, dists: seq<int>, backs: seq<Option<nat>>, via: seq<nat>, stamp: seq<nat>)
    requires ShortestTree(SecondGraph(), 1, top, dists, backs, via, stamp)
    ensures dists[2] <= 2 && dists[0] <= 3
  {
    var adj: Adjacency := SecondGraph();
    var w0: seq<Step> := [];
    WalkExtend(adj, 1, w0, 0);
    var w1 := w0 + [(1, 0)];
    WalkExtend(adj, 1, w1, 0);
    var w2 := w1 + [(2, 0)];
    WalkLowerBound(adj, 1, top, dists, backs, via, stamp, w1);
    WalkLowerBound(adj, 1, top, dists, backs, via, stamp, w2);
  }

  /** Within those bounds, node 3 of the second graph, which no edge enters, stays unreached, and nodes 2 and 0 are reached by `1 → 2` and `2 → 0`. */
  lemma SecondBackPointers(top: int, dists: seq<int>, backs: seq<Option<nat>>, via: seq<nat>, stamp: seq<nat>)
    requires top > 3 && Tree(SecondGraph(), top, dists, backs, via, stamp) && Rooted(1, top, dists, backs)
    requires dists[2] <= 2 && dists[0] <= 3
    ensures dists == [3, 0, 2, top] && backs[3].None?
  {
    var adj: Adjacency := SecondGraph();
    forall u: nat, k: nat | u < |adj| && k < |adj[u]|
      ensures adj[u][k].to != 3
    {
      SecondEdges(u, k);
    }
    NoEdgeIn(adj, top, dists, backs, via, stamp, 3);
    var u2, k2 := Predecessor(adj, 1, top, dists, backs, via, stamp, 2);
    SecondEdges(u2, k2);
    assert u2 == 1 && dists[2] == 2;
    var u0, k0 := Predecessor(adj, 1, top, dists, backs, via, stamp, 0);
    SecondEdges(u0, k0);
    assert u0 == 2 && dists[0] == 3;
    FourElements(dists);
  }

  /** After `build(1)` on the second graph the distances are `[3, 0, 2, top]` and node 3 has no back pointer, so `restore(3)` is empty. */
  lemma SecondExample(top: int, dists: seq<int>, backs: seq<Option<nat>>, via: seq<nat>, stamp: seq<nat>)
    requires top > 3 && ShortestTree(SecondGraph(), 1, top, dists, backs, via, stamp)
    ensures dists == [3, 0, 2, top] && backs[3].None?
  {
    SecondUpperBounds(top, dists, backs, via, stamp);
    SecondBackPointers(top, dists, backs, via, stamp);
  }
}
