// Disjoint-set forest with path compression. `parent` links every element
// towards the root of its class; `sizes` holds the class size at each root
// and 0 elsewhere; `size` counts the classes. A ghost `rank` strictly
// decreases along parent links, which is what makes following them
// terminate.

module UnionFind {

  /** Parent links stay inside the forest and strictly lower the rank, except at roots. */
  ghost predicate Ranked(parent: seq<nat>, rank: seq<nat>)
  {
    && |rank| == |parent|
    && forall x :: 0 <= x < |parent| ==> parent[x] < |parent| && (parent[x] != x ==> rank[parent[x]] < rank[x])
  }

  /** The root reached from `x` by following parent links. */
  ghost function Find(parent: seq<nat>, rank: seq<nat>, x: nat): (r: nat)
    requires Ranked(parent, rank) && x < |parent|
    ensures r < |parent| && parent[r] == r && rank[r] <= rank[x]
    decreases rank[x]
  {
    if parent[x] == x then x else Find(parent, rank, parent[x])
  }

  /** The elements whose root is `r`. */
  ghost function Class(parent: seq<nat>, rank: seq<nat>, r: nat): set<nat>
    requires Ranked(parent, rank)
  {
    set y: nat | y < |parent| && Find(parent, rank, y) == r
  }

  /** The roots, one per class. */
  ghost function Roots(parent: seq<nat>): set<nat>
  {
    set r: nat | r < |parent| && parent[r] == r
  }

  /** The forest `new(n)` builds: every element its own parent. */
  function Singletons(n: nat): seq<nat>
  {
    seq(n, i requires 0 <= i => i)
  }

  lemma {:induction false} SingletonRoots(n: nat)
    ensures |Roots(Singletons(n))| == n
  {
    if n > 0 {
      SingletonRoots(n - 1);
      assert Roots(Singletons(n)) == Roots(Singletons(n - 1)) + {n - 1};
    }
  }

  /** The state invariant of the structure, on plain values. */
  ghost predicate Inv(parent: seq<nat>, rank: seq<nat>, sizes: seq<nat>, size: nat)
  {
    && Ranked(parent, rank)
    && |sizes| == |parent|
    && (forall r {:trigger sizes[r]} :: 0 <= r < |parent| ==> sizes[r] == if parent[r] == r then |Class(parent, rank, r)| else 0)
    && size == |Roots(parent)|
  }

  /** Re-linking a non-root `x` straight to its root keeps the forest ranked. */
  lemma CompressRanked(parent: seq<nat>, rank: seq<nat>, x: nat)
    requires Ranked(parent, rank) && x < |parent| && parent[x] != x
    ensures Ranked(parent[x := Find(parent, rank, x)], rank)
  {
    assert Find(parent, rank, x) == Find(parent, rank, parent[x]);
  }

  /** Path compression at `x` leaves the root of every element unchanged. */
  lemma {:induction false} CompressFind(parent: seq<nat>, rank: seq<nat>, x: nat, z: nat)
    requires Ranked(parent, rank) && x < |parent| && parent[x] != x && z < |parent|
    ensures Ranked(parent[x := Find(parent, rank, x)], rank)
    ensures Find(parent[x := Find(parent, rank, x)], rank, z) == Find(parent, rank, z)
    decreases rank[z]
  {
    CompressRanked(parent, rank, x);
    var p' := parent[x := Find(parent, rank, x)];
    if z == x {
      assert p'[x] == Find(parent, rank, x);
    } else if parent[z] != z {
      CompressFind(parent, rank, x, parent[z]);
      assert p'[z] == parent[z];
    }
  }

  /** The ranks after hanging root `a` under root `b`: all shifted up by one, with `b` lowered below `a`. */
  ghost function LinkRank(rank: seq<nat>, a: nat, b: nat): seq<nat>
    requires a < |rank| && b < |rank|
  {
    seq(|rank|, i requires 0 <= i < |rank| =>
      if i == b then (if rank[b] + 1 < rank[a] then rank[b] + 1 else rank[a]) else rank[i] + 1)
  }

  lemma LinkRanked(parent: seq<nat>, rank: seq<nat>, a: nat, b: nat)
    requires Ranked(parent, rank) && a < |parent| && b < |parent| && a != b
    requires parent[a] == a && parent[b] == b
    ensures Ranked(parent[a := b], LinkRank(rank, a, b))
  {
  }

  /** After hanging root `a` under root `b`, the elements of `a`'s class have root `b`; all others keep theirs. */
  lemma {:induction false} LinkFind(parent: seq<nat>, rank: seq<nat>, a: nat, b: nat, z: nat)
    requires Ranked(parent, rank) && a < |parent| && b < |parent| && a != b
    requires parent[a] == a && parent[b] == b && z < |parent|
    ensures Ranked(parent[a := b], LinkRank(rank, a, b))
    ensures Find(parent[a := b], LinkRank(rank, a, b), z)
         == if Find(parent, rank, z) == a then b else Find(parent, rank, z)
    decreases rank[z]
  {
    LinkRanked(parent, rank, a, b);
    var p', r' := parent[a := b], LinkRank(rank, a, b);
    if z == a {
      assert Find(p', r', a) == Find(p', r', b);
    } else if parent[z] != z {
      LinkFind(parent, rank, a, b, parent[z]);
      assert Find(p', r', z) == Find(p', r', parent[z]);
    }
  }

  /** Linking two roots unites their classes and leaves every other class as it was. */
  lemma LinkClasses(parent: seq<nat>, rank: seq<nat>, a: nat, b: nat)
    requires Ranked(parent, rank) && a < |parent| && b < |parent| && a != b
    requires parent[a] == a && parent[b] == b
    ensures Ranked(parent[a := b], LinkRank(rank, a, b))
    ensures Class(parent[a := b], LinkRank(rank, a, b), b) == Class(parent, rank, a) + Class(parent, rank, b)
    ensures forall r :: r != a && r != b ==> Class(parent[a := b], LinkRank(rank, a, b), r) == Class(parent, rank, r)
  {
    LinkRanked(parent, rank, a, b);
    forall z | 0 <= z < |parent|
      ensures Find(parent[a := b], LinkRank(rank, a, b), z)
           == if Find(parent, rank, z) == a then b else Find(parent, rank, z)
    {
      LinkFind(parent, rank, a, b, z);
    }
  }

  /**
   * The update `unite` makes after finding two distinct roots `a` (to hang)
   * and `b` (to keep) preserves the invariant.
   */
  lemma LinkInv(parent: seq<nat>, rank: seq<nat>, sizes: seq<nat>, size: nat, a: nat, b: nat)
    requires Inv(parent, rank, sizes, size) && a < |parent| && b < |parent| && a != b
    requires parent[a] == a && parent[b] == b
    ensures size >= 1
    ensures Inv(parent[a := b], LinkRank(rank, a, b), sizes[b := sizes[b] + sizes[a]][a := 0], size - 1)
  {
    LinkSizes(parent, rank, sizes, a, b);
    assert Roots(parent[a := b]) == Roots(parent) - {a};
    assert a in Roots(parent);
    RemoveCard(Roots(parent), a);
  }

  lemma RemoveCard(s: set<nat>, a: nat)
    requires a in s
    ensures |s - {a}| == |s| - 1
  {
    assert s == (s - {a}) + {a};
  }

  /** The `sizes` update of `unite` keeps each root's entry equal to its class size. */
  lemma LinkSizes(parent: seq<nat>, rank: seq<nat>, sizes: seq<nat>, a: nat, b: nat)
    requires Ranked(parent, rank) && |sizes| == |parent| && a < |parent| && b < |parent| && a != b
    requires forall r {:trigger sizes[r]} :: 0 <= r < |parent| ==> sizes[r] == if parent[r] == r then |Class(parent, rank, r)| else 0
    requires parent[a] == a && parent[b] == b
    ensures Ranked(parent[a := b], LinkRank(rank, a, b))
    ensures var s' := sizes[b := sizes[b] + sizes[a]][a := 0];
      forall r {:trigger s'[r]} :: 0 <= r < |parent| ==>
        s'[r] == if parent[a := b][r] == r then |Class(parent[a := b], LinkRank(rank, a, b), r)| else 0
  {
    LinkClasses(parent, rank, a, b);
    var p', r', s' := parent[a := b], LinkRank(rank, a, b), sizes[b := sizes[b] + sizes[a]][a := 0];
    var ca, cb := Class(parent, rank, a), Class(parent, rank, b);
    DisjointCard(ca, cb, a, b, parent, rank);
    forall r | 0 <= r < |p'|
      ensures s'[r] == if p'[r] == r then |Class(p', r', r)| else 0
    {
      if r == b {
        assert sizes[b] == |cb| && sizes[a] == |ca|;
      } else if r != a {
        assert Class(p', r', r) == Class(parent, rank, r);
      }
    }
  }

  /** Two different classes are disjoint, so the size of their union is the sum of their sizes. */
  lemma DisjointCard(ca: set<nat>, cb: set<nat>, a: nat, b: nat, parent: seq<nat>, rank: seq<nat>)
    requires Ranked(parent, rank) && a != b && ca == Class(parent, rank, a) && cb == Class(parent, rank, b)
    ensures |ca + cb| == |ca| + |cb|
  {
    assert ca * cb == {} by {
      forall z | z in ca && z in cb
        ensures false
      {
      }
    }
  }

  /** After linking the roots of `x` and `y`, two elements share a root iff they did, or one was with `x` and the other with `y`. */
  lemma LinkSame(parent: seq<nat>, rank: seq<nat>, a: nat, b: nat, x: nat, y: nat, z: nat, w: nat)
    requires Ranked(parent, rank) && a < |parent| && b < |parent| && a != b
    requires parent[a] == a && parent[b] == b
    requires x < |parent| && y < |parent| && z < |parent| && w < |parent|
    requires {a, b} == {Find(parent, rank, x), Find(parent, rank, y)}
    ensures Ranked(parent[a := b], LinkRank(rank, a, b))
    ensures Find(parent[a := b], LinkRank(rank, a, b), z) == Find(parent[a := b], LinkRank(rank, a, b), w)
        <==> || Find(parent, rank, z) == Find(parent, rank, w)
             || (Find(parent, rank, z) == Find(parent, rank, x) && Find(parent, rank, w) == Find(parent, rank, y))
             || (Find(parent, rank, z) == Find(parent, rank, y) && Find(parent, rank, w) == Find(parent, rank, x))
  {
    LinkFind(parent, rank, a, b, z);
    LinkFind(parent, rank, a, b, w);
  }

  /** `LinkSame` for every pair of elements. */
  lemma LinkPartition(parent: seq<nat>, rank: seq<nat>, a: nat, b: nat, x: nat, y: nat)
    requires Ranked(parent, rank) && a < |parent| && b < |parent| && a != b
    requires parent[a] == a && parent[b] == b && x < |parent| && y < |parent|
    requires {a, b} == {Find(parent, rank, x), Find(parent, rank, y)}
    ensures Ranked(parent[a := b], LinkRank(rank, a, b))
    ensures forall z, w :: 0 <= z < |parent| && 0 <= w < |parent| ==>
      (Find(parent[a := b], LinkRank(rank, a, b), z) == Find(parent[a := b], LinkRank(rank, a, b), w) <==>
         (|| Find(parent, rank, z) == Find(parent, rank, w)
          || (Find(parent, rank, z) == Find(parent, rank, x) && Find(parent, rank, w) == Find(parent, rank, y))
          || (Find(parent, rank, z) == Find(parent, rank, y) && Find(parent, rank, w) == Find(parent, rank, x))))
  {
    LinkRanked(parent, rank, a, b);
    forall z, w | 0 <= z < |parent| && 0 <= w < |parent|
      ensures (Find(parent[a := b], LinkRank(rank, a, b), z) == Find(parent[a := b], LinkRank(rank, a, b), w) <==>
         (|| Find(parent, rank, z) == Find(parent, rank, w)
          || (Find(parent, rank, z) == Find(parent, rank, x) && Find(parent, rank, w) == Find(parent, rank, y))
          || (Find(parent, rank, z) == Find(parent, rank, y) && Find(parent, rank, w) == Find(parent, rank, x))))
    {
      LinkSame(parent, rank, a, b, x, y, z, w);
    }
  }

  /** Path compression keeps every class and the set of roots. */
  lemma CompressClasses(parent: seq<nat>, rank: seq<nat>, x: nat)
    requires Ranked(parent, rank) && x < |parent| && parent[x] != x
    ensures Ranked(parent[x := Find(parent, rank, x)], rank)
    ensures forall r :: Class(parent[x := Find(parent, rank, x)], rank, r) == Class(parent, rank, r)
    ensures Roots(parent[x := Find(parent, rank, x)]) == Roots(parent)
  {
    CompressRanked(parent, rank, x);
    forall z | 0 <= z < |parent|
      ensures Find(parent[x := Find(parent, rank, x)], rank, z) == Find(parent, rank, z)
    {
      CompressFind(parent, rank, x, z);
    }
  }

  class UnionFind {
    var parent: seq<nat>
    var sizes: seq<nat>
    var size: nat
    ghost var rank: seq<nat>

    /** The forest is ranked, each root holds its class size, every other entry of `sizes` is 0, and `size` counts the roots. */
    ghost predicate Valid()
      reads this
    {
      Inv(parent, rank, sizes, size)
    }

    /** The root of `x`'s class in the current forest. */
    ghost function RootOf(x: nat): nat
      reads this
      requires Ranked(parent, rank) && x < |parent|
    {
      Find(parent, rank, x)
    }

    /** `UnionFind::new(n)`: n singleton classes. */
    constructor (n: nat)
      ensures Valid() && |parent| == n && size == n
      ensures forall x :: 0 <= x < n ==> RootOf(x) == x && Class(parent, rank, x) == {x}
    {
      parent := Singletons(n);
      sizes := seq(n, _ => 1);
      size := n;
      rank := seq(n, _ => 0);
      new;
      forall r | 0 <= r < n
        ensures Class(parent, rank, r) == {r}
      {
      }
      SingletonRoots(n);
    }

    /** `root(x)`: the root of `x`, re-linking every node on the way straight to it. */
    method Root(x: nat) returns (r: nat)
      requires Valid() && x < |parent|
      modifies this
      ensures Valid() && |parent| == old(|parent|)
      ensures r == old(RootOf(x)) && parent[r] == r
      ensures sizes == old(sizes) && size == old(size) && rank == old(rank)
      ensures forall z :: 0 <= z < |parent| ==> RootOf(z) == old(RootOf(z))
      ensures forall z :: 0 <= z < |parent| ==> parent[z] == old(parent[z]) || parent[z] == old(RootOf(z))
      decreases rank[x]
    {
      if x == parent[x] {
        r := x;
      } else {
        var p := parent[x];
        r := Root(p);
        assert parent[x] != x;
        CompressClasses(parent, rank, x);
        forall z | 0 <= z < |parent|
          ensures Find(parent[x := r], rank, z) == Find(parent, rank, z)
        {
          CompressFind(parent, rank, x, z);
        }
        parent := parent[x := r];
        r := parent[x];
      }
    }

    /** `unite(x, y)`: merges the two classes; false when they were already one. */
    method Unite(x: nat, y: nat) returns (merged: bool)
      requires Valid() && x < |parent| && y < |parent|
      modifies this
      ensures Valid() && |parent| == old(|parent|)
      ensures merged <==> old(RootOf(x)) != old(RootOf(y))
      ensures size == if merged then old(size) - 1 else old(size)
      ensures forall z, w :: 0 <= z < |parent| && 0 <= w < |parent| ==>
        (RootOf(z) == RootOf(w) <==>
           || old(RootOf(z)) == old(RootOf(w))
           || (old(RootOf(z)) == old(RootOf(x)) && old(RootOf(w)) == old(RootOf(y)))
           || (old(RootOf(z)) == old(RootOf(y)) && old(RootOf(w)) == old(RootOf(x))))
    {
      var a := Root(x);
      var b := Root(y);
      if a == b {
        return false;
      }
      if !(sizes[a] > sizes[b]) {
        a, b := b, a;
      }
      ghost var p2, r2 := parent, rank;
      assert forall z :: 0 <= z < |p2| ==> Find(p2, r2, z) == old(RootOf(z));
      LinkPartition(p2, r2, a, b, x, y);
      Link(a, b);
      merged := true;
    }

    /** Lines 37-40 of `unite`: hang root `a` under root `b` and move its size over. */
    method Link(a: nat, b: nat)
      requires Valid() && a < |parent| && b < |parent| && a != b && parent[a] == a && parent[b] == b
      modifies this
      ensures Valid() && size == old(size) - 1
      ensures parent == old(parent)[a := b] && rank == LinkRank(old(rank), a, b)
    {
      LinkInv(parent, rank, sizes, size, a, b);
      var s := sizes[b := sizes[b] + sizes[a]][a := 0];
      parent, rank, sizes, size := parent[a := b], LinkRank(rank, a, b), s, size - 1;
    }

    /** `is_same(x, y)`: whether the two elements share a class. */
    method IsSame(x: nat, y: nat) returns (same: bool)
      requires Valid() && x < |parent| && y < |parent|
      modifies this
      ensures Valid() && |parent| == old(|parent|) && size == old(size)
      ensures same <==> old(RootOf(x)) == old(RootOf(y))
      ensures forall z :: 0 <= z < |parent| ==> RootOf(z) == old(RootOf(z))
    {
      var a := Root(x);
      var b := Root(y);
      same := a == b;
    }

    /** `group_size(x)`: the number of elements in `x`'s class. */
    method GroupSize(x: nat) returns (s: nat)
      requires Valid() && x < |parent|
      modifies this
      ensures Valid() && |parent| == old(|parent|) && size == old(size)
      ensures s == |old(Class(parent, rank, RootOf(x)))|
      ensures forall z :: 0 <= z < |parent| ==> RootOf(z) == old(RootOf(z))
    {
      var r := Root(x);
      s := sizes[r];
    }

    /** `len()`: the number of classes. */
    function Len(): (n: nat)
      reads this
      requires Valid()
      ensures n == |Roots(parent)|
    {
      size
    }
  }
}
