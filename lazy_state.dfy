/**
 * The state of a lazy segment tree as values, and what `push`, `apply` and
 * `update` do to it.
 *
 * `data` has `2 * size` slots and `lazy` has `size`.  Node `k` holds in
 * `data[k]` the product of the elements below it with every map pending at
 * `k` itself already applied, and in `lazy[k]` (for an inner node) the
 * composite of the maps its children have not yet received.  The elements
 * are the leaves `data[size..]` with the maps pending at their ancestors
 * applied, nearest ancestor first.
 */
module LazyState {
  import opened MathTraits
  import opened SegTree
  import opened LazyMaps
  import opened LazyIndex

  /** `y` with the maps pending at node `a` and its ancestors applied, nearest first. */
  function Lift<T, F>(MM: MapMonoid<T, F>, lz: seq<F>, a: nat, y: T): T
    requires a < |lz|
    decreases a
  {
    if a == 0 then y else Lift(MM, lz, a / 2, MM.apply(lz[a], y))
  }

  /** Nothing is pending at node `a` or any of its ancestors. */
  ghost predicate CleanFrom<T, F>(MM: MapMonoid<T, F>, lz: seq<F>, a: nat)
    decreases a
  {
    a == 0 || (a < |lz| && lz[a] == MM.mapId && CleanFrom(MM, lz, a / 2))
  }

  /** The value of node `k`: its slot with the maps pending above it applied. */
  function Val<T, F>(MM: MapMonoid<T, F>, data: seq<T>, lz: seq<F>, k: nat): T
    requires |data| == 2 * |lz| && 1 <= k < |data|
  {
    Lift(MM, lz, k / 2, data[k])
  }

  /** The values of all nodes (node `0` is unused and reads as `id`). */
  function Vals<T, F>(MM: MapMonoid<T, F>, data: seq<T>, lz: seq<F>): (v: seq<T>)
    requires |data| == 2 * |lz|
    ensures |v| == |data|
  {
    seq(|data|, k requires 0 <= k < |data| => if k == 0 then MM.M.id else Val(MM, data, lz, k))
  }

  /** The elements: the values of the leaves. */
  function Elements<T, F>(MM: MapMonoid<T, F>, data: seq<T>, lz: seq<F>): (e: seq<T>)
    requires |data| == 2 * |lz|
    ensures |e| == |lz|
  {
    seq(|lz|, i requires 0 <= i < |lz| => Val(MM, data, lz, |lz| + i))
  }

  /** Inner node `k` holds its pending map applied to the product of its children. */
  ghost predicate LazyNodeOk<T, F>(MM: MapMonoid<T, F>, data: seq<T>, lz: seq<F>, k: nat)
    requires 2 * k + 1 < |data| && k < |lz|
  {
    data[k] == MM.apply(lz[k], MM.M.op(data[2 * k], data[2 * k + 1]))
  }

  /** The shape of the state and the node invariant at every inner node; `lazy[0]` is the identity. */
  ghost predicate Consistent<T, F>(MM: MapMonoid<T, F>, data: seq<T>, lz: seq<F>)
  {
    |lz| >= 1 && |data| == 2 * |lz| && lz[0] == MM.mapId &&
    forall k :: 1 <= k < |lz| ==> LazyNodeOk(MM, data, lz, k)
  }

  /** `apply(k, f)`: the slot of `k` takes `f`, and so does its pending map when `k` is inner. */
  function ApplyNode<T, F>(MM: MapMonoid<T, F>, data: seq<T>, lz: seq<F>, k: nat, f: F): (s: (seq<T>, seq<F>))
    requires k < |data|
    ensures |s.0| == |data| && |s.1| == |lz|
  {
    (data[k := MM.apply(f, data[k])], if k < |lz| then lz[k := MM.composite(f, lz[k])] else lz)
  }

  /**
   * `push(k)`: `lazy[k]` is applied to both children, the second reading
   * `lazy[k]` afresh, and `lazy[k]` becomes `map_id`.
   */
  function PushAt<T, F>(MM: MapMonoid<T, F>, data: seq<T>, lz: seq<F>, k: nat): (s: (seq<T>, seq<F>))
    requires k < |lz| && |data| == 2 * |lz|
    ensures |s.0| == |data| && |s.1| == |lz|
  {
    var s1 := ApplyNode(MM, data, lz, 2 * k, lz[k]);
    var s2 := ApplyNode(MM, s1.0, s1.1, 2 * k + 1, s1.1[k]);
    (s2.0, s2.1[k := MM.mapId])
  }

  /** `update(k)`: node `k` becomes the product of its children. */
  function UpdateAt<T, F>(MM: MapMonoid<T, F>, data: seq<T>, k: nat): (d: seq<T>)
    requires 2 * k + 1 < |data|
    ensures |d| == |data|
  {
    data[k := MM.M.op(data[2 * k], data[2 * k + 1])]
  }

  // ---------------------------------------------------------------------
  // Lifting values through the pending maps.

  /** Pending maps distribute over `op`. */
  lemma {:induction false} LiftOp<T(!new), F(!new)>(MM: MapMonoid<T, F>, lz: seq<F>, a: nat, x: T, y: T)
    requires IsLawful(MM) && a < |lz|
    ensures Lift(MM, lz, a, MM.M.op(x, y)) == MM.M.op(Lift(MM, lz, a, x), Lift(MM, lz, a, y))
    decreases a
  {
    if a > 0 {
      LiftOp(MM, lz, a / 2, MM.apply(lz[a], x), MM.apply(lz[a], y));
    }
  }

  /** With nothing pending above, lifting changes nothing. */
  lemma {:induction false} LiftClean<T(!new), F(!new)>(MM: MapMonoid<T, F>, lz: seq<F>, a: nat, y: T)
    requires IsLawful(MM) && a < |lz| && CleanFrom(MM, lz, a)
    ensures Lift(MM, lz, a, y) == y
    decreases a
  {
    if a > 0 {
      LiftClean(MM, lz, a / 2, MM.apply(lz[a], y));
    }
  }

  /** Lifting from `a` reads only the maps at nodes up to `a`. */
  lemma {:induction false} LiftPrefix<T, F>(MM: MapMonoid<T, F>, lz: seq<F>, lz2: seq<F>, a: nat, y: T)
    requires a < |lz| == |lz2| && forall b :: 1 <= b <= a ==> lz2[b] == lz[b]
    ensures Lift(MM, lz2, a, y) == Lift(MM, lz, a, y)
    ensures CleanFrom(MM, lz2, a) == CleanFrom(MM, lz, a)
    decreases a
  {
    if a > 0 {
      LiftPrefix(MM, lz, lz2, a / 2, MM.apply(lz[a], y));
    }
  }

  /** Lifting from `a` reads only the maps on the path from `a` to the root. */
  lemma {:induction false} LiftOffPath<T, F>(MM: MapMonoid<T, F>, lz: seq<F>, lz2: seq<F>, a: nat, y: T)
    requires a < |lz| == |lz2|
    requires forall b :: 1 <= b <= a && OnPathToRoot(b, a) ==> lz2[b] == lz[b]
    ensures Lift(MM, lz2, a, y) == Lift(MM, lz, a, y)
    decreases a
  {
    if a > 0 {
      forall b | 1 <= b <= a / 2 && OnPathToRoot(b, a / 2)
        ensures lz2[b] == lz[b]
      {
        assert OnPathToRoot(b, a);
      }
      assert OnPathToRoot(a, a);
      LiftOffPath(MM, lz, lz2, a / 2, MM.apply(lz[a], y));
    }
  }

  /** The parent of a node on a path is on it too. */
  lemma {:induction false} PathParent(b: nat, a: nat)
    requires OnPathToRoot(b, a) && b >= 2
    ensures OnPathToRoot(b / 2, a)
    decreases a
  {
    if b != a {
      PathParent(b, a / 2);
    }
  }

  /** A node strictly below `c` is below one of `c`'s children. */
  lemma {:induction false} PathChild(c: nat, a: nat)
    requires OnPathToRoot(c, a) && a != c
    ensures OnPathToRoot(2 * c, a) || OnPathToRoot(2 * c + 1, a)
    decreases a
  {
    if a / 2 != c {
      PathChild(c, a / 2);
    }
  }

  /** The value of a node is the product of its children's values. */
  lemma ValNode<T(!new), F(!new)>(MM: MapMonoid<T, F>, data: seq<T>, lz: seq<F>, k: nat)
    requires IsLawful(MM) && |data| == 2 * |lz| && 1 <= k < |lz| && LazyNodeOk(MM, data, lz, k)
    ensures Val(MM, data, lz, k) == MM.M.op(Val(MM, data, lz, 2 * k), Val(MM, data, lz, 2 * k + 1))
  {
    LiftOp(MM, lz, k / 2, MM.apply(lz[k], data[2 * k]), MM.apply(lz[k], data[2 * k + 1]));
  }

  /** In a consistent state the node values form a summarised segment tree over the elements. */
  lemma ValsSummarised<T(!new), F(!new)>(MM: MapMonoid<T, F>, data: seq<T>, lz: seq<F>)
    requires IsLawful(MM) && Consistent(MM, data, lz)
    ensures Summarised(MM.M, Vals(MM, data, lz), |lz|)
    ensures Vals(MM, data, lz)[|lz|..] == Elements(MM, data, lz)
  {
    var v := Vals(MM, data, lz);
    forall k | 1 <= k < |lz|
      ensures NodeOk(MM.M, v, k)
    {
      ValNode(MM, data, lz, k);
    }
  }

  /**
   * The node values of a consistent state, as a summarised segment tree
   * over the elements in which every node with nothing pending above it
   * holds its own slot.
   */
  lemma NodeValues<T(!new), F(!new)>(MM: MapMonoid<T, F>, data: seq<T>, lz: seq<F>) returns (v: seq<T>)
    requires IsLawful(MM) && Consistent(MM, data, lz)
    ensures |v| == |data| && Summarised(MM.M, v, |lz|) && v[|lz|..] == Elements(MM, data, lz)
    ensures forall x :: 1 <= x < |data| && CleanFrom(MM, lz, x / 2) ==> v[x] == data[x]
  {
    v := Vals(MM, data, lz);
    ValsSummarised(MM, data, lz);
    forall x | 1 <= x < |data| && CleanFrom(MM, lz, x / 2)
      ensures v[x] == data[x]
    {
      CleanSlot(MM, data, lz, x);
    }
  }

  /** One round of the range loop, reading slots of `d` that hold the values `v`. */
  lemma FoldStep<T>(M: Monoid<T>, v: seq<T>, d: seq<T>, l: nat, r: nat, vl: T, vr: T)
    requires l < r <= |v| == |d|
    requires l % 2 == 1 ==> v[l] == d[l]
    requires r % 2 == 1 ==> v[r - 1] == d[r - 1]
    ensures QueryLoopFixed(M, v, l, r, vl, vr) ==
      QueryLoopFixed(M, v, (if l % 2 == 1 then l + 1 else l) / 2, r / 2,
        if l % 2 == 1 then M.op(vl, d[l]) else vl, if r % 2 == 1 then M.op(d[r - 1], vr) else vr)
  {
  }

  /** A node with nothing pending above holds its value. */
  lemma CleanSlot<T(!new), F(!new)>(MM: MapMonoid<T, F>, data: seq<T>, lz: seq<F>, x: nat)
    requires IsLawful(MM) && |data| == 2 * |lz| && 1 <= x < |data| && CleanFrom(MM, lz, x / 2)
    ensures Vals(MM, data, lz)[x] == data[x]
  {
    LiftClean(MM, lz, x / 2, data[x]);
  }

  /** The value of node `x` of height `j` is the product of the values of its leaves. */
  lemma {:induction false} NodeCovers<T(!new)>(M: Monoid<T>, v: seq<T>, size: nat, x: nat, j: nat)
    requires IsMonoid(M) && |v| == 2 * size && Summarised(M, v, size)
    requires 1 <= x < 2 * size && Shl(x + 1, j) <= 2 * size
    ensures Shl(x, j) <= Shl(x + 1, j)
    ensures v[x] == Fold(M, v[Shl(x, j)..Shl(x + 1, j)])
    decreases j
  {
    ShlMonotone(x, x + 1, j);
    if j == 0 {
      assert v[x..x + 1] == [v[x]];
      FoldSingle(M, v[x]);
    } else {
      NodeCovers(M, v, size, x, j - 1);
      ShlMonotone(1, x, j - 1);
      ShlAtLeast(1, j - 1);
      Halve(M, v, size, Shl(x, j - 1), Shl(x + 1, j - 1));
    }
  }

  // ---------------------------------------------------------------------
  // `push`.

  /** Pushing the root's unused parent `0` changes no slot that matters and no map. */
  lemma PushZero<T(!new), F(!new)>(MM: MapMonoid<T, F>, data: seq<T>, lz: seq<F>)
    requires IsLawful(MM) && Consistent(MM, data, lz)
    ensures PushAt(MM, data, lz, 0).1 == lz
    ensures PushAt(MM, data, lz, 0).0 == data
  {
  }

  /** How pushing an inner node `c >= 1` changes the maps: `c` clears, its inner children compose. */
  lemma PushLazy<T(!new), F(!new)>(MM: MapMonoid<T, F>, data: seq<T>, lz: seq<F>, c: nat)
    requires |data| == 2 * |lz| && 1 <= c < |lz|
    ensures var lz2 := PushAt(MM, data, lz, c).1;
      lz2[c] == MM.mapId &&
      (2 * c < |lz| ==> lz2[2 * c] == MM.composite(lz[c], lz[2 * c])) &&
      (2 * c + 1 < |lz| ==> lz2[2 * c + 1] == MM.composite(lz[c], lz[2 * c + 1])) &&
      forall b :: 0 <= b < |lz| && b != c && b != 2 * c && b != 2 * c + 1 ==> lz2[b] == lz[b]
    ensures var d2 := PushAt(MM, data, lz, c).0;
      d2 == data[2 * c := MM.apply(lz[c], data[2 * c])][2 * c + 1 := MM.apply(lz[c], data[2 * c + 1])]
  {
  }

  /** Lifting through a child of a pushed node gives what it gave before the push. */
  lemma {:induction false} LiftBelowPush<T(!new), F(!new)>(MM: MapMonoid<T, F>, data: seq<T>, lz: seq<F>, c: nat, ch: nat, a: nat, y: T)
    requires IsLawful(MM) && |data| == 2 * |lz| && 1 <= c && (ch == 2 * c || ch == 2 * c + 1)
    requires ch < |lz| && a < |lz| && OnPathToRoot(ch, a)
    ensures Lift(MM, PushAt(MM, data, lz, c).1, a, y) == Lift(MM, lz, a, y)
    decreases a
  {
    var lz2 := PushAt(MM, data, lz, c).1;
    PushLazy(MM, data, lz, c);
    if a == ch {
      assert ch / 2 == c;
      var z := MM.apply(lz[c], MM.apply(lz[ch], y));
      calc {
        Lift(MM, lz2, ch, y);
        Lift(MM, lz2, c / 2, MM.apply(lz2[c], MM.apply(lz2[ch], y)));
        { assert MM.apply(lz2[ch], y) == MM.apply(MM.composite(lz[c], lz[ch]), y) == MM.apply(lz[c], MM.apply(lz[ch], y)); }
        Lift(MM, lz2, c / 2, z);
        { LiftPrefix(MM, lz, lz2, c / 2, z); }
        Lift(MM, lz, c / 2, z);
      }
    } else {
      PathBelow(ch, a);
      LiftBelowPush(MM, data, lz, c, ch, a / 2, MM.apply(lz[a], y));
    }
  }

  /** Pushing an inner node keeps the node invariant. */
  lemma PushConsistent<T(!new), F(!new)>(MM: MapMonoid<T, F>, data: seq<T>, lz: seq<F>, c: nat)
    requires IsLawful(MM) && Consistent(MM, data, lz) && 1 <= c < |lz|
    ensures Consistent(MM, PushAt(MM, data, lz, c).0, PushAt(MM, data, lz, c).1)
  {
    var (d2, lz2) := PushAt(MM, data, lz, c);
    PushLazy(MM, data, lz, c);
    forall k | 1 <= k < |lz|
      ensures LazyNodeOk(MM, d2, lz2, k)
    {
      assert LazyNodeOk(MM, data, lz, k);
      if k == 2 * c || k == 2 * c + 1 {
        assert d2[2 * k] == data[2 * k] && d2[2 * k + 1] == data[2 * k + 1];
      }
    }
  }

  /** Pushing an inner node keeps the value of leaf `k`. */
  lemma PushLeaf<T(!new), F(!new)>(MM: MapMonoid<T, F>, data: seq<T>, lz: seq<F>, c: nat, k: nat)
    requires IsLawful(MM) && |data| == 2 * |lz| && 1 <= c < |lz| && |lz| <= k < |data|
    ensures Val(MM, PushAt(MM, data, lz, c).0, PushAt(MM, data, lz, c).1, k) == Val(MM, data, lz, k)
  {
    var (d2, lz2) := PushAt(MM, data, lz, c);
    PushLazy(MM, data, lz, c);
    if k == 2 * c || k == 2 * c + 1 {
      LiftPrefix(MM, lz, lz2, c / 2, MM.apply(lz[c], data[k]));
    } else if OnPathToRoot(c, k / 2) {
      PathBelow(c, k / 2);
      PathChild(c, k / 2);
      if OnPathToRoot(2 * c, k / 2) {
        PathBelow(2 * c, k / 2);
        LiftBelowPush(MM, data, lz, c, 2 * c, k / 2, data[k]);
      } else {
        PathBelow(2 * c + 1, k / 2);
        LiftBelowPush(MM, data, lz, c, 2 * c + 1, k / 2, data[k]);
      }
    } else {
      forall b | 1 <= b <= k / 2 && OnPathToRoot(b, k / 2)
        ensures lz2[b] == lz[b]
      {
        if b == 2 * c || b == 2 * c + 1 {
          PathParent(b, k / 2);
        }
      }
      LiftOffPath(MM, lz, lz2, k / 2, data[k]);
    }
  }

  /** Pushing an inner node keeps every element. */
  lemma PushElements<T(!new), F(!new)>(MM: MapMonoid<T, F>, data: seq<T>, lz: seq<F>, c: nat)
    requires IsLawful(MM) && |data| == 2 * |lz| && 1 <= c < |lz|
    ensures Elements(MM, PushAt(MM, data, lz, c).0, PushAt(MM, data, lz, c).1) == Elements(MM, data, lz)
  {
    var (d2, lz2) := PushAt(MM, data, lz, c);
    forall i | 0 <= i < |lz|
      ensures Elements(MM, d2, lz2)[i] == Elements(MM, data, lz)[i]
    {
      PushLeaf(MM, data, lz, c, |lz| + i);
    }
  }

  /** After `push(c)` nothing is pending at `c` or above when nothing was pending above `c`. */
  lemma PushClears<T(!new), F(!new)>(MM: MapMonoid<T, F>, data: seq<T>, lz: seq<F>, c: nat)
    requires IsLawful(MM) && Consistent(MM, data, lz) && c < |lz| && CleanFrom(MM, lz, c / 2)
    ensures CleanFrom(MM, PushAt(MM, data, lz, c).1, c)
  {
    var lz2 := PushAt(MM, data, lz, c).1;
    if c >= 1 {
      PushLazy(MM, data, lz, c);
      LiftPrefix(MM, lz, lz2, c / 2, MM.M.id);
    }
  }

  // ---------------------------------------------------------------------
  // `apply` on a node with nothing pending above it.

  /** Lifting through a node that took `f` gives `f` of what it gave before. */
  lemma {:induction false} LiftBelowApply<T(!new), F(!new)>(MM: MapMonoid<T, F>, lz: seq<F>, x: nat, f: F, a: nat, y: T)
    requires IsLawful(MM) && 1 <= x < |lz| && CleanFrom(MM, lz, x / 2)
    requires a < |lz| && OnPathToRoot(x, a)
    ensures Lift(MM, lz[x := MM.composite(f, lz[x])], a, y) == MM.apply(f, Lift(MM, lz, a, y))
    decreases a
  {
    var lz2 := lz[x := MM.composite(f, lz[x])];
    if a == x {
      LiftPrefix(MM, lz, lz2, x / 2, MM.apply(lz2[x], y));
      LiftClean(MM, lz, x / 2, MM.apply(lz2[x], y));
      LiftClean(MM, lz, x / 2, MM.apply(lz[x], y));
    } else {
      PathBelow(x, a);
      LiftBelowApply(MM, lz, x, f, a / 2, MM.apply(lz[a], y));
    }
  }

  /** `apply(x, f)` on a node with nothing pending above it maps leaf `k` by `f` when `k` is below `x`. */
  lemma ApplyLeaf<T(!new), F(!new)>(MM: MapMonoid<T, F>, data: seq<T>, lz: seq<F>, x: nat, f: F, k: nat)
    requires IsLawful(MM) && |data| == 2 * |lz| && 1 <= x < |data| && CleanFrom(MM, lz, x / 2)
    requires |lz| <= k < |data|
    ensures Val(MM, ApplyNode(MM, data, lz, x, f).0, ApplyNode(MM, data, lz, x, f).1, k) ==
      (if OnPathToRoot(x, k) then MM.apply(f, Val(MM, data, lz, k)) else Val(MM, data, lz, k))
  {
    var (d2, lz2) := ApplyNode(MM, data, lz, x, f);
    if k == x {
      LiftClean(MM, lz, x / 2, d2[x]);
      LiftClean(MM, lz, x / 2, data[x]);
    } else if OnPathToRoot(x, k) {
      PathBelow(x, k);
      LiftBelowApply(MM, lz, x, f, k / 2, data[k]);
    } else {
      forall b | 1 <= b <= k / 2 && OnPathToRoot(b, k / 2)
        ensures lz2[b] == lz[b]
      {
        assert b != x;
      }
      LiftOffPath(MM, lz, lz2, k / 2, data[k]);
    }
  }

  /**
   * `apply(x, f)` on a node with nothing pending above it maps by `f`
   * exactly the elements below `x`.
   */
  lemma ApplyElements<T(!new), F(!new)>(MM: MapMonoid<T, F>, data: seq<T>, lz: seq<F>, x: nat, f: F)
    requires IsLawful(MM) && |data| == 2 * |lz| && 1 <= x < |data| && CleanFrom(MM, lz, x / 2)
    ensures var s := ApplyNode(MM, data, lz, x, f);
      forall i :: 0 <= i < |lz| ==>
        Elements(MM, s.0, s.1)[i] ==
        (if OnPathToRoot(x, |lz| + i) then MM.apply(f, Elements(MM, data, lz)[i]) else Elements(MM, data, lz)[i])
  {
    var s := ApplyNode(MM, data, lz, x, f);
    forall i | 0 <= i < |lz|
      ensures Elements(MM, s.0, s.1)[i] ==
        (if OnPathToRoot(x, |lz| + i) then MM.apply(f, Elements(MM, data, lz)[i]) else Elements(MM, data, lz)[i])
    {
      ApplyLeaf(MM, data, lz, x, f, |lz| + i);
    }
  }

  /** `apply(x, f)` keeps the node invariant everywhere except at `x`'s parent. */
  lemma ApplyNodes<T(!new), F(!new)>(MM: MapMonoid<T, F>, data: seq<T>, lz: seq<F>, x: nat, f: F, k: nat)
    requires IsLawful(MM) && |data| == 2 * |lz| && 1 <= x < |data|
    requires 1 <= k < |lz| && k != x / 2 && LazyNodeOk(MM, data, lz, k)
    ensures LazyNodeOk(MM, ApplyNode(MM, data, lz, x, f).0, ApplyNode(MM, data, lz, x, f).1, k)
  {
  }

  // ---------------------------------------------------------------------
  // `update`.

  /** `update(c)` on a node with nothing pending at it restores its invariant and disturbs only its parent's. */
  lemma UpdateNodes<T(!new), F(!new)>(MM: MapMonoid<T, F>, data: seq<T>, lz: seq<F>, c: nat, k: nat)
    requires IsLawful(MM) && |data| == 2 * |lz| && c < |lz| && 1 <= k < |lz|
    requires k == c ==> lz[c] == MM.mapId
    requires k != c ==> k != c / 2 && LazyNodeOk(MM, data, lz, k)
    ensures LazyNodeOk(MM, UpdateAt(MM, data, c), lz, k)
  {
  }

  /** `update` of an inner node changes no element. */
  lemma UpdateElements<T, F>(MM: MapMonoid<T, F>, data: seq<T>, lz: seq<F>, c: nat)
    requires |data| == 2 * |lz| && c < |lz|
    ensures Elements(MM, UpdateAt(MM, data, c), lz) == Elements(MM, data, lz)
  {
    var d2 := UpdateAt(MM, data, c);
    forall i | 0 <= i < |lz|
      ensures Elements(MM, d2, lz)[i] == Elements(MM, data, lz)[i]
    {
      assert d2[|lz| + i] == data[|lz| + i];
      assert Elements(MM, d2, lz)[i] == Val(MM, d2, lz, |lz| + i);
      assert Elements(MM, data, lz)[i] == Val(MM, data, lz, |lz| + i);
    }
  }

  // ---------------------------------------------------------------------
  // Ancestors left with nothing pending by a run of pushes.

  /** Every ancestor `X >> i`, `t <= i <= top`, has nothing pending. */
  ghost predicate PathClean<T, F>(MM: MapMonoid<T, F>, lz: seq<F>, X: nat, t: nat, top: nat)
  {
    forall i :: t <= i <= top ==> Shr(X, i) < |lz| && lz[Shr(X, i)] == MM.mapId
  }

  /** Every ancestor `X >> i`, `t <= i <= top`, at which `E` is not aligned has nothing pending. */
  ghost predicate PendingClean<T, F>(MM: MapMonoid<T, F>, lz: seq<F>, X: nat, E: nat, t: nat, top: nat)
  {
    forall i :: t <= i <= top && Unaligned(E, i) ==> Shr(X, i) < |lz| && lz[Shr(X, i)] == MM.mapId
  }

  /** The pending ancestors from height `t` up are clean once those above `t` are and, if `E` is not aligned at `t`, `X >> t` is. */
  lemma PendingExtend<T, F>(MM: MapMonoid<T, F>, lz: seq<F>, X: nat, E: nat, t: nat, top: nat)
    requires PendingClean(MM, lz, X, E, t + 1, top)
    requires Unaligned(E, t) ==> Shr(X, t) < |lz| && lz[Shr(X, t)] == MM.mapId
    ensures PendingClean(MM, lz, X, E, t, top)
  {
  }

  /** With the whole path from `X >> t` up clean, nothing is pending at `X >> t` or above. */
  lemma {:induction false} PathCleanFrom<T, F>(MM: MapMonoid<T, F>, lz: seq<F>, h: nat, X: nat, t: nat)
    requires X < Shl(1, h + 1) && 1 <= t && PathClean(MM, lz, X, t, h + 1)
    ensures CleanFrom(MM, lz, Shr(X, t))
    decreases h + 2 - t
  {
    if t > h {
      ShrAboveRoot(X, h, t);
    } else {
      PathCleanFrom(MM, lz, h, X, t + 1);
    }
  }

  /** With the pending ancestors of `X` clean, nothing is pending at a pending `X >> t` or above. */
  lemma {:induction false} PendingCleanFrom<T, F>(MM: MapMonoid<T, F>, lz: seq<F>, h: nat, X: nat, E: nat, t: nat)
    requires X < Shl(1, h + 1) && 1 <= t && Unaligned(E, t) && PendingClean(MM, lz, X, E, t, h + 1)
    ensures CleanFrom(MM, lz, Shr(X, t))
    decreases h + 2 - t
  {
    if t > h {
      ShrAboveRoot(X, h, t);
    } else {
      UnalignedUp(E, t);
      PendingCleanFrom(MM, lz, h, X, E, t + 1);
    }
  }

  /** One push of `Y >> i` keeps the state consistent and the elements, and clears the pushed node. */
  lemma PushAncestor<T(!new), F(!new)>(MM: MapMonoid<T, F>, data: seq<T>, lz: seq<F>, h: nat, Y: nat, i: nat)
    requires IsLawful(MM) && Consistent(MM, data, lz) && |lz| == Shl(1, h)
    requires Shl(1, h) <= Y < Shl(1, h + 1) && 1 <= i <= h + 1
    ensures Shr(Y, i) < |lz|
    ensures var s := PushAt(MM, data, lz, Shr(Y, i));
      Consistent(MM, s.0, s.1) && Elements(MM, s.0, s.1) == Elements(MM, data, lz) &&
      s.1[Shr(Y, i)] == MM.mapId
  {
    ShrRange(Y, h, i);
    if i > h {
      PushZero(MM, data, lz);
    } else {
      PushConsistent(MM, data, lz, Shr(Y, i));
      PushElements(MM, data, lz, Shr(Y, i));
      PushLazy(MM, data, lz, Shr(Y, i));
    }
  }

  /** A push of `Y >> i` leaves clean every clean ancestor of a leaf at height `i` or more. */
  lemma PushKeepsPath<T(!new), F(!new)>(MM: MapMonoid<T, F>, data: seq<T>, lz: seq<F>, h: nat, Y: nat, i: nat, X: nat, t: nat)
    requires IsLawful(MM) && Consistent(MM, data, lz) && |lz| == Shl(1, h)
    requires Shl(1, h) <= Y < Shl(1, h + 1) && Shl(1, h) <= X < Shl(1, h + 1) && 1 <= i <= t && i <= h + 1
    requires PathClean(MM, lz, X, t, h + 1)
    ensures Shr(Y, i) < |lz| && PathClean(MM, PushAt(MM, data, lz, Shr(Y, i)).1, X, t, h + 1)
  {
    ShrRange(Y, h, i);
    if i > h {
      PushZero(MM, data, lz);
    } else {
      PushLazy(MM, data, lz, Shr(Y, i));
      forall i2 | t <= i2 <= h + 1
        ensures Shr(X, i2) != 2 * Shr(Y, i) && Shr(X, i2) != 2 * Shr(Y, i) + 1
      {
        PushOffPath(Y, X, h, i, i2);
      }
    }
  }

  /** A push of `Y >> i` leaves clean every clean pending ancestor of a leaf at height `i` or more. */
  lemma PushKeepsPending<T(!new), F(!new)>(MM: MapMonoid<T, F>, data: seq<T>, lz: seq<F>, h: nat, Y: nat, i: nat, X: nat, E: nat, t: nat)
    requires IsLawful(MM) && Consistent(MM, data, lz) && |lz| == Shl(1, h)
    requires Shl(1, h) <= Y < Shl(1, h + 1) && Shl(1, h) <= X < Shl(1, h + 1) && 1 <= i <= t && i <= h + 1
    requires PendingClean(MM, lz, X, E, t, h + 1)
    ensures Shr(Y, i) < |lz| && PendingClean(MM, PushAt(MM, data, lz, Shr(Y, i)).1, X, E, t, h + 1)
  {
    ShrRange(Y, h, i);
    if i > h {
      PushZero(MM, data, lz);
    } else {
      PushLazy(MM, data, lz, Shr(Y, i));
      forall i2 | t <= i2 <= h + 1
        ensures Shr(X, i2) != 2 * Shr(Y, i) && Shr(X, i2) != 2 * Shr(Y, i) + 1
      {
        PushOffPath(Y, X, h, i, i2);
      }
    }
  }

  /** With every map the identity, nothing is pending anywhere. */
  lemma {:induction false} CleanEverywhere<T, F>(MM: MapMonoid<T, F>, lz: seq<F>, a: nat)
    requires a < |lz| && forall b :: 0 <= b < |lz| ==> lz[b] == MM.mapId
    ensures CleanFrom(MM, lz, a)
    decreases a
  {
    if a > 0 {
      CleanEverywhere(MM, lz, a / 2);
    }
  }

  /** With every map the identity, the elements are the leaf slots. */
  lemma ElementsClean<T(!new), F(!new)>(MM: MapMonoid<T, F>, data: seq<T>, lz: seq<F>)
    requires IsLawful(MM) && |data| == 2 * |lz| && forall b :: 0 <= b < |lz| ==> lz[b] == MM.mapId
    ensures Elements(MM, data, lz) == data[|lz|..]
  {
    forall i | 0 <= i < |lz|
      ensures Elements(MM, data, lz)[i] == data[|lz| + i]
    {
      CleanEverywhere(MM, lz, (|lz| + i) / 2);
      LiftClean(MM, lz, (|lz| + i) / 2, data[|lz| + i]);
    }
  }

  /**
   * Writing `y` into leaf `k`, with nothing pending above it, makes `y` the
   * element there and breaks the node invariant at most at `k`'s parent.
   */
  lemma WriteLeaf<T(!new), F(!new)>(MM: MapMonoid<T, F>, data: seq<T>, lz: seq<F>, k: nat, y: T, d2: seq<T>)
    requires IsLawful(MM) && Consistent(MM, data, lz) && |lz| <= k < |data| && CleanFrom(MM, lz, k / 2)
    requires d2 == data[k := y]
    ensures Elements(MM, data, lz)[k - |lz|] == data[k]
    ensures Elements(MM, d2, lz) == Elements(MM, data, lz)[k - |lz| := y]
    ensures forall j :: 1 <= j < |lz| && j != k / 2 ==> LazyNodeOk(MM, d2, lz, j)
  {
    LiftClean(MM, lz, k / 2, data[k]);
    assert Elements(MM, data, lz)[k - |lz|] == Val(MM, data, lz, k);
    forall i | 0 <= i < |lz|
      ensures Elements(MM, d2, lz)[i] == Elements(MM, data, lz)[k - |lz| := y][i]
    {
      if |lz| + i == k {
        LiftClean(MM, lz, k / 2, y);
      } else {
        assert d2[|lz| + i] == data[|lz| + i];
      }
    }
    forall j | 1 <= j < |lz| && j != k / 2
      ensures LazyNodeOk(MM, d2, lz, j)
    {
      assert LazyNodeOk(MM, data, lz, j);
    }
  }

  /**
   * In the range loop, an odd left bound `l == ceil(L / 2^j)` has only
   * pending ancestors of `L` above it, so once those are clean its slot
   * holds its value.
   */
  lemma LeftBoundClean<T(!new), F(!new)>(MM: MapMonoid<T, F>, data: seq<T>, lz: seq<F>, h: nat, L: nat, l: nat, j: nat)
    requires IsLawful(MM) && |data| == 2 * |lz| && |lz| == Shl(1, h) && Shl(1, h) <= L < Shl(1, h + 1)
    requires PendingClean(MM, lz, L, L, 1, h + 1)
    requires l % 2 == 1 && l < |data| && Shl(l - 1, j) < L <= Shl(l, j)
    ensures CleanFrom(MM, lz, l / 2)
  {
    LeftStepIndex(L, l, j);
    PendingCleanFrom(MM, lz, h, L, L, j + 1);
  }

  /**
   * In the range loop, below an odd right bound `r == R >> j` the node
   * `r - 1` has only pending ancestors of `R - 1` above it, so once those
   * are clean its slot holds its value.
   */
  lemma RightBoundClean<T(!new), F(!new)>(MM: MapMonoid<T, F>, data: seq<T>, lz: seq<F>, h: nat, R: nat, r: nat, j: nat)
    requires IsLawful(MM) && |data| == 2 * |lz| && |lz| == Shl(1, h) && Shl(1, h) < R <= Shl(1, h + 1)
    requires PendingClean(MM, lz, R - 1, R, 1, h + 1)
    requires r % 2 == 1 && 2 <= r <= |data| && r == Shr(R, j)
    ensures CleanFrom(MM, lz, (r - 1) / 2)
  {
    RightStepIndex(R, j);
    PendingCleanFrom(MM, lz, h, R - 1, R, j + 1);
  }

  /** `l` is the left bound at height `j` of a range starting at leaf `L`: `l == ceil(L / 2^j)`. */
  ghost predicate LeftBound(L: nat, l: nat, j: nat)
    requires l >= 1
  {
    Shl(l - 1, j) < L <= Shl(l, j)
  }

  /**
   * The node values `v` and the slots `d` agree at every node the range
   * loop over `[L, R)` reads: each odd left bound `ceil(L / 2^j)` and the
   * node below each odd right bound `R >> j`.
   */
  ghost predicate BoundariesAgree<T>(v: seq<T>, d: seq<T>, L: nat, R: nat)
  {
    |v| == |d| &&
    (forall l, j :: 1 <= l < |d| && l % 2 == 1 && LeftBound(L, l, j) ==> v[l] == d[l]) &&
    (forall j :: 2 <= Shr(R, j) <= |d| && Shr(R, j) % 2 == 1 ==> v[Shr(R, j) - 1] == d[Shr(R, j) - 1])
  }

  /** Once the pending ancestors of `L` and `R - 1` are clean, the slots the range loop reads hold their values. */
  lemma BoundariesClean<T(!new), F(!new)>(MM: MapMonoid<T, F>, data: seq<T>, lz: seq<F>, h: nat, L: nat, R: nat, v: seq<T>)
    requires IsLawful(MM) && |data| == 2 * |lz| && |lz| == Shl(1, h) && Shl(1, h) <= L < R <= Shl(1, h + 1)
    requires PendingClean(MM, lz, L, L, 1, h + 1) && PendingClean(MM, lz, R - 1, R, 1, h + 1)
    requires |v| == |data| && forall x :: 1 <= x < |data| && CleanFrom(MM, lz, x / 2) ==> v[x] == data[x]
    ensures BoundariesAgree(v, data, L, R)
  {
    forall l, j | 1 <= l < |data| && l % 2 == 1 && LeftBound(L, l, j)
      ensures v[l] == data[l]
    {
      LeftBoundClean(MM, data, lz, h, L, l, j);
    }
    forall j | 2 <= Shr(R, j) <= |data| && Shr(R, j) % 2 == 1
      ensures v[Shr(R, j) - 1] == data[Shr(R, j) - 1]
    {
      RightBoundClean(MM, data, lz, h, R, Shr(R, j), j);
    }
  }
}
