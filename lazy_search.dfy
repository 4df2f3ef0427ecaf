/**
 * What the binary searches `max_right` and `min_left` of the lazy segment
 * tree compute, the lowest-set-bit test `x & -x` that ends their walks,
 * and the fact each walk reads: a node with nothing pending above it holds
 * the product of the elements under it.
 */
module LazySearch {
  import opened MathTraits
  import opened SegTree
  import opened LazyMaps
  import opened LazyIndex
  import opened LazyState

  /** `x & -x` on two's-complement integers: the lowest set bit of `x`, `0` for `0`. */
  function LowBit(x: nat): nat
  {
    if x == 0 then 0 else if x % 2 == 1 then 1 else 2 * LowBit(x / 2)
  }

  /** A power of two is its own lowest set bit. */
  lemma {:induction false} LowBitPower(k: nat)
    ensures LowBit(Shl(1, k)) == Shl(1, k)
  {
    ShlAtLeast(1, k);
    if k > 0 {
      LowBitPower(k - 1);
    }
  }

  /** Strictly between two consecutive powers of two, `x & -x != x`. */
  lemma {:induction false} LowBitBetween(x: nat, e: nat)
    requires Shl(1, e) < x < Shl(1, e + 1)
    ensures LowBit(x) != x
    decreases e
  {
    ShlAtLeast(1, e);
    if x % 2 == 0 {
      LowBitBetween(x / 2, e - 1);
    }
  }

  /** A node at height `j` covers the leaves `[x << j, (x + 1) << j)`, all inside the tree. */
  lemma NodeLeaves(x: nat, h: nat, j: nat)
    requires AtHeight(x, h, j)
    ensures 1 <= x < Shl(1, h + 1)
    ensures Shl(1, h) <= Shl(x, j) < Shl(x + 1, j) <= Shl(1, h + 1)
  {
    ShlAtLeast(1, h - j);
    ShlAtLeast(x, j);
    ShlMonotone(Shl(1, h - j), x, j);
    ShlMonotone(x + 1, Shl(1, h - j + 1), j);
    ShlMonotone(x, x + 1, j);
    ShlCompose(1, h - j, j);
    ShlCompose(1, h - j + 1, j);
    assert h - j + j == h && h - j + 1 + j == h + 1;
  }

  /** An even node is a left child: its parent lies one level up. */
  lemma HalfHeight(x: nat, h: nat, j: nat)
    requires AtHeight(x, h, j) && x % 2 == 0
    ensures j < h && AtHeight(x / 2, h, j + 1)
  {
    if j == h {
      assert false;
    }
    assert h - j == h - (j + 1) + 1;
  }

  /** A node at or past leaf `1 << h` lies at height `0`. */
  lemma LeafHeight(x: nat, h: nat, j: nat)
    requires AtHeight(x, h, j) && Shl(1, h) <= x
    ensures j == 0
  {
    if j > 0 {
      ShlGrows(1, h - j + 1, h);
      assert false;
    }
  }

  /**
   * In a consistent state, a node of height `j` with nothing pending above
   * it holds the product of the elements under it.
   */
  lemma NodeFold<T(!new), F(!new)>(MM: MapMonoid<T, F>, data: seq<T>, lz: seq<F>, E: seq<T>, h: nat, x: nat, j: nat)
    requires IsLawful(MM) && Consistent(MM, data, lz) && |lz| == Shl(1, h) && E == Elements(MM, data, lz)
    requires AtHeight(x, h, j) && CleanFrom(MM, lz, x / 2)
    ensures |E| <= Shl(x, j) < Shl(x + 1, j) <= 2 * |E| && 1 <= x < |data|
    ensures data[x] == Fold(MM.M, E[Shl(x, j) - |E|..Shl(x + 1, j) - |E|])
  {
    NodeLeaves(x, h, j);
    var v := NodeValues(MM, data, lz);
    NodeCovers(MM.M, v, |lz|, x, j);
    SliceOfSuffix(v, |lz|, Shl(x, j), Shl(x + 1, j));
  }

  /** A slice from `a` on is the same slice of the suffix from `n <= a`, shifted by `n`. */
  lemma SliceOfSuffix<T>(v: seq<T>, n: nat, a: nat, b: nat)
    requires n <= a <= b <= |v|
    ensures v[a..b] == v[n..][a - n..b - n]
  {
  }

  /** The product of `E[a..c]` splits at any `b` between. */
  lemma FoldSplit<T(!new)>(M: Monoid<T>, E: seq<T>, a: nat, b: nat, c: nat)
    requires IsMonoid(M) && a <= b <= c <= |E|
    ensures Fold(M, E[a..c]) == M.op(Fold(M, E[a..b]), Fold(M, E[b..c]))
  {
    assert E[a..c] == E[a..b] + E[b..c];
    FoldAppend(M, E[a..b], E[b..c]);
  }

  /** A run of identities adds nothing to a product. */
  lemma {:induction false} FoldIdentities<T(!new)>(M: Monoid<T>, E: seq<T>, a: nat, b: nat)
    requires IsMonoid(M) && a <= b <= |E|
    requires forall i :: a <= i < b ==> E[i] == M.id
    ensures Fold(M, E[a..b]) == M.id
    decreases b - a
  {
    if a < b {
      FoldIdentities(M, E, a, b - 1);
      assert E[a..b][..b - 1 - a] == E[a..b - 1];
    }
  }

  /** An identity at the end adds nothing to a product. */
  lemma FoldIdentityStep<T(!new)>(M: Monoid<T>, E: seq<T>, a: nat, b: nat)
    requires IsMonoid(M) && a <= b < |E| && E[b] == M.id
    ensures Fold(M, E[a..b + 1]) == Fold(M, E[a..b])
  {
    assert E[a..b + 1][..b - a] == E[a..b];
  }

  /**
   * `max_right(l0, g)` over the elements `E` of which the first `n` are
   * the user's: `n` when `l0 == n`; otherwise an `r` with `g` holding on
   * `E[l0..r]` and failing once `E[r]` is added, or `n` when `g` holds on
   * everything from `l0` on.
   */
  ghost predicate MaxRightResult<T>(M: Monoid<T>, E: seq<T>, l0: nat, n: nat, g: T -> bool, r: nat)
  {
    (l0 == n && r == n) ||
    FirstFailure(M, E, l0, g, r) ||
    (r == n && l0 <= |E| && g(Fold(M, E[l0..])))
  }

  /** `r` is where `g` first fails on the products of `E[l0..]`'s prefixes. */
  ghost predicate FirstFailure<T>(M: Monoid<T>, E: seq<T>, l0: nat, g: T -> bool, r: int)
  {
    l0 <= r < |E| && g(Fold(M, E[l0..r])) && !g(Fold(M, E[l0..r + 1]))
  }

  /**
   * `min_left(r0, g)`: `0` when `r0 == 0`; otherwise an `l` with `g`
   * holding on `E[l..r0]` and failing once `E[l - 1]` is added, or `0` when
   * `g` holds on everything before `r0`.
   */
  ghost predicate MinLeftResult<T>(M: Monoid<T>, E: seq<T>, r0: nat, g: T -> bool, l: nat)
  {
    (r0 == 0 && l == 0) ||
    LastFailure(M, E, r0, g, l) ||
    (l == 0 && r0 <= |E| && g(Fold(M, E[..r0])))
  }

  /** `l` is where `g` first fails on the products of `E[..r0]`'s suffixes, going left. */
  ghost predicate LastFailure<T>(M: Monoid<T>, E: seq<T>, r0: nat, g: T -> bool, l: int)
  {
    0 < l <= r0 <= |E| && g(Fold(M, E[l..r0])) && !g(Fold(M, E[l - 1..r0]))
  }

  /**
   * When `g(id)` holds, `g` only fails more as the range grows, and the
   * padding past `n` is identities, the answer of `max_right` is the
   * largest `r <= n` with `g` holding on `E[l0..r]`.
   */
  lemma MaxRightIsMax<T(!new)>(M: Monoid<T>, E: seq<T>, l0: nat, n: nat, g: T -> bool, r: nat)
    requires IsMonoid(M) && l0 <= n <= |E| && g(M.id) && MaxRightResult(M, E, l0, n, g, r)
    requires forall i :: n <= i < |E| ==> E[i] == M.id
    requires forall a: nat, b: nat :: l0 <= a <= b <= n && g(Fold(M, E[l0..b])) ==> g(Fold(M, E[l0..a]))
    ensures l0 <= r <= n && g(Fold(M, E[l0..r]))
    ensures forall b: nat :: r < b <= n ==> !g(Fold(M, E[l0..b]))
  {
    if l0 == n && r == n {
    } else if FirstFailure(M, E, l0, g, r) {
      if r >= n {
        FoldIdentityStep(M, E, l0, r);
        assert false;
      }
    } else {
      assert E[l0..] == E[l0..|E|];
      FoldSplit(M, E, l0, n, |E|);
      FoldIdentities(M, E, n, |E|);
    }
  }

  /**
   * When `g(id)` holds and `g` only fails more as the range grows, the
   * answer of `min_left` is the smallest `l <= r0` with `g` holding on
   * `E[l..r0]`.
   */
  lemma MinLeftIsMin<T(!new)>(M: Monoid<T>, E: seq<T>, r0: nat, g: T -> bool, l: nat)
    requires IsMonoid(M) && r0 <= |E| && g(M.id) && MinLeftResult(M, E, r0, g, l)
    requires forall a: nat, b: nat :: a <= b <= r0 && g(Fold(M, E[a..r0])) ==> g(Fold(M, E[b..r0]))
    ensures l <= r0 && g(Fold(M, E[l..r0]))
    ensures forall a: nat :: a < l ==> !g(Fold(M, E[a..r0]))
  {
    if l == 0 && r0 <= |E| && g(Fold(M, E[..r0])) {
      assert E[..r0] == E[0..r0];
    }
  }

  /**
   * When `g` holds on everything, `min_left(r0, g)` for `1 <= r0 <= n` is
   * `0`, and `n` is not an answer.
   */
  lemma MinLeftAllHold<T>(M: Monoid<T>, E: seq<T>, r0: nat, n: nat, g: T -> bool)
    requires 1 <= r0 <= n <= |E| && forall v :: g(v)
    ensures MinLeftResult(M, E, r0, g, 0) && !MinLeftResult(M, E, r0, g, n)
  {
  }

  /**
   * The descent of `max_right` at node `x` of height `i`: `m` is the
   * product of `E[l0..]` up to the node's leaves, `g` holds on it and fails
   * once the node's leaves are added.
   */
  ghost predicate RightDescent<T>(M: Monoid<T>, E: seq<T>, h: nat, l0: nat, g: T -> bool, x: nat, i: nat, m: T)
  {
    |E| == Shl(1, h) && AtHeight(x, h, i) && l0 + |E| <= Shl(x, i) < Shl(x + 1, i) <= 2 * |E| &&
    m == Fold(M, E[l0..Shl(x, i) - |E|]) && g(m) && !g(Fold(M, E[l0..Shl(x + 1, i) - |E|]))
  }

  /** The leaves of the children of node `x`, at height `i >= 1`, split the node's leaves. */
  lemma ChildLeaves(x: nat, h: nat, i: nat)
    requires AtHeight(x, h, i) && i >= 1
    ensures AtHeight(2 * x, h, i - 1) && AtHeight(2 * x + 1, h, i - 1)
    ensures Shl(2 * x, i - 1) == Shl(x, i) && Shl(2 * x + 2, i - 1) == Shl(x + 1, i)
    ensures Shl(2 * x, i - 1) < Shl(2 * x + 1, i - 1) < Shl(2 * x + 2, i - 1)
  {
    ChildHeight(x, h, i);
    ShlDouble(x, i - 1);
    ShlDouble(x + 1, i - 1);
    assert 2 * x + 2 == 2 * (x + 1);
    ShlMonotone(2 * x, 2 * x + 1, i - 1);
    ShlMonotone(2 * x + 1, 2 * x + 2, i - 1);
  }

  /**
   * One step of that descent, with `d` the product of the left child's
   * leaves: when `g` holds on `op(m, d)` the descent goes on at the right
   * child with `op(m, d)`.
   */
  lemma RightDescentTake<T(!new)>(M: Monoid<T>, E: seq<T>, h: nat, l0: nat, g: T -> bool, x: nat, i: nat, m: T, d: T)
    requires IsMonoid(M) && RightDescent(M, E, h, l0, g, x, i, m) && i >= 1
    requires |E| <= Shl(2 * x, i - 1) < Shl(2 * x + 1, i - 1) <= 2 * |E|
    requires d == Fold(M, E[Shl(2 * x, i - 1) - |E|..Shl(2 * x + 1, i - 1) - |E|]) && g(M.op(m, d))
    ensures RightDescent(M, E, h, l0, g, 2 * x + 1, i - 1, M.op(m, d))
  {
    ChildLeaves(x, h, i);
    assert 2 * x + 1 + 1 == 2 * x + 2;
    FoldSplit(M, E, l0, Shl(x, i) - |E|, Shl(2 * x + 1, i - 1) - |E|);
  }

  /** Otherwise the descent goes on at the left child with `m`. */
  lemma RightDescentSkip<T(!new)>(M: Monoid<T>, E: seq<T>, h: nat, l0: nat, g: T -> bool, x: nat, i: nat, m: T, d: T)
    requires IsMonoid(M) && RightDescent(M, E, h, l0, g, x, i, m) && i >= 1
    requires |E| <= Shl(2 * x, i - 1) < Shl(2 * x + 1, i - 1) <= 2 * |E|
    requires d == Fold(M, E[Shl(2 * x, i - 1) - |E|..Shl(2 * x + 1, i - 1) - |E|]) && !g(M.op(m, d))
    ensures RightDescent(M, E, h, l0, g, 2 * x, i - 1, m)
  {
    ChildLeaves(x, h, i);
    FoldSplit(M, E, l0, Shl(x, i) - |E|, Shl(2 * x + 1, i - 1) - |E|);
  }

  /** A node below the leaves is an inner node: its height is at least one. */
  lemma InnerHeight(x: nat, h: nat, i: nat)
    requires AtHeight(x, h, i) && x < Shl(1, h)
    ensures i >= 1
  {
  }

  /**
   * A child `c` of an inner node `x` of height `k + 1`, below clean
   * ancestors, holds the product of its leaves.
   */
  lemma ChildFold<T(!new), F(!new)>(MM: MapMonoid<T, F>, data: seq<T>, lz: seq<F>, E: seq<T>, h: nat, x: nat, c: nat, k: nat)
    requires IsLawful(MM) && Consistent(MM, data, lz) && |lz| == Shl(1, h) && E == Elements(MM, data, lz)
    requires AtHeight(x, h, k + 1) && CleanFrom(MM, lz, x) && (c == 2 * x || c == 2 * x + 1)
    ensures |E| <= Shl(c, k) < Shl(c + 1, k) <= 2 * |E| && 1 <= c < |data|
    ensures data[c] == Fold(MM.M, E[Shl(c, k) - |E|..Shl(c + 1, k) - |E|])
  {
    ChildHeight(x, h, k + 1);
    assert c / 2 == x;
    NodeFold(MM, data, lz, E, h, c, k);
  }

  /**
   * The step of the descent of `max_right` on a pushed node `x`: its left
   * child's value is the product of that child's leaves.
   */
  method RightChildStep<T(!new), F(!new)>(MM: MapMonoid<T, F>, data: seq<T>, lz: seq<F>, ghost E: seq<T>, ghost h: nat,
                                          l0: nat, g: T -> bool, x: nat, ghost i: nat, m: T) returns (x2: nat, m2: T)
    requires IsLawful(MM) && Consistent(MM, data, lz) && |lz| == Shl(1, h) && E == Elements(MM, data, lz)
    requires RightDescent(MM.M, E, h, l0, g, x, i, m) && x < |lz| && CleanFrom(MM, lz, x)
    ensures i >= 1 && x2 / 2 == x && RightDescent(MM.M, E, h, l0, g, x2, i - 1, m2)
  {
    InnerHeight(x, h, i);
    ChildFold(MM, data, lz, E, h, x, 2 * x, i - 1);
    x2, m2 := RightDescendChild(MM.M, E, h, l0, g, x, i, m, data[2 * x]);
  }

  /**
   * One step of the descent of `max_right`, with `d` the product of the
   * left child's leaves: on to the right child with `op(m, d)` when `g`
   * holds on it, to the left child with `m` otherwise.
   */
  method RightDescendChild<T(!new)>(M: Monoid<T>, ghost E: seq<T>, ghost h: nat, l0: nat, g: T -> bool,
                                    x: nat, ghost i: nat, m: T, d: T) returns (x2: nat, m2: T)
    requires IsMonoid(M) && RightDescent(M, E, h, l0, g, x, i, m) && i >= 1
    requires |E| <= Shl(2 * x, i - 1) < Shl(2 * x + 1, i - 1) <= 2 * |E|
    requires d == Fold(M, E[Shl(2 * x, i - 1) - |E|..Shl(2 * x + 1, i - 1) - |E|])
    ensures x2 / 2 == x && RightDescent(M, E, h, l0, g, x2, i - 1, m2)
  {
    var res := M.op(m, d);
    if g(res) {
      RightDescentTake(M, E, h, l0, g, x, i, m, d);
      x2, m2 := 2 * x + 1, res;
    } else {
      RightDescentSkip(M, E, h, l0, g, x, i, m, d);
      x2, m2 := 2 * x, m;
    }
  }

  /** At a leaf the descent has found where `g` first fails. */
  lemma RightDescentLeaf<T>(M: Monoid<T>, E: seq<T>, h: nat, l0: nat, g: T -> bool, x: nat, i: nat, m: T, r: int)
    requires RightDescent(M, E, h, l0, g, x, i, m) && Shl(1, h) <= x && r == x - |E|
    ensures i == 0 && FirstFailure(M, E, l0, g, r)
  {
    LeafHeight(x, h, i);
  }

  /**
   * The walk of `max_right` from leaf `L == l0 + |E|` at node `l` of
   * height `j`: `l` is `L >> j` or the right neighbour of a node whose
   * parent is `L >> (j + 1)`, and `mv`, on which `g` holds, is the product
   * of `E[l0..]` up to the node's leaves.
   */
  ghost predicate RightWalk<T>(M: Monoid<T>, E: seq<T>, h: nat, L: nat, l0: nat, g: T -> bool, l: nat, j: nat, mv: T)
  {
    |E| == Shl(1, h) && L == l0 + |E| && AtHeight(l, h, j) &&
    (l == Shr(L, j) || (l - 1) / 2 == Shr(L, j + 1)) &&
    L <= Shl(l, j) <= 2 * |E| && mv == Fold(M, E[l0..Shl(l, j) - |E|]) && g(mv)
  }

  /** `while l % 2 == 0 { l >>= 1 }`: an even node gives way to its parent, which starts at the same leaf. */
  lemma RightWalkHalve<T>(M: Monoid<T>, E: seq<T>, h: nat, L: nat, l0: nat, g: T -> bool, l: nat, j: nat, mv: T)
    requires RightWalk(M, E, h, L, l0, g, l, j, mv) && l % 2 == 0
    ensures RightWalk(M, E, h, L, l0, g, l / 2, j + 1, mv) && Shl(l / 2, j + 1) == Shl(l, j)
  {
    HalfHeight(l, h, j);
    ShlDouble(l / 2, j);
    assert Shr(L, j + 2) == Shr(L, j + 1) / 2;
  }

  /** `while l % 2 == 0 { l >>= 1 }`: the walk climbs to the highest node starting at the same leaf. */
  method RightWalkClimb<T>(M: Monoid<T>, ghost E: seq<T>, ghost h: nat, ghost L: nat, ghost l0: nat, g: T -> bool,
                           l: nat, ghost j: nat, ghost mv: T) returns (l2: nat, ghost j2: nat)
    requires RightWalk(M, E, h, L, l0, g, l, j, mv)
    ensures RightWalk(M, E, h, L, l0, g, l2, j2, mv) && l2 % 2 == 1 && Shl(l2, j2) == Shl(l, j)
  {
    l2, j2 := l, j;
    while l2 % 2 == 0
      invariant RightWalk(M, E, h, L, l0, g, l2, j2, mv) && Shl(l2, j2) == Shl(l, j)
      decreases l2
    {
      RightWalkHalve(M, E, h, L, l0, g, l2, j2, mv);
      l2, j2 := l2 / 2, j2 + 1;
    }
  }

  /**
   * One node of the walk, `d` being the node's product: when `g` fails
   * once it is folded in the descent starts there; otherwise the walk moves
   * on to `l + 1`, or stops when `l + 1` is a power of two (`l & -l == l`),
   * having passed the right end.
   */
  method RightWalkStep<T(!new)>(M: Monoid<T>, ghost E: seq<T>, ghost h: nat, ghost L: nat, ghost l0: nat, g: T -> bool,
                                l: nat, ghost j: nat, mv: T, d: T) returns (stop: bool, found: bool, l2: nat, mv2: T)
    requires IsMonoid(M) && RightWalk(M, E, h, L, l0, g, l, j, mv) && l % 2 == 1
    requires Shl(l, j) < Shl(l + 1, j) <= 2 * |E| && d == Fold(M, E[Shl(l, j) - |E|..Shl(l + 1, j) - |E|])
    ensures !stop ==> RightWalk(M, E, h, L, l0, g, l2, j, mv2) && Shl(l, j) < Shl(l2, j)
    ensures stop && found ==> l2 == l && RightDescent(M, E, h, l0, g, l2, j, mv2)
    ensures stop && !found ==> g(Fold(M, E[l0..]))
  {
    if !g(M.op(mv, d)) {
      RightWalkFound(M, E, h, L, l0, g, l, j, mv, d);
      return true, true, l, mv;
    }
    if LowBit(l + 1) == l + 1 {
      RightWalkEnd(M, E, h, L, l0, g, l, j, mv, d);
      return true, false, l + 1, M.op(mv, d);
    }
    RightWalkNext(M, E, h, L, l0, g, l, j, mv, d);
    return false, false, l + 1, M.op(mv, d);
  }

  /** The odd node the walk reads lies inside the tree, below the ancestor `L >> (j + 1)`. */
  lemma RightWalkNode<T>(M: Monoid<T>, E: seq<T>, h: nat, L: nat, l0: nat, g: T -> bool, l: nat, j: nat, mv: T)
    requires RightWalk(M, E, h, L, l0, g, l, j, mv) && l % 2 == 1
    ensures l / 2 == Shr(L, j + 1)
    ensures L <= Shl(l, j) < Shl(l + 1, j) <= 2 * |E|
  {
    NodeLeaves(l, h, j);
  }

  /** When `g` fails once node `l` is folded in, the descent starts at `l`. */
  lemma RightWalkFound<T(!new)>(M: Monoid<T>, E: seq<T>, h: nat, L: nat, l0: nat, g: T -> bool, l: nat, j: nat, mv: T, d: T)
    requires IsMonoid(M) && RightWalk(M, E, h, L, l0, g, l, j, mv) && l % 2 == 1
    requires Shl(l, j) < Shl(l + 1, j) <= 2 * |E|
    requires d == Fold(M, E[Shl(l, j) - |E|..Shl(l + 1, j) - |E|]) && !g(M.op(mv, d))
    ensures RightDescent(M, E, h, l0, g, l, j, mv)
  {
    FoldSplit(M, E, l0, Shl(l, j) - |E|, Shl(l + 1, j) - |E|);
  }

  /**
   * When `g` still holds, node `l` is folded in and the walk moves on to
   * `l + 1`, unless `l + 1` is a power of two.
   */
  lemma RightWalkNext<T(!new)>(M: Monoid<T>, E: seq<T>, h: nat, L: nat, l0: nat, g: T -> bool, l: nat, j: nat, mv: T, d: T)
    requires IsMonoid(M) && RightWalk(M, E, h, L, l0, g, l, j, mv) && l % 2 == 1
    requires Shl(l, j) < Shl(l + 1, j) <= 2 * |E|
    requires d == Fold(M, E[Shl(l, j) - |E|..Shl(l + 1, j) - |E|]) && g(M.op(mv, d))
    requires LowBit(l + 1) != l + 1
    ensures RightWalk(M, E, h, L, l0, g, l + 1, j, M.op(mv, d))
  {
    FoldSplit(M, E, l0, Shl(l, j) - |E|, Shl(l + 1, j) - |E|);
    RightWalkNode(M, E, h, L, l0, g, l, j, mv);
    NextAtHeight(l, h, j);
    assert (l + 1 - 1) / 2 == l / 2;
  }

  /** Unless `l + 1` is a power of two, it lies at the same height as `l`. */
  lemma NextAtHeight(l: nat, h: nat, j: nat)
    requires AtHeight(l, h, j) && LowBit(l + 1) != l + 1
    ensures AtHeight(l + 1, h, j)
  {
    if l + 1 == Shl(1, h - j + 1) {
      LowBitPower(h - j + 1);
      assert false;
    }
  }

  /** A node `l` with `l + 1` a power of two is the last at its height: its leaves end the tree. */
  lemma LastAtHeight(l: nat, h: nat, j: nat)
    requires AtHeight(l, h, j) && LowBit(l + 1) == l + 1
    ensures Shl(l + 1, j) == 2 * Shl(1, h)
  {
    if l + 1 < Shl(1, h - j + 1) {
      LowBitBetween(l + 1, h - j);
      assert false;
    }
    ShlCompose(1, h - j + 1, j);
    assert h - j + 1 + j == h + 1;
  }

  /**
   * When `l + 1` is a power of two the walk has run off the right end, and
   * `g` holds on everything from `l0` on.
   */
  lemma RightWalkEnd<T(!new)>(M: Monoid<T>, E: seq<T>, h: nat, L: nat, l0: nat, g: T -> bool, l: nat, j: nat, mv: T, d: T)
    requires IsMonoid(M) && RightWalk(M, E, h, L, l0, g, l, j, mv) && l % 2 == 1
    requires Shl(l, j) < Shl(l + 1, j) <= 2 * |E|
    requires d == Fold(M, E[Shl(l, j) - |E|..Shl(l + 1, j) - |E|]) && g(M.op(mv, d))
    requires LowBit(l + 1) == l + 1
    ensures g(Fold(M, E[l0..]))
  {
    LastAtHeight(l, h, j);
    FoldSplit(M, E, l0, Shl(l, j) - |E|, |E|);
    assert E[l0..] == E[l0..|E|];
  }

  /**
   * The descent of `min_left` at node `x` of height `i`: `m` is the
   * product of `E[..r0]` from the node's leaves on, `g` holds on it and
   * fails once the node's leaves are added.
   */
  ghost predicate LeftDescent<T>(M: Monoid<T>, E: seq<T>, h: nat, r0: nat, g: T -> bool, x: nat, i: nat, m: T)
  {
    |E| == Shl(1, h) && r0 <= |E| && AtHeight(x, h, i) && |E| <= Shl(x, i) < Shl(x + 1, i) <= r0 + |E| &&
    m == Fold(M, E[Shl(x + 1, i) - |E|..r0]) && g(m) && !g(Fold(M, E[Shl(x, i) - |E|..r0]))
  }

  /**
   * One step of that descent, with `d` the product of the right child's
   * leaves: when `g` holds on `op(d, m)` the descent goes on at the left
   * child with `op(d, m)`.
   */
  lemma LeftDescentTake<T(!new)>(M: Monoid<T>, E: seq<T>, h: nat, r0: nat, g: T -> bool, x: nat, i: nat, m: T, d: T)
    requires IsMonoid(M) && LeftDescent(M, E, h, r0, g, x, i, m) && i >= 1
    requires |E| <= Shl(2 * x + 1, i - 1) < Shl(2 * x + 2, i - 1) <= 2 * |E|
    requires d == Fold(M, E[Shl(2 * x + 1, i - 1) - |E|..Shl(2 * x + 2, i - 1) - |E|]) && g(M.op(d, m))
    ensures LeftDescent(M, E, h, r0, g, 2 * x, i - 1, M.op(d, m))
  {
    ChildLeaves(x, h, i);
    FoldSplit(M, E, Shl(2 * x + 1, i - 1) - |E|, Shl(x + 1, i) - |E|, r0);
  }

  /** Otherwise the descent goes on at the right child with `m`. */
  lemma LeftDescentSkip<T(!new)>(M: Monoid<T>, E: seq<T>, h: nat, r0: nat, g: T -> bool, x: nat, i: nat, m: T, d: T)
    requires IsMonoid(M) && LeftDescent(M, E, h, r0, g, x, i, m) && i >= 1
    requires |E| <= Shl(2 * x + 1, i - 1) < Shl(2 * x + 2, i - 1) <= 2 * |E|
    requires d == Fold(M, E[Shl(2 * x + 1, i - 1) - |E|..Shl(2 * x + 2, i - 1) - |E|]) && !g(M.op(d, m))
    ensures LeftDescent(M, E, h, r0, g, 2 * x + 1, i - 1, m)
  {
    ChildLeaves(x, h, i);
    assert 2 * x + 1 + 1 == 2 * x + 2;
    FoldSplit(M, E, Shl(2 * x + 1, i - 1) - |E|, Shl(x + 1, i) - |E|, r0);
  }

  /**
   * The step of the descent of `min_left` on a pushed node `x`: its right
   * child's value is the product of that child's leaves.
   */
  method LeftChildStep<T(!new), F(!new)>(MM: MapMonoid<T, F>, data: seq<T>, lz: seq<F>, ghost E: seq<T>, ghost h: nat,
                                         r0: nat, g: T -> bool, x: nat, ghost i: nat, m: T) returns (x2: nat, m2: T)
    requires IsLawful(MM) && Consistent(MM, data, lz) && |lz| == Shl(1, h) && E == Elements(MM, data, lz)
    requires LeftDescent(MM.M, E, h, r0, g, x, i, m) && x < |lz| && CleanFrom(MM, lz, x)
    ensures i >= 1 && x2 / 2 == x && LeftDescent(MM.M, E, h, r0, g, x2, i - 1, m2)
  {
    InnerHeight(x, h, i);
    ChildFold(MM, data, lz, E, h, x, 2 * x + 1, i - 1);
    assert 2 * x + 1 + 1 == 2 * x + 2;
    x2, m2 := LeftDescendChild(MM.M, E, h, r0, g, x, i, m, data[2 * x + 1]);
  }

  /**
   * One step of the descent of `min_left`, with `d` the product of the
   * right child's leaves: on to the left child with `op(d, m)` when `g`
   * holds on it, to the right child with `m` otherwise.
   */
  method LeftDescendChild<T(!new)>(M: Monoid<T>, ghost E: seq<T>, ghost h: nat, r0: nat, g: T -> bool,
                                   x: nat, ghost i: nat, m: T, d: T) returns (x2: nat, m2: T)
    requires IsMonoid(M) && LeftDescent(M, E, h, r0, g, x, i, m) && i >= 1
    requires |E| <= Shl(2 * x + 1, i - 1) < Shl(2 * x + 2, i - 1) <= 2 * |E|
    requires d == Fold(M, E[Shl(2 * x + 1, i - 1) - |E|..Shl(2 * x + 2, i - 1) - |E|])
    ensures x2 / 2 == x && LeftDescent(M, E, h, r0, g, x2, i - 1, m2)
  {
    x2 := 2 * x + 1;
    var res := M.op(d, m);
    if g(res) {
      LeftDescentTake(M, E, h, r0, g, x, i, m, d);
      x2, m2 := x2 - 1, res;
      assert x2 == 2 * x && x2 / 2 == x;
    } else {
      LeftDescentSkip(M, E, h, r0, g, x, i, m, d);
      m2 := m;
      assert x2 / 2 == x;
    }
  }

  /** At a leaf the descent has found where `g` first fails, and `min_left` answers `x + 1 - |E|`. */
  lemma LeftDescentLeaf<T>(M: Monoid<T>, E: seq<T>, h: nat, r0: nat, g: T -> bool, x: nat, i: nat, m: T, l: int)
    requires LeftDescent(M, E, h, r0, g, x, i, m) && Shl(1, h) <= x && l == x + 1 - |E|
    ensures i == 0 && LastFailure(M, E, r0, g, l)
  {
    LeafHeight(x, h, i);
  }

  /**
   * The walk of `min_left` towards leaf `0` from `R == r0 + |E|`, at node
   * `x` of height `j`, the next one to fold in: `x` is `(R - 1) >> j` or
   * the left neighbour of a node whose parent is `(R - 1) >> (j + 1)`, and
   * `mv`, on which `g` holds, is the product of `E[..r0]` from the node's
   * right end on.
   */
  ghost predicate LeftWalk<T>(M: Monoid<T>, E: seq<T>, h: nat, R: nat, r0: nat, g: T -> bool, x: nat, j: nat, mv: T)
  {
    |E| == Shl(1, h) && R == r0 + |E| && 1 <= r0 <= |E| && AtHeight(x, h, j) &&
    (x == Shr(R - 1, j) || (x + 1) / 2 == Shr(R - 1, j + 1)) &&
    |E| <= Shl(x, j) < Shl(x + 1, j) <= R && mv == Fold(M, E[Shl(x + 1, j) - |E|..r0]) && g(mv)
  }

  /** A node above the leaves has its parent one level up. */
  lemma ParentHeight(x: nat, h: nat, j: nat)
    requires AtHeight(x, h, j) && x >= 2
    ensures j < h && AtHeight(x / 2, h, j + 1)
  {
    if j == h {
      assert false;
    }
    assert h - j == h - (j + 1) + 1;
  }

  /**
   * `while r > 1 && r % 2 == 1 { r >>= 1 }`: a right child gives way to
   * its parent, which ends at the same leaf.
   */
  lemma LeftWalkHalve<T>(M: Monoid<T>, E: seq<T>, h: nat, R: nat, r0: nat, g: T -> bool, x: nat, j: nat, mv: T)
    requires LeftWalk(M, E, h, R, r0, g, x, j, mv) && x > 1 && x % 2 == 1
    ensures LeftWalk(M, E, h, R, r0, g, x / 2, j + 1, mv) && Shl(x / 2 + 1, j + 1) == Shl(x + 1, j)
  {
    ParentHeight(x, h, j);
    NodeLeaves(x / 2, h, j + 1);
    assert x + 1 == 2 * (x / 2 + 1);
    ShlDouble(x / 2 + 1, j);
    assert Shr(R - 1, j + 2) == Shr(R - 1, j + 1) / 2;
  }

  /** The climb: the walk moves up to the highest node ending at the same leaf. */
  method LeftWalkClimb<T>(M: Monoid<T>, ghost E: seq<T>, ghost h: nat, ghost R: nat, ghost r0: nat, g: T -> bool,
                          x: nat, ghost j: nat, ghost mv: T) returns (x2: nat, ghost j2: nat)
    requires LeftWalk(M, E, h, R, r0, g, x, j, mv)
    ensures LeftWalk(M, E, h, R, r0, g, x2, j2, mv) && (x2 == 1 || x2 % 2 == 0) && Shl(x2 + 1, j2) == Shl(x + 1, j)
  {
    x2, j2 := x, j;
    while x2 > 1 && x2 % 2 == 1
      invariant LeftWalk(M, E, h, R, r0, g, x2, j2, mv) && Shl(x2 + 1, j2) == Shl(x + 1, j)
      decreases x2
    {
      LeftWalkHalve(M, E, h, R, r0, g, x2, j2, mv);
      x2, j2 := x2 / 2, j2 + 1;
    }
  }

  /** The node the walk reads lies inside `[0, r0)`, below the root or the ancestor `(R - 1) >> (j + 1)`. */
  lemma LeftWalkNode<T>(M: Monoid<T>, E: seq<T>, h: nat, R: nat, r0: nat, g: T -> bool, x: nat, j: nat, mv: T)
    requires LeftWalk(M, E, h, R, r0, g, x, j, mv) && (x == 1 || x % 2 == 0)
    ensures x / 2 == 0 || x / 2 == Shr(R - 1, j + 1)
    ensures |E| <= Shl(x, j) < Shl(x + 1, j) <= R
  {
    NodeLeaves(x, h, j);
  }

  /** When `g` fails once node `x` is folded in, the descent starts at `x`. */
  lemma LeftWalkFound<T(!new)>(M: Monoid<T>, E: seq<T>, h: nat, R: nat, r0: nat, g: T -> bool, x: nat, j: nat, mv: T, d: T)
    requires IsMonoid(M) && LeftWalk(M, E, h, R, r0, g, x, j, mv)
    requires |E| <= Shl(x, j) < Shl(x + 1, j) <= R
    requires d == Fold(M, E[Shl(x, j) - |E|..Shl(x + 1, j) - |E|]) && !g(M.op(d, mv))
    ensures LeftDescent(M, E, h, r0, g, x, j, mv)
  {
    FoldSplit(M, E, Shl(x, j) - |E|, Shl(x + 1, j) - |E|, r0);
  }

  /**
   * When `g` still holds, node `x` is folded in and the walk moves on to
   * `x - 1`, unless `x` is a power of two.
   */
  lemma LeftWalkNext<T(!new)>(M: Monoid<T>, E: seq<T>, h: nat, R: nat, r0: nat, g: T -> bool, x: nat, j: nat, mv: T, d: T)
    requires IsMonoid(M) && LeftWalk(M, E, h, R, r0, g, x, j, mv) && (x == 1 || x % 2 == 0)
    requires |E| <= Shl(x, j) < Shl(x + 1, j) <= R
    requires d == Fold(M, E[Shl(x, j) - |E|..Shl(x + 1, j) - |E|]) && g(M.op(d, mv))
    requires LowBit(x) != x
    ensures x >= 2 && LeftWalk(M, E, h, R, r0, g, x - 1, j, M.op(d, mv))
  {
    FoldSplit(M, E, Shl(x, j) - |E|, Shl(x + 1, j) - |E|, r0);
    LeftWalkNode(M, E, h, R, r0, g, x, j, mv);
    PrevAtHeight(x, h, j);
  }

  /** Unless `x` is a power of two, `x - 1` lies at the same height as `x`, its leaves just before. */
  lemma PrevAtHeight(x: nat, h: nat, j: nat)
    requires AtHeight(x, h, j) && LowBit(x) != x
    ensures x >= 2 && AtHeight(x - 1, h, j)
    ensures Shl(1, h) <= Shl(x - 1, j) < Shl(x - 1 + 1, j) == Shl(x, j)
  {
    if x == Shl(1, h - j) {
      LowBitPower(h - j);
      assert false;
    }
    NodeLeaves(x - 1, h, j);
    assert x - 1 + 1 == x;
  }

  /**
   * When `x` is a power of two the walk has reached the left end, and `g`
   * holds on everything before `r0`.
   */
  lemma LeftWalkEnd<T(!new)>(M: Monoid<T>, E: seq<T>, h: nat, R: nat, r0: nat, g: T -> bool, x: nat, j: nat, mv: T, d: T)
    requires IsMonoid(M) && LeftWalk(M, E, h, R, r0, g, x, j, mv)
    requires |E| <= Shl(x, j) < Shl(x + 1, j) <= R
    requires d == Fold(M, E[Shl(x, j) - |E|..Shl(x + 1, j) - |E|]) && g(M.op(d, mv))
    requires LowBit(x) == x
    ensures g(Fold(M, E[..r0]))
  {
    if x > Shl(1, h - j) {
      LowBitBetween(x, h - j);
      assert false;
    }
    ShlCompose(1, h - j, j);
    assert h - j + j == h;
    FoldSplit(M, E, 0, Shl(x + 1, j) - |E|, r0);
    assert E[..r0] == E[0..r0];
  }

  /**
   * One node of the walk of `min_left`, `d` being the node's product: when
   * `g` fails once it is folded in the descent starts there; otherwise the
   * walk stops when `x` is a power of two (`x & -x == x`), having reached
   * the left end, and moves on to `x - 1` when not.
   */
  method LeftWalkStep<T(!new)>(M: Monoid<T>, ghost E: seq<T>, ghost h: nat, ghost R: nat, ghost r0: nat, g: T -> bool,
                               x: nat, ghost j: nat, mv: T, d: T) returns (stop: bool, found: bool, x2: nat, mv2: T)
    requires IsMonoid(M) && LeftWalk(M, E, h, R, r0, g, x, j, mv) && (x == 1 || x % 2 == 0)
    requires |E| <= Shl(x, j) < Shl(x + 1, j) <= R && d == Fold(M, E[Shl(x, j) - |E|..Shl(x + 1, j) - |E|])
    ensures !stop ==> LeftWalk(M, E, h, R, r0, g, x2, j, mv2) && Shl(x2 + 1, j) < Shl(x + 1, j)
    ensures stop && found ==> x2 == x && LeftDescent(M, E, h, r0, g, x2, j, mv2)
    ensures stop && !found ==> g(Fold(M, E[..r0]))
  {
    if !g(M.op(d, mv)) {
      LeftWalkFound(M, E, h, R, r0, g, x, j, mv, d);
      return true, true, x, mv;
    }
    if LowBit(x) == x {
      LeftWalkEnd(M, E, h, R, r0, g, x, j, mv, d);
      return true, false, x, M.op(d, mv);
    }
    LeftWalkNext(M, E, h, R, r0, g, x, j, mv, d);
    return false, false, x - 1, M.op(d, mv);
  }
}
