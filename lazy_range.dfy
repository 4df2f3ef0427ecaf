/**
 * The state between the three loops of `apply_range_inner` on the leaves
 * `[L, R)`: which inner nodes may break the node invariant (the "pending"
 * boundary nodes, which the last loop recomputes), which elements have been
 * mapped so far, and one lemma per loop step.
 */
module LazyRange {
  import opened MathTraits
  import opened SegTree
  import opened LazyMaps
  import opened LazyIndex
  import opened LazyState

  /** `e` with `f` applied to each element of `[lo, hi)`. */
  function MapRange<T, F>(MM: MapMonoid<T, F>, e: seq<T>, f: F, lo: int, hi: int): (e2: seq<T>)
    ensures |e2| == |e|
    ensures forall i :: 0 <= i < |e| ==> e2[i] == if lo <= i < hi then MM.apply(f, e[i]) else e[i]
  {
    seq(|e|, i requires 0 <= i < |e| => if lo <= i < hi then MM.apply(f, e[i]) else e[i])
  }

  /**
   * Node `k` is a boundary node above height `iL` on the left, that is
   * `L >> t` for a height `t > iL` at which `L` is not aligned, or above
   * height `iR` on the right, `(R - 1) >> t` for a `t > iR` at which `R` is
   * not aligned.
   */
  ghost predicate Pending(h: nat, L: nat, R: nat, k: nat, iL: nat, iR: nat)
  {
    1 <= k && 1 <= R && Log2(k) <= h &&
    var t := h - Log2(k);
    (iL < t && Unaligned(L, t) && Shr(L, t) == k) || (iR < t && Unaligned(R, t) && Shr(R - 1, t) == k)
  }

  /** The node invariant holds at every inner node but the boundary nodes above `iL` and `iR`. */
  ghost predicate OkExcept<T, F>(MM: MapMonoid<T, F>, data: seq<T>, lz: seq<F>, h: nat, L: nat, R: nat, iL: nat, iR: nat)
  {
    |lz| >= 1 && |data| == 2 * |lz| && lz[0] == MM.mapId &&
    forall k :: 1 <= k < |lz| && !Pending(h, L, R, k, iL, iR) ==> LazyNodeOk(MM, data, lz, k)
  }

  /** The state during the loop applying `f`: only boundary nodes may be broken, and none of them has a map pending. */
  ghost predicate RangeState<T(!new), F(!new)>(MM: MapMonoid<T, F>, data: seq<T>, lz: seq<F>, h: nat, L: nat, R: nat)
  {
    IsLawful(MM) && |lz| == Shl(1, h) && |data| == 2 * |lz| && Shl(1, h) <= L < R <= Shl(1, h + 1) &&
    OkExcept(MM, data, lz, h, L, R, 0, 0) &&
    PendingClean(MM, lz, L, L, 1, h + 1) && PendingClean(MM, lz, R - 1, R, 1, h + 1)
  }

  /** The elements of the leaves in `[L, lo)` and `[hi, R)` are those of `E0` mapped by `f`; the others are those of `E0`. */
  ghost predicate MappedOutside<T, F>(MM: MapMonoid<T, F>, E: seq<T>, E0: seq<T>, f: F, size: nat, L: nat, lo: nat, hi: nat, R: nat)
  {
    |E| == |E0| &&
    forall m :: 0 <= m < |E| ==> E[m] == if L <= size + m < lo || hi <= size + m < R then MM.apply(f, E0[m]) else E0[m]
  }

  // ---------------------------------------------------------------------
  // Boundary nodes.

  /** Whether a node of known height is a boundary node. */
  lemma PendingAt(h: nat, L: nat, R: nat, k: nat, t: nat, iL: nat, iR: nat)
    requires AtHeight(k, h, t) && 1 <= R
    ensures Pending(h, L, R, k, iL, iR) <==>
      (iL < t && Unaligned(L, t) && Shr(L, t) == k) || (iR < t && Unaligned(R, t) && Shr(R - 1, t) == k)
  {
    HeightLog2(k, h, t);
  }

  /** With nothing left to exclude the node invariant holds everywhere. */
  lemma OkEverywhere<T, F>(MM: MapMonoid<T, F>, data: seq<T>, lz: seq<F>, h: nat, L: nat, R: nat, iL: nat, iR: nat)
    requires OkExcept(MM, data, lz, h, L, R, iL, iR) && h <= iL && h <= iR
    ensures Consistent(MM, data, lz)
  {
    forall k | 1 <= k < |lz|
      ensures LazyNodeOk(MM, data, lz, k)
    {
      assert !Pending(h, L, R, k, iL, iR);
    }
  }

  /** Before anything is applied the whole tree is consistent. */
  lemma StartRange<T(!new), F(!new)>(MM: MapMonoid<T, F>, data: seq<T>, lz: seq<F>, h: nat, L: nat, R: nat, f: F)
    requires IsLawful(MM) && Consistent(MM, data, lz) && |lz| == Shl(1, h) && Shl(1, h) <= L < R <= Shl(1, h + 1)
    requires PendingClean(MM, lz, L, L, 1, h + 1) && PendingClean(MM, lz, R - 1, R, 1, h + 1)
    ensures RangeState(MM, data, lz, h, L, R)
    ensures MappedOutside(MM, Elements(MM, data, lz), Elements(MM, data, lz), f, |lz|, L, L, R, R)
  {
  }

  // ---------------------------------------------------------------------
  // Applying `f` to one node.

  /** Applying `f` to a node whose parent is a boundary node breaks no other node. */
  lemma ApplyKeepsOk<T(!new), F(!new)>(MM: MapMonoid<T, F>, data: seq<T>, lz: seq<F>, h: nat, L: nat, R: nat, x: nat, f: F)
    requires IsLawful(MM) && OkExcept(MM, data, lz, h, L, R, 0, 0) && 1 <= x < |data|
    requires x / 2 == 0 || Pending(h, L, R, x / 2, 0, 0)
    ensures var s := ApplyNode(MM, data, lz, x, f); OkExcept(MM, s.0, s.1, h, L, R, 0, 0)
  {
    var s := ApplyNode(MM, data, lz, x, f);
    forall k | 1 <= k < |lz| && !Pending(h, L, R, k, 0, 0)
      ensures LazyNodeOk(MM, s.0, s.1, k)
    {
      ApplyNodes(MM, data, lz, x, f, k);
    }
  }

  /** Applying `f` to a node that is not a boundary node keeps the boundary nodes clean. */
  lemma ApplyKeepsPending<T, F>(MM: MapMonoid<T, F>, data: seq<T>, lz: seq<F>, h: nat, X: nat, E: nat, x: nat, j: nat, f: F)
    requires |data| == 2 * |lz| && |lz| == Shl(1, h) && Shl(1, h) <= X < Shl(1, h + 1)
    requires AtHeight(x, h, j) && !(Unaligned(E, j) && Shr(X, j) == x)
    requires PendingClean(MM, lz, X, E, 1, h + 1)
    ensures x < |data| && PendingClean(MM, ApplyNode(MM, data, lz, x, f).1, X, E, 1, h + 1)
  {
    ShlGrows(1, h - j + 1, h + 1);
    HeightLog2(x, h, j);
    var lz2 := ApplyNode(MM, data, lz, x, f).1;
    forall i | 1 <= i <= h + 1 && Unaligned(E, i)
      ensures Shr(X, i) < |lz2| && lz2[Shr(X, i)] == MM.mapId
    {
      if i <= h {
        ShrHeight(X, h, i);
        if i != j && Shr(X, i) == x {
          HeightUnique(x, h, i, j);
        }
      } else {
        ShrAboveRoot(X, h, i);
      }
    }
  }

  /** Applying `f` to a node of height `j` that is not a boundary node but whose parent is one keeps the state. */
  lemma ApplyKeepsState<T(!new), F(!new)>(MM: MapMonoid<T, F>, data: seq<T>, lz: seq<F>, h: nat, L: nat, R: nat, x: nat, j: nat, f: F)
    requires RangeState(MM, data, lz, h, L, R) && AtHeight(x, h, j)
    requires !(Unaligned(L, j) && Shr(L, j) == x) && !(Unaligned(R, j) && Shr(R - 1, j) == x)
    requires x / 2 == 0 || Pending(h, L, R, x / 2, 0, 0)
    ensures x < |data| && var s := ApplyNode(MM, data, lz, x, f); RangeState(MM, s.0, s.1, h, L, R)
  {
    ApplyKeepsPending(MM, data, lz, h, L, L, x, j, f);
    ApplyKeepsPending(MM, data, lz, h, R - 1, R, x, j, f);
    HeightLog2(x, h, j);
    ApplyKeepsOk(MM, data, lz, h, L, R, x, f);
  }

  /** Applying `f` to a node with nothing pending above it maps exactly the elements of its leaves. */
  lemma ApplyCovers<T(!new), F(!new)>(MM: MapMonoid<T, F>, data: seq<T>, lz: seq<F>, h: nat, x: nat, j: nat, f: F)
    requires IsLawful(MM) && |data| == 2 * |lz| && |lz| == Shl(1, h) && AtHeight(x, h, j) && CleanFrom(MM, lz, x / 2)
    ensures x < |data|
    ensures var s := ApplyNode(MM, data, lz, x, f);
      forall m :: 0 <= m < |lz| ==>
        Elements(MM, s.0, s.1)[m] ==
        (if Shl(x, j) <= |lz| + m < Shl(x + 1, j) then MM.apply(f, Elements(MM, data, lz)[m]) else Elements(MM, data, lz)[m])
  {
    ShlGrows(1, h - j + 1, h + 1);
    HeightLog2(x, h, j);
    ApplyElements(MM, data, lz, x, f);
    var s := ApplyNode(MM, data, lz, x, f);
    forall m | 0 <= m < |lz|
      ensures Elements(MM, s.0, s.1)[m] ==
        (if Shl(x, j) <= |lz| + m < Shl(x + 1, j) then MM.apply(f, Elements(MM, data, lz)[m]) else Elements(MM, data, lz)[m])
    {
      PathIffShr(|lz| + m, h, 0, x, j);
      UnderIff(|lz| + m, x, j);
    }
  }

  /** Mapping the leaves `[a, b)`, which lie between the windows, widens a window by them. */
  lemma WidenWindow<T, F>(MM: MapMonoid<T, F>, E: seq<T>, E2: seq<T>, E0: seq<T>, f: F, size: nat, L: nat, lo: nat, hi: nat, R: nat, a: nat, b: nat)
    requires MappedOutside(MM, E, E0, f, size, L, lo, hi, R) && |E2| == |E|
    requires forall m :: 0 <= m < |E| ==> E2[m] == if a <= size + m < b then MM.apply(f, E[m]) else E[m]
    requires L <= lo <= a <= b <= hi <= R
    ensures a == lo ==> MappedOutside(MM, E2, E0, f, size, L, b, hi, R)
    ensures b == hi ==> MappedOutside(MM, E2, E0, f, size, L, lo, a, R)
  {
  }

  /**
   * The odd left bound `l == ceil(L / 2^j)` of the loop applying `f` is a
   * node of height `j` that is not a boundary node, whose leaves lie
   * between the windows and whose parent is a boundary node.
   */
  lemma LeftNode(h: nat, L: nat, R: nat, l: nat, r: nat, j: nat)
    requires Shl(1, h) <= L < R <= Shl(1, h + 1)
    requires 1 <= l < r && l % 2 == 1 && LeftBound(L, l, j) && r == Shr(R, j)
    ensures AtHeight(l, h, j) && L <= Shl(l, j) <= Shl(l + 1, j) <= Shl(r, j) <= R
    ensures !(Unaligned(L, j) && Shr(L, j) == l) && !(Unaligned(R, j) && Shr(R - 1, j) == l)
    ensures l / 2 == 0 || Pending(h, L, R, l / 2, 0, 0)
  {
    LoopNodeHeight(L, R, h, l, j);
    LeftStepIndex(L, l, j);
    ShlMonotone(l, l + 1, j);
    ShlMonotone(l + 1, r, j);
    ShrFloor(R, j);
    if j + 1 <= h {
      ShrHeight(L, h, j + 1);
      PendingAt(h, L, R, l / 2, j + 1, 0, 0);
    } else {
      ShrAboveRoot(L, h, j + 1);
    }
    if Unaligned(L, j) {
      UnalignedLeftBound(L, l, j);
    }
    if Unaligned(R, j) {
      ShrOfPrevious(R, j);
    }
  }

  /**
   * Below the odd right bound `r == R >> j` of the loop applying `f`, node
   * `r - 1` is a node of height `j` that is not a boundary node, whose
   * leaves lie between the windows and whose parent is a boundary node.
   */
  lemma RightNode(h: nat, L: nat, R: nat, l: nat, r: nat, j: nat)
    requires Shl(1, h) <= L < R <= Shl(1, h + 1)
    requires l < r && r % 2 == 1 && L <= Shl(l, j) && r == Shr(R, j)
    ensures AtHeight(r - 1, h, j) && Shl(l, j) <= Shl(r - 1, j) <= Shl(r, j) <= R
    ensures !(Unaligned(L, j) && Shr(L, j) == r - 1) && !(Unaligned(R, j) && Shr(R - 1, j) == r - 1)
    ensures (r - 1) / 2 == 0 || Pending(h, L, R, (r - 1) / 2, 0, 0)
  {
    ShlMonotone(l, r - 1, j);
    ShlMonotone(r - 1, r, j);
    LoopNodeHeight(L, R, h, r - 1, j);
    RightStepIndex(R, j);
    ShrFloor(R, j);
    if j + 1 <= h {
      ShrHeight(R - 1, h, j + 1);
      PendingAt(h, L, R, (r - 1) / 2, j + 1, 0, 0);
    } else {
      assert false;
    }
    if Unaligned(L, j) {
      ShrFloor(L, j);
      if Shr(L, j) == r - 1 {
        assert false;
      }
    }
    if Unaligned(R, j) {
      ShrOfPrevious(R, j);
    }
  }

  /**
   * One left step of the loop applying `f`: applying it to the odd left
   * bound `l` keeps the state and maps the leaves of `l`, which extend the
   * left window.
   */
  lemma ApplyLeftStep<T(!new), F(!new)>(MM: MapMonoid<T, F>, data: seq<T>, lz: seq<F>, h: nat, L: nat, R: nat, l: nat, r: nat, j: nat, f: F, E0: seq<T>)
    requires RangeState(MM, data, lz, h, L, R)
    requires 1 <= l < r && l % 2 == 1 && LeftBound(L, l, j) && r == Shr(R, j)
    requires MappedOutside(MM, Elements(MM, data, lz), E0, f, |lz|, L, Shl(l, j), Shl(r, j), R)
    ensures l < |data| && L <= Shl(l + 1, j)
    ensures var s := ApplyNode(MM, data, lz, l, f);
      RangeState(MM, s.0, s.1, h, L, R) &&
      MappedOutside(MM, Elements(MM, s.0, s.1), E0, f, |lz|, L, Shl(l + 1, j), Shl(r, j), R)
  {
    LeftNode(h, L, R, l, r, j);
    LeftBoundClean(MM, data, lz, h, L, l, j);
    ApplyKeepsState(MM, data, lz, h, L, R, l, j, f);
    ApplyCovers(MM, data, lz, h, l, j, f);
    var s := ApplyNode(MM, data, lz, l, f);
    WidenWindow(MM, Elements(MM, data, lz), Elements(MM, s.0, s.1), E0, f, |lz|, L, Shl(l, j), Shl(r, j), R, Shl(l, j), Shl(l + 1, j));
  }

  /**
   * One right step of the loop applying `f`: applying it to node `r - 1`
   * below the odd right bound keeps the state and maps the leaves of
   * `r - 1`, which extend the right window.
   */
  lemma ApplyRightStep<T(!new), F(!new)>(MM: MapMonoid<T, F>, data: seq<T>, lz: seq<F>, h: nat, L: nat, R: nat, l: nat, r: nat, j: nat, f: F, E0: seq<T>)
    requires RangeState(MM, data, lz, h, L, R)
    requires l < r && r % 2 == 1 && L <= Shl(l, j) && r == Shr(R, j)
    requires MappedOutside(MM, Elements(MM, data, lz), E0, f, |lz|, L, Shl(l, j), Shl(r, j), R)
    ensures 1 <= r && r - 1 < |data|
    ensures var s := ApplyNode(MM, data, lz, r - 1, f);
      RangeState(MM, s.0, s.1, h, L, R) &&
      MappedOutside(MM, Elements(MM, s.0, s.1), E0, f, |lz|, L, Shl(l, j), Shl(r - 1, j), R)
  {
    RightNode(h, L, R, l, r, j);
    RightBoundClean(MM, data, lz, h, R, r, j);
    ApplyKeepsState(MM, data, lz, h, L, R, r - 1, j, f);
    ApplyCovers(MM, data, lz, h, r - 1, j, f);
    var s := ApplyNode(MM, data, lz, r - 1, f);
    assert r - 1 + 1 == r;
    WidenWindow(MM, Elements(MM, data, lz), Elements(MM, s.0, s.1), E0, f, |lz|, L, Shl(l, j), Shl(r, j), R, Shl(r - 1, j), Shl(r, j));
  }

  /** When the windows meet, exactly the elements of `[L, R)` are mapped. */
  lemma WindowsMeet<T, F>(MM: MapMonoid<T, F>, E: seq<T>, E0: seq<T>, f: F, size: nat, L: nat, mid: nat, R: nat)
    requires MappedOutside(MM, E, E0, f, size, L, mid, mid, R) && L <= mid <= R
    ensures E == MapRange(MM, E0, f, L - size, R - size)
  {
  }

  // ---------------------------------------------------------------------
  // Recomputing the boundary nodes.

  /**
   * One left step of the loop recomputing the boundary nodes at height
   * `i`: `update(L >> i)` where `L` is not aligned restores that node and
   * can only break its parent, itself a boundary node above `i`.
   */
  lemma UpdateLeftStep<T(!new), F(!new)>(MM: MapMonoid<T, F>, data: seq<T>, lz: seq<F>, h: nat, L: nat, R: nat, i: nat, iR: nat)
    requires IsLawful(MM) && |lz| == Shl(1, h) && Shl(1, h) <= L < R <= Shl(1, h + 1) && 1 <= i <= h + 1
    requires OkExcept(MM, data, lz, h, L, R, i - 1, iR) && PendingClean(MM, lz, L, L, 1, h + 1)
    ensures Shr(L, i) < |lz|
    ensures var d := if Unaligned(L, i) then UpdateAt(MM, data, Shr(L, i)) else data;
      OkExcept(MM, d, lz, h, L, R, i, iR) && Elements(MM, d, lz) == Elements(MM, data, lz)
  {
    ShrRange(L, h, i);
    if Unaligned(L, i) {
      var c := Shr(L, i);
      var d := UpdateAt(MM, data, c);
      UpdateElements(MM, data, lz, c);
      if i <= h {
        ShrHeight(L, h, i);
        PendingAt(h, L, R, c, i, i - 1, iR);
      }
      if i + 1 <= h {
        ShrHeight(L, h, i + 1);
        UnalignedUp(L, i);
        PendingAt(h, L, R, c / 2, i + 1, i, iR);
      } else if i == h {
        ShrAboveRoot(L, h, i + 1);
      }
      forall k | 1 <= k < |lz| && !Pending(h, L, R, k, i, iR)
        ensures LazyNodeOk(MM, d, lz, k)
      {
        UpdateNodes(MM, data, lz, c, k);
      }
    }
  }

  /**
   * One right step of the loop recomputing the boundary nodes at height
   * `i`: `update((R - 1) >> i)` where `R` is not aligned restores that node
   * and can only break its parent, itself a boundary node above `i`.
   */
  lemma UpdateRightStep<T(!new), F(!new)>(MM: MapMonoid<T, F>, data: seq<T>, lz: seq<F>, h: nat, L: nat, R: nat, i: nat, iL: nat)
    requires IsLawful(MM) && |lz| == Shl(1, h) && Shl(1, h) <= L < R <= Shl(1, h + 1) && 1 <= i <= h + 1
    requires OkExcept(MM, data, lz, h, L, R, iL, i - 1) && PendingClean(MM, lz, R - 1, R, 1, h + 1)
    ensures Shr(R - 1, i) < |lz|
    ensures var d := if Unaligned(R, i) then UpdateAt(MM, data, Shr(R - 1, i)) else data;
      OkExcept(MM, d, lz, h, L, R, iL, i) && Elements(MM, d, lz) == Elements(MM, data, lz)
  {
    ShrRange(R - 1, h, i);
    if Unaligned(R, i) {
      var c := Shr(R - 1, i);
      var d := UpdateAt(MM, data, c);
      UpdateElements(MM, data, lz, c);
      if i <= h {
        ShrHeight(R - 1, h, i);
        PendingAt(h, L, R, c, i, iL, i - 1);
      }
      if i + 1 <= h {
        ShrHeight(R - 1, h, i + 1);
        UnalignedUp(R, i);
        PendingAt(h, L, R, c / 2, i + 1, iL, i);
      } else if i == h {
        ShrAboveRoot(R - 1, h, i + 1);
      }
      forall k | 1 <= k < |lz| && !Pending(h, L, R, k, iL, i)
        ensures LazyNodeOk(MM, d, lz, k)
      {
        UpdateNodes(MM, data, lz, c, k);
      }
    }
  }

  // ---------------------------------------------------------------------
  // Properties of `MapRange`.

  /** Mapping every element of a non-empty sequence maps its product. */
  lemma {:induction false} FoldMapped<T(!new), F(!new)>(MM: MapMonoid<T, F>, s: seq<T>, s2: seq<T>, f: F)
    requires IsLawful(MM) && |s| >= 1 && |s2| == |s|
    requires forall i :: 0 <= i < |s| ==> s2[i] == MM.apply(f, s[i])
    ensures Fold(MM.M, s2) == MM.apply(f, Fold(MM.M, s))
    decreases |s|
  {
    var n := |s|;
    if n == 1 {
      FoldSingle(MM.M, s[0]);
      FoldSingle(MM.M, s2[0]);
      assert s == [s[0]] && s2 == [s2[0]];
    } else {
      FoldMapped(MM, s[..n - 1], s2[..n - 1], f);
    }
  }

  /** After `apply_range(lo..hi, f)` a query of a non-empty part of `[lo, hi)` gives `f` of the old answer. */
  lemma MapRangeFold<T(!new), F(!new)>(MM: MapMonoid<T, F>, e: seq<T>, f: F, lo: nat, hi: nat, a: nat, b: nat)
    requires IsLawful(MM) && lo <= a < b <= hi <= |e|
    ensures Fold(MM.M, MapRange(MM, e, f, lo, hi)[a..b]) == MM.apply(f, Fold(MM.M, e[a..b]))
  {
    FoldMapped(MM, e[a..b], MapRange(MM, e, f, lo, hi)[a..b], f);
  }

  /** Two range applications over the same range are one of the composite map, `g` after `f`. */
  lemma MapRangeCompose<T(!new), F(!new)>(MM: MapMonoid<T, F>, e: seq<T>, f: F, g: F, lo: int, hi: int)
    requires IsLawful(MM)
    ensures MapRange(MM, MapRange(MM, e, f, lo, hi), g, lo, hi) == MapRange(MM, e, MM.composite(g, f), lo, hi)
  {
  }
}
