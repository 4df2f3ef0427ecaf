/**
 * `LazySegTree<Map>`: a segment tree over `size` elements (`size` the
 * next power of two of `n`) that folds any range and applies a map to any
 * range in `O(log n)`, pushing pending maps down from the root before it
 * reads or writes a node and recomputing the nodes above what it changed.
 */
module LazySegTree {
  import opened MathTraits
  import opened SegTree
  import opened Wrappers
  import opened LazyMaps
  import opened LazyIndex
  import opened LazyState
  import opened LazyRange
  import opened LazySearch
  import opened LazyAsWritten

  /** `n.next_power_of_two()`, as the exponent `e` of `1 << e`, searching from `e`. */
  function NextPowerExponent(n: nat, e: nat): (r: nat)
    requires e == 0 || Shl(1, e - 1) < n
    ensures r >= e && Shl(1, r) >= n && (r == 0 || Shl(1, r - 1) < n)
    decreases n - Shl(1, e)
  {
    if Shl(1, e) >= n then e else ShlAtLeast(1, e); NextPowerExponent(n, e + 1)
  }

  class LazySegTree<T(!new), F(!new)> {
    const MM: MapMonoid<T, F>
    var n: nat
    var size: nat
    var log: nat
    var data: seq<T>
    var lazy: seq<F>

    /**
     * `size == 1 << (log - 1)`, `data` and `lazy` have `2 * size` and `size`
     * slots, every inner node holds its pending map applied to its
     * children's product, and the maps obey the laws.
     */
    ghost predicate Valid()
      reads this
    {
      IsLawful(MM) && log >= 1 && size == Shl(1, log - 1) && |lazy| == size && n <= size &&
      Consistent(MM, data, lazy)
    }

    /** The elements: each leaf with the maps pending above it applied. */
    ghost function Contents(): seq<T>
      reads this
      requires |data| == 2 * |lazy|
    {
      Elements(MM, data, lazy)
    }

    /**
     * `From<Vec<T>>`: `size` is `n.next_power_of_two()`, `log` counts the
     * halvings of `size` down to `0`, the leaves are `v` padded with `id`,
     * every map is `map_id`, and the nodes `size - 1` down to `1` are
     * recomputed.
     */
    constructor From(MM0: MapMonoid<T, F>, v: seq<T>)
      requires IsLawful(MM0)
      ensures MM == MM0 && Valid() && n == |v|
      ensures |v| <= size && (size == 1 || size < 2 * |v|)
      ensures Contents() == v + seq(size - |v|, _ => MM0.M.id)
    {
      MM := MM0;
      n := |v|;
      var e := NextPowerExponent(|v|, 0);
      var sz := Shl(1, e);
      var lg, s := 0, sz;
      while s > 0
        invariant lg <= e + 1
        invariant lg <= e ==> s == Shl(1, e - lg)
        invariant lg == e + 1 ==> s == 0
      {
        s, lg := s / 2, lg + 1;
      }
      if lg <= e {
        ShlAtLeast(1, e - lg);
      }
      size, log := sz, lg;
      data := seq(sz, _ => MM0.M.id) + v + seq(sz - |v|, _ => MM0.M.id);
      lazy := seq(sz, _ => MM0.mapId);
      new;
      ShlAtLeast(1, e);
      var i := size;
      while i > 1
        invariant 1 <= i <= size && n == |v| && size == sz && log == lg && |data| == 2 * size && |lazy| == size
        invariant forall b :: 0 <= b < size ==> lazy[b] == MM.mapId
        invariant data[size..] == v + seq(size - |v|, _ => MM.M.id)
        invariant forall j :: i <= j < size ==> LazyNodeOk(MM, data, lazy, j)
      {
        i := i - 1;
        ghost var before := data;
        Update(i);
        forall j | i <= j < size
          ensures LazyNodeOk(MM, data, lazy, j)
        {
          UpdateNodes(MM, before, lazy, i, j);
        }
        assert data[size..] == before[size..];
      }
      ElementsClean(MM, data, lazy);
    }

    /** `new(n)`: `n` elements, all `id`. */
    static method New(MM0: MapMonoid<T, F>, n0: nat) returns (st: LazySegTree<T, F>)
      requires IsLawful(MM0)
      ensures fresh(st) && st.MM == MM0 && st.Valid() && st.n == n0
      ensures n0 <= st.size && st.Contents() == seq(st.size, _ => MM0.M.id)
    {
      st := new LazySegTree.From(MM0, seq(n0, _ => MM0.M.id));
      assert st.Contents() == seq(st.size, _ => MM0.M.id);
    }

    /** `push(k)`: the map pending at `k` moves to both children. */
    method Push(k: nat)
      requires |data| == 2 * size && |lazy| == size && k < size
      modifies this
      ensures n == old(n) && size == old(size) && log == old(log)
      ensures (data, lazy) == PushAt(MM, old(data), old(lazy), k)
    {
      Apply(2 * k, lazy[k]);
      Apply(2 * k + 1, lazy[k]);
      lazy := lazy[k := MM.mapId];
    }

    /** `apply(k, f)`: node `k` takes `f`, and so does its pending map when it is inner. */
    method Apply(k: nat, f: F)
      requires |data| == 2 * size && |lazy| == size && k < |data|
      modifies this
      ensures n == old(n) && size == old(size) && log == old(log)
      ensures (data, lazy) == ApplyNode(MM, old(data), old(lazy), k, f)
    {
      data := data[k := MM.apply(f, data[k])];
      if k < size {
        lazy := lazy[k := MM.composite(f, lazy[k])];
      }
    }

    /** `update(k)`: node `k` becomes the product of its children. */
    method Update(k: nat)
      requires 2 * k + 1 < |data|
      modifies this
      ensures n == old(n) && size == old(size) && log == old(log) && lazy == old(lazy)
      ensures data == UpdateAt(MM, old(data), k)
    {
      data := data[k := MM.M.op(data[2 * k], data[2 * k + 1])];
    }

    /**
     * The loop `for i in (1..=log).rev() { push(k >> i) }` that `get`, `set`
     * and `apply_at` open with: afterwards nothing is pending above leaf `k`.
     */
    method PushAncestors(k: nat)
      requires Valid() && size <= k < 2 * size
      modifies this
      ensures Valid() && n == old(n) && size == old(size) && log == old(log)
      ensures Contents() == old(Contents())
      ensures PathClean(MM, lazy, k, 1, log) && CleanFrom(MM, lazy, k / 2)
    {
      var i := log;
      while i >= 1
        invariant 0 <= i <= log && n == old(n) && size == old(size) && log == old(log)
        invariant Valid() && Contents() == old(Contents())
        invariant PathClean(MM, lazy, k, i + 1, log)
      {
        PushAncestor(MM, data, lazy, log - 1, k, i);
        PushKeepsPath(MM, data, lazy, log - 1, k, i, k, i + 1);
        Push(Shr(k, i));
        i := i - 1;
      }
      PathCleanFrom(MM, lazy, log - 1, k, 1);
      assert Shr(k, 1) == k / 2;
    }

    /**
     * The loop `for i in 1..=log { update(k >> i) }` that `set` and
     * `apply_at` close with, after writing leaf `k` below clean ancestors:
     * the node invariant, broken only at `k`'s parent, holds again.
     */
    method UpdateAncestors(k: nat)
      requires IsLawful(MM) && log >= 1 && size == Shl(1, log - 1) && |lazy| == size && |data| == 2 * size
      requires size <= k < 2 * size && lazy[0] == MM.mapId && PathClean(MM, lazy, k, 1, log)
      requires forall j :: 1 <= j < size && j != k / 2 ==> LazyNodeOk(MM, data, lazy, j)
      modifies this
      ensures n == old(n) && size == old(size) && log == old(log) && lazy == old(lazy)
      ensures Consistent(MM, data, lazy) && Contents() == old(Contents())
    {
      var i := 1;
      while i <= log
        invariant 1 <= i <= log + 1 && n == old(n) && size == old(size) && log == old(log) && lazy == old(lazy)
        invariant |data| == 2 * size && Contents() == old(Contents())
        invariant forall j :: 1 <= j < size && j != Shr(k, i) ==> LazyNodeOk(MM, data, lazy, j)
      {
        ghost var before := data;
        ShrRange(k, log - 1, i);
        var c := Shr(k, i);
        Update(c);
        forall j | 1 <= j < size && j != Shr(k, i + 1)
          ensures LazyNodeOk(MM, data, lazy, j)
        {
          UpdateNodes(MM, before, lazy, c, j);
        }
        UpdateElements(MM, before, lazy, c);
        i := i + 1;
      }
      ShrRange(k, log - 1, log + 1);
    }

    /** `get(idx)`: the element at `idx`; the state changes, the elements do not. */
    method Get(idx: nat) returns (x: T)
      requires Valid() && idx < size
      modifies this
      ensures Valid() && n == old(n) && size == old(size) && log == old(log)
      ensures Contents() == old(Contents()) && x == old(Contents())[idx]
    {
      var k := idx + size;
      PushAncestors(k);
      x := data[k];
      CleanSlot(MM, data, lazy, k);
    }

    /**
     * The tail shared by `set` and `apply_at`: leaf `k`, below clean
     * ancestors, is overwritten with `y` and its ancestors are recomputed.
     */
    method Store(k: nat, y: T)
      requires Valid() && size <= k < 2 * size && PathClean(MM, lazy, k, 1, log) && CleanFrom(MM, lazy, k / 2)
      modifies this
      ensures Valid() && n == old(n) && size == old(size) && log == old(log)
      ensures old(Contents())[k - size] == old(data)[k]
      ensures Contents() == old(Contents())[k - size := y]
    {
      ghost var before := data;
      data := data[k := y];
      WriteLeaf(MM, before, lazy, k, y, data);
      UpdateAncestors(k);
    }

    /** `set(idx, v)`: the element at `idx` becomes `v`; no other element changes. */
    method Set(idx: nat, v: T)
      requires Valid() && idx < size
      modifies this
      ensures Valid() && n == old(n) && size == old(size) && log == old(log)
      ensures Contents() == old(Contents())[idx := v]
    {
      var k := idx + size;
      PushAncestors(k);
      Store(k, v);
    }

    /** `apply_at(idx, f)`: the element at `idx` is mapped by `f`; no other element changes. */
    method ApplyAt(idx: nat, f: F)
      requires Valid() && idx < size
      modifies this
      ensures Valid() && n == old(n) && size == old(size) && log == old(log)
      ensures Contents() == old(Contents())[idx := MM.apply(f, old(Contents())[idx])]
    {
      var k := idx + size;
      PushAncestors(k);
      Store(k, MM.apply(f, data[k]));
    }

    /**
     * The loop `for i in (1..=log).rev()` opening `query_inner` and
     * `apply_range_inner`: between leaves `L` and `R`, every ancestor
     * `L >> i` at which `L` is not aligned and every ancestor `(R - 1) >> i`
     * at which `R` is not aligned is pushed, top down.  (`query_inner`
     * writes the second node as `R >> i`, the same node wherever `R` is not
     * aligned at `i`.)
     */
    method PushBoundaries(L: nat, R: nat)
      requires Valid() && size <= L < R <= 2 * size
      modifies this
      ensures Valid() && n == old(n) && size == old(size) && log == old(log)
      ensures Contents() == old(Contents())
      ensures PendingClean(MM, lazy, L, L, 1, log) && PendingClean(MM, lazy, R - 1, R, 1, log)
    {
      var i := log;
      while i >= 1
        invariant 0 <= i <= log && n == old(n) && size == old(size) && log == old(log)
        invariant Valid() && Contents() == old(Contents())
        invariant PendingClean(MM, lazy, L, L, i + 1, log) && PendingClean(MM, lazy, R - 1, R, i + 1, log)
      {
        if Shl(Shr(L, i), i) != L {
          PushPending(L, i, L, R, i + 1, i + 1);
        }
        PendingExtend(MM, lazy, L, L, i, log);
        if Shl(Shr(R, i), i) != R {
          PushPending(R - 1, i, L, R, i, i + 1);
        }
        PendingExtend(MM, lazy, R - 1, R, i, log);
        i := i - 1;
      }
    }

    /**
     * One push of `PushBoundaries`: the ancestor `Y >> i` of leaf `Y` is
     * pushed, which leaves it clean and keeps clean the pending nodes of both
     * boundaries that are already clean.
     */
    method PushPending(Y: nat, i: nat, L: nat, R: nat, tl: nat, tr: nat)
      requires Valid() && size <= Y < 2 * size && 1 <= i <= log && i <= tl && i <= tr
      requires size <= L < R <= 2 * size
      requires PendingClean(MM, lazy, L, L, tl, log) && PendingClean(MM, lazy, R - 1, R, tr, log)
      modifies this
      ensures Valid() && n == old(n) && size == old(size) && log == old(log)
      ensures Contents() == old(Contents())
      ensures Shr(Y, i) < |lazy| && lazy[Shr(Y, i)] == MM.mapId
      ensures PendingClean(MM, lazy, L, L, tl, log) && PendingClean(MM, lazy, R - 1, R, tr, log)
    {
      ghost var h: nat := log - 1;
      PushAncestor(MM, data, lazy, h, Y, i);
      PushKeepsPending(MM, data, lazy, h, Y, i, L, L, tl);
      PushKeepsPending(MM, data, lazy, h, Y, i, R - 1, R, tr);
      Push(Shr(Y, i));
    }

    /**
     * The loop closing `query_inner`: the nodes covering the leaves
     * `[L, R)`, none with a map pending above it, are folded bottom up, left
     * ones into `vl` and right ones into `vr`, giving `op(vl, vr)`.
     */
    method FoldBetween(L: nat, R: nat) returns (x: T)
      requires IsLawful(MM) && log >= 1 && size == Shl(1, log - 1) && |lazy| == size && Consistent(MM, data, lazy)
      requires size <= L < R <= 2 * size
      requires PendingClean(MM, lazy, L, L, 1, log) && PendingClean(MM, lazy, R - 1, R, 1, log)
      ensures x == Fold(MM.M, Elements(MM, data, lazy)[L - size..R - size])
    {
      ghost var vals := NodeValues(MM, data, lazy);
      BoundariesClean(MM, data, lazy, log - 1, L, R, vals);
      assert vals[L..R] == vals[size..][L - size..R - size];
      x := FoldNodes(MM.M, vals, data, size, L, R);
    }

    /**
     * `query_inner(l, r)`: up to `r == size`, the product of the elements
     * `[l, r)`, reading only nodes with nothing pending above them.  The
     * crate checks `l <= r` alone: past `size` the loops run on as written
     * (`QueryAsWritten`), and an index past the end of `data` or `lazy` is
     * a panic, `None`.
     */
    method QueryInner(l0: nat, r0: nat) returns (x: Option<T>)
      requires Valid() && l0 <= r0
      modifies this
      ensures n == old(n) && size == old(size) && log == old(log)
      ensures r0 <= size ==> Valid() && Contents() == old(Contents()) && x == Some(Fold(MM.M, old(Contents())[l0..r0]))
      ensures r0 > size ==>
        var w := QueryAsWritten(MM, old(data), old(lazy), size, log, l0, r0);
        x == (if w.Some? then Some(w.value.0) else None) && (w.Some? ==> data == w.value.1 && lazy == w.value.2)
    {
      if r0 > size {
        var w := QueryAsWritten(MM, data, lazy, size, log, l0, r0);
        if w.None? {
          return None;
        }
        x, data, lazy := Some(w.value.0), w.value.1, w.value.2;
        return;
      }
      if l0 == r0 {
        return Some(MM.M.id);
      }
      var l, r := l0 + size, r0 + size;
      PushBoundaries(l, r);
      var y := FoldBetween(l, r);
      x := Some(y);
    }

    /** `query(range)`: `query_inner` on `range`, whose missing end is `size`. */
    method Query(start: Bound, end: Bound) returns (x: Option<T>)
      requires Valid() && StartIndex(start) <= EndIndex(end, size)
      modifies this
      ensures n == old(n) && size == old(size) && log == old(log)
      ensures EndIndex(end, size) <= size ==>
        Valid() && Contents() == old(Contents()) && x == Some(Fold(MM.M, old(Contents())[StartIndex(start)..EndIndex(end, size)]))
      ensures EndIndex(end, size) > size ==>
        var w := QueryAsWritten(MM, old(data), old(lazy), size, log, StartIndex(start), EndIndex(end, size));
        x == (if w.Some? then Some(w.value.0) else None) && (w.Some? ==> data == w.value.1 && lazy == w.value.2)
    {
      x := QueryInner(StartIndex(start), EndIndex(end, size));
    }

    /**
     * `query(range)` with the check the crate leaves out: a range ending
     * past `size` is refused (`None`) and leaves the tree as it was.
     */
    method QueryChecked(start: Bound, end: Bound) returns (x: Option<T>)
      requires Valid() && StartIndex(start) <= EndIndex(end, size)
      modifies this
      ensures x.Some? <==> EndIndex(end, old(size)) <= old(size)
      ensures x.None? ==> unchanged(this)
      ensures x.Some? ==>
        Valid() && n == old(n) && size == old(size) && Contents() == old(Contents()) &&
        x.value == Fold(MM.M, old(Contents())[StartIndex(start)..EndIndex(end, size)])
    {
      if EndIndex(end, size) > size {
        return None;
      }
      x := QueryInner(StartIndex(start), EndIndex(end, size));
    }

    /**
     * The loop in the middle of `apply_range_inner`: `f` is applied to the
     * nodes covering the leaves `[L, R)`, bottom up; afterwards only the
     * boundary nodes may break the node invariant.
     */
    method ApplyBetween(L: nat, R: nat, f: F)
      requires Valid() && size <= L < R <= 2 * size
      requires PendingClean(MM, lazy, L, L, 1, log) && PendingClean(MM, lazy, R - 1, R, 1, log)
      modifies this
      ensures n == old(n) && size == old(size) && log == old(log)
      ensures RangeState(MM, data, lazy, log - 1, L, R)
      ensures Elements(MM, data, lazy) == MapRange(MM, old(Elements(MM, data, lazy)), f, L - size, R - size)
    {
      ghost var h: nat := log - 1;
      ghost var E0 := Elements(MM, data, lazy);
      StartRange(MM, data, lazy, h, L, R, f);
      var l, r := L, R;
      ghost var j := 0;
      while l < r
        invariant n == old(n) && size == old(size) && log == old(log) && |lazy| == size
        invariant 1 <= l <= r && LeftBound(L, l, j) && r == Shr(R, j)
        invariant RangeState(MM, data, lazy, h, L, R)
        invariant MappedOutside(MM, Elements(MM, data, lazy), E0, f, size, L, Shl(l, j), Shl(r, j), R)
        decreases r
      {
        l, r := ApplyLevel(L, R, l, r, j, f, E0);
        j := j + 1;
      }
      ShrFloor(R, j);
      WindowsMeet(MM, Elements(MM, data, lazy), E0, f, size, L, Shl(l, j), R);
    }

    /** One level of `ApplyBetween`: the odd bounds at height `j` are applied, then `l >>= 1` and `r >>= 1`. */
    method ApplyLevel(L: nat, R: nat, l: nat, r: nat, ghost j: nat, f: F, ghost E0: seq<T>) returns (l3: nat, r3: nat)
      requires log >= 1 && |lazy| == size && RangeState(MM, data, lazy, log - 1, L, R)
      requires 1 <= l < r && LeftBound(L, l, j) && r == Shr(R, j)
      requires MappedOutside(MM, Elements(MM, data, lazy), E0, f, size, L, Shl(l, j), Shl(r, j), R)
      modifies this
      ensures n == old(n) && size == old(size) && log == old(log) && |lazy| == size
      ensures 1 <= l3 <= r3 < r && LeftBound(L, l3, j + 1) && r3 == Shr(R, j + 1)
      ensures RangeState(MM, data, lazy, log - 1, L, R)
      ensures MappedOutside(MM, Elements(MM, data, lazy), E0, f, size, L, Shl(l3, j + 1), Shl(r3, j + 1), R)
    {
      LeftStepIndex(L, l, j);
      if r % 2 == 1 {
        RightStepIndex(R, j);
      }
      var l2 := ApplyLeft(L, R, l, r, j, f, E0);
      var r2 := ApplyRight(L, R, l2, r, j, f, E0);
      l3, r3 := l2 / 2, r2 / 2;
      assert l2 == 2 * l3 && r2 == 2 * r3;
      ShlDouble(l3, j);
      ShlDouble(r3, j);
    }

    /** The left half of one level of `ApplyBetween`: `apply(l, f)` when `l` is odd, and `l += 1`. */
    method ApplyLeft(L: nat, R: nat, l: nat, ghost r: nat, ghost j: nat, f: F, ghost E0: seq<T>) returns (l2: nat)
      requires log >= 1 && |lazy| == size && RangeState(MM, data, lazy, log - 1, L, R)
      requires 1 <= l < r && LeftBound(L, l, j) && r == Shr(R, j)
      requires MappedOutside(MM, Elements(MM, data, lazy), E0, f, size, L, Shl(l, j), Shl(r, j), R)
      modifies this
      ensures n == old(n) && size == old(size) && log == old(log) && |lazy| == size
      ensures l2 == (if l % 2 == 1 then l + 1 else l) && l2 <= r && L <= Shl(l2, j)
      ensures RangeState(MM, data, lazy, log - 1, L, R)
      ensures MappedOutside(MM, Elements(MM, data, lazy), E0, f, size, L, Shl(l2, j), Shl(r, j), R)
    {
      l2 := l;
      if l % 2 == 1 {
        ApplyLeftStep(MM, data, lazy, log - 1, L, R, l, r, j, f, E0);
        Apply(l, f);
        l2 := l + 1;
      } else {
        assert Shl(l - 1, j) < L <= Shl(l, j);
      }
    }

    /** The right half of one level of `ApplyBetween`: when `r` is odd, `r -= 1` and `apply(r, f)`. */
    method ApplyRight(L: nat, R: nat, ghost l: nat, r: nat, ghost j: nat, f: F, ghost E0: seq<T>) returns (r2: nat)
      requires log >= 1 && |lazy| == size && RangeState(MM, data, lazy, log - 1, L, R)
      requires l <= r && (r % 2 == 1 ==> l < r) && L <= Shl(l, j) && r == Shr(R, j)
      requires MappedOutside(MM, Elements(MM, data, lazy), E0, f, size, L, Shl(l, j), Shl(r, j), R)
      modifies this
      ensures n == old(n) && size == old(size) && log == old(log) && |lazy| == size
      ensures r2 == (if r % 2 == 1 then r - 1 else r) && l <= r2
      ensures RangeState(MM, data, lazy, log - 1, L, R)
      ensures MappedOutside(MM, Elements(MM, data, lazy), E0, f, size, L, Shl(l, j), Shl(r2, j), R)
    {
      r2 := r;
      if r % 2 == 1 {
        ApplyRightStep(MM, data, lazy, log - 1, L, R, l, r, j, f, E0);
        r2 := r - 1;
        Apply(r2, f);
      }
    }

    /**
     * The last loop of `apply_range_inner`, `for i in 1..=log`: bottom up,
     * `update(L >> i)` where `L` is not aligned at `i` and
     * `update((R - 1) >> i)` where `R` is not aligned, which restores the
     * node invariant at every boundary node.
     */
    method UpdateBoundaries(L: nat, R: nat)
      requires IsLawful(MM) && log >= 1 && size == Shl(1, log - 1) && |lazy| == size && n <= size
      requires RangeState(MM, data, lazy, log - 1, L, R)
      modifies this
      ensures Valid() && n == old(n) && size == old(size) && log == old(log)
      ensures Contents() == old(Contents())
    {
      ghost var h: nat := log - 1;
      var i := 1;
      while i <= log
        invariant 1 <= i <= log + 1 && n == old(n) && size == old(size) && log == old(log) && lazy == old(lazy)
        invariant |data| == 2 * size && PendingClean(MM, lazy, L, L, 1, log) && PendingClean(MM, lazy, R - 1, R, 1, log)
        invariant OkExcept(MM, data, lazy, h, L, R, i - 1, i - 1)
        invariant Elements(MM, data, lazy) == old(Elements(MM, data, lazy))
      {
        UpdateLeftStep(MM, data, lazy, h, L, R, i, i - 1);
        if Shl(Shr(L, i), i) != L {
          Update(Shr(L, i));
        }
        UpdateRightStep(MM, data, lazy, h, L, R, i, i);
        if Shl(Shr(R, i), i) != R {
          Update(Shr(R - 1, i));
        }
        i := i + 1;
      }
      OkEverywhere(MM, data, lazy, h, L, R, log, log);
    }

    /**
     * `apply_range_inner(l, r, f)`: up to `r == size`, every element of
     * `[l, r)` is mapped by `f` and no other element changes.  Past `size`
     * the loops run on as written (`ApplyRangeAsWritten`); `ok` is false
     * when an index past the end of `data` or `lazy` panics.
     */
    method ApplyRangeInner(l0: nat, r0: nat, f: F) returns (ok: bool)
      requires Valid() && l0 <= r0
      modifies this
      ensures n == old(n) && size == old(size) && log == old(log)
      ensures r0 <= size ==> ok && Valid() && Contents() == MapRange(MM, old(Contents()), f, l0, r0)
      ensures r0 > size ==>
        var w := ApplyRangeAsWritten(MM, old(data), old(lazy), size, log, l0, r0, f);
        ok == w.Some? && (ok ==> data == w.value.0 && lazy == w.value.1)
    {
      if r0 > size {
        var w := ApplyRangeAsWritten(MM, data, lazy, size, log, l0, r0, f);
        if w.None? {
          return false;
        }
        data, lazy := w.value.0, w.value.1;
        return true;
      }
      ok := true;
      if l0 == r0 {
        assert Contents() == MapRange(MM, Contents(), f, l0, r0);
        return;
      }
      var l, r := l0 + size, r0 + size;
      PushBoundaries(l, r);
      ApplyBetween(l, r, f);
      UpdateBoundaries(l, r);
    }

    /** `apply_range(range, f)`: `apply_range_inner` on `range`, whose missing end is `size`. */
    method ApplyRange(start: Bound, end: Bound, f: F) returns (ok: bool)
      requires Valid() && StartIndex(start) <= EndIndex(end, size)
      modifies this
      ensures n == old(n) && size == old(size) && log == old(log)
      ensures EndIndex(end, size) <= size ==>
        ok && Valid() && Contents() == MapRange(MM, old(Contents()), f, StartIndex(start), EndIndex(end, size))
      ensures EndIndex(end, size) > size ==>
        var w := ApplyRangeAsWritten(MM, old(data), old(lazy), size, log, StartIndex(start), EndIndex(end, size), f);
        ok == w.Some? && (ok ==> data == w.value.0 && lazy == w.value.1)
    {
      ok := ApplyRangeInner(StartIndex(start), EndIndex(end, size), f);
    }

    /**
     * `apply_range(range, f)` with the check the crate leaves out: a range
     * ending past `size` is refused and leaves the tree as it was.
     */
    method ApplyRangeChecked(start: Bound, end: Bound, f: F) returns (ok: bool)
      requires Valid() && StartIndex(start) <= EndIndex(end, size)
      modifies this
      ensures ok <==> EndIndex(end, old(size)) <= old(size)
      ensures !ok ==> unchanged(this)
      ensures ok ==>
        Valid() && n == old(n) && size == old(size) &&
        Contents() == MapRange(MM, old(Contents()), f, StartIndex(start), EndIndex(end, size))
    {
      if EndIndex(end, size) > size {
        return false;
      }
      ok := ApplyRangeInner(StartIndex(start), EndIndex(end, size), f);
    }

    /**
     * `max_right(l, g)`, for `g(id)` and `l <= n`: walking right from leaf
     * `l`, whole nodes are folded into `mv` while `g` keeps holding; at the
     * first node where it fails the walk descends to the leaf where it
     * fails, and when the walk runs off the right end the answer is `n`.
     */
    method MaxRight(l0: nat, g: T -> bool) returns (r: nat)
      requires Valid() && g(MM.M.id) && l0 <= n
      modifies this
      ensures Valid() && n == old(n) && size == old(size) && log == old(log)
      ensures Contents() == old(Contents())
      ensures MaxRightResult(MM.M, old(Contents()), l0, n, g, r)
    {
      if l0 == n {
        return n;
      }
      var l: nat := l0 + size;
      PushAncestors(l);
      ghost var E := Contents();
      ghost var h: nat := log - 1;
      var found, x, j, mv := MaxRightWalk(l0, g, l, E, h);
      if found {
        r := MaxRightDescend(l0, g, x, j, mv, E, h);
      } else {
        r := n;
      }
    }

    /**
     * The walk of `max_right` from leaf `L`, whose ancestors are clean: it
     * either finds the node `l` of height `j` where `g` first fails, `mv`
     * being the product up to it, or runs off the right end with `g`
     * holding on everything from `l0` on.
     */
    method MaxRightWalk(l0: nat, g: T -> bool, L: nat, ghost E: seq<T>, ghost h: nat)
      returns (found: bool, l: nat, ghost j: nat, mv: T)
      requires Valid() && g(MM.M.id) && l0 < n && L == l0 + size && PathClean(MM, lazy, L, 1, log)
      requires E == Contents() && h == log - 1
      ensures found ==> CleanFrom(MM, lazy, l / 2) && RightDescent(MM.M, E, h, l0, g, l, j, mv)
      ensures !found ==> g(Fold(MM.M, E[l0..]))
    {
      l, j, mv := L, 0, MM.M.id;
      assert E[l0..l0] == [];
      assert RightWalk(MM.M, E, h, L, l0, g, l, j, mv);
      var stop := false;
      found := false;
      while !stop
        invariant !stop ==> RightWalk(MM.M, E, h, L, l0, g, l, j, mv)
        invariant stop && found ==> CleanFrom(MM, lazy, l / 2) && RightDescent(MM.M, E, h, l0, g, l, j, mv)
        invariant stop && !found ==> g(Fold(MM.M, E[l0..]))
        decreases !stop, 2 * size - Shl(l, j)
      {
        l, j := RightWalkClimb(MM.M, E, h, L, l0, g, l, j, mv);
        MaxRightNode(L, E, h, l0, g, l, j, mv);
        stop, found, l, mv := RightWalkStep(MM.M, E, h, L, l0, g, l, j, mv, data[l]);
      }
    }

    /**
     * The odd node `l` the walk reads has clean ancestors, so it holds the
     * product of its leaves.
     */
    lemma MaxRightNode(L: nat, E: seq<T>, h: nat, l0: nat, g: T -> bool, l: nat, j: nat, mv: T)
      requires Valid() && PathClean(MM, lazy, L, 1, log) && E == Contents() && h == log - 1
      requires RightWalk(MM.M, E, h, L, l0, g, l, j, mv) && l % 2 == 1
      ensures CleanFrom(MM, lazy, l / 2) && Shl(l, j) < Shl(l + 1, j) <= 2 * |E|
      ensures data[l] == Fold(MM.M, E[Shl(l, j) - |E|..Shl(l + 1, j) - |E|])
    {
      RightWalkNode(MM.M, E, h, L, l0, g, l, j, mv);
      PathCleanFrom(MM, lazy, log - 1, L, j + 1);
      NodeFold(MM, data, lazy, E, h, l, j);
    }

    /** `push(k)` below clean ancestors: afterwards `k` is clean too. */
    method PushClean(k: nat)
      requires Valid() && 1 <= k < size && CleanFrom(MM, lazy, k / 2)
      modifies this
      ensures Valid() && n == old(n) && size == old(size) && log == old(log)
      ensures Contents() == old(Contents()) && CleanFrom(MM, lazy, k)
    {
      PushClears(MM, data, lazy, k);
      PushConsistent(MM, data, lazy, k);
      PushElements(MM, data, lazy, k);
      Push(k);
    }

    /** The descent of `max_right` is at node `x` of height `i`, whose ancestors are clean. */
    ghost predicate DescentAt(E: seq<T>, h: nat, l0: nat, g: T -> bool, x: nat, i: nat, m: T)
      reads this
    {
      Valid() && h == log - 1 && Contents() == E && CleanFrom(MM, lazy, x / 2) && RightDescent(MM.M, E, h, l0, g, x, i, m)
    }

    /**
     * The descent closing `max_right`: node `l`, clean above, is where `g`
     * first fails; each step pushes it and moves to its left child, or to
     * its right child after folding the left one in when `g` still holds.
     */
    method MaxRightDescend(l0: nat, g: T -> bool, l: nat, ghost j: nat, mv: T, ghost E: seq<T>, ghost h: nat) returns (r: nat)
      requires DescentAt(E, h, l0, g, l, j, mv)
      modifies this
      ensures Valid() && n == old(n) && size == old(size) && log == old(log)
      ensures Contents() == E && r < size && FirstFailure(MM.M, E, l0, g, r)
    {
      var x: nat, m := l, mv;
      ghost var i: nat := j;
      while x < size
        invariant DescentAt(E, h, l0, g, x, i, m) && n == old(n) && size == old(size) && log == old(log)
        decreases i
      {
        x, m := MaxRightChild(l0, g, x, i, m, E, h);
        i := i - 1;
      }
      r := x - size;
      RightDescentLeaf(MM.M, E, h, l0, g, x, i, m, r);
    }

    /** One step of that descent: push `x`, then move to the child where `g` first fails. */
    method MaxRightChild(l0: nat, g: T -> bool, x: nat, ghost i: nat, m: T, ghost E: seq<T>, ghost h: nat) returns (x2: nat, m2: T)
      requires DescentAt(E, h, l0, g, x, i, m) && x < size
      modifies this
      ensures DescentAt(E, h, l0, g, x2, i - 1, m2) && n == old(n) && size == old(size) && log == old(log)
      ensures i >= 1
    {
      PushClean(x);
      x2, m2 := RightChildStep(MM, data, lazy, E, h, l0, g, x, i, m);
    }

    /**
     * `min_left(r, g)`, for `g(id)` and `r <= n`, with the walk climbing
     * over right children (`while r > 1 && r % 2 == 1`) and `0` as the
     * answer when it reaches the left end: walking left from leaf `r - 1`,
     * whole nodes are folded into `mv` while `g` keeps holding; at the
     * first node where it fails the walk descends to the leaf where it
     * fails.
     */
    method MinLeft(r0: nat, g: T -> bool) returns (l: nat)
      requires Valid() && g(MM.M.id) && r0 <= n
      modifies this
      ensures Valid() && n == old(n) && size == old(size) && log == old(log)
      ensures Contents() == old(Contents())
      ensures MinLeftResult(MM.M, old(Contents()), r0, g, l)
    {
      if r0 == 0 {
        return 0;
      }
      var r: nat := r0 + size;
      PushAncestors(r - 1);
      ghost var E := Contents();
      ghost var h: nat := log - 1;
      var found, x, j, mv := MinLeftWalk(r0, g, r, E, h);
      if found {
        l := MinLeftDescend(r0, g, x, j, mv, E, h);
      } else {
        l := 0;
      }
    }

    /**
     * The walk of `min_left` from leaf `R - 1`, whose ancestors are clean:
     * it either finds the node `x` of height `j` where `g` first fails,
     * `mv` being the product from it to `r0`, or reaches the left end with
     * `g` holding on everything before `r0`.
     */
    method MinLeftWalk(r0: nat, g: T -> bool, R: nat, ghost E: seq<T>, ghost h: nat)
      returns (found: bool, x: nat, ghost j: nat, mv: T)
      requires Valid() && g(MM.M.id) && 1 <= r0 <= n && R == r0 + size && PathClean(MM, lazy, R - 1, 1, log)
      requires E == Contents() && h == log - 1
      ensures found ==> CleanFrom(MM, lazy, x / 2) && LeftDescent(MM.M, E, h, r0, g, x, j, mv)
      ensures !found ==> g(Fold(MM.M, E[..r0]))
    {
      x, j, mv := R - 1, 0, MM.M.id;
      assert E[r0..r0] == [];
      assert LeftWalk(MM.M, E, h, R, r0, g, x, j, mv);
      var stop := false;
      found := false;
      while !stop
        invariant !stop ==> LeftWalk(MM.M, E, h, R, r0, g, x, j, mv)
        invariant stop && found ==> CleanFrom(MM, lazy, x / 2) && LeftDescent(MM.M, E, h, r0, g, x, j, mv)
        invariant stop && !found ==> g(Fold(MM.M, E[..r0]))
        decreases !stop, Shl(x + 1, j)
      {
        x, j := LeftWalkClimb(MM.M, E, h, R, r0, g, x, j, mv);
        MinLeftNode(R, E, h, r0, g, x, j, mv);
        stop, found, x, mv := LeftWalkStep(MM.M, E, h, R, r0, g, x, j, mv, data[x]);
      }
    }

    /**
     * The node `x` the walk reads, the root or a left child, has clean
     * ancestors, so it holds the product of its leaves.
     */
    lemma MinLeftNode(R: nat, E: seq<T>, h: nat, r0: nat, g: T -> bool, x: nat, j: nat, mv: T)
      requires Valid() && R >= 1 && PathClean(MM, lazy, R - 1, 1, log) && E == Contents() && h == log - 1
      requires LeftWalk(MM.M, E, h, R, r0, g, x, j, mv) && (x == 1 || x % 2 == 0)
      ensures CleanFrom(MM, lazy, x / 2) && |E| <= Shl(x, j) < Shl(x + 1, j) <= R
      ensures data[x] == Fold(MM.M, E[Shl(x, j) - |E|..Shl(x + 1, j) - |E|])
    {
      LeftWalkNode(MM.M, E, h, R, r0, g, x, j, mv);
      if x / 2 != 0 {
        PathCleanFrom(MM, lazy, log - 1, R - 1, j + 1);
      }
      NodeFold(MM, data, lazy, E, h, x, j);
    }

    /** The descent of `min_left` is at node `x` of height `i`, whose ancestors are clean. */
    ghost predicate LeftDescentAt(E: seq<T>, h: nat, r0: nat, g: T -> bool, x: nat, i: nat, m: T)
      reads this
    {
      Valid() && h == log - 1 && Contents() == E && CleanFrom(MM, lazy, x / 2) && LeftDescent(MM.M, E, h, r0, g, x, i, m)
    }

    /**
     * The descent closing `min_left`: node `x`, clean above, is where `g`
     * first fails; each step pushes it and moves to its right child, or to
     * its left child after folding the right one in when `g` still holds.
     */
    method MinLeftDescend(r0: nat, g: T -> bool, x0: nat, ghost j: nat, mv: T, ghost E: seq<T>, ghost h: nat) returns (l: nat)
      requires LeftDescentAt(E, h, r0, g, x0, j, mv)
      modifies this
      ensures Valid() && n == old(n) && size == old(size) && log == old(log)
      ensures Contents() == E && LastFailure(MM.M, E, r0, g, l)
    {
      var x: nat, m := x0, mv;
      ghost var i: nat := j;
      while x < size
        invariant LeftDescentAt(E, h, r0, g, x, i, m) && n == old(n) && size == old(size) && log == old(log)
        decreases i
      {
        x, m := MinLeftChild(r0, g, x, i, m, E, h);
        i := i - 1;
      }
      l := x + 1 - size;
      LeftDescentLeaf(MM.M, E, h, r0, g, x, i, m, l);
    }

    /** One step of that descent: push `x`, then move to the child where `g` first fails. */
    method MinLeftChild(r0: nat, g: T -> bool, x: nat, ghost i: nat, m: T, ghost E: seq<T>, ghost h: nat) returns (x2: nat, m2: T)
      requires LeftDescentAt(E, h, r0, g, x, i, m) && x < size
      modifies this
      ensures LeftDescentAt(E, h, r0, g, x2, i - 1, m2) && n == old(n) && size == old(size) && log == old(log)
      ensures i >= 1
    {
      PushClean(x);
      x2, m2 := LeftChildStep(MM, data, lazy, E, h, r0, g, x, i, m);
    }

    /**
     * `min_left` as written: the walk climbs while `r % 2 == 0`, over left
     * children, and when it reaches the left end the answer is `n`. When
     * `g` always holds the answer is `n` for every `r0 >= 1`, where `0` is
     * meant.
     */
    method MinLeftAsWritten(r0: nat, g: T -> bool) returns (l: nat)
      requires Valid() && g(MM.M.id) && r0 <= n
      modifies this
      ensures Valid() && n == old(n) && size == old(size) && log == old(log)
      ensures Contents() == old(Contents())
      ensures r0 == 0 ==> l == 0
      ensures r0 >= 1 ==> l == n || 1 <= l <= size
      ensures r0 >= 1 && (forall v :: g(v)) ==> l == n
    {
      if r0 == 0 {
        return 0;
      }
      var r: nat := r0 + size;
      PushAncestors(r - 1);
      var found, x, mv := MinLeftAsWrittenWalk(g, r - 1);
      if !found {
        return n;
      }
      while x < size
        invariant Valid() && n == old(n) && size == old(size) && log == old(log)
        invariant Contents() == old(Contents()) && 1 <= x < 2 * size && CleanFrom(MM, lazy, x / 2)
        decreases 2 * size - x
      {
        PushClean(x);
        ghost var p := x;
        x := 2 * x + 1;
        var res := MM.M.op(data[x], mv);
        if g(res) {
          mv := res;
          x := x - 1;
        }
        assert x / 2 == p;
      }
      l := x + 1 - size;
    }

    /**
     * The walk of `min_left` as written, from leaf `X`, whose ancestors
     * are clean: climbing over left children it only ever reads ancestors
     * of `X`, and it stops at the first whose product, folded in, fails
     * `g`, or at the root.
     */
    method MinLeftAsWrittenWalk(g: T -> bool, X: nat) returns (found: bool, x: nat, mv: T)
      requires Valid() && size <= X < 2 * size && PathClean(MM, lazy, X, 1, log)
      ensures found ==> 1 <= x < 2 * size && CleanFrom(MM, lazy, x / 2)
      ensures (forall v :: g(v)) ==> !found
    {
      x, mv := X, MM.M.id;
      ghost var j: nat := 0;
      while true
        invariant 1 <= x <= X && (x == Shr(X, j) || (x + 1 == Shr(X, j) && x % 2 == 0))
        decreases x
      {
        while x % 2 == 0
          invariant 1 <= x <= X && (x == Shr(X, j) || (x + 1 == Shr(X, j) && x % 2 == 0))
          decreases x
        {
          x, j := x / 2, j + 1;
        }
        if !g(MM.M.op(data[x], mv)) {
          PathCleanFrom(MM, lazy, log - 1, X, j + 1);
          return true, x, mv;
        }
        mv := MM.M.op(data[x], mv);
        if LowBit(x) == x {
          return false, x, mv;
        }
        x := x - 1;
      }
    }
  }

  /**
   * The loop closing `query_inner`, on the slots `d` whose node values are
   * `v`: the nodes covering `[L, R)` are folded bottom up, left ones into
   * `vl` and right ones into `vr`, and the result is `op(vl, vr)`.
   */
  method FoldNodes<T(!new)>(M: Monoid<T>, ghost v: seq<T>, d: seq<T>, size: nat, L: nat, R: nat) returns (x: T)
    requires IsMonoid(M) && |v| == 2 * size && Summarised(M, v, size)
    requires 1 <= size <= L < R <= 2 * size && BoundariesAgree(v, d, L, R)
    ensures x == Fold(M, v[L..R])
  {
    QueryLoopFixedProduct(M, v, size, L, R, M.id, M.id);
    var l, r := L, R;
    var vl, vr := M.id, M.id;
    ghost var j := 0;
    while l < r
      invariant 1 <= l && r <= |d|
      invariant LeftBound(L, l, j) && r == Shr(R, j)
      invariant QueryLoopFixed(M, v, l, r, vl, vr) == Fold(M, v[L..R])
      decreases r
    {
      FoldStep(M, v, d, l, r, vl, vr);
      LeftStepIndex(L, l, j);
      if l % 2 == 1 {
        vl := M.op(vl, d[l]);
        l := l + 1;
      }
      if r % 2 == 1 {
        r := r - 1;
        vr := M.op(d[r], vr);
      }
      l, r, j := l / 2, r / 2, j + 1;
    }
    x := M.op(vl, vr);
  }
}
