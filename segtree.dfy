/**
 * `procon_segtree`: a bottom-up segment tree over a monoid.
 *
 * `data` has `2 * size` slots.  The elements are the leaves `data[size..]`,
 * and every inner node `j` (`1 <= j < size`) holds the product of its
 * children `2 * j` and `2 * j + 1`.  `size` is the least power of two that
 * holds all the elements, and `log` its exponent.
 */
module SegTree {
  import opened NumberTheory
  import opened MathTraits
  import opened Wrappers

  /** Node `j` holds the product of its two children. */
  ghost predicate NodeOk<T>(M: Monoid<T>, data: seq<T>, j: nat)
    requires 2 * j + 1 < |data|
  {
    data[j] == M.op(data[2 * j], data[2 * j + 1])
  }

  /** Every inner node of a tree with `2 * size` slots holds the product of its children. */
  ghost predicate Summarised<T>(M: Monoid<T>, data: seq<T>, size: nat)
    requires |data| == 2 * size
  {
    forall j :: 1 <= j < size ==> NodeOk(M, data, j)
  }

  /** Node `j` lies on the path from node `a` up to the root `1`. */
  predicate OnPathToRoot(j: nat, a: nat)
    decreases a
  {
    1 <= a && (j == a || OnPathToRoot(j, a / 2))
  }

  class SegTree<T(!new)> {
    const M: Monoid<T>
    var size: nat
    var log: nat
    var data: seq<T>

    ghost predicate Valid()
      reads this
    {
      size >= 1 && size == Pow(2, log) && |data| == 2 * size && Summarised(M, data, size)
    }

    /** The elements: the leaves `data[size..2 * size]`. */
    function Leaves(): seq<T>
      reads this
      requires |data| == 2 * size
    {
      data[size..]
    }

    /**
     * `From<Vec<T>>`: `size` is doubled from 1 until it holds `v`, the leaves
     * are `v` padded with `id`, and every node from `size - 1` down to `0` is
     * recomputed from its children.
     */
    constructor From(M0: Monoid<T>, v: seq<T>)
      ensures M == M0 && Valid()
      ensures |v| <= size && (size == 1 || size < 2 * |v|)
      ensures Leaves() == v + seq(size - |v|, _ => M0.id)
    {
      M := M0;
      var sz, lg := 1, 0;
      while |v| > sz
        invariant sz >= 1 && sz == Pow(2, lg)
        invariant sz == 1 || sz < 2 * |v|
      {
        sz, lg := sz * 2, lg + 1;
      }
      size, log := sz, lg;
      data := seq(sz, _ => M0.id) + v + seq(sz - |v|, _ => M0.id);
      new;
      var i := size;
      while i > 0
        invariant 0 <= i <= size && size == sz && log == lg && |data| == 2 * size
        invariant data[size..] == v + seq(size - |v|, _ => M.id)
        invariant forall j :: i <= j < size && 1 <= j ==> NodeOk(M, data, j)
      {
        i := i - 1;
        ghost var before := data;
        Update(i);
        forall j | i <= j < size && 1 <= j
          ensures NodeOk(M, data, j)
        {
          if j != i {
            assert NodeOk(M, before, j);
          }
        }
        assert data[size..] == before[size..];
      }
    }

    /** `new(n)`: a tree of `n` elements, all `id`. */
    static method New(M0: Monoid<T>, n: nat) returns (st: SegTree<T>)
      ensures fresh(st) && st.M == M0 && st.Valid()
      ensures n <= st.size && st.Leaves() == seq(st.size, _ => M0.id)
    {
      st := new SegTree.From(M0, seq(n, _ => M0.id));
      assert st.Leaves() == seq(st.size, _ => M0.id);
    }

    /** `get(idx)`: the element at `idx`. */
    function Get(idx: nat): (x: T)
      reads this
      requires |data| == 2 * size && idx < size
      ensures x == Leaves()[idx]
    {
      data[size + idx]
    }

    /** `update(j)`: node `j` becomes the product of its children; nothing else changes. */
    method Update(j: nat)
      requires 2 * j + 1 < |data|
      modifies this
      ensures size == old(size) && log == old(log)
      ensures data == old(data)[j := M.op(old(data)[2 * j], old(data)[2 * j + 1])]
    {
      data := data[j := M.op(data[2 * j], data[2 * j + 1])];
    }

    /**
     * `set(idx, v)` as written: the leaf is stored, and then the shifts
     * `0..=log` are walked, the first being `update(leaf >> 0)`.  The children
     * of the leaf itself lie past the end of `data`, so every call panics
     * there, leaving the leaf written and no inner node recomputed.
     */
    method SetAsWritten(idx: nat, v: T) returns (panicked: bool)
      requires Valid() && idx < size
      modifies this
      ensures panicked
      ensures size == old(size) && log == old(log) && data == old(data)[size + idx := v]
    {
      var leaf := idx + size;
      data := data[leaf := v];
      var first := leaf / Pow(2, 0);
      panicked := !(2 * first + 1 < |data|);
    }

    /**
     * `set(idx, v)` with the shifts `1..=log`: the leaf is stored and its
     * ancestors are recomputed bottom up, so the tree stays summarised.
     */
    method Set(idx: nat, v: T)
      requires Valid() && idx < size
      modifies this
      ensures Valid() && size == old(size) && log == old(log)
      ensures Leaves() == old(Leaves())[idx := v]
    {
      var leaf := idx + size;
      ghost var before := data;
      data := data[leaf := v];
      forall j | 1 <= j < size && !OnPathToRoot(j, leaf / 2)
        ensures NodeOk(M, data, j)
      {
        assert NodeOk(M, before, j);
      }
      var s := 1;
      var a := leaf / 2;
      ghost var p := size;
      while s <= log
        invariant 1 <= s <= log + 1
        invariant size == old(size) && log == old(log) && |data| == 2 * size
        invariant p == Pow(2, log + 1 - s) && 1 <= p <= size && p / 2 <= a < p
        invariant data[size..] == old(data)[size..][idx := v]
        invariant forall j :: 1 <= j < size && !OnPathToRoot(j, a) ==> NodeOk(M, data, j)
      {
        ghost var prev := data;
        Update(a);
        forall j | 1 <= j < size && !OnPathToRoot(j, a / 2)
          ensures NodeOk(M, data, j)
        {
          if j != a {
            assert !OnPathToRoot(j, a);
            assert NodeOk(M, prev, j);
          }
        }
        assert data[size..] == prev[size..];
        s, a, p := s + 1, a / 2, p / 2;
      }
    }

    /**
     * `query_inner(l, r)` as written.  The result is the loop `QueryLoop`
     * over the slots `[size + l, size + r)`: `None` where the loop reads a
     * slot past the end of `data` (a panic), which never happens when
     * `r <= size`.  It is the product of the elements `[l, r)` when the
     * monoid is commutative.
     */
    method QueryInner(l0: nat, r0: nat) returns (x: Option<T>)
      requires Valid() && l0 <= r0
      ensures x == QueryLoop(M, data, size + l0, size + r0, M.id)
      ensures r0 <= size ==> x.Some?
    {
      var m, d := M, data;
      var ret := m.id;
      var l: nat, r: nat := size + l0, size + r0;
      ghost var goal := QueryLoop(m, d, l, r, ret);
      if r0 <= size {
        QueryLoopInRange(m, d, l, r, ret);
      }
      while l < r
        invariant l <= r && QueryLoop(m, d, l, r, ret) == goal
        decreases r
      {
        ghost var pl, pr, pret := l, r, ret;
        if (l % 2 == 1 && l >= |d|) || (r % 2 == 1 && r - 1 >= |d|) {
          return None;
        }
        if l % 2 == 1 {
          ret := m.op(ret, d[l]);
          l := l + 1;
        }
        if r % 2 == 1 {
          ret := m.op(ret, d[r - 1]);
        }
        l, r := l / 2, r / 2;
        assert QueryLoop(m, d, pl, pr, pret) == QueryLoop(m, d, l, r, ret);
      }
      x := Some(ret);
    }

    /**
     * The evidently intended `query_inner(l, r)`: left boundary nodes are
     * folded into `sml` on the right and right boundary nodes into `smr` on
     * the left, so the product keeps the order of the elements.
     */
    method QueryFixed(l0: nat, r0: nat) returns (x: T)
      requires Valid() && l0 <= r0 <= size
      ensures x == QueryLoopFixed(M, data, size + l0, size + r0, M.id, M.id)
    {
      var m, d := M, data;
      var sml, smr := m.id, m.id;
      var l: nat, r: nat := size + l0, size + r0;
      ghost var goal := QueryLoopFixed(m, d, l, r, sml, smr);
      while l < r
        invariant l <= r <= |d| && QueryLoopFixed(m, d, l, r, sml, smr) == goal
        decreases r
      {
        ghost var pl, pr, psml, psmr := l, r, sml, smr;
        if l % 2 == 1 {
          sml := m.op(sml, d[l]);
          l := l + 1;
        }
        if r % 2 == 1 {
          r := r - 1;
          smr := m.op(d[r], smr);
        }
        l, r := l / 2, r / 2;
        assert QueryLoopFixed(m, d, pl, pr, psml, psmr) == QueryLoopFixed(m, d, l, r, sml, smr);
      }
      x := m.op(sml, smr);
    }

    /**
     * `query(range)` as written: the range becomes `query_inner(start, end)`,
     * an unbounded end being `size`.
     */
    method Query(start: Bound, end: Bound) returns (x: Option<T>)
      requires Valid() && StartIndex(start) <= EndIndex(end, size)
      ensures x == QueryLoop(M, data, size + StartIndex(start), size + EndIndex(end, size), M.id)
      ensures EndIndex(end, size) <= size && IsMonoid(M) && IsCommutative(M) ==>
        x == Some(Fold(M, Leaves()[StartIndex(start)..EndIndex(end, size)]))
    {
      var l, r := StartIndex(start), EndIndex(end, size);
      if r <= size {
        QueryInnerCommutative(M, data, size, l, r);
      }
      x := QueryInner(l, r);
    }

    /**
     * The evidently intended `query(range)`: a range ending past `size` is
     * refused, and any other is the product of its elements, in order.
     */
    method QueryCorrected(start: Bound, end: Bound) returns (x: Option<T>)
      requires Valid() && StartIndex(start) <= EndIndex(end, size)
      ensures x.Some? <==> EndIndex(end, size) <= size
      ensures x.Some? && IsMonoid(M) ==> x.value == Fold(M, Leaves()[StartIndex(start)..EndIndex(end, size)])
    {
      var l, r := StartIndex(start), EndIndex(end, size);
      if r > size {
        return None;
      }
      var y := QueryFixed(l, r);
      QueryFixedCorrect(M, data, size, l, r);
      x := Some(y);
    }
  }

  /**
   * The loop of `query_inner` on the slots `[l, r)`, as written: a left
   * boundary node and then a right boundary node are both folded into the
   * one accumulator `ret`, on its right, before moving one level up.  A
   * read past the end of `data` panics, which is `None`.
   */
  function QueryLoop<T>(M: Monoid<T>, data: seq<T>, l: nat, r: nat, ret: T): Option<T>
    decreases r
  {
    if l >= r then Some(ret)
    else if (l % 2 == 1 && l >= |data|) || (r % 2 == 1 && r - 1 >= |data|) then None
    else
      var ret1 := if l % 2 == 1 then M.op(ret, data[l]) else ret;
      var l1 := if l % 2 == 1 then l + 1 else l;
      var ret2 := if r % 2 == 1 then M.op(ret1, data[r - 1]) else ret1;
      QueryLoop(M, data, l1 / 2, r / 2, ret2)
  }

  /** Within the slots of `data` the loop never panics. */
  lemma {:induction false} QueryLoopInRange<T>(M: Monoid<T>, data: seq<T>, l: nat, r: nat, ret: T)
    requires r <= |data|
    ensures QueryLoop(M, data, l, r, ret).Some?
    decreases r
  {
    if l < r {
      var ret1 := if l % 2 == 1 then M.op(ret, data[l]) else ret;
      var l1 := if l % 2 == 1 then l + 1 else l;
      var ret2 := if r % 2 == 1 then M.op(ret1, data[r - 1]) else ret1;
      QueryLoopInRange(M, data, l1 / 2, r / 2, ret2);
    }
  }

  /** On a summarised tree with a commutative monoid, `query_inner(l, r)` is the product of the elements `[l, r)`. */
  lemma QueryInnerCommutative<T(!new)>(M: Monoid<T>, data: seq<T>, size: nat, l: nat, r: nat)
    requires |data| == 2 * size && size >= 1 && Summarised(M, data, size) && l <= r <= size
    ensures IsMonoid(M) && IsCommutative(M) ==>
      QueryLoop(M, data, size + l, size + r, M.id) == Some(Fold(M, data[size..][l..r]))
  {
    if IsMonoid(M) && IsCommutative(M) {
      QueryLoopCommutative(M, data, size, size + l, size + r, M.id);
      assert data[size..][l..r] == data[size + l..size + r];
    }
  }

  /**
   * The loop of the evidently intended `query_inner` on the slots `[l, r)`:
   * left boundary nodes are folded into `sml` on its right, right boundary
   * nodes into `smr` on its left, and the result is `op(sml, smr)`.
   */
  function QueryLoopFixed<T>(M: Monoid<T>, data: seq<T>, l: nat, r: nat, sml: T, smr: T): T
    requires r <= |data|
    decreases r
  {
    if l >= r then M.op(sml, smr)
    else
      var sml1 := if l % 2 == 1 then M.op(sml, data[l]) else sml;
      var l1 := if l % 2 == 1 then l + 1 else l;
      var smr1 := if r % 2 == 1 then M.op(data[r - 1], smr) else smr;
      QueryLoopFixed(M, data, l1 / 2, r / 2, sml1, smr1)
  }

  /** On a summarised tree the intended loop yields `sml`, the product of the slots `[l, r)`, then `smr`. */
  lemma {:induction false} QueryLoopFixedProduct<T(!new)>(M: Monoid<T>, data: seq<T>, size: nat, l: nat, r: nat, sml: T, smr: T)
    requires IsMonoid(M)
    requires |data| == 2 * size && Summarised(M, data, size)
    requires 1 <= l <= r <= 2 * size
    ensures QueryLoopFixed(M, data, l, r, sml, smr) == M.op(M.op(sml, Fold(M, data[l..r])), smr)
    decreases r
  {
    if l < r {
      var sml1 := if l % 2 == 1 then M.op(sml, data[l]) else sml;
      var l1 := if l % 2 == 1 then l + 1 else l;
      var smr1 := if r % 2 == 1 then M.op(data[r - 1], smr) else smr;
      var r2 := if r % 2 == 1 then r - 1 else r;
      assert QueryLoopFixed(M, data, l, r, sml, smr) == QueryLoopFixed(M, data, l1 / 2, r / 2, sml1, smr1);
      var a, b := l1 / 2, r / 2;
      assert 2 * a == l1 && 2 * b == r2;
      QueryLoopFixedProduct(M, data, size, a, b, sml1, smr1);
      Halve(M, data, size, a, b);
      assert Fold(M, data[l1..r2]) == Fold(M, data[a..b]);
      if l % 2 == 1 {
        LeftStep(M, data, l, r, sml, smr);
      }
      assert M.op(M.op(sml1, Fold(M, data[l1..r])), smr) == M.op(M.op(sml, Fold(M, data[l..r])), smr);
      if r % 2 == 1 {
        RightStep(M, data, l1, r, sml1, smr);
      }
      assert M.op(M.op(sml1, Fold(M, data[l1..r2])), smr1) == M.op(M.op(sml1, Fold(M, data[l1..r])), smr);
    } else {
      assert data[l..r] == [];
    }
  }

  /** On a summarised tree with a lawful monoid, the intended `query_inner(l, r)` is the product of the elements `[l, r)`. */
  lemma QueryFixedCorrect<T(!new)>(M: Monoid<T>, data: seq<T>, size: nat, l: nat, r: nat)
    requires |data| == 2 * size && size >= 1 && Summarised(M, data, size) && l <= r <= size
    ensures IsMonoid(M) ==>
      QueryLoopFixed(M, data, size + l, size + r, M.id, M.id) == Fold(M, data[size..][l..r])
  {
    if IsMonoid(M) {
      QueryLoopFixedProduct(M, data, size, size + l, size + r, M.id, M.id);
      assert data[size..][l..r] == data[size + l..size + r];
    }
  }

  /** In a commutative monoid the loop yields `ret` times the product of the slots `[l, r)`. */
  lemma {:induction false} QueryLoopCommutative<T(!new)>(M: Monoid<T>, data: seq<T>, size: nat, l: nat, r: nat, ret: T)
    requires IsMonoid(M) && IsCommutative(M)
    requires |data| == 2 * size && Summarised(M, data, size)
    requires 1 <= l <= r <= 2 * size
    ensures QueryLoop(M, data, l, r, ret) == Some(M.op(ret, Fold(M, data[l..r])))
    decreases r
  {
    if l < r {
      var ret1 := if l % 2 == 1 then M.op(ret, data[l]) else ret;
      var l1 := if l % 2 == 1 then l + 1 else l;
      var ret2 := if r % 2 == 1 then M.op(ret1, data[r - 1]) else ret1;
      var r2 := if r % 2 == 1 then r - 1 else r;
      assert QueryLoop(M, data, l, r, ret) == QueryLoop(M, data, l1 / 2, r / 2, ret2);
      var a, b := l1 / 2, r / 2;
      assert 2 * a == l1 && 2 * b == r2;
      QueryLoopCommutative(M, data, size, a, b, ret2);
      Halve(M, data, size, a, b);
      assert Fold(M, data[l1..r2]) == Fold(M, data[a..b]);
      if l % 2 == 1 {
        LeftStep(M, data, l, r, ret, M.id);
      }
      assert M.op(ret1, Fold(M, data[l1..r])) == M.op(ret, Fold(M, data[l..r]));
      if r % 2 == 1 {
        RightStepCommutative(M, data, l1, r, ret1);
      }
      assert M.op(ret2, Fold(M, data[l1..r2])) == M.op(ret1, Fold(M, data[l1..r]));
    } else {
      assert data[l..r] == [];
    }
  }

  /** Folding the left boundary slot `l` into the left accumulator keeps the product. */
  lemma LeftStep<T(!new)>(M: Monoid<T>, data: seq<T>, l: nat, r: nat, sml: T, smr: T)
    requires IsMonoid(M) && l < r <= |data|
    ensures M.op(M.op(M.op(sml, data[l]), Fold(M, data[l + 1..r])), smr)
         == M.op(M.op(sml, Fold(M, data[l..r])), smr)
    ensures M.op(M.op(sml, data[l]), Fold(M, data[l + 1..r])) == M.op(sml, Fold(M, data[l..r]))
  {
    FoldFirst(M, data[l..r]);
    assert data[l..r][1..] == data[l + 1..r];
  }

  /** Folding the right boundary slot `r - 1` into the right accumulator keeps the product. */
  lemma RightStep<T(!new)>(M: Monoid<T>, data: seq<T>, l: nat, r: nat, sml: T, smr: T)
    requires IsMonoid(M) && l < r <= |data|
    ensures M.op(M.op(sml, Fold(M, data[l..r - 1])), M.op(data[r - 1], smr))
         == M.op(M.op(sml, Fold(M, data[l..r])), smr)
  {
    assert data[l..r][..r - 1 - l] == data[l..r - 1];
  }

  /** With a commutative monoid the right boundary slot may be folded into the one accumulator. */
  lemma RightStepCommutative<T(!new)>(M: Monoid<T>, data: seq<T>, l: nat, r: nat, ret: T)
    requires IsMonoid(M) && IsCommutative(M) && l < r <= |data|
    ensures M.op(M.op(ret, data[r - 1]), Fold(M, data[l..r - 1])) == M.op(ret, Fold(M, data[l..r]))
  {
    assert data[l..r][..r - 1 - l] == data[l..r - 1];
  }

  /** The product of a non-empty sequence is its first element times the product of the rest. */
  lemma FoldFirst<T(!new)>(M: Monoid<T>, s: seq<T>)
    requires IsMonoid(M) && |s| >= 1
    ensures Fold(M, s) == M.op(s[0], Fold(M, s[1..]))
  {
    assert s == [s[0]] + s[1..];
    FoldAppend(M, [s[0]], s[1..]);
    FoldSingle(M, s[0]);
  }

  /** The slots `[2a, 2b)` have the same product as their parents `[a, b)`. */
  lemma {:induction false} Halve<T(!new)>(M: Monoid<T>, data: seq<T>, size: nat, a: nat, b: nat)
    requires IsMonoid(M)
    requires |data| == 2 * size && Summarised(M, data, size)
    requires 1 <= a <= b <= size
    ensures Fold(M, data[2 * a..2 * b]) == Fold(M, data[a..b])
    decreases b - a
  {
    if a == b {
      assert data[2 * a..2 * b] == [] && data[a..b] == [];
    } else {
      Halve(M, data, size, a, b - 1);
      assert NodeOk(M, data, b - 1);
      HalveLast(M, data, a, b);
      FoldLastSlot(M, data, a, b);
    }
  }

  /** The last two slots of `[2a, 2b)` fold to their parent `b - 1`. */
  lemma HalveLast<T(!new)>(M: Monoid<T>, data: seq<T>, a: nat, b: nat)
    requires IsMonoid(M) && 1 <= a < b && 2 * b <= |data| && NodeOk(M, data, b - 1)
    ensures Fold(M, data[2 * a..2 * b]) == M.op(Fold(M, data[2 * a..2 * b - 2]), data[b - 1])
  {
    var lower, pair := data[2 * a..2 * b - 2], data[2 * b - 2..2 * b];
    assert data[2 * a..2 * b] == lower + pair;
    FoldAppend(M, lower, pair);
    assert pair == [data[2 * (b - 1)]] + [data[2 * (b - 1) + 1]];
    FoldAppend(M, [data[2 * (b - 1)]], [data[2 * (b - 1) + 1]]);
    FoldSingle(M, data[2 * (b - 1)]);
    FoldSingle(M, data[2 * (b - 1) + 1]);
  }

  /** The product of the slots `[a, b)` is that of `[a, b - 1)` times slot `b - 1`. */
  lemma FoldLastSlot<T>(M: Monoid<T>, data: seq<T>, a: nat, b: nat)
    requires a < b <= |data|
    ensures Fold(M, data[a..b]) == M.op(Fold(M, data[a..b - 1]), data[b - 1])
  {
    assert data[a..b][..b - 1 - a] == data[a..b - 1];
  }

  /** Concatenation of integer sequences. */
  function Concat(): Monoid<seq<int>>
  {
    Monoid([], (a: seq<int>, b: seq<int>) => a + b)
  }

  /** Concatenation is a lawful monoid that is not commutative. */
  lemma ConcatLawful()
    ensures IsMonoid(Concat()) && !IsCommutative(Concat())
  {
    var M := Concat();
    ConcatLaws();
    assert M.op([0], [1])[0] != M.op([1], [0])[0];
  }

  lemma ConcatLaws()
    ensures forall a: seq<int> :: [] + a == a && a + [] == a
    ensures forall a: seq<int>, b: seq<int>, c: seq<int> :: (a + b) + c == a + (b + c)
  {
    forall a: seq<int>
      ensures [] + a == a && a + [] == a
    {
    }
    forall a: seq<int>, b: seq<int>, c: seq<int>
      ensures (a + b) + c == a + (b + c)
    {
    }
  }

  /** The tree of the counterexample: leaves `[0]`, `[1]`, `[2]`, `[3]` under concatenation. */
  function CounterexampleTree(): seq<seq<int>>
  {
    [[], [0, 1, 2, 3], [0, 1], [2, 3], [0], [1], [2], [3]]
  }

  /**
   * `query_inner` is wrong for a monoid that is not commutative: on the
   * summarised tree with leaves `[0]`, `[1]`, `[2]`, `[3]` under
   * concatenation, the query of `[0, 3)` yields `[2, 0, 1]` while the
   * product of those elements is `[0, 1, 2]`.
   */
  lemma QueryInnerNotCommutative()
    ensures IsMonoid(Concat()) && !IsCommutative(Concat())
    ensures |CounterexampleTree()| == 2 * 4 && Summarised(Concat(), CounterexampleTree(), 4)
    ensures QueryLoop(Concat(), CounterexampleTree(), 4 + 0, 4 + 3, Concat().id) == Some([2, 0, 1])
    ensures Fold(Concat(), CounterexampleTree()[4..][0..3]) == [0, 1, 2]
  {
    CounterexampleSummarised();
    CounterexampleQuery();
    CounterexampleFold();
    ConcatLawful();
  }

  lemma CounterexampleSummarised()
    ensures |CounterexampleTree()| == 2 * 4 && Summarised(Concat(), CounterexampleTree(), 4)
  {
    var M, data := Concat(), CounterexampleTree();
    assert data[1] == data[2] + data[3] && data[2] == data[4] + data[5] && data[3] == data[6] + data[7];
    assert NodeOk(M, data, 1) && NodeOk(M, data, 2) && NodeOk(M, data, 3);
  }

  lemma CounterexampleQuery()
    ensures QueryLoop(Concat(), CounterexampleTree(), 4 + 0, 4 + 3, Concat().id) == Some([2, 0, 1])
  {
    var M, data := Concat(), CounterexampleTree();
    assert M.op([], data[6]) == [2];
    assert M.op([2], data[2]) == [2, 0, 1];
    assert QueryLoop(M, data, 4, 7, []) == QueryLoop(M, data, 2, 3, [2]);
    assert QueryLoop(M, data, 2, 3, [2]) == QueryLoop(M, data, 1, 1, [2, 0, 1]);
  }

  lemma CounterexampleFold()
    ensures Fold(Concat(), CounterexampleTree()[4..][0..3]) == [0, 1, 2]
  {
    var M, data := Concat(), CounterexampleTree();
    var leaves: seq<seq<int>> := [[0], [1], [2]];
    assert data[4..][0..3] == leaves;
    assert leaves[..2] == [[0], [1]] && [[0], [1]][..1] == [[0]] && [[0]][..0] == [];
    assert Fold(M, [[0]]) == [] + [0] == [0];
    assert Fold(M, [[0], [1]]) == [0] + [1] == [0, 1];
    assert Fold(M, leaves) == [0, 1] + [2] == [0, 1, 2];
  }

  /**
   * `query_inner` does not check `r` against `size`.  On the tree of the
   * counterexample (`size == 4`), `query(0..6)` reads the leaf `[0]` and
   * then the root, and yields `[0, 0, 1, 2, 3]` without panicking, while
   * `query(0..9)` reads slot 12 of 8 and panics.
   */
  lemma QueryPastEndExample()
    ensures QueryLoop(Concat(), CounterexampleTree(), 4 + 0, 4 + 6, Concat().id) == Some([0, 0, 1, 2, 3])
    ensures QueryLoop(Concat(), CounterexampleTree(), 4 + 0, 4 + 9, Concat().id) == None
  {
    var M, data := Concat(), CounterexampleTree();
    assert M.op([], data[4]) == [0];
    assert M.op([0], data[1]) == [0, 0, 1, 2, 3];
    assert QueryLoop(M, data, 4, 10, []) == QueryLoop(M, data, 2, 5, []);
    assert QueryLoop(M, data, 2, 5, []) == QueryLoop(M, data, 1, 2, [0]);
    assert QueryLoop(M, data, 1, 2, [0]) == QueryLoop(M, data, 1, 1, [0, 0, 1, 2, 3]);
  }
}
