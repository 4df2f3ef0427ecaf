/**
 * `query_inner` and `apply_range_inner` as written, for every `l <= r`,
 * including a right end past `size`, which the crate does not check.  The
 * state is the pair `(data, lazy)`; an index past the end of `data` or
 * `lazy` is a panic, which is `None`.
 */
module LazyAsWritten {
  import opened MathTraits
  import opened Wrappers
  import opened LazyMaps
  import opened LazyIndex
  import opened LazyState

  /** `push(k)`: reading `lazy[k]` panics unless `k` is an inner node. */
  function TryPush<T, F>(MM: MapMonoid<T, F>, s: (seq<T>, seq<F>), k: nat): (r: Option<(seq<T>, seq<F>)>)
    requires |s.0| == 2 * |s.1|
    ensures r.Some? <==> k < |s.1|
    ensures r.Some? ==> |r.value.0| == |s.0| && |r.value.1| == |s.1|
  {
    if k < |s.1| then Some(PushAt(MM, s.0, s.1, k)) else None
  }

  /** `apply(k, f)`: writing `data[k]` panics unless `k` is a slot. */
  function TryApply<T, F>(MM: MapMonoid<T, F>, s: (seq<T>, seq<F>), k: nat, f: F): (r: Option<(seq<T>, seq<F>)>)
    ensures r.Some? <==> k < |s.0|
    ensures r.Some? ==> |r.value.0| == |s.0| && |r.value.1| == |s.1|
  {
    if k < |s.0| then Some(ApplyNode(MM, s.0, s.1, k, f)) else None
  }

  /** `update(k)`: reading `data[2 * k + 1]` panics unless it is a slot. */
  function TryUpdate<T, F>(MM: MapMonoid<T, F>, data: seq<T>, k: nat): (r: Option<seq<T>>)
    ensures r.Some? <==> 2 * k + 1 < |data|
    ensures r.Some? ==> |r.value| == |data|
  {
    if 2 * k + 1 < |data| then Some(UpdateAt(MM, data, k)) else None
  }

  /**
   * The pushing loop at levels `i` down to `1`: `push(L >> i)` where `L`
   * is not aligned at `i`, then `push(Y >> i)` where `R` is not aligned,
   * with `Y == R` in `query_inner` and `Y == R - 1` in `apply_range_inner`.
   */
  function PushLevels<T, F>(MM: MapMonoid<T, F>, s: (seq<T>, seq<F>), L: nat, R: nat, Y: nat, i: nat): (r: Option<(seq<T>, seq<F>)>)
    requires |s.0| == 2 * |s.1|
    ensures r.Some? ==> |r.value.0| == |s.0| && |r.value.1| == |s.1|
    decreases i
  {
    if i == 0 then Some(s)
    else
      var s1 := if Shl(Shr(L, i), i) != L then TryPush(MM, s, Shr(L, i)) else Some(s);
      if s1.None? then None
      else
        var s2 := if Shl(Shr(R, i), i) != R then TryPush(MM, s1.value, Shr(Y, i)) else s1;
        if s2.None? then None else PushLevels(MM, s2.value, L, R, Y, i - 1)
  }

  /** The folding loop of `query_inner`: `vl` gathers the left nodes, `vr` the right ones. */
  function FoldLevels<T>(M: Monoid<T>, data: seq<T>, l: nat, r: nat, vl: T, vr: T): Option<T>
    decreases r
  {
    if l >= r then Some(M.op(vl, vr))
    else if (l % 2 == 1 && l >= |data|) || (r % 2 == 1 && r - 1 >= |data|) then None
    else
      var vl1 := if l % 2 == 1 then M.op(vl, data[l]) else vl;
      var l1 := if l % 2 == 1 then l + 1 else l;
      var vr1 := if r % 2 == 1 then M.op(data[r - 1], vr) else vr;
      var r1 := if r % 2 == 1 then r - 1 else r;
      FoldLevels(M, data, l1 / 2, r1 / 2, vl1, vr1)
  }

  /** The applying loop of `apply_range_inner`: `apply(l, f)` at odd `l`, `apply(r - 1, f)` at odd `r`. */
  function ApplyLevels<T, F>(MM: MapMonoid<T, F>, s: (seq<T>, seq<F>), l: nat, r: nat, f: F): (t: Option<(seq<T>, seq<F>)>)
    ensures t.Some? ==> |t.value.0| == |s.0| && |t.value.1| == |s.1|
    decreases r
  {
    if l >= r then Some(s)
    else
      var s1 := if l % 2 == 1 then TryApply(MM, s, l, f) else Some(s);
      if s1.None? then None
      else
        var l1 := if l % 2 == 1 then l + 1 else l;
        var s2 := if r % 2 == 1 then TryApply(MM, s1.value, r - 1, f) else s1;
        var r1 := if r % 2 == 1 then r - 1 else r;
        if s2.None? then None else ApplyLevels(MM, s2.value, l1 / 2, r1 / 2, f)
  }

  /**
   * The updating loop closing `apply_range_inner`, at levels `i` up to
   * `log`: `update(L >> i)` where `L` is not aligned at `i`, then
   * `update((R - 1) >> i)` where `R` is not aligned.
   */
  function UpdateLevels<T, F>(MM: MapMonoid<T, F>, data: seq<T>, L: nat, R: nat, i: nat, log: nat): (r: Option<seq<T>>)
    requires R >= 1
    ensures r.Some? ==> |r.value| == |data|
    decreases log + 1 - i
  {
    if i > log then Some(data)
    else
      var d1 := if Shl(Shr(L, i), i) != L then TryUpdate(MM, data, Shr(L, i)) else Some(data);
      if d1.None? then None
      else
        var d2 := if Shl(Shr(R, i), i) != R then TryUpdate(MM, d1.value, Shr(R - 1, i)) else d1;
        if d2.None? then None else UpdateLevels(MM, d2.value, L, R, i + 1, log)
  }

  /** `query_inner(l, r)` as written: the value it returns and the state it leaves, or a panic. */
  function QueryAsWritten<T, F>(MM: MapMonoid<T, F>, data: seq<T>, lz: seq<F>, size: nat, log: nat, l0: nat, r0: nat)
    : (w: Option<(T, seq<T>, seq<F>)>)
    requires |data| == 2 * |lz| && l0 <= r0
    ensures l0 == r0 ==> w == Some((MM.M.id, data, lz))
    ensures w.Some? ==> |w.value.1| == |data| && |w.value.2| == |lz|
  {
    if l0 == r0 then Some((MM.M.id, data, lz))
    else
      var L, R := l0 + size, r0 + size;
      var s := PushLevels(MM, (data, lz), L, R, R, log);
      if s.None? then None
      else
        var x := FoldLevels(MM.M, s.value.0, L, R, MM.M.id, MM.M.id);
        if x.None? then None else Some((x.value, s.value.0, s.value.1))
  }

  /** `apply_range_inner(l, r, f)` as written: the state it leaves, or a panic. */
  function ApplyRangeAsWritten<T, F>(MM: MapMonoid<T, F>, data: seq<T>, lz: seq<F>, size: nat, log: nat, l0: nat, r0: nat, f: F)
    : (w: Option<(seq<T>, seq<F>)>)
    requires |data| == 2 * |lz| && l0 <= r0
    ensures l0 == r0 ==> w == Some((data, lz))
    ensures w.Some? ==> |w.value.0| == |data| && |w.value.1| == |lz|
  {
    if l0 == r0 then Some((data, lz))
    else
      var L, R := l0 + size, r0 + size;
      var s := PushLevels(MM, (data, lz), L, R, R - 1, log);
      if s.None? then None
      else
        var t := ApplyLevels(MM, s.value, L, R, f);
        if t.None? then None
        else
          var d := UpdateLevels(MM, t.value.0, L, R, 1, log);
          if d.None? then None else Some((d.value, t.value.1))
  }

  // ---------------------------------------------------------------------
  // Past the end of the tree.
  // ---------------------------------------------------------------------

  /** Range multiply over range sum: a lawful `MapMonoid` on integers. */
  function SumMul(): (MM: MapMonoid<int, int>)
    ensures MM.M.id == 0 && MM.mapId == 1
  {
    MapMonoid(Monoid(0, (a: int, b: int) => a + b), 1, (f: int, x: int) => f * x, (f: int, g: int) => f * g)
  }

  lemma SumMulLawful()
    ensures IsLawful(SumMul())
  {
    var MM := SumMul();
    forall f: int, g: int, x: int
      ensures (f * g) * x == f * (g * x)
    {
    }
    forall f: int, a: int, b: int
      ensures f * (a + b) == f * a + f * b
    {
    }
    assert IsMonoid(MM.M);
  }

  /**
   * A tree of `size == 2` (`log == 2`) over the elements `[1, 10]`,
   * nothing pending: `data == [0, 11, 1, 10]`, `lazy == [1, 1]`.
   */
  lemma PastEndTree()
    ensures IsLawful(SumMul()) && Shl(1, 2 - 1) == 2
    ensures Consistent(SumMul(), [0, 11, 1, 10], [1, 1])
    ensures Elements(SumMul(), [0, 11, 1, 10], [1, 1]) == [1, 10]
  {
    SumMulLawful();
    assert Shl(1, 1) == 2 * Shl(1, 0);
    var MM := SumMul();
    assert LazyNodeOk(MM, [0, 11, 1, 10], [1, 1], 1);
    assert Val(MM, [0, 11, 1, 10], [1, 1], 2) == 1;
    assert Val(MM, [0, 11, 1, 10], [1, 1], 3) == 10;
  }

  /** The shifts the two past-end examples take, with `L == 2` and `R == 6`. */
  lemma PastEndShifts()
    ensures Shr(2, 2) == 0 && Shr(6, 2) == 1 && Shr(5, 2) == 1 && Shr(2, 1) == 1 && Shr(6, 1) == 3
    ensures Shl(0, 2) == 0 && Shl(1, 2) == 4 && Shl(1, 1) == 2 && Shl(3, 1) == 6
  {
    assert Shr(5, 1) == 2 && Shr(2, 1) == 1 && Shr(6, 1) == 3;
    assert Shl(1, 1) == 2 && Shl(3, 1) == 6;
  }

  /** Pushing a map `1` changes nothing. */
  lemma PushUnit(data: seq<int>, lz: seq<int>, k: nat)
    requires k < |lz| && |data| == 2 * |lz| && lz[k] == 1
    ensures PushAt(SumMul(), data, lz, k) == (data, lz)
  {
    var MM := SumMul();
    var s1 := ApplyNode(MM, data, lz, 2 * k, lz[k]);
    assert MM.apply(1, data[2 * k]) == data[2 * k];
    assert s1.0 == data;
    if 2 * k < |lz| {
      assert MM.composite(1, lz[2 * k]) == lz[2 * k];
    }
    assert s1.1 == lz;
    var s2 := ApplyNode(MM, s1.0, s1.1, 2 * k + 1, s1.1[k]);
    assert MM.apply(1, data[2 * k + 1]) == data[2 * k + 1];
    assert s2.0 == data;
    if 2 * k + 1 < |lz| {
      assert MM.composite(1, lz[2 * k + 1]) == lz[2 * k + 1];
    }
    assert s2.1 == lz;
    assert lz[k := MM.mapId] == lz;
  }

  /**
   * On that tree `query_inner(0, 4)`, with `r` twice `size`, does not
   * panic: it returns `12`, element `0` counted twice.
   */
  lemma QueryPastEnd()
    ensures Consistent(SumMul(), [0, 11, 1, 10], [1, 1]) && Elements(SumMul(), [0, 11, 1, 10], [1, 1]) == [1, 10]
    ensures QueryAsWritten(SumMul(), [0, 11, 1, 10], [1, 1], 2, 2, 0, 4) == Some((12, [0, 11, 1, 10], [1, 1]))
  {
    PastEndTree();
    var MM := SumMul();
    var s0: (seq<int>, seq<int>) := ([0, 11, 1, 10], [1, 1]);
    PastEndShifts();
    PushUnit(s0.0, s0.1, 0);
    PushUnit(s0.0, s0.1, 1);
    assert PushLevels(MM, s0, 2, 6, 6, 0) == Some(s0);
    assert PushLevels(MM, s0, 2, 6, 6, 1) == Some(s0);
    assert PushLevels(MM, s0, 2, 6, 6, 2) == Some(s0);
    assert FoldLevels(MM.M, s0.0, 1, 1, 11, 1) == Some(12);
    assert FoldLevels(MM.M, s0.0, 1, 3, 0, 0) == Some(12);
    assert FoldLevels(MM.M, s0.0, 2, 6, 0, 0) == Some(12);
  }

  /** The pushes of `apply_range_inner(0, 4, _)` on that tree change nothing. */
  lemma PastEndPushes()
    ensures PushLevels(SumMul(), ([0, 11, 1, 10], [1, 1]), 2, 6, 5, 2) == Some(([0, 11, 1, 10], [1, 1]))
  {
    var MM := SumMul();
    var s0: (seq<int>, seq<int>) := ([0, 11, 1, 10], [1, 1]);
    PastEndShifts();
    PushUnit(s0.0, s0.1, 0);
    PushUnit(s0.0, s0.1, 1);
    assert PushLevels(MM, s0, 2, 6, 5, 0) == Some(s0);
    assert PushLevels(MM, s0, 2, 6, 5, 1) == Some(s0);
  }

  /** Its applying loop maps node `1` and, past the range, leaf `2` (element `0` again). */
  lemma PastEndApplies()
    ensures ApplyLevels(SumMul(), ([0, 11, 1, 10], [1, 1]), 2, 6, 2) == Some(([0, 22, 2, 10], [1, 2]))
  {
    var MM := SumMul();
    var s0: (seq<int>, seq<int>) := ([0, 11, 1, 10], [1, 1]);
    var s1: (seq<int>, seq<int>) := ([0, 22, 1, 10], [1, 2]);
    var s2: (seq<int>, seq<int>) := ([0, 22, 2, 10], [1, 2]);
    assert MM.apply(2, 11) == 22 && MM.composite(2, 1) == 2 && MM.apply(2, 1) == 2;
    assert s0.0[1 := 22] == s1.0 && s0.1[1 := 2] == s1.1;
    assert TryApply(MM, s0, 1, 2) == Some(s1);
    assert s1.0[2 := 2] == s2.0;
    assert TryApply(MM, s1, 2, 2) == Some(s2);
    assert ApplyLevels(MM, s2, 1, 1, 2) == Some(s2);
    assert ApplyLevels(MM, s0, 1, 3, 2) == Some(s2);
  }

  /** Its updating loop recomputes node `1` from its children, dropping the map pending there. */
  lemma PastEndUpdates()
    ensures UpdateLevels(SumMul(), [0, 22, 2, 10], 2, 6, 1, 2) == Some([22, 12, 2, 10])
  {
    var MM := SumMul();
    PastEndShifts();
    assert UpdateLevels(MM, [22, 12, 2, 10], 2, 6, 3, 2) == Some([22, 12, 2, 10]);
    assert UpdateAt(MM, [0, 22, 2, 10], 0) == [22, 22, 2, 10];
    assert UpdateAt(MM, [22, 22, 2, 10], 1) == [22, 12, 2, 10];
    assert UpdateLevels(MM, [0, 22, 2, 10], 2, 6, 2, 2) == Some([22, 12, 2, 10]);
  }

  /**
   * On that tree `apply_range_inner(0, 4, 2)` does not panic either, and
   * leaves node `1` holding `1 * 2 + 10` under a pending `2`: the node
   * invariant no longer holds.
   */
  lemma ApplyRangePastEnd()
    ensures Consistent(SumMul(), [0, 11, 1, 10], [1, 1]) && Elements(SumMul(), [0, 11, 1, 10], [1, 1]) == [1, 10]
    ensures ApplyRangeAsWritten(SumMul(), [0, 11, 1, 10], [1, 1], 2, 2, 0, 4, 2) == Some(([22, 12, 2, 10], [1, 2]))
    ensures !Consistent(SumMul(), [22, 12, 2, 10], [1, 2])
  {
    PastEndTree();
    PastEndPushes();
    PastEndApplies();
    PastEndUpdates();
    assert !LazyNodeOk(SumMul(), [22, 12, 2, 10], [1, 2], 1);
  }
}
