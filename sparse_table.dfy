// Sparse table for idempotent range queries (minimum or maximum) on a
// fixed sequence. The table stores indices: entry [i][k] is the index of
// a best element of the window [i, i + 2^k). A query over [l, r] looks up
// the two (possibly overlapping) windows of length 2^floor(log2(r-l+1))
// that start at l and end at r.

module SparseTable {
  import opened NumberTheory
  import opened Wrappers

  /** Which extremum the table answers. */
  datatype Op = Min | Max

  /** `a` is strictly better than `b`: strictly smaller for Min, strictly larger for Max. */
  predicate Compare(op: Op, a: int, b: int)
  {
    match op
    case Min => a < b
    case Max => a > b
  }

  /** `t` is an index in [lo, hi) inside `v` and no element of v[lo..hi] is strictly better than v[t]. */
  ghost predicate OptimalIn(op: Op, v: seq<int>, t: int, lo: int, hi: int)
  {
    && 0 <= lo <= t < hi <= |v|
    && forall j {:trigger Compare(op, v[j], v[t])} :: lo <= j < hi ==> !Compare(op, v[j], v[t])
  }

  /** floor(log2(x)), with both 0 and 1 mapped to 0 as the `logs` table does. */
  function FloorLog2(x: nat): nat
  {
    if x <= 1 then 0 else 1 + FloorLog2(x / 2)
  }

  lemma {:induction false} FloorLog2Bounds(x: nat)
    requires x >= 1
    ensures Pow(2, FloorLog2(x)) <= x < 2 * Pow(2, FloorLog2(x))
  {
    if x > 1 {
      FloorLog2Bounds(x / 2);
    }
  }

  lemma {:induction false} FloorLog2Monotone(x: nat, y: nat)
    requires x <= y
    ensures FloorLog2(x) <= FloorLog2(y)
  {
    if x > 1 {
      FloorLog2Monotone(x / 2, y / 2);
    }
  }

  /** The largest k with 2^k <= x is floor(log2(x)). */
  lemma {:induction false} FloorLog2Largest(x: nat, k: nat)
    requires Pow(2, k) <= x
    ensures k <= FloorLog2(x)
  {
    if k > 0 {
      FloorLog2Largest(x / 2, k - 1);
    }
  }

  /** The index `new` keeps when combining the candidates `a` and `b`: `a` only if strictly better. */
  function Better(op: Op, v: seq<int>, a: nat, b: nat): nat
    requires a < |v| && b < |v|
  {
    if Compare(op, v[a], v[b]) then a else b
  }

  /** Two overlapping or adjacent windows with their best indices combine into the union's best index. */
  lemma CombineOptimal(op: Op, v: seq<int>, a: nat, b: nat, lo1: nat, hi1: nat, lo2: nat, hi2: nat)
    requires lo1 <= lo2 <= hi1 <= hi2 <= |v|
    requires OptimalIn(op, v, a, lo1, hi1) && OptimalIn(op, v, b, lo2, hi2)
    ensures OptimalIn(op, v, Better(op, v, a, b), lo1, hi2)
  {
    var t := Better(op, v, a, b);
    forall j | lo1 <= j < hi2
      ensures !Compare(op, v[j], v[t])
    {
      if j < hi1 {
        assert !Compare(op, v[j], v[a]);
      } else {
        assert !Compare(op, v[j], v[b]);
      }
    }
  }

  /**
   * The value `new` leaves at table[i][k]: i for k = 0; for a window
   * [i, i + 2^k) inside the data, the better of the two half windows;
   * 0 (the initial fill) for a window that does not fit.
   */
  function Entry(op: Op, v: seq<int>, i: nat, k: nat): (r: nat)
    ensures i < |v| ==> r < |v|
    decreases k
  {
    if k == 0 then i
    else if i + Pow(2, k) <= |v| then
      PowTwoMonotone(0, k - 1);
      Better(op, v, Entry(op, v, i, k - 1), Entry(op, v, i + Pow(2, k - 1), k - 1))
    else 0
  }

  /** Unfolds one level of `Entry` for a window that fits. */
  lemma EntryStep(op: Op, v: seq<int>, i: nat, k: nat)
    requires 1 <= k && i + Pow(2, k) <= |v|
    ensures Pow(2, k) == 2 * Pow(2, k - 1) && 1 <= Pow(2, k - 1)
    ensures Entry(op, v, i, k) == Better(op, v, Entry(op, v, i, k - 1), Entry(op, v, i + Pow(2, k - 1), k - 1))
  {
    PowTwoMonotone(0, k - 1);
  }

  /** The doubling step of `EntryOptimal`. */
  lemma EntryOptimalStep(op: Op, v: seq<int>, i: nat, k: nat)
    requires 1 <= k && i + Pow(2, k) <= |v|
    requires OptimalIn(op, v, Entry(op, v, i, k - 1), i, i + Pow(2, k - 1))
    requires OptimalIn(op, v, Entry(op, v, i + Pow(2, k - 1), k - 1), i + Pow(2, k - 1), i + Pow(2, k))
    ensures OptimalIn(op, v, Entry(op, v, i, k), i, i + Pow(2, k))
  {
    EntryStep(op, v, i, k);
    var h := Pow(2, k - 1);
    CombineOptimal(op, v, Entry(op, v, i, k - 1), Entry(op, v, i + h, k - 1), i, i + h, i + h, i + 2 * h);
  }

  /** Every window that fits holds the index of one of its best elements. */
  lemma {:induction false} EntryOptimal(op: Op, v: seq<int>, i: nat, k: nat)
    requires i + Pow(2, k) <= |v|
    ensures OptimalIn(op, v, Entry(op, v, i, k), i, i + Pow(2, k))
    decreases k
  {
    if k == 0 {
      assert Entry(op, v, i, 0) == i && Pow(2, 0) == 1;
      assert !Compare(op, v[i], v[i]);
    } else {
      EntryStep(op, v, i, k);
      var h := Pow(2, k - 1);
      EntryOptimal(op, v, i, k - 1);
      EntryOptimal(op, v, i + h, k - 1);
      EntryOptimalStep(op, v, i, k);
    }
  }

  /** The `logs` vector: logs[i] = floor(log2(i)) for 0 <= i <= n. */
  function Logs(n: nat): seq<nat>
  {
    seq(n + 1, i requires 0 <= i => FloorLog2(i))
  }

  /** The `table` vector: n rows of floor(log2(n)) + 1 entries. */
  function Table(op: Op, v: seq<int>): seq<seq<nat>>
  {
    seq(|v|, i requires 0 <= i => seq(FloorLog2(|v|) + 1, k requires 0 <= k => Entry(op, v, i, k)))
  }

  datatype SparseTable = SparseTable(op: Op, data: seq<int>, table: seq<seq<nat>>, logs: seq<nat>)

  /** A table as `new` builds it for its own data. */
  ghost predicate Valid(st: SparseTable)
  {
    st.table == Table(st.op, st.data) && st.logs == Logs(|st.data|)
  }

  lemma TableEntry(op: Op, v: seq<int>, i: nat, k: nat)
    requires i < |v| && k <= FloorLog2(|v|)
    ensures |Table(op, v)| == |v| && |Table(op, v)[i]| == FloorLog2(|v|) + 1
    ensures Table(op, v)[i][k] == Entry(op, v, i, k)
  {
  }

  /**
   * The table while `new` fills it: every column before k is final, column
   * k is final in the rows before i, everything else still holds the
   * initial 0.
   */
  ghost predicate Filled(op: Op, v: seq<int>, table: seq<seq<nat>>, L: nat, k: nat, i: nat)
  {
    && |table| == |v|
    && (forall r :: 0 <= r < |v| ==> |table[r]| == L + 1)
    && (forall r, c :: 0 <= r < |v| && 0 <= c <= L ==>
          table[r][c] == (if c < k || (c == k && r < i) then Entry(op, v, r, c) else 0))
  }

  /** The `logs` loop of `new`: logs[i] = logs[i / 2] + 1 for 2 <= i <= n. */
  method BuildLogs(n: nat) returns (logs: seq<nat>)
    ensures logs == Logs(n)
  {
    logs := seq(n + 1, _ => 0);
    var i: nat := 2;
    while i <= n
      invariant 2 <= i <= n + 2 && |logs| == n + 1
      invariant forall j :: 0 <= j < i && j <= n ==> logs[j] == FloorLog2(j)
    {
      logs := logs[i := logs[i / 2] + 1];
      i := i + 1;
    }
  }

  /** The zero-filled table of `new` with table[i][0] = i. */
  method InitTable(op: Op, v: seq<int>, L: nat) returns (table: seq<seq<nat>>)
    ensures Filled(op, v, table, L, 1, 0)
  {
    var n := |v|;
    table := seq(n, _ => seq(L + 1, _ => 0));
    var i := 0;
    while i < n
      invariant 0 <= i <= n
      invariant Filled(op, v, table, L, 0, i)
    {
      var row: seq<nat> := table[i][0 := i];
      table := table[i := row];
      i := i + 1;
    }
  }

  /** Writing entry [i][k] extends the filled part of column k by one row. */
  lemma FilledStep(op: Op, v: seq<int>, table: seq<seq<nat>>, L: nat, k: nat, i: nat, row: seq<nat>)
    requires 1 <= k <= L && i < |v| && Filled(op, v, table, L, k, i)
    requires row == table[i][k := Entry(op, v, i, k)]
    ensures Filled(op, v, table[i := row], L, k, i + 1)
  {
  }

  /** Rows whose window of width 2^k does not fit keep 0 in column k, which is their final value. */
  lemma FilledLevel(op: Op, v: seq<int>, table: seq<seq<nat>>, L: nat, k: nat, i: nat)
    requires 1 <= k && |v| < i + Pow(2, k) && Filled(op, v, table, L, k, i)
    ensures Filled(op, v, table, L, k + 1, 0)
  {
    forall r | i <= r < |v|
      ensures Entry(op, v, r, k) == 0
    {
      PowTwoMonotone(0, k);
    }
  }

  /** One round of the outer loop of `new`: fills column k for every window [i, i + 2^k) that fits. */
  method FillLevel(op: Op, v: seq<int>, table0: seq<seq<nat>>, L: nat, k: nat) returns (table: seq<seq<nat>>)
    requires 1 <= k <= L && Filled(op, v, table0, L, k, 0)
    ensures Filled(op, v, table, L, k + 1, 0)
  {
    var n := |v|;
    table := table0;
    var h := Pow(2, k - 1);
    var i: nat := 0;
    while i + Pow(2, k) <= n
      invariant Filled(op, v, table, L, k, i)
    {
      EntryStep(op, v, i, k);
      var v1: nat := table[i][k - 1];
      var v2: nat := table[i + h][k - 1];
      var b: nat := Better(op, v, v1, v2);
      var row: seq<nat> := table[i][k := b];
      FilledStep(op, v, table, L, k, i, row);
      table := table[i := row];
      i := i + 1;
    }
    FilledLevel(op, v, table, L, k, i);
  }

  /** `SparseTable::new`: fills `logs` bottom-up, then the table level by level of doubling windows. */
  method New(op: Op, v: seq<int>) returns (st: SparseTable)
    ensures st.op == op && st.data == v && Valid(st)
  {
    var n := |v|;
    var logs := BuildLogs(n);
    var L := logs[n];
    var table := InitTable(op, v, L);
    var k := 1;
    while k < n && Pow(2, k) <= n
      invariant 1 <= k
      invariant Filled(op, v, table, L, k, 0)
    {
      FloorLog2Largest(n, k);
      table := FillLevel(op, v, table, L, k);
      k := k + 1;
    }
    TableComplete(op, v, table, k);
    st := SparseTable(op, v, table, logs);
  }

  /** Once the outer loop of `new` stops, every column is final. */
  lemma TableComplete(op: Op, v: seq<int>, table: seq<seq<nat>>, k: nat)
    requires 1 <= k && Filled(op, v, table, FloorLog2(|v|), k, 0)
    requires !(k < |v| && Pow(2, k) <= |v|)
    ensures table == Table(op, v)
  {
    var n := |v|;
    var L := FloorLog2(n);
    forall r, c | 0 <= r < n && k <= c <= L
      ensures Entry(op, v, r, c) == 0
    {
      PowTwoAboveExponent(k);
      PowTwoMonotone(k, c);
    }
    forall r | 0 <= r < n
      ensures table[r] == Table(op, v)[r]
    {
    }
  }

  /** The two windows of `query_inner` lie inside [left, right] and cover it. */
  lemma WindowsCover(left: int, right: int, p: int)
    requires left <= right && p <= right - left + 1 < 2 * p
    ensures left <= right + 1 - p <= left + p <= right + 1
  {
  }

  /**
   * `query_inner` on the inclusive range [left, right]. The requires are
   * exactly the conditions under which the source's subtractions and
   * indexing do not panic; the answer is only meaningful when right is
   * an index of the data.
   */
  function QueryInner(st: SparseTable, left: nat, right: nat): (r: nat)
    requires Valid(st)
    requires left <= right && right - left + 1 <= |st.data|
    requires right + 1 - Pow(2, FloorLog2(right - left + 1)) < |st.data|
    ensures right < |st.data| ==> OptimalIn(st.op, st.data, r, left, right + 1)
  {
    var n := |st.data|;
    var d := right - left + 1;
    var k := st.logs[d];
    assert k == FloorLog2(d);
    FloorLog2Bounds(d);
    FloorLog2Monotone(d, n);
    var p := Pow(2, k);
    WindowsCover(left, right, p);
    var j := right + 1 - p;
    TableEntry(st.op, st.data, left, k);
    TableEntry(st.op, st.data, j, k);
    var v1 := st.table[left][k];
    var v2 := st.table[j][k];
    if right < n then
      EntryOptimal(st.op, st.data, left, k);
      EntryOptimal(st.op, st.data, j, k);
      CombineOptimal(st.op, st.data, v1, v2, left, left + p, j, right + 1);
      Better(st.op, st.data, v1, v2)
    else
      Better(st.op, st.data, v1, v2)
  }

  /** The inclusive right end `query` derives from an end bound, as written. */
  function InclusiveEndAsWritten(end: Bound, n: nat): int
  {
    match end
    case Unbounded => n
    case Included(i) => i
    case Excluded(i) => i - 1
  }

  /**
   * `query(1..)` on [-7, 4, 8] with Min: the unbounded end becomes the
   * inclusive index 3, one past the data; the second window then reads
   * the never-filled entry table[2][1] = 0 and the answer is index 0,
   * outside the queried range [1, 3).
   */
  lemma QueryUnboundedAsWritten()
    ensures var v := [-7, 4, 8];
            var st := SparseTable(Min, v, Table(Min, v), Logs(3));
            var right := InclusiveEndAsWritten(Unbounded, 3);
            Valid(st) && right == 3 && QueryInner(st, 1, right) == 0
  {
    var v := [-7, 4, 8];
    assert FloorLog2(3) == 1;
    assert Pow(2, 1) == 2;
    assert Entry(Min, v, 2, 1) == 0;
    assert Entry(Min, v, 1, 1) == 1;
  }

  /**
   * `query` with the end bound read as an exclusive end (the unbounded end
   * is data.len(), that is the inclusive index data.len() - 1): the index
   * of a best element of the half-open range.
   */
  function Query(st: SparseTable, start: Bound, end: Bound): (r: nat)
    requires Valid(st)
    requires StartIndex(start) < EndIndex(end, |st.data|) <= |st.data|
    ensures OptimalIn(st.op, st.data, r, StartIndex(start), EndIndex(end, |st.data|))
  {
    var l := StartIndex(start);
    var right := EndIndex(end, |st.data|) - 1;
    FloorLog2Bounds(right - l + 1);
    QueryInner(st, l, right)
  }
}
