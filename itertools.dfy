// Iterator adaptors of procon_itertools: running accumulation, enumeration
// of all subsets by bit mask, and the two combination enumerators. A wrapped
// iterator is modelled by the sequence of items it has still to yield.

module Itertools {
  import opened Wrappers
  import opened NumberTheory

  // ---------------------------------------------------------------------
  // accumulate

  /** The values `accumulate` yields: each is f(running value, item), and becomes the new running value. */
  function Scan<T, A>(f: (A, T) -> A, acc: A, xs: seq<T>): (r: seq<A>)
    ensures |r| == |xs|
  {
    if xs == [] then [] else [f(acc, xs[0])] + Scan(f, f(acc, xs[0]), xs[1..])
  }

  /** Folds f over xs from the left, starting from acc. */
  function FoldLeft<T, A>(f: (A, T) -> A, acc: A, xs: seq<T>): A
  {
    if xs == [] then acc else FoldLeft(f, f(acc, xs[0]), xs[1..])
  }

  /** Folding one more item is one more application of f. */
  lemma {:induction false} FoldLeftSnoc<T, A>(f: (A, T) -> A, acc: A, xs: seq<T>, x: T)
    ensures FoldLeft(f, acc, xs + [x]) == f(FoldLeft(f, acc, xs), x)
    decreases |xs|
  {
    if xs != [] {
      assert (xs + [x])[1..] == xs[1..] + [x];
      FoldLeftSnoc(f, f(acc, xs[0]), xs[1..], x);
    }
  }

  /** The k-th yielded value is the fold of the first k + 1 items (prefix sums for +, prefix products for *). */
  lemma {:induction false} ScanIsPrefixFold<T, A>(f: (A, T) -> A, acc: A, xs: seq<T>, k: nat)
    requires k < |xs|
    ensures Scan(f, acc, xs)[k] == FoldLeft(f, acc, xs[..k + 1])
    decreases k
  {
    if k > 0 {
      ScanIsPrefixFold(f, f(acc, xs[0]), xs[1..], k - 1);
      assert xs[1..][..k] == xs[..k + 1][1..];
    }
  }

  /** The accumulate test: running sums and running products of 1..5. */
  lemma AccumulateExample()
    ensures Scan((a: int, b: int) => a + b, 0, [1, 2, 3, 4, 5]) == [1, 3, 6, 10, 15]
    ensures Scan((a: int, b: int) => a * b, 1, [1, 2, 3, 4, 5]) == [1, 2, 6, 24, 120]
  {
  }

  /** `AccumulateItertor`: the running value `sum`, the function, and the items of the wrapped iterator. */
  class Accumulate<T, A> {
    var sum: A
    var rest: seq<T>
    const func: (A, T) -> A

    /** `iter.accumulate(v0, f)`. */
    constructor (items: seq<T>, v0: A, f: (A, T) -> A)
      ensures sum == v0 && rest == items && func == f
    {
      sum, rest, func := v0, items, f;
    }

    /** `next`: applies the function to the running value and the next item, and stores the result. */
    method Next() returns (r: Option<A>)
      modifies this
      ensures old(rest) == [] ==> r == None && sum == old(sum) && rest == []
      ensures old(rest) != [] ==> r == Some(func(old(sum), old(rest)[0])) && sum == r.value && rest == old(rest)[1..]
    {
      if rest == [] {
        r := None;
      } else {
        var v := func(sum, rest[0]);
        sum := v;
        rest := rest[1..];
        r := Some(v);
      }
    }

    /** `collect`: draining the iterator yields the scan of the remaining items from the current running value. */
    method Collect() returns (out: seq<A>)
      modifies this
      ensures out == Scan(func, old(sum), old(rest)) && rest == []
    {
      out := [];
      while true
        invariant out + Scan(func, sum, rest) == Scan(func, old(sum), old(rest))
        decreases |rest|
      {
        ghost var s0, r0 := sum, rest;
        var next := Next();
        if next == None {
          return;
        }
        assert Scan(func, s0, r0) == [sum] + Scan(func, sum, rest);
        out := out + [next.value];
      }
    }
  }

  // ---------------------------------------------------------------------
  // bit_brute

  /** `mask >> i & 1 == 1`: bit i of mask is set. */
  predicate Bit(mask: nat, i: nat)
  {
    if i == 0 then mask % 2 == 1 else Bit(mask / 2, i - 1)
  }

  /** The indices below k whose bit is set in mask, in increasing order. */
  function Indices(mask: nat, k: nat): (r: seq<nat>)
    ensures forall j :: 0 <= j < |r| ==> r[j] < k
  {
    if k == 0 then [] else Indices(mask, k - 1) + (if Bit(mask, k - 1) then [k - 1] else [])
  }

  /** The elements vec[i], i < k, whose bit is set in mask, in increasing index order. */
  function SelectedUpTo<T>(vec: seq<T>, mask: nat, k: nat): seq<T>
    requires k <= |vec|
  {
    if k == 0 then [] else SelectedUpTo(vec, mask, k - 1) + (if Bit(mask, k - 1) then [vec[k - 1]] else [])
  }

  /** What `bit_brute` yields for mask: the elements whose bit is set. */
  function Selected<T>(vec: seq<T>, mask: nat): seq<T>
  {
    SelectedUpTo(vec, mask, |vec|)
  }

  /** The selection is vec read at the selected indices. */
  lemma {:induction false} SelectedAtIndices<T>(vec: seq<T>, mask: nat, k: nat)
    requires k <= |vec|
    ensures |SelectedUpTo(vec, mask, k)| == |Indices(mask, k)|
    ensures forall j :: 0 <= j < |Indices(mask, k)| ==> SelectedUpTo(vec, mask, k)[j] == vec[Indices(mask, k)[j]]
  {
    if k > 0 {
      SelectedAtIndices(vec, mask, k - 1);
    }
  }

  /** The selected indices are strictly increasing and are exactly those whose bit is set. */
  lemma {:induction false} IndicesExact(mask: nat, k: nat)
    ensures forall a, b :: 0 <= a < b < |Indices(mask, k)| ==> Indices(mask, k)[a] < Indices(mask, k)[b]
    ensures forall i: nat :: i in Indices(mask, k) <==> i < k && Bit(mask, i)
  {
    if k > 0 {
      IndicesExact(mask, k - 1);
      assert Indices(mask, k) == Indices(mask, k - 1) + (if Bit(mask, k - 1) then [k - 1] else []);
    }
  }

  /** Two masks below 2^k with the same bits below k are equal. */
  lemma {:induction false} BitsDetermineMask(m1: nat, m2: nat, k: nat)
    requires m1 < Pow(2, k) && m2 < Pow(2, k)
    requires forall i :: 0 <= i < k ==> (Bit(m1, i) <==> Bit(m2, i))
    ensures m1 == m2
  {
    if k > 0 {
      forall i | 0 <= i < k - 1
        ensures Bit(m1 / 2, i) <==> Bit(m2 / 2, i)
      {
        assert Bit(m1, i + 1) <==> Bit(m2, i + 1);
      }
      BitsDetermineMask(m1 / 2, m2 / 2, k - 1);
      assert Bit(m1, 0) <==> Bit(m2, 0);
    }
  }

  /** Distinct masks below 2^n select distinct index sets: every subset is enumerated exactly once. */
  lemma IndicesInjective(m1: nat, m2: nat, n: nat)
    requires m1 < Pow(2, n) && m2 < Pow(2, n) && m1 != m2
    ensures Indices(m1, n) != Indices(m2, n)
  {
    IndicesExact(m1, n);
    IndicesExact(m2, n);
    if Indices(m1, n) == Indices(m2, n) {
      forall i | 0 <= i < n
        ensures Bit(m1, i) <==> Bit(m2, i)
      {
        assert (i as nat in Indices(m1, n)) <==> (i as nat in Indices(m2, n));
      }
      BitsDetermineMask(m1, m2, n);
    }
  }

  /** The bit_brute test: the subsets of [2, 4, 6] in mask order. */
  lemma BitBruteExample()
    ensures var v := [2, 4, 6];
      && Selected(v, 0) == [] && Selected(v, 1) == [2] && Selected(v, 2) == [4] && Selected(v, 3) == [2, 4]
      && Selected(v, 4) == [6] && Selected(v, 5) == [2, 6] && Selected(v, 6) == [4, 6] && Selected(v, 7) == [2, 4, 6]
  {
    var v := [2, 4, 6];
    assert !Bit(0, 0) && !Bit(0, 1) && !Bit(0, 2) && Bit(7, 0) && Bit(7, 1) && Bit(7, 2);
    assert Bit(1, 0) && !Bit(1, 1) && !Bit(1, 2) && !Bit(2, 0) && Bit(2, 1) && !Bit(2, 2);
    assert Bit(3, 0) && Bit(3, 1) && !Bit(3, 2) && !Bit(4, 0) && !Bit(4, 1) && Bit(4, 2);
    assert Bit(5, 0) && !Bit(5, 1) && Bit(5, 2) && !Bit(6, 0) && Bit(6, 1) && Bit(6, 2);
  }

  /** `BitBruteForceIterator`: the collected items and the next mask. */
  class BitBrute<T> {
    const vec: seq<T>
    var mask: nat

    /** `iter.bit_brute()`: starts at mask 0. */
    constructor (items: seq<T>)
      ensures vec == items && mask == 0
    {
      vec, mask := items, 0;
    }

    /** `next`: while mask < 2^n, yields the elements whose bit is set and moves to the next mask. */
    method Next() returns (r: Option<seq<T>>)
      modifies this
      ensures old(mask) < Pow(2, |vec|) ==> r == Some(Selected(vec, old(mask))) && mask == old(mask) + 1
      ensures old(mask) >= Pow(2, |vec|) ==> r == None && mask == old(mask)
    {
      var n := |vec|;
      if mask < Pow(2, n) {
        var v: seq<T> := [];
        var i := 0;
        while i < n
          invariant i <= n
          invariant v == SelectedUpTo(vec, mask, i)
        {
          if Bit(mask, i) {
            v := v + [vec[i]];
          }
          i := i + 1;
        }
        mask := mask + 1;
        r := Some(v);
      } else {
        r := None;
      }
    }
  }

  // ---------------------------------------------------------------------
  // combinations and combinations_with_replacement

  /** What `next` of a combination enumerator produces: a tuple, the end, or a panic (usize underflow, index out of bounds). */
  datatype Step<T> = Item(value: seq<T>) | End | Panic

  /** vec read at each index of idx (`indices.iter().map(|&i| vec[i])`). */
  function Pick<T>(vec: seq<T>, idx: seq<nat>): (r: seq<T>)
    requires forall k :: 0 <= k < |idx| ==> idx[k] < |vec|
    ensures |r| == |idx| && forall k :: 0 <= k < |idx| ==> r[k] == vec[idx[k]]
  {
    seq(|idx|, k requires 0 <= k < |idx| => vec[idx[k]])
  }

  /** a precedes b lexicographically, first differing at position p. */
  ghost predicate LexLessAt(a: seq<nat>, b: seq<nat>, p: nat)
  {
    p < |a| && p < |b| && (forall q :: 0 <= q < p ==> a[q] == b[q]) && a[p] < b[p]
  }

  /** a precedes b lexicographically. */
  ghost predicate LexLess(a: seq<nat>, b: seq<nat>)
  {
    exists p: nat :: LexLessAt(a, b, p)
  }

  /** The lexicographic order is asymmetric. */
  lemma LexLessAsymmetric(a: seq<nat>, b: seq<nat>)
    requires LexLess(a, b)
    ensures !LexLess(b, a)
  {
  }

  /** b is at least a from position i on, and they agree before i: b does not precede a. */
  lemma NotLexLessFrom(a: seq<nat>, b: seq<nat>, i: nat)
    requires |a| == |b| && i <= |a|
    requires forall q :: 0 <= q < i ==> a[q] == b[q]
    requires forall q :: i <= q < |a| ==> a[q] <= b[q]
    ensures !LexLess(b, a)
  {
  }

  /** The tuples `combinations` enumerates: strictly increasing indices into a vector of length n. */
  ghost predicate IsCombination(idx: seq<nat>, n: nat)
  {
    && (forall k :: 0 <= k < |idx| ==> idx[k] < n)
    && (forall j, k :: 0 <= j < k < |idx| ==> idx[j] < idx[k])
  }

  /** In a combination the entries climb by at least one per position. */
  lemma {:induction false} CombinationGaps(idx: seq<nat>, n: nat, j: nat, k: nat)
    requires IsCombination(idx, n) && j <= k < |idx|
    ensures idx[j] + (k - j) <= idx[k]
    decreases k - j
  {
    if j < k {
      CombinationGaps(idx, n, j + 1, k);
      assert idx[j] < idx[j + 1];
    }
  }

  /** Entry k of a combination of r indices below n lies in [k, k + n - r]. */
  lemma CombinationBounds(idx: seq<nat>, n: nat, k: nat)
    requires IsCombination(idx, n) && k < |idx|
    ensures k <= idx[k] && idx[k] + |idx| <= k + n
  {
    CombinationGaps(idx, n, 0, k);
    CombinationGaps(idx, n, k, |idx| - 1);
  }

  /** The first tuple, 0, 1, ..., r - 1. */
  function Range(r: nat): (idx: seq<nat>)
    ensures |idx| == r && forall k :: 0 <= k < r ==> idx[k] == k
  {
    seq(r, k requires 0 <= k => k)
  }

  /** The first tuple is a combination when r <= n, and no combination precedes it. */
  lemma RangeIsLeast(r: nat, n: nat)
    requires r <= n
    ensures IsCombination(Range(r), n)
    ensures forall d :: IsCombination(d, n) && |d| == r ==> !LexLess(d, Range(r))
  {
    forall d | IsCombination(d, n) && |d| == r
      ensures !LexLess(d, Range(r))
    {
      forall q | 0 <= q < r
        ensures Range(r)[q] <= d[q]
      {
        CombinationBounds(d, n, q);
      }
      NotLexLessFrom(Range(r), d, 0);
    }
  }

  /** The position `next` advances: the last one, scanning down from i, not yet at its maximum i + n - r. */
  function CombinationPivot(idx: seq<nat>, n: nat, i: nat): (p: Option<nat>)
    requires i < |idx| <= n
    ensures p.Some? ==> p.value <= i && idx[p.value] != p.value + n - |idx|
    ensures p.Some? ==> forall k :: p.value < k <= i ==> idx[k] == k + n - |idx|
    ensures p.None? ==> forall k :: 0 <= k <= i ==> idx[k] == k + n - |idx|
  {
    if idx[i] != i + n - |idx| then Some(i) else if i == 0 then None else CombinationPivot(idx, n, i - 1)
  }

  /** The tuple after idx: the pivot entry goes up by one and every later entry follows it consecutively. */
  function CombinationSuccessor(idx: seq<nat>, n: nat): Option<seq<nat>>
    requires 0 < |idx| <= n
  {
    match CombinationPivot(idx, n, |idx| - 1)
    case None => None
    case Some(i) => Some(idx[..i] + seq(|idx| - i, k requires 0 <= k => idx[i] + 1 + k))
  }

  /** Without a pivot idx is the last combination: none follows it. */
  lemma CombinationLast(idx: seq<nat>, n: nat)
    requires 0 < |idx| <= n && IsCombination(idx, n) && CombinationSuccessor(idx, n).None?
    ensures forall d :: IsCombination(d, n) && |d| == |idx| ==> !LexLess(idx, d)
  {
    forall d | IsCombination(d, n) && |d| == |idx|
      ensures !LexLess(idx, d)
    {
      forall q | 0 <= q < |idx|
        ensures d[q] <= idx[q]
      {
        CombinationBounds(d, n, q);
      }
      NotLexLessFrom(d, idx, 0);
    }
  }

  /** The successor is a combination that follows idx. */
  lemma CombinationSuccessorFollows(idx: seq<nat>, n: nat)
    requires 0 < |idx| <= n && IsCombination(idx, n) && CombinationSuccessor(idx, n).Some?
    ensures var c := CombinationSuccessor(idx, n).value;
      |c| == |idx| && IsCombination(c, n) && LexLess(idx, c)
  {
    var i := CombinationPivot(idx, n, |idx| - 1).value;
    var c := CombinationSuccessor(idx, n).value;
    CombinationBounds(idx, n, i);
    assert LexLessAt(idx, c, i);
    forall j, k | 0 <= j < k < |idx|
      ensures c[j] < c[k]
    {
      if j < i {
        CombinationGaps(idx, n, j, i);
      }
    }
  }

  /** No combination lies strictly between idx and its successor. */
  lemma CombinationSuccessorIsLeast(idx: seq<nat>, n: nat, d: seq<nat>)
    requires 0 < |idx| <= n && IsCombination(idx, n) && CombinationSuccessor(idx, n).Some?
    requires IsCombination(d, n) && |d| == |idx| && LexLess(idx, d)
    ensures !LexLess(d, CombinationSuccessor(idx, n).value)
  {
    var i := CombinationPivot(idx, n, |idx| - 1).value;
    var c := CombinationSuccessor(idx, n).value;
    var p: nat :| LexLessAt(idx, d, p);
    if p < i {
      assert LexLessAt(c, d, p);
      LexLessAsymmetric(c, d);
    } else if p == i {
      forall q | i <= q < |idx|
        ensures c[q] <= d[q]
      {
        CombinationGaps(d, n, i, q);
      }
      NotLexLessFrom(c, d, i);
    } else {
      CombinationBounds(d, n, p);
    }
  }

  /**
   * The successor is the next combination in lexicographic order: it is a
   * combination, it follows idx, and no combination lies strictly between.
   * There is none exactly when no combination follows idx.
   */
  lemma CombinationSuccessorIsNext(idx: seq<nat>, n: nat)
    requires 0 < |idx| <= n && IsCombination(idx, n)
    ensures CombinationSuccessor(idx, n).None? <==> forall d :: IsCombination(d, n) && |d| == |idx| ==> !LexLess(idx, d)
    ensures CombinationSuccessor(idx, n).Some? ==>
      var c := CombinationSuccessor(idx, n).value;
      && |c| == |idx| && IsCombination(c, n) && LexLess(idx, c)
      && forall d :: IsCombination(d, n) && |d| == |idx| && LexLess(idx, d) ==> !LexLess(d, c)
  {
    if CombinationSuccessor(idx, n).None? {
      CombinationLast(idx, n);
    } else {
      CombinationSuccessorFollows(idx, n);
      forall d | IsCombination(d, n) && |d| == |idx| && LexLess(idx, d)
        ensures !LexLess(d, CombinationSuccessor(idx, n).value)
      {
        CombinationSuccessorIsLeast(idx, n, d);
      }
    }
  }

  /** The two loops of `next` on the index tuple: find the pivot, bump it, and refill the tail consecutively. */
  method AdvanceCombination(idx: seq<nat>, n: nat) returns (found: bool, next: seq<nat>)
    requires 0 < |idx| <= n
    ensures found <==> CombinationSuccessor(idx, n).Some?
    ensures found ==> next == CombinationSuccessor(idx, n).value
    ensures !found ==> next == idx
  {
    var r := |idx|;
    var i: nat := r - 1;
    while idx[i] == i + n - r
      invariant i < r && CombinationPivot(idx, n, r - 1) == CombinationPivot(idx, n, i)
      decreases i
    {
      if i > 0 {
        i := i - 1;
      } else {
        return false, idx;
      }
    }
    assert CombinationPivot(idx, n, r - 1) == Some(i);
    next := idx[i := idx[i] + 1];
    var j := i + 1;
    while j < r
      invariant i < j <= r && RefilledUpTo(idx, i, next, j)
    {
      RefillStep(idx, i, next, j);
      next := next[j := next[j - 1] + 1];
      j := j + 1;
    }
    RefillDone(idx, n, i, next);
    found := true;
  }

  /** next agrees with idx before i and counts up from idx[i] + 1 on [i, j). */
  ghost predicate RefilledUpTo(idx: seq<nat>, i: nat, next: seq<nat>, j: nat) {
    && |next| == |idx| && i < j <= |idx|
    && (forall k :: 0 <= k < i ==> next[k] == idx[k])
    && (forall k :: i <= k < j ==> next[k] == idx[i] + 1 + (k - i))
  }

  /** Setting entry j to one more than entry j - 1 extends the counted run by one. */
  lemma RefillStep(idx: seq<nat>, i: nat, next: seq<nat>, j: nat)
    requires RefilledUpTo(idx, i, next, j) && j < |idx|
    ensures RefilledUpTo(idx, i, next[j := next[j - 1] + 1], j + 1)
  {
  }

  /** With the pivot at i, a run counted all the way to the end is the successor tuple. */
  lemma RefillDone(idx: seq<nat>, n: nat, i: nat, next: seq<nat>)
    requires 0 < |idx| <= n && CombinationPivot(idx, n, |idx| - 1) == Some(i)
    requires RefilledUpTo(idx, i, next, |idx|)
    ensures CombinationSuccessor(idx, n) == Some(next)
  {
    assert next == idx[..i] + seq(|idx| - i, k requires 0 <= k => idx[i] + 1 + k);
  }

  /** `CombinationsIterator`: the collected items, the current index tuple, r, and whether nothing was yielded yet. */
  class Combinations<T> {
    const vec: seq<T>
    var indices: seq<nat>
    const r: nat
    var first: bool

    /** The index tuple has length r, and is a combination whenever r <= n. */
    ghost predicate Valid()
      reads this
    {
      |indices| == r && (r <= |vec| ==> IsCombination(indices, |vec|))
    }

    /** `iter.combinations(r)`: indices 0..r, nothing yielded yet. */
    constructor (items: seq<T>, r: nat)
      ensures Valid() && vec == items && this.r == r && indices == Range(r) && first
    {
      vec, indices, this.r, first := items, Range(r), r, true;
    }

    /**
     * `next`: ends at once when n < r; the first call yields the tuple
     * 0..r; later calls step to the lexicographic successor, or end when
     * there is none. With r = 0 a later call computes `r - 1` and panics.
     */
    method Next() returns (y: Step<T>)
      requires Valid()
      modifies this
      ensures Valid()
      ensures |vec| < r ==> y == End && indices == old(indices) && first == old(first)
      ensures r <= |vec| && old(first) ==> y == Item(Pick(vec, indices)) && indices == old(indices) && !first
      ensures r <= |vec| && !old(first) && r == 0 ==> y == Panic
      ensures r <= |vec| && !old(first) && r > 0 ==>
        && !first
        && match CombinationSuccessor(old(indices), |vec|)
           case None => y == End && indices == old(indices)
           case Some(c) => indices == c && y == Item(Pick(vec, c))
    {
      var n := |vec|;
      if n < r {
        return End;
      }
      if first {
        first := false;
      } else {
        if r == 0 {
          return Panic;
        }
        var found, next := AdvanceCombination(indices, n);
        if !found {
          return End;
        }
        CombinationSuccessorFollows(indices, n);
        indices := next;
      }
      y := Item(Pick(vec, indices));
    }
  }

  /** The combinations test: the pairs from three items, in order. */
  lemma CombinationsExample()
    ensures CombinationSuccessor([0, 1], 3) == Some([0, 2])
    ensures CombinationSuccessor([0, 2], 3) == Some([1, 2])
    ensures CombinationSuccessor([1, 2], 3) == None
  {
    assert CombinationPivot([0, 1], 3, 1) == Some(1);
    assert CombinationPivot([0, 2], 3, 1) == Some(0);
    assert CombinationPivot([1, 2], 3, 1) == None;
    var a, b: seq<nat> := [0, 1], [0, 2];
    assert CombinationSuccessor(a, 3) == Some(a[..1] + seq(1, k requires 0 <= k => a[1] + 1 + k));
    assert a[..1] + seq(1, k requires 0 <= k => a[1] + 1 + k) == [0, 2];
    assert CombinationSuccessor(b, 3) == Some(b[..0] + seq(2, k requires 0 <= k => b[0] + 1 + k));
    assert b[..0] + seq(2, k requires 0 <= k => b[0] + 1 + k) == [1, 2];
  }

  /** The tuples `combinations_with_replacement` enumerates: non-decreasing indices into a vector of length n. */
  ghost predicate IsMultichoice(idx: seq<nat>, n: nat)
  {
    && (forall k :: 0 <= k < |idx| ==> idx[k] < n)
    && (forall j, k :: 0 <= j < k < |idx| ==> idx[j] <= idx[k])
  }

  /** The first tuple, r zeros. */
  function Zeros(r: nat): (idx: seq<nat>)
    ensures |idx| == r && forall k :: 0 <= k < r ==> idx[k] == 0
  {
    seq(r, k => 0)
  }

  /** The first tuple is a multichoice when n > 0, and no multichoice precedes it. */
  lemma ZerosIsLeast(r: nat, n: nat)
    requires 0 < n
    ensures IsMultichoice(Zeros(r), n)
    ensures forall d :: IsMultichoice(d, n) && |d| == r ==> !LexLess(d, Zeros(r))
  {
    forall d | IsMultichoice(d, n) && |d| == r
      ensures !LexLess(d, Zeros(r))
    {
      NotLexLessFrom(Zeros(r), d, 0);
    }
  }

  /** The position `next` advances: the last one, scanning down from i, not yet at n - 1. */
  function MultichoicePivot(idx: seq<nat>, n: nat, i: nat): (p: Option<nat>)
    requires i < |idx| && 0 < n
    ensures p.Some? ==> p.value <= i && idx[p.value] != n - 1
    ensures p.Some? ==> forall k :: p.value < k <= i ==> idx[k] == n - 1
    ensures p.None? ==> forall k :: 0 <= k <= i ==> idx[k] == n - 1
  {
    if idx[i] != n - 1 then Some(i) else if i == 0 then None else MultichoicePivot(idx, n, i - 1)
  }

  /** The tuple after idx: the pivot entry and every later entry become the pivot's value plus one. */
  function MultichoiceSuccessor(idx: seq<nat>, n: nat): Option<seq<nat>>
    requires 0 < |idx| && 0 < n
  {
    match MultichoicePivot(idx, n, |idx| - 1)
    case None => None
    case Some(i) => Some(idx[..i] + seq(|idx| - i, k => idx[i] + 1))
  }

  /** Without a pivot idx is the last multichoice: none follows it. */
  lemma MultichoiceLast(idx: seq<nat>, n: nat)
    requires 0 < |idx| && 0 < n && IsMultichoice(idx, n) && MultichoiceSuccessor(idx, n).None?
    ensures forall d :: IsMultichoice(d, n) && |d| == |idx| ==> !LexLess(idx, d)
  {
    forall d | IsMultichoice(d, n) && |d| == |idx|
      ensures !LexLess(idx, d)
    {
      NotLexLessFrom(d, idx, 0);
    }
  }

  /** The successor is a multichoice that follows idx. */
  lemma MultichoiceSuccessorFollows(idx: seq<nat>, n: nat)
    requires 0 < |idx| && 0 < n && IsMultichoice(idx, n) && MultichoiceSuccessor(idx, n).Some?
    ensures var c := MultichoiceSuccessor(idx, n).value;
      |c| == |idx| && IsMultichoice(c, n) && LexLess(idx, c)
  {
    var i := MultichoicePivot(idx, n, |idx| - 1).value;
    var c := MultichoiceSuccessor(idx, n).value;
    assert LexLessAt(idx, c, i);
  }

  /** No multichoice lies strictly between idx and its successor. */
  lemma MultichoiceSuccessorIsLeast(idx: seq<nat>, n: nat, d: seq<nat>)
    requires 0 < |idx| && 0 < n && IsMultichoice(idx, n) && MultichoiceSuccessor(idx, n).Some?
    requires IsMultichoice(d, n) && |d| == |idx| && LexLess(idx, d)
    ensures !LexLess(d, MultichoiceSuccessor(idx, n).value)
  {
    var i := MultichoicePivot(idx, n, |idx| - 1).value;
    var c := MultichoiceSuccessor(idx, n).value;
    var p: nat :| LexLessAt(idx, d, p);
    if p < i {
      assert LexLessAt(c, d, p);
      LexLessAsymmetric(c, d);
    } else if p == i {
      NotLexLessFrom(c, d, i);
    }
  }

  /**
   * The successor is the next multichoice in lexicographic order; there is
   * none exactly when no multichoice follows idx.
   */
  lemma MultichoiceSuccessorIsNext(idx: seq<nat>, n: nat)
    requires 0 < |idx| && 0 < n && IsMultichoice(idx, n)
    ensures MultichoiceSuccessor(idx, n).None? <==> forall d :: IsMultichoice(d, n) && |d| == |idx| ==> !LexLess(idx, d)
    ensures MultichoiceSuccessor(idx, n).Some? ==>
      var c := MultichoiceSuccessor(idx, n).value;
      && |c| == |idx| && IsMultichoice(c, n) && LexLess(idx, c)
      && forall d :: IsMultichoice(d, n) && |d| == |idx| && LexLess(idx, d) ==> !LexLess(d, c)
  {
    if MultichoiceSuccessor(idx, n).None? {
      MultichoiceLast(idx, n);
    } else {
      MultichoiceSuccessorFollows(idx, n);
      forall d | IsMultichoice(d, n) && |d| == |idx| && LexLess(idx, d)
        ensures !LexLess(d, MultichoiceSuccessor(idx, n).value)
      {
        MultichoiceSuccessorIsLeast(idx, n, d);
      }
    }
  }

  /** The loops of `next` on the index tuple: find the pivot, then set it and every later entry to its value plus one. */
  method AdvanceMultichoice(idx: seq<nat>, n: nat) returns (found: bool, next: seq<nat>)
    requires 0 < |idx| && 0 < n
    ensures found <==> MultichoiceSuccessor(idx, n).Some?
    ensures found ==> next == MultichoiceSuccessor(idx, n).value
    ensures !found ==> next == idx
  {
    var r := |idx|;
    var i: nat := r - 1;
    while idx[i] == n - 1
      invariant i < r && MultichoicePivot(idx, n, r - 1) == MultichoicePivot(idx, n, i)
      decreases i
    {
      if i > 0 {
        i := i - 1;
      } else {
        return false, idx;
      }
    }
    var v := idx[i];
    next := idx;
    var j := i;
    while j < r
      invariant i <= j <= r && |next| == r
      invariant forall k :: 0 <= k < i ==> next[k] == idx[k]
      invariant forall k :: i <= k < j ==> next[k] == v + 1
    {
      next := next[j := v + 1];
      j := j + 1;
    }
    found := true;
  }

  /** The combinations_with_replacement test: the pairs with repetition from three items, in order. */
  lemma MultichoiceExample()
    ensures MultichoiceSuccessor([0, 0], 3) == Some([0, 1])
    ensures MultichoiceSuccessor([0, 1], 3) == Some([0, 2])
    ensures MultichoiceSuccessor([0, 2], 3) == Some([1, 1])
    ensures MultichoiceSuccessor([1, 1], 3) == Some([1, 2])
    ensures MultichoiceSuccessor([1, 2], 3) == Some([2, 2])
    ensures MultichoiceSuccessor([2, 2], 3) == None
  {
    var a0: seq<nat> := [0, 0];
    assert MultichoicePivot(a0, 3, 1) == Some(1);
    assert a0[..1] + seq(1, k => a0[1] + 1) == [0, 1];
    var a1: seq<nat> := [0, 1];
    assert MultichoicePivot(a1, 3, 1) == Some(1);
    assert a1[..1] + seq(1, k => a1[1] + 1) == [0, 2];
    var a2: seq<nat> := [0, 2];
    assert MultichoicePivot(a2, 3, 1) == Some(0);
    assert a2[..0] + seq(2, k => a2[0] + 1) == [1, 1];
    var a3: seq<nat> := [1, 1];
    assert MultichoicePivot(a3, 3, 1) == Some(1);
    assert a3[..1] + seq(1, k => a3[1] + 1) == [1, 2];
    var a4: seq<nat> := [1, 2];
    assert MultichoicePivot(a4, 3, 1) == Some(0);
    assert a4[..0] + seq(2, k => a4[0] + 1) == [2, 2];
    assert MultichoicePivot([2, 2], 3, 1) == None;
  }

  /** `CombinationsWithReplacementIterator`: the collected items, the current index tuple, r, and whether nothing was yielded yet. */
  class CombinationsWithReplacement<T> {
    const vec: seq<T>
    var indices: seq<nat>
    const r: nat
    var first: bool

    /** The index tuple has length r, and is a multichoice whenever there is an item to choose. */
    ghost predicate Valid()
      reads this
    {
      |indices| == r && (0 < |vec| ==> IsMultichoice(indices, |vec|))
    }

    /** `iter.combinations_with_replacement(r)`: r zero indices, nothing yielded yet. */
    constructor (items: seq<T>, r: nat)
      ensures Valid() && vec == items && this.r == r && indices == Zeros(r) && first
    {
      vec, indices, this.r, first := items, Zeros(r), r, true;
    }

    /**
     * `next`: the first call yields the tuple of zeros; later calls step to
     * the lexicographic successor, or end when there is none. A later call
     * with r = 0 or with no items computes `r - 1` or `n - 1` and panics, and
     * yielding a non-empty tuple from no items indexes out of bounds.
     */
    method Next() returns (y: Step<T>)
      requires Valid()
      modifies this
      ensures Valid() && !first
      ensures old(first) ==> indices == old(indices) && y == (if 0 < r && |vec| == 0 then Panic else Item(Pick(vec, indices)))
      ensures !old(first) && (r == 0 || |vec| == 0) ==> y == Panic
      ensures !old(first) && 0 < r && 0 < |vec| ==>
        match MultichoiceSuccessor(old(indices), |vec|)
        case None => y == End && indices == old(indices)
        case Some(c) => indices == c && y == Item(Pick(vec, c))
    {
      var n := |vec|;
      if first {
        first := false;
      } else {
        if r == 0 || n == 0 {
          return Panic;
        }
        var found, next := AdvanceMultichoice(indices, n);
        if !found {
          return End;
        }
        MultichoiceSuccessorFollows(indices, n);
        indices := next;
      }
      if 0 < r && n == 0 {
        return Panic;
      }
      y := Item(Pick(vec, indices));
    }
  }
}
