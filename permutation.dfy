/**
 * `LexicalPermutation` of procon_itertools: `next_permutation` and
 * `prev_permutation` step a slice in place to its lexicographic successor
 * or predecessor.  The element type (any `Ord`) is modelled by `int`.
 *
 * Both steps are the same algorithm under opposite orders, so they share
 * one specification `Step(up, s)`: `up == true` is the ascending order
 * that `next_permutation` walks, `up == false` the reversed order that
 * `prev_permutation` walks.
 */
module LexicalPermutation {

  /** x comes strictly before y in the order selected by up. */
  predicate Lt(up: bool, x: int, y: int) {
    if up then x < y else y < x
  }

  /** s[p..] never rises in the order up: it is the last arrangement of its elements. */
  ghost predicate DescendingFrom(up: bool, s: seq<int>, p: nat) {
    forall x, y :: p <= x < y < |s| ==> !Lt(up, s[x], s[y])
  }

  /** a and b agree before k and a[k] comes before b[k]. */
  ghost predicate LexLessAt(up: bool, a: seq<int>, b: seq<int>, k: nat) {
    k < |a| && k < |b| && a[..k] == b[..k] && Lt(up, a[k], b[k])
  }

  /** a is lexicographically smaller than b in the order up. */
  ghost predicate LexLess(up: bool, a: seq<int>, b: seq<int>) {
    exists k: nat :: LexLessAt(up, a, b, k)
  }

  /**
   * The first scan of both steps: starting at i, move left while
   * s[i-1] does not come before s[i].  The result p is 0 when no
   * such rise exists, otherwise s[p-1] is the element that changes.
   */
  function Pivot(up: bool, s: seq<int>, i: nat): (p: nat)
    requires i < |s|
    ensures p <= i
    ensures 0 < p ==> Lt(up, s[p - 1], s[p])
    ensures forall k :: p < k <= i ==> !Lt(up, s[k - 1], s[k])
    decreases i
  {
    if i == 0 || Lt(up, s[i - 1], s[i]) then i else Pivot(up, s, i - 1)
  }

  /**
   * The second scan: starting at j, move left while s[j] does not come
   * after s[p-1].  The result is the last position of the suffix whose
   * element comes after s[p-1].
   */
  function Target(up: bool, s: seq<int>, p: nat, j: nat): (q: nat)
    requires 0 < p <= j < |s| && Lt(up, s[p - 1], s[p])
    ensures p <= q <= j && Lt(up, s[p - 1], s[q])
    ensures forall k :: q < k <= j ==> !Lt(up, s[p - 1], s[k])
    decreases j
  {
    if Lt(up, s[p - 1], s[j]) then j else Target(up, s, p, j - 1)
  }

  /** The elements of t in reverse order. */
  function Reverse(t: seq<int>): seq<int> {
    seq(|t|, k requires 0 <= k < |t| => t[|t| - 1 - k])
  }

  /** Swap positions p-1 and q, then reverse everything from p on. */
  function Rearrange(s: seq<int>, p: nat, q: nat): seq<int>
    requires 0 < p <= q < |s|
  {
    var t := s[p - 1 := s[q]][q := s[p - 1]];
    t[..p] + Reverse(t[p..])
  }

  /**
   * One lexicographic step in the order up: whether it happened and the
   * resulting arrangement.  A slice of length at most 1, or one with no
   * rise, is left as it is.
   */
  function Step(up: bool, s: seq<int>): (bool, seq<int>) {
    if |s| <= 1 then (false, s)
    else
      var p := Pivot(up, s, |s| - 1);
      if p == 0 then (false, s)
      else (true, Rearrange(s, p, Target(up, s, p, |s| - 1)))
  }

  // ---------------------------------------------------------------------
  // The in-place operations

  /** `self[lo..].reverse()`: swap the ends of the range towards the middle. */
  method ReverseFrom(a: array<int>, lo: nat)
    requires lo <= a.Length
    modifies a
    ensures a[..] == old(a[..])[..lo] + Reverse(old(a[..])[lo..])
  {
    ghost var s := a[..];
    ghost var n := a.Length;
    var x, y := lo, a.Length;
    while x + 1 < y
      invariant lo <= x <= y <= n && x - lo == n - y
      invariant forall k :: 0 <= k < lo ==> a[k] == s[k]
      invariant forall k :: lo <= k < x ==> a[k] == s[lo + n - 1 - k]
      invariant forall k :: x <= k < y ==> a[k] == s[k]
      invariant forall k :: y <= k < n ==> a[k] == s[lo + n - 1 - k]
      decreases y - x
    {
      a[x], a[y - 1] := a[y - 1], a[x];
      x, y := x + 1, y - 1;
    }
    forall k | 0 <= k < n
      ensures a[k] == (s[..lo] + Reverse(s[lo..]))[k]
    {
      if k >= lo {
        assert (s[..lo] + Reverse(s[lo..]))[k] == Reverse(s[lo..])[k - lo];
      }
    }
  }

  /**
   * The first scan of both steps: from the right end, move left while
   * a[i-1] does not come before a[i] (`a[i-1] >= a[i]` for
   * next_permutation, `a[i-1] <= a[i]` for prev_permutation).
   */
  method FindPivot(a: array<int>, up: bool) returns (i: nat)
    requires 1 < a.Length
    ensures i == Pivot(up, a[..], a.Length - 1)
  {
    i := a.Length - 1;
    while i > 0 && !Lt(up, a[i - 1], a[i])
      invariant i < a.Length && forall k :: i < k < a.Length ==> !Lt(up, a[k - 1], a[k])
      decreases i
    {
      i := i - 1;
    }
    PivotAt(up, a[..], a.Length - 1, i);
  }

  /** The second scan of next_permutation: move left while a[j] <= a[i-1]. */
  method FindTarget(a: array<int>, i: nat) returns (j: nat)
    requires 0 < i < a.Length && a[i - 1] < a[i]
    ensures j == Target(true, a[..], i, a.Length - 1)
  {
    j := a.Length - 1;
    while j >= i && a[j] <= a[i - 1]
      invariant i <= j < a.Length && forall k :: j < k < a.Length ==> a[k] <= a[i - 1]
      decreases j
    {
      j := j - 1;
    }
    TargetAt(true, a[..], i, a.Length - 1, j);
  }

  /** `next_permutation`: step to the lexicographic successor. */
  method NextPermutation(a: array<int>) returns (stepped: bool)
    modifies a
    ensures (stepped, a[..]) == Step(true, old(a[..]))
  {
    if a.Length <= 1 {
      return false;
    }
    var i := FindPivot(a, true);
    if i == 0 {
      return false;
    }
    ghost var s := a[..];
    var j := FindTarget(a, i);
    StepRearranges(true, s, i, j);
    SwapThenReverse(a, i, j);
    stepped := true;
  }

  /** The swap and the reversal of next_permutation. */
  method SwapThenReverse(a: array<int>, p: nat, q: nat)
    requires 0 < p <= q < a.Length
    modifies a
    ensures a[..] == Rearrange(old(a[..]), p, q)
  {
    ghost var s := a[..];
    a[q], a[p - 1] := a[p - 1], a[q];
    assert a[..] == s[p - 1 := s[q]][q := s[p - 1]];
    ReverseFrom(a, p);
  }

  /**
   * `prev_permutation`: step to the lexicographic predecessor.  It
   * reverses the suffix first and then scans it from the right, comparing
   * a[j-1] rather than a[j]; the element it swaps in is the same one the
   * successor scan would pick under the reversed order.
   */
  method PrevPermutation(a: array<int>) returns (stepped: bool)
    modifies a
    ensures (stepped, a[..]) == Step(false, old(a[..]))
  {
    if a.Length <= 1 {
      return false;
    }
    var i := FindPivot(a, false);
    if i == 0 {
      return false;
    }
    ghost var s := a[..];
    ghost var q := Target(false, s, i, a.Length - 1);
    PivotIsPivot(false, s);
    StepRearranges(false, s, i, q);
    PrevSwap(a, i, s, q);
    stepped := true;
  }

  /**
   * The second scan of prev_permutation, on the reversed suffix: move left
   * while a[j-1] < a[i-1].  It stops at the mirror image of the position
   * the successor scan would find under the reversed order.
   */
  method FindPrevTarget(a: array<int>, i: nat, ghost q: nat) returns (j: nat)
    requires 0 < i <= q < a.Length
    requires forall k :: i + a.Length - 1 - q <= k < a.Length ==> a[k] < a[i - 1]
    requires forall k :: i <= k < i + a.Length - 1 - q ==> a[i - 1] <= a[k]
    ensures j == i + a.Length - 1 - q
  {
    j := a.Length - 1;
    while j >= i && a[j - 1] < a[i - 1]
      invariant i + a.Length - 1 - q <= j < a.Length
      decreases j
    {
      j := j - 1;
    }
  }

  /** The reversal, the scan and the swap of prev_permutation. */
  method PrevSwap(a: array<int>, i: nat, ghost s: seq<int>, ghost q: nat)
    requires a[..] == s && IsPivot(false, s, i, q)
    modifies a
    ensures a[..] == Rearrange(s, i, q)
  {
    var n := a.Length;
    ReverseFrom(a, i);
    ghost var b := a[..];
    PrevScanFacts(s, b, i, q);
    var j := FindPrevTarget(a, i, q);
    a[i - 1], a[j] := a[j], a[i - 1];
    assert a[..] == b[i - 1 := b[j]][j := b[i - 1]];
    PrevResult(s, b, i, q, j);
  }

  // ---------------------------------------------------------------------
  // Facts used by the methods

  /** The two scans of `Step` meet the conditions of a proper pivot. */
  ghost predicate IsPivot(up: bool, s: seq<int>, p: nat, q: nat) {
    && 0 < p <= q < |s|
    && Lt(up, s[p - 1], s[q])
    && DescendingFrom(up, s, p)
    && (forall k :: q < k < |s| ==> !Lt(up, s[p - 1], s[k]))
  }

  /** No rise between neighbours from p on means no rise at all from p on. */
  lemma {:induction false} AdjacentDescending(up: bool, s: seq<int>, p: nat)
    requires p <= |s|
    requires forall k :: p < k < |s| ==> !Lt(up, s[k - 1], s[k])
    ensures DescendingFrom(up, s, p)
    decreases |s| - p
  {
    if p < |s| {
      AdjacentDescending(up, s, p + 1);
      forall y | p < y < |s|
        ensures !Lt(up, s[p], s[y])
      {
        if y > p + 1 {
          assert !Lt(up, s[p + 1], s[y]);
        }
      }
    }
  }

  /** The first scan stops at p when p is a rise (or 0) and nothing after it rises. */
  lemma {:induction false} PivotAt(up: bool, s: seq<int>, i: nat, p: nat)
    requires p <= i < |s|
    requires p == 0 || Lt(up, s[p - 1], s[p])
    requires forall k :: p < k <= i ==> !Lt(up, s[k - 1], s[k])
    ensures Pivot(up, s, i) == p
    decreases i
  {
    if p < i {
      PivotAt(up, s, i - 1, p);
    }
  }

  /** The second scan stops at q when s[q] comes after s[p-1] and nothing later does. */
  lemma {:induction false} TargetAt(up: bool, s: seq<int>, p: nat, j: nat, q: nat)
    requires 0 < p <= q <= j < |s| && Lt(up, s[p - 1], s[p]) && Lt(up, s[p - 1], s[q])
    requires forall k :: q < k <= j ==> !Lt(up, s[p - 1], s[k])
    ensures Target(up, s, p, j) == q
    decreases j
  {
    if q < j {
      TargetAt(up, s, p, j - 1, q);
    }
  }

  /** When `Step` moves, its pivot and target satisfy `IsPivot`. */
  lemma PivotIsPivot(up: bool, s: seq<int>)
    requires 1 < |s| && 0 < Pivot(up, s, |s| - 1)
    ensures IsPivot(up, s, Pivot(up, s, |s| - 1), Target(up, s, Pivot(up, s, |s| - 1), |s| - 1))
  {
    AdjacentDescending(up, s, Pivot(up, s, |s| - 1));
  }

  /** After the reversal in `PrevPermutation`, where its scan stops. */
  lemma PrevScanFacts(s: seq<int>, b: seq<int>, i: nat, q: nat)
    requires IsPivot(false, s, i, q)
    requires b == s[..i] + Reverse(s[i..])
    ensures forall k :: i + |s| - 1 - q <= k < |s| ==> b[k] < b[i - 1]
    ensures forall k :: i <= k < i + |s| - 1 - q ==> b[i - 1] <= b[k]
  {
    var n := |s|;
    forall k | i + n - 1 - q <= k < n
      ensures b[k] < b[i - 1]
    {
      assert b[k] == s[i + n - 1 - k];
      if i + n - 1 - k < q {
        assert !Lt(false, s[i + n - 1 - k], s[q]);
      }
    }
    forall k | i <= k < i + n - 1 - q
      ensures b[i - 1] <= b[k]
    {
      assert b[k] == s[i + n - 1 - k];
    }
  }

  /** Element by element, what `Rearrange` produces. */
  lemma RearrangeIndex(s: seq<int>, p: nat, q: nat)
    requires 0 < p <= q < |s|
    ensures |Rearrange(s, p, q)| == |s|
    ensures forall k :: 0 <= k < p - 1 ==> Rearrange(s, p, q)[k] == s[k]
    ensures Rearrange(s, p, q)[p - 1] == s[q]
    ensures forall k :: p <= k < |s| ==>
      Rearrange(s, p, q)[k] == if p + |s| - 1 - k == q then s[p - 1] else s[p + |s| - 1 - k]
  {
  }

  /** The reversal and then the swap of `PrevPermutation` give `Rearrange`. */
  lemma PrevResult(s: seq<int>, b: seq<int>, i: nat, q: nat, j: nat)
    requires 0 < i <= q < |s| && j == i + |s| - 1 - q
    requires b == s[..i] + Reverse(s[i..])
    ensures b[i - 1 := b[j]][j := b[i - 1]] == Rearrange(s, i, q)
  {
    RearrangeIndex(s, i, q);
  }

  /** `Step` at a pivot found by the scans is `Rearrange`. */
  lemma StepRearranges(up: bool, s: seq<int>, p: nat, q: nat)
    requires 1 < |s| && p == Pivot(up, s, |s| - 1) && 0 < p
    requires q == Target(up, s, p, |s| - 1)
    ensures Step(up, s) == (true, Rearrange(s, p, q))
  {
  }

  // ---------------------------------------------------------------------
  // Lexicographic order and permutations

  /** The lexicographic order is asymmetric. */
  lemma LexLessAsymmetric(up: bool, a: seq<int>, b: seq<int>)
    requires LexLess(up, a, b)
    ensures !LexLess(up, b, a)
  {
    var k: nat :| LexLessAt(up, a, b, k);
    forall k2: nat
      ensures !LexLessAt(up, b, a, k2)
    {
      if k2 < k {
        assert a[k2] == a[..k][k2];
      } else if k < k2 < |a| && k2 < |b| {
        assert a[k] == a[..k2][k];
      }
    }
  }

  /** Reading the reversed order flips the lexicographic comparison. */
  lemma LexLessFlip(up: bool, a: seq<int>, b: seq<int>)
    ensures LexLess(!up, a, b) <==> LexLess(up, b, a)
  {
    if LexLess(!up, a, b) {
      var k: nat :| LexLessAt(!up, a, b, k);
      assert LexLessAt(up, b, a, k);
    }
    if LexLess(up, b, a) {
      var k: nat :| LexLessAt(up, b, a, k);
      assert LexLessAt(!up, a, b, k);
    }
  }

  /** Two different sequences of one length have a first difference. */
  lemma {:induction false} FirstDifference(a: seq<int>, b: seq<int>) returns (k: nat)
    requires |a| == |b| && a != b
    ensures k < |a| && a[..k] == b[..k] && a[k] != b[k]
    decreases |a|
  {
    if a[0] != b[0] {
      k := 0;
    } else {
      assert a == [a[0]] + a[1..] && b == [b[0]] + b[1..];
      var k1 := FirstDifference(a[1..], b[1..]);
      k := k1 + 1;
      assert a[..k] == [a[0]] + a[1..][..k1];
      assert b[..k] == [b[0]] + b[1..][..k1];
    }
  }

  /** Equal multisets with an equal prefix have equal remaining multisets. */
  lemma SuffixMultiset(a: seq<int>, b: seq<int>, k: nat)
    requires multiset(a) == multiset(b) && k <= |a| && k <= |b| && a[..k] == b[..k]
    ensures multiset(a[k..]) == multiset(b[k..])
  {
    assert a == a[..k] + a[k..];
    assert b == b[..k] + b[k..];
    forall x
      ensures multiset(a[k..])[x] == multiset(b[k..])[x]
    {
      assert multiset(a)[x] == multiset(a[..k])[x] + multiset(a[k..])[x];
      assert multiset(b)[x] == multiset(b[..k])[x] + multiset(b[k..])[x];
    }
  }

  /**
   * A suffix that never rises is the largest arrangement of its
   * elements: every other permutation with the same prefix is smaller.
   */
  lemma SuffixMax(up: bool, s: seq<int>, u: seq<int>, p: nat)
    requires p <= |s| && p <= |u| && multiset(u) == multiset(s) && u[..p] == s[..p]
    requires DescendingFrom(up, s, p)
    ensures s == u || LexLess(up, u, s)
  {
    if s != u {
      assert |u| == |multiset(u)| == |multiset(s)| == |s|;
      var k := FirstDifference(u, s);
      if k < p {
        assert false;
      }
      SuffixMultiset(u, s, k);
      assert u[k] in multiset(s[k..]) by {
        assert u[k] == u[k..][0];
      }
      var i :| 0 <= i < |s[k..]| && s[k..][i] == u[k];
      assert s[k + i] == u[k];
      assert LexLessAt(up, u, s, k);
    }
  }

  /** Reversal keeps the multiset of elements. */
  lemma {:induction false} ReverseMultiset(t: seq<int>)
    ensures multiset(Reverse(t)) == multiset(t)
    decreases |t|
  {
    if t != [] {
      ReverseMultiset(t[1..]);
      assert Reverse(t) == Reverse(t[1..]) + [t[0]];
      assert t == [t[0]] + t[1..];
    }
  }

  // ---------------------------------------------------------------------
  // What a step promises

  /** `Rearrange` only swaps and reverses, so it permutes. */
  lemma RearrangePermutes(s: seq<int>, p: nat, q: nat)
    requires 0 < p <= q < |s|
    ensures multiset(Rearrange(s, p, q)) == multiset(s)
  {
    var t := s[p - 1 := s[q]][q := s[p - 1]];
    assert multiset(t) == multiset(s);
    ReverseMultiset(t[p..]);
    assert t == t[..p] + t[p..];
  }

  /** After `Rearrange`, the part from p on rises throughout (the first arrangement). */
  lemma RearrangeAscending(up: bool, s: seq<int>, p: nat, q: nat)
    requires IsPivot(up, s, p, q)
    ensures DescendingFrom(!up, Rearrange(s, p, q), p)
  {
    var r := Rearrange(s, p, q);
    var n := |s|;
    RearrangeIndex(s, p, q);
    forall x, y | p <= x < y < n
      ensures !Lt(!up, r[x], r[y])
    {
      var x', y' := p + n - 1 - x, p + n - 1 - y;
      assert y' < x';
      if x' == q {
        assert r[y] == s[y'] && r[x] == s[p - 1];
        assert !Lt(up, s[y'], s[q]);
      } else if y' == q {
        assert r[y] == s[p - 1] && r[x] == s[x'];
      } else {
        assert !Lt(up, s[y'], s[x']);
      }
    }
  }

  /** The step result comes after the input. */
  lemma RearrangeAdvances(up: bool, s: seq<int>, p: nat, q: nat)
    requires IsPivot(up, s, p, q)
    ensures LexLessAt(up, s, Rearrange(s, p, q), p - 1)
  {
    RearrangeIndex(s, p, q);
    assert Rearrange(s, p, q)[..p - 1] == s[..p - 1];
  }

  /** No permutation lies strictly between the input and the step result. */
  lemma RearrangeIsLeast(up: bool, s: seq<int>, u: seq<int>, p: nat, q: nat)
    requires IsPivot(up, s, p, q)
    requires multiset(u) == multiset(s) && LexLess(up, s, u)
    ensures Rearrange(s, p, q) == u || LexLess(up, Rearrange(s, p, q), u)
  {
    var r := Rearrange(s, p, q);
    RearrangeIndex(s, p, q);
    var k: nat :| LexLessAt(up, s, u, k);
    if k < p - 1 {
      assert r[..k] == s[..k];
      assert LexLessAt(up, r, u, k);
    } else if k >= p {
      assert u[..p] == s[..p] by {
        assert u[..p] == u[..k][..p] && s[..p] == s[..k][..p];
      }
      LexLessAsymmetric(up, s, u);
      SuffixMax(up, s, u, p);
      assert false;
    } else {
      assert r[..p - 1] == s[..p - 1];
      assert |u| == |multiset(u)| == |multiset(s)| == |s|;
      RearrangePermutes(s, p, q);
      RearrangeAscending(up, s, p, q);
      LeastAtPivot(up, s, u, r, p, q);
    }
  }

  /**
   * The case of `RearrangeIsLeast` where u first differs from s at the
   * pivot: s[q] is the nearest element after s[p-1], and the rest of r is
   * the first arrangement of what remains.
   */
  lemma LeastAtPivot(up: bool, s: seq<int>, u: seq<int>, r: seq<int>, p: nat, q: nat)
    requires IsPivot(up, s, p, q) && |u| == |s| && |r| == |s|
    requires multiset(u) == multiset(s) && multiset(r) == multiset(s)
    requires r[..p - 1] == s[..p - 1] == u[..p - 1] && r[p - 1] == s[q]
    requires Lt(up, s[p - 1], u[p - 1]) && DescendingFrom(!up, r, p)
    ensures r == u || LexLess(up, r, u)
  {
    SuffixMultiset(s, u, p - 1);
    assert u[p - 1] in multiset(s[p - 1..]) by {
      assert u[p - 1] == u[p - 1..][0];
    }
    var i :| 0 <= i < |s[p - 1..]| && s[p - 1..][i] == u[p - 1];
    var m := p - 1 + i;
    assert s[m] == u[p - 1] && p <= m <= q;
    assert !Lt(up, u[p - 1], r[p - 1]) by {
      if m < q {
        assert !Lt(up, s[m], s[q]);
      }
    }
    if Lt(up, r[p - 1], u[p - 1]) {
      assert LexLessAt(up, r, u, p - 1);
    } else {
      assert r[..p] == u[..p] by {
        assert r[..p] == r[..p - 1] + [r[p - 1]];
        assert u[..p] == u[..p - 1] + [u[p - 1]];
      }
      SuffixMax(!up, r, u, p);
      LexLessFlip(up, u, r);
    }
  }

  /** Both steps only swap and reverse: the multiset of elements is kept. */
  lemma StepPermutes(up: bool, s: seq<int>)
    ensures multiset(Step(up, s).1) == multiset(s)
  {
    if 1 < |s| && 0 < Pivot(up, s, |s| - 1) {
      RearrangePermutes(s, Pivot(up, s, |s| - 1), Target(up, s, Pivot(up, s, |s| - 1), |s| - 1));
    }
  }

  /**
   * A step reports false exactly when the slice never rises (which
   * includes every slice of length at most 1), and then leaves it as it is.
   */
  lemma StepStops(up: bool, s: seq<int>)
    ensures !Step(up, s).0 <==> DescendingFrom(up, s, 0)
    ensures !Step(up, s).0 ==> Step(up, s).1 == s
  {
    if 1 < |s| {
      var p := Pivot(up, s, |s| - 1);
      if p == 0 {
        AdjacentDescending(up, s, 0);
      } else {
        assert Lt(up, s[p - 1], s[p]);
      }
    }
  }

  /** A step that reports true yields a lexicographically later permutation. */
  lemma StepAdvances(up: bool, s: seq<int>)
    requires Step(up, s).0
    ensures LexLess(up, s, Step(up, s).1)
  {
    PivotIsPivot(up, s);
    var p := Pivot(up, s, |s| - 1);
    RearrangeAdvances(up, s, p, Target(up, s, p, |s| - 1));
  }

  /**
   * The step result is the least permutation after the input: every
   * permutation u later than s is the result or later than it.
   */
  lemma StepIsLeast(up: bool, s: seq<int>, u: seq<int>)
    requires multiset(u) == multiset(s) && LexLess(up, s, u)
    ensures Step(up, s).0
    ensures Step(up, s).1 == u || LexLess(up, Step(up, s).1, u)
  {
    StepStops(up, s);
    if !Step(up, s).0 {
      LexLessAsymmetric(up, s, u);
      SuffixMax(up, s, u, 0);
      assert false;
    }
    StepHasPivot(up, s);
    var p := Pivot(up, s, |s| - 1);
    var q := Target(up, s, p, |s| - 1);
    StepRearranges(up, s, p, q);
    PivotIsPivot(up, s);
    RearrangeIsLeast(up, s, u, p, q);
  }

  /** A step that happens has a pivot. */
  lemma StepHasPivot(up: bool, s: seq<int>)
    requires Step(up, s).0
    ensures 1 < |s| && 0 < Pivot(up, s, |s| - 1)
  {
  }

  /** A step that reports false is at the last permutation: nothing comes after it. */
  lemma StepLast(up: bool, s: seq<int>, u: seq<int>)
    requires !Step(up, s).0 && multiset(u) == multiset(s)
    ensures !LexLess(up, s, u)
  {
    StepStops(up, s);
    SuffixMax(up, s, u, 0);
    if s != u {
      LexLessAsymmetric(up, u, s);
    }
  }

  /** next_permutation test, first step: [0, 5, 8, 10] becomes [0, 5, 10, 8]. */
  lemma NextPermutationFirstStep()
    ensures Step(true, [0, 5, 8, 10]) == (true, [0, 5, 10, 8])
  {
    var s: seq<int> := [0, 5, 8, 10];
    assert Pivot(true, s, 3) == 3 && Target(true, s, 3, 3) == 3;
    var t := s[2 := s[3]][3 := s[2]];
    assert t[..3] == [0, 5, 10] && t[3..] == [8];
    assert Reverse([8]) == [8];
    assert Rearrange(s, 3, 3) == [0, 5, 10] + [8];
    assert [0, 5, 10] + [8] == [0, 5, 10, 8];
  }

  /** next_permutation test, second step: [0, 5, 10, 8] becomes [0, 8, 5, 10]. */
  lemma NextPermutationSecondStep()
    ensures Step(true, [0, 5, 10, 8]) == (true, [0, 8, 5, 10])
  {
    var s: seq<int> := [0, 5, 10, 8];
    assert Pivot(true, s, 3) == 2 && Target(true, s, 2, 3) == 3;
    var t := s[1 := s[3]][3 := s[1]];
    assert t[..2] == [0, 8] && t[2..] == [10, 5];
    assert Reverse([10, 5]) == [5, 10];
    assert Rearrange(s, 2, 3) == [0, 8] + [5, 10];
    assert [0, 8] + [5, 10] == [0, 8, 5, 10];
  }

  /** next_permutation reports false at the last arrangement and changes nothing. */
  lemma NextPermutationAtLast()
    ensures Step(true, [10, 8, 5, 0]) == (false, [10, 8, 5, 0])
  {
    assert Pivot(true, [10, 8, 5, 0], 3) == 0;
  }

  /** prev_permutation test: [0, 5, 10, 8] steps back to [0, 5, 8, 10]. */
  lemma PrevPermutationLastSwap()
    ensures Step(false, [0, 5, 10, 8]) == (true, [0, 5, 8, 10])
  {
    var s: seq<int> := [0, 5, 10, 8];
    assert Pivot(false, s, 3) == 3 && Target(false, s, 3, 3) == 3;
    var t := s[2 := s[3]][3 := s[2]];
    assert t[..3] == [0, 5, 8] && t[3..] == [10];
    assert Reverse([10]) == [10];
    assert Rearrange(s, 3, 3) == [0, 5, 8] + [10];
    assert [0, 5, 8] + [10] == [0, 5, 8, 10];
  }

  /** prev_permutation test: [5, 0, 8, 10] steps back to [0, 10, 8, 5]. */
  lemma PrevPermutationCarry()
    ensures Step(false, [5, 0, 8, 10]) == (true, [0, 10, 8, 5])
  {
    var s: seq<int> := [5, 0, 8, 10];
    assert Pivot(false, s, 3) == 1 && Target(false, s, 1, 3) == 1;
    var t := s[0 := s[1]][1 := s[0]];
    assert t[..1] == [0] && t[1..] == [5, 8, 10];
    assert Reverse([5, 8, 10]) == [10, 8, 5];
    assert Rearrange(s, 1, 1) == [0] + [10, 8, 5];
    assert [0] + [10, 8, 5] == [0, 10, 8, 5];
  }

  /** prev_permutation test: the sorted slice has no predecessor. */
  lemma PrevPermutationAtFirst()
    ensures Step(false, [0, 5, 8, 10]) == (false, [0, 5, 8, 10])
  {
    assert Pivot(false, [0, 5, 8, 10], 3) == 0;
  }
}
