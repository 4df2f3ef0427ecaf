/**
 * The number-theoretic transform (`procon_ntt`): `bit_reverse`, the in-place
 * `dft` and its inverse, and `multiply`, the convolution of two sequences of
 * residues modulo a prime `p` with a primitive root `g`.
 *
 * A buffer of length `n == 2^L` is an `array<int>` of residues in `[0, p)`.
 * After `dft(f, false)` entry `k` is the polynomial with coefficients
 * `old(f)` evaluated at `w^k`, where `w = g^((p-1)/n)`; `dft(f, true)`
 * evaluates at the powers of `1/w` and divides by `n`.  The facts about the
 * constants the transform relies on, that `p` is prime, that `n` divides
 * `p - 1` and that `g^((p-1)/2) == -1 (mod p)`, are the predicate
 * `NttPrime`; every result about values is stated under it.
 */
module Ntt {
  import opened NumberTheory
  import opened RustArith
  import opened Math
  import opened ModInt
  import opened MathTraits

  // ---------------------------------------------------------------------
  // Powers of two and bit reversal.

  /** `1 << k`. */
  function Pow2(k: nat): (r: nat)
    ensures r >= 1
  {
    if k == 0 then 1 else 2 * Pow2(k - 1)
  }

  lemma {:induction false} Pow2Add(a: nat, b: nat)
    ensures Pow2(a + b) == Pow2(a) * Pow2(b)
    decreases a
  {
    if a > 0 {
      Pow2Add(a - 1, b);
    }
  }

  /** `Pow2` is `Pow(2, _)`. */
  lemma {:induction false} Pow2IsPow(k: nat)
    ensures Pow2(k) == Pow(2, k)
  {
    if k > 0 {
      Pow2IsPow(k - 1);
    }
  }

  /** The lowest `L` bits of `j` in reverse order. */
  function Rev(j: nat, L: nat): (r: nat)
    ensures r < Pow2(L)
  {
    if L == 0 then 0 else (j % 2) * Pow2(L - 1) + Rev(j / 2, L - 1)
  }

  /**
   * `RevInc(i, L)` adds one to the top bit of the `L`-bit number `i` and
   * carries downwards: the bit-reversed counter's increment.
   */
  function RevInc(i: nat, L: nat): (r: nat)
    requires i < Pow2(L)
    ensures r < Pow2(L)
  {
    if L == 0 then 0
    else if i >= Pow2(L - 1) then RevInc(i - Pow2(L - 1), L - 1)
    else i + Pow2(L - 1)
  }

  /** Incrementing the bit-reversed counter reverses the next number. */
  lemma {:induction false} RevIncIsNext(j: nat, L: nat)
    requires j + 1 < Pow2(L)
    ensures RevInc(Rev(j, L), L) == Rev(j + 1, L)
    decreases L
  {
    assert L > 0;
    var h := Pow2(L - 1);
    var q := j / 2;
    assert Pow2(L) == 2 * h;
    if j % 2 == 1 {
      DivModUnique(j + 1, 2, q + 1, 0);
      RevIncIsNext(q, L - 1);
      assert Rev(j, L) == h + Rev(q, L - 1);
      assert Rev(j + 1, L) == Rev(q + 1, L - 1);
    } else {
      DivModUnique(j + 1, 2, q, 1);
      assert Rev(j, L) == Rev(q, L - 1);
      assert Rev(j + 1, L) == h + Rev(q, L - 1);
    }
  }

  /** The `L` binary digits of `j`, lowest first. */
  function ToBits(j: nat, L: nat): (b: seq<bool>)
    ensures |b| == L
  {
    if L == 0 then [] else [j % 2 == 1] + ToBits(j / 2, L - 1)
  }

  /** The number whose binary digits, lowest first, are `b`. */
  function FromBits(b: seq<bool>): (r: nat)
    ensures r < Pow2(|b|)
  {
    if b == [] then 0 else (if b[0] then 1 else 0) + 2 * FromBits(b[1..])
  }

  function Reverse(b: seq<bool>): (r: seq<bool>)
    ensures |r| == |b| && forall k :: 0 <= k < |b| ==> r[k] == b[|b| - 1 - k]
  {
    seq(|b|, k requires 0 <= k < |b| => b[|b| - 1 - k])
  }

  lemma {:induction false} FromToBits(j: nat, L: nat)
    requires j < Pow2(L)
    ensures FromBits(ToBits(j, L)) == j
    decreases L
  {
    if L > 0 {
      FromToBits(j / 2, L - 1);
      assert ToBits(j, L)[1..] == ToBits(j / 2, L - 1);
    }
  }

  lemma {:induction false} ToFromBits(b: seq<bool>)
    ensures ToBits(FromBits(b), |b|) == b
    decreases |b|
  {
    if b != [] {
      ToFromBits(b[1..]);
      var v := FromBits(b);
      assert v % 2 == (if b[0] then 1 else 0) && v / 2 == FromBits(b[1..]);
    }
  }

  /** A digit appended at the top is worth `2^|b|`. */
  lemma {:induction false} FromBitsSnoc(b: seq<bool>, x: bool)
    ensures FromBits(b + [x]) == FromBits(b) + (if x then Pow2(|b|) else 0)
    decreases |b|
  {
    if b != [] {
      FromBitsSnoc(b[1..], x);
      assert (b + [x])[1..] == b[1..] + [x];
    }
  }

  /** The low bit of `j` becomes the top bit of its reversal. */
  lemma RevTop(j: nat, L: nat)
    requires L > 0
    ensures Rev(j, L) == Rev(j / 2, L - 1) + (if j % 2 == 1 then Pow2(L - 1) else 0)
  {
    var h := Pow2(L - 1);
    assert Rev(j, L) == (j % 2) * h + Rev(j / 2, L - 1);
    if j % 2 == 1 {
      assert (j % 2) * h == h;
    } else {
      assert (j % 2) * h == 0;
    }
  }

  lemma ReverseCons(x: bool, b: seq<bool>)
    ensures Reverse([x] + b) == Reverse(b) + [x]
  {
    var r, r' := Reverse([x] + b), Reverse(b) + [x];
    forall k | 0 <= k < |r|
      ensures r[k] == r'[k]
    {
      if k < |b| {
        assert r[k] == ([x] + b)[|b| - k];
      }
    }
  }

  /** `Rev` reverses the digits. */
  lemma {:induction false} RevIsReversedDigits(j: nat, L: nat)
    ensures Rev(j, L) == FromBits(Reverse(ToBits(j, L)))
    decreases L
  {
    if L > 0 {
      RevIsReversedDigits(j / 2, L - 1);
      var b := ToBits(j / 2, L - 1);
      var bit := j % 2 == 1;
      assert ToBits(j, L) == [bit] + b;
      ReverseCons(bit, b);
      FromBitsSnoc(Reverse(b), bit);
      RevTop(j, L);
    }
  }

  /** Reversing the lowest `L` bits twice gives back an `L`-bit number. */
  lemma RevInvolution(j: nat, L: nat)
    requires j < Pow2(L)
    ensures Rev(Rev(j, L), L) == j
  {
    var b := ToBits(j, L);
    RevIsReversedDigits(j, L);
    RevIsReversedDigits(Rev(j, L), L);
    ToFromBits(Reverse(b));
    assert Reverse(Reverse(b)) == b;
    FromToBits(j, L);
  }

  /** The reversal of `2j` and `2j + 1` over `K + 1` bits: the low bit becomes the top bit. */
  lemma RevDouble(j: nat, K: nat)
    ensures Rev(2 * j, K + 1) == Rev(j, K)
    ensures Rev(2 * j + 1, K + 1) == Pow2(K) + Rev(j, K)
  {
    assert (2 * j) / 2 == j && (2 * j + 1) / 2 == j;
  }

  /** `x ^ k` for the power of two `k` above the other bits of `x`, or equal to its top bit. */
  lemma {:induction false} XorPowerOfTwo(x: nat, t: nat)
    requires x < 2 * Pow2(t)
    ensures BitXor(x, Pow2(t)) == if x >= Pow2(t) then x - Pow2(t) else x + Pow2(t)
    decreases t
  {
    var k := Pow2(t);
    XorDigits(x, k);
    if t == 0 {
      XorZero(0);
      assert x / 2 == 0 && k / 2 == 0;
    } else {
      var h := Pow2(t - 1);
      assert k == 2 * h && k / 2 == h && (x + k) % 2 == x % 2;
      XorPowerOfTwo(x / 2, t - 1);
      assert x / 2 >= h <==> x >= k;
    }
  }

  lemma {:induction false} RevZero(L: nat)
    ensures Rev(0, L) == 0
  {
    if L > 0 {
      RevZero(L - 1);
    }
  }

  /** Only 0 reverses to 0. */
  lemma RevIsZero(x: nat, L: nat)
    requires x < Pow2(L) && Rev(x, L) == 0
    ensures x == 0
  {
    RevInvolution(x, L);
    RevZero(L);
  }

  // ---------------------------------------------------------------------
  // `bit_reverse`.

  /** The buffer `a` permuted by bit reversal: entry `x` is `a[Rev(x, L)]`. */
  function BitReversed(a: seq<int>, L: nat): (r: seq<int>)
    requires |a| == Pow2(L)
    ensures |r| == |a|
  {
    seq(|a|, x requires 0 <= x < |a| => a[Rev(x, L)])
  }

  /** Bit reversal is an involution, hence a permutation of the buffer. */
  lemma BitReversedTwice(a: seq<int>, L: nat)
    requires |a| == Pow2(L)
    ensures BitReversed(BitReversed(a, L), L) == a
    ensures forall x, y :: 0 <= x < y < |a| ==> Rev(x, L) != Rev(y, L)
  {
    forall x | 0 <= x < |a|
      ensures BitReversed(BitReversed(a, L), L)[x] == a[x]
    {
      RevInvolution(x, L);
    }
    forall x, y | 0 <= x < y < |a|
      ensures Rev(x, L) != Rev(y, L)
    {
      RevInvolution(x, L);
      RevInvolution(y, L);
    }
  }

  /**
   * `bit_reverse(v)`: `i` runs through `Rev(j, L)` by the reversed
   * increment (toggle the top bit, and while that cleared it, the next
   * bit down), and `v[i]` and `v[j]` are swapped once, when `i > j`.  An
   * empty buffer underflows `v.len() - 1`, so the buffer is non-empty.
   */
  method BitReverse(v: array<int>, ghost L: nat)
    requires v.Length == Pow2(L)
    modifies v
    ensures v[..] == BitReversed(old(v[..]), L)
  {
    ghost var a := v[..];
    var n := v.Length;
    var i := 0;
    var j := 1;
    RevZero(L);
    SwappedStart(a, L);
    while j < n - 1
      invariant 1 <= j <= if n > 1 then n - 1 else 1
      invariant i == Rev(j - 1, L)
      invariant SwappedBelow(v[..], a, j, L)
    {
      i := NextReversed(i, n, L, j);
      ghost var before := v[..];
      if i > j {
        v[i], v[j] := v[j], v[i];
      }
      SwapStep(before, v[..], a, j, L);
      j := j + 1;
    }
    SwappedEnd(v[..], a, j, L);
  }

  lemma SwappedStart(a: seq<int>, L: nat)
    requires |a| == Pow2(L)
    ensures SwappedBelow(a, a, 1, L)
  {
    RevZero(L);
    forall x | 0 <= x < |a| && Min2(x, Rev(x, L)) < 1
      ensures x == 0
    {
      if Rev(x, L) == 0 {
        RevIsZero(x, L);
      }
    }
  }

  /** Once every `j` below `n - 1` is done, the buffer is bit-reversed. */
  lemma SwappedEnd(cur: seq<int>, a: seq<int>, j: nat, L: nat)
    requires |a| == Pow2(L) && SwappedBelow(cur, a, j, L)
    requires j == if |a| > 1 then |a| - 1 else 1
    ensures cur == BitReversed(a, L)
  {
    forall x | 0 <= x < |a|
      ensures cur[x] == a[Rev(x, L)]
    {
      if Min2(x, Rev(x, L)) >= j {
        RevInvolution(x, L);
        RevOfAllOnes(L);
        if |a| == 1 {
          RevZero(L);
        }
      }
    }
  }

  /** After the swaps for `1 .. j - 1`: the pairs `{x, Rev(x)}` whose smaller index is below `j` are swapped. */
  ghost predicate SwappedBelow(cur: seq<int>, a: seq<int>, j: nat, L: nat)
    requires |a| == Pow2(L)
  {
    |cur| == |a| &&
    forall x :: 0 <= x < |a| ==> cur[x] == if Min2(x, Rev(x, L)) < j then a[Rev(x, L)] else a[x]
  }

  /** Swapping `j` with `Rev(j)` when that is larger swaps the pair whose smaller index is `j`. */
  lemma SwapStep(before: seq<int>, after: seq<int>, a: seq<int>, j: nat, L: nat)
    requires |a| == Pow2(L) && 1 <= j < |a| && SwappedBelow(before, a, j, L)
    requires var i := Rev(j, L);
      if i > j then after == before[i := before[j]][j := before[i]] else after == before
    ensures SwappedBelow(after, a, j + 1, L)
  {
    var i := Rev(j, L);
    RevInvolution(j, L);
    forall x | 0 <= x < |a|
      ensures after[x] == if Min2(x, Rev(x, L)) < j + 1 then a[Rev(x, L)] else a[x]
    {
      RevInvolution(x, L);
      if x == j || x == i {
        if i > j {
          RevInvolution(i, L);
        }
      }
    }
  }

  function Min2(x: nat, y: nat): nat
  {
    if x < y then x else y
  }

  lemma AllOnesHalf(L: nat)
    requires L > 0
    ensures (Pow2(L) - 1) / 2 == Pow2(L - 1) - 1 && (Pow2(L) - 1) % 2 == 1
  {
    var h := Pow2(L - 1);
    DivModUnique(Pow2(L) - 1, 2, h - 1, 1);
  }

  /** The last index `2^L - 1` has all bits set, so it is its own reversal. */
  lemma {:induction false} RevOfAllOnes(L: nat)
    ensures Rev(Pow2(L) - 1, L) == Pow2(L) - 1
  {
    if L > 0 {
      RevOfAllOnes(L - 1);
      AllOnesHalf(L);
    }
  }

  /**
   * The inner loop of `bit_reverse`: `k = n >> 1`, then `i ^= k` while the
   * toggle cleared the bit, halving `k` each time.
   */
  method NextReversed(i0: nat, n: nat, ghost L: nat, ghost j: nat) returns (i: nat)
    requires n == Pow2(L) && 1 <= j < n && i0 == Rev(j - 1, L)
    ensures i == Rev(j, L)
  {
    ghost var target := Rev(j, L);
    RevIncIsNext(j - 1, L);
    assert target != 0 by {
      if target == 0 {
        RevIsZero(j, L);
      }
    }
    ghost var t: nat := L - 1;
    assert Pow2(L) == 2 * Pow2(t);
    var k := n / 2;
    XorPowerOfTwo(i0, t);
    i := BitXor(i0, k);
    while k > i
      invariant k == Pow2(t)
      invariant k > i ==> RevInc(i, t) == target
      invariant k <= i ==> i == target
      decreases t
    {
      if t == 0 {
        assert false;
      }
      ghost var i1 := i;
      t := t - 1;
      k := k / 2;
      XorPowerOfTwo(i1, t);
      i := BitXor(i, k);
    }
  }

  // ---------------------------------------------------------------------
  // Polynomials.

  /** `c[0] + c[1] x + c[2] x^2 + ...`, by Horner's rule from the constant term. */
  function Poly(c: seq<int>, x: int): int
  {
    if c == [] then 0 else c[0] + x * Poly(c[1..], x)
  }

  /** The coefficients of even degree. */
  function Evens(c: seq<int>): (r: seq<int>)
    requires |c| % 2 == 0
    ensures |r| == |c| / 2
  {
    seq(|c| / 2, v requires 0 <= v < |c| / 2 => c[2 * v])
  }

  /** The coefficients of odd degree. */
  function Odds(c: seq<int>): (r: seq<int>)
    requires |c| % 2 == 0
    ensures |r| == |c| / 2
  {
    seq(|c| / 2, v requires 0 <= v < |c| / 2 => c[2 * v + 1])
  }

  /** The even-odd split the butterfly rests on: `c(x) == E(x^2) + x O(x^2)`. */
  lemma {:induction false} PolyEvenOdd(c: seq<int>, x: int)
    requires |c| % 2 == 0
    ensures Poly(c, x) == Poly(Evens(c), x * x) + x * Poly(Odds(c), x * x)
    decreases |c|
  {
    if c != [] {
      var rest := c[2..];
      PolyEvenOdd(rest, x);
      assert Evens(c)[1..] == Evens(rest);
      assert Odds(c)[1..] == Odds(rest);
      assert c[1..][1..] == rest;
      EvenOddArithmetic(c[0], c[1], x, Poly(rest, x), Poly(Evens(rest), x * x), Poly(Odds(rest), x * x));
    }
  }

  lemma EvenOddArithmetic(c0: int, c1: int, x: int, r: int, e: int, o: int)
    requires r == e + x * o
    ensures c0 + x * (c1 + x * r) == (c0 + (x * x) * e) + x * (c1 + (x * x) * o)
  {
    calc {
      c0 + x * (c1 + x * r);
      c0 + x * c1 + (x * x) * (e + x * o);
      (c0 + (x * x) * e) + x * (c1 + (x * x) * o);
    }
  }

  /** Congruent points give congruent values. */
  lemma {:induction false} PolyCongruentPoint(c: seq<int>, x: int, y: int, p: int)
    requires p > 0 && x % p == y % p
    ensures Poly(c, x) % p == Poly(c, y) % p
    decreases |c|
  {
    if c != [] {
      PolyCongruentPoint(c[1..], x, y, p);
      CongruentProduct(x, y, Poly(c[1..], x), Poly(c[1..], y), p);
      ModAdd(c[0], x * Poly(c[1..], x), p);
      ModAdd(c[0], y * Poly(c[1..], y), p);
    }
  }

  /** Coefficient-wise congruent polynomials give congruent values. */
  lemma {:induction false} PolyCongruentCoefficients(c: seq<int>, d: seq<int>, x: int, p: int)
    requires p > 0 && |c| == |d| && forall t :: 0 <= t < |c| ==> c[t] % p == d[t] % p
    ensures Poly(c, x) % p == Poly(d, x) % p
    decreases |c|
  {
    if c != [] {
      PolyCongruentCoefficients(c[1..], d[1..], x, p);
      CongruentProduct(x, x, Poly(c[1..], x), Poly(d[1..], x), p);
      ModAdd(c[0], x * Poly(c[1..], x), p);
      ModAdd(d[0], x * Poly(d[1..], x), p);
    }
  }

  // ---------------------------------------------------------------------
  // The stages of the iterative transform.

  /** `u * 2^(L-m) + r` with `u < 2^m` and `r < 2^(L-m)` is an index of a buffer of length `2^L`. */
  lemma StrandIndexBound(L: nat, m: nat, u: nat, r: nat)
    requires m <= L && u < Pow2(m) && r < Pow2(L - m)
    ensures u * Pow2(L - m) + r < Pow2(L)
  {
    Pow2Add(m, L - m);
    BelowProduct(u, r, Pow2(m), Pow2(L - m));
  }

  /** Digit `u < A` and remainder `r < P` fit in `A * P`. */
  lemma BelowProduct(u: int, r: int, A: int, P: int)
    requires 0 <= u < A && 0 <= r < P
    ensures u * P + r < A * P
  {
    var d := A - 1 - u;
    assert A * P == u * P + P + d * P;
    MulNonNegative(d, P);
  }

  lemma MulNonNegative(a: int, b: int)
    requires a >= 0 && b >= 0
    ensures a * b >= 0
  {
  }

  /**
   * The subsequence of `a` that block `j` of size `2^m` transforms: the
   * entries `a[u * 2^(L-m) + Rev(j, L-m)]` for `u < 2^m`.
   */
  function Strand(a: seq<int>, L: nat, m: nat, j: nat): (c: seq<int>)
    requires |a| == Pow2(L) && m <= L
    ensures |c| == Pow2(m)
  {
    seq(Pow2(m), u requires 0 <= u < Pow2(m) =>
      StrandIndexBound(L, m, u, Rev(j, L - m));
      a[u * Pow2(L - m) + Rev(j, L - m)])
  }

  /** The strands of blocks `2j` and `2j + 1` are the even and odd entries of the strand of the merged block `j`. */
  lemma StrandSplit(a: seq<int>, L: nat, m: nat, j: nat)
    requires |a| == Pow2(L) && m < L
    ensures Strand(a, L, m, 2 * j) == Evens(Strand(a, L, m + 1, j))
    ensures Strand(a, L, m, 2 * j + 1) == Odds(Strand(a, L, m + 1, j))
  {
    StrandSplitEven(a, L, m, j);
    StrandSplitOdd(a, L, m, j);
  }

  lemma StrandSplitEven(a: seq<int>, L: nat, m: nat, j: nat)
    requires |a| == Pow2(L) && m < L
    ensures Strand(a, L, m, 2 * j) == Evens(Strand(a, L, m + 1, j))
  {
    var c := Strand(a, L, m + 1, j);
    assert |c| == 2 * Pow2(m);
    var e := Evens(c);
    forall v | 0 <= v < Pow2(m)
      ensures Strand(a, L, m, 2 * j)[v] == e[v]
    {
      StrandSplitAt(a, L, m, j, v);
    }
  }

  lemma StrandSplitOdd(a: seq<int>, L: nat, m: nat, j: nat)
    requires |a| == Pow2(L) && m < L
    ensures Strand(a, L, m, 2 * j + 1) == Odds(Strand(a, L, m + 1, j))
  {
    var c := Strand(a, L, m + 1, j);
    assert |c| == 2 * Pow2(m);
    var o := Odds(c);
    forall v | 0 <= v < Pow2(m)
      ensures Strand(a, L, m, 2 * j + 1)[v] == o[v]
    {
      StrandSplitAt(a, L, m, j, v);
    }
  }

  /** Entry `v` of the strands of blocks `2j` and `2j + 1` are entries `2v` and `2v + 1` of the strand of block `j`. */
  lemma StrandSplitAt(a: seq<int>, L: nat, m: nat, j: nat, v: nat)
    requires |a| == Pow2(L) && m < L && v < Pow2(m)
    ensures 2 * v + 1 < Pow2(m + 1)
    ensures Strand(a, L, m, 2 * j)[v] == Strand(a, L, m + 1, j)[2 * v]
    ensures Strand(a, L, m, 2 * j + 1)[v] == Strand(a, L, m + 1, j)[2 * v + 1]
  {
    var K := L - m - 1;
    var P := Pow2(K);
    RevDouble(j, K);
    assert Pow2(L - m) == 2 * P;
    DoubleIndex(v, P);
  }

  lemma DoubleIndex(v: int, P: int)
    ensures (2 * v) * P == v * (2 * P)
    ensures (2 * v + 1) * P == v * (2 * P) + P
  {
  }

  /** The block of `x` is below the number of blocks. */
  lemma BlockBound(x: nat, L: nat, m: nat)
    requires m <= L && x < Pow2(L)
    ensures x / Pow2(m) < Pow2(L - m)
  {
    Pow2Add(m, L - m);
    DivBelow(x, Pow2(m), Pow2(L - m));
  }

  lemma DivBelow(x: nat, A: nat, B: nat)
    requires A > 0 && x < A * B
    ensures x / A < B
  {
  }

  /**
   * Entry `x` once the levels of block size below `2^m` are done: the
   * strand of block `x / 2^m` evaluated at `r^(x % 2^m)`.
   */
  function StageValue(a: seq<int>, L: nat, m: nat, r: int, p: int, x: nat): int
    requires |a| == Pow2(L) && m <= L && x < Pow2(L) && p > 0
  {
    var s := Pow2(m);
    DivModNat(x, s);
    var e: nat := x % s;
    Poly(Strand(a, L, m, x / s), Pow(r, e)) % p
  }

  lemma DivModNat(x: nat, s: nat)
    requires s > 0
    ensures 0 <= x / s && 0 <= x % s < s
  {
  }

  function Stage(a: seq<int>, L: nat, m: nat, r: int, p: int): (s: seq<int>)
    requires |a| == Pow2(L) && m <= L && p > 0
    ensures |s| == |a|
  {
    seq(|a|, x requires 0 <= x < |a| => StageValue(a, L, m, r, p, x))
  }

  /** Before any level, the stage is the bit-reversed buffer. */
  lemma StageZero(a: seq<int>, L: nat, r: int, p: int)
    requires |a| == Pow2(L) && p > 0 && forall x :: 0 <= x < |a| ==> 0 <= a[x] < p
    ensures Stage(a, L, 0, r, p) == BitReversed(a, L)
  {
    forall x | 0 <= x < |a|
      ensures Stage(a, L, 0, r, p)[x] == a[Rev(x, L)]
    {
      var c := Strand(a, L, 0, x);
      assert c == [a[Rev(x, L)]];
      assert Poly(c[1..], 1) == 0;
      ModSmall(a[Rev(x, L)], p);
    }
  }

  /** Evaluating the polynomial with coefficients `a` at `r^x` for every `x`, modulo `p`. */
  function Transform(a: seq<int>, r: int, p: int): (t: seq<int>)
    requires p > 0
    ensures |t| == |a|
  {
    seq(|a|, x requires 0 <= x < |a| => Poly(a, Pow(r, x)) % p)
  }

  /** After the last level, the stage is the transform. */
  lemma StageLast(a: seq<int>, L: nat, r: int, p: int)
    requires |a| == Pow2(L) && p > 0
    ensures Stage(a, L, L, r, p) == Transform(a, r, p)
  {
    RevZero(0);
    assert Strand(a, L, L, 0) == a;
    forall x | 0 <= x < |a|
      ensures x / Pow2(L) == 0 && x % Pow2(L) == x
    {
      DivModUnique(x, Pow2(L), 0, x);
    }
  }

  /** Where the butterfly of block `jj` and offset `k` sits at block size `s`. */
  lemma ButterflyIndex(jj: nat, k: nat, s: nat)
    requires k < s
    ensures var x0 := jj * (2 * s) + k;
      x0 / s == 2 * jj && x0 % s == k && (x0 + s) / s == 2 * jj + 1 && (x0 + s) % s == k &&
      x0 / (2 * s) == jj && x0 % (2 * s) == k && (x0 + s) / (2 * s) == jj && (x0 + s) % (2 * s) == k + s
  {
    var x0 := jj * (2 * s) + k;
    DivModUnique(x0, s, 2 * jj, k);
    DivModUnique(x0 + s, s, 2 * jj + 1, k);
    DivModUnique(x0, 2 * s, jj, k);
    DivModUnique(x0 + s, 2 * s, jj, k + s);
  }

  /** The butterfly pair `x0`, `x0 + s` of block `jj` lies inside the buffer. */
  lemma ButterflyInside(jj: nat, k: nat, s: nat, blocks: nat)
    requires k < s && jj < blocks
    ensures jj * (2 * s) + k + s < blocks * (2 * s)
  {
    BelowProduct(jj, k + s, blocks, 2 * s);
  }

  /** The even-odd split at a point `x` with `x^2 == y` modulo `p`. */
  lemma SplitAtPoint(c: seq<int>, x: int, y: int, p: int)
    requires p > 0 && |c| % 2 == 0 && (x * x) % p == y % p
    ensures Poly(c, x) % p == (Poly(Evens(c), y) + x * Poly(Odds(c), y)) % p
  {
    PolyEvenOdd(c, x);
    PolyCongruentPoint(Evens(c), x * x, y, p);
    PolyCongruentPoint(Odds(c), x * x, y, p);
    SumCongruent(Poly(Evens(c), x * x), Poly(Odds(c), x * x), Poly(Evens(c), y), Poly(Odds(c), y), x, p);
  }

  lemma SumCongruent(e1: int, o1: int, e: int, o: int, x: int, p: int)
    requires p > 0 && e1 % p == e % p && o1 % p == o % p
    ensures (e1 + x * o1) % p == (e + x * o) % p
  {
    CongruentProduct(x, x, o1, o, p);
    ModAdd(e1, x * o1, p);
    ModAdd(e, x * o, p);
  }

  /** A point congruent to `-x` turns `e + x' o` into `e - x o`. */
  lemma NegatedPoint(e: int, o: int, x: int, x': int, p: int)
    requires p > 0 && x' % p == (-x) % p
    ensures (x' * x') % p == (x * x) % p
    ensures (e + x' * o) % p == (e - x * o) % p
  {
    CongruentProduct(x', -x, x', -x, p);
    assert (-x) * (-x) == x * x;
    CongruentProduct(x', -x, o, o, p);
    assert (-x) * o == -(x * o);
    ModAdd(e, x' * o, p);
    ModAdd(e, -(x * o), p);
  }

  /** The even-odd split at a point `x'` congruent to `-x`, where `x^2 == y` modulo `p`. */
  lemma SplitAtNegatedPoint(c: seq<int>, x: int, x': int, y: int, p: int)
    requires p > 0 && |c| % 2 == 0
    requires (x * x) % p == y % p && x' % p == (-x) % p
    ensures Poly(c, x') % p == (Poly(Evens(c), y) - x * Poly(Odds(c), y)) % p
  {
    NegatedSquare(x, x', y, p);
    SplitAtPoint(c, x', y, p);
    NegatedCombine(Poly(c, x'), Poly(Evens(c), y), Poly(Odds(c), y), x, x', p);
  }

  lemma NegatedSquare(x: int, x': int, y: int, p: int)
    requires p > 0 && (x * x) % p == y % p && x' % p == (-x) % p
    ensures (x' * x') % p == y % p
  {
    NegatedPoint(0, 0, x, x', p);
  }

  lemma NegatedCombine(v: int, e: int, o: int, x: int, x': int, p: int)
    requires p > 0 && x' % p == (-x) % p && v % p == (e + x' * o) % p
    ensures v % p == (e - x * o) % p
  {
    NegatedPoint(e, o, x, x', p);
  }

  /** The code's butterfly arithmetic on reduced values: `s + t` and `s - t` with `t = v * w^k`. */
  lemma ButterflyArithmetic(e: int, o: int, x: int, wn: int, p: int)
    requires p > 1 && 0 <= wn < p && wn == x % p
    ensures Add(e % p, Mul(o % p, wn, p), p) == (e + x * o) % p
    ensures Sub(e % p, Mul(o % p, wn, p), p) == (e - x * o) % p
  {
    var t := Mul(o % p, wn, p);
    assert t == ((o % p) * (x % p)) % p;
    ModMul(o, x, p);
    assert t == (x * o) % p;
    ModAdd(e, x * o, p);
    ModSub(e, x * o, p);
    ModOfMod(e, p);
    ModOfMod(x * o, p);
  }

  /** `PowRem(w, k, p)` is the reduced power for a reduced base. */
  lemma PowRemReduced(w: int, k: nat, p: int)
    requires p > 1 && 0 <= w < p
    ensures 0 <= PowRem(w, k, p) < p && PowRem(w, k, p) == Pow(w, k) % p
  {
    if k == 0 {
      ModSmall(1, p);
    }
  }

  /** An entry of a stage, given its block and offset. */
  lemma StageAt(a: seq<int>, L: nat, m: nat, r: int, p: int, x: nat, j: nat, e: nat)
    requires |a| == Pow2(L) && m <= L && p > 0 && x < Pow2(L)
    requires x / Pow2(m) == j && x % Pow2(m) == e
    ensures Stage(a, L, m, r, p)[x] == Poly(Strand(a, L, m, j), Pow(r, e)) % p
  {
  }

  /** The two twiddles of a butterfly: `x^2 == r0^k` and `x' == -x` for `x = r1^k`, `x' = r1^(k+s)`. */
  lemma TwiddlePowers(r0: int, r1: int, p: int, k: nat, s: nat)
    requires p > 1 && (r1 * r1) % p == r0 % p && Pow(r1, s) % p == p - 1
    ensures (Pow(r1, k) * Pow(r1, k)) % p == Pow(r0, k) % p
    ensures Pow(r1, k + s) % p == (-Pow(r1, k)) % p
  {
    PowProduct(r1, r1, k);
    PowCongruent(r1 * r1, r0, k, p);
    PowAdd(r1, k, s);
    assert (p - 1) % p == -1 % p by {
      ModSmall(p - 1, p);
      ModAddMultiple(-1, p, 1);
    }
    CongruentProduct(Pow(r1, k), Pow(r1, k), Pow(r1, s), -1, p);
  }

  /**
   * One butterfly of the level with half-length `s = 2^m`: from the stage
   * for block size `s` with root `r0` to the stage for block size `2s`
   * with root `r1`, where `r1^2 == r0` and `r1^s == -1` modulo `p`.
   */
  lemma Butterfly(a: seq<int>, L: nat, m: nat, r0: int, r1: int, p: int, jj: nat, k: nat)
    requires |a| == Pow2(L) && m < L && p > 1
    requires jj < Pow2(L - m - 1) && k < Pow2(m)
    requires 0 <= r1 < p && (r1 * r1) % p == r0 % p && Pow(r1, Pow2(m)) % p == p - 1
    ensures var s := Pow2(m);
      var x0 := jj * (2 * s) + k;
      var prev := Stage(a, L, m, r0, p);
      var next := Stage(a, L, m + 1, r1, p);
      x0 + s < |a| &&
      next[x0] == Add(prev[x0], Mul(prev[x0 + s], PowRem(r1, k, p), p), p) &&
      next[x0 + s] == Sub(prev[x0], Mul(prev[x0 + s], PowRem(r1, k, p), p), p)
  {
    var s := Pow2(m);
    var x0 := jj * (2 * s) + k;
    var e, o, n0, n1, x := ButterflyResidues(a, L, m, r0, r1, p, jj, k);
    PowRemReduced(r1, k, p);
    var prev, next := Stage(a, L, m, r0, p), Stage(a, L, m + 1, r1, p);
    ButterflyCongruence(prev[x0], prev[x0 + s], next[x0], next[x0 + s], e, o, n0, n1, x, PowRem(r1, k, p), p);
  }

  /**
   * The four entries a butterfly touches, as residues of evaluations
   * `e`, `o` (the even and odd halves at `r0^k`) and `n0`, `n1` (the
   * whole strand at `x = r1^k` and at `r1^(k+s)`).
   */
  lemma ButterflyResidues(a: seq<int>, L: nat, m: nat, r0: int, r1: int, p: int, jj: nat, k: nat)
    returns (e: int, o: int, n0: int, n1: int, x: int)
    requires |a| == Pow2(L) && m < L && p > 1
    requires jj < Pow2(L - m - 1) && k < Pow2(m)
    requires 0 <= r1 < p && (r1 * r1) % p == r0 % p && Pow(r1, Pow2(m)) % p == p - 1
    ensures var s := Pow2(m);
      var x0 := jj * (2 * s) + k;
      var prev := Stage(a, L, m, r0, p);
      var next := Stage(a, L, m + 1, r1, p);
      x0 + s < |a| && x == Pow(r1, k) &&
      prev[x0] == e % p && prev[x0 + s] == o % p && next[x0] == n0 % p && next[x0 + s] == n1 % p &&
      n0 % p == (e + x * o) % p && n1 % p == (e - x * o) % p
  {
    var s := Pow2(m);
    var c := Strand(a, L, m + 1, jj);
    var y, x' := Pow(r0, k), Pow(r1, k + s);
    x := Pow(r1, k);
    ButterflyReads(a, L, m, r0, p, jj, k);
    ButterflyWrites(a, L, m, r1, p, jj, k);
    TwiddlePowers(r0, r1, p, k, s);
    SplitAtPoint(c, x, y, p);
    SplitAtNegatedPoint(c, x, x', y, p);
    e, o, n0, n1 := Poly(Evens(c), y), Poly(Odds(c), y), Poly(c, x), Poly(c, x');
  }

  /** The butterfly on residues, once its four entries are known as evaluations. */
  lemma ButterflyCongruence(u: int, v: int, u': int, v': int, e: int, o: int, n0: int, n1: int, x: int, wn: int, p: int)
    requires p > 1 && 0 <= wn < p && wn == x % p
    requires u == e % p && v == o % p && u' == n0 % p && v' == n1 % p
    requires n0 % p == (e + x * o) % p && n1 % p == (e - x * o) % p
    ensures u' == Add(u, Mul(v, wn, p), p) && v' == Sub(u, Mul(v, wn, p), p)
  {
    ButterflyArithmetic(e, o, x, wn, p);
  }

  /** The two stage entries a butterfly reads: the even and odd halves of the strand of its block. */
  lemma ButterflyReads(a: seq<int>, L: nat, m: nat, r0: int, p: int, jj: nat, k: nat)
    requires |a| == Pow2(L) && m < L && p > 1
    requires jj < Pow2(L - m - 1) && k < Pow2(m)
    ensures var s := Pow2(m);
      var x0 := jj * (2 * s) + k;
      var c := Strand(a, L, m + 1, jj);
      var prev := Stage(a, L, m, r0, p);
      |c| % 2 == 0 && x0 + s < |a| &&
      prev[x0] == Poly(Evens(c), Pow(r0, k)) % p && prev[x0 + s] == Poly(Odds(c), Pow(r0, k)) % p
  {
    var s := Pow2(m);
    var x0 := jj * (2 * s) + k;
    ButterflyPlace(L, m, jj, k);
    StrandSplit(a, L, m, jj);
    StageAt(a, L, m, r0, p, x0, 2 * jj, k);
    StageAt(a, L, m, r0, p, x0 + s, 2 * jj + 1, k);
  }

  /** The two stage entries a butterfly writes: the strand of its block at `r1^k` and `r1^(k+s)`. */
  lemma ButterflyWrites(a: seq<int>, L: nat, m: nat, r1: int, p: int, jj: nat, k: nat)
    requires |a| == Pow2(L) && m < L && p > 1
    requires jj < Pow2(L - m - 1) && k < Pow2(m)
    ensures var s := Pow2(m);
      var x0 := jj * (2 * s) + k;
      var c := Strand(a, L, m + 1, jj);
      var next := Stage(a, L, m + 1, r1, p);
      x0 + s < |a| &&
      next[x0] == Poly(c, Pow(r1, k)) % p && next[x0 + s] == Poly(c, Pow(r1, k + s)) % p
  {
    var s := Pow2(m);
    var x0 := jj * (2 * s) + k;
    ButterflyPlace(L, m, jj, k);
    StageAt(a, L, m + 1, r1, p, x0, jj, k);
    StageAt(a, L, m + 1, r1, p, x0 + s, jj, k + s);
  }

  /** Where the butterfly of block `jj` and offset `k` sits at level `m`. */
  lemma ButterflyPlace(L: nat, m: nat, jj: nat, k: nat)
    requires m < L && jj < Pow2(L - m - 1) && k < Pow2(m)
    ensures var s := Pow2(m);
      var x0 := jj * (2 * s) + k;
      Pow2(m + 1) == 2 * s && x0 + s < Pow2(L) &&
      x0 / s == 2 * jj && x0 % s == k && (x0 + s) / s == 2 * jj + 1 && (x0 + s) % s == k &&
      x0 / (2 * s) == jj && x0 % (2 * s) == k && (x0 + s) / (2 * s) == jj && (x0 + s) % (2 * s) == k + s
  {
    var s := Pow2(m);
    Pow2Add(L - m - 1, m + 1);
    assert Pow2(m + 1) == 2 * s;
    ButterflyInside(jj, k, s, Pow2(L - m - 1));
    ButterflyIndex(jj, k, s);
  }


  // ---------------------------------------------------------------------
  // One level of butterflies.

  /** Every entry is a residue in `[0, p)`, as a `StaticModInt` value is. */
  ghost predicate Canonical(b: seq<int>, p: int)
  {
    forall x :: 0 <= x < |b| ==> 0 <= b[x] < p
  }

  /** Where `x` sits in a buffer of `nb` blocks of length `2s`. */
  lemma LevelIndex(x: nat, s: nat, nb: nat)
    requires s > 0 && x < nb * (2 * s)
    ensures var o := x % (2 * s);
      x == (x / (2 * s)) * (2 * s) + o && 0 <= o < 2 * s && x / (2 * s) < nb &&
      (o < s ==> x + s < nb * (2 * s)) && (o >= s ==> x >= s)
  {
    var q, o := x / (2 * s), x % (2 * s);
    DivModNat(x, 2 * s);
    DivBelow(x, 2 * s, nb);
    ButterflyInside(q, if o < s then o else o - s, s, nb);
  }

  /** A butterfly of residues gives residues. */
  lemma ButterflyRange(a: int, b: int, c: int, p: int)
    requires p > 1 && 0 <= a < p && 0 <= b < p && 0 <= c < p
    ensures 0 <= Add(a, Mul(b, c, p), p) < p && 0 <= Sub(a, Mul(b, c, p), p) < p
  {
  }

  /**
   * The butterfly of block `jj` and offset `k` takes `prev` to `next`: with
   * `x0 = jj * 2s + k` and `t = prev[x0 + s] * w^k`, entry `x0` becomes
   * `prev[x0] + t` and entry `x0 + s` becomes `prev[x0] - t`.
   */
  ghost predicate ButterflyHolds(prev: seq<int>, next: seq<int>, s: nat, w: int, p: int, jj: nat, k: nat)
    requires p > 1
  {
    var x0 := jj * (2 * s) + k;
    x0 + s < |prev| && x0 + s < |next| &&
    next[x0] == Add(prev[x0], Mul(prev[x0 + s], PowRem(w, k, p), p), p) &&
    next[x0 + s] == Sub(prev[x0], Mul(prev[x0 + s], PowRem(w, k, p), p), p)
  }

  /**
   * The level of half-length `s` with root `w`: `prev` is a whole number of
   * blocks of length `2s`, and every butterfly of every block takes `prev`
   * to `next`.
   */
  ghost predicate LevelResult(prev: seq<int>, next: seq<int>, s: nat, w: int, p: int)
    requires s > 0 && p > 1
  {
    |next| == |prev| && |prev| % (2 * s) == 0 &&
    forall jj, k :: 0 <= jj < |prev| / (2 * s) && 0 <= k < s ==> ButterflyHolds(prev, next, s, w, p, jj, k)
  }

  /** The butterfly that writes entry `x`: block `x / 2s` and offset `x % 2s` or `x % 2s - s`. */
  lemma ButterflyOf(x: nat, s: nat, nb: nat) returns (jj: nat, k: nat)
    requires s > 0 && x < nb * (2 * s)
    ensures jj < nb && k < s && (x == jj * (2 * s) + k || x == jj * (2 * s) + k + s)
  {
    LevelIndex(x, s, nb);
    var o := x % (2 * s);
    jj := x / (2 * s);
    k := if o < s then o else o - s;
  }

  /** A level has one result: every entry is written by some butterfly. */
  lemma LevelResultUnique(prev: seq<int>, next: seq<int>, next': seq<int>, s: nat, w: int, p: int)
    requires s > 0 && p > 1 && LevelResult(prev, next, s, w, p) && LevelResult(prev, next', s, w, p)
    ensures next == next'
  {
    var nb := |prev| / (2 * s);
    BlockCount(|prev|, 2 * s);
    forall x | 0 <= x < |prev|
      ensures next[x] == next'[x]
    {
      var jj, k := ButterflyOf(x, s, nb);
      assert ButterflyHolds(prev, next, s, w, p, jj, k);
      assert ButterflyHolds(prev, next', s, w, p, jj, k);
    }
  }

  /** A level maps residues to residues. */
  lemma LevelResultCanonical(prev: seq<int>, next: seq<int>, s: nat, w: int, p: int)
    requires s > 0 && p > 1 && LevelResult(prev, next, s, w, p) && Canonical(prev, p) && 0 <= w < p
    ensures Canonical(next, p)
  {
    var nb := |prev| / (2 * s);
    BlockCount(|prev|, 2 * s);
    forall x | 0 <= x < |prev|
      ensures 0 <= next[x] < p
    {
      var jj, k := ButterflyOf(x, s, nb);
      assert ButterflyHolds(prev, next, s, w, p, jj, k);
      var x0 := jj * (2 * s) + k;
      PowRemReduced(w, k, p);
      ButterflyRange(prev[x0], prev[x0 + s], PowRem(w, k, p), p);
    }
  }

  /** During a level: the butterflies with offset below `k`, and those with offset `k` in blocks below `jj`, are done. */
  ghost predicate LevelDone(x: nat, s: nat, k: nat, jj: nat)
    requires s > 0
  {
    x % s < k || (x % s == k && x / (2 * s) < jj)
  }

  /** The same, for the butterfly of block `jj'` and offset `k'`. */
  ghost predicate PairDone(jj': nat, k': nat, k: nat, jj: nat)
  {
    k' < k || (k' == k && jj' < jj)
  }

  /** The state of `f` inside a level: untouched where nothing is done, and every done butterfly holds. */
  ghost predicate LevelPartial(cur: seq<int>, prev: seq<int>, s: nat, w: int, p: int, k: nat, jj: nat)
    requires s > 0 && p > 1
  {
    |cur| == |prev| && |prev| % (2 * s) == 0 &&
    (forall x :: 0 <= x < |cur| && !LevelDone(x, s, k, jj) ==> cur[x] == prev[x]) &&
    (forall jj', k' :: 0 <= jj' < |prev| / (2 * s) && 0 <= k' < s && PairDone(jj', k', k, jj) ==>
      ButterflyHolds(prev, cur, s, w, p, jj', k'))
  }

  /** The offset of `x` within its half-block, read off its block of length `2s`. */
  lemma HalfOffset(x: nat, s: nat)
    requires s > 0
    ensures var q, o := x / (2 * s), x % (2 * s);
      x == q * (2 * s) + o && 0 <= o < 2 * s &&
      x % s == (if o < s then o else o - s)
  {
    var q, o := x / (2 * s), x % (2 * s);
    DivModNat(x, 2 * s);
    DoubleIndex(q, s);
    if o < s {
      DivModUnique(x, s, 2 * q, o);
    } else {
      DivModUnique(x, s, 2 * q + 1, o - s);
    }
  }

  /** Doing the butterfly of block `jj` and offset `k` adds exactly its two positions. */
  lemma LevelDoneStep(x: nat, s: nat, k: nat, jj: nat)
    requires k < s
    ensures var x0 := jj * (2 * s) + k;
      LevelDone(x, s, k, jj + 1) <==> LevelDone(x, s, k, jj) || x == x0 || x == x0 + s
  {
    HalfOffset(x, s);
    ButterflyIndex(jj, k, s);
  }

  /** Two different butterflies of a level touch different entries. */
  lemma ButterflyDistinct(jj: nat, k: nat, jj': nat, k': nat, s: nat)
    requires k < s && k' < s && (jj != jj' || k != k')
    ensures var x0, x1 := jj * (2 * s) + k, jj' * (2 * s) + k';
      x1 != x0 && x1 != x0 + s && x1 + s != x0 && x1 + s != x0 + s
  {
    ButterflyIndex(jj, k, s);
    ButterflyIndex(jj', k', s);
  }

  /** The untouched part after the butterfly of block `jj` and offset `k`. */
  lemma LevelStepUntouched(before: seq<int>, after: seq<int>, prev: seq<int>, s: nat, w: int, p: int, k: nat, jj: nat)
    requires k < s && p > 1 && LevelPartial(before, prev, s, w, p, k, jj)
    requires var x0 := jj * (2 * s) + k;
      x0 + s < |before| && |after| == |before| &&
      forall x :: 0 <= x < |after| && x != x0 && x != x0 + s ==> after[x] == before[x]
    ensures forall x :: 0 <= x < |after| && !LevelDone(x, s, k, jj + 1) ==> after[x] == prev[x]
  {
    forall x | 0 <= x < |after| && !LevelDone(x, s, k, jj + 1)
      ensures after[x] == prev[x]
    {
      LevelDoneStep(x, s, k, jj);
    }
  }

  /** A butterfly that the step of block `jj` and offset `k` does not touch still holds. */
  lemma OtherButterfly(before: seq<int>, after: seq<int>, prev: seq<int>, s: nat, w: int, p: int,
                       k: nat, jj: nat, k': nat, jj': nat)
    requires k < s && k' < s && p > 1 && (jj != jj' || k != k') && ButterflyHolds(prev, before, s, w, p, jj', k')
    requires var x0 := jj * (2 * s) + k;
      |after| == |before| &&
      forall x :: 0 <= x < |after| && x != x0 && x != x0 + s ==> after[x] == before[x]
    ensures ButterflyHolds(prev, after, s, w, p, jj', k')
  {
    ButterflyDistinct(jj, k, jj', k', s);
  }

  /** The done butterflies after the butterfly of block `jj` and offset `k`. */
  lemma LevelStepDone(before: seq<int>, after: seq<int>, prev: seq<int>, s: nat, w: int, p: int, k: nat, jj: nat)
    requires k < s && p > 1 && LevelPartial(before, prev, s, w, p, k, jj)
    requires var x0 := jj * (2 * s) + k;
      x0 + s < |before| && |after| == |before| &&
      (forall x :: 0 <= x < |after| && x != x0 && x != x0 + s ==> after[x] == before[x]) &&
      ButterflyHolds(prev, after, s, w, p, jj, k)
    ensures forall jj', k' :: 0 <= jj' < |prev| / (2 * s) && 0 <= k' < s && PairDone(jj', k', k, jj + 1) ==>
      ButterflyHolds(prev, after, s, w, p, jj', k')
  {
    forall jj', k' | 0 <= jj' < |prev| / (2 * s) && 0 <= k' < s && PairDone(jj', k', k, jj + 1)
      ensures ButterflyHolds(prev, after, s, w, p, jj', k')
    {
      if jj' != jj || k' != k {
        assert PairDone(jj', k', k, jj);
        OtherButterfly(before, after, prev, s, w, p, k, jj, k', jj');
      }
    }
  }

  /** The butterfly of block `jj` and offset `k`, done by the code on the partial state, keeps it partial. */
  lemma LevelStep(before: seq<int>, after: seq<int>, prev: seq<int>, s: nat, w: int, wn: int, p: int, k: nat, jj: nat)
    requires k < s && p > 1 && wn == PowRem(w, k, p) && LevelPartial(before, prev, s, w, p, k, jj)
    requires jj * (2 * s) + k + s < |before|
    requires var x0 := jj * (2 * s) + k;
      after == before[x0 := Add(before[x0], Mul(before[x0 + s], wn, p), p)]
                     [x0 + s := Sub(before[x0], Mul(before[x0 + s], wn, p), p)]
    ensures LevelPartial(after, prev, s, w, p, k, jj + 1)
  {
    var x0 := jj * (2 * s) + k;
    ButterflyIndex(jj, k, s);
    assert !LevelDone(x0, s, k, jj) && !LevelDone(x0 + s, s, k, jj);
    assert ButterflyHolds(prev, after, s, w, p, jj, k);
    LevelStepUntouched(before, after, prev, s, w, p, k, jj);
    LevelStepDone(before, after, prev, s, w, p, k, jj);
  }

  /** After the last block for offset `k`, every position and every butterfly with offset `k` is done. */
  lemma LevelRowDone(cur: seq<int>, prev: seq<int>, s: nat, w: int, p: int, k: nat, jj: nat, nb: nat)
    requires s > 0 && p > 1 && |cur| == nb * (2 * s) && jj * (2 * s) == nb * (2 * s)
    requires LevelPartial(cur, prev, s, w, p, k, jj)
    ensures LevelPartial(cur, prev, s, w, p, k + 1, 0)
  {
    MulCancel(jj, nb, 2 * s);
    DivModUnique(|cur|, 2 * s, nb, 0);
    LevelRowPositions(cur, prev, s, w, p, k, nb);
    forall jj', k' | 0 <= jj' < nb && 0 <= k' < s && PairDone(jj', k', k + 1, 0)
      ensures ButterflyHolds(prev, cur, s, w, p, jj', k')
    {
      assert PairDone(jj', k', k, nb);
    }
  }

  /** The positions part of `LevelRowDone`. */
  lemma LevelRowPositions(cur: seq<int>, prev: seq<int>, s: nat, w: int, p: int, k: nat, nb: nat)
    requires s > 0 && p > 1 && |cur| == |prev| == nb * (2 * s)
    requires forall x :: 0 <= x < |cur| && !LevelDone(x, s, k, nb) ==> cur[x] == prev[x]
    ensures forall x :: 0 <= x < |cur| && !LevelDone(x, s, k + 1, 0) ==> cur[x] == prev[x]
  {
    forall x | 0 <= x < |cur| && !LevelDone(x, s, k + 1, 0)
      ensures cur[x] == prev[x]
    {
      DivBelow(x, 2 * s, nb);
    }
  }

  /** Stepping `j` by one block of length `t` while `j` is below `nb` blocks. */
  lemma BlockStep(jj: nat, nb: nat, t: nat)
    requires t > 0 && jj * t < nb * t
    ensures jj < nb && (jj + 1) * t == jj * t + t && (jj + 1) * t <= nb * t
  {
    assert nb * t - jj * t == (nb - jj) * t;
    assert (nb - jj - 1) * t == nb * t - (jj + 1) * t;
  }

  /** Before a level nothing is done. */
  lemma LevelStart(prev: seq<int>, s: nat, w: int, p: int)
    requires s > 0 && p > 1 && |prev| % (2 * s) == 0
    ensures LevelPartial(prev, prev, s, w, p, 0, 0)
  {
    forall x | 0 <= x < |prev|
      ensures !LevelDone(x, s, 0, 0)
    {
      DivModNat(x, s);
      DivModNat(x, 2 * s);
    }
  }

  /** A length that is a multiple of `t` is a whole number of blocks. */
  lemma BlockCount(n: nat, t: nat)
    requires t > 0 && n % t == 0
    ensures n == (n / t) * t
  {
  }

  /** Once every offset is done, the level is complete. */
  lemma LevelAllDone(cur: seq<int>, prev: seq<int>, s: nat, w: int, p: int)
    requires s > 0 && p > 1 && LevelPartial(cur, prev, s, w, p, s, 0)
    ensures LevelResult(prev, cur, s, w, p)
  {
  }

  /**
   * One butterfly of the code at block start `j = jj * 2s` and offset `k`:
   * `f[j + k]`, `f[j + k + s]` become `u + t`, `u - t` with
   * `t = f[j + k + s] * wn`.
   */
  method RowButterfly(f: array<int>, j: nat, k: nat, s: nat, w: int, wn: int, p: int, ghost prev: seq<int>, ghost jj: nat)
    requires s > 0 && k < s && p > 1 && 0 <= w < p && |prev| == f.Length
    requires wn == PowRem(w, k, p) && j == jj * (2 * s) && j < f.Length
    requires LevelPartial(f[..], prev, s, w, p, k, jj) && Canonical(f[..], p)
    modifies f
    ensures LevelPartial(f[..], prev, s, w, p, k, jj + 1) && Canonical(f[..], p)
  {
    ghost var nb := f.Length / (2 * s);
    BlockCount(f.Length, 2 * s);
    BlockStep(jj, nb, 2 * s);
    ButterflyInside(jj, k, s, nb);
    PowRemReduced(w, k, p);
    ghost var before := f[..];
    var u := f[j + k];
    var t := Mul(f[j + k + s], wn, p);
    ButterflyRange(u, f[j + k + s], wn, p);
    f[j + k] := Add(u, t, p);
    f[j + k + s] := Sub(u, t, p);
    LevelStep(before, f[..], prev, s, w, wn, p, k, jj);
  }

  /**
   * The inner loop of a level: the butterflies with offset `k`, one per
   * block of length `2s`, with the twiddle `wn = w^k`.
   */
  method LevelRow(f: array<int>, s: nat, k: nat, w: int, wn: int, p: int, ghost prev: seq<int>)
    requires s > 0 && k < s && p > 1 && 0 <= w < p && |prev| == f.Length
    requires wn == PowRem(w, k, p)
    requires LevelPartial(f[..], prev, s, w, p, k, 0) && Canonical(f[..], p)
    modifies f
    ensures LevelPartial(f[..], prev, s, w, p, k + 1, 0) && Canonical(f[..], p)
  {
    var n := f.Length;
    ghost var nb := n / (2 * s);
    BlockCount(n, 2 * s);
    var j := 0;
    ghost var jj := 0;
    while j < n
      invariant j == jj * (2 * s) && j <= n
      invariant LevelPartial(f[..], prev, s, w, p, k, jj) && Canonical(f[..], p)
    {
      BlockStep(jj, nb, 2 * s);
      RowButterfly(f, j, k, s, w, wn, p, prev, jj);
      j := j + 2 * s;
      jj := jj + 1;
    }
    LevelRowDone(f[..], prev, s, w, p, k, jj, nb);
  }

  /**
   * The butterfly loops of `dft` for one level of half-length `s` (the
   * code's `i`): for each offset `k < s` the twiddle `wn = w^k`, then the
   * row of butterflies for that offset.
   */
  method Level(f: array<int>, s: nat, w: int, p: int)
    requires s > 0 && p > 1 && f.Length % (2 * s) == 0 && 0 <= w < p && Canonical(f[..], p)
    modifies f
    ensures LevelResult(old(f[..]), f[..], s, w, p)
    ensures Canonical(f[..], p)
  {
    ghost var prev := f[..];
    LevelStart(prev, s, w, p);
    var k := 0;
    while k < s
      invariant k <= s && LevelPartial(f[..], prev, s, w, p, k, 0) && Canonical(f[..], p)
    {
      var wn := Power(w, k, p);
      LevelRow(f, s, k, w, wn, p, prev);
      k := k + 1;
    }
    LevelAllDone(f[..], prev, s, w, p);
  }

  // ---------------------------------------------------------------------
  // Roots of unity.

  /**
   * What the transform of length `2^L` needs of the modulus `p` and the
   * primitive root `g`: `p` is prime, `2^L` divides `p - 1`, and `g` is a
   * quadratic non-residue, `g^((p-1)/2) == -1`, as a primitive root is.
   */
  ghost predicate NttPrime(p: int, g: int, L: nat)
  {
    IsPrime(p) && 0 < g < p && (p - 1) % Pow2(L) == 0 && Pow(g, (p - 1) / 2) % p == p - 1
  }

  /**
   * The root the code uses for the level of half-length `2^(m-1)`:
   * `pr.pow((p - 1) / 2^m)`, or its inverse `1 / w` for the inverse
   * transform.
   */
  function StageRoot(p: int, g: int, m: nat, inv: bool): (r: int)
    requires p > 1 && 0 < g < p
    ensures 0 <= r < p
  {
    var w := PowRem(g, (p - 1) / Pow2(m), p);
    PowRemReduced(g, if (p - 1) / Pow2(m) > 0 then (p - 1) / Pow2(m) else 0, p);
    if inv then DivFromInt(1, w, p) else w
  }

  /** An exact quotient: `((A * B) * t) / A == B * t`. */
  lemma ExactQuotient(n: int, A: int, B: int, t: int)
    requires A > 0 && n == (A * B) * t
    ensures n / A == B * t
  {
    assert n == A * (B * t);
    DivModUnique(n, A, B * t, 0);
  }

  /** The forward root of level `m` is `g^((p-1)/2^m) mod p`. */
  lemma ForwardRoot(p: int, g: int, m: nat)
    requires p > 1 && 0 < g < p
    ensures (p - 1) / Pow2(m) >= 0
    ensures StageRoot(p, g, m, false) == Pow(g, (p - 1) / Pow2(m)) % p
  {
    DivModNat(p - 1, Pow2(m));
    PowRemReduced(g, (p - 1) / Pow2(m), p);
  }

  /** The exponents of two neighbouring levels and of `-1`. */
  lemma FamilyExponents(p: int, L: nat, m: nat) returns (q: nat)
    requires p > 1 && (p - 1) % Pow2(L) == 0 && m < L
    ensures (p - 1) / Pow2(m + 1) == q && (p - 1) / Pow2(m) == 2 * q && (p - 1) / 2 == Pow2(m) * q
  {
    var B := Pow2(L);
    var t := (p - 1) / B;
    DivModNat(p - 1, B);
    BlockCount(p - 1, B);
    var A, P := Pow2(m), Pow2(L - m - 1);
    Pow2Add(m + 1, L - m - 1);
    assert Pow2(m + 1) == 2 * A;
    FamilyQuotients(p - 1, B, A, P, t);
    q := P * t;
  }

  lemma FamilyQuotients(n: int, B: int, A: int, P: int, t: int)
    requires A > 0 && P >= 0 && t >= 0 && n == t * B && B == (2 * A) * P
    ensures n / (2 * A) == P * t && n / A == 2 * (P * t) && n / 2 == A * (P * t)
  {
    assert n == ((2 * A) * P) * t;
    ExactQuotient(n, 2 * A, P, t);
    assert n == (A * (2 * P)) * t;
    ExactQuotient(n, A, 2 * P, t);
    assert n == (2 * (A * P)) * t;
    ExactQuotient(n, 2, A * P, t);
  }

  /** `g^q` squared is `g^(2q)`, and its `s`-th power is `g^(sq)`. */
  lemma FamilyPowers(g: int, q: nat, s: nat, p: int)
    requires p > 1
    ensures ((Pow(g, q) % p) * (Pow(g, q) % p)) % p == Pow(g, 2 * q) % p
    ensures Pow(Pow(g, q) % p, s) % p == Pow(g, s * q) % p
  {
    var r1 := Pow(g, q) % p;
    ModOfMod(Pow(g, q), p);
    CongruentProduct(r1, Pow(g, q), r1, Pow(g, q), p);
    PowAdd(g, q, q);
    PowCongruent(r1, Pow(g, q), s, p);
    PowMul(g, q, s);
  }

  /** The forward roots: the square of the root of level `m + 1` is the root of level `m`, and its `2^m`-th power is `-1`. */
  lemma ForwardFamily(p: int, g: int, L: nat, m: nat)
    requires NttPrime(p, g, L) && m < L
    ensures var r0, r1 := StageRoot(p, g, m, false), StageRoot(p, g, m + 1, false);
      (r1 * r1) % p == r0 && Pow(r1, Pow2(m)) % p == p - 1
  {
    var q := FamilyExponents(p, L, m);
    ForwardRoot(p, g, m);
    ForwardRoot(p, g, m + 1);
    FamilyPowers(g, q, Pow2(m), p);
  }

  /** A residue whose positive power is `-1` is a unit. */
  lemma NonZeroRoot(r: int, e: nat, p: int)
    requires p > 1 && 0 <= r < p && e > 0 && Pow(r, e) % p == p - 1
    ensures r != 0
  {
    if r == 0 {
      PowOfZero(e);
    }
  }

  /** The square of a unit modulo a prime is a unit. */
  lemma SquareUnit(r1: int, r0: int, p: int)
    requires IsPrime(p) && 0 < r1 < p && 0 <= r0 < p && (r1 * r1) % p == r0
    ensures r0 != 0
  {
    if r0 == 0 {
      DividesIffModZero(p, r1 * r1);
      EuclidLemma(p, r1, r1);
      DividesIffModZero(p, r1);
      ModSmall(r1, p);
    }
  }

  /** Multiplying by something congruent to one changes nothing modulo `p`. */
  lemma MulByOne(a: int, u: int, p: int)
    requires p > 0 && u % p == 1 % p
    ensures (a * u) % p == a % p
  {
    CongruentProduct(a, a, u, 1, p);
  }

  lemma SquareRearrange(i0: int, i1: int, r1: int)
    ensures (i1 * i1) * (i0 * (r1 * r1)) == i0 * ((i1 * r1) * (i1 * r1))
  {
  }

  /** Inverses of a family of roots form a family. */
  lemma InverseSquare(r0: int, r1: int, i0: int, i1: int, p: int)
    requires p > 1 && 0 <= i0 < p
    requires (r1 * r1) % p == r0 % p && (i1 * r1) % p == 1 && (i0 * r0) % p == 1
    ensures (i1 * i1) % p == i0
  {
    ModSmall(1, p);
    CongruentProduct(i0, i0, r1 * r1, r0, p);
    MulByOne(i1 * i1, i0 * (r1 * r1), p);
    SquareRearrange(i0, i1, r1);
    CongruentProduct(i1 * r1, 1, i1 * r1, 1, p);
    MulByOne(i0, (i1 * r1) * (i1 * r1), p);
    ModSmall(i0, p);
  }

  /** The inverse of a root whose `s`-th power is `-1` has `s`-th power `-1`. */
  lemma InverseHalfTurn(r1: int, i1: int, s: nat, p: int)
    requires p > 1 && (i1 * r1) % p == 1 && Pow(r1, s) % p == p - 1
    ensures Pow(i1, s) % p == p - 1
  {
    PowProduct(i1, r1, s);
    PowCongruent(i1 * r1, 1, s, p);
    PowOfOne(s);
    ModSmall(1, p);
    MinusOneInverse(Pow(i1, s), Pow(r1, s), p);
  }

  /** The inverse of `-1` is `-1`. */
  lemma MinusOneInverse(X: int, Y: int, p: int)
    requires p > 1 && (X * Y) % p == 1 && Y % p == p - 1
    ensures X % p == p - 1
  {
    ModSmall(p - 1, p);
    CongruentProduct(X, X, Y, p - 1, p);
    assert X * (p - 1) == -X + p * X;
    ModAddMultiple(-X, p, X);
    var q := (-X) / p;
    assert -X == p * q + 1;
    DivModUnique(X, p, -q - 1, p - 1);
  }

  /** The inverse root of level `m` is `1 / w` for the forward root `w`, a unit when `p` is prime. */
  lemma InverseRoot(p: int, w: int, i: int)
    requires IsPrime(p) && 0 < w < p && i == DivFromInt(1, w, p)
    ensures 0 <= i < p && (i * w) % p == 1
  {
    ModSmall(1, p);
  }

  /** The inverse roots form the same kind of family as the forward roots. */
  lemma InverseFamily(p: int, g: int, L: nat, m: nat)
    requires NttPrime(p, g, L) && m < L
    ensures var r0, r1 := StageRoot(p, g, m, true), StageRoot(p, g, m + 1, true);
      (r1 * r1) % p == r0 && Pow(r1, Pow2(m)) % p == p - 1
  {
    ForwardFamily(p, g, L, m);
    var w0, w1 := StageRoot(p, g, m, false), StageRoot(p, g, m + 1, false);
    NonZeroRoot(w1, Pow2(m), p);
    SquareUnit(w1, w0, p);
    var i0, i1 := StageRoot(p, g, m, true), StageRoot(p, g, m + 1, true);
    InverseRoot(p, w0, i0);
    InverseRoot(p, w1, i1);
    ModSmall(w0, p);
    InverseSquare(w0, w1, i0, i1, p);
    InverseHalfTurn(w1, i1, Pow2(m), p);
  }

  /** Both families, as the levels of `dft` use them. */
  lemma RootFamily(p: int, g: int, L: nat, m: nat, inv: bool)
    requires NttPrime(p, g, L) && m < L
    ensures var r0, r1 := StageRoot(p, g, m, inv), StageRoot(p, g, m + 1, inv);
      (r1 * r1) % p == r0 % p && Pow(r1, Pow2(m)) % p == p - 1
  {
    if inv {
      InverseFamily(p, g, L, m);
    } else {
      ForwardFamily(p, g, L, m);
    }
    ModSmall(StageRoot(p, g, m, inv), p);
  }

  // ---------------------------------------------------------------------
  // The transform.

  /** A shorter power of two divides a longer one, and is smaller. */
  lemma Pow2Divides(L: nat, k: nat)
    requires k <= L
    ensures Pow2(L) == Pow2(k) * Pow2(L - k) && Pow2(L) % Pow2(k) == 0
    ensures k < L ==> Pow2(k) < Pow2(L)
  {
    Pow2Add(k, L - k);
    DivModUnique(Pow2(L), Pow2(k), Pow2(L - k), 0);
    if k < L {
      assert Pow2(L - k) >= 2;
    }
  }

  /** One entry after a level applied to a stage, for `nb` blocks of length `2s`, `s == 2^m`. */
  lemma LevelStageAt(a: seq<int>, L: nat, m: nat, r0: int, r1: int, p: int, next: seq<int>, s: nat, nb: nat, x: nat)
    requires |a| == Pow2(L) && m < L && p > 1 && x < |a|
    requires 0 <= r1 < p && (r1 * r1) % p == r0 % p && Pow(r1, Pow2(m)) % p == p - 1
    requires s == Pow2(m) && nb == Pow2(L - m - 1) && |a| == nb * (2 * s) && |a| / (2 * s) == nb
    requires LevelResult(Stage(a, L, m, r0, p), next, s, r1, p)
    ensures next[x] == Stage(a, L, m + 1, r1, p)[x]
  {
    var jj, k := ButterflyOf(x, s, nb);
    ButterflyAtStage(a, L, m, r0, r1, p, jj, k);
    SameButterfly(Stage(a, L, m, r0, p), next, Stage(a, L, m + 1, r1, p), s, r1, p, jj, k, x);
  }

  /** `Butterfly`, stated as the relation `Level` establishes. */
  lemma ButterflyAtStage(a: seq<int>, L: nat, m: nat, r0: int, r1: int, p: int, jj: nat, k: nat)
    requires |a| == Pow2(L) && m < L && p > 1
    requires jj < Pow2(L - m - 1) && k < Pow2(m)
    requires 0 <= r1 < p && (r1 * r1) % p == r0 % p && Pow(r1, Pow2(m)) % p == p - 1
    ensures ButterflyHolds(Stage(a, L, m, r0, p), Stage(a, L, m + 1, r1, p), Pow2(m), r1, p, jj, k)
  {
    Butterfly(a, L, m, r0, r1, p, jj, k);
  }

  /** Two results of the same butterfly on the same input agree on the two entries it writes. */
  lemma SameButterfly(prev: seq<int>, next: seq<int>, next': seq<int>, s: nat, w: int, p: int, jj: nat, k: nat, x: nat)
    requires s > 0 && p > 1 && jj < |prev| / (2 * s) && k < s
    requires LevelResult(prev, next, s, w, p) && ButterflyHolds(prev, next', s, w, p, jj, k)
    requires x == jj * (2 * s) + k || x == jj * (2 * s) + k + s
    ensures x < |next| && x < |next'| && next[x] == next'[x]
  {
    assert ButterflyHolds(prev, next, s, w, p, jj, k);
  }

  /** A buffer of length `2^L` is `2^(L-m-1)` blocks of length `2 * 2^m`. */
  lemma StageBlocks(L: nat, m: nat)
    requires m < L
    ensures Pow2(L) == Pow2(L - m - 1) * (2 * Pow2(m))
    ensures Pow2(L) / (2 * Pow2(m)) == Pow2(L - m - 1) && Pow2(L) % (2 * Pow2(m)) == 0
  {
    Pow2Divides(L, m + 1);
    assert Pow2(m + 1) == 2 * Pow2(m);
    DivModUnique(Pow2(L), 2 * Pow2(m), Pow2(L - m - 1), 0);
  }

  /** A level of `dft` steps from one stage to the next. */
  lemma LevelStages(a: seq<int>, L: nat, m: nat, r0: int, r1: int, p: int, next: seq<int>)
    requires |a| == Pow2(L) && m < L && p > 1
    requires 0 <= r1 < p && (r1 * r1) % p == r0 % p && Pow(r1, Pow2(m)) % p == p - 1
    requires LevelResult(Stage(a, L, m, r0, p), next, Pow2(m), r1, p)
    ensures next == Stage(a, L, m + 1, r1, p)
  {
    StageBlocks(L, m);
    var s, nb := Pow2(m), Pow2(L - m - 1);
    forall x | 0 <= x < |a|
      ensures next[x] == Stage(a, L, m + 1, r1, p)[x]
    {
      LevelStageAt(a, L, m, r0, r1, p, next, s, nb, x);
    }
  }

  /** Each entry divided by `n`, as `*v /= n as i64` does. */
  function Scaled(b: seq<int>, n: int, p: int): (r: seq<int>)
    requires p > 1
    ensures |r| == |b|
  {
    seq(|b|, x requires 0 <= x < |b| => Div(b[x], n, p))
  }

  /** Dividing residues by a non-negative integer gives residues. */
  lemma ScaledCanonical(b: seq<int>, n: int, p: int)
    requires p > 1 && n >= 0 && Canonical(b, p)
    ensures Canonical(Scaled(b, n, p), p)
  {
  }

  /** Bit reversal permutes residues. */
  lemma BitReversedCanonical(a: seq<int>, L: nat, p: int)
    requires |a| == Pow2(L) && Canonical(a, p)
    ensures Canonical(BitReversed(a, L), p)
  {
  }

  /** `f.iter_mut().for_each(|v| *v /= n)`. */
  method DivideAll(f: array<int>, n: int, p: int)
    requires p > 1 && n >= 0 && Canonical(f[..], p)
    modifies f
    ensures f[..] == Scaled(old(f[..]), n, p) && Canonical(f[..], p)
  {
    ghost var t := f[..];
    var x := 0;
    while x < f.Length
      invariant x <= f.Length && |t| == f.Length
      invariant forall y :: 0 <= y < f.Length ==> f[y] == if y < x then Div(t[y], n, p) else t[y]
    {
      f[x] := Div(f[x], n, p);
      x := x + 1;
    }
    assert f[..] == Scaled(t, n, p);
    ScaledCanonical(t, n, p);
  }

  /**
   * `dft(f, inv)`: bit reversal, then for each half-length `i = 1, 2, 4,
   * ...` below `n` the level with root `w = g^((p-1)/2i)` (inverted when
   * `inv`), then for the inverse transform a division of every entry by
   * `n`.  Under `NttPrime` the result is the transform at the powers of
   * `w = g^((p-1)/n)`, respectively at the powers of `1/w` divided by `n`.
   */
  method Dft(f: array<int>, inv: bool, p: int, g: int, ghost L: nat)
    requires f.Length == Pow2(L) && p > 1 && 0 < g < p && Canonical(f[..], p)
    modifies f
    ensures Canonical(f[..], p)
    ensures NttPrime(p, g, L) && !inv ==> f[..] == Transform(old(f[..]), StageRoot(p, g, L, false), p)
    ensures NttPrime(p, g, L) && inv ==>
      f[..] == Scaled(Transform(old(f[..]), StageRoot(p, g, L, true), p), Pow2(L), p)
  {
    ghost var a := f[..];
    ghost var ok := NttPrime(p, g, L);
    var n := f.Length;
    BitReverse(f, L);
    StageZero(a, L, StageRoot(p, g, 0, inv), p);
    BitReversedCanonical(a, L, p);
    var i := 1;
    ghost var m: nat := 0;
    while i < n
      invariant i == Pow2(m) && m <= L
      invariant Canonical(f[..], p)
      invariant ok ==> f[..] == Stage(a, L, m, StageRoot(p, g, m, inv), p)
      decreases L - m
    {
      Pow2Divides(L, m);
      assert m < L;
      Pow2Divides(L, m + 1);
      var w := Power(g, (p - 1) / (2 * i), p);
      if inv {
        w := DivFromInt(1, w, p);
      }
      assert w == StageRoot(p, g, m + 1, inv);
      Level(f, i, w, p);
      if ok {
        RootFamily(p, g, L, m, inv);
        LevelStages(a, L, m, StageRoot(p, g, m, inv), w, p, f[..]);
      }
      i := 2 * i;
      m := m + 1;
    }
    if m < L {
      Pow2Divides(L, m);
    }
    StageLast(a, L, StageRoot(p, g, L, inv), p);
    if inv {
      DivideAll(f, n, p);
    }
  }
}
