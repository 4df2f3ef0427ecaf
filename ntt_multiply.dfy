/**
 * `multiply` and the `Mul` operator of `procon_ntt`: the product of two
 * polynomials with coefficients modulo `p`, computed by padding both to a
 * power of two, transforming, multiplying pointwise and transforming back.
 * The reference it is proved against is the schoolbook convolution `Conv`.
 */
module NttMultiply {
  import opened NumberTheory
  import opened Math
  import opened ModInt
  import opened Ntt
  import opened NttInverse

  // ---------------------------------------------------------------------
  // The schoolbook product.

  /** Coefficient `k` of `s`, zero beyond its end. */
  function Coef(s: seq<int>, k: nat): int
  {
    if k < |s| then s[k] else 0
  }

  /** Coefficient `k` of the product of `f` and `g`: the sum of `f[i] * g[k-i]`. */
  function Conv(f: seq<int>, g: seq<int>, k: nat): int
    decreases |f|
  {
    if f == [] then 0 else f[0] * Coef(g, k) + (if k == 0 then 0 else Conv(f[1..], g, k - 1))
  }

  /** The first `n` coefficients of the product. */
  function ConvSeq(f: seq<int>, g: seq<int>, n: nat): (c: seq<int>)
    ensures |c| == n
  {
    seq(n, k requires 0 <= k < n => Conv(f, g, k))
  }

  /** The first `n` coefficients of the product, reduced modulo `p`: what `multiply` returns. */
  function Product(f: seq<int>, g: seq<int>, n: nat, p: int): (c: seq<int>)
    requires p > 0
    ensures |c| == n
  {
    seq(n, k requires 0 <= k < n => Conv(f, g, k) % p)
  }

  /** `s` followed by zeros up to length `n`. */
  function Pad(s: seq<int>, n: nat): (c: seq<int>)
    ensures |c| == n
  {
    seq(n, k requires 0 <= k < n => Coef(s, k))
  }

  /** The product has degree below `|f| + |g| - 1`. */
  lemma {:induction false} ConvBeyondDegree(f: seq<int>, g: seq<int>, k: nat)
    requires k + 1 >= |f| + |g|
    ensures Conv(f, g, k) == 0
    decreases |f|
  {
    if f != [] && k > 0 {
      ConvBeyondDegree(f[1..], g, k - 1);
    }
  }

  /** Coefficient-wise congruent factors have congruent products. */
  lemma {:induction false} ConvCongruent(f: seq<int>, f': seq<int>, g: seq<int>, g': seq<int>, k: nat, p: int)
    requires p > 0 && |f| == |f'| && |g| == |g'|
    requires forall i :: 0 <= i < |f| ==> f[i] % p == f'[i] % p
    requires forall i :: 0 <= i < |g| ==> g[i] % p == g'[i] % p
    ensures Conv(f, g, k) % p == Conv(f', g', k) % p
    decreases |f|
  {
    if f != [] {
      assert Coef(g, k) % p == Coef(g', k) % p;
      CongruentProduct(f[0], f'[0], Coef(g, k), Coef(g', k), p);
      if k == 0 {
        SumCongruent2(f[0] * Coef(g, k), 0, f'[0] * Coef(g', k), 0, p);
      } else {
        ConvCongruent(f[1..], f'[1..], g, g', k - 1, p);
        SumCongruent2(f[0] * Coef(g, k), Conv(f[1..], g, k - 1), f'[0] * Coef(g', k), Conv(f'[1..], g', k - 1), p);
      }
    }
  }

  // ---------------------------------------------------------------------
  // Evaluating the product.

  lemma {:induction false} PolyZeros(c: seq<int>, z: int)
    requires forall k :: 0 <= k < |c| ==> c[k] == 0
    ensures Poly(c, z) == 0
    decreases |c|
  {
    if c != [] {
      PolyZeros(c[1..], z);
    }
  }

  /** Trailing zeros do not change a polynomial. */
  lemma {:induction false} PolyPad(s: seq<int>, n: nat, z: int)
    requires n >= |s|
    ensures Poly(Pad(s, n), z) == Poly(s, z)
    decreases |s|
  {
    if s == [] {
      PolyZeros(Pad(s, n), z);
    } else {
      assert Pad(s, n)[1..] == Pad(s[1..], n - 1);
      PolyPad(s[1..], n - 1, z);
    }
  }

  lemma {:induction false} PolyAdd(X: seq<int>, Y: seq<int>, S: seq<int>, z: int)
    requires |X| == |Y| == |S| && forall k :: 0 <= k < |S| ==> S[k] == X[k] + Y[k]
    ensures Poly(S, z) == Poly(X, z) + Poly(Y, z)
    decreases |S|
  {
    if S != [] {
      PolyAdd(X[1..], Y[1..], S[1..], z);
      assert z * Poly(S[1..], z) == z * Poly(X[1..], z) + z * Poly(Y[1..], z);
    }
  }

  lemma {:induction false} PolyScale(X: seq<int>, G: seq<int>, c: int, z: int)
    requires |X| == |G| && forall k :: 0 <= k < |X| ==> X[k] == c * G[k]
    ensures Poly(X, z) == c * Poly(G, z)
    decreases |X|
  {
    if X != [] {
      PolyScale(X[1..], G[1..], c, z);
      assert z * (c * Poly(G[1..], z)) == c * (z * Poly(G[1..], z));
    }
  }

  lemma FactorStep(f0: int, pf: int, pg: int, z: int)
    ensures f0 * pg + z * (pf * pg) == (f0 + z * pf) * pg
  {
  }

  /** The convolution is the product of polynomials: `Poly(f * g) == Poly(f) * Poly(g)`. */
  lemma {:induction false} PolyConv(f: seq<int>, g: seq<int>, n: nat, z: int)
    requires n >= |f| + |g|
    ensures Poly(ConvSeq(f, g, n), z) == Poly(f, z) * Poly(g, z)
    decreases |f|
  {
    var S := ConvSeq(f, g, n);
    if f == [] {
      PolyZeros(S, z);
    } else {
      var X := seq(n, k requires 0 <= k < n => f[0] * Coef(g, k));
      var B := ConvSeq(f[1..], g, n - 1);
      var Y := [0] + B;
      forall k | 0 <= k < n
        ensures S[k] == X[k] + Y[k]
      {
        if k > 0 {
          assert Y[k] == B[k - 1];
        }
      }
      PolyAdd(X, Y, S, z);
      PolyScale(X, Pad(g, n), f[0], z);
      PolyPad(g, n, z);
      assert Y[1..] == B;
      PolyConv(f[1..], g, n - 1, z);
      FactorStep(f[0], Poly(f[1..], z), Poly(g, z), z);
    }
  }

  /** The test of `procon_ntt`: `(x + 2x^2 + 3x^3 + 4x^4)(x + 2x^2 + 4x^3 + 8x^4)`. */
  lemma ProductExample()
    ensures Product([0, 1, 2, 3, 4], [0, 1, 2, 4, 8], 11, 998244353) == [0, 0, 1, 4, 11, 26, 36, 40, 32, 0, 0]
  {
    var f, g := [0, 1, 2, 3, 4], [0, 1, 2, 4, 8];
    assert f[1..] == [1, 2, 3, 4] && f[1..][1..] == [2, 3, 4] && f[1..][1..][1..] == [3, 4] && f[1..][1..][1..][1..] == [4];
    ConvBeyondDegree(f, g, 9);
    ConvBeyondDegree(f, g, 10);
  }

  // ---------------------------------------------------------------------
  // `next_power_of_two`.

  /** The exponent of `m.next_power_of_two()`: the least `k` with `m <= 2^k`. */
  function NextPowerOfTwoExponent(m: nat): (k: nat)
    ensures m <= Pow2(k) && (k > 0 ==> Pow2(k - 1) < m)
  {
    if m <= 1 then 0 else 1 + NextPowerOfTwoExponent((m + 1) / 2)
  }

  /** `m.next_power_of_two()`. */
  function NextPowerOfTwo(m: nat): (n: nat)
    ensures n == Pow2(NextPowerOfTwoExponent(m))
  {
    Pow2(NextPowerOfTwoExponent(m))
  }

  // ---------------------------------------------------------------------
  // The transform of the product.

  /** The pointwise product `ff[i] *= gg[i]`. */
  function Pointwise(u: seq<int>, v: seq<int>, p: int): (h: seq<int>)
    requires |u| == |v| && p > 1
    ensures |h| == |u|
  {
    seq(|u|, i requires 0 <= i < |u| => Mul(u[i], v[i], p))
  }

  /** At one point: the product of the transforms of the padded factors is the transform of the product. */
  lemma PointwiseAt(f: seq<int>, g: seq<int>, n: nat, w: int, p: int, i: nat)
    requires p > 1 && n >= |f| + |g| && i < n
    ensures var TF, TG := Transform(Pad(f, n), w, p), Transform(Pad(g, n), w, p);
      Mul(TF[i], TG[i], p) == Transform(Product(f, g, n, p), w, p)[i]
  {
    var x := Pow(w, i);
    var pf, pg := Poly(Pad(f, n), x), Poly(Pad(g, n), x);
    var C := ConvSeq(f, g, n);
    var C' := Product(f, g, n, p);
    ModMul(pf, pg, p);
    PolyPad(f, n, x);
    PolyPad(g, n, x);
    PolyConv(f, g, n, x);
    forall k | 0 <= k < n
      ensures C'[k] % p == C[k] % p
    {
      ModOfMod(C[k], p);
    }
    PolyCongruentCoefficients(C', C, x, p);
  }

  /** The transform of the product of the padded factors is the pointwise product of their transforms. */
  lemma PointwiseTransform(f: seq<int>, g: seq<int>, n: nat, w: int, p: int)
    requires p > 1 && n >= |f| + |g|
    ensures Pointwise(Transform(Pad(f, n), w, p), Transform(Pad(g, n), w, p), p) == Transform(Product(f, g, n, p), w, p)
  {
    forall i | 0 <= i < n
      ensures Pointwise(Transform(Pad(f, n), w, p), Transform(Pad(g, n), w, p), p)[i] == Transform(Product(f, g, n, p), w, p)[i]
    {
      PointwiseAt(f, g, n, w, p, i);
    }
  }

  lemma ProductCanonical(f: seq<int>, g: seq<int>, n: nat, p: int)
    requires p > 1
    ensures Canonical(Product(f, g, n, p), p)
  {
  }

  /**
   * The convolution theorem behind `multiply`: transforming back the
   * pointwise product of the transforms gives the product modulo `p`.
   */
  lemma ConvolutionTheorem(f: seq<int>, g: seq<int>, p: int, g0: int, L: nat)
    requires NttPrime(p, g0, L) && Pow2(L) >= |f| + |g|
    ensures var n, w, w' := Pow2(L), StageRoot(p, g0, L, false), StageRoot(p, g0, L, true);
      Scaled(Transform(Pointwise(Transform(Pad(f, n), w, p), Transform(Pad(g, n), w, p), p), w', p), n, p)
        == Product(f, g, n, p)
  {
    var n, w := Pow2(L), StageRoot(p, g0, L, false);
    PointwiseTransform(f, g, n, w, p);
    ProductCanonical(f, g, n, p);
    InverseTransformRoundTrip(Product(f, g, n, p), p, g0, L);
  }

  // ---------------------------------------------------------------------
  // `multiply`.

  /** `ff[i] += f[i]` for `i < |f|` on a zeroed buffer of length `n`. */
  method LoadPadded(ff: array<int>, f: seq<int>, p: int)
    requires p > 1 && Canonical(f, p) && |f| <= ff.Length
    requires forall k :: 0 <= k < ff.Length ==> ff[k] == 0
    modifies ff
    ensures ff[..] == Pad(f, ff.Length)
  {
    var i := 0;
    while i < |f|
      invariant 0 <= i <= |f|
      invariant forall k :: 0 <= k < ff.Length ==> ff[k] == (if k < i then f[k] else 0)
    {
      ModSmall(f[i], p);
      ff[i] := Add(ff[i], f[i], p);
      i := i + 1;
    }
  }

  /** `ff[i] *= gg[i]` for every `i`. */
  method MultiplyPointwise(ff: array<int>, gg: array<int>, p: int)
    requires p > 1 && ff.Length == gg.Length && ff != gg
    modifies ff
    ensures ff[..] == Pointwise(old(ff[..]), gg[..], p)
  {
    var i := 0;
    while i < ff.Length
      invariant 0 <= i <= ff.Length
      invariant forall k :: 0 <= k < ff.Length ==> ff[k] == (if k < i then Mul(old(ff[k]), gg[k], p) else old(ff[k]))
    {
      ff[i] := Mul(ff[i], gg[i], p);
      i := i + 1;
    }
  }

  /**
   * The transforms of `multiply` on the padded buffers: `dft` of both,
   * the pointwise product into `ff`, and the inverse `dft` of `ff`.
   */
  method TransformProduct(ff: array<int>, gg: array<int>, p: int, g0: int, ghost L: nat)
    requires ff.Length == gg.Length == Pow2(L) && ff != gg
    requires p > 1 && 0 < g0 < p && Canonical(ff[..], p) && Canonical(gg[..], p)
    modifies ff, gg
    ensures Canonical(ff[..], p)
    ensures NttPrime(p, g0, L) ==>
      var w, w' := StageRoot(p, g0, L, false), StageRoot(p, g0, L, true);
      ff[..] == Scaled(Transform(Pointwise(Transform(old(ff[..]), w, p), Transform(old(gg[..]), w, p), p), w', p), Pow2(L), p)
  {
    Dft(ff, false, p, g0, L);
    Dft(gg, false, p, g0, L);
    MultiplyPointwise(ff, gg, p);
    assert forall k :: 0 <= k < ff.Length ==> 0 <= ff[k] < p;
    Dft(ff, true, p, g0, L);
  }

  /**
   * `multiply(f, g)`: the `|f| + |g| + 1` lowest coefficients of the
   * product, computed with transforms of length `n = 2^L`, the power of
   * two at or above `|f| + |g| + 1`.  Under the hypotheses on the modulus
   * for that length they are the schoolbook coefficients modulo `p`.
   */
  method Multiply(f: seq<int>, g: seq<int>, p: int, g0: int) returns (r: seq<int>)
    requires p > 1 && 0 < g0 < p && Canonical(f, p) && Canonical(g, p)
    ensures |r| == |f| + |g| + 1 && Canonical(r, p)
    ensures NttPrime(p, g0, NextPowerOfTwoExponent(|f| + |g| + 1)) ==> r == Product(f, g, |f| + |g| + 1, p)
  {
    var m := |f| + |g| + 1;
    ghost var L := NextPowerOfTwoExponent(m);
    var n := NextPowerOfTwo(m);
    var ff := new int[n](_ => 0);
    var gg := new int[n](_ => 0);
    LoadPadded(ff, f, p);
    LoadPadded(gg, g, p);
    TransformProduct(ff, gg, p, g0, L);
    r := ff[..m];
    if NttPrime(p, g0, L) {
      ConvolutionTheorem(f, g, p, g0, L);
    }
  }

  // ---------------------------------------------------------------------
  // The `Mul` operator.

  /** `StaticModInt::new(v)` applied to every entry. */
  function Reduced(s: seq<int>, p: int): (r: seq<int>)
    requires p > 1
    ensures |r| == |s| && Canonical(r, p)
    ensures forall i :: 0 <= i < |s| ==> r[i] % p == s[i] % p
  {
    ReducedFacts(s, p);
    seq(|s|, i requires 0 <= i < |s| => New(s[i], p).value)
  }

  lemma ReducedFacts(s: seq<int>, p: int)
    requires p > 1
    ensures forall i :: 0 <= i < |s| ==> 0 <= s[i] % p < p && (s[i] % p) % p == s[i] % p
  {
    forall i | 0 <= i < |s|
      ensures (s[i] % p) % p == s[i] % p
    {
      ModOfMod(s[i], p);
    }
  }

  /**
   * `f * g` on arbitrary integers: each entry is reduced with `new`, the
   * product is computed by `multiply`, and the values are read back.
   */
  method MulValues(f: seq<int>, g: seq<int>, p: int, g0: int) returns (r: seq<int>)
    requires p > 1 && 0 < g0 < p
    ensures |r| == |f| + |g| + 1 && Canonical(r, p)
    ensures NttPrime(p, g0, NextPowerOfTwoExponent(|f| + |g| + 1)) ==>
      forall k :: 0 <= k < |r| ==> r[k] == Conv(f, g, k) % p
  {
    var f', g' := Reduced(f, p), Reduced(g, p);
    r := Multiply(f', g', p, g0);
    forall k | 0 <= k < |r|
      ensures Conv(f', g', k) % p == Conv(f, g, k) % p
    {
      ConvCongruent(f', f, g', g, k, p);
    }
  }
}
