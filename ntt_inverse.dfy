/**
 * Why `dft(f, true)` undoes `dft(f, false)` in `procon_ntt`: evaluating at
 * the powers of `w` and then at the powers of `1/w`, and dividing by `n`,
 * gives back the coefficients.  The argument is the orthogonality of the
 * powers of a primitive `n`-th root of unity: `1 + z + ... + z^(n-1)` is
 * `n` when `z == 1` and `0` when `z` is any other power of the root.
 */
module NttInverse {
  import opened NumberTheory
  import opened RustArith
  import opened Math
  import opened ModInt
  import opened Ntt

  // ---------------------------------------------------------------------
  // Geometric sums.

  /** `1 + z + ... + z^(n-1)`. */
  function Geo(n: nat, z: int): int
  {
    if n == 0 then 0 else Geo(n - 1, z) + Pow(z, n - 1)
  }

  /** The sum peeled from the front: `1 + z * (1 + ... + z^(n-1))`. */
  lemma {:induction false} GeoFront(n: nat, z: int)
    ensures Geo(n + 1, z) == 1 + z * Geo(n, z)
  {
    if n > 0 {
      GeoFront(n - 1, z);
      assert Pow(z, n) == z * Pow(z, n - 1);
    }
  }

  /** Splitting the sum at `a`. */
  lemma {:induction false} GeoAdd(a: nat, b: nat, z: int)
    ensures Geo(a + b, z) == Geo(a, z) + Pow(z, a) * Geo(b, z)
  {
    if b > 0 {
      GeoAdd(a, b - 1, z);
      PowAdd(z, a, b - 1);
      assert Geo(a + b, z) == Geo(a + b - 1, z) + Pow(z, a + b - 1);
    }
  }

  lemma {:induction false} GeoOne(n: nat)
    ensures Geo(n, 1) == n
  {
    if n > 0 {
      GeoOne(n - 1);
      PowOfOne(n - 1);
    }
  }

  /** Congruent ratios give congruent sums. */
  lemma {:induction false} GeoCongruent(n: nat, z: int, z': int, p: int)
    requires p > 0 && z % p == z' % p
    ensures Geo(n, z) % p == Geo(n, z') % p
  {
    if n > 0 {
      GeoCongruent(n - 1, z, z', p);
      PowCongruent(z, z', n - 1, p);
      SumCongruent2(Geo(n - 1, z), Pow(z, n - 1), Geo(n - 1, z'), Pow(z', n - 1), p);
    }
  }

  lemma SumCongruent2(x1: int, x2: int, y1: int, y2: int, p: int)
    requires p > 0 && x1 % p == y1 % p && x2 % p == y2 % p
    ensures (x1 + x2) % p == (y1 + y2) % p
  {
    ModAdd(x1, x2, p);
    ModAdd(y1, y2, p);
  }

  /** A product with a factor divisible by `p` is divisible by `p`. */
  lemma ProductVanishes(x: int, y: int, p: int)
    requires p > 0 && y % p == 0
    ensures (x * y) % p == 0 && (y * x) % p == 0
  {
    CongruentProduct(x, x, y, 0, p);
    CongruentProduct(y, 0, x, x, p);
  }

  /** `-1` to an odd power is `-1`. */
  lemma OddPowerOfMinusOne(b: int, e: nat, p: int)
    requires p > 1 && b % p == p - 1 && e % 2 == 1
    ensures Pow(b, e) % p == p - 1
  {
    DivModUnique(-1, p, -1, p - 1);
    PowCongruent(b, -1, e, p);
    PowMinusOne(e);
  }

  lemma OnePlusMinusOne(x: int, p: int)
    requires p > 1 && x % p == p - 1
    ensures (1 + x) % p == 0
  {
    DivModUnique(1 + x, p, x / p + 1, 0);
  }

  lemma PowSwap(r: int, e: nat, h: nat)
    ensures Pow(Pow(r, e), h) == Pow(Pow(r, h), e)
  {
    PowMul(r, e, h);
    PowMul(r, h, e);
    assert e * h == h * e;
  }

  /** Halving the order: `r^2` for a root `r` of order `2^L`, and `(r^2)^e' == r^(2 e')`. */
  lemma SquaredRoot(r: int, L: nat, e': nat)
    requires L >= 2
    ensures Pow(r * r, Pow2(L - 2)) == Pow(r, Pow2(L - 1))
    ensures Pow(r * r, e') == Pow(r, 2 * e')
  {
    PowSquare(r, 2 * Pow2(L - 2));
    PowSquare(r, 2 * e');
  }

  /** `G + X G` with `X == -1` vanishes. */
  lemma FactorVanishes(Gd: int, G: int, X: int, p: int)
    requires p > 1 && Gd == G + X * G && X % p == p - 1
    ensures Gd % p == 0
  {
    assert Gd == G * (1 + X);
    OnePlusMinusOne(X, p);
    ProductVanishes(G, 1 + X, p);
  }

  /** `G + X G` with `G` vanishing vanishes. */
  lemma SumVanishes(Gd: int, G: int, X: int, p: int)
    requires p > 1 && Gd == G + X * G && G % p == 0
    ensures Gd % p == 0
  {
    assert Gd == (1 + X) * G;
    ProductVanishes(1 + X, G, p);
  }

  /** The odd case: `(r^e)^(2^(L-1)) == -1`, so the factor `1 + z^h` vanishes. */
  lemma GeoRootOdd(r: int, h: nat, e: nat, p: int)
    requires p > 1 && e % 2 == 1 && Pow(r, h) % p == p - 1
    ensures Geo(2 * h, Pow(r, e)) % p == 0
  {
    var z := Pow(r, e);
    GeoAdd(h, h, z);
    PowSwap(r, e, h);
    OddPowerOfMinusOne(Pow(r, h), e, p);
    FactorVanishes(Geo(2 * h, z), Geo(h, z), Pow(z, h), p);
  }

  /**
   * For `r` with `r^(2^(L-1)) == -1`, a primitive `2^L`-th root of unity,
   * the sum of the powers of `r^e` vanishes for `0 < e < 2^L`.
   */
  lemma {:induction false} GeoRoot(r: int, L: nat, e: nat, p: int)
    requires p > 1 && L >= 1 && 0 < e < Pow2(L) && Pow(r, Pow2(L - 1)) % p == p - 1
    ensures Geo(Pow2(L), Pow(r, e)) % p == 0
    decreases L
  {
    var h := Pow2(L - 1);
    assert Pow2(L) == 2 * h;
    if e % 2 == 1 {
      GeoRootOdd(r, h, e, p);
    } else {
      var e' := e / 2;
      assert e == 2 * e' && 0 < e' < h;
      assert L >= 2;
      SquaredRoot(r, L, e');
      GeoRoot(r * r, L - 1, e', p);
      var z := Pow(r, e);
      GeoAdd(h, h, z);
      SumVanishes(Geo(2 * h, z), Geo(h, z), Pow(z, h), p);
    }
  }

  /** Powers of a root of unity of order dividing `n` depend only on the exponent modulo `n`. */
  lemma PowReduce(r: int, n: nat, e: nat, p: int)
    requires p > 1 && n > 0 && Pow(r, n) % p == 1
    ensures Pow(r, e) % p == Pow(r, e % n) % p
  {
    var q, e' := e / n, e % n;
    DivModNat(e, n);
    assert e == n * q + e';
    PowAdd(r, n * q, e');
    PowMul(r, n, q);
    ModSmall(1, p);
    PowCongruent(Pow(r, n), 1, q, p);
    PowOfOne(q);
    CongruentProduct(Pow(Pow(r, n), q), 1, Pow(r, e'), Pow(r, e'), p);
  }

  /**
   * The orthogonality relation: for a primitive `2^L`-th root of unity `r`,
   * the sum of the powers of `r^e` is `2^L` when `2^L` divides `e` and `0`
   * otherwise.
   */
  lemma GeoRootPower(r: int, L: nat, e: nat, p: int)
    requires p > 1 && Pow(r, Pow2(L)) % p == 1 && (L >= 1 ==> Pow(r, Pow2(L - 1)) % p == p - 1)
    ensures Geo(Pow2(L), Pow(r, e)) % p == (if e % Pow2(L) == 0 then Pow2(L) else 0) % p
  {
    var n := Pow2(L);
    var e' := e % n;
    PowReduce(r, n, e, p);
    GeoCongruent(n, Pow(r, e), Pow(r, e'), p);
    if e' == 0 {
      assert Pow(r, e') == 1;
      GeoOne(n);
    } else {
      assert L >= 1;
      GeoRoot(r, L, e', p);
      ModSmall(0, p);
    }
  }

  // ---------------------------------------------------------------------
  // The roots `dft` uses at its last level.

  /** With `n == 1`, `w = g^(p-1) == 1` by Fermat's little theorem. */
  lemma RootOfUnityTrivial(p: int, g: int)
    requires NttPrime(p, g, 0)
    ensures StageRoot(p, g, 0, false) == 1
  {
    ForwardRoot(p, g, 0);
    assert Pow2(0) == 1;
    ModSmall(g, p);
    FermatUnit(p, g);
  }

  lemma SquareOfMinusOne(h: int, p: int)
    requires p > 1 && h % p == p - 1
    ensures (h * h) % p == 1
  {
    DivModUnique(-1, p, -1, p - 1);
    CongruentProduct(h, -1, h, -1, p);
    ModSmall(1, p);
  }

  /** `w = g^((p-1)/n)` is a primitive `n`-th root of unity. */
  lemma RootOfUnity(p: int, g: int, L: nat)
    requires NttPrime(p, g, L)
    ensures var w := StageRoot(p, g, L, false);
      0 < w < p && Pow(w, Pow2(L)) % p == 1 && (L >= 1 ==> Pow(w, Pow2(L - 1)) % p == p - 1)
  {
    var w := StageRoot(p, g, L, false);
    if L == 0 {
      RootOfUnityTrivial(p, g);
      assert Pow(w, 1) == 1;
      ModSmall(1, p);
    } else {
      RootFamily(p, g, L, L - 1, false);
      NonZeroRoot(w, Pow2(L - 1), p);
      SquareOfHalf(w, Pow2(L - 1));
      SquareOfMinusOne(Pow(w, Pow2(L - 1)), p);
    }
  }

  lemma SquareOfHalf(w: int, k: nat)
    ensures Pow(w, 2 * k) == Pow(w, k) * Pow(w, k)
  {
    PowAdd(w, k, k);
  }

  /** From `w' w == 1` and `w * w^(n-1) == w^n == 1`: `w' == w^(n-1)`. */
  lemma InverseAsPower(w: int, w': int, P: int, Pn: int, p: int)
    requires p > 1 && (w' * w) % p == 1 && Pn == w * P && Pn % p == 1
    ensures w' % p == P % p
  {
    ModSmall(1, p);
    CongruentProduct(w', w', Pn, 1, p);
    assert w' * Pn == (w' * w) * P;
    CongruentProduct(w' * w, 1, P, P, p);
  }

  /** `1/w` times `w` is `1`. */
  lemma InverseTimesRoot(p: int, g: int, L: nat)
    requires NttPrime(p, g, L)
    ensures var w, w' := StageRoot(p, g, L, false), StageRoot(p, g, L, true);
      ((w' * w) % p == 1)
  {
    var w, w' := StageRoot(p, g, L, false), StageRoot(p, g, L, true);
    RootOfUnity(p, g, L);
    InverseRoot(p, w, w');
  }

  /** `1/w` is `w^(n-1)`. */
  lemma InverseIsPower(w: int, w': int, n: nat, p: int)
    requires p > 1 && n >= 1 && (w' * w) % p == 1 && Pow(w, n) % p == 1
    ensures w' % p == Pow(w, n - 1) % p
  {
    InverseAsPower(w, w', Pow(w, n - 1), Pow(w, n), p);
  }

  // ---------------------------------------------------------------------
  // Exchanging the two sums.

  /** The values `Poly(a, R^x)` for `x < n`: the transform before reduction. */
  function Evals(a: seq<int>, R: int, n: nat): (e: seq<int>)
    ensures |e| == n
  {
    seq(n, x requires 0 <= x < n => Poly(a, Pow(R, x)))
  }

  /** `sum_i a_i * Geo(n, v R^i)`. */
  function Dual(a: seq<int>, R: int, v: int, n: nat): int
  {
    if a == [] then 0 else a[0] * Geo(n, v) + Dual(a[1..], R, v * R, n)
  }

  lemma LinearStep(c: int, t: int, q0: int, v: int, R: int, g: int, w: int)
    ensures (c + t * q0) + v * (c * g + (t * R) * w) == c * (1 + v * g) + t * (q0 + (v * R) * w)
  {
    assert v * (c * g) == c * (v * g);
    assert v * ((t * R) * w) == t * ((v * R) * w);
  }

  lemma ShiftFactor(t: int, R: int, A: int, B: int)
    ensures t * ((R * A) * B) == (t * R) * (A * B)
  {
  }

  /** A sequence `c + t R^x Q[x]` evaluated at `v`. */
  lemma {:induction false} PolyLinear(P: seq<int>, Q: seq<int>, c: int, t: int, R: int, v: int)
    requires |P| == |Q|
    requires forall x :: 0 <= x < |P| ==> P[x] == c + t * (Pow(R, x) * Q[x])
    ensures Poly(P, v) == c * Geo(|P|, v) + t * Poly(Q, v * R)
    decreases |P|
  {
    if P != [] {
      var P', Q' := P[1..], Q[1..];
      forall x | 0 <= x < |P'|
        ensures P'[x] == c + (t * R) * (Pow(R, x) * Q'[x])
      {
        assert P'[x] == P[x + 1] && Q'[x] == Q[x + 1];
        assert Pow(R, x + 1) == R * Pow(R, x);
        ShiftFactor(t, R, Pow(R, x), Q'[x]);
      }
      PolyLinear(P', Q', c, t * R, R, v);
      GeoFront(|P'|, v);
      assert P[0] == c + t * Q[0];
      LinearStep(c, t, Q[0], v, R, Geo(|P'|, v), Poly(Q', v * R));
    }
  }

  /** Summing the evaluations against the powers of `v` is summing the coefficients against geometric sums. */
  lemma {:induction false} Transpose(a: seq<int>, R: int, v: int, n: nat)
    ensures Poly(Evals(a, R, n), v) == Dual(a, R, v, n)
    decreases |a|
  {
    var P := Evals(a, R, n);
    if a == [] {
      PolyLinear(P, P, 0, 0, R, v);
    } else {
      var Q := Evals(a[1..], R, n);
      PolyLinear(P, Q, a[0], 1, R, v);
      Transpose(a[1..], R, v * R, n);
    }
  }

  /** `sum_i a_i * [n divides t + i] * n`. */
  function Pick(a: seq<int>, t: nat, n: nat): int
    requires n > 0
  {
    if a == [] then 0 else (if t % n == 0 then n * a[0] else 0) + Pick(a[1..], t + 1, n)
  }

  /** With `v == R^t`, orthogonality turns the dual sum into `Pick`. */
  lemma {:induction false} DualIsPick(a: seq<int>, R: int, v: int, t: nat, L: nat, p: int)
    requires p > 1 && Pow(R, Pow2(L)) % p == 1 && (L >= 1 ==> Pow(R, Pow2(L - 1)) % p == p - 1)
    requires v % p == Pow(R, t) % p
    ensures Dual(a, R, v, Pow2(L)) % p == Pick(a, t, Pow2(L)) % p
    decreases |a|
  {
    var n := Pow2(L);
    if a != [] {
      GeoCongruent(n, v, Pow(R, t), p);
      GeoRootPower(R, L, t, p);
      var gv := if t % n == 0 then n else 0;
      CongruentProduct(a[0], a[0], Geo(n, v), gv, p);
      assert a[0] * gv == (if t % n == 0 then n * a[0] else 0);
      assert Pow(R, t + 1) == R * Pow(R, t);
      CongruentProduct(v, Pow(R, t), R, R, p);
      DualIsPick(a[1..], R, v * R, t + 1, L, p);
      SumCongruent2(a[0] * Geo(n, v), Dual(a[1..], R, v * R, n), a[0] * gv, Pick(a[1..], t + 1, n), p);
    }
  }

  /** Among `t + k` for `k < n`, only `k == y` is a multiple of `n`. */
  lemma ResidueDiff(t: nat, y: nat, k: nat, n: nat)
    requires n > 0 && y < n && k < n && (t + y) % n == 0
    ensures (t + k) % n == 0 <==> k == y
  {
    var q := (t + y) / n;
    assert t + k == (k - y) + n * q;
    ModAddMultiple(k - y, n, q);
    if k > y {
      ModSmall(k - y, n);
    } else if k < y {
      DivModUnique(k - y, n, -1, k - y + n);
    }
  }

  lemma {:induction false} PickSuffix(a: seq<int>, t: nat, y: nat, k: nat)
    requires |a| > 0 && y < |a| && (t + y) % |a| == 0 && k <= |a|
    ensures Pick(a[k..], t + k, |a|) == if k <= y then |a| * a[y] else 0
    decreases |a| - k
  {
    var n := |a|;
    if k < n {
      assert a[k..][1..] == a[k + 1..];
      PickSuffix(a, t, y, k + 1);
      ResidueDiff(t, y, k, n);
    }
  }

  lemma PickValue(a: seq<int>, t: nat, y: nat)
    requires |a| > 0 && y < |a| && (t + y) % |a| == 0
    ensures Pick(a, t, |a|) == |a| * a[y]
  {
    PickSuffix(a, t, y, 0);
    assert a[0..] == a;
  }

  // ---------------------------------------------------------------------
  // The round trip.

  /** `n = 2^L` divides `p - 1`, so `0 < n < p`. */
  lemma SizeBelowPrime(p: int, n: int)
    requires p > 1 && n > 0 && (p - 1) % n == 0
    ensures n < p
  {
    DividesIffModZero(n, p - 1);
    DivisorBound(n, p - 1);
  }

  /** `n` is a unit modulo the prime `p`: `r n == x n` forces `r == x` on residues. */
  lemma UnitCancel(r: int, x: int, n: int, p: int)
    requires IsPrime(p) && 0 < n < p && 0 <= r < p && 0 <= x < p && (r * n) % p == (x * n) % p
    ensures r == x
  {
    CongruentIffDivides(r * n, x * n, p);
    assert r * n - x * n == (r - x) * n;
    EuclidLemma(p, r - x, n);
    DividesIffModZero(p, n);
    ModSmall(n, p);
    CongruentIffDivides(r, x, p);
    ModSmall(r, p);
    ModSmall(x, p);
  }

  /** Dividing `n * x` by the unit `n` gives back the residue `x`. */
  lemma DivideUnit(b: int, n: int, x: int, p: int)
    requires IsPrime(p) && 0 < n < p && 0 <= x < p && b == (n * x) % p
    ensures Div(b, n, p) == x
  {
    var r := Div(b, n, p);
    ModSmall(n, p);
    ModOfMod(n * x, p);
    assert Mul(r, n, p) == b;
    assert (r * n) % p == (x * n) % p;
    UnitCancel(r, x, n, p);
  }

  /** Entry `y` after both transforms, as the dual sum. */
  lemma TransformTwiceAsDual(a: seq<int>, w: int, w': int, p: int, y: nat)
    requires p > 1 && y < |a|
    ensures 0 <= Transform(Transform(a, w, p), w', p)[y] < p
    ensures Transform(Transform(a, w, p), w', p)[y] % p == Dual(a, w, Pow(w', y), |a|) % p
  {
    var n := |a|;
    var A := Transform(a, w, p);
    var v := Pow(w', y);
    var E := Evals(a, w, n);
    forall x | 0 <= x < n
      ensures A[x] % p == E[x] % p
    {
      ModOfMod(Poly(a, Pow(w, x)), p);
    }
    PolyCongruentCoefficients(A, E, v, p);
    Transpose(a, w, v, n);
    ModOfMod(Poly(A, v), p);
  }

  /** `(1/w)^y == w^((n-1) y)`. */
  lemma InversePower(w: int, w': int, n: nat, y: nat, p: int)
    requires p > 1 && n >= 1 && w' % p == Pow(w, n - 1) % p
    ensures Pow(w', y) % p == Pow(w, (n - 1) * y) % p
  {
    PowCongruent(w', Pow(w, n - 1), y, p);
    PowMul(w, n - 1, y);
  }

  /** The dual sum at `(1/w)^y` picks out `n * a[y]`. */
  lemma DualAtInverse(a: seq<int>, w: int, w': int, L: nat, p: int, y: nat)
    requires |a| == Pow2(L) && p > 1 && y < |a|
    requires Pow(w, Pow2(L)) % p == 1 && (L >= 1 ==> Pow(w, Pow2(L - 1)) % p == p - 1)
    requires (w' * w) % p == 1
    ensures Dual(a, w, Pow(w', y), Pow2(L)) % p == (Pow2(L) * a[y]) % p
  {
    var n := Pow2(L);
    var t := (n - 1) * y;
    InverseIsPower(w, w', n, p);
    InversePower(w, w', n, y, p);
    DualIsPick(a, w, Pow(w', y), t, L, p);
    assert t + y == n * y;
    ModAddMultiple(0, n, y);
    PickValue(a, t, y);
  }

  lemma ResidueOfCongruent(b: int, d: int, q: int, p: int)
    requires p > 1 && 0 <= b < p && b % p == d % p && d % p == q % p
    ensures b == q % p
  {
    ModSmall(b, p);
  }

  /** Entry `y` after both transforms is `n * a[y]`, for any primitive root `w` of order `n = 2^L` and its inverse `w'`. */
  lemma RoundTripAtRoots(a: seq<int>, w: int, w': int, L: nat, p: int, y: nat)
    requires |a| == Pow2(L) && p > 1 && y < |a|
    requires Pow(w, Pow2(L)) % p == 1 && (L >= 1 ==> Pow(w, Pow2(L - 1)) % p == p - 1)
    requires (w' * w) % p == 1
    ensures Transform(Transform(a, w, p), w', p)[y] == (Pow2(L) * a[y]) % p
  {
    var b := Transform(Transform(a, w, p), w', p)[y];
    TransformTwiceAsDual(a, w, w', p, y);
    DualAtInverse(a, w, w', L, p, y);
    ResidueOfCongruent(b, Dual(a, w, Pow(w', y), Pow2(L)), Pow2(L) * a[y], p);
  }

  /** Entry `y` after both transforms is `n * a[y]`. */
  lemma RoundTripAt(a: seq<int>, p: int, g: int, L: nat, y: nat)
    requires |a| == Pow2(L) && NttPrime(p, g, L) && y < |a|
    ensures var w, w' := StageRoot(p, g, L, false), StageRoot(p, g, L, true);
      Transform(Transform(a, w, p), w', p)[y] == (Pow2(L) * a[y]) % p
  {
    RootOfUnity(p, g, L);
    InverseTimesRoot(p, g, L);
    RoundTripAtRoots(a, StageRoot(p, g, L, false), StageRoot(p, g, L, true), L, p, y);
  }

  /**
   * `dft(f, true)` after `dft(f, false)` gives back `f`: evaluating at the
   * powers of `w`, then at the powers of `1/w`, then dividing by `n`.
   */
  lemma InverseTransformRoundTrip(a: seq<int>, p: int, g: int, L: nat)
    requires |a| == Pow2(L) && NttPrime(p, g, L) && Canonical(a, p)
    ensures var w, w' := StageRoot(p, g, L, false), StageRoot(p, g, L, true);
      Scaled(Transform(Transform(a, w, p), w', p), Pow2(L), p) == a
  {
    var w, w' := StageRoot(p, g, L, false), StageRoot(p, g, L, true);
    var B := Transform(Transform(a, w, p), w', p);
    SizeBelowPrime(p, Pow2(L));
    forall y | 0 <= y < |a|
      ensures Scaled(B, Pow2(L), p)[y] == a[y]
    {
      RoundTripAt(a, p, g, L, y);
      DivideUnit(B[y], Pow2(L), a[y], p);
    }
  }
}
