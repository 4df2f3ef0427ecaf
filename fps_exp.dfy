/**
 * The theory behind `exp_with` of `procon_fps`. Over the integers the
 * derivative of a coefficient sequence obeys the product rule; modulo a
 * prime `p`, `r` is an exponential of `f` below degree `d` when
 * `r' == f' r` on the first `d - 1` coefficients. Newton's round
 * `v <- v (f - log v + 1)` doubles the number of coefficients for which
 * that holds, and with `r_0 == 1` the equation fixes `r` below `d`.
 */
module FpsExp {
  import opened RustArith
  import opened NumberTheory
  import opened Math
  import opened ModInt
  import opened NttInverse
  import opened NttMultiply
  import opened FpsSeries

  // ---------------------------------------------------------------------
  // The derivative over the integers and the product rule.

  /** The derivative over the integers: coefficient `k` is `(k + 1) s_(k+1)`. */
  function Deriv(s: seq<int>): (d: seq<int>)
    ensures |d| == if s == [] then 0 else |s| - 1
  {
    if s == [] then [] else seq(|s| - 1, k requires 0 <= k < |s| - 1 => (k + 1) * s[k + 1])
  }

  lemma DerivCoef(s: seq<int>, k: nat)
    ensures Coef(Deriv(s), k) == (k + 1) * Coef(s, k + 1)
  {
  }

  lemma Distribute(b: int, y: int, c: int, z: int)
    ensures b * (y + c * z) == b * y + c * (b * z)
  {
    calc {
      b * (y + c * z);
      b * y + b * (c * z);
      { MulAssociates(b, c, z); MulAssociates(c, b, z); }
      b * y + c * (b * z);
    }
  }

  /** The product is linear in its second factor, as far as coefficient `k`. */
  lemma {:induction false} ConvLinearRight(B: seq<int>, X: seq<int>, Y: seq<int>, Z: seq<int>, c: int, k: nat)
    requires forall j: nat :: j <= k ==> Coef(X, j) == Coef(Y, j) + c * Coef(Z, j)
    ensures Conv(B, X, k) == Conv(B, Y, k) + c * Conv(B, Z, k)
    decreases |B|
  {
    if B != [] {
      Distribute(B[0], Coef(Y, k), c, Coef(Z, k));
      if k > 0 {
        ConvLinearRight(B[1..], X, Y, Z, c, k - 1);
      }
    }
  }

  /** The product is linear in its first factor, as far as coefficient `k`. */
  lemma ConvLinearLeft(X: seq<int>, Y: seq<int>, Z: seq<int>, c: int, B: seq<int>, k: nat)
    requires forall j: nat :: j <= k ==> Coef(X, j) == Coef(Y, j) + c * Coef(Z, j)
    ensures Conv(X, B, k) == Conv(Y, B, k) + c * Conv(Z, B, k)
  {
    ConvCommute(X, B, k);
    ConvCommute(Y, B, k);
    ConvCommute(Z, B, k);
    ConvLinearRight(B, X, Y, Z, c, k);
  }

  lemma ProductRuleArithmetic(k: int, a: int, b: int, c: int, s: int, t: int)
    requires k * c == s + t
    ensures (k + 1) * (a * b + c) == (c + 1 * s) + (a * ((k + 1) * b) + t)
  {
    calc {
      (k + 1) * (a * b + c);
      (k + 1) * (a * b) + k * c + c;
      { MulAssociates(k + 1, a, b); MulAssociates(a, k + 1, b); }
      a * ((k + 1) * b) + k * c + c;
    }
  }

  /** The product rule `(A B)' == A' B + A B'`, at coefficient `k`. */
  lemma {:induction false} ProductRule(A: seq<int>, B: seq<int>, k: nat)
    ensures (k + 1) * Conv(A, B, k + 1) == Conv(Deriv(A), B, k) + Conv(A, Deriv(B), k)
    decreases |A|
  {
    if A != [] {
      var A' := A[1..];
      var a, b := A[0], Coef(B, k + 1);
      var c := Conv(A', B, k);
      DerivOfTail(A, B, k);
      DerivCoef(B, k);
      ConvHead(A, B, k + 1);
      ConvHead(A, Deriv(B), k);
      if k > 0 {
        ProductRule(A', B, k - 1);
        ProductRuleArithmetic(k, a, b, c, Conv(Deriv(A'), B, k - 1), Conv(A', Deriv(B), k - 1));
      } else {
        ProductRuleArithmetic(0, a, b, c, 0, 0);
      }
    }
  }

  /** `Conv` peels off the first coefficient of its first factor. */
  lemma ConvHead(A: seq<int>, B: seq<int>, k: nat)
    requires A != []
    ensures Conv(A, B, k) == A[0] * Coef(B, k) + (if k == 0 then 0 else Conv(A[1..], B, k - 1))
  {
  }

  /** `(a_0 + x A')' == A' + x A''`, multiplied by `B` at coefficient `k`. */
  lemma DerivOfTail(A: seq<int>, B: seq<int>, k: nat)
    requires A != []
    ensures Conv(Deriv(A), B, k) == Conv(A[1..], B, k) + 1 * (if k == 0 then 0 else Conv(Deriv(A[1..]), B, k - 1))
  {
    var A' := A[1..];
    var S := [0] + Deriv(A');
    forall j: nat | j <= k
      ensures Coef(Deriv(A), j) == Coef(A', j) + 1 * Coef(S, j)
    {
      DerivCoef(A, j);
      if j > 0 {
        DerivCoef(A', j - 1);
      }
    }
    ConvLinearLeft(Deriv(A), A', S, 1, B, k);
    assert S[1..] == Deriv(A');
    ConvHead(S, B, k);
  }

  // ---------------------------------------------------------------------
  // Congruences.

  /** A combination of multiples of `p` is a multiple of `p`. */
  lemma MultiplesCombine(a: int, b: int, c: int, d: int, e: int, p: int)
    requires p > 0 && a % p == 0 && b % p == 0 && c % p == 0 && d % p == 0 && e % p == 0
    ensures (a + b - c + d - e) % p == 0
  {
    var q := a / p + b / p - c / p + d / p - e / p;
    assert a + b - c + d - e == p * q;
    ModAddMultiple(0, p, q);
    ModSmall(0, p);
  }

  /** Congruent values differ by a multiple of `p`, and conversely. */
  lemma CongruentIffDifference(x: int, y: int, p: int)
    requires p > 0
    ensures x % p == y % p <==> (x - y) % p == 0
  {
    if x % p == y % p {
      CongruentDifference(y, x, p);
    }
    if (x - y) % p == 0 {
      DropMultiple(x, x - y, p);
    }
  }

  /** A multiple of `p` that is `j` times `x`, with `0 < j < p` and `p` prime, has `x` a multiple of `p`. */
  lemma ZeroByUnit(j: int, x: int, p: int)
    requires IsPrime(p) && 0 < j < p && (j * x) % p == 0
    ensures x % p == 0
  {
    DividesIffModZero(p, j * x);
    EuclidLemma(p, j, x);
    DividesIffModZero(p, j);
    DividesIffModZero(p, x);
    ModSmall(j, p);
  }

  /** Agreement below `d` implies agreement below any smaller degree. */
  lemma AgreeBelow(A: seq<int>, B: seq<int>, d: nat, d': nat, p: int)
    requires Agree(A, B, d, p) && d' <= d
    ensures Agree(A, B, d', p)
  {
  }

  /** Agreement below `d + 1` gives agreement of the derivatives below `d`. */
  lemma DerivAgree(A: seq<int>, B: seq<int>, d: nat, p: int)
    requires Agree(A, B, d + 1, p)
    ensures Agree(Deriv(A), Deriv(B), d, p)
  {
    forall k: nat | k < d
      ensures Coef(Deriv(A), k) % p == Coef(Deriv(B), k) % p
    {
      DerivCoef(A, k);
      DerivCoef(B, k);
      CongruentProduct(k + 1, k + 1, Coef(A, k + 1), Coef(B, k + 1), p);
    }
  }

  /** `differential` is the derivative over the integers, modulo `p`. */
  lemma DerivativeAgrees(s: seq<int>, p: int, d: nat)
    requires p > 0 && |s| >= 1
    ensures Agree(Derivative(s, p), Deriv(s), d, p)
  {
    forall k: nat | k < d
      ensures Coef(Derivative(s, p), k) % p == Coef(Deriv(s), k) % p
    {
      DerivativeAgreesAt(s, p, k);
    }
  }

  lemma DerivativeAgreesAt(s: seq<int>, p: int, k: nat)
    requires p > 0 && |s| >= 1
    ensures Coef(Derivative(s, p), k) % p == Coef(Deriv(s), k) % p
  {
    DerivCoef(s, k);
    if k < |s| - 1 {
      var a, j := s[k + 1], k + 1;
      var r := Mul(a, j, p);
      assert Derivative(s, p)[k] == r;
      assert a * j == j * a;
      CongruentThenEqual(r, a * j, j * a, p);
    } else {
      assert Coef(s, k + 1) == 0;
    }
  }

  lemma AgreeTransitive(A: seq<int>, B: seq<int>, C: seq<int>, d: nat, p: int)
    requires Agree(A, B, d, p) && Agree(B, C, d, p)
    ensures Agree(A, C, d, p)
  {
  }

  lemma AgreeSymmetric(A: seq<int>, B: seq<int>, d: nat, p: int)
    requires Agree(A, B, d, p)
    ensures Agree(B, A, d, p)
  {
  }

  // ---------------------------------------------------------------------
  // Logarithm and exponential.

  /**
   * `r` is a logarithm of `f` below degree `d`: `r' f == f'` on the first
   * `d - 1` coefficients, modulo `p`. Read the other way round, `f` is an
   * exponential of `r`: `f' == r' f`.
   */
  ghost predicate IsLogarithm(r: seq<int>, f: seq<int>, d: nat, p: int)
    requires p > 0 && |f| >= 1
  {
    d == 0 || (|r| >= 1 && Agree(Mult(Derivative(r, p), f), Derivative(f, p), d - 1, p))
  }

  /** `r' f == f'` below `d - 1`, with the derivative over the integers. */
  ghost predicate LogarithmExact(r: seq<int>, f: seq<int>, d: nat, p: int)
  {
    d == 0 || Agree(Mult(Deriv(r), f), Deriv(f), d - 1, p)
  }

  /** `IsLogarithm` and `LogarithmExact` coincide. */
  lemma LogarithmIsExact(r: seq<int>, f: seq<int>, d: nat, p: int)
    requires p > 0 && |r| >= 1 && |f| >= 1
    ensures IsLogarithm(r, f, d, p) <==> LogarithmExact(r, f, d, p)
  {
    if d > 0 {
      var n := d - 1;
      DerivativeAgrees(r, p, n);
      DerivativeAgrees(f, p, n);
      ProductsAgree(Derivative(r, p), Deriv(r), f, f, n, p);
      if IsLogarithm(r, f, d, p) {
        AgreeSymmetric(Mult(Derivative(r, p), f), Mult(Deriv(r), f), n, p);
        AgreeTransitive(Mult(Deriv(r), f), Mult(Derivative(r, p), f), Derivative(f, p), n, p);
        AgreeTransitive(Mult(Deriv(r), f), Derivative(f, p), Deriv(f), n, p);
      }
      if LogarithmExact(r, f, d, p) {
        AgreeSymmetric(Derivative(f, p), Deriv(f), n, p);
        AgreeTransitive(Mult(Derivative(r, p), f), Mult(Deriv(r), f), Deriv(f), n, p);
        AgreeTransitive(Mult(Derivative(r, p), f), Deriv(f), Derivative(f, p), n, p);
      }
    }
  }

  /**
   * A factor with constant term 1 cancels: if `X v` vanishes modulo `p`
   * below `m`, so does `X`.
   */
  lemma {:induction false} CancelUnitFactor(X: seq<int>, v: seq<int>, m: nat, p: int)
    requires p > 0 && |v| >= 1 && v[0] == 1
    requires forall k: nat :: k < m ==> Conv(X, v, k) % p == 0
    ensures forall k: nat :: k < m ==> Coef(X, k) % p == 0
    decreases m
  {
    if m > 0 {
      CancelUnitFactor(X, v, m - 1, p);
      var k := m - 1;
      ConvCommute(X, v, k);
      if k > 0 {
        ConvVanish(X, v[1..], k - 1, k, 0, p);
        ConvCommute(X, v[1..], k - 1);
        DropMultiple(Conv(v, X, k), Conv(v[1..], X, k - 1), p);
      } else {
        assert Conv(v, X, 0) == Coef(X, 0);
      }
    }
  }

  /**
   * If `v` is an exponential of `f` below `i` and `L` a logarithm of `v`
   * below `i`, and both `f` and `L` start with 0, then `L` agrees with `f`
   * below `i`.
   */
  lemma LogOfExp(f: seq<int>, v: seq<int>, L: seq<int>, i: nat, p: int)
    requires IsPrime(p) && 1 <= i <= p && |v| >= 1 && v[0] == 1
    requires Coef(f, 0) % p == Coef(L, 0) % p
    requires LogarithmExact(f, v, i, p) && LogarithmExact(L, v, i, p)
    ensures Agree(L, f, i, p)
  {
    var X := Lin(Deriv(L), -1, Deriv(f));
    forall k: nat | k < i - 1
      ensures Conv(X, v, k) % p == 0
    {
      LogDifferenceAt(Deriv(f), Deriv(L), v, Deriv(v), X, p, k);
    }
    CancelUnitFactor(X, v, i - 1, p);
    forall k: nat | 0 < k < i
      ensures Coef(L, k) % p == Coef(f, k) % p
    {
      CoefFromDerivative(L, f, X, p, k);
    }
    assert Agree(L, f, i, p);
  }

  /** Coefficient `k` of `(L' - f') v` vanishes when `L' v` and `f' v` both agree with `v'` there. */
  lemma LogDifferenceAt(Df: seq<int>, DL: seq<int>, v: seq<int>, Dv: seq<int>, X: seq<int>, p: int, k: nat)
    requires p > 0 && X == Lin(DL, -1, Df)
    requires Coef(Mult(DL, v), k) % p == Coef(Dv, k) % p && Coef(Mult(Df, v), k) % p == Coef(Dv, k) % p
    ensures Conv(X, v, k) % p == 0
  {
    ConvLinearLeft(X, DL, Df, -1, v, k);
    CoefMult(DL, v, k);
    CoefMult(Df, v, k);
    CongruentIffDifference(Conv(DL, v, k), Conv(Df, v, k), p);
  }

  /** Where `L' - f'` vanishes at `k - 1`, `L` and `f` agree at `k`, for `0 < k < p`. */
  lemma CoefFromDerivative(L: seq<int>, f: seq<int>, X: seq<int>, p: int, k: nat)
    requires IsPrime(p) && 0 < k < p && X == Lin(Deriv(L), -1, Deriv(f)) && Coef(X, k - 1) % p == 0
    ensures Coef(L, k) % p == Coef(f, k) % p
  {
    var j := k - 1;
    var a, b, z := Coef(L, j + 1), Coef(f, j + 1), Coef(X, j);
    DerivCoef(L, j);
    DerivCoef(f, j);
    CancelUnitDifference(j + 1, a, b, z, p);
  }

  /** `z == j x - j y` a multiple of `p`, with `0 < j < p` and `p` prime, gives `x == y (mod p)`. */
  lemma CancelUnitDifference(j: int, x: int, y: int, z: int, p: int)
    requires IsPrime(p) && 0 < j < p && z == j * x + -1 * (j * y) && z % p == 0
    ensures x % p == y % p
  {
    assert z == j * (x - y);
    ZeroByUnit(j, x - y, p);
    CongruentIffDifference(x, y, p);
  }

  /**
   * How one coefficient of the new exponential comes out: `W` is
   * coefficient `k` of `w'`, `T` that of `f' w`; the other values are the
   * pieces of the product rule. Their difference is `C`, a multiple of `p`.
   */
  lemma CombineCongruences(W: int, M: int, N: int, F: int, Q: int, V: int, T: int, K: int, C: int, p: int)
    requires p > 0
    requires W % p == (M + N) % p && N % p == (F - Q) % p && Q % p == V % p && T % p == K % p
    requires C == M - V - K + F && C % p == 0
    ensures T % p == W % p
  {
    CongruentIffDifference(W, M + N, p);
    CongruentIffDifference(N, F - Q, p);
    CongruentIffDifference(Q, V, p);
    CongruentIffDifference(T, K, p);
    MultiplesCombine(W - (M + N), N - (F - Q), Q - V, C, T - K, p);
    assert W - T == (W - (M + N)) + (N - (F - Q)) - (Q - V) + C - (T - K);
    CongruentIffDifference(W, T, p);
  }

  /**
   * One coefficient of Newton's round for the exponential: with `R` the
   * error `v' - f' v` and `G == h - 1`, coefficient `k` of `f' w` and of
   * `w'` differ by coefficient `k` of `R G`.
   */
  lemma ExpRoundAt(f: seq<int>, v: seq<int>, L: seq<int>, h: seq<int>, w: seq<int>, R: seq<int>, G: seq<int>,
                   i: nat, p: int, k: nat)
    requires p > 0 && 1 <= i && k < 2 * i - 1
    requires R == Lin(Deriv(v), -1, Mult(Deriv(f), v)) && G == Lin(h, -1, [1])
    requires Agree(Mult(Deriv(L), v), Deriv(v), 2 * i - 1, p)
    requires Agree(Deriv(h), Lin(Deriv(f), -1, Deriv(L)), 2 * i - 1, p)
    requires Agree(w, Mult(v, h), 2 * i, p)
    requires Conv(R, G, k) % p == 0
    ensures Coef(Mult(Deriv(f), w), k) % p == Coef(Deriv(w), k) % p
  {
    var Df, Dv, DL, Dh := Deriv(f), Deriv(v), Deriv(L), Deriv(h);
    var Dfv := Mult(Df, v);
    var W, M, N, F, Q := Coef(Deriv(w), k), Conv(Dv, h, k), Conv(v, Dh, k), Conv(v, Df, k), Conv(v, DL, k);
    var V, T, K, C := Coef(Dv, k), Coef(Mult(Df, w), k), Conv(Dfv, h, k), Conv(R, G, k);
    ExpRoundProduct(Df, v, h, w, i, p, k);
    ExpRoundDerivative(v, h, w, i, p, k, W, M, N);
    ExpRoundCorrection(v, Dh, Df, DL, i, p, k, N, F, Q);
    ExpRoundLogTerm(v, DL, Dv, i, p, k);
    ExpRoundError(Dv, Dfv, Df, v, h, R, G, k);
    CombineCongruences(W, M, N, F, Q, V, T, K, C, p);
  }

  /** `v L'` as `v'`, at coefficient `k`, since `L` is a logarithm of `v`. */
  lemma ExpRoundLogTerm(v: seq<int>, DL: seq<int>, Dv: seq<int>, i: nat, p: int, k: nat)
    requires p > 0 && 1 <= i && k < 2 * i - 1 && Agree(Mult(DL, v), Dv, 2 * i - 1, p)
    ensures Conv(v, DL, k) % p == Coef(Dv, k) % p
  {
    CoefMult(DL, v, k);
    ConvCommute(v, DL, k);
  }

  /** `f' w` as `(f' v) h`, at coefficient `k`. */
  lemma ExpRoundProduct(Df: seq<int>, v: seq<int>, h: seq<int>, w: seq<int>, i: nat, p: int, k: nat)
    requires p > 0 && k < 2 * i && Agree(w, Mult(v, h), 2 * i, p)
    ensures Coef(Mult(Df, w), k) % p == Conv(Mult(Df, v), h, k) % p
  {
    CoefMult(Df, w, k);
    ConvAgreeRight(Df, w, Mult(v, h), 2 * i, p, k);
    ConvAssociate(Df, v, h, k);
  }

  /** `w'` as `v' h + v h'`, at coefficient `k`, by the product rule. */
  lemma ExpRoundDerivative(v: seq<int>, h: seq<int>, w: seq<int>, i: nat, p: int, k: nat, W: int, M: int, N: int)
    requires p > 0 && 1 <= i && k < 2 * i - 1 && Agree(w, Mult(v, h), 2 * i, p)
    requires W == Coef(Deriv(w), k) && M == Conv(Deriv(v), h, k) && N == Conv(v, Deriv(h), k)
    ensures W % p == (M + N) % p
  {
    var vh := Mult(v, h);
    DerivAgreeAt(w, vh, 2 * i, p, k);
    ProductRuleCoef(v, h, k);
    CongruentThenEqual(W, Coef(Deriv(vh), k), M + N, p);
  }

  lemma DerivAgreeAt(A: seq<int>, B: seq<int>, d: nat, p: int, k: nat)
    requires Agree(A, B, d, p) && k + 1 < d
    ensures Coef(Deriv(A), k) % p == Coef(Deriv(B), k) % p
  {
    DerivAgree(A, B, d - 1, p);
  }

  /** The product rule on the coefficients of `Mult`. */
  lemma ProductRuleCoef(v: seq<int>, h: seq<int>, k: nat)
    ensures Coef(Deriv(Mult(v, h)), k) == Conv(Deriv(v), h, k) + Conv(v, Deriv(h), k)
  {
    DerivCoef(Mult(v, h), k);
    CoefMult(v, h, k + 1);
    ProductRule(v, h, k);
  }

  lemma CongruentThenEqual(a: int, b: int, c: int, p: int)
    requires p > 0 && a % p == b % p && b == c
    ensures a % p == c % p
  {
  }

  /** `v h'` as `v f' - v L'`, at coefficient `k`. */
  lemma ExpRoundCorrection(v: seq<int>, Dh: seq<int>, Df: seq<int>, DL: seq<int>, i: nat, p: int, k: nat,
                           N: int, F: int, Q: int)
    requires p > 0 && 1 <= i && k < 2 * i - 1 && Agree(Dh, Lin(Df, -1, DL), 2 * i - 1, p)
    requires N == Conv(v, Dh, k) && F == Conv(v, Df, k) && Q == Conv(v, DL, k)
    ensures N % p == (F - Q) % p
  {
    var X := Lin(Df, -1, DL);
    ConvAgreeRight(v, Dh, X, 2 * i - 1, p, k);
    ConvMinus(v, Df, DL, k);
    CongruentThenEqual(N, Conv(v, X, k), F - Q, p);
  }

  /** Multiplying by `v` distributes over a difference, at coefficient `k`. */
  lemma ConvMinus(v: seq<int>, Df: seq<int>, DL: seq<int>, k: nat)
    ensures Conv(v, Lin(Df, -1, DL), k) == Conv(v, Df, k) - Conv(v, DL, k)
  {
    ConvLinearRight(v, Lin(Df, -1, DL), Df, DL, -1, k);
  }

  /** The error term `(v' - f' v)(h - 1)` expanded, at coefficient `k`. */
  lemma ExpRoundError(Dv: seq<int>, Dfv: seq<int>, Df: seq<int>, v: seq<int>, h: seq<int>, R: seq<int>, G: seq<int>, k: nat)
    requires R == Lin(Dv, -1, Dfv) && G == Lin(h, -1, [1]) && Dfv == Mult(Df, v)
    ensures Conv(R, G, k) == Conv(Dv, h, k) - Coef(Dv, k) - Conv(Dfv, h, k) + Conv(v, Df, k)
  {
    ConvLinearLeft(R, Dv, Dfv, -1, G, k);
    ConvLinearRight(Dv, G, h, [1], -1, k);
    ConvLinearRight(Dfv, G, h, [1], -1, k);
    ConvOne(Dv, k);
    ConvOne(Dfv, k);
    CoefMult(Df, v, k);
    ConvCommute(v, Df, k);
  }

  /**
   * Newton's round for the exponential doubles the precision: if `v`
   * (starting with 1) is an exponential of `f` below `i`, `L` a logarithm
   * of `v` below `2i` starting with 0, `h` agrees with `f - L + 1` below
   * `2i`, and `w` with `v h`, then `w` is an exponential of `f` below `2i`.
   */
  lemma ExpRound(f: seq<int>, v: seq<int>, L: seq<int>, h: seq<int>, w: seq<int>, i: nat, p: int)
    requires IsPrime(p) && 1 <= i < p && |v| >= 1 && v[0] == 1
    requires Coef(f, 0) % p == 0 && Coef(L, 0) % p == 0
    requires LogarithmExact(f, v, i, p) && LogarithmExact(L, v, 2 * i, p)
    requires forall k: nat :: k < 2 * i ==> Coef(h, k) % p == (Coef(f, k) - Coef(L, k) + Coef([1], k)) % p
    requires Agree(w, Mult(v, h), 2 * i, p)
    ensures LogarithmExact(f, w, 2 * i, p)
  {
    var Df, Dv, DL := Deriv(f), Deriv(v), Deriv(L);
    AgreeBelow(Mult(DL, v), Dv, 2 * i - 1, i - 1, p);
    LogOfExp(f, v, L, i, p);
    var R := Lin(Dv, -1, Mult(Df, v));
    var G := Lin(h, -1, [1]);
    forall j: nat | j < i - 1
      ensures Coef(R, j) % p == 0
    {
      ErrorVanishesAt(Dv, Mult(Df, v), R, p, j);
    }
    forall j: nat | j < i
      ensures Coef(G, j) % p == 0
    {
      CorrectionVanishesAt(f, L, h, G, p, j);
    }
    forall k: nat | k < 2 * i - 1
      ensures Coef(Deriv(h), k) % p == Coef(Lin(Df, -1, DL), k) % p
    {
      CorrectionDerivativeAt(f, L, h, p, k);
    }
    forall k: nat | k < 2 * i - 1
      ensures Coef(Mult(Df, w), k) % p == Coef(Deriv(w), k) % p
    {
      ConvVanish(R, G, k, i - 1, i, p);
      ExpRoundAt(f, v, L, h, w, R, G, i, p, k);
    }
  }

  lemma ErrorVanishesAt(Dv: seq<int>, Dfv: seq<int>, R: seq<int>, p: int, j: nat)
    requires p > 0 && R == Lin(Dv, -1, Dfv) && Coef(Dv, j) % p == Coef(Dfv, j) % p
    ensures Coef(R, j) % p == 0
  {
    CongruentIffDifference(Coef(Dv, j), Coef(Dfv, j), p);
  }

  /** `h - 1` vanishes at `j` where `h` agrees with `f - L + 1` and `L` with `f`. */
  lemma CorrectionVanishesAt(f: seq<int>, L: seq<int>, h: seq<int>, G: seq<int>, p: int, j: nat)
    requires p > 0 && G == Lin(h, -1, [1])
    requires Coef(h, j) % p == (Coef(f, j) - Coef(L, j) + Coef([1], j)) % p && Coef(L, j) % p == Coef(f, j) % p
    ensures Coef(G, j) % p == 0
  {
    var e := Coef([1], j);
    CongruentIffDifference(Coef(L, j), Coef(f, j), p);
    CongruentIffDifference(Coef(h, j), Coef(f, j) - Coef(L, j) + e, p);
    assert Coef(G, j) == Coef(h, j) - e;
    assert Coef(h, j) - (Coef(f, j) - Coef(L, j) + e) == Coef(G, j) + (Coef(L, j) - Coef(f, j));
    MultiplesCombine(Coef(h, j) - (Coef(f, j) - Coef(L, j) + e), 0, Coef(L, j) - Coef(f, j), 0, 0, p);
  }

  /** Where `h` agrees with `f - L + 1` at `k + 1`, `h'` agrees with `f' - L'` at `k`. */
  lemma CorrectionDerivativeAt(f: seq<int>, L: seq<int>, h: seq<int>, p: int, k: nat)
    requires p > 0 && Coef(h, k + 1) % p == (Coef(f, k + 1) - Coef(L, k + 1) + Coef([1], k + 1)) % p
    ensures Coef(Deriv(h), k) % p == Coef(Lin(Deriv(f), -1, Deriv(L)), k) % p
  {
    var a, b, c := Coef(h, k + 1), Coef(f, k + 1), Coef(L, k + 1);
    DerivCoef(h, k);
    DerivCoef(f, k);
    DerivCoef(L, k);
    assert Coef(Lin(Deriv(f), -1, Deriv(L)), k) == (k + 1) * b + -1 * ((k + 1) * c);
    assert Coef([1], k + 1) == 0;
    CongruentProduct(k + 1, k + 1, a, b - c, p);
    Distribute(k + 1, b, -1, c);
  }

  /** Resizing to `d` keeps an exponential valid below `d`. */
  lemma ExpPad(f: seq<int>, v: seq<int>, i: nat, d: nat, p: int)
    requires p > 0 && d <= i && LogarithmExact(f, v, i, p)
    ensures LogarithmExact(f, Pad(v, d), d, p)
  {
    if d > 0 {
      var r := Pad(v, d);
      assert Agree(r, v, d, p);
      DerivAgree(r, v, d - 1, p);
      ProductsAgree(Deriv(f), Deriv(f), r, v, d - 1, p);
      AgreeBelow(Mult(Deriv(f), v), Deriv(v), i - 1, d - 1, p);
      AgreeTransitive(Mult(Deriv(f), r), Mult(Deriv(f), v), Deriv(v), d - 1, p);
      AgreeSymmetric(Deriv(r), Deriv(v), d - 1, p);
      AgreeTransitive(Mult(Deriv(f), r), Deriv(v), Deriv(r), d - 1, p);
    }
  }

  /**
   * The exponential is unique: two exponentials of `f` below `d` with
   * congruent constant terms agree below `d`, for `d <= p`.
   */
  lemma {:induction false} ExpUnique(f: seq<int>, r: seq<int>, s: seq<int>, d: nat, p: int)
    requires IsPrime(p) && d <= p && |r| >= 1 && |s| >= 1 && |f| >= 1
    requires IsLogarithm(f, r, d, p) && IsLogarithm(f, s, d, p) && r[0] % p == s[0] % p
    ensures Agree(r, s, d, p)
    decreases d
  {
    if d > 1 {
      LogarithmBelow(f, r, d, p);
      LogarithmBelow(f, s, d, p);
      ExpUnique(f, r, s, d - 1, p);
      ExpUniqueStep(f, r, s, d, p);
      assert forall k: nat :: k < d ==> Coef(r, k) % p == Coef(s, k) % p by {
        forall k: nat | k < d
          ensures Coef(r, k) % p == Coef(s, k) % p
        {
          if k < d - 1 {
            assert Agree(r, s, d - 1, p);
          }
        }
      }
    } else if d == 1 {
      assert Coef(r, 0) == r[0] && Coef(s, 0) == s[0];
    }
  }

  /** A logarithm below `d` is one below `d - 1`. */
  lemma LogarithmBelow(f: seq<int>, r: seq<int>, d: nat, p: int)
    requires p > 0 && |r| >= 1 && d >= 1 && IsLogarithm(f, r, d, p)
    ensures IsLogarithm(f, r, d - 1, p)
  {
    if d > 1 {
      AgreeBelow(Mult(Derivative(f, p), r), Derivative(r, p), d - 1, d - 2, p);
    }
  }

  /** With the same logarithm, series agreeing below `d - 1` agree at `d - 1`. */
  lemma ExpUniqueStep(f: seq<int>, r: seq<int>, s: seq<int>, d: nat, p: int)
    requires IsPrime(p) && 1 < d <= p && |r| >= 1 && |s| >= 1 && |f| >= 1
    requires IsLogarithm(f, r, d, p) && IsLogarithm(f, s, d, p) && Agree(r, s, d - 1, p)
    ensures Coef(r, d - 1) % p == Coef(s, d - 1) % p
  {
    var k := d - 2;
    var a, b, x, y := Coef(Deriv(r), k), Coef(Deriv(s), k), Coef(r, k + 1), Coef(s, k + 1);
    DerivativesCongruent(f, r, s, d, p);
    DerivCoef(r, k);
    DerivCoef(s, k);
    CancelUnit(k + 1, x, y, a, b, p);
  }

  /** With the same logarithm, series agreeing below `d - 1` have derivatives agreeing at `d - 2`. */
  lemma DerivativesCongruent(f: seq<int>, r: seq<int>, s: seq<int>, d: nat, p: int)
    requires p > 0 && 1 < d && |r| >= 1 && |s| >= 1 && |f| >= 1
    requires IsLogarithm(f, r, d, p) && IsLogarithm(f, s, d, p) && Agree(r, s, d - 1, p)
    ensures Coef(Deriv(r), d - 2) % p == Coef(Deriv(s), d - 2) % p
  {
    var k, Df := d - 2, Deriv(f);
    var A, B := Coef(Deriv(r), k), Coef(Deriv(s), k);
    var P, Q := Coef(Mult(Df, r), k), Coef(Mult(Df, s), k);
    LogarithmIsExact(f, r, d, p);
    LogarithmIsExact(f, s, d, p);
    assert P % p == A % p && Q % p == B % p;
    CoefMult(Df, r, k);
    CoefMult(Df, s, k);
    ConvAgreeRight(Df, r, s, d - 1, p, k);
    assert P % p == Q % p;
  }

  /** `a == j x` and `b == j y` congruent, with `0 < j < p` and `p` prime, give `x == y (mod p)`. */
  lemma CancelUnit(j: int, x: int, y: int, a: int, b: int, p: int)
    requires IsPrime(p) && 0 < j < p && a == j * x && b == j * y && a % p == b % p
    ensures x % p == y % p
  {
    CongruentIffDifference(a, b, p);
    assert j * x - j * y == j * (x - y);
    ZeroByUnit(j, x - y, p);
    CongruentIffDifference(x, y, p);
  }



  /**
   * The pair of the tests of `exp` and `log` modulo 998244353:
   * `[1, 1, 499122179, 166374064, 291154613]` satisfies `r' == f' r` for
   * `f == [0, 1, 2, 3, 4]`, which makes it the exponential of `f` and `f`
   * its logarithm, below degree 5.
   */
  lemma ExpLogTestVector()
    ensures IsLogarithm([0, 1, 2, 3, 4], [1, 1, 499122179, 166374064, 291154613], 5, 998244353)
  {
    var p := 998244353;
    var f := [0, 1, 2, 3, 4];
    var r := [1, 1, 499122179, 166374064, 291154613];
    TestVectorDerivatives();
    var Df, Dr := Derivative(f, p), Derivative(r, p);
    forall k: nat | k < 4
      ensures Coef(Mult(Df, r), k) % p == Coef(Dr, k) % p
    {
      CoefMult(Df, r, k);
      TestVectorProduct(k);
    }
  }

  lemma TestVectorDerivatives()
    ensures Derivative([0, 1, 2, 3, 4], 998244353) == [1, 4, 9, 16]
    ensures Derivative([1, 1, 499122179, 166374064, 291154613], 998244353) == [1, 5, 499122192, 166374099]
  {
    SmallProducts();
    DerivativeOfTestSeries();
    DerivativeOfTestExponential();
  }

  lemma DerivativeOfTestSeries()
    requires Mul(1, 1, 998244353) == 1 && Mul(2, 2, 998244353) == 4
    requires Mul(3, 3, 998244353) == 9 && Mul(4, 4, 998244353) == 16
    ensures Derivative([0, 1, 2, 3, 4], 998244353) == [1, 4, 9, 16]
  {
  }

  lemma DerivativeOfTestExponential()
    requires Mul(1, 1, 998244353) == 1 && Mul(499122179, 2, 998244353) == 5
    requires Mul(166374064, 3, 998244353) == 499122192 && Mul(291154613, 4, 998244353) == 166374099
    ensures Derivative([1, 1, 499122179, 166374064, 291154613], 998244353) == [1, 5, 499122192, 166374099]
  {
  }

  lemma SmallProducts()
    ensures Mul(1, 1, 998244353) == 1 && Mul(2, 2, 998244353) == 4
    ensures Mul(3, 3, 998244353) == 9 && Mul(4, 4, 998244353) == 16
    ensures Mul(499122179, 2, 998244353) == 5 && Mul(166374064, 3, 998244353) == 499122192
    ensures Mul(291154613, 4, 998244353) == 166374099
  {
    var p := 998244353;
    ModAddMultiple(5, p, 1);
    ModAddMultiple(166374099, p, 1);
    ModSmall(1, p);
    ModSmall(4, p);
    ModSmall(9, p);
    ModSmall(16, p);
    ModSmall(5, p);
    ModSmall(499122192, p);
    ModSmall(166374099, p);
  }

  lemma TestVectorProduct(k: nat)
    requires k < 4
    ensures Conv([1, 4, 9, 16], [1, 1, 499122179, 166374064, 291154613], k) % 998244353
         == [1, 5, 499122192, 166374099][k]
  {
    var A, r := [1, 4, 9, 16], [1, 1, 499122179, 166374064, 291154613];
    assert A[1..] == [4, 9, 16] && A[2..] == [9, 16] && A[3..] == [16] && A[4..] == [];
    if k == 3 {
      assert Conv(A, r, 3) == 166374064 + 4 * 499122179 + 9 + 16;
      assert 2162862805 % 998244353 == 166374099;
    }
  }
}
