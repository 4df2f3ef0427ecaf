/**
 * The value-level theory behind `procon_fps`: a truncated power series is
 * its coefficient sequence, and two series agree below degree `d` when
 * their first `d` coefficients are congruent modulo `p`. Exact identities
 * between products are obtained by evaluation: two integer sequences with
 * the same polynomial value at every point have the same coefficients.
 */
module FpsSeries {
  import opened NumberTheory
  import opened Math
  import opened ModInt
  import opened Ntt
  import opened NttInverse
  import opened NttMultiply

  // ---------------------------------------------------------------------
  // Exact series arithmetic.

  /** The full product series: every coefficient of the convolution. */
  function Mult(A: seq<int>, B: seq<int>): (c: seq<int>)
    ensures |c| == |A| + |B|
  {
    ConvSeq(A, B, |A| + |B|)
  }

  lemma CoefMult(A: seq<int>, B: seq<int>, k: nat)
    ensures Coef(Mult(A, B), k) == Conv(A, B, k)
  {
    if k >= |A| + |B| {
      ConvBeyondDegree(A, B, k);
    }
  }

  lemma PolyMult(A: seq<int>, B: seq<int>, z: int)
    ensures Poly(Mult(A, B), z) == Poly(A, z) * Poly(B, z)
  {
    PolyConv(A, B, |A| + |B|, z);
  }

  /** `A + c B`, coefficient by coefficient. */
  function Lin(A: seq<int>, c: int, B: seq<int>): (r: seq<int>)
    ensures |r| == (if |A| < |B| then |B| else |A|)
    ensures forall k: nat :: Coef(r, k) == Coef(A, k) + c * Coef(B, k)
  {
    var n := if |A| < |B| then |B| else |A|;
    seq(n, k requires 0 <= k < n => Coef(A, k) + c * Coef(B, k))
  }

  lemma PolyLin(A: seq<int>, c: int, B: seq<int>, z: int)
    ensures Poly(Lin(A, c, B), z) == Poly(A, z) + c * Poly(B, z)
  {
    var S := Lin(A, c, B);
    var n := |S|;
    var PA, PB := Pad(A, n), Pad(B, n);
    var X := seq(n, k requires 0 <= k < n => c * PB[k]);
    assert forall k :: 0 <= k < n ==> S[k] == Coef(S, k);
    PolyAdd(PA, X, S, z);
    PolyScale(X, PB, c, z);
    PolyPad(A, n, z);
    PolyPad(B, n, z);
  }

  /** A bound on the absolute values of the entries. */
  function MaxAbs(D: seq<int>): (b: nat)
    ensures forall k :: 0 <= k < |D| ==> D[k] <= b && -D[k] <= b
    decreases |D|
  {
    if D == [] then 0
    else
      var r := MaxAbs(D[1..]);
      var a := if D[0] < 0 then -D[0] else D[0];
      assert forall k :: 1 <= k < |D| ==> D[k] == D[1..][k - 1];
      if a < r then r else a
  }

  /** A polynomial with small coefficients vanishes at a large point only if it is zero. */
  lemma {:induction false} PolyZeroAtLargePoint(D: seq<int>, B: int)
    requires B > 0 && forall k :: 0 <= k < |D| ==> -B < D[k] < B
    requires Poly(D, B) == 0
    ensures forall k :: 0 <= k < |D| ==> D[k] == 0
    decreases |D|
  {
    if D != [] {
      var Q := Poly(D[1..], B);
      assert D[0] + B * Q == 0;
      assert Q == 0;
      PolyZeroAtLargePoint(D[1..], B);
      forall k | 0 <= k < |D|
        ensures D[k] == 0
      {
        if k > 0 {
          assert D[k] == D[1..][k - 1];
        }
      }
    }
  }

  /** Equal values at every point mean equal coefficients. */
  lemma ValuesDetermineCoefficients(X: seq<int>, Y: seq<int>)
    requires forall z :: Poly(X, z) == Poly(Y, z)
    ensures forall k: nat :: Coef(X, k) == Coef(Y, k)
  {
    var D := Lin(X, -1, Y);
    var B := MaxAbs(D) + 1;
    PolyLin(X, -1, Y, B);
    PolyZeroAtLargePoint(D, B);
    forall k: nat
      ensures Coef(X, k) == Coef(Y, k)
    {
      assert Coef(D, k) == Coef(X, k) + -1 * Coef(Y, k);
    }
  }

  /** The product of series is commutative. */
  lemma ConvCommute(A: seq<int>, B: seq<int>, k: nat)
    ensures Conv(A, B, k) == Conv(B, A, k)
  {
    forall z
      ensures Poly(Mult(A, B), z) == Poly(Mult(B, A), z)
    {
      PolyMult(A, B, z);
      PolyMult(B, A, z);
    }
    ValuesDetermineCoefficients(Mult(A, B), Mult(B, A));
    CoefMult(A, B, k);
    CoefMult(B, A, k);
  }

  /** The product of series is associative. */
  lemma ConvAssociate(A: seq<int>, B: seq<int>, C: seq<int>, k: nat)
    ensures Conv(Mult(A, B), C, k) == Conv(A, Mult(B, C), k)
  {
    forall z
      ensures Poly(Mult(Mult(A, B), C), z) == Poly(Mult(A, Mult(B, C)), z)
    {
      PolyAssociate(A, B, C, z);
    }
    ValuesDetermineCoefficients(Mult(Mult(A, B), C), Mult(A, Mult(B, C)));
    CoefMult(Mult(A, B), C, k);
    CoefMult(A, Mult(B, C), k);
  }

  lemma PolyAssociate(A: seq<int>, B: seq<int>, C: seq<int>, z: int)
    ensures Poly(Mult(Mult(A, B), C), z) == Poly(Mult(A, Mult(B, C)), z)
  {
    PolyMult(Mult(A, B), C, z);
    PolyMult(A, B, z);
    PolyMult(A, Mult(B, C), z);
    PolyMult(B, C, z);
    MulAssociates(Poly(A, z), Poly(B, z), Poly(C, z));
  }

  lemma MulAssociates(a: int, b: int, c: int)
    ensures (a * b) * c == a * (b * c)
  {
  }

  // ---------------------------------------------------------------------
  // Agreement below a degree, modulo `p`.

  /** The first `d` coefficients of `A` and `B` are congruent modulo `p`. */
  ghost predicate Agree(A: seq<int>, B: seq<int>, d: nat, p: int)
  {
    p > 0 && forall k: nat :: k < d ==> Coef(A, k) % p == Coef(B, k) % p
  }

  /** The product below `d` sees only the second factor's coefficients below `d`. */
  lemma {:induction false} ConvAgreeRight(A: seq<int>, B: seq<int>, B': seq<int>, d: nat, p: int, k: nat)
    requires Agree(B, B', d, p) && k < d
    ensures Conv(A, B, k) % p == Conv(A, B', k) % p
    decreases |A|
  {
    if A != [] {
      CongruentProduct(A[0], A[0], Coef(B, k), Coef(B', k), p);
      if k == 0 {
        SumCongruent2(A[0] * Coef(B, k), 0, A[0] * Coef(B', k), 0, p);
      } else {
        ConvAgreeRight(A[1..], B, B', d, p, k - 1);
        SumCongruent2(A[0] * Coef(B, k), Conv(A[1..], B, k - 1), A[0] * Coef(B', k), Conv(A[1..], B', k - 1), p);
      }
    }
  }

  lemma ConvAgreeLeft(A: seq<int>, A': seq<int>, B: seq<int>, d: nat, p: int, k: nat)
    requires Agree(A, A', d, p) && k < d
    ensures Conv(A, B, k) % p == Conv(A', B, k) % p
  {
    ConvCommute(A, B, k);
    ConvCommute(A', B, k);
    ConvAgreeRight(B, A, A', d, p, k);
  }

  /** Agreement in both factors gives agreement of the products below `d`. */
  lemma ProductsAgree(A: seq<int>, A': seq<int>, B: seq<int>, B': seq<int>, d: nat, p: int)
    requires Agree(A, A', d, p) && Agree(B, B', d, p)
    ensures Agree(Mult(A, B), Mult(A', B'), d, p)
  {
    forall k: nat | k < d
      ensures Coef(Mult(A, B), k) % p == Coef(Mult(A', B'), k) % p
    {
      CoefMult(A, B, k);
      CoefMult(A', B', k);
      ConvAgreeLeft(A, A', B, d, p, k);
      ConvAgreeRight(A', B, B', d, p, k);
    }
  }

  /**
   * If `X` vanishes modulo `p` below `a` and `Y` below `b`, their product
   * vanishes below `a + b`.
   */
  lemma {:induction false} ConvVanish(X: seq<int>, Y: seq<int>, k: nat, a: nat, b: nat, p: int)
    requires p > 0 && k < a + b
    requires forall j: nat :: j < a ==> Coef(X, j) % p == 0
    requires forall j: nat :: j < b ==> Coef(Y, j) % p == 0
    ensures Conv(X, Y, k) % p == 0
    decreases |X|
  {
    if X != [] {
      if a > 0 {
        assert Coef(X, 0) == X[0];
        ProductVanishes(Coef(Y, k), X[0], p);
      } else {
        ProductVanishes(X[0], Coef(Y, k), p);
      }
      if k == 0 {
        SumCongruent2(X[0] * Coef(Y, k), 0, 0, 0, p);
      } else {
        var a' := if a > 0 then a - 1 else 0;
        forall j: nat | j < a'
          ensures Coef(X[1..], j) % p == 0
        {
          assert Coef(X[1..], j) == Coef(X, j + 1);
        }
        ConvVanish(X[1..], Y, k - 1, a', b, p);
        SumCongruent2(X[0] * Coef(Y, k), Conv(X[1..], Y, k - 1), 0, 0, p);
      }
    }
  }

  lemma DropMultiple(c: int, t: int, p: int)
    requires p > 0 && t % p == 0
    ensures (c - t) % p == c % p
  {
    ModSub(c, t, p);
    ModOfMod(c, p);
  }

  lemma CongruentDifference(x: int, y: int, p: int)
    requires p > 0 && x % p == y % p
    ensures (y - x) % p == 0
  {
    ModSub(y, x, p);
  }

  // ---------------------------------------------------------------------
  // Newton's iteration for the inverse.

  /** `2v - v v f`: one Newton step towards the inverse of `f`, before truncation. */
  function NewtonStep(v: seq<int>, f: seq<int>): seq<int>
  {
    Lin(Lin(v, 1, v), -1, Mult(Mult(v, v), f))
  }

  /** `1 - v f`: how far `v` is from an inverse of `f`. */
  function Residual(v: seq<int>, f: seq<int>): seq<int>
  {
    Lin([1], -1, Mult(v, f))
  }

  lemma NewtonArithmetic(a: int, b: int)
    ensures ((a + 1 * a) + -1 * ((a * a) * b)) * b == 1 + -1 * ((1 + -1 * (a * b)) * (1 + -1 * (a * b)))
  {
    assert ((a * a) * b) * b == (a * b) * (a * b);
  }

  /** `(2v - v v f) f == 1 - (1 - v f)^2`, exactly. */
  lemma NewtonExact(v: seq<int>, f: seq<int>, k: nat)
    ensures Conv(NewtonStep(v, f), f, k) == Coef([1], k) - Conv(Residual(v, f), Residual(v, f), k)
  {
    var N, e := NewtonStep(v, f), Residual(v, f);
    var R := Lin([1], -1, Mult(e, e));
    forall z
      ensures Poly(Mult(N, f), z) == Poly(R, z)
    {
      NewtonValues(v, f, z);
    }
    ValuesDetermineCoefficients(Mult(N, f), R);
    CoefMult(N, f, k);
    CoefMult(e, e, k);
  }

  lemma NewtonValues(v: seq<int>, f: seq<int>, z: int)
    ensures var e := Residual(v, f);
      Poly(Mult(NewtonStep(v, f), f), z) == Poly(Lin([1], -1, Mult(e, e)), z)
  {
    var N, e := NewtonStep(v, f), Residual(v, f);
    {
      var a, b := Poly(v, z), Poly(f, z);
      PolyMult(N, f, z);
      PolyLin(Lin(v, 1, v), -1, Mult(Mult(v, v), f), z);
      PolyLin(v, 1, v, z);
      PolyMult(Mult(v, v), f, z);
      PolyMult(v, v, z);
      PolyLin([1], -1, Mult(e, e), z);
      PolyMult(e, e, z);
      PolyLin([1], -1, Mult(v, f), z);
      PolyMult(v, f, z);
      assert Poly([1], z) == 1;
      NewtonArithmetic(a, b);
    }
  }

  /**
   * Newton's step doubles the precision: if `v f == 1` below `i`, any
   * `v'` agreeing with `2v - v v f` below `2i` has `v' f == 1` below `2i`.
   */
  lemma NewtonDoubles(v: seq<int>, v': seq<int>, f: seq<int>, i: nat, p: int)
    requires Agree(Mult(v, f), [1], i, p)
    requires Agree(v', NewtonStep(v, f), 2 * i, p)
    ensures Agree(Mult(v', f), [1], 2 * i, p)
  {
    var N, e := NewtonStep(v, f), Residual(v, f);
    forall j: nat | j < i
      ensures Coef(e, j) % p == 0
    {
      CoefMult(v, f, j);
      CongruentDifference(Conv(v, f, j), Coef([1], j), p);
    }
    forall k: nat | k < 2 * i
      ensures Coef(Mult(v', f), k) % p == Coef([1], k) % p
    {
      CoefMult(v', f, k);
      ConvAgreeLeft(v', N, f, 2 * i, p, k);
      NewtonExact(v, f, k);
      ConvVanish(e, e, k, i, i, p);
      DropMultiple(Coef([1], k), Conv(e, e, k), p);
    }
  }

  /** A product computed to `n >= |A| + |B|` entries agrees with the exact product everywhere. */
  lemma ProductAgrees(A: seq<int>, B: seq<int>, n: nat, p: int, d: nat)
    requires p > 0 && n >= |A| + |B|
    ensures Agree(Product(A, B, n, p), Mult(A, B), d, p)
  {
    forall k: nat | k < d
      ensures Coef(Product(A, B, n, p), k) % p == Coef(Mult(A, B), k) % p
    {
      CoefMult(A, B, k);
      if k < n {
        ModOfMod(Conv(A, B, k), p);
      } else {
        ConvBeyondDegree(A, B, k);
      }
    }
  }

  lemma StepResidue(s: int, a2: int, q: int, c: int, x: int, p: int)
    requires p > 0 && a2 == (c + c) % p && q % p == x % p && s == (a2 - q) % p
    ensures s % p == ((c + 1 * c) + -1 * x) % p
  {
    ModSub(a2, q, p);
    ModSub(c + c, x, p);
    ModOfMod(c + c, p);
    ModOfMod(a2 - q, p);
  }

  /**
   * One round of the loop of `inverse_with`, on the values the operators
   * compute: `va == v + v`, `vm` agrees with `v v`, `P` with `vm * head(f, 2i)`,
   * `S == va - P`, and `v' == head(S, 2i)`. If `v f == 1` below `i`, then
   * `v' f == 1` below `2i`.
   */
  lemma InverseRound(f: seq<int>, v: seq<int>, va: seq<int>, vm: seq<int>, P: seq<int>, S: seq<int>, v': seq<int>, i: nat, p: int)
    requires p > 0
    requires forall k: nat :: Coef(va, k) == (Coef(v, k) + Coef(v, k)) % p
    requires Agree(vm, Mult(v, v), 2 * i, p)
    requires Agree(P, Mult(vm, Head(f, 2 * i)), 2 * i, p)
    requires forall k: nat :: Coef(S, k) == (Coef(va, k) - Coef(P, k)) % p
    requires v' == Head(S, 2 * i)
    requires Agree(Mult(v, f), [1], i, p)
    ensures Agree(Mult(v', f), [1], 2 * i, p)
  {
    var M := Mult(Mult(v, v), f);
    ProductsAgree(vm, Mult(v, v), Head(f, 2 * i), f, 2 * i, p);
    forall k: nat | k < 2 * i
      ensures Coef(v', k) % p == Coef(NewtonStep(v, f), k) % p
    {
      assert Coef(P, k) % p == Coef(M, k) % p;
      StepResidue(Coef(S, k), Coef(va, k), Coef(P, k), Coef(v, k), Coef(M, k), p);
    }
    NewtonDoubles(v, v', f, i, p);
  }

  // ---------------------------------------------------------------------
  // The coefficient-level operations of `procon_fps`.

  /** `cut`: the series without its trailing zero coefficients. */
  function Trimmed(s: seq<int>): (t: seq<int>)
    ensures |t| <= |s| && t == s[..|t|]
    ensures t == [] || t[|t| - 1] != 0
    ensures forall k :: |t| <= k < |s| ==> s[k] == 0
    decreases |s|
  {
    if s != [] && s[|s| - 1] == 0 then Trimmed(s[..|s| - 1]) else s
  }

  lemma TrimmedCoef(s: seq<int>)
    ensures forall k: nat :: Coef(Trimmed(s), k) == Coef(s, k)
  {
  }

  /** `head(n)`: the first `n` coefficients, or all of them when there are fewer. */
  function Head(s: seq<int>, n: nat): (h: seq<int>)
    ensures |h| == (if n < |s| then n else |s|) && h == s[..|h|]
    ensures forall k: nat :: Coef(h, k) == if k < n then Coef(s, k) else 0
  {
    if n < |s| then s[..n] else s
  }

  /** `reversed`: the coefficients in the opposite order. */
  function Reversed(s: seq<int>): (r: seq<int>)
    ensures |r| == |s|
  {
    seq(|s|, k requires 0 <= k < |s| => s[|s| - 1 - k])
  }

  lemma ReversedTwice(s: seq<int>)
    ensures Reversed(Reversed(s)) == s
  {
    assert forall k :: 0 <= k < |s| ==> Reversed(Reversed(s))[k] == s[k];
  }

  /** Peeling the last coefficient off the first factor. */
  lemma {:induction false} ConvLast(A: seq<int>, B: seq<int>, K: nat)
    requires |A| >= 1
    ensures Conv(A, B, K) == Conv(A[..|A| - 1], B, K) + (if K >= |A| - 1 then A[|A| - 1] * Coef(B, K - (|A| - 1)) else 0)
    decreases |A|
  {
    var A' := A[..|A| - 1];
    if |A| > 1 {
      assert A'[0] == A[0] && A'[1..] == A[1..][..|A| - 2];
      if K > 0 {
        ConvLast(A[1..], B, K - 1);
      }
    } else {
      assert A' == [];
    }
  }

  /** Reversing both factors reverses their product. */
  lemma {:induction false} ConvReversed(A: seq<int>, B: seq<int>, t: nat)
    requires t + 2 <= |A| + |B|
    ensures Conv(Reversed(A), Reversed(B), t) == Conv(A, B, |A| + |B| - 2 - t)
    decreases |A|
  {
    if A != [] {
      var n, m := |A|, |B|;
      var A' := A[..n - 1];
      var K := n + m - 2 - t;
      assert Reversed(A)[0] == A[n - 1];
      assert Reversed(A)[1..] == Reversed(A');
      assert Coef(Reversed(B), t) == if t < m then Coef(B, m - 1 - t) else 0;
      ConvLast(A, B, K);
      if t == 0 {
        ConvBeyondDegree(A', B, K);
      } else {
        ConvReversed(A', B, t - 1);
      }
    }
  }

  /** `differential`: coefficient `i` is `(i + 1) a_(i+1)`. */
  function Derivative(s: seq<int>, p: int): (d: seq<int>)
    requires p > 0 && |s| >= 1
    ensures |d| == |s| - 1
    ensures Canonical(s, p) ==> forall i :: 0 <= i < |d| ==> d[i] == (s[i + 1] * (i + 1)) % p
  {
    seq(|s| - 1, i requires 0 <= i < |s| - 1 => Mul(s[i + 1], i + 1, p))
  }

  /** `integral`: constant term 0, coefficient `i + 1` is `a_i / (i + 1)`. */
  function Antiderivative(s: seq<int>, p: int): (r: seq<int>)
    requires p > 0
    ensures |r| == |s| + 1 && r[0] == 0
    ensures Canonical(s, p) ==> Canonical(r, p)
  {
    [0] + seq(|s|, i requires 0 <= i < |s| => Div(s[i], i + 1, p))
  }

  /** `differential(integral(f)) == f` while every `i + 1` is a unit. */
  lemma DerivativeOfIntegral(s: seq<int>, p: int)
    requires IsPrime(p) && Canonical(s, p) && |s| < p
    ensures Derivative(Antiderivative(s, p), p) == s
  {
    var I := Antiderivative(s, p);
    forall i | 0 <= i < |s|
      ensures Derivative(I, p)[i] == s[i]
    {
      ModSmall(i + 1, p);
      ModSmall(s[i], p);
      assert I[i + 1] == Div(s[i], i + 1, p);
    }
  }

  /** `integral(differential(f))` is `f` with its constant term cleared. */
  lemma IntegralOfDerivative(s: seq<int>, p: int)
    requires IsPrime(p) && Canonical(s, p) && 1 <= |s| <= p
    ensures Antiderivative(Derivative(s, p), p) == [0] + s[1..]
  {
    var D := Derivative(s, p);
    var A := Antiderivative(D, p);
    forall j | 0 <= j < |s|
      ensures A[j] == ([0] + s[1..])[j]
    {
      if j >= 1 {
        assert D[j - 1] == (s[j] * j) % p;
        DivideUnit(D[j - 1], j, s[j], p);
      }
    }
    assert |A| == |[0] + s[1..]|;
  }

  // ---------------------------------------------------------------------
  // `log_with` and the polynomial quotient.

  /** Multiplying by the series `1` changes nothing. */
  lemma ConvOne(A: seq<int>, k: nat)
    ensures Conv(A, [1], k) == Coef(A, k)
  {
    forall z
      ensures Poly(Mult(A, [1]), z) == Poly(A, z)
    {
      PolyMult(A, [1], z);
      assert Poly([1], z) == 1;
    }
    ValuesDetermineCoefficients(Mult(A, [1]), A);
    CoefMult(A, [1], k);
  }

  /** `(x * k) / k == x` for a canonical `x` and a unit `k`, as the integral's coefficient. */
  lemma DerivativeCoefficient(r: seq<int>, P: seq<int>, k: nat, p: int)
    requires IsPrime(p) && Canonical(P, p) && |P| < p && k + 1 < |r|
    requires r[k + 1] == Coef(Antiderivative(P, p), k + 1)
    ensures Mul(r[k + 1], k + 1, p) == Coef(P, k)
  {
    if k < |P| {
      ModSmall(k + 1, p);
      ModSmall(P[k], p);
    }
  }

  /**
   * `log_with(d)`: if `I f == 1` below `d` and `P` agrees with `f' I`, the
   * integral of `P` cut to `d` coefficients has a derivative `r'` with
   * `r' f == f'` below `d - 1`: the defining equation of `log f`.
   */
  lemma LogDerivative(f: seq<int>, I: seq<int>, P: seq<int>, r: seq<int>, d: nat, p: int)
    requires IsPrime(p) && |f| >= 1 && d >= 1
    requires Agree(Mult(I, f), [1], d, p)
    requires Canonical(P, p) && |P| < p && Agree(P, Mult(Derivative(f, p), I), d, p)
    requires r == Pad(Antiderivative(P, p), d)
    ensures Agree(Mult(Derivative(r, p), f), Derivative(f, p), d - 1, p)
  {
    var D, Dr := Derivative(f, p), Derivative(r, p);
    forall k: nat | k < d - 1
      ensures Coef(Dr, k) % p == Coef(P, k) % p
    {
      DerivativeCoefficient(r, P, k, p);
    }
    assert Agree(Dr, Mult(D, I), d - 1, p);
    forall k: nat | k < d - 1
      ensures Coef(Mult(Dr, f), k) % p == Coef(D, k) % p
    {
      ProductsAgree(Dr, Mult(D, I), f, f, d - 1, p);
      CoefMult(Mult(D, I), f, k);
      ConvAssociate(D, I, f, k);
      ConvAgreeRight(D, Mult(I, f), [1], d, p, k);
      ConvOne(D, k);
    }
  }

  /**
   * The quotient of `/`: with `IG` inverting `rev(g)` below `need` and `Q`
   * agreeing with `head(rev(F), need) * IG` below `need`, `q == rev(Q)`
   * satisfies `q g == F` on the top `need` coefficients, those of degree
   * `|g| - 1` to `|F| - 1`.
   */
  lemma QuotientTop(F: seq<int>, g: seq<int>, IG: seq<int>, Q: seq<int>, q: seq<int>, p: int)
    requires p > 0 && |g| >= 1 && |F| >= |g|
    requires Agree(Mult(IG, Reversed(g)), [1], |F| - |g| + 1, p)
    requires |Q| == |F| - |g| + 1 && Agree(Q, Mult(Head(Reversed(F), |F| - |g| + 1), IG), |F| - |g| + 1, p)
    requires q == Reversed(Q)
    ensures forall k: nat :: |g| - 1 <= k < |F| ==> Conv(q, g, k) % p == F[k] % p
  {
    var need := |F| - |g| + 1;
    var R := Head(Reversed(F), need);
    ReversedTwice(Q);
    forall k: nat | |g| - 1 <= k < |F|
      ensures Conv(q, g, k) % p == F[k] % p
    {
      var j := |F| - 1 - k;
      ConvReversed(q, g, j);
      ProductsAgree(Q, Mult(R, IG), Reversed(g), Reversed(g), need, p);
      CoefMult(Q, Reversed(g), j);
      CoefMult(Mult(R, IG), Reversed(g), j);
      ConvAssociate(R, IG, Reversed(g), j);
      ConvAgreeRight(R, Mult(IG, Reversed(g)), [1], need, p, j);
      ConvOne(R, j);
    }
  }

  /** A series whose coefficients vanish from `b` on is trimmed to at most `b` entries. */
  lemma TrimmedBelow(s: seq<int>, b: nat)
    requires forall k: nat :: b <= k ==> Coef(s, k) == 0
    ensures |Trimmed(s)| <= b
  {
    var t := Trimmed(s);
    assert t == [] || Coef(s, |t| - 1) == t[|t| - 1];
  }
}
