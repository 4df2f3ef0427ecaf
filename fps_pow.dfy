/**
 * Powers of a formal power series, for `pow_with`: a series with `i`
 * leading zeros raised to `n` has `i * n` leading zeros, a scalar factor
 * comes out as its `n`-th power, and the logarithm of `t^n` is `n log t`.
 */
module FpsPow {
  import opened NumberTheory
  import opened Ntt
  import opened NttInverse
  import opened NttMultiply
  import opened FpsSeries
  import opened FpsExp

  /** `A^n`, as an exact product (`[1]` for `n == 0`). */
  function SeriesPow(A: seq<int>, n: nat): (r: seq<int>)
    ensures |r| >= 1
  {
    if n == 0 then [1] else Mult(A, SeriesPow(A, n - 1))
  }

  /** The constant term of `A^n` is the `n`-th power of the constant term of `A`. */
  lemma {:induction false} SeriesPowConstant(A: seq<int>, n: nat)
    requires |A| >= 1
    ensures SeriesPow(A, n)[0] == Pow(A[0], n)
    decreases n
  {
    if n > 0 {
      SeriesPowConstant(A, n - 1);
      CoefMult(A, SeriesPow(A, n - 1), 0);
    }
  }

  /** `r` holds `f^power` below degree `d`, reduced modulo `p`. */
  ghost predicate IsPowerBelow(r: seq<int>, f: seq<int>, power: nat, d: nat, p: int)
    requires p > 0
  {
    |r| >= d && forall k :: 0 <= k < d ==> r[k] == Coef(SeriesPow(f, power), k) % p
  }

  /** `A` multiplied by `x^s`: `s` zeros in front. */
  function Shifted(A: seq<int>, s: nat): (r: seq<int>)
    ensures |r| == s + |A|
    ensures forall k: nat :: Coef(r, k) == if k < s then 0 else Coef(A, k - s)
  {
    seq(s, _ => 0) + A
  }

  /** The value of `A^n` at any point is the `n`-th power of the value of `A`. */
  lemma {:induction false} PolySeriesPow(A: seq<int>, n: nat, z: int)
    ensures Poly(SeriesPow(A, n), z) == Pow(Poly(A, z), n)
    decreases n
  {
    if n == 0 {
      assert Poly([1], z) == 1 + z * Poly([], z);
    } else {
      PolyMult(A, SeriesPow(A, n - 1), z);
      PolySeriesPow(A, n - 1, z);
    }
  }

  /** The value of `A` shifted by `s` is `z^s` times the value of `A`. */
  lemma {:induction false} PolyShifted(A: seq<int>, s: nat, z: int)
    ensures Poly(Shifted(A, s), z) == Pow(z, s) * Poly(A, z)
    decreases s
  {
    if s > 0 {
      var S := Shifted(A, s);
      assert S[0] == 0 && S[1..] == Shifted(A, s - 1);
      assert Poly(S, z) == S[0] + z * Poly(S[1..], z);
      PolyShifted(A, s - 1, z);
      MulAssociates(z, Pow(z, s - 1), Poly(A, z));
    } else {
      assert Shifted(A, s) == A;
    }
  }

  /** `(x^s A)^n == x^(s n) A^n`, coefficient by coefficient. */
  lemma PowerOfShifted(A: seq<int>, s: nat, n: nat)
    ensures forall k: nat :: Coef(SeriesPow(Shifted(A, s), n), k) == Coef(Shifted(SeriesPow(A, n), s * n), k)
  {
    forall z
      ensures Poly(SeriesPow(Shifted(A, s), n), z) == Poly(Shifted(SeriesPow(A, n), s * n), z)
    {
      PolySeriesPow(Shifted(A, s), n, z);
      PolyShifted(A, s, z);
      PowProduct(Pow(z, s), Poly(A, z), n);
      PowMul(z, s, n);
      PolyShifted(SeriesPow(A, n), s * n, z);
      PolySeriesPow(A, n, z);
    }
    ValuesDetermineCoefficients(SeriesPow(Shifted(A, s), n), Shifted(SeriesPow(A, n), s * n));
  }

  /** `(c A)^n == c^n A^n`, coefficient by coefficient. */
  lemma PowerOfScaled(A: seq<int>, c: int, n: nat)
    ensures forall k: nat :: Coef(SeriesPow(Lin([], c, A), n), k) == Pow(c, n) * Coef(SeriesPow(A, n), k)
  {
    forall z
      ensures Poly(SeriesPow(Lin([], c, A), n), z) == Poly(Lin([], Pow(c, n), SeriesPow(A, n)), z)
    {
      PolySeriesPow(Lin([], c, A), n, z);
      PolyLin([], c, A, z);
      PowProduct(c, Poly(A, z), n);
      PolyLin([], Pow(c, n), SeriesPow(A, n), z);
      PolySeriesPow(A, n, z);
    }
    ValuesDetermineCoefficients(SeriesPow(Lin([], c, A), n), Lin([], Pow(c, n), SeriesPow(A, n)));
  }

  /** Congruent series have congruent powers, below any degree. */
  lemma {:induction false} PowersAgree(A: seq<int>, B: seq<int>, n: nat, d: nat, p: int)
    requires Agree(A, B, d, p)
    ensures Agree(SeriesPow(A, n), SeriesPow(B, n), d, p)
    decreases n
  {
    if n > 0 {
      PowersAgree(A, B, n - 1, d, p);
      ProductsAgree(A, B, SeriesPow(A, n - 1), SeriesPow(B, n - 1), d, p);
    }
  }

  /** The product is commutative as a sequence. */
  lemma MultCommutes(A: seq<int>, B: seq<int>)
    ensures Mult(A, B) == Mult(B, A)
  {
    forall k | 0 <= k < |A| + |B|
      ensures Mult(A, B)[k] == Mult(B, A)[k]
    {
      CoefMult(A, B, k);
      CoefMult(B, A, k);
      ConvCommute(A, B, k);
    }
  }

  /** `A' B == LA' (A B)` at `k`, modulo `p`, when `A' == LA' A` below `d`. */
  lemma LogTermLeft(LA: seq<int>, A: seq<int>, B: seq<int>, d: nat, p: int, k: nat)
    requires p > 0 && k < d
    requires Agree(Mult(Deriv(LA), A), Deriv(A), d, p)
    ensures Conv(Deriv(A), B, k) % p == Conv(Deriv(LA), Mult(A, B), k) % p
  {
    AgreeSymmetric(Mult(Deriv(LA), A), Deriv(A), d, p);
    ConvAgreeLeft(Deriv(A), Mult(Deriv(LA), A), B, d, p, k);
    ConvAssociate(Deriv(LA), A, B, k);
  }

  /** `A B' == LB' (A B)` at `k`, modulo `p`, when `B' == LB' B` below `d`. */
  lemma LogTermRight(A: seq<int>, LB: seq<int>, B: seq<int>, d: nat, p: int, k: nat)
    requires p > 0 && k < d
    requires Agree(Mult(Deriv(LB), B), Deriv(B), d, p)
    ensures Conv(A, Deriv(B), k) % p == Conv(Deriv(LB), Mult(A, B), k) % p
  {
    AgreeSymmetric(Mult(Deriv(LB), B), Deriv(B), d, p);
    ConvAgreeRight(A, Deriv(B), Mult(Deriv(LB), B), d, p, k);
    ConvCommute(A, Mult(Deriv(LB), B), k);
    ConvAssociate(Deriv(LB), B, A, k);
    MultCommutes(B, A);
  }

  /** The derivative of a sum of logarithms, multiplied by `X`, is the sum of the products. */
  lemma DerivOfSum(LA: seq<int>, LB: seq<int>, X: seq<int>, k: nat)
    ensures Conv(Deriv(Lin(LA, 1, LB)), X, k) == Conv(Deriv(LA), X, k) + 1 * Conv(Deriv(LB), X, k)
  {
    forall j: nat | j <= k
      ensures Coef(Deriv(Lin(LA, 1, LB)), j) == Coef(Deriv(LA), j) + 1 * Coef(Deriv(LB), j)
    {
      DerivCoef(Lin(LA, 1, LB), j);
      DerivCoef(LA, j);
      DerivCoef(LB, j);
      Distribute(j + 1, Coef(LA, j + 1), 1, Coef(LB, j + 1));
    }
    ConvLinearLeft(Deriv(Lin(LA, 1, LB)), Deriv(LA), Deriv(LB), 1, X, k);
  }

  /** Coefficient `k` of `LogOfProduct`: the product rule, with each factor's logarithmic derivative. */
  lemma LogOfProductAt(LA: seq<int>, A: seq<int>, LB: seq<int>, B: seq<int>, d: nat, p: int, k: nat)
    requires p > 0 && k < d
    requires Agree(Mult(Deriv(LA), A), Deriv(A), d, p)
    requires Agree(Mult(Deriv(LB), B), Deriv(B), d, p)
    ensures Coef(Mult(Deriv(Lin(LA, 1, LB)), Mult(A, B)), k) % p == Coef(Deriv(Mult(A, B)), k) % p
  {
    var AB := Mult(A, B);
    DerivCoef(AB, k);
    CoefMult(A, B, k + 1);
    ProductRule(A, B, k);
    LogTermLeft(LA, A, B, d, p, k);
    LogTermRight(A, LB, B, d, p, k);
    DerivOfSum(LA, LB, AB, k);
    CoefMult(Deriv(Lin(LA, 1, LB)), AB, k);
    SumCongruent2(Conv(Deriv(A), B, k), Conv(A, Deriv(B), k),
                  Conv(Deriv(LA), AB, k), Conv(Deriv(LB), AB, k), p);
  }

  /** Logarithms add: if `LA` is a logarithm of `A` and `LB` of `B`, `LA + LB` is one of `A B`. */
  lemma LogOfProduct(LA: seq<int>, A: seq<int>, LB: seq<int>, B: seq<int>, d: nat, p: int)
    requires p > 0 && LogarithmExact(LA, A, d, p) && LogarithmExact(LB, B, d, p)
    ensures LogarithmExact(Lin(LA, 1, LB), Mult(A, B), d, p)
  {
    if d > 0 {
      forall k: nat | k < d - 1
        ensures Coef(Mult(Deriv(Lin(LA, 1, LB)), Mult(A, B)), k) % p == Coef(Deriv(Mult(A, B)), k) % p
      {
        LogOfProductAt(LA, A, LB, B, d - 1, p, k);
      }
    }
  }

  /** `n L` is a logarithm of `t^n` when `L` is one of `t`. */
  lemma {:induction false} LogOfPower(L: seq<int>, t: seq<int>, n: nat, d: nat, p: int)
    requires p > 0 && LogarithmExact(L, t, d, p)
    ensures LogarithmExact(Lin([], n, L), SeriesPow(t, n), d, p)
    decreases n
  {
    if n == 0 {
      if d > 0 {
        forall k: nat | k < d - 1
          ensures Coef(Mult(Deriv(Lin([], 0, L)), [1]), k) % p == Coef(Deriv([1]), k) % p
        {
          CoefMult(Deriv(Lin([], 0, L)), [1], k);
          ConvOne(Deriv(Lin([], 0, L)), k);
          DerivCoef(Lin([], 0, L), k);
          DerivCoef([1], k);
        }
      }
    } else {
      LogOfPower(L, t, n - 1, d, p);
      LogOfProduct(L, t, Lin([], n - 1, L), SeriesPow(t, n - 1), d, p);
      assert Lin(L, 1, Lin([], n - 1, L)) == Lin([], n, L) by {
        forall k | 0 <= k < |L|
          ensures Lin(L, 1, Lin([], n - 1, L))[k] == Lin([], n, L)[k]
        {
          assert Coef(Lin(L, 1, Lin([], n - 1, L)), k) == Coef(L, k) + 1 * ((n - 1) * Coef(L, k));
          assert Coef(Lin([], n, L), k) == 0 + n * Coef(L, k);
        }
      }
    }
  }

  /** A logarithm may be replaced by a congruent one. */
  lemma LogCongruent(r: seq<int>, r': seq<int>, f: seq<int>, d: nat, p: int)
    requires Agree(r, r', d, p) && LogarithmExact(r, f, d, p)
    ensures LogarithmExact(r', f, d, p)
  {
    if d > 0 {
      DerivAgree(r, r', d - 1, p);
      AgreeSymmetric(Deriv(r), Deriv(r'), d - 1, p);
      ProductsAgree(Deriv(r'), Deriv(r), f, f, d - 1, p);
      AgreeTransitive(Mult(Deriv(r'), f), Mult(Deriv(r), f), Deriv(f), d - 1, p);
    }
  }
}
