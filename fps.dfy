/**
 * `FormalPowerSeries` of `procon_fps`: a vector of residues modulo the
 * prime `p` of a `ModuloPrimitive` parameter, whose primitive root is `g`.
 * The `*Assign` operators update the vector in place; `differential`,
 * `integral`, `inverse_with`, `log_with`, `exp_with` and `pow_with`
 * build a new one.
 */
module Fps {
  import opened RustArith
  import opened NumberTheory
  import opened Math
  import opened ModInt
  import opened Ntt
  import opened NttInverse
  import opened NttMultiply
  import opened FpsSeries
  import opened FpsExp
  import opened FpsPow
  import opened Wrappers

  /**
   * The transform `multiply` uses for products of length at most `n` is
   * exact: `p` is a prime with `g` as a non-residue, and `p - 1` is
   * divisible by the power of two that `n` is rounded up to.
   */
  ghost predicate NttReady(p: int, g: int, n: nat)
  {
    NttPrime(p, g, NextPowerOfTwoExponent(n))
  }

  /**
   * `NttReadyBelow` for two shorter lengths at once, as an implication; the
   * modulus is then prime and the second length below it.
   */
  lemma NttReadyBelow2(p: int, g: int, n: nat, n1: nat, n2: nat)
    requires n1 <= n && n2 <= n
    ensures NttReady(p, g, n) ==> NttReady(p, g, n1) && NttReady(p, g, n2) && IsPrime(p) && n2 < p
  {
    if NttReady(p, g, n) {
      NttReadyBelowBounds(p, g, n, n1, n2);
    }
  }

  /** A prime that supports long transforms supports the shorter ones. */
  lemma NttPrimeBelow(p: int, g: int, L: nat, L': nat)
    requires NttPrime(p, g, L) && L' <= L
    ensures NttPrime(p, g, L')
  {
    Pow2Divides(L, L');
    DividesThrough(p - 1, Pow2(L'), Pow2(L - L'));
  }

  /** A multiple of `a * b` is a multiple of `a`. */
  lemma DividesThrough(x: int, a: int, b: int)
    requires a > 0 && b > 0 && x % (a * b) == 0
    ensures x % a == 0
  {
    var q := x / (a * b);
    assert x == (a * b) * q;
    MulAssociates(a, b, q);
    DivModUnique(x, a, b * q, 0);
  }

  /** Rounding up to a power of two is monotone. */
  lemma NextPowerOfTwoExponentMonotone(m: nat, m': nat)
    requires m <= m'
    ensures NextPowerOfTwoExponent(m) <= NextPowerOfTwoExponent(m')
  {
  }

  lemma NttReadyBelow(p: int, g: int, n: nat, n': nat)
    requires NttReady(p, g, n) && n' <= n
    ensures NttReady(p, g, n')
  {
    NextPowerOfTwoExponentMonotone(n', n);
    NttPrimeBelow(p, g, NextPowerOfTwoExponent(n), NextPowerOfTwoExponent(n'));
  }

  /**
   * The vector the series `+=` and `-=` build before `cut`: `a`, padded
   * with zeros to `b`'s length when shorter, with `b[i]` added to
   * (`sub == false`) or subtracted from entry `i`.
   */
  function Combine(a: seq<int>, b: seq<int>, p: int, sub: bool): (c: seq<int>)
    requires p > 0
    ensures |c| == if |b| > |a| then |b| else |a|
  {
    var n := if |b| > |a| then |b| else |a|;
    seq(n, k requires 0 <= k < n =>
      if k < |b| then (if sub then Sub(Coef(a, k), b[k], p) else Add(Coef(a, k), b[k], p)) else a[k])
  }

  /** On residues, every coefficient of the combination is the reduced sum or difference. */
  lemma CombineCoef(a: seq<int>, b: seq<int>, p: int, sub: bool)
    requires p > 0 && Canonical(a, p) && Canonical(b, p)
    ensures Canonical(Combine(a, b, p, sub), p)
    ensures forall k: nat ::
      Coef(Combine(a, b, p, sub), k) == (if sub then Coef(a, k) - Coef(b, k) else Coef(a, k) + Coef(b, k)) % p
  {
    var c := Combine(a, b, p, sub);
    forall k: nat
      ensures Coef(c, k) == (if sub then Coef(a, k) - Coef(b, k) else Coef(a, k) + Coef(b, k)) % p
    {
      if k < |b| {
      } else if k < |a| {
        ModSmall(a[k], p);
      }
    }
  }

  /** Subtracting the reduced product and adding the exact one returns to the start. */
  lemma RemainderArithmetic(a: int, c: int, p: int)
    requires p > 0
    ensures ((a - c % p) % p + c) % p == a % p
  {
    ModSub(a, c % p, p);
    ModOfMod(c, p);
    ModSub(a, c, p);
    ModAdd((a - c) % p, c, p);
    ModOfMod(a - c, p);
    ModAdd(a - c, c, p);
  }

  /** `StaticModInt` division by `1 / v` multiplies by `v`: the scalar `/=` as written. */
  lemma ScalarDivisionMultiplies(a: int, v: int, p: int)
    requires IsPrime(p) && 0 < v < p && 0 <= a < p
    ensures Div(a, DivFromInt(1, v, p), p) == (a * v) % p
  {
    var inv := DivFromInt(1, v, p);
    ModSmall(1, p);
    assert (inv * v) % p == 1;
    assert inv != 0;
    ModSmall(inv, p);
    ModSmall(a, p);
    var r := Div(a, inv, p);
    assert (r * inv) % p == a;
    ModMul(a * v, inv, p);
    ModMul(a, v * inv, p);
    ModSmall(1, p);
    assert (a * (v * inv)) % p == (a * ((v * inv) % p)) % p;
    MulAssociates(a, v, inv);
    assert (((a * v) % p) * inv) % p == a;
    UnitCancel(r, (a * v) % p, inv, p);
  }

  /** Multiplying by the inverse of `v` and then by `v` gives back the residue. */
  lemma ScalarDivisionRoundTrip(a: int, v: int, p: int)
    requires IsPrime(p) && 0 < v < p && 0 <= a < p
    ensures Mul(Mul(a, DivFromInt(1, v, p), p), v, p) == a
  {
    var inv := DivFromInt(1, v, p);
    ModSmall(1, p);
    assert (inv * v) % p == 1;
    var t := Mul(a, inv, p);
    assert t == (a * inv) % p;
    assert Mul(t, v, p) == (t * v) % p;
    ReducedProductOfThree(a, inv, v, p);
    assert (t * v) % p == (a * 1) % p;
    ModSmall(a, p);
  }

  /** Reducing after the first or after the second multiplication gives the same residue. */
  lemma ReducedProductOfThree(a: int, b: int, c: int, p: int)
    requires p > 0
    ensures (((a * b) % p) * c) % p == (a * ((b * c) % p)) % p
  {
    ModOfMod(a * b, p);
    CongruentProduct((a * b) % p, a * b, c, c, p);
    MulAssociates(a, b, c);
    ModOfMod(b * c, p);
    CongruentProduct(a, a, (b * c) % p, b * c, p);
  }

  /**
   * `[1] / 2` as written is `[2]` for every prime modulus above 3, and
   * `2 * 2 == 4` is not 1: the result is not the quotient, whereas the
   * corrected division gives a residue that times 2 is 1.
   */
  lemma ScalarDivisionExample(p: int)
    requires IsPrime(p) && p > 3
    ensures Div(1, DivFromInt(1, 2, p), p) == 2 && Mul(2, 2, p) == 4
    ensures Mul(Mul(1, DivFromInt(1, 2, p), p), 2, p) == 1
  {
    ScalarDivisionMultiplies(1, 2, p);
    ModSmall(2, p);
    ModSmall(4, p);
    ScalarDivisionRoundTrip(1, 2, p);
  }

  /** Negation as written: `v *= -1` keeps Rust's sign, giving `-a` rather than `p - a`. */
  lemma NegationAsWritten(a: int, p: int)
    requires p > 0 && 0 <= a < p
    ensures Mul(a, -1, p) == -a && (Mul(a, -1, p) + a) % p == 0
  {
    var r := Mul(a, -1, p);
    assert a * -1 == -a;
    NegatedResidue(a, p);
    assert -p < r + a < p;
    ModSub(r, -a, p);
    ModSmall(0, p);
    assert r - -a == r + a;
    ZeroResidue(r + a, p);
  }

  /** The residue of `-a` for `0 <= a < p`. */
  lemma NegatedResidue(a: int, p: int)
    requires p > 0 && 0 <= a < p
    ensures (-a) % p == if a == 0 then 0 else p - a
  {
    if a > 0 {
      DivModUnique(-a, p, -1, p - a);
    }
  }

  /** The only multiple of `p` strictly between `-p` and `p` is 0. */
  lemma ZeroResidue(t: int, p: int)
    requires p > 0 && -p < t < p && t % p == 0
    ensures t == 0
  {
    DivModUnique(t, p, if t < 0 then -1 else 0, if t < 0 then t + p else t);
  }

  /** The index of the first non-zero coefficient, or `|s|` when there is none. */
  function FirstNonZero(s: seq<int>): (i: nat)
    ensures i <= |s| && (i < |s| ==> s[i] != 0)
    ensures forall k :: 0 <= k < i ==> s[k] == 0
  {
    if s == [] || s[0] != 0 then 0 else 1 + FirstNonZero(s[1..])
  }

  /** One Newton round of `inverse_with`, from what the operators it calls promise. */
  lemma InverseRoundProducts(f: seq<int>, v: seq<int>, va: seq<int>, vm: seq<int>, P: seq<int>, S: seq<int>, v': seq<int>,
                             i: nat, d: nat, p: int, g: int)
    requires NttReady(p, g, 4 * d) && 1 <= i < d && |v| <= i && p > 0
    requires forall k: nat :: Coef(va, k) == (Coef(v, k) + Coef(v, k)) % p
    requires |vm| == |v| + |v| + 1
    requires NttReady(p, g, |v| + |v| + 1) ==> vm == Product(v, v, |v| + |v| + 1, p)
    requires NttReady(p, g, |vm| + |Head(f, 2 * i)| + 1) ==> P == Product(vm, Head(f, 2 * i), |vm| + |Head(f, 2 * i)| + 1, p)
    requires forall k: nat :: Coef(S, k) == (Coef(va, k) - Coef(P, k)) % p
    requires v' == Head(S, 2 * i)
    requires Agree(Mult(v, f), [1], i, p)
    ensures Agree(Mult(v', f), [1], 2 * i, p)
  {
    var h := Head(f, 2 * i);
    NttReadyBelowBounds(p, g, 4 * d, |v| + |v| + 1, |vm| + |h| + 1);
    InverseRoundExact(f, v, va, vm, P, S, v', i, p);
  }

  /** One Newton round of `inverse_with` once both products are exact. */
  lemma InverseRoundExact(f: seq<int>, v: seq<int>, va: seq<int>, vm: seq<int>, P: seq<int>, S: seq<int>, v': seq<int>,
                          i: nat, p: int)
    requires p > 0
    requires forall k: nat :: Coef(va, k) == (Coef(v, k) + Coef(v, k)) % p
    requires vm == Product(v, v, |v| + |v| + 1, p)
    requires P == Product(vm, Head(f, 2 * i), |vm| + |Head(f, 2 * i)| + 1, p)
    requires forall k: nat :: Coef(S, k) == (Coef(va, k) - Coef(P, k)) % p
    requires v' == Head(S, 2 * i)
    requires Agree(Mult(v, f), [1], i, p)
    ensures Agree(Mult(v', f), [1], 2 * i, p)
  {
    var h := Head(f, 2 * i);
    ProductAgrees(v, v, |v| + |v| + 1, p, 2 * i);
    ProductAgrees(vm, h, |vm| + |h| + 1, p, 2 * i);
    InverseRound(f, v, va, vm, P, S, v', i, p);
  }

  /** The first approximation `[1 / f_0]` inverts `f` below degree 1. */
  lemma InverseStart(f: seq<int>, v0: int, p: int)
    requires IsPrime(p) && Canonical(f, p) && |f| >= 1 && f[0] != 0 && v0 == Div(1, f[0], p)
    ensures Agree(Mult([v0], f), [1], 1, p)
  {
    ModSmall(f[0], p);
    ModSmall(1, p);
    assert Mul(v0, f[0], p) == 1;
    CoefMult([v0], f, 0);
    assert Conv([v0], f, 0) == v0 * f[0];
  }

  /** Resizing an inverse that is good below `i` to `d <= i` coefficients keeps it good below `d`. */
  lemma PadKeepsInverse(v: seq<int>, f: seq<int>, i: nat, d: nat, p: int)
    requires p > 0 && d <= i && Agree(Mult(v, f), [1], i, p)
    ensures Agree(Mult(Pad(v, d), f), [1], d, p)
  {
    ProductsAgree(Pad(v, d), v, f, f, d, p);
  }

  /** The reversed residues are residues. */
  lemma ReversedCanonical(s: seq<int>, p: int)
    requires Canonical(s, p)
    ensures Canonical(Reversed(s), p)
  {
    assert forall k :: 0 <= k < |s| ==> Reversed(s)[k] == s[|s| - 1 - k];
  }

  /** The product returned by `multiply`, cut to `n`, agrees with the exact product below `n`. */
  lemma HeadOfProduct(A: seq<int>, B: seq<int>, m: nat, n: nat, p: int)
    requires p > 0 && m >= |A| + |B| && n <= m
    ensures |Head(Product(A, B, m, p), n)| == n
    ensures Agree(Head(Product(A, B, m, p), n), Mult(A, B), n, p)
  {
    ProductAgrees(A, B, m, p, n);
  }

  /** One coefficient of `F - q v`: adding `q v` back gives `F` again modulo `p`. */
  lemma RemainderStep(r: int, f: int, w: int, p: int)
    requires p > 0 && r == (f - w % p) % p
    ensures (r + w) % p == f % p
  {
    RemainderArithmetic(f, w, p);
  }

  /** Adding `q v` back to `c == F - q v` gives `F` again, coefficient by coefficient. */
  lemma RemainderCongruent(G: seq<int>, F: seq<int>, v: seq<int>, q: seq<int>, P: seq<int>, c: seq<int>, p: int)
    requires p > 0
    requires forall k: nat :: Coef(F, k) == Coef(G, k)
    requires forall k: nat :: Coef(P, k) == Conv(q, v, k) % p
    requires forall k: nat :: Coef(c, k) == (Coef(F, k) - Coef(P, k)) % p
    ensures forall k: nat :: (Coef(c, k) + Conv(q, v, k)) % p == Coef(G, k) % p
  {
    forall k: nat
      ensures (Coef(c, k) + Conv(q, v, k)) % p == Coef(G, k) % p
    {
      RemainderStep(Coef(c, k), Coef(G, k), Conv(q, v, k), p);
    }
  }

  /** Every coefficient of the product `multiply` returns is the reduced convolution. */
  lemma ProductCoef(q: seq<int>, v: seq<int>, P: seq<int>, p: int)
    requires p > 0 && P == Product(q, v, |q| + |v| + 1, p)
    ensures forall k: nat :: Coef(P, k) == Conv(q, v, k) % p
  {
    ModSmall(0, p);
    forall k: nat
      ensures Coef(P, k) == Conv(q, v, k) % p
    {
      if k < |P| {
        assert Coef(P, k) == P[k];
      } else {
        ConvBeyondDegree(q, v, k);
      }
    }
  }

  /** Coefficient `k >= |v| - 1` of `F - q v` vanishes when `q v` matches `F` on the top coefficients. */
  lemma RemainderVanishes(F: seq<int>, v: seq<int>, q: seq<int>, c: seq<int>, p: int, k: nat)
    requires p > 0 && Canonical(F, p) && |v| >= 1 && |v| - 1 <= k
    requires Coef(c, k) == (Coef(F, k) - Conv(q, v, k) % p) % p
    requires |F| < |v| ==> q == []
    requires |F| >= |v| ==> |q| == |F| - |v| + 1 && (k < |F| ==> Conv(q, v, k) % p == F[k] % p)
    ensures Coef(c, k) == 0
  {
    ModSmall(0, p);
    if k < |F| {
      ModSmall(F[k], p);
      assert F[k] - F[k] % p == 0;
    } else {
      ConvBeyondDegree(q, v, k);
      assert Coef(F, k) - Conv(q, v, k) % p == 0;
    }
  }

  /**
   * `c` is the remainder of `G` divided by `v` with quotient `q`: it has
   * fewer coefficients than `v` and `c + q v == G` modulo `p`.
   */
  ghost predicate IsRemainder(c: seq<int>, G: seq<int>, q: seq<int>, v: seq<int>, p: int)
    requires p > 0
  {
    |c| < |v| && forall k: nat :: (Coef(c, k) + Conv(q, v, k)) % p == Coef(G, k) % p
  }

  /**
   * The remainder of `%=` is short: when `q v` matches `F` on the top
   * coefficients, `c == F - q v` has fewer coefficients than `v`.
   */
  lemma RemainderShort(F: seq<int>, v: seq<int>, q: seq<int>, P: seq<int>, c: seq<int>, p: int)
    requires p > 0 && Canonical(F, p) && |v| >= 1
    requires forall k: nat :: Coef(P, k) == Conv(q, v, k) % p
    requires forall k: nat :: Coef(c, k) == (Coef(F, k) - Coef(P, k)) % p
    requires c == [] || c[|c| - 1] != 0
    requires |F| < |v| ==> q == []
    requires |F| >= |v| ==> |q| == |F| - |v| + 1 && forall k: nat :: |v| - 1 <= k < |F| ==> Conv(q, v, k) % p == Coef(F, k) % p
    ensures |c| < |v|
  {
    if |c| >= |v| {
      var k := |c| - 1;
      assert Coef(c, k) == (Coef(F, k) - Conv(q, v, k) % p) % p;
      RemainderVanishes(F, v, q, c, p, k);
    }
  }

  /**
   * `%=` from the contracts of `cut`, `/`, `*` and `-`: when the transforms
   * of all three lengths are exact (`ready`, `readyQuotient`, `readyProduct`),
   * the remainder is shorter than `v` and equals `G - q v` coefficient-wise.
   */
  lemma RemainderProof(G: seq<int>, F: seq<int>, v: seq<int>, q: seq<int>, P: seq<int>, c: seq<int>, p: int,
                       ready: bool, readyQuotient: bool, readyProduct: bool)
    requires p > 0 && F == Trimmed(G) && Canonical(F, p) && |v| >= 1
    requires ready ==> readyQuotient && readyProduct
    requires |P| == |q| + |v| + 1
    requires readyProduct ==> P == Product(q, v, |q| + |v| + 1, p)
    requires forall k: nat :: Coef(c, k) == (Coef(F, k) - Coef(P, k)) % p
    requires c == [] || c[|c| - 1] != 0
    requires |Trimmed(F)| < |v| ==> q == []
    requires |Trimmed(F)| >= |v| ==> |q| == |Trimmed(F)| - |v| + 1
    requires readyQuotient ==> IsQuotient(q, v, F, p)
    ensures ready ==> IsRemainder(c, G, q, v, p)
  {
    if ready {
      assert Trimmed(F) == F;
      ProductCoef(q, v, P, p);
      RemainderShort(F, v, q, P, c, p);
      TrimmedCoef(G);
      RemainderCongruent(G, F, v, q, P, c, p);
    }
  }

  /** A length an exact transform covers is below the prime, and the modulus is prime. */
  lemma NttReadyBounds(p: int, g: int, n: nat)
    requires NttReady(p, g, n)
    ensures IsPrime(p) && n < p
  {
    var L := NextPowerOfTwoExponent(n);
    SizeBelowPrime(p, Pow2(L));
  }

  /** Two shorter lengths are covered too, and the second is below the prime. */
  lemma NttReadyBelowBounds(p: int, g: int, n: nat, n1: nat, n2: nat)
    requires NttReady(p, g, n) && n1 <= n && n2 <= n
    ensures NttReady(p, g, n1) && NttReady(p, g, n2) && IsPrime(p) && n2 < p
  {
    NttReadyBelow(p, g, n, n1);
    NttReadyBelow(p, g, n, n2);
    NttReadyBounds(p, g, n2);
  }

  /** `log_with` once the product is exact: `(f' / f)` integrated is a logarithm of `f`. */
  lemma LogWithCore(f: seq<int>, inv: seq<int>, P: seq<int>, r: seq<int>, d: nat, p: int)
    requires IsPrime(p) && d >= 1 && |f| >= 1 && |inv| == d
    requires Agree(Mult(inv, f), [1], d, p)
    requires P == Product(Derivative(f, p), inv, |f| + d, p) && |P| < p
    requires r == Pad(Antiderivative(P, p), d)
    ensures IsLogarithm(r, f, d, p)
  {
    ProductAgrees(Derivative(f, p), inv, |P|, p, d);
    LogDerivative(f, inv, P, r, d, p);
  }

  /** `log_with`, from what `differential`, `inverse_with`, `*` and `integral` promise. */
  lemma LogWithProof(f: seq<int>, df: seq<int>, inv: seq<int>, P: seq<int>, r: seq<int>, d: nat, p: int, g: int,
                     ready: bool, readyInverse: bool, readyProduct: bool)
    requires |f| >= 1 && p > 1
    requires ready ==> readyInverse && readyProduct
    requires df == Derivative(f, p) && |inv| == d
    requires readyInverse ==> Agree(Mult(inv, f), [1], |inv|, p)
    requires readyProduct ==> NttReady(p, g, |P|) && P == Product(df, inv, |df| + |inv| + 1, p)
    requires |P| == |df| + |inv| + 1
    requires r == Pad(Antiderivative(P, p), d)
    ensures ready ==> IsLogarithm(r, f, d, p)
  {
    if ready && d >= 1 {
      NttReadyBounds(p, g, |P|);
      LogWithCore(f, inv, P, r, d, p);
    }
  }

  /** A round of `exp_with` keeps the constant term 1. */
  lemma ExpRoundConstant(v: seq<int>, h: seq<int>, P: seq<int>, p: int)
    requires p > 1 && |v| >= 1 && v[0] == 1 && |h| >= 1 && h[0] == 1
    requires P == Product(v, h, |v| + |h| + 1, p)
    ensures |P| >= 1 && P[0] == 1
  {
    assert Conv(v, h, 0) == 1;
    ModSmall(1, p);
  }

  /** Before the first round of `exp_with`, `[1]` is an exponential below 1. */
  lemma ExpStart(f: seq<int>, p: int)
    requires p > 0 && |f| >= 1
    ensures IsLogarithm(f, [1], 1, p)
  {
  }

  /** The factor `(f.head(2i) - log v + 1).head(2i)` of a round, coefficient by coefficient. */
  lemma CorrectionCoefficients(f0: seq<int>, f: seq<int>, lg: seq<int>, d: seq<int>, e: seq<int>, h: seq<int>, i: nat, p: int)
    requires p > 1 && 1 <= i && |f0| >= 1 && f0[0] == 0 && |lg| >= 1 && lg[0] == 0
    requires f == Head(f0, 2 * i)
    requires forall k: nat :: Coef(d, k) == (Coef(f, k) - Coef(lg, k)) % p
    requires |e| >= 1 && e[0] == (Coef(d, 0) + 1) % p
    requires forall k: nat :: 0 < k ==> Coef(e, k) == Coef(d, k)
    requires h == Head(e, 2 * i)
    ensures |h| >= 1 && h[0] == 1
    ensures forall k: nat :: k < 2 * i ==> Coef(h, k) % p == (Coef(f0, k) - Coef(lg, k) + Coef([1], k)) % p
  {
    ModSmall(0, p);
    ModSmall(1, p);
    assert Coef(d, 0) == 0;
    forall k: nat | k < 2 * i
      ensures Coef(h, k) % p == (Coef(f0, k) - Coef(lg, k) + Coef([1], k)) % p
    {
      if k > 0 {
        ModOfMod(Coef(f0, k) - Coef(lg, k), p);
      }
    }
  }

  /** A round of `exp_with` once its products are exact, through `ExpRound`. */
  lemma ExpStepProof(f: seq<int>, v: seq<int>, lg: seq<int>, h: seq<int>, w: seq<int>, i: nat, degree: nat, p: int, g: int)
    requires NttReady(p, g, 12 * degree) && 1 <= i < degree
    requires |f| >= 1 && f[0] == 0 && |v| >= 1 && v[0] == 1 && |v| <= 4 * i
    requires |lg| == 2 * i && lg[0] == 0
    requires NttReady(p, g, 4 * (2 * i) + |v|) ==> IsLogarithm(lg, v, 2 * i, p)
    requires |h| >= 1 && h[0] == 1 && |h| <= 2 * i
    requires forall k: nat :: k < 2 * i ==> Coef(h, k) % p == (Coef(f, k) - Coef(lg, k) + Coef([1], k)) % p
    requires NttReady(p, g, |v| + |h| + 1) ==> w == Product(v, h, |v| + |h| + 1, p)
    ensures |w| >= 1 && w[0] == 1
    ensures IsLogarithm(f, v, i, p) ==> IsLogarithm(f, w, 2 * i, p)
  {
    NttReadyBelowBounds(p, g, 12 * degree, 4 * (2 * i) + |v|, |v| + |h| + 1);
    NttReadyBounds(p, g, 12 * degree);
    ExpRoundConstant(v, h, w, p);
    if IsLogarithm(f, v, i, p) {
      ModSmall(0, p);
      LogarithmIsExact(f, v, i, p);
      LogarithmIsExact(lg, v, 2 * i, p);
      ProductAgrees(v, h, |v| + |h| + 1, p, 2 * i);
      ExpRound(f, v, lg, h, w, i, p);
      LogarithmIsExact(f, w, 2 * i, p);
    }
  }

  /** The resize at the end of `exp_with` keeps an exponential below `i >= degree`. */
  lemma ExpFinish(f: seq<int>, v: seq<int>, i: nat, degree: nat, p: int)
    requires p > 0 && |f| >= 1 && |v| >= 1 && v[0] == 1 && 1 <= degree <= i
    requires IsLogarithm(f, v, i, p)
    ensures Pad(v, degree)[0] == 1 && IsLogarithm(f, Pad(v, degree), degree, p)
  {
    LogarithmIsExact(f, v, i, p);
    ExpPad(f, v, i, degree, p);
    LogarithmIsExact(f, Pad(v, degree), degree, p);
  }

  /** `power * lg` and `lg` scaled by `power % p` agree modulo `p`. */
  lemma ScaledLogarithm(lg: seq<int>, e: seq<int>, n: int, power: nat, d: nat, p: int)
    requires p > 0 && n == power % p && |e| == |lg|
    requires forall j :: 0 <= j < |e| ==> e[j] == (lg[j] * n) % p
    ensures Agree(Lin([], power, lg), e, d, p)
  {
    forall j: nat | j < d
      ensures Coef(Lin([], power, lg), j) % p == Coef(e, j) % p
    {
      if j < |e| {
        ModOfMod(power, p);
        CongruentProduct(power, n, Coef(lg, j), lg[j], p);
        ModOfMod(lg[j] * n, p);
      }
    }
  }

  /** `power * log t` scaled modulo `p` is still a logarithm of `t^power`. */
  lemma LogOfPowerScaled(t: seq<int>, lg: seq<int>, e: seq<int>, n: int, power: nat, d: nat, p: int)
    requires p > 0 && |t| >= 1 && |lg| >= 1 && |e| == |lg| && n == power % p
    requires IsLogarithm(lg, t, d, p)
    requires forall j :: 0 <= j < |e| ==> e[j] == (lg[j] * n) % p
    ensures IsLogarithm(e, SeriesPow(t, power), d, p)
  {
    LogarithmIsExact(lg, t, d, p);
    LogOfPower(lg, t, power, d, p);
    ScaledLogarithm(lg, e, n, power, d, p);
    LogCongruent(Lin([], power, lg), e, SeriesPow(t, power), d, p);
    LogarithmIsExact(e, SeriesPow(t, power), d, p);
  }

  /** The exponential `pow_with` takes is `t^power`, by uniqueness of the exponential. */
  lemma PowTailExp(t: seq<int>, lg: seq<int>, e: seq<int>, x: seq<int>, n: int, power: nat, d: nat, p: int)
    requires IsPrime(p) && d <= p && |t| >= 1 && t[0] == 1
    requires |lg| >= 1 && IsLogarithm(lg, t, d, p)
    requires |e| == |lg| && n == power % p && forall j :: 0 <= j < |e| ==> e[j] == (lg[j] * n) % p
    requires |x| >= 1 && x[0] == 1 && IsLogarithm(e, x, d, p)
    ensures Agree(x, SeriesPow(t, power), d, p)
  {
    LogOfPowerScaled(t, lg, e, n, power, d, p);
    SeriesPowConstant(t, power);
    PowOfOne(power);
    ExpUnique(e, x, SeriesPow(t, power), d, p);
  }

  /** Once the transforms are exact, the modulus is prime and `t[0]` is `k^2`. */
  lemma LowestTermFacts(f: seq<int>, t: seq<int>, k: int, i: nat, degree: int, p: int, g: int, ready: bool)
    requires p > 1 && i < |f| && |t| == |f| - i && degree >= 0 && 0 < k < p
    requires ready == NttReady(p, g, 12 * degree + |f|)
    requires IsPrime(p) ==> t[0] == (k * k) % p
    ensures ready ==> IsPrime(p) && t[0] == (k * k) % p && NttReady(p, g, 12 * degree + |t|)
  {
    if ready {
      NttReadyBelowBounds(p, g, 12 * degree + |f|, 12 * degree + |t|, 0);
    }
  }

  /** `PowTailExp`, from what `log_with` and `exp_with` promise. */
  lemma PowExponentialProof(t: seq<int>, lg: seq<int>, e: seq<int>, r: Option<seq<int>>, n: int, power: nat, degree: nat, p: int,
                            ready: bool, readyLog: bool, readyExp: bool)
    requires p > 1 && |t| >= 1 && t[0] == 1 && degree >= 1
    requires ready ==> readyLog && readyExp && IsPrime(p) && degree < p
    requires |lg| == degree && (readyLog ==> IsLogarithm(lg, t, degree, p))
    requires |e| == degree && n == power % p && forall j :: 0 <= j < |e| ==> e[j] == (lg[j] * n) % p
    requires readyExp ==> r.Some? && |r.value| == degree && r.value[0] == 1 && IsLogarithm(e, r.value, degree, p)
    ensures ready ==> r.Some? && Agree(r.value, SeriesPow(t, power), degree, p)
  {
    if ready {
      PowTailExp(t, lg, e, r.value, n, power, degree, p);
    }
  }

  /** The scaled, shifted exponential of `pow_with`, from its agreement with `T`. */
  lemma ScaledPowerTail(x: seq<int>, T: seq<int>, R: seq<int>, c: int, shift: nat, degree: nat, p: int)
    requires p > 0 && |x| == degree && Agree(x, T, degree, p) && |R| == degree
    requires forall k :: shift <= k < degree ==> R[k] == (x[k - shift] * c) % p
    ensures forall k :: shift <= k < degree ==> R[k] == (c * Coef(T, k - shift)) % p
  {
    forall k | shift <= k < degree
      ensures R[k] == (c * Coef(T, k - shift)) % p
    {
      var q := k - shift;
      assert Coef(x, q) % p == Coef(T, q) % p;
      CongruentProduct(x[q], Coef(T, q), c, c, p);
    }
  }

  /** The index the scan of `pow_with` stops at is the first non-zero term. */
  lemma {:induction false} FirstNonZeroIs(s: seq<int>, i: nat)
    requires i <= |s| && (i < |s| ==> s[i] != 0) && forall k :: 0 <= k < i ==> s[k] == 0
    ensures FirstNonZero(s) == i
    decreases i
  {
    if i > 0 {
      FirstNonZeroIs(s[1..], i - 1);
    }
  }

  /** A series whose first `i` terms are zero is its tail shifted by `i`. */
  lemma ShiftedTail(f: seq<int>, i: nat)
    requires i <= |f| && forall k :: 0 <= k < i ==> f[k] == 0
    ensures f == Shifted(f[i..], i)
  {
    assert forall k :: 0 <= k < |f| ==> f[k] == Shifted(f[i..], i)[k];
  }

  /** Below the shift, and past the end of the series, `f^power` has no terms. */
  lemma PowOfLowDegree(f: seq<int>, i: nat, power: nat, degree: nat, p: int)
    requires p > 0 && i <= |f| && forall k :: 0 <= k < i ==> f[k] == 0
    requires i == |f| || i * power >= degree
    requires i < |f| || power > 0
    ensures IsPowerBelow(seq(degree, _ => 0), f, power, degree, p)
  {
    var sh := f[i..];
    ShiftedTail(f, i);
    PowerOfShifted(sh, i, power);
    forall k | 0 <= k < degree
      ensures 0 == Coef(SeriesPow(f, power), k) % p
    {
      if i * power <= k {
        // only the all-zero series gets here, raised to a positive power
        assert sh == [] && power > 0;
        CoefMult([], SeriesPow([], power - 1), k - i * power);
      }
    }
  }

  /** A residue times `k`, then times `k` again, is itself when `k^2 == 1`. */
  lemma UnitSquare(a: int, k: int, p: int)
    requires p > 0 && (k * k) % p == 1 % p
    ensures (k * ((a * k) % p)) % p == a % p
  {
    ModOfMod(a * k, p);
    CongruentProduct(k, k, (a * k) % p, a * k, p);
    assert k * (a * k) == (k * k) * a;
    CongruentProduct(k * k, 1, a, a, p);
  }

  /** Multiplying by `k` undoes multiplying by `k` when `k^2 == 1`. */
  lemma ScaledBack(sh: seq<int>, t: seq<int>, k: int, d: nat, p: int)
    requires p > 1 && (k * k) % p == 1
    requires |t| == |sh| && forall j :: 0 <= j < |t| ==> t[j] == (sh[j] * k) % p
    ensures Agree(sh, Lin([], k, t), d, p)
  {
    ModSmall(1, p);
    forall j: nat | j < d
      ensures Coef(sh, j) % p == Coef(Lin([], k, t), j) % p
    {
      if j < |sh| {
        UnitSquare(sh[j], k, p);
      }
    }
  }

  /** The tail of `f`, scaled by `k` and raised to `power`: `k^power t^power`, modulo `p`. */
  lemma PowOfScaledTail(sh: seq<int>, t: seq<int>, k: int, power: nat, d: nat, p: int)
    requires p > 1 && (k * k) % p == 1
    requires |t| == |sh| && forall j :: 0 <= j < |t| ==> t[j] == (sh[j] * k) % p
    ensures forall q: nat :: q < d ==>
      Coef(SeriesPow(sh, power), q) % p == (Pow(k, power) * Coef(SeriesPow(t, power), q)) % p
  {
    ScaledBack(sh, t, k, d, p);
    PowersAgree(sh, Lin([], k, t), power, d, p);
    PowerOfScaled(t, k, power);
  }

  /**
   * `pow_with` after the lowest term: `f` is `x^i sh`, and `sh` is `k t`
   * because `t == k sh` and `k^2 == 1`; so `f^power` is `x^(i power) k^power t^power`.
   */
  lemma PowFromLowestProof(f: seq<int>, sh: seq<int>, t: seq<int>, k: int, c: int, i: nat, power: nat,
                           degree: nat, R: seq<int>, p: int)
    requires p > 1 && i < |f| && f[i] == k && forall j :: 0 <= j < i ==> f[j] == 0
    requires |sh| == |f| - i && forall j :: 0 <= j < |sh| ==> sh[j] == f[j + i]
    requires |t| == |sh| && forall j :: 0 <= j < |t| ==> t[j] == (sh[j] * k) % p
    requires t[0] == 1 && c % p == Pow(k, power) % p
    requires |R| == degree && forall j :: 0 <= j < degree && j < i * power ==> R[j] == 0
    requires forall j :: i * power <= j < degree ==> R[j] == (c * Coef(SeriesPow(t, power), j - i * power)) % p
    ensures IsPowerBelow(R, f, power, degree, p)
  {
    assert sh == f[i..];
    ShiftedTail(f, i);
    PowerOfShifted(sh, i, power);
    ModSmall(1, p);
    PowOfScaledTail(sh, t, k, power, degree, p);
    forall j | 0 <= j < degree
      ensures R[j] == Coef(SeriesPow(f, power), j) % p
    {
      if i * power <= j {
        var q := j - i * power;
        CongruentProduct(c, Pow(k, power), Coef(SeriesPow(t, power), q), Coef(SeriesPow(t, power), q), p);
      }
    }
  }

  /**
   * `q` is the quotient of `f` by `v`: `q v` agrees with `f` from
   * coefficient `|v| - 1` up to the degree of `f`, modulo `p`.
   */
  ghost predicate IsQuotient(q: seq<int>, v: seq<int>, f: seq<int>, p: int)
    requires p > 0
  {
    forall k: nat :: |v| - 1 <= k < |Trimmed(f)| ==> Conv(q, v, k) % p == Coef(f, k) % p
  }

  /** `/=`, from what `inverse_with` and `*` promise, through `QuotientTop`. */
  lemma QuotientProof(F: seq<int>, v: seq<int>, ig: seq<int>, R: seq<int>, P: seq<int>, q: seq<int>, f: seq<int>, p: int,
                      ready: bool, readyInverse: bool, readyProduct: bool)
    requires F == Trimmed(f) && |F| >= |v| >= 1 && p > 0
    requires ready ==> readyInverse && readyProduct
    requires |ig| == |F| - |v| + 1 && R == Head(Reversed(F), |ig|)
    requires readyInverse ==> Agree(Mult(ig, Reversed(v)), [1], |ig|, p)
    requires readyProduct ==> P == Product(R, ig, |R| + |ig| + 1, p)
    requires q == Reversed(Head(P, |ig|))
    ensures ready ==> IsQuotient(q, v, f, p)
  {
    if ready {
      QuotientExact(F, v, ig, P, q, p);
      QuotientOfTrimmed(F, f, q, v, p);
    }
  }

  /** A quotient of the trimmed series is a quotient of the series. */
  lemma QuotientOfTrimmed(F: seq<int>, f: seq<int>, q: seq<int>, v: seq<int>, p: int)
    requires p > 0 && F == Trimmed(f)
    requires forall k: nat :: |v| - 1 <= k < |F| ==> Conv(q, v, k) % p == F[k] % p
    ensures IsQuotient(q, v, f, p)
  {
    TrimmedCoef(f);
    forall k: nat | |v| - 1 <= k < |F|
      ensures Conv(q, v, k) % p == Coef(f, k) % p
    {
      assert Coef(F, k) == F[k];
    }
  }

  /** `/=` once the inverse and the product are exact. */
  lemma QuotientExact(F: seq<int>, v: seq<int>, ig: seq<int>, P: seq<int>, q: seq<int>, p: int)
    requires |F| >= |v| >= 1 && p > 0 && |ig| == |F| - |v| + 1
    requires Agree(Mult(ig, Reversed(v)), [1], |ig|, p)
    requires P == Product(Head(Reversed(F), |ig|), ig, |Head(Reversed(F), |ig|)| + |ig| + 1, p)
    requires q == Reversed(Head(P, |ig|))
    ensures forall k: nat :: |v| - 1 <= k < |F| ==> Conv(q, v, k) % p == F[k] % p
  {
    var need := |ig|;
    var R := Head(Reversed(F), need);
    HeadOfProduct(R, ig, |R| + need + 1, need, p);
    QuotientTop(F, v, ig, Head(P, need), q, p);
  }

  class FormalPowerSeries {
    const p: int
    const g: int
    var coef: seq<int>

    ghost predicate Valid()
    {
      p > 1 && 0 < g < p
    }

    /** `From<Vec<StaticModInt<M>>>`: the given residues. */
    constructor (p: int, g: int, v: seq<int>)
      requires p > 1 && 0 < g < p
      ensures Valid() && this.p == p && this.g == g && coef == v
    {
      this.p, this.g, coef := p, g, v;
    }

    /** `new(size)`: `size` zero coefficients. */
    constructor New(p: int, g: int, size: nat)
      requires p > 1 && 0 < g < p
      ensures Valid() && this.p == p && this.g == g
      ensures |coef| == size && forall k :: 0 <= k < size ==> coef[k] == 0
    {
      this.p, this.g, coef := p, g, seq(size, _ => 0);
    }

    /** `from_vec`: every integer reduced with `StaticModInt::new`. */
    constructor FromVec(p: int, g: int, v: seq<int>)
      requires p > 1 && 0 < g < p
      ensures Valid() && this.p == p && this.g == g
      ensures |coef| == |v| && Canonical(coef, p)
      ensures forall i :: 0 <= i < |v| ==> coef[i] == v[i] % p
    {
      var r := Reduced(v, p);
      forall i | 0 <= i < |v|
        ensures r[i] == v[i] % p
      {
        ModSmall(r[i], p);
      }
      this.p, this.g, coef := p, g, r;
    }

    /** `cut`: pops trailing zero coefficients. */
    method Cut()
      modifies this
      ensures coef == Trimmed(old(coef))
    {
      while coef != [] && coef[|coef| - 1] == 0
        invariant Trimmed(coef) == Trimmed(old(coef))
        decreases |coef|
      {
        coef := coef[..|coef| - 1];
      }
    }

    /** `+= v` for a scalar: the constant term, after growing an empty series to `[0]`. */
    method AddScalar(v: int)
      requires Valid()
      modifies this
      ensures |coef| == (if old(coef) == [] then 1 else |old(coef)|)
      ensures coef[0] == Add(Coef(old(coef), 0), v, p)
      ensures forall k: nat :: 0 < k ==> Coef(coef, k) == Coef(old(coef), k)
      ensures Canonical(old(coef), p) && 0 <= v ==> Canonical(coef, p) && coef[0] == (Coef(old(coef), 0) + v) % p
    {
      if coef == [] {
        coef := [0];
      }
      coef := coef[0 := Add(coef[0], v, p)];
    }

    /** `-= v` for a scalar: the constant term, after growing an empty series to `[0]`. */
    method SubScalar(v: int)
      requires Valid()
      modifies this
      ensures |coef| == (if old(coef) == [] then 1 else |old(coef)|)
      ensures coef[0] == Sub(Coef(old(coef), 0), v, p)
      ensures forall k: nat :: 0 < k ==> Coef(coef, k) == Coef(old(coef), k)
      ensures Canonical(old(coef), p) && 0 <= v ==> Canonical(coef, p) && coef[0] == (Coef(old(coef), 0) - v) % p
    {
      if coef == [] {
        coef := [0];
      }
      coef := coef[0 := Sub(coef[0], v, p)];
    }

    /** The shared loop of the series `+=` and `-=`, before `cut`. */
    method CombineWith(v: seq<int>, sub: bool)
      requires Valid()
      modifies this
      ensures coef == Combine(old(coef), v, p, sub)
    {
      if |v| > |coef| {
        coef := coef + seq(|v| - |coef|, _ => 0);
      }
      ghost var a := coef;
      for i := 0 to |v|
        invariant |coef| == |a|
        invariant forall k :: 0 <= k < |a| ==> coef[k] == if k < i then Combine(old(coef), v, p, sub)[k] else a[k]
      {
        coef := coef[i := if sub then Sub(coef[i], v[i], p) else Add(coef[i], v[i], p)];
      }
    }

    /** `+= v` for a series: coefficient-wise sum, then `cut`. */
    method AddAssign(v: seq<int>)
      requires Valid()
      modifies this
      ensures coef == Trimmed(Combine(old(coef), v, p, false))
      ensures Canonical(old(coef), p) && Canonical(v, p) ==>
        Canonical(coef, p) && (coef == [] || coef[|coef| - 1] != 0) &&
        forall k: nat :: Coef(coef, k) == (Coef(old(coef), k) + Coef(v, k)) % p
    {
      ghost var a := coef;
      CombineWith(v, false);
      Cut();
      if Canonical(a, p) && Canonical(v, p) {
        CombineCoef(a, v, p, false);
        TrimmedCoef(Combine(a, v, p, false));
      }
    }

    /** `-= v` for a series: coefficient-wise difference, then `cut`. */
    method SubAssign(v: seq<int>)
      requires Valid()
      modifies this
      ensures coef == Trimmed(Combine(old(coef), v, p, true))
      ensures Canonical(old(coef), p) && Canonical(v, p) ==>
        Canonical(coef, p) && (coef == [] || coef[|coef| - 1] != 0) &&
        forall k: nat :: Coef(coef, k) == (Coef(old(coef), k) - Coef(v, k)) % p
    {
      ghost var a := coef;
      CombineWith(v, true);
      Cut();
      if Canonical(a, p) && Canonical(v, p) {
        CombineCoef(a, v, p, true);
        TrimmedCoef(Combine(a, v, p, true));
      }
    }

    /** `*= v` for a scalar: every coefficient times `v`. */
    method MulScalar(v: int)
      requires Valid()
      modifies this
      ensures |coef| == |old(coef)| && forall i :: 0 <= i < |coef| ==> coef[i] == Mul(old(coef)[i], v, p)
      ensures Canonical(old(coef), p) && 0 <= v ==>
        Canonical(coef, p) && forall i :: 0 <= i < |coef| ==> coef[i] == (old(coef)[i] * v) % p
    {
      for i := 0 to |coef|
        invariant |coef| == |old(coef)|
        invariant forall k :: 0 <= k < |coef| ==> coef[k] == if k < i then Mul(old(coef)[k], v, p) else old(coef)[k]
      {
        coef := coef[i := Mul(coef[i], v, p)];
      }
    }

    /** `*= v` for a series: the product from the number-theoretic transform. */
    method MulAssign(v: seq<int>)
      requires Valid() && Canonical(coef, p) && Canonical(v, p)
      modifies this
      ensures |coef| == |old(coef)| + |v| + 1 && Canonical(coef, p)
      ensures NttReady(p, g, |old(coef)| + |v| + 1) ==> coef == Product(old(coef), v, |coef|, p)
    {
      coef := Multiply(coef, v, p, g);
    }

    /**
     * `/= v` for a scalar, as written: `inv = 1 / v`, then every coefficient
     * is divided by `inv`, which multiplies it by `v`.
     */
    method DivScalar(v: int)
      requires Valid()
      modifies this
      ensures |coef| == |old(coef)|
      ensures forall i :: 0 <= i < |coef| ==> coef[i] == Div(old(coef)[i], DivFromInt(1, v, p), p)
      ensures IsPrime(p) && 0 < v < p && Canonical(old(coef), p) ==>
        forall i :: 0 <= i < |coef| ==> coef[i] == (old(coef)[i] * v) % p
    {
      var inv := DivFromInt(1, v, p);
      for i := 0 to |coef|
        invariant |coef| == |old(coef)|
        invariant forall k :: 0 <= k < |coef| ==> coef[k] == if k < i then Div(old(coef)[k], inv, p) else old(coef)[k]
      {
        coef := coef[i := Div(coef[i], inv, p)];
      }
      if IsPrime(p) && 0 < v < p && Canonical(old(coef), p) {
        forall i | 0 <= i < |coef|
          ensures coef[i] == (old(coef)[i] * v) % p
        {
          ScalarDivisionMultiplies(old(coef)[i], v, p);
        }
      }
    }

    /**
     * `/= v` for a scalar, corrected: every coefficient is multiplied by
     * `inv = 1 / v`, so multiplying the result by `v` gives the series back.
     */
    method DivScalarCorrected(v: int)
      requires Valid()
      modifies this
      ensures |coef| == |old(coef)|
      ensures forall i :: 0 <= i < |coef| ==> coef[i] == Mul(old(coef)[i], DivFromInt(1, v, p), p)
      ensures IsPrime(p) && 0 < v < p && Canonical(old(coef), p) ==>
        Canonical(coef, p) && forall i :: 0 <= i < |coef| ==> Mul(coef[i], v, p) == old(coef)[i]
    {
      var inv := DivFromInt(1, v, p);
      for i := 0 to |coef|
        invariant |coef| == |old(coef)|
        invariant forall k :: 0 <= k < |coef| ==> coef[k] == if k < i then Mul(old(coef)[k], inv, p) else old(coef)[k]
      {
        coef := coef[i := Mul(coef[i], inv, p)];
      }
      if IsPrime(p) && 0 < v < p && Canonical(old(coef), p) {
        forall i | 0 <= i < |coef|
          ensures Mul(coef[i], v, p) == old(coef)[i]
        {
          ScalarDivisionRoundTrip(old(coef)[i], v, p);
        }
      }
    }

    /** `neg`: every coefficient multiplied by `-1`, a negative representative of the additive inverse. */
    method Negate()
      requires Valid()
      modifies this
      ensures |coef| == |old(coef)| && forall i :: 0 <= i < |coef| ==> coef[i] == Mul(old(coef)[i], -1, p)
      ensures Canonical(old(coef), p) ==>
        forall i :: 0 <= i < |coef| ==> coef[i] == -old(coef)[i] && (coef[i] + old(coef)[i]) % p == 0
    {
      for i := 0 to |coef|
        invariant |coef| == |old(coef)|
        invariant forall k :: 0 <= k < |coef| ==> coef[k] == if k < i then Mul(old(coef)[k], -1, p) else old(coef)[k]
      {
        coef := coef[i := Mul(coef[i], -1, p)];
      }
      if Canonical(old(coef), p) {
        forall i | 0 <= i < |coef|
          ensures coef[i] == -old(coef)[i] && (coef[i] + old(coef)[i]) % p == 0
        {
          NegationAsWritten(old(coef)[i], p);
        }
      }
    }

    /** `<<= n`: `n` zeros in front, the series times `x^n`. */
    method ShlAssign(n: nat)
      modifies this
      ensures |coef| == |old(coef)| + n
      ensures forall k :: 0 <= k < n ==> coef[k] == 0
      ensures forall k: nat :: Coef(coef, k + n) == Coef(old(coef), k)
    {
      coef := seq(n, _ => 0) + coef;
    }

    /** `>>= n`: drops the first `n` coefficients, the series divided by `x^n`. */
    method ShrAssign(n: nat)
      requires n <= |coef|
      modifies this
      ensures |coef| == |old(coef)| - n
      ensures forall k: nat :: Coef(coef, k) == Coef(old(coef), k + n)
    {
      coef := coef[n..];
    }

    /** `<<= n` followed by `>>= n` leaves the series as it was. */
    method ShiftRoundTrip(n: nat)
      modifies this
      ensures coef == old(coef)
    {
      ShlAssign(n);
      ShrAssign(n);
      assert forall k :: 0 <= k < |coef| ==> coef[k] == Coef(coef, k) == Coef(old(coef), k);
    }

    /** `differential`: coefficient `i - 1` of the result is `a_i * i`. */
    method Differential() returns (r: seq<int>)
      requires Valid() && |coef| >= 1
      ensures r == Derivative(coef, p)
    {
      var n := |coef|;
      r := seq(n - 1, _ => 0);
      for i := 1 to n
        invariant |r| == n - 1
        invariant forall k :: 0 <= k < i - 1 ==> r[k] == Mul(coef[k + 1], k + 1, p)
      {
        r := r[i - 1 := Mul(coef[i], i, p)];
      }
    }

    /** `integral`: coefficient `i + 1` of the result is `a_i / (i + 1)`. */
    method Integral() returns (r: seq<int>)
      requires Valid()
      ensures r == Antiderivative(coef, p)
    {
      var n := |coef|;
      r := seq(n + 1, _ => 0);
      for i := 0 to n
        invariant |r| == n + 1 && r[0] == 0
        invariant forall k :: 0 <= k < i ==> r[k + 1] == Div(coef[k], k + 1, p)
      {
        r := r[i + 1 := Div(coef[i], i + 1, p)];
      }
    }

    /** `a + b` for series (`impl_op!`): `+=` on the moved left operand. */
    method Plus(a: seq<int>, b: seq<int>) returns (c: seq<int>)
      requires Valid() && Canonical(a, p) && Canonical(b, p)
      ensures Canonical(c, p) && (c == [] || c[|c| - 1] != 0)
      ensures forall k: nat :: Coef(c, k) == (Coef(a, k) + Coef(b, k)) % p
    {
      var s := new FormalPowerSeries(p, g, a);
      s.AddAssign(b);
      c := s.coef;
    }

    /** `a + v` for a scalar `v` (`impl_op!`): `+=` on the moved left operand. */
    method PlusScalar(a: seq<int>, v: int) returns (c: seq<int>)
      requires Valid()
      ensures |c| == (if a == [] then 1 else |a|)
      ensures forall k: nat :: 0 < k ==> Coef(c, k) == Coef(a, k)
      ensures Canonical(a, p) && 0 <= v ==> Canonical(c, p) && c[0] == (Coef(a, 0) + v) % p
    {
      var s := new FormalPowerSeries(p, g, a);
      s.AddScalar(v);
      c := s.coef;
    }

    /** `a * v` for a scalar `v` (`impl_op!`): `*=` on the moved left operand. */
    method TimesScalar(a: seq<int>, v: int) returns (c: seq<int>)
      requires Valid()
      ensures |c| == |a| && forall i :: 0 <= i < |c| ==> c[i] == Mul(a[i], v, p)
      ensures Canonical(a, p) && 0 <= v ==>
        Canonical(c, p) && forall i :: 0 <= i < |c| ==> c[i] == (a[i] * v) % p
    {
      var s := new FormalPowerSeries(p, g, a);
      s.MulScalar(v);
      c := s.coef;
    }

    /** `a / v` for a scalar `v` (`impl_op!`): `/=` as written, which multiplies by `v`. */
    method QuotientScalar(a: seq<int>, v: int) returns (c: seq<int>)
      requires Valid()
      ensures |c| == |a| && forall i :: 0 <= i < |c| ==> c[i] == Div(a[i], DivFromInt(1, v, p), p)
      ensures Canonical(a, p) && 0 <= v ==> Canonical(c, p)
      ensures IsPrime(p) && 0 < v < p && Canonical(a, p) ==>
        forall i :: 0 <= i < |c| ==> c[i] == (a[i] * v) % p
    {
      var s := new FormalPowerSeries(p, g, a);
      s.DivScalar(v);
      c := s.coef;
    }

    /** `a << n` (`impl_op!`): `<<=` on the moved operand. */
    method ShiftLeft(a: seq<int>, n: nat) returns (c: seq<int>)
      requires Valid()
      ensures |c| == |a| + n
      ensures forall k :: 0 <= k < n ==> c[k] == 0
      ensures forall k: nat :: Coef(c, k + n) == Coef(a, k)
      ensures forall k :: n <= k < |c| ==> c[k] == a[k - n]
    {
      var s := new FormalPowerSeries(p, g, a);
      s.ShlAssign(n);
      c := s.coef;
      forall k | n <= k < |c|
        ensures c[k] == a[k - n]
      {
        assert Coef(c, (k - n) + n) == Coef(a, k - n);
      }
    }

    /** `a >> n` (`impl_op!`): `>>=` on the moved operand. */
    method ShiftRight(a: seq<int>, n: nat) returns (c: seq<int>)
      requires Valid() && n <= |a|
      ensures |c| == |a| - n
      ensures forall k: nat :: Coef(c, k) == Coef(a, k + n)
      ensures forall k :: 0 <= k < |c| ==> c[k] == a[k + n]
      ensures Canonical(a, p) ==> Canonical(c, p)
    {
      var s := new FormalPowerSeries(p, g, a);
      s.ShrAssign(n);
      c := s.coef;
      forall k | 0 <= k < |c|
        ensures c[k] == a[k + n]
      {
        assert Coef(c, k) == Coef(a, k + n);
      }
    }

    /** `a - b` for series (`impl_op!`): `-=` on the moved left operand. */
    method Minus(a: seq<int>, b: seq<int>) returns (c: seq<int>)
      requires Valid() && Canonical(a, p) && Canonical(b, p)
      ensures Canonical(c, p) && (c == [] || c[|c| - 1] != 0)
      ensures forall k: nat :: Coef(c, k) == (Coef(a, k) - Coef(b, k)) % p
    {
      var s := new FormalPowerSeries(p, g, a);
      s.SubAssign(b);
      c := s.coef;
    }

    /** `a * b` for series (`impl_op!`): `*=` on the moved left operand. */
    method Times(a: seq<int>, b: seq<int>) returns (c: seq<int>)
      requires Valid() && Canonical(a, p) && Canonical(b, p)
      ensures |c| == |a| + |b| + 1 && Canonical(c, p)
      ensures NttReady(p, g, |a| + |b| + 1) ==> c == Product(a, b, |a| + |b| + 1, p)
    {
      var s := new FormalPowerSeries(p, g, a);
      s.MulAssign(b);
      c := s.coef;
    }

    /** `(v + v - v * v * head(2i)).head(2i)`: one round of `inverse_with`. */
    method InverseStep(v: seq<int>, i: nat, ghost d: nat) returns (v': seq<int>)
      requires Valid() && Canonical(coef, p) && Canonical(v, p) && 1 <= i < d && |v| <= i
      ensures |v'| <= 2 * i && Canonical(v', p)
      ensures NttReady(p, g, 4 * d) && Agree(Mult(v, coef), [1], i, p) ==> Agree(Mult(v', coef), [1], 2 * i, p)
    {
      var va := Plus(v, v);
      var vm := Times(v, v);
      var P := Times(vm, Head(coef, 2 * i));
      var S := Minus(va, P);
      v' := Head(S, 2 * i);
      if NttReady(p, g, 4 * d) && Agree(Mult(v, coef), [1], i, p) {
        InverseRoundProducts(coef, v, va, vm, P, S, v', i, d, p, g);
      }
    }

    /**
     * `inverse_with(degree)`: Newton's iteration `v <- 2v - v^2 f`, which
     * doubles the number of correct coefficients each round, started from
     * `[1 / f_0]` and resized to the degree (`len` for a negative degree).
     */
    method InverseWith(degree: int) returns (r: seq<int>)
      requires Valid() && Canonical(coef, p) && |coef| >= 1 && coef[0] != 0
      ensures |r| == (if degree < 0 then |coef| else degree) && Canonical(r, p)
      ensures NttReady(p, g, 4 * |r|) ==> Agree(Mult(r, coef), [1], |r|, p)
    {
      var d: nat := if degree < 0 then |coef| else degree;
      ghost var ready := NttReady(p, g, 4 * d);
      var v := [Div(1, coef[0], p)];
      var i: nat := 1;
      if ready {
        InverseStart(coef, v[0], p);
      }
      while i < d
        invariant 1 <= i && |v| <= i && Canonical(v, p)
        invariant ready ==> Agree(Mult(v, coef), [1], i, p)
      {
        v := InverseStep(v, i, d);
        i := 2 * i;
      }
      r := Pad(v, d);
      if ready {
        PadKeepsInverse(v, coef, i, d, p);
      }
    }

    /** `inverse`: `inverse_with(len)`. */
    method Inverse() returns (r: seq<int>)
      requires Valid() && Canonical(coef, p) && |coef| >= 1 && coef[0] != 0
      ensures |r| == |coef| && Canonical(r, p)
      ensures NttReady(p, g, 4 * |coef|) ==> Agree(Mult(r, coef), [1], |coef|, p)
    {
      r := InverseWith(|coef|);
    }

    /**
     * `log_with(degree)`: the integral of `f' / f`, resized to the degree.
     * Its derivative `r'` satisfies `r' f == f'` below `degree - 1`.
     */
    method LogWith(degree: int) returns (r: seq<int>)
      requires Valid() && Canonical(coef, p) && |coef| >= 1 && coef[0] == 1 && degree >= 0
      ensures |r| == degree && Canonical(r, p) && (degree > 0 ==> r[0] == 0)
      ensures NttReady(p, g, 4 * degree + |coef|) ==> IsLogarithm(r, coef, degree, p)
    {
      var df := Differential();
      var inv := InverseWith(degree);
      r := LogFromParts(df, inv, degree);
    }

    /** `(df * inv).integral()` resized to `degree`, with `df` the derivative and `inv` the inverse. */
    method LogFromParts(df: seq<int>, inv: seq<int>, degree: nat) returns (r: seq<int>)
      requires Valid() && Canonical(coef, p) && |coef| >= 1 && Canonical(inv, p)
      requires df == Derivative(coef, p) && |inv| == degree
      requires NttReady(p, g, 4 * |inv|) ==> Agree(Mult(inv, coef), [1], |inv|, p)
      ensures |r| == degree && Canonical(r, p) && (degree > 0 ==> r[0] == 0)
      ensures NttReady(p, g, 4 * degree + |coef|) ==> IsLogarithm(r, coef, degree, p)
    {
      ghost var (f, m, h) := (coef, p, g);
      ghost var pr;
      r, pr := IntegralOfProduct(df, inv, degree);
      NttReadyBelow2(m, h, 4 * degree + |f|, 4 * |inv|, |pr|);
      LogWithProof(f, df, inv, pr, r, degree, m, h, NttReady(m, h, 4 * degree + |f|),
                   NttReady(m, h, 4 * |inv|), NttReady(m, h, |pr|));
    }

    /** `(a * b).integral()` resized to `degree`: the tail of `log_with`. */
    method IntegralOfProduct(a: seq<int>, b: seq<int>, degree: nat) returns (r: seq<int>, ghost P: seq<int>)
      requires Valid() && Canonical(a, p) && Canonical(b, p)
      ensures |r| == degree && Canonical(r, p) && (degree > 0 ==> r[0] == 0)
      ensures |P| == |a| + |b| + 1 && Canonical(P, p) && r == Pad(Antiderivative(P, p), degree)
      ensures NttReady(p, g, |P|) ==> P == Product(a, b, |a| + |b| + 1, p)
    {
      var pr := Times(a, b);
      var prod := new FormalPowerSeries(p, g, pr);
      var it := prod.Integral();
      r := Pad(it, degree);
      P := pr;
    }

    /** `log`: `log_with(len)`. */
    method Log() returns (r: seq<int>)
      requires Valid() && Canonical(coef, p) && |coef| >= 1 && coef[0] == 1
      ensures |r| == |coef| && Canonical(r, p) && r[0] == 0
      ensures NttReady(p, g, 5 * |coef|) ==> IsLogarithm(r, coef, |coef|, p)
    {
      r := LogWith(|coef|);
    }

    /**
     * `exp_with(degree)`: Newton's iteration `v <- v (f - log v + 1)`,
     * started from `[1]` and resized to the degree. Each round doubles the
     * number of coefficients on which `log v` agrees with `f`. `None` where
     * a round's `log_with` would find a constant term other than 1 and
     * panic, which an exact transform rules out.
     */
    method ExpWith(degree: int) returns (r: Option<seq<int>>)
      requires Valid() && Canonical(coef, p) && |coef| >= 1 && coef[0] == 0 && degree >= 0
      ensures r.Some? ==> |r.value| == degree && Canonical(r.value, p)
      ensures NttReady(p, g, 12 * degree) ==>
        r.Some? && (degree > 0 ==> r.value[0] == 1 && IsLogarithm(coef, r.value, degree, p))
    {
      ghost var ready := NttReady(p, g, 12 * degree);
      var v := [1];
      var i: nat := 1;
      ExpStart(coef, p);
      while i < degree
        invariant 1 <= i && 1 <= |v| <= 4 * i && Canonical(v, p)
        invariant ready ==> v[0] == 1 && IsLogarithm(coef, v, i, p)
      {
        if v[0] != 1 {
          // `log_with` asserts that the constant term is 1.
          return None;
        }
        v := ExpStep(v, i, degree);
        i := 2 * i;
      }
      r := Some(Pad(v, degree));
      if ready && degree > 0 {
        ExpFinish(coef, v, i, degree, p);
      }
    }

    /**
     * One round of `exp_with`: `v * (f.head(2i) - v.log_with(2i) + 1).head(2i)`.
     * Once the products are exact, an exponential of `f` below `i` becomes
     * one below `2i`.
     */
    method ExpStep(v: seq<int>, i: nat, ghost degree: nat) returns (w: seq<int>)
      requires Valid() && Canonical(coef, p) && |coef| >= 1 && coef[0] == 0
      requires Canonical(v, p) && 1 <= |v| <= 4 * i && v[0] == 1 && 1 <= i < degree
      ensures Canonical(w, p) && 1 <= |w| <= 8 * i
      ensures NttReady(p, g, 12 * degree) ==>
        w[0] == 1 && (IsLogarithm(coef, v, i, p) ==> IsLogarithm(coef, w, 2 * i, p))
    {
      ghost var (f0, m, gg) := (coef, p, g);
      var cur := new FormalPowerSeries(p, g, v);
      var lg := cur.LogWith(2 * i);
      var f := Head(coef, 2 * i);
      var d := Minus(f, lg);
      var e := PlusScalar(d, 1);
      var h := Head(e, 2 * i);
      CorrectionCoefficients(f0, f, lg, d, e, h, i, m);
      w := Times(v, h);
      if NttReady(m, gg, 12 * degree) {
        ExpStepProof(f0, v, lg, h, w, i, degree, m, gg);
      }
    }

    /** `exp`: `exp_with(len)`. */
    method Exp() returns (r: Option<seq<int>>)
      requires Valid() && Canonical(coef, p) && |coef| >= 1 && coef[0] == 0
      ensures r.Some? ==> |r.value| == |coef| && Canonical(r.value, p)
      ensures NttReady(p, g, 12 * |coef|) ==>
        r.Some? && r.value[0] == 1 && IsLogarithm(coef, r.value, |coef|, p)
    {
      r := ExpWith(|coef|);
    }

    /**
     * `pow_with(power, degree)`: `f^power` from `exp(power * log(f / k))`,
     * with `k x^i` the lowest term of `f`; `None` where `log_with` panics,
     * because the scalar `/` multiplies by `k` and leaves `k^2` in front.
     * Where `k^2 == 1`, `k` is its own inverse, and the result is `f^power`
     * below `degree`.
     */
    method PowWith(power: nat, degree: int) returns (r: Option<seq<int>>)
      requires Valid() && Canonical(coef, p) && degree >= 0
      ensures var i := FirstNonZero(coef);
        if i == |coef| || i * power >= degree then
          r.Some? && |r.value| == degree && forall k :: 0 <= k < degree ==> r.value[k] == 0
        else
          (Div(coef[i], DivFromInt(1, coef[i], p), p) != 1 ==> r.None?) &&
          (NttReady(p, g, 12 * degree + |coef|) ==> (r.None? <==> (coef[i] * coef[i]) % p != 1))
      ensures r.Some? ==> |r.value| == degree && Canonical(r.value, p)
      ensures r.Some? ==> forall k :: 0 <= k < degree && k < FirstNonZero(coef) * power ==> r.value[k] == 0
      ensures var i := FirstNonZero(coef);
        (i < |coef| || power > 0) && r.Some? && (NttReady(p, g, 12 * degree + |coef|) || i * power >= degree) ==>
          IsPowerBelow(r.value, coef, power, degree, p)
    {
      var i := 0;
      while i < |coef| && coef[i] == 0
        invariant i <= |coef| && forall k :: 0 <= k < i ==> coef[k] == 0
      {
        i := i + 1;
      }
      FirstNonZeroIs(coef, i);
      if i == |coef| || i * power >= degree {
        r := Some(seq(degree, _ => 0));
        if i < |coef| || power > 0 {
          PowOfLowDegree(coef, i, power, degree, p);
        }
        return;
      }
      r := PowFromLowest(power, degree, i);
    }

    /**
     * `pow_with` once the lowest non-zero term `k x^i` is known and
     * `i * power < degree`: divide by `x^i` and (as written) by `k`, take
     * `log_with`, and rebuild the power from the exponential.
     */
    method PowFromLowest(power: nat, degree: int, i: nat) returns (r: Option<seq<int>>)
      requires Valid() && Canonical(coef, p) && i < |coef| && coef[i] != 0 && i * power < degree
      requires forall k :: 0 <= k < i ==> coef[k] == 0
      ensures Div(coef[i], DivFromInt(1, coef[i], p), p) != 1 ==> r.None?
      ensures NttReady(p, g, 12 * degree + |coef|) ==> (r.None? <==> (coef[i] * coef[i]) % p != 1)
      ensures r.Some? ==> |r.value| == degree && Canonical(r.value, p)
      ensures r.Some? ==> forall k :: 0 <= k < degree && k < i * power ==> r.value[k] == 0
      ensures NttReady(p, g, 12 * degree + |coef|) && r.Some? ==>
        IsPowerBelow(r.value, coef, power, degree, p)
    {
      ghost var (f, m, gg) := (coef, p, g);
      ghost var ready := NttReady(m, gg, 12 * degree + |f|);
      var k := coef[i];
      var n := ModInt.New(power, p).value;
      var sh := ShiftRight(coef, i);
      var t := QuotientScalar(sh, k);
      LowestTermFacts(f, t, k, i, degree, m, gg, ready);
      if t[0] != 1 {
        // `log_with` asserts that the constant term is 1.
        return None;
      }
      var c := Power(k, power, p);
      MulNonNegative(power, i);
      r := PowTail(t, n, c, power * i, degree, power);
      if ready && r.Some? {
        PowFromLowestProof(f, sh, t, k, c, i, power, degree, r.value, m);
      }
    }

    /**
     * The tail of `pow_with`: `(exponential * c) << shift`, resized to
     * `degree`, with `n` the power reduced modulo `p`. The exponential is
     * `t^power`, so the result is `c t^power` shifted.
     */
    method PowTail(t: seq<int>, n: int, c: int, shift: nat, degree: nat, ghost power: nat) returns (r: Option<seq<int>>)
      requires Valid() && Canonical(t, p) && |t| >= 1 && t[0] == 1 && n == power % p && 0 <= c < p && degree >= 1
      ensures r.Some? ==> |r.value| == degree && Canonical(r.value, p)
      ensures r.Some? ==> forall k :: 0 <= k < degree && k < shift ==> r.value[k] == 0
      ensures NttReady(p, g, 12 * degree + |t|) ==>
        r.Some? && forall k :: shift <= k < degree ==> r.value[k] == (c * Coef(SeriesPow(t, power), k - shift)) % p
    {
      ghost var m := p;
      var ex := PowExponential(t, n, degree, power);
      if ex.None? {
        return None;
      }
      var x := ex.value;
      var w := TimesScalar(x, c);
      var sw := ShiftLeft(w, shift);
      r := Some(Pad(sw, degree));
      forall k | shift <= k < degree
        ensures r.value[k] == (x[k - shift] * c) % m
      {
      }
      if ex.Some? && Agree(x, SeriesPow(t, power), degree, m) {
        ScaledPowerTail(x, SeriesPow(t, power), r.value, c, shift, degree, m);
      }
    }

    /**
     * `(t.log_with(degree) * n).exp_with(degree)` inside `pow_with`: once
     * the transforms are exact, `t^power` below `degree` (by `LogOfPower`
     * and `ExpUnique`).
     */
    method PowExponential(t: seq<int>, n: int, degree: nat, ghost power: nat) returns (r: Option<seq<int>>)
      requires Valid() && Canonical(t, p) && |t| >= 1 && t[0] == 1 && n == power % p && degree >= 1
      ensures r.Some? ==> |r.value| == degree && Canonical(r.value, p)
      ensures NttReady(p, g, 12 * degree + |t|) ==> r.Some? && Agree(r.value, SeriesPow(t, power), degree, p)
    {
      ghost var (m, gg) := (p, g);
      var ts := new FormalPowerSeries(p, g, t);
      var lg := ts.LogWith(degree);
      var e := TimesScalar(lg, n);
      ModSmall(0, p);
      assert e[0] == 0;
      var es := new FormalPowerSeries(p, g, e);
      r := es.ExpWith(degree);
      NttReadyBelow2(m, gg, 12 * degree + |t|, 4 * degree + |t|, 12 * degree);
      PowExponentialProof(t, lg, e, r, n, power, degree, m, NttReady(m, gg, 12 * degree + |t|),
                          NttReady(m, gg, 4 * degree + |t|), NttReady(m, gg, 12 * degree));
    }

    /** `pow(n)`: `pow_with(n, len)`. */
    method Pow(power: nat) returns (r: Option<seq<int>>)
      requires Valid() && Canonical(coef, p)
      ensures var i := FirstNonZero(coef);
        if i == |coef| || i * power >= |coef| then
          r.Some? && |r.value| == |coef| && forall k :: 0 <= k < |coef| ==> r.value[k] == 0
        else
          (Div(coef[i], DivFromInt(1, coef[i], p), p) != 1 ==> r.None?) &&
          (NttReady(p, g, 12 * |coef| + |coef|) ==> (r.None? <==> (coef[i] * coef[i]) % p != 1))
      ensures var i := FirstNonZero(coef);
        (i < |coef| || power > 0) && r.Some? && (NttReady(p, g, 12 * |coef| + |coef|) || i * power >= |coef|) ==>
          IsPowerBelow(r.value, coef, power, |coef|, p)
    {
      r := PowWith(power, |coef|);
    }

    /**
     * `/= v` for a series: the polynomial quotient. After `cut`, a series
     * shorter than `v` becomes empty; otherwise the `need = |f| - |v| + 1`
     * coefficients of the quotient come from the reversed series times the
     * inverse of the reversed divisor.
     */
    method DivAssign(v: seq<int>)
      requires Valid() && Canonical(coef, p) && Canonical(v, p) && |v| >= 1 && v[|v| - 1] != 0
      modifies this
      ensures Canonical(coef, p)
      ensures |Trimmed(old(coef))| < |v| ==> coef == []
      ensures |Trimmed(old(coef))| >= |v| ==> |coef| == |Trimmed(old(coef))| - |v| + 1
      ensures NttReady(p, g, 4 * |old(coef)|) ==> IsQuotient(coef, v, old(coef), p)
    {
      Cut();
      if |coef| < |v| {
        coef := [];
        return;
      }
      var need := |coef| - |v| + 1;
      ReversedCanonical(coef, p);
      ReversedCanonical(v, p);
      var rv := new FormalPowerSeries(p, g, Reversed(v));
      var ig := rv.InverseWith(need);
      var R := Head(Reversed(coef), need);
      assert |R| == need;
      var P := Times(R, ig);
      var q := Reversed(Head(P, need));
      NttReadyBelow2(p, g, 4 * |old(coef)|, 4 * |ig|, |R| + |ig| + 1);
      QuotientProof(coef, v, ig, R, P, q, old(coef), p, NttReady(p, g, 4 * |old(coef)|),
                    NttReady(p, g, 4 * |ig|), NttReady(p, g, |R| + |ig| + 1));
      ReversedCanonical(Head(P, need), p);
      coef := q;
    }

    /** `a / b` for series (`impl_op!`): `/=` on the moved left operand. */
    method Quotient(a: seq<int>, b: seq<int>) returns (c: seq<int>)
      requires Valid() && Canonical(a, p) && Canonical(b, p) && |b| >= 1 && b[|b| - 1] != 0
      ensures Canonical(c, p)
      ensures |Trimmed(a)| < |b| ==> c == []
      ensures |Trimmed(a)| >= |b| ==> |c| == |Trimmed(a)| - |b| + 1
      ensures NttReady(p, g, 4 * |a|) ==> IsQuotient(c, b, a, p)
    {
      var s := new FormalPowerSeries(p, g, a);
      s.DivAssign(b);
      c := s.coef;
    }

    /**
     * `%= v`: `cut`, then subtract `(f / v) * v`. The remainder has fewer
     * coefficients than `v` and differs from `f` by the quotient `q` times `v`.
     */
    method RemAssign(v: seq<int>) returns (ghost q: seq<int>)
      requires Valid() && Canonical(coef, p) && Canonical(v, p) && |v| >= 1 && v[|v| - 1] != 0
      modifies this
      ensures Canonical(coef, p)
      ensures NttReady(p, g, 4 * (|old(coef)| + |v|)) ==> IsRemainder(coef, old(coef), q, v, p)
    {
      Cut();
      ghost var F := coef;
      var qt := Quotient(coef, v);
      q := qt;
      var P := Times(qt, v);
      var r := Minus(coef, P);
      coef := r;
      NttReadyBelow2(p, g, 4 * (|old(coef)| + |v|), 4 * |F|, |q| + |v| + 1);
      RemainderProof(old(coef), F, v, q, P, coef, p, NttReady(p, g, 4 * (|old(coef)| + |v|)),
                     NttReady(p, g, 4 * |F|), NttReady(p, g, |q| + |v| + 1));
    }
  }
}
