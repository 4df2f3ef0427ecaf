/**
 * The generic integer helpers of procon_math: Euclid's gcd, lcm, the
 * extended Euclidean algorithm, modular exponentiation, the modular inverse
 * and the always-non-negative remainder.  Rust's generic `T: PrimitiveInteger`
 * is modelled as `int`, with Rust's truncating `/` and `%` (see RustArith).
 *
 * The module also proves the two facts about primes that the modular
 * arithmetic of the other crates rests on: Euclid's lemma and Fermat's
 * little theorem.
 */
module Math {
  import opened RustArith
  import opened NumberTheory
  import opened Wrappers

  /** `gcd(a, b)`: Euclid's algorithm with Rust's remainder. */
  function Gcd(a: int, b: int): (g: int)
    decreases Abs(b)
    ensures Divides(g, a) && Divides(g, b)
    ensures g == 0 <==> a == 0 && b == 0
  {
    if b == 0 then
      DividesReflexive(a);
      a
    else
      var g := Gcd(b, TRem(a, b));
      GcdStep(a, b, g);
      g
  }

  /** A divisor of `b` and of `a % b` divides `a`. */
  lemma GcdStep(a: int, b: int, g: int)
    requires b != 0 && Divides(g, b) && Divides(g, TRem(a, b))
    ensures Divides(g, a)
  {
    DividesLinear(g, b, TRem(a, b), TDiv(a, b));
  }

  /** Every common divisor of `a` and `b` divides `gcd(a, b)`. */
  lemma {:induction false} GcdGreatest(a: int, b: int, c: int)
    requires Divides(c, a) && Divides(c, b)
    ensures Divides(c, Gcd(a, b))
    decreases Abs(b)
  {
    if b != 0 {
      DividesProduct(c, b, -TDiv(a, b));
      DividesLinear(c, a, b * -TDiv(a, b), 1);
      assert a * 1 + b * -TDiv(a, b) == TRem(a, b);
      GcdGreatest(b, TRem(a, b), c);
    }
  }

  lemma {:induction false} GcdNonNegative(a: int, b: int)
    requires a >= 0 && b >= 0
    ensures Gcd(a, b) >= 0
    decreases b
  {
    if b != 0 {
      GcdNonNegative(b, TRem(a, b));
    }
  }

  /** `lcm(a, b)`: `a / gcd(a, b) * b`; the division panics when both are 0. */
  function Lcm(a: int, b: int): (r: Option<int>)
    ensures r.None? <==> a == 0 && b == 0
    ensures r.Some? ==> Divides(a, r.value) && Divides(b, r.value)
    ensures r.Some? ==> r.value * Gcd(a, b) == a * b
  {
    var g := Gcd(a, b);
    if g == 0 then None
    else
      LcmFacts(a, b, g);
      Some(TDiv(a, g) * b)
  }

  lemma LcmFacts(a: int, b: int, g: int)
    requires g != 0 && Divides(g, a) && Divides(g, b)
    ensures Divides(a, TDiv(a, g) * b) && Divides(b, TDiv(a, g) * b)
    ensures TDiv(a, g) * b * g == a * b
  {
    var ka :| a == g * ka;
    var kb :| b == g * kb;
    ExactDivision(a, g, ka);
    LcmArithmetic(a, b, g, ka, kb);
  }

  lemma LcmArithmetic(a: int, b: int, g: int, ka: int, kb: int)
    requires a == g * ka && b == g * kb
    ensures ka * b == a * kb && ka * b == b * ka && ka * b * g == a * b
  {
    calc {
      ka * b;
      ka * (g * kb);
      (g * ka) * kb;
    }
  }

  /** Rust's division is exact when the divisor divides the dividend. */
  lemma ExactDivision(a: int, g: int, k: int)
    requires g != 0 && a == g * k
    ensures TDiv(a, g) == k
  {
    if a >= 0 && g > 0 {
      DivModUnique(a, g, k, 0);
    } else if a >= 0 {
      assert a == (-g) * (-k);
      DivModUnique(a, -g, -k, 0);
    } else if g > 0 {
      assert -a == g * (-k);
      DivModUnique(-a, g, -k, 0);
    } else {
      assert -a == (-g) * k;
      DivModUnique(-a, -g, k, 0);
    }
  }

  /** `extgcd(a, b)`: returns `(g, x, y)` with Bezout's identity `a x + b y == g`. */
  function ExtGcd(a: int, b: int): (r: (int, int, int))
    decreases Abs(b)
    ensures a * r.1 + b * r.2 == r.0
    ensures a >= 0 && b >= 0 ==> r.0 == Gcd(a, b)
  {
    if b > 0 then
      var (g, y, x) := ExtGcd(b, TRem(a, b));
      BezoutStep(a, b, g, y, x);
      (g, x, y - TDiv(a, b) * x)
    else
      (a, 1, 0)
  }

  lemma BezoutStep(a: int, b: int, g: int, u: int, v: int)
    requires b != 0 && b * u + TRem(a, b) * v == g
    ensures a * v + b * (u - TDiv(a, b) * v) == g
  {
    var q := TDiv(a, b);
    assert TRem(a, b) == a - b * q;
    BezoutAlgebra(a, b, q, TRem(a, b), u, v, g);
  }

  lemma BezoutAlgebra(a: int, b: int, q: int, r: int, u: int, v: int, g: int)
    requires r == a - b * q && b * u + r * v == g
    ensures a * v + b * (u - q * v) == g
  {
    calc {
      a * v + b * (u - q * v);
      a * v + b * u - (b * q) * v;
      b * u + (a - b * q) * v;
    }
  }

  /**
   * The value `powmod` computes: 1 for a non-positive exponent, otherwise
   * Rust's remainder of `x^n` (negative when `x^n` is).
   */
  function PowRem(x: int, n: int, m: int): (r: int)
    requires m > 0
    ensures n <= 0 ==> r == 1
    ensures n > 0 ==> r % m == Pow(x, n) % m && -m < r < m
    ensures n > 0 && x >= 0 ==> r == Pow(x, n) % m
  {
    if n <= 0 then 1
    else
      TRemCongruent(Pow(x, n), m);
      if x >= 0 then PowNonNegative(x, n); TRem(Pow(x, n), m)
      else TRem(Pow(x, n), m)
  }

  /** `powmod(x, n, m)`: binary exponentiation reducing with Rust's `%` after each product. */
  method PowMod(x: int, n: int, m: int) returns (r: int)
    requires m > 0
    ensures r == PowRem(x, n, m)
  {
    var ret, base, e := 1, x, n;
    while e > 0
      invariant if n > 0 then e >= 0 else e == n && ret == 1
      invariant n > 0 ==> TRem(ret * Pow(base, e), m) == TRem(Pow(x, n), m)
      invariant n > 0 && e == 0 ==> ret == TRem(ret, m)
    {
      var ret0, base0, e0 := ret, base, e;
      if e % 2 != 0 {
        ret := TRem(ret * base, m);
        TRemIdempotent(ret0 * base0, m);
      }
      base := TRem(base * base, m);
      e := e / 2;
      PowModStep(ret0, base0, e0, m);
    }
    r := ret;
  }

  /** One iteration of the square-and-multiply loop keeps Rust's remainder of `ret * base^e`. */
  lemma PowModStep(ret: int, base: int, e: nat, m: int)
    requires m > 0 && e > 0
    ensures var ret' := if e % 2 != 0 then TRem(ret * base, m) else ret;
            TRem(ret' * Pow(TRem(base * base, m), e / 2), m) == TRem(ret * Pow(base, e), m)
  {
    var sq := Pow(base * base, e / 2);
    var sq' := Pow(TRem(base * base, m), e / 2);
    TRemIdempotent(base * base, m);
    PowSameRem(TRem(base * base, m), base * base, e / 2, m);
    PowSquare(base, e);
    if e % 2 != 0 {
      PowModOddStep(ret, base, sq, sq', m);
    } else {
      MulSameRem(sq', sq, ret, m);
    }
  }

  /** The odd case: folding `base` into `ret` first leaves the remainder unchanged. */
  lemma PowModOddStep(ret: int, base: int, sq: int, sq': int, m: int)
    requires m > 0 && TRem(sq', m) == TRem(sq, m)
    ensures TRem(TRem(ret * base, m) * sq', m) == TRem(ret * (base * sq), m)
  {
    calc {
      TRem(TRem(ret * base, m) * sq', m);
      { TRemMulLeft(ret * base, sq', m); }
      TRem((ret * base) * sq', m);
      { MulSameRem(sq', sq, ret * base, m); }
      TRem((ret * base) * sq, m);
      { assert (ret * base) * sq == ret * (base * sq); }
      TRem(ret * (base * sq), m);
    }
  }

  /** Factors with equal Rust remainders give products with equal Rust remainders. */
  lemma MulSameRem(x: int, x': int, y: int, m: int)
    requires m > 0 && TRem(x, m) == TRem(x', m)
    ensures TRem(x * y, m) == TRem(x' * y, m) && TRem(y * x, m) == TRem(y * x', m)
  {
    TRemMulLeft(x, y, m);
    TRemMulLeft(x', y, m);
    assert y * x == x * y && y * x' == x' * y;
  }

  lemma {:induction false} PowSameRem(b: int, b': int, k: nat, m: int)
    requires m > 0 && TRem(b, m) == TRem(b', m)
    ensures TRem(Pow(b, k), m) == TRem(Pow(b', k), m)
  {
    if k > 0 {
      PowSameRem(b, b', k - 1, m);
      MulSameRem(b, b', Pow(b, k - 1), m);
      MulSameRem(Pow(b, k - 1), Pow(b', k - 1), b', m);
    }
  }

  /** `base^e` as a power of `base * base`. */
  lemma PowSquare(base: int, e: nat)
    ensures e % 2 == 0 ==> Pow(base, e) == Pow(base * base, e / 2)
    ensures e % 2 != 0 ==> Pow(base, e) == base * Pow(base * base, e / 2)
  {
    PowMul(base, 2, e / 2);
    assert Pow(base, 1) == base;
    assert Pow(base, 2) == base * base;
    if e % 2 != 0 {
      assert e == 1 + 2 * (e / 2);
      PowAdd(base, 1, 2 * (e / 2));
    }
  }

  /** A factor may be reduced before the product: `a * (b % m)` and `a * b` leave the same residue. */
  lemma ReduceFactor(a: int, b: int, m: int)
    requires m > 0
    ensures (a * (b % m)) % m == (a * b) % m
  {
    ModOfMod(b, m);
    CongruentProduct(a, a, b % m, b, m);
  }

  /** The product of two units of residue 1 has residue 1. */
  lemma ProductOfUnits(x: int, y: int, m: int)
    requires m > 0 && x % m == 1 % m && y % m == 1 % m
    ensures (x * y) % m == 1 % m
  {
    CongruentProduct(x, 1, y, 1, m);
  }

  lemma CongruentProduct(a: int, a': int, b: int, b': int, m: int)
    requires m > 0 && a % m == a' % m && b % m == b' % m
    ensures (a * b) % m == (a' * b') % m
  {
    ModMul(a, b, m);
    ModMul(a', b', m);
  }

  lemma {:induction false} PowCongruent(a: int, a': int, e: nat, m: int)
    requires m > 0 && a % m == a' % m
    ensures Pow(a, e) % m == Pow(a', e) % m
  {
    if e > 0 {
      PowCongruent(a, a', e - 1, m);
      CongruentProduct(a, a', Pow(a, e - 1), Pow(a', e - 1), m);
    }
  }

  /** `signed_mod(x, m)`: `(x % m + m) % m` with Rust's remainder. */
  function SignedMod(x: int, m: int): (r: int)
    requires m != 0
    ensures m > 0 ==> r == x % m
    ensures m < 0 ==> m < r <= 0 && (x - r) % -m == 0
  {
    SignedModFacts(x, m);
    TRem(TRem(x, m) + m, m)
  }

  lemma SignedModFacts(x: int, m: int)
    requires m != 0
    ensures m > 0 ==> TRem(TRem(x, m) + m, m) == x % m
    ensures m < 0 ==> (x - TRem(TRem(x, m) + m, m)) % -m == 0
  {
    var t := TRem(x, m);
    var r := TRem(t + m, m);
    if m > 0 {
      TRemCongruent(x, m);
      assert t + m >= 0;
      ModAddMultiple(t, m, 1);
    } else {
      var n := -m;
      assert Abs(m) == n;
      var a, b := x - t, t + m - r;
      assert a % n == 0 && b % n == 0;
      assert x - r == (a + b) + n * 1;
      ModAddMultiple(a + b, n, 1);
      ModAdd(a, b, n);
    }
  }

  /** `invmod(x, m)`: the Bezout coefficient of `x`, brought into `[0, m)`. */
  function InvMod(x: int, m: int): (r: int)
    requires m != 0
    ensures m > 0 ==> 0 <= r < m
    ensures m > 0 && x >= 0 ==> (x * r) % m == Gcd(x, m) % m
  {
    var (_, c, _) := ExtGcd(x, m);
    InvModFacts(x, m);
    SignedMod(c, m)
  }

  lemma InvModFacts(x: int, m: int)
    requires m != 0
    ensures m > 0 && x >= 0 ==> (x * SignedMod(ExtGcd(x, m).1, m)) % m == Gcd(x, m) % m
  {
    if m > 0 && x >= 0 {
      var r := ExtGcd(x, m);
      BezoutResidue(x, r.1, r.2, m, r.0, SignedMod(r.1, m));
    }
  }

  /** From `x c + m d == g`: `x` times the residue of `c` is `g` modulo `m`. */
  lemma BezoutResidue(x: int, c: int, d: int, m: int, g: int, sc: int)
    requires m > 0 && x * c + m * d == g && sc == c % m
    ensures (x * sc) % m == g % m
  {
    ModAddMultiple(x * c, m, d);
    ModOfMod(c, m);
    CongruentProduct(x, x, sc, c, m);
  }

  /** A modular inverse exists exactly for the residues coprime to the modulus. */
  lemma InvModIsInverse(x: int, m: int)
    requires m > 0 && x >= 0 && Gcd(x, m) == 1
    ensures (x * InvMod(x, m)) % m == 1 % m
  {
  }

  // ---------------------------------------------------------------------
  // Primes.

  /** `p` is prime. */
  ghost predicate IsPrime(p: int)
  {
    p >= 2 && forall d :: 2 <= d < p ==> p % d != 0
  }

  /** The only positive divisors of a prime are 1 and itself. */
  lemma PrimeDivisors(p: int, g: int)
    requires IsPrime(p) && g > 0 && Divides(g, p)
    ensures g == 1 || g == p
  {
    DivisorBound(g, p);
    DividesIffModZero(g, p);
  }

  /** Euclid's lemma: a prime dividing a product divides one of the factors. */
  lemma EuclidLemma(p: int, a: int, b: int)
    requires IsPrime(p) && Divides(p, a * b)
    ensures Divides(p, a) || Divides(p, b)
  {
    DividesIffModZero(p, a);
    if a % p != 0 {
      var a' := a % p;
      var x, y := CoprimeBezout(p, a');
      var k :| a * b == p * k;
      EuclidArithmetic(p, a, b, a / p, a', x, y, k);
    }
  }

  /** A residue that is not a multiple of the prime `p` has Bezout coefficients with `p` summing to 1. */
  lemma CoprimeBezout(p: int, a: int) returns (x: int, y: int)
    requires IsPrime(p) && 0 < a < p
    ensures a * x + p * y == 1
  {
    var r := ExtGcd(a, p);
    GcdNonNegative(a, p);
    PrimeDivisors(p, r.0);
    if r.0 == p {
      DivisorBound(p, a);
      assert false;
    }
    x, y := r.1, r.2;
  }

  lemma EuclidArithmetic(p: int, a: int, b: int, q: int, a': int, x: int, y: int, k: int)
    requires a == p * q + a' && a' * x + p * y == 1 && a * b == p * k
    ensures Divides(p, b)
  {
    assert a' * b == p * (k - q * b);
    calc {
      b;
      b * (a' * x + p * y);
      (a' * b) * x + p * (b * y);
      (p * (k - q * b)) * x + p * (b * y);
      p * ((k - q * b) * x + b * y);
    }
  }

  /** A prime divides every binomial coefficient `C(p, k)` with `0 < k < p`. */
  lemma PrimeDividesBinom(p: int, k: nat)
    requires IsPrime(p) && 0 < k < p
    ensures Divides(p, Binom(p, k))
  {
    BinomAbsorb(p, k);
    assert k * Binom(p, k) == p * Binom(p - 1, k - 1);
    EuclidLemma(p, k, Binom(p, k));
    if Divides(p, k) {
      DivisorBound(p, k);
    }
  }

  /** The partial binomial sums of `(x + 1)^p` stay congruent to 1 below the last term. */
  lemma {:induction false} PartialSumCongruent(p: int, x: int, j: nat)
    requires IsPrime(p) && j < p
    ensures Divides(p, BinomialSum(x, p, j) - 1)
  {
    if j == 0 {
      DividesReflexive(p);
    } else {
      PartialSumCongruent(p, x, j - 1);
      PrimeDividesBinom(p, j);
      DividesProduct(p, Binom(p, j), Pow(x, j));
      DividesLinear(p, Binom(p, j) * Pow(x, j), BinomialSum(x, p, j - 1) - 1, 1);
    }
  }

  /** `(x + 1)^p` and `x^p + 1` are congruent modulo a prime `p`. */
  lemma FreshmanDream(p: int, x: int)
    requires IsPrime(p)
    ensures Divides(p, Pow(x + 1, p) - Pow(x, p) - 1)
  {
    BinomialTheorem(x, p);
    BinomDiagonal(p);
    PartialSumCongruent(p, x, p - 1);
    assert Pow(x + 1, p) - Pow(x, p) - 1 == BinomialSum(x, p, p - 1) - 1;
  }

  /** Fermat's little theorem: `x^p` and `x` are congruent modulo a prime `p`. */
  lemma {:induction false} FermatLittle(p: int, x: nat)
    requires IsPrime(p)
    ensures Divides(p, Pow(x, p) - x)
  {
    if x == 0 {
      PowOfZero(p);
      DividesReflexive(p);
    } else {
      FermatLittle(p, x - 1);
      FreshmanDream(p, x - 1);
      DividesLinear(p, Pow(x, p) - Pow(x - 1, p) - 1, Pow(x - 1, p) - (x - 1), 1);
    }
  }

  /** Fermat's theorem for units: `x^(p-1)` is 1 modulo a prime `p` that does not divide `x`. */
  lemma FermatUnit(p: int, x: int)
    requires IsPrime(p) && x % p != 0
    ensures Pow(x, p - 1) % p == 1
  {
    var y := x % p;
    FermatLittle(p, y);
    PowAdd(y, 1, p - 1);
    assert Pow(y, p) - y == y * (Pow(y, p - 1) - 1);
    EuclidLemma(p, y, Pow(y, p - 1) - 1);
    DividesIffModZero(p, y);
    ModSmall(y, p);
    assert Divides(p, Pow(y, p - 1) - 1);
    CongruentIffDivides(Pow(y, p - 1), 1, p);
    ModSmall(1, p);
    ModOfMod(x, p);
    PowCongruent(y, x, p - 1, p);
  }
}
