/**
 * Elementary number theory the modular-arithmetic crates rely on: powers,
 * divisibility, congruences, factorials and binomial coefficients.
 */
module NumberTheory {
  import opened RustArith

  /** `b` raised to the `e`-th power. */
  function Pow(b: int, e: nat): int
  {
    if e == 0 then 1 else b * Pow(b, e - 1)
  }

  /** `d` divides `a`. */
  ghost predicate Divides(d: int, a: int)
  {
    exists k :: a == d * k
  }

  lemma {:induction false} PowAdd(b: int, e1: nat, e2: nat)
    ensures Pow(b, e1 + e2) == Pow(b, e1) * Pow(b, e2)
  {
    if e1 > 0 {
      PowAdd(b, e1 - 1, e2);
      assert Pow(b, e1 + e2) == b * Pow(b, e1 - 1 + e2);
    }
  }

  lemma {:induction false} PowMul(b: int, e1: nat, e2: nat)
    ensures Pow(b, e1 * e2) == Pow(Pow(b, e1), e2)
  {
    if e2 > 0 {
      PowMul(b, e1, e2 - 1);
      assert e1 * e2 == e1 + e1 * (e2 - 1);
      PowAdd(b, e1, e1 * (e2 - 1));
    }
  }

  lemma {:induction false} PowProduct(a: int, b: int, e: nat)
    ensures Pow(a * b, e) == Pow(a, e) * Pow(b, e)
  {
    if e > 0 {
      PowProduct(a, b, e - 1);
      var pa, pb := Pow(a, e - 1), Pow(b, e - 1);
      assert Pow(a * b, e) == (a * b) * (pa * pb);
      MulRearrange(a, b, pa, pb);
    }
  }

  lemma MulRearrange(a: int, b: int, c: int, d: int)
    ensures (a * b) * (c * d) == (a * c) * (b * d)
  {
    calc {
      (a * b) * (c * d);
      a * (b * (c * d));
      a * ((b * c) * d);
      a * ((c * b) * d);
      a * (c * (b * d));
      (a * c) * (b * d);
    }
  }

  lemma {:induction false} PowNonNegative(b: int, e: nat)
    requires b >= 0
    ensures Pow(b, e) >= 0
    ensures b > 0 ==> Pow(b, e) > 0
  {
    if e > 0 {
      PowNonNegative(b, e - 1);
    }
  }

  /** Powers of two grow with the exponent and outgrow it. */
  lemma {:induction false} PowTwoMonotone(a: nat, b: nat)
    requires a <= b
    ensures 1 <= Pow(2, a) <= Pow(2, b)
    decreases b
  {
    if a < b {
      PowTwoMonotone(a, b - 1);
    } else if a > 0 {
      PowNonNegative(2, a);
    }
  }

  lemma {:induction false} PowTwoAboveExponent(k: nat)
    ensures k < Pow(2, k)
  {
    if k > 0 {
      PowTwoAboveExponent(k - 1);
    }
  }

  lemma {:induction false} PowOfOne(e: nat)
    ensures Pow(1, e) == 1
  {
    if e > 0 {
      PowOfOne(e - 1);
    }
  }

  lemma {:induction false} PowOfZero(e: nat)
    requires e > 0
    ensures Pow(0, e) == 0
  {
  }

  lemma {:induction false} PowMinusOne(e: nat)
    ensures Pow(-1, e) == if e % 2 == 0 then 1 else -1
  {
    if e > 0 {
      PowMinusOne(e - 1);
    }
  }

  lemma ModAdd(a: int, b: int, m: int)
    requires m > 0
    ensures (a + b) % m == (a % m + b % m) % m
  {
    var s := a % m + b % m;
    assert a + b == s + m * (a / m + b / m);
    ModAddMultiple(s, m, a / m + b / m);
  }

  lemma ModSub(a: int, b: int, m: int)
    requires m > 0
    ensures (a - b) % m == (a % m - b % m) % m
  {
    var s := a % m - b % m;
    assert a - b == s + m * (a / m - b / m);
    ModAddMultiple(s, m, a / m - b / m);
  }

  lemma ModMul(a: int, b: int, m: int)
    requires m > 0
    ensures (a * b) % m == ((a % m) * (b % m)) % m
  {
    var qa, ra, qb, rb := a / m, a % m, b / m, b % m;
    assert a == m * qa + ra;
    assert b == m * qb + rb;
    var k := qa * m * qb + qa * rb + ra * qb;
    assert a * b == ra * rb + m * k by {
      calc {
        a * b;
        (m * qa + ra) * (m * qb + rb);
        m * qa * (m * qb) + m * qa * rb + ra * (m * qb) + ra * rb;
        ra * rb + m * k;
      }
    }
    ModAddMultiple(ra * rb, m, k);
  }

  lemma ModOfMod(a: int, m: int)
    requires m > 0
    ensures (a % m) % m == a % m
  {
    DivModUnique(a % m, m, 0, a % m);
  }

  lemma ModSmall(a: int, m: int)
    requires 0 <= a < m
    ensures a % m == a
  {
    DivModUnique(a, m, 0, a);
  }

  /** For a positive modulus, divisibility is a zero remainder. */
  lemma DividesIffModZero(d: int, a: int)
    requires d > 0
    ensures Divides(d, a) <==> a % d == 0
  {
    if a % d == 0 {
      assert a == d * (a / d);
    }
    if Divides(d, a) {
      var k :| a == d * k;
      DivModUnique(a, d, k, 0);
    }
  }

  /** Congruence modulo `m` as divisibility of the difference. */
  lemma CongruentIffDivides(a: int, b: int, m: int)
    requires m > 0
    ensures a % m == b % m <==> Divides(m, a - b)
  {
    ModSub(a, b, m);
    DividesIffModZero(m, a - b);
    var ra, rb := a % m, b % m;
    if ra >= rb {
      ModSmall(ra - rb, m);
    } else {
      DivModUnique(ra - rb, m, -1, ra - rb + m);
    }
  }

  lemma DividesLinear(d: int, x: int, y: int, c: int)
    requires Divides(d, x) && Divides(d, y)
    ensures Divides(d, x * c + y)
  {
    var kx :| x == d * kx;
    var ky :| y == d * ky;
    assert x * c + y == d * (kx * c + ky);
  }

  lemma DividesProduct(d: int, x: int, c: int)
    requires Divides(d, x)
    ensures Divides(d, x * c) && Divides(d, c * x)
  {
    var kx :| x == d * kx;
    assert x * c == d * (kx * c);
    assert c * x == d * (kx * c);
  }

  lemma DividesReflexive(d: int)
    ensures Divides(d, d) && Divides(d, 0) && Divides(1, d)
  {
    assert d == d * 1;
    assert 0 == d * 0;
    assert d == 1 * d;
  }

  lemma DividesTransitive(a: int, b: int, c: int)
    requires Divides(a, b) && Divides(b, c)
    ensures Divides(a, c)
  {
    var k :| b == a * k;
    var l :| c == b * l;
    assert c == a * (k * l);
  }

  lemma DividesNegate(d: int, a: int)
    requires Divides(d, a)
    ensures Divides(d, -a) && Divides(-d, a)
  {
    var k :| a == d * k;
    assert -a == d * (-k);
    assert a == (-d) * (-k);
  }

  /** A positive multiple of a positive number is at least that number. */
  lemma DivisorBound(d: int, a: int)
    requires d > 0 && a > 0 && Divides(d, a)
    ensures d <= a
  {
    var k :| a == d * k;
    if k <= 0 {
      assert false;
    }
    assert d * k == d + d * (k - 1);
    assert d * (k - 1) >= 0;
  }

  /** n factorial. */
  function Fact(n: nat): (r: nat)
    ensures r >= 1
  {
    if n == 0 then 1 else n * Fact(n - 1)
  }

  /** Binomial coefficient by Pascal's rule. */
  function Binom(n: nat, k: nat): nat
  {
    if k == 0 then 1 else if n == 0 then 0 else Binom(n - 1, k - 1) + Binom(n - 1, k)
  }

  lemma {:induction false} BinomAbove(n: nat, k: nat)
    requires k > n
    ensures Binom(n, k) == 0
  {
    if n > 0 {
      BinomAbove(n - 1, k - 1);
      BinomAbove(n - 1, k);
    }
  }

  lemma {:induction false} BinomDiagonal(n: nat)
    ensures Binom(n, n) == 1
  {
    if n > 0 {
      BinomDiagonal(n - 1);
      BinomAbove(n - 1, n);
    }
  }

  /** `C(n, k) * k! * (n - k)! == n!`. */
  lemma {:induction false} BinomFactorial(n: nat, k: nat)
    requires k <= n
    ensures Binom(n, k) * Fact(k) * Fact(n - k) == Fact(n)
  {
    if k == 0 {
    } else if k == n {
      BinomDiagonal(n);
    } else {
      BinomFactorial(n - 1, k - 1);
      BinomFactorial(n - 1, k);
      PascalFactorialStep(Binom(n - 1, k - 1), Binom(n - 1, k), k, n - k, Fact(k - 1), Fact(n - 1 - k), Fact(n - 1));
      assert Fact(n) == (k + (n - k)) * Fact(n - 1);
    }
  }

  /** The arithmetic of one Pascal step of `BinomFactorial`. */
  lemma PascalFactorialStep(a: int, b: int, k: int, j: int, fk1: int, fj1: int, f: int)
    requires a * fk1 * (j * fj1) == f
    requires b * (k * fk1) * fj1 == f
    ensures (a + b) * (k * fk1) * (j * fj1) == (k + j) * f
  {
    calc {
      (a + b) * (k * fk1) * (j * fj1);
      a * (k * fk1) * (j * fj1) + b * (k * fk1) * (j * fj1);
      { MulRearrange(a, k, fk1, j * fj1); MulRearrange(b * k, fk1, j, fj1); }
      k * (a * fk1 * (j * fj1)) + j * (b * (k * fk1) * fj1);
      k * f + j * f;
    }
  }

  lemma MulCancel(a: int, b: int, c: int)
    requires c > 0 && a * c == b * c
    ensures a == b
  {
    assert (a - b) * c == 0;
  }

  /** Absorption: `k * C(n, k) == n * C(n - 1, k - 1)`. */
  lemma BinomAbsorb(n: nat, k: nat)
    requires 1 <= k <= n
    ensures k * Binom(n, k) == n * Binom(n - 1, k - 1)
  {
    BinomFactorial(n, k);
    BinomFactorial(n - 1, k - 1);
    assert n - 1 - (k - 1) == n - k;
    AbsorbArithmetic(Binom(n, k), Binom(n - 1, k - 1), k, n, Fact(k - 1), Fact(n - k), Fact(n - 1));
  }

  lemma AbsorbArithmetic(c: int, d: int, k: int, n: int, fk1: int, fnk: int, f: int)
    requires fk1 > 0 && fnk > 0
    requires c * (k * fk1) * fnk == n * f
    requires d * fk1 * fnk == f
    ensures k * c == n * d
  {
    calc {
      (k * c) * (fk1 * fnk);
      c * (k * fk1) * fnk;
      n * f;
      (n * d) * (fk1 * fnk);
    }
    MulCancel(k * c, n * d, fk1 * fnk);
  }

  /** The first `j + 1` terms of the binomial expansion of `(x + 1)^n`. */
  function BinomialSum(x: int, n: nat, j: nat): int
  {
    Binom(n, j) * Pow(x, j) + (if j == 0 then 0 else BinomialSum(x, n, j - 1))
  }

  lemma {:induction false} BinomialSumStep(x: int, n: nat, j: nat)
    requires j >= 1
    ensures BinomialSum(x, n + 1, j) == BinomialSum(x, n, j) + x * BinomialSum(x, n, j - 1)
  {
    if j == 1 {
      assert BinomialSum(x, n + 1, 0) == 1 == BinomialSum(x, n, 0);
    } else {
      BinomialSumStep(x, n, j - 1);
      var a, b, p := Binom(n, j - 1), Binom(n, j), Pow(x, j - 1);
      var s1, s2 := BinomialSum(x, n, j - 1), BinomialSum(x, n, j - 2);
      assert Binom(n + 1, j) == a + b;
      assert Pow(x, j) == x * p;
      assert BinomialSum(x, n + 1, j - 1) == s1 + x * s2;
      assert s1 == a * p + s2;
      SumStepArithmetic(x, a, b, p, s1, s2);
    }
  }

  lemma SuccessorTimes(x: int, s: int)
    ensures (x + 1) * s == s + x * s
  {
  }

  lemma SumStepArithmetic(x: int, a: int, b: int, p: int, s1: int, s2: int)
    requires s1 == a * p + s2
    ensures (a + b) * (x * p) + (s1 + x * s2) == b * (x * p) + s1 + x * s1
  {
    calc {
      (a + b) * (x * p) + (s1 + x * s2);
      b * (x * p) + s1 + x * (a * p) + x * s2;
      b * (x * p) + s1 + x * (a * p + s2);
    }
  }

  /** The binomial theorem for `(x + 1)^n`. */
  lemma {:induction false} BinomialTheorem(x: int, n: nat)
    ensures Pow(x + 1, n) == BinomialSum(x, n, n)
  {
    if n > 0 {
      BinomialTheorem(x, n - 1);
      BinomialSumStep(x, n - 1, n);
      BinomAbove(n - 1, n);
      var s := BinomialSum(x, n - 1, n - 1);
      assert BinomialSum(x, n - 1, n) == s;
      assert Pow(x + 1, n) == (x + 1) * Pow(x + 1, n - 1);
      SuccessorTimes(x, s);
    }
  }
}
