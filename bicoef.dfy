/**
 * Binomial coefficients modulo `m` from precomputed tables.
 *
 * `SmallNCombination` tabulates `i!`, `1/i!` and `1/i` for `i <= max`;
 * `LargeNCombination` tabulates `C(n, i)` for one fixed `n` and `i <= r_max`.
 * The tables are built with the modular operators of `ModInt`, so every
 * entry is a value in `[0, m)`.  The inverse tables are right only when `m`
 * is a prime larger than the table size: that is the hypothesis of the
 * contracts that mention them.
 */
module Bicoef {
  import opened RustArith
  import opened NumberTheory
  import opened Math
  import opened ModInt
  import opened Wrappers

  datatype SmallNCombination = SmallNCombination(fact: seq<int>, finv: seq<int>, inv: seq<int>)

  datatype LargeNCombination = LargeNCombination(n: nat, com: seq<int>)

  /** `Bicoef<M>`: one of the two table kinds. */
  datatype Bicoef = SmallN(small: SmallNCombination) | LargeN(large: LargeNCombination)

  /** `fact[i] == i! mod m`. */
  ghost predicate FactTable(fact: seq<int>, m: int)
    requires m > 0
  {
    forall i :: 0 <= i < |fact| ==> fact[i] == Fact(i) % m
  }

  /** `finv[i]` is the inverse of `fact[i]` in `[0, m)`. */
  ghost predicate InverseFactTable(fact: seq<int>, finv: seq<int>, m: int)
    requires m > 0
  {
    |finv| == |fact| &&
    forall i :: 0 <= i < |finv| ==> 0 <= finv[i] < m && (finv[i] * fact[i]) % m == 1
  }

  /** `inv[i]` is the inverse of `i` in `[0, m)` for every `i >= 1`. */
  ghost predicate InverseTable(inv: seq<int>, m: int)
    requires m > 0
  {
    forall i :: 1 <= i < |inv| ==> 0 <= inv[i] < m && (inv[i] * i) % m == 1
  }

  ghost predicate SmallValid(c: SmallNCombination, m: int)
    requires m > 0
  {
    FactTable(c.fact, m) && InverseFactTable(c.fact, c.finv, m) && InverseTable(c.inv, m)
  }

  /** `com[i] == C(n, i) mod m`. */
  ghost predicate LargeValid(c: LargeNCombination, m: int)
    requires m > 0
  {
    forall i :: 0 <= i < |c.com| ==> c.com[i] == Binom(c.n, i) % m
  }

  ghost predicate BicoefValid(b: Bicoef, m: int)
    requires m > 0
  {
    match b
    case SmallN(c) => SmallValid(c, m)
    case LargeN(c) => LargeValid(c, m)
  }

  // ---------------------------------------------------------------------
  // Construction.

  /**
   * The three loops shared by both constructors: factorials upward,
   * `finv[max] = 1 / fact[max]` and the inverse factorials downward, then
   * `inv[i] = finv[i] * fact[i-1]`.
   */
  method Tables(max: nat, m: int) returns (fact: seq<int>, finv: seq<int>, inv: seq<int>)
    requires m > 1
    ensures |fact| == |finv| == |inv| == max + 1
    ensures FactTable(fact, m)
    ensures IsPrime(m) && max < m ==> InverseFactTable(fact, finv, m) && InverseTable(inv, m)
  {
    var one := New(1, m).value;
    ModSmall(1, m);
    fact := seq(max + 1, _ => one);
    finv := seq(max + 1, _ => one);
    inv := seq(max + 1, _ => one);
    for i := 1 to max + 1
      invariant |fact| == max + 1
      invariant forall j :: 0 <= j < i ==> fact[j] == Fact(j) % m
    {
      FactStep(i, m);
      fact := fact[i := Mul(fact[i - 1], New(i, m).value, m)];
    }
    ghost var prime := IsPrime(m) && max < m;
    finv := finv[max := Div(finv[max], fact[max], m)];
    if prime {
      FactNotMultiple(m, max);
      ModOfMod(Fact(max), m);
    }
    var i := max;
    while i > 0
      invariant 0 <= i <= max && |finv| == max + 1
      invariant prime ==> forall j :: i <= j <= max ==> 0 <= finv[j] < m && (finv[j] * fact[j]) % m == 1
    {
      i := i - 1;
      if prime {
        InverseFactStep(finv[i + 1], i, m);
      }
      finv := finv[i := Mul(finv[i + 1], New(i + 1, m).value, m)];
    }
    for i := 1 to max + 1
      invariant |inv| == max + 1
      invariant prime ==> forall j :: 1 <= j < i ==> 0 <= inv[j] < m && (inv[j] * j) % m == 1
    {
      if prime {
        InverseStep(finv[i], i, m);
      }
      inv := inv[i := Mul(finv[i], fact[i - 1], m)];
    }
  }

  lemma FactStep(i: nat, m: int)
    requires m > 0 && i >= 1
    ensures Mul(Fact(i - 1) % m, i % m, m) == Fact(i) % m
  {
    ModMul(Fact(i - 1), i, m);
    assert Fact(i) == Fact(i - 1) * i;
  }

  /** No factorial below a prime is a multiple of it. */
  lemma {:induction false} FactNotMultiple(p: int, n: nat)
    requires IsPrime(p) && n < p
    ensures Fact(n) % p != 0
  {
    if n > 0 {
      FactNotMultiple(p, n - 1);
      DividesIffModZero(p, Fact(n));
      DividesIffModZero(p, Fact(n - 1));
      DividesIffModZero(p, n);
      ModSmall(n, p);
      if Divides(p, Fact(n - 1) * n) {
        EuclidLemma(p, Fact(n - 1), n);
      }
    }
  }

  /** `finv[i] = finv[i+1] * (i+1)` is the inverse of `i!` when `finv[i+1]` is that of `(i+1)!`. */
  lemma InverseFactStep(f1: int, i: nat, m: int)
    requires m > 1 && 0 <= f1 < m && (f1 * (Fact(i + 1) % m)) % m == 1
    ensures var f := Mul(f1, New(i + 1, m).value, m);
      0 <= f < m && (f * (Fact(i) % m)) % m == 1
  {
    var f := Mul(f1, New(i + 1, m).value, m);
    assert f == (f1 * ((i + 1) % m)) % m;
    assert Fact(i + 1) == (i + 1) * Fact(i);
    InverseFactArithmetic(f1, i + 1, Fact(i), f, m);
  }

  lemma InverseFactArithmetic(f1: int, k: int, F: int, f: int, m: int)
    requires m > 0 && (f1 * ((k * F) % m)) % m == 1 && f == (f1 * (k % m)) % m
    ensures (f * (F % m)) % m == 1
  {
    calc {
      (f * (F % m)) % m;
      { ModOfMod(f1 * (k % m), m); ModOfMod(F, m); CongruentProduct(f, f1 * (k % m), F % m, F, m); }
      ((f1 * (k % m)) * F) % m;
      { assert (f1 * (k % m)) * F == f1 * ((k % m) * F);
        ModOfMod(k, m); CongruentProduct(k % m, k, F, F, m);
        CongruentProduct(f1, f1, (k % m) * F, k * F, m); }
      (f1 * (k * F)) % m;
      { ModOfMod(k * F, m); CongruentProduct(f1, f1, k * F, (k * F) % m, m); }
      (f1 * ((k * F) % m)) % m;
    }
  }

  /** `inv[i] = finv[i] * fact[i-1]` is the inverse of `i`. */
  lemma InverseStep(fi: int, i: nat, m: int)
    requires m > 1 && i >= 1 && 0 <= fi < m && (fi * (Fact(i) % m)) % m == 1
    ensures var v := Mul(fi, Fact(i - 1) % m, m); 0 <= v < m && (v * i) % m == 1
  {
    var v := Mul(fi, Fact(i - 1) % m, m);
    assert v == (fi * (Fact(i - 1) % m)) % m;
    assert Fact(i) == Fact(i - 1) * i;
    InverseArithmetic(fi, Fact(i - 1), i, v, m);
  }

  lemma InverseArithmetic(fi: int, F: int, i: int, v: int, m: int)
    requires m > 0 && (fi * ((F * i) % m)) % m == 1 && v == (fi * (F % m)) % m
    ensures (v * i) % m == 1
  {
    calc {
      (v * i) % m;
      { ModOfMod(fi * (F % m), m); CongruentProduct(v, fi * (F % m), i, i, m); }
      ((fi * (F % m)) * i) % m;
      { assert (fi * (F % m)) * i == fi * ((F % m) * i);
        ModOfMod(F, m); CongruentProduct(F % m, F, i, i, m);
        CongruentProduct(fi, fi, (F % m) * i, F * i, m); }
      (fi * (F * i)) % m;
      { ModOfMod(F * i, m); CongruentProduct(fi, fi, F * i, (F * i) % m, m); }
      (fi * ((F * i) % m)) % m;
    }
  }

  /** `SmallNCombination::new(max)`. */
  method NewSmall(max: nat, m: int) returns (c: SmallNCombination)
    requires m > 1
    ensures |c.fact| == |c.finv| == |c.inv| == max + 1
    ensures FactTable(c.fact, m)
    ensures IsPrime(m) && max < m ==> SmallValid(c, m)
  {
    var fact, finv, inv := Tables(max, m);
    c := SmallNCombination(fact, finv, inv);
  }

  /**
   * `LargeNCombination::new(n, r_max)`: `com[i] = com[i-1] * (n-i+1) * inv[i]`.
   * `n - i + 1` is the `usize` expression `(n - i) + 1`, which underflows at
   * `i == n + 1`, so `r_max <= n` is required.
   */
  method NewLarge(n: nat, rMax: nat, m: int) returns (c: LargeNCombination)
    requires m > 1 && rMax <= n
    ensures c.n == n && |c.com| == rMax + 1
    ensures IsPrime(m) && rMax < m ==> LargeValid(c, m)
  {
    var fact, finv, inv := Tables(rMax, m);
    ghost var prime := IsPrime(m) && rMax < m;
    var one := New(1, m).value;
    var com := seq(rMax + 1, _ => one);
    com := com[0 := one];
    ModSmall(1, m);
    for i := 1 to rMax + 1
      invariant |com| == rMax + 1
      invariant prime ==> forall j :: 0 <= j < i ==> com[j] == Binom(n, j) % m
    {
      if prime {
        BinomStepUp(n, i);
        ComStep(com[i - 1], Binom(n, i - 1), Binom(n, i), n - i + 1, inv[i], i, m);
      }
      com := com[i := Mul(Mul(com[i - 1], New(n - i + 1, m).value, m), inv[i], m)];
    }
    c := LargeNCombination(n, com);
  }

  /** `i * C(n, i) == (n - i + 1) * C(n, i - 1)`. */
  lemma BinomStepUp(n: nat, i: nat)
    requires 1 <= i <= n + 1
    ensures i * Binom(n, i) == (n - i + 1) * Binom(n, i - 1)
  {
    if i == n + 1 {
      BinomAbove(n, i);
    } else {
      BinomFactorial(n, i);
      BinomFactorial(n, i - 1);
      assert Fact(i) == Fact(i - 1) * i;
      assert Fact(n - i + 1) == Fact(n - i) * (n - i + 1);
      StepUpArithmetic(Binom(n, i), Binom(n, i - 1), i, n - i + 1, Fact(i - 1), Fact(n - i), Fact(n));
    }
  }

  lemma StepUpArithmetic(b: int, b1: int, i: int, k: int, fi1: int, fk: int, f: int)
    requires fi1 > 0 && fk > 0
    requires b * (fi1 * i) * fk == f
    requires b1 * fi1 * (fk * k) == f
    ensures i * b == k * b1
  {
    assert (i * b) * (fi1 * fk) == f by {
      calc { (i * b) * (fi1 * fk); b * (fi1 * i) * fk; }
    }
    assert (k * b1) * (fi1 * fk) == f by {
      calc { (k * b1) * (fi1 * fk); b1 * fi1 * (fk * k); }
    }
    MulCancel(i * b, k * b1, fi1 * fk);
  }

  /** `com[i-1] * (n-i+1) * inv[i]` is `C(n, i)` modulo `m`. */
  lemma ComStep(c1: int, b1: int, b: int, k: int, iv: int, i: int, m: int)
    requires m > 1 && c1 == b1 % m && i * b == k * b1 && k >= 0 && 0 <= iv < m && (iv * i) % m == 1
    ensures Mul(Mul(c1, New(k, m).value, m), iv, m) == b % m
  {
    var t := Mul(c1, New(k, m).value, m);
    var r := Mul(t, iv, m);
    ComArithmetic(c1, b1, b, k, iv, i, t, r, m);
  }

  lemma ComArithmetic(c1: int, b1: int, b: int, k: int, iv: int, i: int, t: int, r: int, m: int)
    requires m > 0 && c1 == b1 % m && i * b == k * b1 && 0 <= iv && (iv * i) % m == 1
    requires t == (c1 * (k % m)) % m && r == (t * iv) % m
    ensures r == b % m
  {
    ReduceFactor(c1, k, m);
    ModOfMod(b1, m);
    CongruentProduct(c1, b1, k, k, m);
    assert t == (b1 * k) % m;
    ModOfMod(b1 * k, m);
    CongruentProduct(t, b1 * k, iv, iv, m);
    SwapFactors(b1, k, iv, i, b);
    ModSmall(1, m);
    CongruentProduct(b, b, iv * i, 1, m);
  }

  lemma SwapFactors(b1: int, k: int, iv: int, i: int, b: int)
    requires i * b == k * b1
    ensures (b1 * k) * iv == b * (iv * i)
  {
    calc {
      (b1 * k) * iv;
      (k * b1) * iv;
      (i * b) * iv;
      b * (iv * i);
    }
  }

  // ---------------------------------------------------------------------
  // Queries.

  /** `SmallNCombination::comb(n, r)`: 0 when `n < r`, otherwise `C(n, r) mod m`. */
  function Comb(c: SmallNCombination, n: nat, r: nat, m: int): (x: int)
    requires m > 0 && n < |c.fact| && n < |c.finv|
    ensures n < r ==> x == 0
    ensures SmallValid(c, m) && r <= n ==> x == Binom(n, r) % m
  {
    if n < r then 0
    else
      var x := Mul(Mul(c.fact[n], c.finv[r], m), c.finv[n - r], m);
      CombFacts(c, n, r, m);
      x
  }

  lemma CombFacts(c: SmallNCombination, n: nat, r: nat, m: int)
    requires m > 0 && r <= n < |c.fact| && n < |c.finv|
    ensures SmallValid(c, m) ==> Mul(Mul(c.fact[n], c.finv[r], m), c.finv[n - r], m) == Binom(n, r) % m
  {
    if SmallValid(c, m) {
      BinomFactorial(n, r);
      var x := Mul(Mul(c.fact[n], c.finv[r], m), c.finv[n - r], m);
      assert x == (((c.fact[n] * c.finv[r]) % m) * c.finv[n - r]) % m;
      CombArithmetic(Binom(n, r), Fact(r), Fact(n - r), Fact(n), c.fact[n], c.finv[r], c.finv[n - r], m);
    }
  }

  lemma CombArithmetic(b: int, fr: int, fnr: int, fn: int, a: int, ir: int, inr: int, m: int)
    requires m > 0 && b * fr * fnr == fn && a == fn % m
    requires 0 <= ir && 0 <= inr && (ir * (fr % m)) % m == 1 && (inr * (fnr % m)) % m == 1
    ensures (((a * ir) % m) * inr) % m == b % m
  {
    ModOfMod(fn, m);
    calc {
      (((a * ir) % m) * inr) % m;
      { ModOfMod(a * ir, m); CongruentProduct((a * ir) % m, a * ir, inr, inr, m); }
      ((a * ir) * inr) % m;
      { CongruentProduct(a, fn, ir * inr, ir * inr, m); assert (a * ir) * inr == a * (ir * inr); }
      (fn * (ir * inr)) % m;
      { assert fn * (ir * inr) == b * ((ir * fr) * (inr * fnr)); }
      (b * ((ir * fr) * (inr * fnr))) % m;
      { UnitProduct(ir, fr, inr, fnr, m);
        CongruentProduct(b, b, (ir * fr) * (inr * fnr), 1, m); }
      b % m;
    }
  }

  lemma UnitProduct(ir: int, fr: int, inr: int, fnr: int, m: int)
    requires m > 0 && (ir * (fr % m)) % m == 1 && (inr * (fnr % m)) % m == 1
    ensures ((ir * fr) * (inr * fnr)) % m == 1 % m
  {
    ReduceFactor(ir, fr, m);
    ReduceFactor(inr, fnr, m);
    ModSmall(1, m);
    ProductOfUnits(ir * fr, inr * fnr, m);
  }

  /** `n * (n-1) * ... * (n-k+1)`, the number of `k`-permutations of `n` items. */
  function FallingFact(n: nat, k: nat): nat
    requires k <= n
  {
    if k == 0 then 1 else n * FallingFact(n - 1, k - 1)
  }

  lemma {:induction false} FallingFactorial(n: nat, k: nat)
    requires k <= n
    ensures FallingFact(n, k) * Fact(n - k) == Fact(n)
  {
    if k > 0 {
      FallingFactorial(n - 1, k - 1);
      assert (n - 1) - (k - 1) == n - k;
      ScaleProduct(n, FallingFact(n - 1, k - 1), Fact(n - k), Fact(n - 1));
    }
  }

  lemma ScaleProduct(n: int, a: int, f: int, g: int)
    requires a * f == g
    ensures (n * a) * f == n * g
  {
  }

  /** `SmallNCombination::perm(n, r)`: 0 when `n < r`, otherwise `n!/(n-r)! mod m`. */
  function Perm(c: SmallNCombination, n: nat, r: nat, m: int): (x: int)
    requires m > 0 && n < |c.fact| && n < |c.finv|
    ensures n < r ==> x == 0
    ensures SmallValid(c, m) && r <= n ==> x == FallingFact(n, r) % m
  {
    if n < r then 0
    else
      var x := Mul(c.fact[n], c.finv[n - r], m);
      PermFacts(c, n, r, m);
      x
  }

  lemma PermFacts(c: SmallNCombination, n: nat, r: nat, m: int)
    requires m > 0 && r <= n < |c.fact| && n < |c.finv|
    ensures SmallValid(c, m) ==> Mul(c.fact[n], c.finv[n - r], m) == FallingFact(n, r) % m
  {
    if SmallValid(c, m) {
      FallingFactorial(n, r);
      DivideOutFactorial(FallingFact(n, r), Fact(n - r), Fact(n), c.fact[n], c.finv[n - r], m);
    }
  }

  lemma DivideOutFactorial(p: int, fnr: int, fn: int, a: int, inr: int, m: int)
    requires m > 0 && p * fnr == fn && a == fn % m && 0 <= inr && (inr * (fnr % m)) % m == 1
    ensures (a * inr) % m == p % m
  {
    ReduceFactor(inr, fnr, m);
    ModSmall(1, m);
    var u := inr * fnr;
    ModOfMod(fn, m);
    CongruentProduct(a, fn, inr, inr, m);
    Reassociate(p, fnr, inr);
    assert fn * inr == p * u;
    CongruentProduct(p, p, u, 1, m);
  }

  lemma Reassociate(p: int, f: int, i: int)
    ensures (p * f) * i == p * (i * f)
  {
  }

  /** `multicomb(n, r)`: 1 when `r == 0`, otherwise `C(n + r - 1, r)`, the number of size-`r` multisets from `n` kinds. */
  function MultiComb(c: SmallNCombination, n: nat, r: nat, m: int): (x: int)
    requires m > 0 && (r > 0 ==> n + r - 1 < |c.fact| && n + r - 1 < |c.finv|)
    ensures r == 0 ==> x == 1 % m
    ensures SmallValid(c, m) && r > 0 ==> x == Binom(n + r - 1, r) % m
  {
    if r == 0 then New(1, m).value
    else
      if n == 0 then BinomAbove(r - 1, r); Comb(c, n + r - 1, r, m)
      else Comb(c, n + r - 1, r, m)
  }

  /** `LargeNCombination::comb(r)`: `com[r]`, which is `C(n, r) mod m`. */
  function LargeComb(c: LargeNCombination, r: nat, m: int): (x: int)
    requires m > 0 && r < |c.com|
    ensures LargeValid(c, m) ==> x == Binom(c.n, r) % m
  {
    c.com[r]
  }

  /** `Bicoef::small_new(n)`. */
  method SmallNew(n: nat, m: int) returns (b: Bicoef)
    requires m > 1
    ensures b.SmallN? && |b.small.fact| == |b.small.finv| == n + 1
    ensures IsPrime(m) && n < m ==> BicoefValid(b, m)
  {
    var c := NewSmall(n, m);
    b := SmallN(c);
  }

  /** `Bicoef::large_new(n, r)`. */
  method LargeNew(n: nat, r: nat, m: int) returns (b: Bicoef)
    requires m > 1 && r <= n
    ensures b.LargeN? && b.large.n == n && |b.large.com| == r + 1
    ensures IsPrime(m) && r < m ==> BicoefValid(b, m)
  {
    var c := NewLarge(n, r, m);
    b := LargeN(c);
  }

  /**
   * `Bicoef::comb(n, r)`.  The large-`n` table answers only for the `n` it
   * was built for; any other `n` fails its `assert_eq!`, which is `None`.
   */
  function BicoefComb(b: Bicoef, n: nat, r: nat, m: int): (x: Option<int>)
    requires m > 0
    requires b.SmallN? ==> n < |b.small.fact| && n < |b.small.finv|
    requires b.LargeN? && b.large.n == n ==> r < |b.large.com|
    ensures x.None? <==> b.LargeN? && b.large.n != n
    ensures BicoefValid(b, m) && x.Some? && r <= n ==> x.value == Binom(n, r) % m
  {
    match b
    case SmallN(c) => Some(Comb(c, n, r, m))
    case LargeN(c) => if c.n != n then None else Some(LargeComb(c, r, m))
  }
}
