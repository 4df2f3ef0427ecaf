/**
 * Modular integers (`DynamicModInt` and `StaticModInt<M>`).
 *
 * A modular integer is an `i64` value together with a modulus: the
 * thread-local modulus of `DynamicModInt` or the constant `M::modulo()` of
 * `StaticModInt<M>`.  Both types run the same code, so the model works on the
 * raw value and passes the modulus `m` explicitly.  An assignment operator
 * such as `x += y` is modelled by `x := Add(x, y, m)`; the non-assigning
 * operator `x + y` copies `x` and applies the assignment operator, so it is
 * the same function.
 *
 * The right-hand operand of every operator is an arbitrary integer `rhs`;
 * it is reduced only when `rhs >= m`.  A negative `rhs` therefore reaches
 * the arithmetic unreduced, which is where the operators stop keeping the
 * value in `[0, m)` (see `Add`, `Sub`, `Mul` and their corrected versions).
 */
module ModInt {
  import opened RustArith
  import opened NumberTheory
  import opened Math
  import opened Wrappers

  // ---------------------------------------------------------------------
  // The static moduli.

  /** The `ModuloPrimitive` types defined by `define_modulo_primitive!`. */
  datatype Modulus =
    | Mod924844033
    | Mod998244353
    | Mod1012924417
    | Mod167772161
    | Mod469762049
    | Mod1224736769

  /**
   * `M::modulo()`.  Every static modulus is below 2^31, so a product of two
   * reduced values fits in an `i64`, and is 1 more than a multiple of 2^21,
   * so it has the roots of unity of order 2^21 the number-theoretic
   * transform needs.
   */
  function Modulo(M: Modulus): (m: int)
    ensures 1 < m < 0x8000_0000
    ensures (m - 1) * (m - 1) <= I64_MAX
    ensures (m - 1) % 0x20_0000 == 0
  {
    match M
    case Mod924844033 => 924844033
    case Mod998244353 => 998244353
    case Mod1012924417 => 1012924417
    case Mod167772161 => 167772161
    case Mod469762049 => 469762049
    case Mod1224736769 => 1224736769
  }

  /** `M::primitive_root()`: a generator of the multiplicative group modulo `M::modulo()`. */
  function PrimitiveRoot(M: Modulus): (g: int)
    ensures 1 < g < Modulo(M)
  {
    match M
    case Mod924844033 => 5
    case Mod998244353 => 3
    case Mod1012924417 => 5
    case Mod167772161 => 3
    case Mod469762049 => 3
    case Mod1224736769 => 3
  }

  // ---------------------------------------------------------------------
  // Construction.

  /**
   * `new(v)`: the value reduced into `[0, m)`.  Both remainders in the body
   * divide by `m`, so an unset modulus (`m == 0`) panics; that is `None`.
   */
  function New(v: int, m: int): (r: Option<int>)
    ensures r.None? <==> m == 0
    ensures m > 0 ==> r == Some(v % m)
  {
    if m == 0 then None
    else
      var v1 := if v >= m then TRem(v, m) else v;
      NewFacts(v, v1, m);
      Some(if v1 < 0 then TRem(TRem(v1, m) + m, m) else v1)
  }

  lemma NewFacts(v: int, v1: int, m: int)
    requires m != 0 && v1 == if v >= m then TRem(v, m) else v
    ensures m > 0 ==> (if v1 < 0 then TRem(TRem(v1, m) + m, m) else v1) == v % m
  {
    if m > 0 {
      if v1 < 0 {
        var t := TRem(v1, m);
        TRemCongruent(v1, m);
        ModAddMultiple(t, m, 1);
      } else if v < m {
        ModSmall(v, m);
      }
    }
  }

  /** The reduction every operator applies to its right-hand operand: `if rhs >= m { rhs %= m }`. */
  function Reduce(rhs: int, m: int): (r: int)
    requires m > 0
    ensures r % m == rhs % m
    ensures rhs >= 0 ==> 0 <= r < m
    ensures rhs < 0 ==> r == rhs
  {
    if rhs >= m then rhs % m else (ModSmallIfInRange(rhs, m); rhs)
  }

  lemma ModSmallIfInRange(x: int, m: int)
    requires m > 0
    ensures 0 <= x < m ==> x % m == x
  {
    if 0 <= x < m {
      ModSmall(x, m);
    }
  }

  // ---------------------------------------------------------------------
  // Addition, subtraction, multiplication.

  /**
   * `add_assign(rhs)`.  On a reduced value and a non-negative operand the
   * result is the reduced sum.  A negative operand is added unreduced: the
   * result stays congruent but leaves `[0, m)` whenever the sum is negative.
   */
  function Add(a: int, rhs: int, m: int): (r: int)
    requires m > 0
    ensures r % m == (a + rhs) % m
    ensures 0 <= a < m && rhs >= 0 ==> r == (a + rhs) % m
    ensures 0 <= a < m && rhs < 0 ==> (r < 0 <==> a + rhs < 0)
  {
    var s := a + Reduce(rhs, m);
    AddFacts(a, rhs, s, m);
    if s >= m then s - m else s
  }

  lemma AddFacts(a: int, rhs: int, s: int, m: int)
    requires m > 0 && s == a + Reduce(rhs, m)
    ensures (if s >= m then s - m else s) % m == (a + rhs) % m
    ensures 0 <= a < m && rhs >= 0 ==> (if s >= m then s - m else s) == (a + rhs) % m
  {
    var b := Reduce(rhs, m);
    var r := if s >= m then s - m else s;
    ModAddMultiple(r, m, if s >= m then 1 else 0);
    ModAdd(a, b, m);
    ModAdd(a, rhs, m);
    if 0 <= a < m && rhs >= 0 {
      ModSmall(r, m);
    }
  }

  /**
   * `sub_assign(rhs)`.  On a reduced value and a non-negative operand the
   * result is the reduced difference.  A non-positive operand is ignored:
   * the value is left unchanged, which is wrong whenever `rhs % m != 0`.
   */
  function Sub(a: int, rhs: int, m: int): (r: int)
    requires m > 0
    ensures rhs >= 0 ==> r % m == (a - rhs) % m
    ensures 0 <= a < m && rhs >= 0 ==> r == (a - rhs) % m
    ensures a < m && rhs <= 0 ==> r == a
  {
    var b := Reduce(rhs, m);
    var s := if b > 0 then a + (m - b) else a;
    SubFacts(a, rhs, s, m);
    if s >= m then s - m else s
  }

  lemma SubFacts(a: int, rhs: int, s: int, m: int)
    requires m > 0 && s == (if Reduce(rhs, m) > 0 then a + (m - Reduce(rhs, m)) else a)
    ensures rhs >= 0 ==> (if s >= m then s - m else s) % m == (a - rhs) % m
    ensures 0 <= a < m && rhs >= 0 ==> (if s >= m then s - m else s) == (a - rhs) % m
  {
    var b := Reduce(rhs, m);
    var r := if s >= m then s - m else s;
    if rhs >= 0 {
      if b > 0 {
        assert r == (a - b) + m * (if s >= m then 0 else 1);
        ModAddMultiple(a - b, m, if s >= m then 0 else 1);
      } else {
        assert b == 0;
        assert r == (a - b) + m * (if s >= m then -1 else 0);
        ModAddMultiple(a - b, m, if s >= m then -1 else 0);
      }
      ModSub(a, b, m);
      ModSub(a, rhs, m);
      if 0 <= a < m {
        ModSmall(r, m);
      }
    }
  }

  /**
   * `mul_assign(rhs)`: the product reduced with Rust's `%`.  It is always
   * congruent to `a * rhs`; on non-negative operands it is the reduced
   * product; with a negative operand it is negative unless it is 0.
   */
  function Mul(a: int, rhs: int, m: int): (r: int)
    requires m > 0
    ensures r % m == (a * rhs) % m
    ensures -m < r < m
    ensures a >= 0 && rhs >= 0 ==> r == (a * rhs) % m
    ensures a >= 0 && rhs < 0 && (a * rhs) % m != 0 ==> r < 0
  {
    var b := Reduce(rhs, m);
    MulFacts(a, rhs, b, m);
    TRem(a * b, m)
  }

  lemma MulFacts(a: int, rhs: int, b: int, m: int)
    requires m > 0 && b == Reduce(rhs, m)
    ensures TRem(a * b, m) % m == (a * rhs) % m
    ensures a >= 0 && rhs >= 0 ==> TRem(a * b, m) == (a * rhs) % m
    ensures a >= 0 && rhs < 0 ==> a * b <= 0
  {
    TRemCongruent(a * b, m);
    CongruentProduct(a, a, b, rhs, m);
    if a >= 0 && rhs >= 0 {
      assert a * b >= 0;
    }
    if a >= 0 && rhs < 0 {
      assert a * b <= 0;
    }
  }

  // ---------------------------------------------------------------------
  // Powers, inverse, division.

  /**
   * `pow(e)` (`internal_pow`): the same square-and-multiply loop as
   * `powmod`, started from the raw value.
   */
  method Power(c: int, e: int, m: int) returns (r: int)
    requires m > 0
    ensures r == PowRem(c, e, m)
    ensures 0 <= c && 0 < e ==> 0 <= r < m && r == Pow(c, e) % m
  {
    r := PowMod(c, e, m);
  }

  /**
   * `inv()`: the extended Euclidean algorithm on `(value, m)`, keeping the
   * coefficient `u` with `u * value == a` modulo `m`, then reduced with
   * `new`.  For a non-negative value the result times the value is the gcd
   * modulo `m`, hence 1 when they are coprime; a negative value stops the
   * loop after one step and yields 0, and so does the value 0.
   */
  method Inv(a0: int, m: int) returns (r: int)
    requires m > 0
    ensures 0 <= r < m
    ensures a0 >= 0 ==> (a0 * r) % m == Gcd(a0, m) % m
    ensures a0 >= 0 && Gcd(a0, m) == 1 ==> (a0 * r) % m == 1 % m
    ensures a0 < 0 ==> r == 0
    ensures a0 == 0 ==> r == 0
  {
    var a, b, u, v := a0, m, 1, 0;
    MultipleMod(m, -1);
    while b > 0
      invariant (u * a0 - a) % m == 0 && (v * a0 - b) % m == 0
      invariant a0 >= 0 ==> a >= 0 && b >= 0 && Gcd(a, b) == Gcd(a0, m)
      invariant a0 < 0 ==> (a == a0 && b == m && u == 1 && v == 0) || (b <= 0 && u == 0)
      invariant a0 == 0 ==> (a == 0 && b == m && u == 1 && v == 0) || (b == 0 && u == 0)
      decreases b
    {
      var tmp := TDiv(a, b);
      InvGcdStep(a, b);
      InvStep(a0, a, b, u, v, tmp, m);
      a := a - tmp * b;
      a, b := b, a;
      u := u - tmp * v;
      u, v := v, u;
    }
    var n := New(u, m);
    r := n.value;
    if a0 >= 0 {
      InvResult(a0, u, a, r, m);
    }
  }

  /** One division step of Euclid's algorithm leaves Rust's remainder and keeps the gcd. */
  lemma InvGcdStep(a: int, b: int)
    requires b > 0
    ensures a - TDiv(a, b) * b == TRem(a, b) < b
    ensures a >= 0 ==> TRem(a, b) >= 0
    ensures a < 0 ==> TRem(a, b) <= 0
    ensures Gcd(a, b) == Gcd(b, TRem(a, b))
  {
  }

  /** The coefficient update keeps `u * a0 == a` modulo `m` for the new pair. */
  lemma InvStep(a0: int, a: int, b: int, u: int, v: int, t: int, m: int)
    requires m > 0 && (u * a0 - a) % m == 0 && (v * a0 - b) % m == 0
    ensures ((u - t * v) * a0 - (a - t * b)) % m == 0
  {
    var x, y := u * a0 - a, v * a0 - b;
    var kx, ky := x / m, y / m;
    assert x == m * kx && y == m * ky;
    calc {
      (u - t * v) * a0 - (a - t * b);
      x - t * y;
      m * kx - t * (m * ky);
      m * (kx - t * ky);
    }
    MultipleMod(m, kx - t * ky);
  }

  lemma InvResult(a0: int, u: int, g: int, r: int, m: int)
    requires m > 0 && (u * a0 - g) % m == 0 && r == u % m
    ensures (a0 * r) % m == g % m
  {
    CongruentIffDivides(u * a0, g, m);
    DividesIffModZero(m, u * a0 - g);
    ModOfMod(u, m);
    CongruentProduct(a0, a0, r, u, m);
    assert a0 * u == u * a0;
  }

  /**
   * `div_assign(rhs)`: multiplication by `rhs^(m-2)`, the inverse of `rhs`
   * by Fermat's little theorem when `m` is prime.  Division by a multiple
   * of a prime `m > 2` gives 0 rather than panicking.
   */
  function Div(a: int, rhs: int, m: int): (r: int)
    requires m > 0
    ensures -m < r < m
    ensures a >= 0 && rhs >= 0 ==> 0 <= r
    ensures IsPrime(m) && a >= 0 && rhs >= 0 && rhs % m != 0 ==> Mul(r, rhs, m) == a % m
    ensures m > 2 && rhs >= 0 && rhs % m == 0 ==> r == 0
  {
    var b := Reduce(rhs, m);
    var inv := PowRem(b, m - 2, m);
    DivFacts(a, rhs, b, inv, m);
    TRem(a * inv, m)
  }

  lemma DivFacts(a: int, rhs: int, b: int, inv: int, m: int)
    requires m > 0 && b == Reduce(rhs, m) && inv == PowRem(b, m - 2, m)
    ensures IsPrime(m) && a >= 0 && rhs >= 0 && rhs % m != 0 ==>
      0 <= TRem(a * inv, m) < m && Mul(TRem(a * inv, m), rhs, m) == a % m
    ensures m > 2 && rhs >= 0 && rhs % m == 0 ==> TRem(a * inv, m) == 0
    ensures a >= 0 && rhs >= 0 ==> TRem(a * inv, m) >= 0
  {
    if a >= 0 && rhs >= 0 {
      DivNonNegative(a, b, inv, m);
    }
    if IsPrime(m) && a >= 0 && rhs >= 0 && rhs % m != 0 {
      DivByUnit(a, rhs, b, inv, m);
    }
    if m > 2 && rhs >= 0 && rhs % m == 0 {
      DivByZeroClass(a, rhs, b, inv, m);
    }
  }

  lemma DivNonNegative(a: int, b: int, inv: int, m: int)
    requires m > 0 && b >= 0 && inv == PowRem(b, m - 2, m) && a >= 0
    ensures TRem(a * inv, m) >= 0
  {
    assert inv >= 0 by {
      if m - 2 > 0 {
        PowNonNegative(b, m - 2);
      }
    }
    assert a * inv >= 0;
  }

  lemma DivByZeroClass(a: int, rhs: int, b: int, inv: int, m: int)
    requires m > 2 && b == Reduce(rhs, m) && inv == PowRem(b, m - 2, m)
    requires rhs >= 0 && rhs % m == 0
    ensures TRem(a * inv, m) == 0
  {
    assert b == 0 by { ModSmall(b, m); }
    PowOfZero(m - 2);
    assert a * inv == 0;
  }

  lemma DivByUnit(a: int, rhs: int, b: int, inv: int, m: int)
    requires m > 0 && b == Reduce(rhs, m) && inv == PowRem(b, m - 2, m)
    requires IsPrime(m) && a >= 0 && rhs >= 0 && rhs % m != 0
    ensures 0 <= TRem(a * inv, m) < m && Mul(TRem(a * inv, m), rhs, m) == a % m
  {
    PowNonNegative(b, m - 2);
    assert inv >= 0 && inv % m == Pow(b, m - 2) % m;
    var q := TRem(a * inv, m);
    assert q == (a * inv) % m;
    ModOfMod(b, m);
    FermatUnit(m, b);
    PowAdd(b, m - 2, 1);
    assert Pow(b, 1) == b;
    InverseArithmetic(a, b, inv, Pow(b, m - 2), Pow(b, m - 1), q, m);
    CongruentProduct(q, q, rhs, b, m);
  }

  /** `q == a * inv (mod m)` and `inv * b == b^(m-1) == 1 (mod m)` give `q * b == a (mod m)`. */
  lemma InverseArithmetic(a: int, b: int, inv: int, p: int, p1: int, q: int, m: int)
    requires m > 0 && inv % m == p % m && p1 == p * b && p1 % m == 1
    requires q == (a * inv) % m
    ensures (q * b) % m == a % m
  {
    ModOfMod(a * inv, m);
    CongruentProduct(q, a * inv, b, b, m);
    assert (a * inv) * b == a * (inv * b);
    CongruentProduct(inv, p, b, b, m);
    ModOfMod(1, m);
    CongruentProduct(a, a, inv * b, 1, m);
  }

  // ---------------------------------------------------------------------
  // Operators defined only for `StaticModInt`.

  /** `-x`: `new(m - x)`, the additive inverse in `[0, m)`. */
  function Neg(a: int, m: int): (r: int)
    requires m > 0
    ensures 0 <= r < m
    ensures (a + r) % m == 0
  {
    var n := New(m - a, m);
    NegFacts(a, m);
    n.value
  }

  lemma NegFacts(a: int, m: int)
    requires m > 0
    ensures (a + (m - a) % m) % m == 0
  {
    ModAdd(a, m - a, m);
    ModOfMod(m - a, m);
    ModAdd(a, (m - a) % m, m);
    MultipleMod(m, 1);
  }

  /** `x + y` with an `i64` on the left: `new(x)` plus `y.value()`. */
  function AddFromInt(x: int, rhs: int, m: int): (r: int)
    requires m > 0
    ensures 0 <= rhs < m ==> r == (x + rhs) % m
  {
    ModAdd(x, rhs, m);
    ModOfMod(x, m);
    ModSmallIfInRange(rhs, m);
    Add(New(x, m).value, rhs, m)
  }

  /** `x - y` with an `i64` on the left: `new(x)` minus `y.value()`. */
  function SubFromInt(x: int, rhs: int, m: int): (r: int)
    requires m > 0
    ensures 0 <= rhs < m ==> r == (x - rhs) % m
  {
    ModSub(x, rhs, m);
    ModOfMod(x, m);
    ModSmallIfInRange(rhs, m);
    Sub(New(x, m).value, rhs, m)
  }

  /** `x * y` with an `i64` on the left: `new(x)` times `y.value()`. */
  function MulFromInt(x: int, rhs: int, m: int): (r: int)
    requires m > 0
    ensures 0 <= rhs < m ==> r == (x * rhs) % m
  {
    CongruentProduct(x % m, x, rhs, rhs, m);
    ModOfMod(x, m);
    Mul(New(x, m).value, rhs, m)
  }

  /** `x / y` with an `i64` on the left: `new(x)` divided by `y.value()`. */
  function DivFromInt(x: int, rhs: int, m: int): (r: int)
    requires m > 0
    ensures rhs >= 0 ==> 0 <= r < m
    ensures IsPrime(m) && 0 < rhs < m ==> 0 <= r < m && Mul(r, rhs, m) == x % m
  {
    ModOfMod(x, m);
    ModSmallIfInRange(rhs, m);
    Div(New(x, m).value, rhs, m)
  }

  /**
   * A negative right-hand operand, as the convolution of `procon_fps` passes
   * when it multiplies by `-1`: adding it leaves `[0, m)`, subtracting it
   * does nothing, and multiplying by it gives a negative value, where the
   * reduced results are `m - 1`, `1` and `m - 1`.
   */
  lemma NegativeOperandExample(m: int)
    requires m > 1
    ensures Add(0, -1, m) == -1 && AddReduced(0, -1, m) == m - 1
    ensures Sub(0, -1, m) == 0 && SubReduced(0, -1, m) == 1
    ensures Mul(1, -1, m) == -1 && MulReduced(1, -1, m) == m - 1
  {
    assert (0 - -1) % m == 1 by { ModSmall(1, m); }
    assert (0 + -1) % m == m - 1 by { ModAddMultiple(m - 1, m, -1); ModSmall(m - 1, m); }
  }

  // ---------------------------------------------------------------------
  // Corrected operators: the right-hand operand reduced into `[0, m)` first,
  // exactly as `new` reduces a value.

  /** `Add` with the operand reduced by `new`: the reduced sum for every integer operand. */
  function AddReduced(a: int, rhs: int, m: int): (r: int)
    requires m > 0
    ensures 0 <= a < m ==> r == (a + rhs) % m
  {
    ModAdd(a, rhs, m);
    ModAdd(a, rhs % m, m);
    ModOfMod(rhs, m);
    Add(a, New(rhs, m).value, m)
  }

  /** `Sub` with the operand reduced by `new`: the reduced difference for every integer operand. */
  function SubReduced(a: int, rhs: int, m: int): (r: int)
    requires m > 0
    ensures 0 <= a < m ==> r == (a - rhs) % m
  {
    ModSub(a, rhs, m);
    ModSub(a, rhs % m, m);
    ModOfMod(rhs, m);
    Sub(a, New(rhs, m).value, m)
  }

  /** `Mul` with the operand reduced by `new`: the reduced product for every integer operand. */
  function MulReduced(a: int, rhs: int, m: int): (r: int)
    requires m > 0
    ensures 0 <= a < m ==> r == (a * rhs) % m
  {
    ModOfMod(rhs, m);
    CongruentProduct(a, a, rhs % m, rhs, m);
    Mul(a, New(rhs, m).value, m)
  }
}
