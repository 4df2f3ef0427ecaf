/**
 * Rust's integer division and remainder.
 *
 * Rust's `/` truncates toward zero and `%` takes the sign of the dividend,
 * whereas Dafny's `/` and `%` on `int` are Euclidean.  Every Rust `/` or `%`
 * whose operands may be negative is written with `TDiv` and `TRem` below.
 */
module RustArith {

  function Abs(x: int): int { if x < 0 then -x else x }

  /** Rust's `a / b` for signed integers (rounds toward zero). */
  function TDiv(a: int, b: int): (q: int)
    requires b != 0
    ensures Abs(a - b * q) < Abs(b)
    ensures a >= 0 ==> a - b * q >= 0
    ensures a < 0 ==> a - b * q <= 0
    ensures a >= 0 && b > 0 ==> q == a / b
  {
    if a >= 0 then (if b > 0 then a / b else -(a / -b))
    else (if b > 0 then -((-a) / b) else (-a) / (-b))
  }

  /** Rust's `a % b` for signed integers: the remainder of `TDiv`. */
  function TRem(a: int, b: int): (r: int)
    requires b != 0
    ensures (a - r) % Abs(b) == 0
    ensures a >= 0 ==> 0 <= r < Abs(b)
    ensures a < 0 ==> -Abs(b) < r <= 0
    ensures a >= 0 && b > 0 ==> r == a % b
  {
    TRemFacts(a, b, TDiv(a, b));
    a - b * TDiv(a, b)
  }

  lemma TRemFacts(a: int, b: int, q: int)
    requires b != 0 && q == TDiv(a, b)
    ensures (a - (a - b * q)) % Abs(b) == 0
    ensures a >= 0 && b > 0 ==> a - b * q == a % b
  {
    assert a - (a - b * q) == b * q;
    if b > 0 {
      MultipleMod(b, q);
    } else {
      assert b * q == (-b) * (-q);
      MultipleMod(-b, -q);
    }
    if a >= 0 && b > 0 {
      DivModUnique(a, b, q, a - b * q);
    }
  }

  lemma MultipleMod(m: int, k: int)
    requires m > 0
    ensures (m * k) % m == 0
  {
    DivModUnique(m * k, m, k, 0);
  }

  /** Uniqueness of Euclidean quotient and remainder. */
  lemma DivModUnique(x: int, m: int, q: int, r: int)
    requires m > 0 && 0 <= r < m && x == m * q + r
    ensures x / m == q && x % m == r
  {
    var q0, r0 := x / m, x % m;
    assert m * (q - q0) == r0 - r;
    if q - q0 >= 1 {
      assert false;
    } else if q - q0 <= -1 {
      assert false;
    }
  }

  /** For a positive divisor, a Rust remainder is congruent to its dividend. */
  lemma TRemCongruent(a: int, b: int)
    requires b > 0
    ensures TRem(a, b) % b == a % b
  {
    var r := TRem(a, b);
    var k := (a - r) / b;
    assert a - r == b * k;
    DivModUnique(a, b, k + r / b, r % b);
  }

  lemma {:induction false} TRemIdempotent(a: int, b: int)
    requires b > 0
    ensures TRem(TRem(a, b), b) == TRem(a, b)
  {
    var r := TRem(a, b);
    if r >= 0 {
      DivModUnique(r, b, 0, r);
    } else {
      var s := TRem(r, b);
      TRemCongruent(r, b);
      assert -b < s <= 0;
      TRemAgree(r, s, b);
    }
  }

  /** Two values of the same sign class within (-b, b) that are congruent mod b are equal. */
  lemma TRemAgree(x: int, y: int, b: int)
    requires b > 0 && -b < x <= 0 && -b < y <= 0 && x % b == y % b
    ensures x == y
  {
    DivModUnique(x, b, if x == 0 then 0 else -1, if x == 0 then 0 else x + b);
    DivModUnique(y, b, if y == 0 then 0 else -1, if y == 0 then 0 else y + b);
  }

  /**
   * `TRem(u, m)` is determined by the residue of `u` and its sign: two
   * congruent values of the same sign (or both multiples of `m`) leave the
   * same Rust remainder.
   */
  lemma TRemDetermined(u: int, w: int, m: int)
    requires m > 0 && u % m == w % m
    requires (u >= 0 && w >= 0) || (u <= 0 && w <= 0) || u % m == 0
    ensures TRem(u, m) == TRem(w, m)
  {
    if u % m == 0 {
      TRemOfMultiple(u, m);
      TRemOfMultiple(w, m);
    } else if u <= 0 && w <= 0 {
      TRemCongruent(u, m);
      TRemCongruent(w, m);
      TRemAgree(TRem(u, m), TRem(w, m), m);
    }
  }

  lemma TRemOfMultiple(u: int, m: int)
    requires m > 0 && u % m == 0
    ensures TRem(u, m) == 0
  {
    TRemCongruent(u, m);
    var r := TRem(u, m);
    if r > 0 {
      DivModUnique(r, m, 0, r);
    } else if r < 0 {
      DivModUnique(r, m, -1, r + m);
    }
  }

  /** Reducing a factor first does not change Rust's remainder of a product. */
  lemma TRemMulLeft(x: int, y: int, m: int)
    requires m > 0
    ensures TRem(TRem(x, m) * y, m) == TRem(x * y, m)
  {
    var t := TRem(x, m);
    var q := TDiv(x, m);
    var ty, xy := t * y, x * y;
    MulSplit(x, y, m, q, t);
    ModAddMultiple(ty, m, q * y);
    assert ty % m == xy % m;
    if t == 0 {
      assert ty == 0;
      ModAddMultiple(0, m, q * y);
    } else {
      SignsOfProduct(t, x, y);
    }
    TRemDetermined(ty, xy, m);
  }

  lemma MulSplit(x: int, y: int, m: int, q: int, t: int)
    requires x == m * q + t
    ensures x * y == t * y + m * (q * y)
  {
    calc {
      x * y;
      (m * q + t) * y;
      (m * q) * y + t * y;
      t * y + m * (q * y);
    }
  }

  lemma SignsOfProduct(t: int, x: int, y: int)
    requires t != 0 && (t > 0 ==> x >= 0) && (t < 0 ==> x <= 0)
    ensures (t * y >= 0 && x * y >= 0) || (t * y <= 0 && x * y <= 0)
  {
    if y >= 0 {
      if t > 0 { assert t * y >= 0 && x * y >= 0; } else { assert t * y <= 0 && x * y <= 0; }
    } else {
      if t > 0 { assert t * y <= 0 && x * y <= 0; } else { assert t * y >= 0 && x * y >= 0; }
    }
  }

  lemma ModAddMultiple(x: int, m: int, k: int)
    requires m > 0
    ensures (x + m * k) % m == x % m
  {
    DivModUnique(x + m * k, m, x / m + k, x % m);
  }

  // Bounds of the fixed-width integer types the source uses.
  const I64_MIN: int := -0x8000_0000_0000_0000
  const I64_MAX: int := 0x7FFF_FFFF_FFFF_FFFF
  const U64_MAX: int := 0xFFFF_FFFF_FFFF_FFFF
  const U128_MAX: int := 0xFFFF_FFFF_FFFF_FFFF_FFFF_FFFF_FFFF_FFFF
}
