/**
 * Algebraic traits: integer bounds and the `Monoid` implementations
 * (`Additive`, `Multiplicative`, `Gcd`, `Xor`) the segment trees are built on.
 *
 * A `Monoid` is its identity `id` and its operation `op`.  Integers are
 * unbounded here; the primitive types' bounds are given by `Min`/`Max`.
 */
module MathTraits {
  import opened RustArith
  import opened NumberTheory
  import opened Math
  import opened Wrappers

  /** A monoid: `Monoid::id()` and `Monoid::op(lhs, rhs)`. */
  datatype Monoid<!T> = Monoid(id: T, op: (T, T) -> T)

  /** The monoid laws: `id` is a two-sided identity and `op` is associative. */
  ghost predicate IsMonoid<T(!new)>(M: Monoid<T>)
  {
    (forall a :: M.op(M.id, a) == a && M.op(a, M.id) == a) &&
    (forall a, b, c {:trigger M.op(M.op(a, b), c)} :: M.op(M.op(a, b), c) == M.op(a, M.op(b, c)))
  }

  /** `op` is commutative. */
  ghost predicate IsCommutative<T(!new)>(M: Monoid<T>)
  {
    forall a, b :: M.op(a, b) == M.op(b, a)
  }

  /** The left-to-right product `op(...op(op(id, s[0]), s[1])..., s[|s|-1])`. */
  function Fold<T>(M: Monoid<T>, s: seq<T>): T
  {
    if |s| == 0 then M.id else M.op(Fold(M, s[..|s| - 1]), s[|s| - 1])
  }

  /** In a monoid the product of a concatenation is the product of the products. */
  lemma {:induction false} FoldAppend<T(!new)>(M: Monoid<T>, a: seq<T>, b: seq<T>)
    requires IsMonoid(M)
    ensures Fold(M, a + b) == M.op(Fold(M, a), Fold(M, b))
    decreases |b|
  {
    if |b| == 0 {
      assert a + b == a;
    } else {
      var b' := b[..|b| - 1];
      assert (a + b)[..|a + b| - 1] == a + b';
      FoldAppend(M, a, b');
    }
  }

  lemma FoldSingle<T(!new)>(M: Monoid<T>, x: T)
    requires IsMonoid(M)
    ensures Fold(M, [x]) == x
  {
    assert [x][..0] == [];
  }

  // ---------------------------------------------------------------------
  // The primitive integer types.

  datatype IntType = U8 | U16 | U32 | U64 | U128 | Usize | I8 | I16 | I32 | I64 | I128 | Isize

  predicate IsSigned(t: IntType)
  {
    t.I8? || t.I16? || t.I32? || t.I64? || t.I128? || t.Isize?
  }

  /** Width in bits (`usize`/`isize` are taken to be 64 bits wide). */
  function Bits(t: IntType): nat
  {
    match t
    case U8 => 8 case I8 => 8
    case U16 => 16 case I16 => 16
    case U32 => 32 case I32 => 32
    case U64 => 64 case I64 => 64 case Usize => 64 case Isize => 64
    case U128 => 128 case I128 => 128
  }

  /** `2^k` for the widths above. */
  function TwoTo(k: nat): (r: nat)
    requires k in {7, 8, 15, 16, 31, 32, 63, 64, 127, 128}
    ensures r > 1
  {
    match k
    case 7 => 0x80 case 8 => 0x100
    case 15 => 0x8000 case 16 => 0x1_0000
    case 31 => 0x8000_0000 case 32 => 0x1_0000_0000
    case 63 => 0x8000_0000_0000_0000 case 64 => 0x1_0000_0000_0000_0000
    case 127 => 0x8000_0000_0000_0000_0000_0000_0000_0000
    case 128 => 0x1_0000_0000_0000_0000_0000_0000_0000_0000
  }

  /** `BoundedBelow::min()`: `T::min_value()`. */
  function Min(t: IntType): (r: int)
    ensures IsSigned(t) ==> r == -(TwoTo(Bits(t) - 1) as int)
    ensures !IsSigned(t) ==> r == 0
  {
    match t
    case U8 => 0 case U16 => 0 case U32 => 0 case U64 => 0 case U128 => 0 case Usize => 0
    case I8 => -0x80
    case I16 => -0x8000
    case I32 => -0x8000_0000
    case I64 => I64_MIN
    case I128 => -0x8000_0000_0000_0000_0000_0000_0000_0000
    case Isize => I64_MIN
  }

  /** `BoundedAbove::max()`: `T::max_value()`. */
  function Max(t: IntType): (r: int)
    ensures IsSigned(t) ==> r == TwoTo(Bits(t) - 1) - 1
    ensures !IsSigned(t) ==> r == TwoTo(Bits(t)) - 1
  {
    match t
    case U8 => 0xFF
    case U16 => 0xFFFF
    case U32 => 0xFFFF_FFFF
    case U64 => U64_MAX
    case U128 => U128_MAX
    case Usize => U64_MAX
    case I8 => 0x7F
    case I16 => 0x7FFF
    case I32 => 0x7FFF_FFFF
    case I64 => I64_MAX
    case I128 => 0x7FFF_FFFF_FFFF_FFFF_FFFF_FFFF_FFFF_FFFF
    case Isize => I64_MAX
  }

  /** Every primitive integer type holds `zero()` and `one()`: `min() <= 0 < 1 <= max()`. */
  lemma ZeroOneInRange(t: IntType)
    ensures Min(t) <= 0 && 1 <= Max(t)
    ensures Max(t) - Min(t) + 1 == TwoTo(Bits(t))
  {
    match t
    case U8 => case U16 => case U32 => case U64 => case U128 => case Usize =>
    case I8 => case I16 => case I32 => case I64 => case I128 => case Isize =>
  }

  // ---------------------------------------------------------------------
  // The monoids.

  /** `Additive<T>`: id `zero()` and op `+`. */
  function Additive(): (M: Monoid<int>)
    ensures IsMonoid(M) && IsCommutative(M)
    ensures M.id == 0 && forall a, b :: M.op(a, b) == a + b
  {
    Monoid(0, (a, b) => a + b)
  }

  /** `Multiplicative<T>`: id `one()` and op `*`. */
  function Multiplicative(): (M: Monoid<int>)
    ensures IsMonoid(M) && IsCommutative(M)
    ensures M.id == 1 && forall a, b :: M.op(a, b) == a * b
  {
    MultiplicationAssociative();
    Monoid(1, (a, b) => a * b)
  }

  lemma MultiplicationAssociative()
    ensures forall a: int, b: int, c: int :: (a * b) * c == a * (b * c)
  {
    forall a: int, b: int, c: int
      ensures (a * b) * c == a * (b * c)
    {
    }
  }

  /** `a` is a value of type `t`. */
  predicate InType(t: IntType, a: int)
  {
    Min(t) <= a <= Max(t)
  }

  /** The `Bits(t)`-bit pattern of `a`: `a` modulo `2^bits`, two's complement when `a` is negative. */
  function Pattern(t: IntType, a: int): nat
  {
    a % TwoTo(Bits(t))
  }

  /** The value of type `t` whose bit pattern is `u` (taken modulo `2^bits`). */
  function OfPattern(t: IntType, u: nat): int
  {
    var v := u % TwoTo(Bits(t));
    if IsSigned(t) && v >= TwoTo(Bits(t) - 1) then v - TwoTo(Bits(t)) else v
  }

  /**
   * `Xor<T>` for the primitive integer type `t`: id `zero()` and op `^`,
   * which works on the bit patterns, so a signed operand takes part in two's
   * complement.  The values of `t` are closed under it, and on an unsigned
   * type it is the bitwise `BitXor` of the two values.
   */
  function Xor(t: IntType): (M: Monoid<int>)
    ensures M.id == 0
    ensures forall a, b :: InType(t, a) && InType(t, b) ==> InType(t, M.op(a, b))
    ensures forall a, b :: !IsSigned(t) && InType(t, a) && InType(t, b) ==> M.op(a, b) == BitXor(a, b)
  {
    XorTypeFacts(t);
    Monoid(0, (a, b) => OfPattern(t, BitXor(Pattern(t, a), Pattern(t, b))))
  }

  /** On the values of `t`, `Xor` is associative and commutative, has identity 0, and every value is its own inverse. */
  lemma XorTypeLaws(t: IntType)
    ensures forall a, b, c {:trigger Xor(t).op(Xor(t).op(a, b), c)} :: InType(t, a) && InType(t, b) && InType(t, c) ==>
      Xor(t).op(Xor(t).op(a, b), c) == Xor(t).op(a, Xor(t).op(b, c))
    ensures forall a, b :: InType(t, a) && InType(t, b) ==> Xor(t).op(a, b) == Xor(t).op(b, a)
    ensures forall a :: InType(t, a) ==> Xor(t).op(a, a) == 0 && Xor(t).op(a, 0) == a && Xor(t).op(0, a) == a
  {
    forall a, b, c | InType(t, a) && InType(t, b) && InType(t, c)
      ensures Xor(t).op(Xor(t).op(a, b), c) == Xor(t).op(a, Xor(t).op(b, c))
    {
      XorTypeAssociative(t, a, b, c);
    }
    forall a, b | InType(t, a) && InType(t, b)
      ensures Xor(t).op(a, b) == Xor(t).op(b, a)
    {
      XorCommutative(Pattern(t, a), Pattern(t, b));
    }
    forall a | InType(t, a)
      ensures Xor(t).op(a, a) == 0 && Xor(t).op(a, 0) == a && Xor(t).op(0, a) == a
    {
      XorTypeIdentity(t, a);
    }
  }

  /** Associativity of `Xor(t)` for three values of `t`: the patterns of the inner results are the inner xors. */
  lemma XorTypeAssociative(t: IntType, a: int, b: int, c: int)
    requires InType(t, a) && InType(t, b) && InType(t, c)
    ensures Xor(t).op(Xor(t).op(a, b), c) == Xor(t).op(a, Xor(t).op(b, c))
  {
    var pa, pb, pc := Pattern(t, a), Pattern(t, b), Pattern(t, c);
    var ab, bc := BitXor(pa, pb), BitXor(pb, pc);
    XorBelowWidth(t, pa, pb);
    XorBelowWidth(t, pb, pc);
    PatternOfPattern(t, ab);
    PatternOfPattern(t, bc);
    assert Xor(t).op(a, b) == OfPattern(t, ab);
    assert Xor(t).op(b, c) == OfPattern(t, bc);
    XorAssociative(pa, pb, pc);
  }

  /** `a ^ a == 0` and `0` is a two-sided identity of `Xor(t)`. */
  lemma XorTypeIdentity(t: IntType, a: int)
    requires InType(t, a)
    ensures Xor(t).op(a, a) == 0 && Xor(t).op(a, 0) == a && Xor(t).op(0, a) == a
  {
    var pa := Pattern(t, a);
    XorSelf(pa);
    XorZero(pa);
    OfPatternOfValue(t, a);
    OfPatternZero(t);
    assert Pattern(t, 0) == 0 by { HalfWidth(t); ModSmall(0, TwoTo(Bits(t))); }
  }

  /** The pattern 0 stands for 0. */
  lemma OfPatternZero(t: IntType)
    ensures OfPattern(t, 0) == 0
  {
    HalfWidth(t);
    ModSmall(0, TwoTo(Bits(t)));
  }

  /** The closure and unsigned facts `Xor` states, for every operand pair. */
  lemma XorTypeFacts(t: IntType)
    ensures forall a, b :: InType(t, a) && InType(t, b) ==>
      InType(t, OfPattern(t, BitXor(Pattern(t, a), Pattern(t, b))))
    ensures forall a, b :: !IsSigned(t) && InType(t, a) && InType(t, b) ==>
      OfPattern(t, BitXor(Pattern(t, a), Pattern(t, b))) == BitXor(a, b)
  {
    forall a, b | InType(t, a) && InType(t, b)
      ensures InType(t, OfPattern(t, BitXor(Pattern(t, a), Pattern(t, b))))
      ensures !IsSigned(t) ==> OfPattern(t, BitXor(Pattern(t, a), Pattern(t, b))) == BitXor(a, b)
    {
      XorPairFacts(t, a, b);
    }
  }

  /** The xor of two values of `t` is one, and on an unsigned type it is their `BitXor`. */
  lemma XorPairFacts(t: IntType, a: int, b: int)
    requires InType(t, a) && InType(t, b)
    ensures InType(t, OfPattern(t, BitXor(Pattern(t, a), Pattern(t, b))))
    ensures !IsSigned(t) ==> OfPattern(t, BitXor(Pattern(t, a), Pattern(t, b))) == BitXor(a, b)
  {
    var W := TwoTo(Bits(t));
    var u := BitXor(Pattern(t, a), Pattern(t, b));
    XorBelowWidth(t, Pattern(t, a), Pattern(t, b));
    OfPatternInType(t, u);
    if !IsSigned(t) {
      HalfWidth(t);
      ModSmall(a, W);
      ModSmall(b, W);
      ModSmall(u, W);
    }
  }

  /** A value of `t` is recovered from its bit pattern. */
  lemma OfPatternOfValue(t: IntType, a: int)
    requires InType(t, a)
    ensures OfPattern(t, Pattern(t, a)) == a
  {
    var W, H := TwoTo(Bits(t)), TwoTo(Bits(t) - 1);
    HalfWidth(t);
    OfPatternOfValueArithmetic(a, W, H, IsSigned(t), Pattern(t, a), OfPattern(t, Pattern(t, a)));
  }

  lemma OfPatternOfValueArithmetic(a: int, W: int, H: int, signed: bool, u: nat, r: int)
    requires W == 2 * H && H >= 1
    requires signed ==> -H <= a < H
    requires !signed ==> 0 <= a < W
    requires u == a % W
    requires r == (if signed && u % W >= H then u % W - W else u % W)
    ensures r == a
  {
    if a >= 0 {
      ModSmall(a, W);
      assert u == a;
    } else {
      ModAddMultiple(a, W, 1);
      ModSmall(a + W, W);
      assert u == a + W;
    }
    ModSmall(u, W);
  }

  /** A pattern below `2^bits` is the pattern of the value it stands for. */
  lemma PatternOfPattern(t: IntType, u: nat)
    requires u < TwoTo(Bits(t))
    ensures Pattern(t, OfPattern(t, u)) == u
  {
    var W := TwoTo(Bits(t));
    HalfWidth(t);
    var v := OfPattern(t, u);
    assert u % W == u;
    if v != u {
      assert v == u - W;
      ModAddMultiple(u - W, W, 1);
    }
  }

  /** A pattern below `2^bits` stands for a value of `t`. */
  lemma OfPatternInType(t: IntType, u: nat)
    requires u < TwoTo(Bits(t))
    ensures InType(t, OfPattern(t, u))
  {
    HalfWidth(t);
    assert u % TwoTo(Bits(t)) == u;
  }

  /** `2^bits` is twice `2^(bits-1)`, and the bounds of `t` are those of its width. */
  lemma HalfWidth(t: IntType)
    ensures Bits(t) >= 8 && TwoTo(Bits(t)) == 2 * TwoTo(Bits(t) - 1)
    ensures IsSigned(t) ==> Min(t) == -(TwoTo(Bits(t) - 1) as int) && Max(t) == TwoTo(Bits(t) - 1) - 1
    ensures !IsSigned(t) ==> Min(t) == 0 && Max(t) == TwoTo(Bits(t)) - 1
  {
    match t
    case U8 => case U16 => case U32 => case U64 => case U128 => case Usize =>
    case I8 => case I16 => case I32 => case I64 => case I128 => case Isize =>
  }

  /** The xor of two `Bits(t)`-bit patterns is one. */
  lemma XorBelowWidth(t: IntType, a: nat, b: nat)
    requires a < TwoTo(Bits(t)) && b < TwoTo(Bits(t))
    ensures BitXor(a, b) < TwoTo(Bits(t))
  {
    TwoToIsPow(Bits(t));
    XorBelow(a, b, Bits(t));
  }

  /** The xor of two numbers below `2^k` is below `2^k`. */
  lemma {:induction false} XorBelow(a: nat, b: nat, k: nat)
    requires a < Pow(2, k) && b < Pow(2, k)
    ensures BitXor(a, b) < Pow(2, k)
    decreases k
  {
    if k == 0 {
      assert a == 0 && b == 0 && BitXor(0, 0) == 0;
    } else {
      XorBelow(a / 2, b / 2, k - 1);
      XorDigits(a, b);
    }
  }

  /** The widths' powers `TwoTo(k)` are `2^k`. */
  lemma TwoToIsPow(k: nat)
    requires k in {7, 8, 15, 16, 31, 32, 63, 64, 127, 128}
    ensures TwoTo(k) == Pow(2, k)
  {
    assert Pow(2, 7) == 0x80 && Pow(2, 8) == 0x100;
    PowAdd(2, 8, 8);
    PowAdd(2, 7, 8);
    PowAdd(2, 16, 16);
    PowAdd(2, 15, 16);
    PowAdd(2, 32, 32);
    PowAdd(2, 31, 32);
    PowAdd(2, 64, 64);
    PowAdd(2, 63, 64);
  }

  /** Bitwise exclusive or, one binary digit at a time from the lowest. */
  function BitXor(a: nat, b: nat): nat
    decreases a + b
  {
    if a == 0 && b == 0 then 0 else 2 * BitXor(a / 2, b / 2) + (a + b) % 2
  }

  lemma XorLaws()
    ensures forall a, b, c :: BitXor(BitXor(a, b), c) == BitXor(a, BitXor(b, c))
    ensures forall a, b :: BitXor(a, b) == BitXor(b, a)
    ensures forall a :: BitXor(a, a) == 0 && BitXor(a, 0) == a && BitXor(0, a) == a
  {
    forall a, b, c
      ensures BitXor(BitXor(a, b), c) == BitXor(a, BitXor(b, c))
    {
      XorAssociative(a, b, c);
    }
    forall a, b
      ensures BitXor(a, b) == BitXor(b, a)
    {
      XorCommutative(a, b);
    }
    forall a
      ensures BitXor(a, a) == 0 && BitXor(a, 0) == a && BitXor(0, a) == a
    {
      XorSelf(a);
      XorZero(a);
    }
  }

  /** The lowest digit of `a ^ b` is the parity of `a + b`, and the rest is `(a / 2) ^ (b / 2)`. */
  lemma XorDigits(a: nat, b: nat)
    ensures BitXor(a, b) == 2 * BitXor(a / 2, b / 2) + (a + b) % 2
    ensures BitXor(a, b) / 2 == BitXor(a / 2, b / 2) && BitXor(a, b) % 2 == (a + b) % 2
  {
    if a == 0 && b == 0 {
      assert BitXor(a / 2, b / 2) == 0;
    }
    DivModUnique(BitXor(a, b), 2, BitXor(a / 2, b / 2), (a + b) % 2);
  }

  lemma {:induction false} XorZero(a: nat)
    ensures BitXor(a, 0) == a && BitXor(0, a) == a
    decreases a
  {
    if a > 0 {
      XorZero(a / 2);
      XorDigits(a, 0);
      XorDigits(0, a);
    }
  }

  lemma {:induction false} XorSelf(a: nat)
    ensures BitXor(a, a) == 0
    decreases a
  {
    if a > 0 {
      XorSelf(a / 2);
      XorDigits(a, a);
    }
  }

  lemma {:induction false} XorCommutative(a: nat, b: nat)
    ensures BitXor(a, b) == BitXor(b, a)
    decreases a + b
  {
    if a != 0 || b != 0 {
      XorCommutative(a / 2, b / 2);
      XorDigits(a, b);
      XorDigits(b, a);
    }
  }

  lemma ParityShift(x: int, s: int, c: int)
    requires x % 2 == s % 2
    ensures (x + c) % 2 == (s + c) % 2
  {
    ModAddMultiple(x + c, 2, (s - x) / 2);
    assert (s - x) == 2 * ((s - x) / 2);
  }

  lemma {:induction false} XorAssociative(a: nat, b: nat, c: nat)
    ensures BitXor(BitXor(a, b), c) == BitXor(a, BitXor(b, c))
    decreases a + b + c
  {
    if a == 0 && b == 0 && c == 0 {
      assert BitXor(0, 0) == 0;
    } else {
      XorAssociative(a / 2, b / 2, c / 2);
      var x, y := BitXor(a, b), BitXor(b, c);
      XorDigits(a, b);
      XorDigits(b, c);
      XorDigits(x, c);
      XorDigits(a, y);
      DigitsAgree(a, b, c, x, y, BitXor(x, c), BitXor(a, y), BitXor(x / 2, c / 2), BitXor(a / 2, y / 2));
    }
  }

  /** Two numbers with equal higher digits and low digits of the same parity `a + b + c` are equal. */
  lemma DigitsAgree(a: int, b: int, c: int, x: int, y: int, xc: int, ay: int, h1: int, h2: int)
    requires x % 2 == (a + b) % 2 && y % 2 == (b + c) % 2
    requires xc == 2 * h1 + (x + c) % 2 && ay == 2 * h2 + (a + y) % 2 && h1 == h2
    ensures xc == ay
  {
    ParityShift(x, a + b, c);
    ParityShift(y, b + c, a);
    assert (x + c) % 2 == (a + y) % 2;
  }

  /**
   * `Gcd::op(a, b)`: `a % b` and, while the remainder is nonzero, the same
   * on `(b, a % b)`.  The first remainder panics when `b == 0`, so `op(a, 0)`
   * is `None`; the recursive calls never divide by zero.  The result is a
   * common divisor and equals `gcd(a, b)` from `procon_math`.
   */
  function GcdOp(a: int, b: int): (r: Option<int>)
    decreases Abs(b)
    ensures r.None? <==> b == 0
    ensures r.Some? ==> r.value == Gcd(a, b)
    ensures r.Some? ==> Divides(r.value, a) && Divides(r.value, b)
  {
    if b == 0 then None
    else
      var t := TRem(a, b);
      if t == 0 then GcdOfZeroRem(a, b); Some(b)
      else GcdOp(b, t)
  }

  lemma GcdOfZeroRem(a: int, b: int)
    requires b != 0 && TRem(a, b) == 0
    ensures Gcd(a, b) == b
  {
  }

  /** `Gcd::id()` is 0, an identity on the left only: `op(0, b) == b` and `op(a, 0)` panics. */
  lemma GcdIdentityLeftOnly(a: int, b: int)
    ensures b != 0 ==> GcdOp(0, b) == Some(b)
    ensures GcdOp(a, 0) == None
  {
  }
}
