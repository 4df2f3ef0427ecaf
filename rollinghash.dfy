/**
 * Polynomial rolling hash of a byte string (`RollingHash<Hash61>`): prefix
 * hashes and powers of the base modulo the Mersenne prime 2^61 - 1, the hash
 * of any range from two prefix hashes, and substring search by hash.
 */
module RollingHashing {
  import opened Wrappers
  import opened RustArith
  import opened NumberTheory

  /** `Hash61::modulo()`, the prime 2^61 - 1. */
  const MODULO: nat := 2_305_843_009_213_693_951
  /** `Hash61::base()`. */
  const BASE: nat := 1_024_578_101

  type Byte = b: int | 0 <= b < 256

  /** The bytes of `s` read as digits in base `BASE`, most significant first, not reduced. */
  function Poly(s: seq<Byte>): int
  {
    if s == [] then 0 else Poly(s[..|s| - 1]) * BASE + s[|s| - 1]
  }

  /** The hash of a whole byte string: `Σ s[k]·BASE^(|s|-1-k) mod MODULO`. */
  function HashOf(s: seq<Byte>): nat
  {
    Poly(s) % MODULO
  }

  /** The table the constructor builds: `size`, `pow` and the prefix hashes `hash`. */
  datatype RollingHash = RollingHash(size: nat, pow: seq<nat>, hash: seq<nat>)
  {
    ghost predicate Valid()
    {
      |pow| == |hash| == size + 1 &&
      (forall i :: 0 <= i < |pow| ==> pow[i] < MODULO) &&
      (forall i :: 0 <= i < |hash| ==> hash[i] < MODULO)
    }
  }

  /** What `From<&[u8]>` builds for `s`: powers of the base and prefix hashes, both reduced. */
  function Build(s: seq<Byte>): RollingHash
  {
    RollingHash(|s|, seq(|s| + 1, i requires 0 <= i => Pow(BASE, i) % MODULO), seq(|s| + 1, i requires 0 <= i <= |s| => HashOf(s[..i])))
  }

  /** `RollingHash::from(s)`: one pass filling `pow` and `hash` left to right. */
  method From(s: seq<Byte>) returns (rh: RollingHash)
    ensures rh == Build(s) && rh.Valid()
  {
    var n := |s|;
    var pow: seq<nat> := seq(n + 1, _ => 1);
    var hash: seq<nat> := seq(n + 1, _ => 0);
    ghost var spec := Build(s);
    assert s[..0] == [];
    for i := 0 to n
      invariant |pow| == |hash| == n + 1
      invariant pow[..i + 1] == spec.pow[..i + 1]
      invariant hash[..i + 1] == spec.hash[..i + 1]
    {
      TableStep(s, i, pow[i], hash[i]);
      ghost var pow0, hash0 := pow, hash;
      pow := pow[i + 1 := pow[i] * BASE % MODULO];
      hash := hash[i + 1 := (hash[i] * BASE + s[i] as nat) % MODULO];
      assert pow[..i + 2] == pow0[..i + 1] + [pow[i + 1]];
      assert hash[..i + 2] == hash0[..i + 1] + [hash[i + 1]];
    }
    assert pow == pow[..n + 1] && hash == hash[..n + 1];
    rh := RollingHash(n, pow, hash);
  }

  /** One step of both recurrences: the next entries of the table, each formed within `u128`. */
  lemma TableStep(s: seq<Byte>, i: nat, p: nat, h: nat)
    requires i < |s| && p == Build(s).pow[i] && h == Build(s).hash[i]
    ensures p * BASE <= U128_MAX && h * BASE + s[i] <= U128_MAX
    ensures p * BASE % MODULO == Build(s).pow[i + 1]
    ensures (h * BASE + s[i]) % MODULO == Build(s).hash[i + 1]
  {
    PowStep(i, p);
    HashStep(s, i, h);
  }

  /** One step of the `pow` recurrence, within `u128`. */
  lemma PowStep(i: nat, p: nat)
    requires p == Pow(BASE, i) % MODULO
    ensures p * BASE <= U128_MAX
    ensures p * BASE % MODULO == Pow(BASE, i + 1) % MODULO
  {
    StepFitsU128(p, 0);
    ModMul(Pow(BASE, i), BASE, MODULO);
    ModSmall(BASE, MODULO);
  }

  /** One step of the `hash` recurrence, within `u128`. */
  lemma HashStep(s: seq<Byte>, i: nat, h: nat)
    requires i < |s| && h == HashOf(s[..i])
    ensures h * BASE + s[i] <= U128_MAX
    ensures (h * BASE + s[i]) % MODULO == HashOf(s[..i + 1])
  {
    StepFitsU128(h, s[i]);
    assert s[..i + 1][..i] == s[..i];
    ShiftIn(Poly(s[..i]), s[i]);
  }

  /** Appending one byte to a prefix whose hash was already reduced. */
  lemma ShiftIn(x: int, c: int)
    ensures ((x % MODULO) * BASE + c) % MODULO == (x * BASE + c) % MODULO
  {
    var q := x / MODULO;
    assert x * BASE + c == (x % MODULO) * BASE + c + MODULO * (q * BASE);
    ModAddMultiple((x % MODULO) * BASE + c, MODULO, q * BASE);
  }

  /** Every product the constructor forms fits in `u128`, since stored values are below 2^61 and the base below 2^30. */
  lemma StepFitsU128(h: nat, c: Byte)
    requires h < MODULO
    ensures h * BASE + c <= U128_MAX
  {
  }

  /** The products `hash` forms fit in `u128` as well. */
  lemma WindowFitsU128(hr: nat, hl: nat, p: nat)
    requires hr < MODULO && hl < MODULO && p < MODULO
    ensures hr + MODULO <= U128_MAX && hl * p <= U128_MAX
  {
    assert hl * p <= hl * MODULO <= MODULO * MODULO;
  }

  /** Reading the digits of `a + b` is reading `a`, shifting by `|b|` places, then reading `b`. */
  lemma {:induction false} PolyConcat(a: seq<Byte>, b: seq<Byte>)
    ensures Poly(a + b) == Poly(a) * Pow(BASE, |b|) + Poly(b)
    decreases |b|
  {
    if b == [] {
      assert a + b == a;
    } else {
      var b', c := b[..|b| - 1], b[|b| - 1];
      assert (a + b)[..|a + b| - 1] == a + b';
      assert (a + b)[|a + b| - 1] == c;
      PolyConcat(a, b');
      ShiftArithmetic(Poly(a), Pow(BASE, |b'|), Poly(b'), c);
    }
  }

  lemma ShiftArithmetic(x: int, p: int, y: int, c: int)
    ensures (x * p + y) * BASE + c == x * (BASE * p) + (y * BASE + c)
  {
  }

  /** Removing the shifted prefix from a longer prefix leaves the window. */
  lemma WindowArithmetic(a: int, y: int, m: int)
    requires m > 0
    ensures ((a + y) % m + m - a % m) % m == y % m
  {
    var q1, q2 := (a + y) / m, a / m;
    assert (a + y) % m + m - a % m == y + m * (1 - q1 + q2);
    ModAddMultiple(y, m, 1 - q1 + q2);
  }

  /** The hash of the prefix-hash window `[l, r)`, as the last line of `hash` computes it. */
  function Window(rh: RollingHash, l: nat, r: nat): (h: nat)
    requires rh.Valid() && l <= r <= rh.size
    ensures h < MODULO
  {
    (rh.hash[r] + MODULO - (rh.hash[l] * rh.pow[r - l]) % MODULO) % MODULO
  }

  /** Any window of the table built for `s` is the hash of that substring. */
  lemma WindowIsSubstringHash(s: seq<Byte>, l: nat, r: nat)
    requires l <= r <= |s|
    ensures Build(s).Valid()
    ensures Window(Build(s), l, r) == HashOf(s[l..r])
  {
    var rh := Build(s);
    var x, y, p := Poly(s[..l]), Poly(s[l..r]), Pow(BASE, r - l);
    assert s[..r] == s[..l] + s[l..r];
    PolyConcat(s[..l], s[l..r]);
    WindowValue(x, y, p, rh.hash[r], rh.hash[l], rh.pow[r - l]);
  }

  /** The window formula on prefix hashes of x·p + y and x, and the power p, gives y's hash. */
  lemma WindowValue(x: int, y: int, p: int, hr: int, hl: int, pw: int)
    requires hr == (x * p + y) % MODULO && hl == x % MODULO && pw == p % MODULO
    ensures (hr + MODULO - (hl * pw) % MODULO) % MODULO == y % MODULO
  {
    ModMul(x, p, MODULO);
    WindowArithmetic(x * p, y, MODULO);
  }

  /** Equal substrings hash equally wherever they sit. */
  lemma EqualSubstringsHashEqually(s: seq<Byte>, l1: nat, r1: nat, t: seq<Byte>, l2: nat, r2: nat)
    requires l1 <= r1 <= |s| && l2 <= r2 <= |t| && s[l1..r1] == t[l2..r2]
    ensures Build(s).Valid() && Build(t).Valid()
    ensures Window(Build(s), l1, r1) == Window(Build(t), l2, r2)
  {
    WindowIsSubstringHash(s, l1, r1);
    WindowIsSubstringHash(t, l2, r2);
  }

  /** The end index `hash` computes from an end bound: an inclusive end `i` becomes `i` and an exclusive end `i - 1`. */
  function EndAsWritten(b: Bound, size: nat): (r: int)
    ensures b.Included? ==> r == EndIndex(b, size) - 1
    ensures b.Excluded? ==> r == EndIndex(b, size) - 1
    ensures b.Unbounded? ==> r == EndIndex(b, size)
  {
    match b
    case Unbounded => size
    case Included(i) => i
    case Excluded(i) => i - 1
  }

  /** `RollingHash::hash(range)` as written; a range outside `0 ..= size` panics and is excluded. */
  function HashAsWritten(rh: RollingHash, start: Bound, end: Bound): (h: nat)
    requires rh.Valid() && StartIndex(start) <= EndAsWritten(end, rh.size) <= rh.size
    ensures h < MODULO
  {
    Window(rh, StartIndex(start), EndAsWritten(end, rh.size))
  }

  /** `hash(range)` with the standard reading of the end bound. */
  function Hash(rh: RollingHash, start: Bound, end: Bound): (h: nat)
    requires rh.Valid() && StartIndex(start) <= EndIndex(end, rh.size) <= rh.size
    ensures h < MODULO
  {
    Window(rh, StartIndex(start), EndIndex(end, rh.size))
  }

  /** `hash(range)` is the hash of the bytes the range names, wherever they sit. */
  lemma HashIsSubstringHash(s: seq<Byte>, start: Bound, end: Bound)
    requires StartIndex(start) <= EndIndex(end, |s|) <= |s|
    ensures Build(s).Valid()
    ensures Hash(Build(s), start, end) == HashOf(s[StartIndex(start)..EndIndex(end, |s|)])
  {
    WindowIsSubstringHash(s, StartIndex(start), EndIndex(end, |s|));
  }

  /** `hash(..)` is the hash of the whole string. */
  lemma WholeHash(s: seq<Byte>)
    ensures Build(s).Valid()
    ensures HashAsWritten(Build(s), Unbounded, Unbounded) == HashOf(s)
  {
    WindowIsSubstringHash(s, 0, |s|);
    assert s[0..|s|] == s;
  }

  /** As written, an inclusive end leaves out its own byte: `hash(l..=r)` hashes `s[l..r)`. */
  lemma InclusiveEndDropsLast(s: seq<Byte>, l: nat, r: nat)
    requires l <= r < |s|
    ensures Build(s).Valid()
    ensures HashAsWritten(Build(s), Included(l), Included(r)) == HashOf(s[l..r])
  {
    WindowIsSubstringHash(s, l, r);
  }

  /** On `[1, 2]`, `hash(0..=1)` as written is the hash of `[1]`, not of `[1, 2]`. */
  lemma InclusiveEndExample()
    ensures Build([1, 2]).Valid()
    ensures HashAsWritten(Build([1, 2]), Included(0), Included(1)) == 1
    ensures Hash(Build([1, 2]), Included(0), Included(1)) == BASE + 2
  {
    var s: seq<Byte> := [1, 2];
    InclusiveEndDropsLast(s, 0, 1);
    assert s[0..1] == [1];
    assert Poly([1]) == 1 by {
      assert [1][..0] == [];
    }
    HashIsSubstringHash(s, Included(0), Included(1));
    assert s[0..2] == s;
    assert Poly(s) == BASE + 2 by {
      assert s[..1] == [1];
    }
  }

  /** `find_substring`'s window `i..=i+len` as written covers exactly the bytes `[i, i+len)`. */
  lemma SearchWindowAgrees(rh: RollingHash, i: nat, len: nat)
    requires rh.Valid() && i + len <= rh.size
    ensures HashAsWritten(rh, Included(i), Included(i + len)) == Hash(rh, Included(i), Excluded(i + len))
  {
  }

  /** The window of `s` at `i` passes `find_substring`'s test: its hash equals the hash of all of `t`. */
  predicate WindowMatches(s: RollingHash, t: RollingHash, i: nat)
    requires s.Valid() && t.Valid() && i + t.size <= s.size
  {
    HashAsWritten(s, Included(i), Included(i + t.size)) == HashAsWritten(t, Unbounded, Unbounded)
  }

  /** The outcome of the hash test at every start below n. */
  function Tests(s: RollingHash, t: RollingHash, n: nat): (r: seq<bool>)
    requires s.Valid() && t.Valid() && n + t.size <= s.size + 1
    ensures |r| == n && forall i :: 0 <= i < n ==> r[i] == WindowMatches(s, t, i)
  {
    seq(n, i requires 0 <= i < n => WindowMatches(s, t, i))
  }

  /** The positions holding true, in ascending order. */
  function Positions(f: seq<bool>): seq<nat>
  {
    if f == [] then []
    else Positions(f[..|f| - 1]) + (if f[|f| - 1] then [|f| - 1] else [])
  }

  /** Every listed position is in range and holds true. */
  lemma {:induction false} PositionsTrue(f: seq<bool>)
    ensures forall k :: 0 <= k < |Positions(f)| ==> Positions(f)[k] < |f| && f[Positions(f)[k]]
  {
    if f != [] {
      var prev := f[..|f| - 1];
      PositionsTrue(prev);
      var m := Positions(f);
      forall k | 0 <= k < |m|
        ensures m[k] < |f| && f[m[k]]
      {
        if k < |Positions(prev)| {
          assert m[k] == Positions(prev)[k];
        }
      }
    }
  }

  /** Every position holding true is listed. */
  lemma {:induction false} PositionsComplete(f: seq<bool>)
    ensures forall i :: 0 <= i < |f| && f[i] ==> i in Positions(f)
  {
    if f != [] {
      var prev := f[..|f| - 1];
      PositionsComplete(prev);
      var m := Positions(f);
      forall i | 0 <= i < |f| && f[i]
        ensures i in m
      {
        if i < |f| - 1 {
          assert prev[i];
          assert i in Positions(prev);
        } else {
          assert m[|m| - 1] == i;
        }
      }
    }
  }

  /** The listed positions strictly ascend. */
  lemma {:induction false} PositionsAscending(f: seq<bool>)
    ensures forall k, k' :: 0 <= k < k' < |Positions(f)| ==> Positions(f)[k] < Positions(f)[k']
  {
    if f != [] {
      var prev := f[..|f| - 1];
      PositionsAscending(prev);
      PositionsTrue(prev);
      var m, mp := Positions(f), Positions(prev);
      forall k, k' | 0 <= k < k' < |m|
        ensures m[k] < m[k']
      {
        assert m[k] == mp[k];
        if k' < |mp| {
          assert m[k'] == mp[k'];
        } else {
          assert m[k'] == |f| - 1;
        }
      }
    }
  }

  /** The recorded outcome at start i is the comparison `find_substring` makes there. */
  lemma TestAt(s: RollingHash, t: RollingHash, n: nat, i: nat, sh: nat, th: nat)
    requires s.Valid() && t.Valid() && n + t.size <= s.size + 1 && i < n
    requires sh == HashAsWritten(s, Included(i), Included(i + t.size))
    requires th == HashAsWritten(t, Unbounded, Unbounded)
    ensures Tests(s, t, n)[i] == (sh == th)
  {
  }

  /** Extending the prefix by position i appends i exactly when it holds true. */
  lemma PositionsStep(f: seq<bool>, i: nat)
    requires i < |f|
    ensures Positions(f[..i + 1]) == Positions(f[..i]) + (if f[i] then [i] else [])
  {
    assert f[..i + 1][..i] == f[..i];
  }

  /** `find_substring(s, t)`: every start `i <= |s| - |t|` whose window passes the hash test, ascending. */
  method FindSubstring(s: RollingHash, t: RollingHash) returns (indices: seq<nat>)
    requires s.Valid() && t.Valid() && s.size >= t.size
    ensures indices == Positions(Tests(s, t, s.size - t.size + 1))
  {
    ghost var tests := Tests(s, t, s.size - t.size + 1);
    var th := HashAsWritten(t, Unbounded, Unbounded);
    indices := [];
    for i: nat := 0 to s.size - t.size + 1
      invariant indices == Positions(tests[..i])
    {
      var sh := HashAsWritten(s, Included(i), Included(i + t.size));
      TestAt(s, t, s.size - t.size + 1, i, sh, th);
      PositionsStep(tests, i);
      if sh == th {
        indices := indices + [i];
      }
    }
    assert tests[..s.size - t.size + 1] == tests;
  }

  /** Every true occurrence of `t` in `s` passes `find_substring`'s hash test, so it is reported. */
  lemma OccurrencePassesTest(s: seq<Byte>, t: seq<Byte>, i: nat)
    requires i + |t| <= |s| && s[i..i + |t|] == t
    ensures Build(s).Valid() && Build(t).Valid()
    ensures WindowMatches(Build(s), Build(t), i)
  {
    EqualSubstringsHashEqually(s, i, i + |t|, t, 0, |t|);
    assert t[0..|t|] == t;
  }
}
