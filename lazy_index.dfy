/**
 * Index arithmetic of the lazy segment tree: the shifts `x >> i` and
 * `y << i` on node numbers, the alignment test `(x >> i) << i != x` that
 * decides which ancestors are pushed and updated, and the heights of nodes
 * in a tree of `size == 1 << h` leaves (node 1 is the root, the leaves are
 * the nodes `size..2 * size`).
 */
module LazyIndex {
  import opened SegTree

  /** `x >> i`. */
  function Shr(x: nat, i: nat): nat
  {
    if i == 0 then x else Shr(x, i - 1) / 2
  }

  /** `y << i`. */
  function Shl(y: nat, i: nat): nat
  {
    if i == 0 then y else 2 * Shl(y, i - 1)
  }

  /** `(x >> i) << i != x`: `x` is not a multiple of `2^i`. */
  predicate Unaligned(x: nat, i: nat)
  {
    Shl(Shr(x, i), i) != x
  }

  /** Node `x` lies at height `j` of a tree with `1 << h` leaves: its leaves start at a leaf. */
  predicate AtHeight(x: nat, h: nat, j: nat)
  {
    j <= h && Shl(1, h - j) <= x < Shl(1, h - j + 1)
  }

  lemma {:induction false} ShlLinear(a: nat, b: nat, i: nat)
    ensures Shl(a + b, i) == Shl(a, i) + Shl(b, i)
  {
    if i > 0 {
      ShlLinear(a, b, i - 1);
    }
  }

  lemma {:induction false} ShlDouble(y: nat, i: nat)
    ensures Shl(2 * y, i) == Shl(y, i + 1)
  {
    if i > 0 {
      ShlDouble(y, i - 1);
    }
  }

  lemma {:induction false} ShlAtLeast(y: nat, i: nat)
    ensures Shl(y, i) >= y && Shl(1, i) >= 1
  {
    if i > 0 {
      ShlAtLeast(y, i - 1);
    }
  }

  /** `<<` is monotone in the shifted value. */
  lemma ShlMonotone(a: nat, b: nat, i: nat)
    requires a <= b
    ensures Shl(a, i) <= Shl(b, i)
    ensures a < b ==> Shl(a, i) < Shl(b, i)
  {
    ShlLinear(a, b - a, i);
    if a < b {
      ShlLinear(1, b - a - 1, i);
      ShlAtLeast(1, i);
    }
  }

  /** `<<` is monotone in the shift. */
  lemma {:induction false} ShlGrows(y: nat, i: nat, j: nat)
    requires i <= j
    ensures Shl(y, i) <= Shl(y, j)
    ensures 1 <= y && i < j ==> Shl(y, i) < Shl(y, j)
    decreases j
  {
    if i < j {
      ShlGrows(y, i, j - 1);
      if 1 <= y {
        ShlAtLeast(y, j - 1);
      }
    }
  }

  lemma {:induction false} ShlCompose(y: nat, a: nat, b: nat)
    ensures Shl(Shl(y, a), b) == Shl(y, a + b)
  {
    if b > 0 {
      ShlCompose(y, a, b - 1);
    }
  }

  /** `x >> i` is the floor of `x / 2^i`. */
  lemma {:induction false} ShrFloor(x: nat, i: nat)
    ensures Shl(Shr(x, i), i) <= x < Shl(Shr(x, i) + 1, i)
  {
    if i > 0 {
      var t := Shr(x, i - 1);
      ShrFloor(x, i - 1);
      var q := t / 2;
      ShlDouble(q, i - 1);
      ShlDouble(q + 1, i - 1);
      ShlMonotone(2 * q, t, i - 1);
      ShlMonotone(t + 1, 2 * q + 2, i - 1);
    }
  }

  /** The floor is the only `q` with `q << i <= x < (q + 1) << i`. */
  lemma FloorUnique(x: nat, i: nat, q: nat)
    requires Shl(q, i) <= x < Shl(q + 1, i)
    ensures Shr(x, i) == q
  {
    var s := Shr(x, i);
    ShrFloor(x, i);
    if s < q {
      ShlMonotone(s + 1, q, i);
    } else if s > q {
      ShlMonotone(q + 1, s, i);
    }
  }

  /** Leaf `k` lies under node `x` of height `j` exactly when it is among `x`'s leaves. */
  lemma UnderIff(k: nat, x: nat, j: nat)
    ensures Shr(k, j) == x <==> Shl(x, j) <= k < Shl(x + 1, j)
  {
    ShrFloor(k, j);
    if Shl(x, j) <= k < Shl(x + 1, j) {
      FloorUnique(k, j, x);
    }
  }

  lemma {:induction false} ShrMonotone(x: nat, y: nat, i: nat)
    requires x <= y
    ensures Shr(x, i) <= Shr(y, i)
  {
    if i > 0 {
      ShrMonotone(x, y, i - 1);
    }
  }

  lemma {:induction false} ShrShrinks(x: nat, i: nat, j: nat)
    requires i <= j
    ensures Shr(x, j) <= Shr(x, i)
    ensures Shr(x, j) >= 1 && i < j ==> Shr(x, j) < Shr(x, i)
    decreases j
  {
    if i < j {
      ShrShrinks(x, i, j - 1);
    }
  }

  /** A multiple of `2^(i+1)` is a multiple of `2^i`. */
  lemma UnalignedUp(x: nat, i: nat)
    requires Unaligned(x, i)
    ensures Unaligned(x, i + 1)
  {
    var s := Shr(x, i);
    var q := s / 2;
    ShrFloor(x, i);
    ShlDouble(q, i);
    ShlMonotone(2 * q, s, i);
  }

  lemma {:induction false} UnalignedAbove(x: nat, i: nat, j: nat)
    requires i <= j && Unaligned(x, i)
    ensures Unaligned(x, j)
    decreases j
  {
    if i < j {
      UnalignedAbove(x, i, j - 1);
      UnalignedUp(x, j - 1);
    }
  }

  /** Where `x` is not a multiple of `2^i`, `(x - 1) >> i == x >> i`. */
  lemma ShrOfPrevious(x: nat, i: nat)
    requires x >= 1 && Unaligned(x, i)
    ensures Shr(x - 1, i) == Shr(x, i)
  {
    ShrFloor(x, i);
    FloorUnique(x - 1, i, Shr(x, i));
  }

  /** Zero is aligned everywhere, and `0 >> i == 0`. */
  lemma {:induction false} ShrZero(i: nat)
    ensures Shr(0, i) == 0 && Shl(0, i) == 0
  {
    if i > 0 {
      ShrZero(i - 1);
    }
  }

  /** In a tree with `1 << h` leaves, the ancestor `k >> i` of leaf `k` lies at height `i`. */
  lemma ShrHeight(k: nat, h: nat, i: nat)
    requires Shl(1, h) <= k < Shl(1, h + 1) && i <= h
    ensures AtHeight(Shr(k, i), h, i)
  {
    var s := Shr(k, i);
    ShrFloor(k, i);
    ShlCompose(1, h - i, i);
    ShlCompose(1, h - i + 1, i);
    assert h - i + i == h && h - i + 1 + i == h + 1;
    if s < Shl(1, h - i) {
      ShlMonotone(s + 1, Shl(1, h - i), i);
    }
    if s >= Shl(1, h - i + 1) {
      ShlMonotone(Shl(1, h - i + 1), s, i);
    }
  }

  /** Above the root every leaf's ancestor is `0`. */
  lemma ShrAboveRoot(k: nat, h: nat, i: nat)
    requires k < Shl(1, h + 1) && i > h
    ensures Shr(k, i) == 0
  {
    var s := Shr(k, i);
    ShrFloor(k, i);
    if s >= 1 {
      ShlMonotone(1, s, i);
      ShlGrows(1, h + 1, i);
    }
  }

  /** The heights are disjoint ranges of node numbers. */
  lemma HeightUnique(x: nat, h: nat, i: nat, j: nat)
    requires AtHeight(x, h, i) && AtHeight(x, h, j)
    ensures i == j
  {
    if i < j {
      ShlGrows(1, h - j + 1, h - i);
    } else if j < i {
      ShlGrows(1, h - i + 1, h - j);
    }
  }

  /** A node's number is at most its ancestor's, and `a` reaches `x` by halving only from below. */
  lemma {:induction false} PathBelow(x: nat, a: nat)
    requires OnPathToRoot(x, a)
    ensures x <= a && (x != a ==> 2 * x <= a)
    decreases a
  {
    if x != a {
      PathBelow(x, a / 2);
    }
  }

  /** The ancestors of `k >> t` are the shifts `k >> s` for `s >= t`. */
  lemma {:induction false} ShrOnPath(k: nat, t: nat, s: nat)
    requires t <= s && Shr(k, s) >= 1
    ensures OnPathToRoot(Shr(k, s), Shr(k, t))
    decreases s - t
  {
    ShrShrinks(k, t, s);
    if t < s {
      ShrOnPath(k, t + 1, s);
      assert Shr(k, t + 1) == Shr(k, t) / 2;
    }
  }

  /** Every ancestor of `k >> t` is some `k >> s`, `s >= t`. */
  lemma {:induction false} PathIsShr(k: nat, t: nat, x: nat) returns (s: nat)
    requires OnPathToRoot(x, Shr(k, t))
    ensures s >= t && Shr(k, s) == x
    decreases Shr(k, t)
  {
    if x == Shr(k, t) {
      s := t;
    } else {
      assert Shr(k, t + 1) == Shr(k, t) / 2;
      s := PathIsShr(k, t + 1, x);
    }
  }

  /** For leaf `k` and node `x` at height `j >= t`, `x` is on the path up from `k >> t` exactly when `k >> j == x`. */
  lemma PathIffShr(k: nat, h: nat, t: nat, x: nat, j: nat)
    requires Shl(1, h) <= k < Shl(1, h + 1) && AtHeight(x, h, j) && t <= j
    ensures OnPathToRoot(x, Shr(k, t)) <==> Shr(k, j) == x
  {
    ShlAtLeast(1, h - j);
    if OnPathToRoot(x, Shr(k, t)) {
      var s := PathIsShr(k, t, x);
      if s > h {
        ShrAboveRoot(k, h, s);
      } else {
        ShrHeight(k, h, s);
        HeightUnique(x, h, s, j);
      }
    }
    if Shr(k, j) == x {
      ShrOnPath(k, t, j);
    }
  }

  /** A power of two `1 << h` is aligned at every `i <= h`, where `(1 << h) >> i == 1 << (h - i)`. */
  lemma ShrPower(h: nat, i: nat)
    requires i <= h
    ensures Shr(Shl(1, h), i) == Shl(1, h - i) && !Unaligned(Shl(1, h), i)
  {
    ShlCompose(1, h - i, i);
    assert h - i + i == h;
    ShlMonotone(Shl(1, h - i), Shl(1, h - i) + 1, i);
    FloorUnique(Shl(1, h), i, Shl(1, h - i));
  }

  /** The children of a node at height `i >= 1` lie at height `i - 1`. */
  lemma ChildHeight(c: nat, h: nat, i: nat)
    requires AtHeight(c, h, i) && i >= 1
    ensures AtHeight(2 * c, h, i - 1) && AtHeight(2 * c + 1, h, i - 1)
  {
    assert h - (i - 1) == h - i + 1;
  }

  /**
   * Pushing `X >> i` does not touch `Y >> i2` for `i2 >= i`: the pushed
   * node's children lie below every node at height `i` or more.
   */
  lemma PushOffPath(X: nat, Y: nat, h: nat, i: nat, i2: nat)
    requires Shl(1, h) <= X < Shl(1, h + 1) && Shl(1, h) <= Y < Shl(1, h + 1)
    requires 1 <= i <= i2 && i <= h
    ensures Shr(Y, i2) != 2 * Shr(X, i) && Shr(Y, i2) != 2 * Shr(X, i) + 1
  {
    ShrHeight(X, h, i);
    ChildHeight(Shr(X, i), h, i);
    ShlAtLeast(1, h - i);
    if i2 > h {
      ShrAboveRoot(Y, h, i2);
    } else {
      ShrHeight(Y, h, i2);
      if Shr(Y, i2) == 2 * Shr(X, i) {
        HeightUnique(Shr(Y, i2), h, i2, i - 1);
      } else if Shr(Y, i2) == 2 * Shr(X, i) + 1 {
        HeightUnique(Shr(Y, i2), h, i2, i - 1);
      }
    }
  }

  /** Below the root every ancestor of a leaf is a node, `0` above it. */
  lemma ShrRange(X: nat, h: nat, i: nat)
    requires Shl(1, h) <= X < Shl(1, h + 1)
    ensures 1 <= i <= h ==> 1 <= Shr(X, i) < Shl(1, h)
    ensures i > h ==> Shr(X, i) == 0
  {
    if 1 <= i <= h {
      ShrHeight(X, h, i);
      ShlAtLeast(1, h - i);
      ShlGrows(1, h - i + 1, h);
    } else if i > h {
      ShrAboveRoot(X, h, i);
    }
  }

  /**
   * The left end of the range loop: `l` is `ceil(L / 2^j)`.  An odd `l` has
   * parent `L >> (j + 1)`, where `L` is unaligned, and the loop's next `l`
   * is `ceil(L / 2^(j + 1))`.
   */
  lemma LeftStepIndex(L: nat, l: nat, j: nat)
    requires l >= 1 && Shl(l - 1, j) < L <= Shl(l, j)
    ensures l % 2 == 1 ==> l / 2 == Shr(L, j + 1) && Unaligned(L, j + 1)
    ensures var l2 := (if l % 2 == 1 then l + 1 else l) / 2;
      l2 >= 1 && Shl(l2 - 1, j + 1) < L <= Shl(l2, j + 1)
  {
    var q := l / 2;
    ShlDouble(q, j);
    ShlDouble(q + 1, j);
    if l % 2 == 1 {
      ShlMonotone(l, 2 * q + 2, j);
      FloorUnique(L, j + 1, q);
    } else {
      ShlDouble(q - 1, j);
      ShlMonotone(2 * q - 2, l - 1, j);
    }
  }

  /** Where `R` is a multiple of `2^(j + 1)`, `R >> j` is even. */
  lemma AlignedEven(R: nat, j: nat)
    requires !Unaligned(R, j + 1)
    ensures Shr(R, j) % 2 == 0
  {
    var q := Shr(R, j + 1);
    ShlDouble(q, j);
    ShlMonotone(2 * q, 2 * q + 1, j);
    FloorUnique(R, j, 2 * q);
  }

  /**
   * The right end of the range loop: `r` is `R >> j`.  An odd `r` leaves
   * `r - 1` under the parent `R >> (j + 1) == (R - 1) >> (j + 1)`, where `R`
   * is unaligned.
   */
  lemma RightStepIndex(R: nat, j: nat)
    requires Shr(R, j) % 2 == 1
    ensures R >= 1 && (Shr(R, j) - 1) / 2 == Shr(R, j + 1) && Unaligned(R, j + 1)
    ensures Shr(R - 1, j + 1) == Shr(R, j + 1)
  {
    if !Unaligned(R, j + 1) {
      AlignedEven(R, j);
    }
    ShrFloor(R, j);
    ShlAtLeast(1, j);
    ShlMonotone(1, Shr(R, j), j);
    ShrOfPrevious(R, j + 1);
  }

  /** A loop bound `l` with `ceil(L / 2^j) == l` and `l < R >> j` is a node at height `j`. */
  lemma LoopNodeHeight(L: nat, R: nat, h: nat, l: nat, j: nat)
    requires Shl(1, h) <= L && R <= Shl(1, h + 1) && L <= Shl(l, j) && l < Shr(R, j)
    ensures AtHeight(l, h, j)
  {
    ShlAtLeast(1, h);
    ShrMonotone(R, Shl(1, h + 1), j);
    if j > h {
      ShrPower(h + 1, h + 1);
      ShrShrinks(Shl(1, h + 1), h + 1, j);
      ShrZero(j);
      assert false;
    }
    ShrPower(h + 1, j);
    assert h + 1 - j == h - j + 1;
    ShlCompose(1, h - j, j);
    assert h - j + j == h;
    if l < Shl(1, h - j) {
      ShlMonotone(l, Shl(1, h - j), j);
    }
  }

  /** `floor(log2 k)` for `k >= 1`: node `k` lies `Log2(k)` levels below the root. */
  function Log2(k: nat): nat
  {
    if k <= 1 then 0 else 1 + Log2(k / 2)
  }

  /** Between `2^e` and `2^(e+1)` the logarithm is `e`. */
  lemma {:induction false} Log2Of(k: nat, e: nat)
    requires Shl(1, e) <= k < Shl(1, e + 1)
    ensures Log2(k) == e
    decreases e
  {
    if e > 0 {
      Log2Of(k / 2, e - 1);
    }
  }

  /** A node at height `j` of a tree of `h + 1` levels lies `h - j` levels below the root. */
  lemma HeightLog2(x: nat, h: nat, j: nat)
    requires AtHeight(x, h, j)
    ensures Log2(x) == h - j && x >= 1
  {
    Log2Of(x, h - j);
    ShlAtLeast(1, h - j);
  }

  /** With `l == ceil(L / 2^j)`, the ancestor `L >> j` is `l - 1` when `L` is not aligned at `j`. */
  lemma UnalignedLeftBound(L: nat, l: nat, j: nat)
    requires l >= 1 && Shl(l - 1, j) < L <= Shl(l, j) && Unaligned(L, j)
    ensures Shr(L, j) == l - 1
  {
    if L == Shl(l, j) {
      ShlMonotone(l, l + 1, j);
      FloorUnique(L, j, l);
      assert false;
    } else {
      FloorUnique(L, j, l - 1);
    }
  }
}
