// Sequence algorithms on strings: the Levenshtein distance by a forward
// ("push") dynamic programme, and the Z-array.

module Strings {

  function Min(a: nat, b: nat): nat
  {
    if a <= b then a else b
  }

  /** The substitution cost of `edit_distance`: 0 for equal elements, 1 otherwise. */
  function Cost<T(==)>(s: seq<T>, t: seq<T>, i: nat, j: nat): nat
    requires i < |s| && j < |t|
  {
    if s[i] != t[j] then 1 else 0
  }

  /**
   * The Levenshtein distance between s[..i] and t[..j]: the fewest
   * unit-cost deletions, insertions and substitutions turning one into the
   * other, by its standard recurrence.
   */
  function Lev<T(==)>(s: seq<T>, t: seq<T>, i: nat, j: nat): nat
    requires i <= |s| && j <= |t|
    decreases i + j
  {
    if i == 0 then j
    else if j == 0 then i
    else Min(Min(Lev(s, t, i - 1, j) + 1, Lev(s, t, i, j - 1) + 1), Lev(s, t, i - 1, j - 1) + Cost(s, t, i - 1, j - 1))
  }

  /** Unfolds the recurrence once, for cells off the first row and column. */
  lemma LevUnfold<T>(s: seq<T>, t: seq<T>, i: nat, j: nat)
    requires 0 < i <= |s| && 0 < j <= |t|
    ensures Lev(s, t, i, j) == Min(Min(Lev(s, t, i - 1, j) + 1, Lev(s, t, i, j - 1) + 1), Lev(s, t, i - 1, j - 1) + Cost(s, t, i - 1, j - 1))
  {
  }

  /** The distance is at least the difference of the lengths. */
  lemma {:induction false} LevLower<T>(s: seq<T>, t: seq<T>, i: nat, j: nat)
    requires i <= |s| && j <= |t|
    ensures i - j <= Lev(s, t, i, j) && j - i <= Lev(s, t, i, j)
    decreases i + j
  {
    if i > 0 && j > 0 {
      LevLower(s, t, i - 1, j);
      LevLower(s, t, i, j - 1);
      LevLower(s, t, i - 1, j - 1);
      LevUnfold(s, t, i, j);
    }
  }

  /** The distance is at most the larger length: substitute along the shorter, then insert or delete the rest. */
  lemma {:induction false} LevUpper<T>(s: seq<T>, t: seq<T>, i: nat, j: nat)
    requires i <= |s| && j <= |t|
    ensures Lev(s, t, i, j) <= i || Lev(s, t, i, j) <= j
    decreases i + j
  {
    if i > 0 && j > 0 {
      LevUpper(s, t, i - 1, j - 1);
      LevUnfold(s, t, i, j);
    }
  }

  lemma LevBounds<T>(s: seq<T>, t: seq<T>, i: nat, j: nat)
    requires i <= |s| && j <= |t|
    ensures i - j <= Lev(s, t, i, j) && j - i <= Lev(s, t, i, j)
    ensures Lev(s, t, i, j) <= i || Lev(s, t, i, j) <= j
  {
    LevLower(s, t, i, j);
    LevUpper(s, t, i, j);
  }

  /** A sequence is at distance 0 from itself. */
  lemma {:induction false} LevSelf<T>(s: seq<T>, i: nat)
    requires i <= |s|
    ensures Lev(s, s, i, i) == 0
  {
    if i > 0 {
      LevSelf(s, i - 1);
      assert Cost(s, s, i - 1, i - 1) == 0;
    }
  }

  /** Cell (x, y) comes before cell (i, j) in the row-major sweep of `edit_distance`. */
  predicate Before(x: nat, y: nat, i: nat, j: nat)
  {
    x < i || (x == i && y < j)
  }

  /** D has one entry per cell of the (|s| + 1) x (|t| + 1) table. */
  ghost predicate Shaped<T>(s: seq<T>, t: seq<T>, D: seq<seq<nat>>)
  {
    |D| == |s| + 1 && forall x :: 0 <= x <= |s| ==> |D[x]| == |t| + 1
  }

  /** D tabulates the distance between every pair of prefixes. */
  ghost predicate IsLevTable<T>(s: seq<T>, t: seq<T>, D: seq<seq<nat>>)
  {
    && Shaped(s, t, D)
    && forall x, y :: 0 <= x <= |s| && 0 <= y <= |t| ==> D[x][y] == Lev(s, t, x, y)
  }

  ghost function LevTable<T>(s: seq<T>, t: seq<T>): (D: seq<seq<nat>>)
    ensures IsLevTable(s, t, D)
  {
    seq(|s| + 1, x requires 0 <= x <= |s| => seq(|t| + 1, y requires 0 <= y <= |t| => Lev(s, t, x, y)))
  }

  /**
   * The value the sweep holds at dp[x][y] once every cell before (i, j) has
   * pushed its value to its three successors: the initial fill (0 at the
   * origin, n + m + 1 elsewhere) lowered by each predecessor already swept,
   * the predecessors' values being read from the table D.
   */
  ghost function Relaxed<T>(s: seq<T>, t: seq<T>, D: seq<seq<nat>>, x: nat, y: nat, i: nat, j: nat): nat
    requires Shaped(s, t, D) && x <= |s| && y <= |t|
  {
    var init := if x == 0 && y == 0 then 0 else |s| + |t| + 1;
    var a := if x > 0 && Before(x - 1, y, i, j) then Min(init, D[x - 1][y] + 1) else init;
    var b := if y > 0 && Before(x, y - 1, i, j) then Min(a, D[x][y - 1] + 1) else a;
    if x > 0 && y > 0 && Before(x - 1, y - 1, i, j) then Min(b, D[x - 1][y - 1] + Cost(s, t, x - 1, y - 1)) else b
  }

  /** Cell (x, y) of D satisfies the distance recurrence. */
  ghost predicate RecurrentAt<T>(s: seq<T>, t: seq<T>, D: seq<seq<nat>>, x: nat, y: nat)
    requires Shaped(s, t, D) && x <= |s| && y <= |t|
  {
    D[x][y] == if x == 0 then y else if y == 0 then x
               else Min(Min(D[x - 1][y] + 1, D[x][y - 1] + 1), D[x - 1][y - 1] + Cost(s, t, x - 1, y - 1))
  }

  /** D satisfies the distance recurrence everywhere, and no entry exceeds the sum of its prefix lengths. */
  ghost predicate Recurrent<T>(s: seq<T>, t: seq<T>, D: seq<seq<nat>>)
  {
    && Shaped(s, t, D)
    && (forall x, y :: 0 <= x <= |s| && 0 <= y <= |t| ==> D[x][y] <= x + y)
    && (forall x, y :: 0 <= x <= |s| && 0 <= y <= |t| ==> RecurrentAt(s, t, D, x, y))
  }

  /** The table of distances satisfies the recurrence. */
  lemma LevTableRecurrent<T>(s: seq<T>, t: seq<T>, D: seq<seq<nat>>)
    requires IsLevTable(s, t, D)
    ensures Recurrent(s, t, D)
  {
    forall x, y | 0 <= x <= |s| && 0 <= y <= |t|
      ensures D[x][y] <= x + y && RecurrentAt(s, t, D, x, y)
    {
      LevBounds(s, t, x, y);
    }
  }

  /** Two tables satisfying the recurrence agree everywhere. */
  lemma {:induction false} RecurrentUnique<T>(s: seq<T>, t: seq<T>, D: seq<seq<nat>>, E: seq<seq<nat>>, x: nat, y: nat)
    requires Shaped(s, t, D) && forall x, y :: 0 <= x <= |s| && 0 <= y <= |t| ==> RecurrentAt(s, t, D, x, y)
    requires Shaped(s, t, E) && forall x, y :: 0 <= x <= |s| && 0 <= y <= |t| ==> RecurrentAt(s, t, E, x, y)
    requires x <= |s| && y <= |t|
    ensures D[x][y] == E[x][y]
    decreases x + y
  {
    assert RecurrentAt(s, t, D, x, y) && RecurrentAt(s, t, E, x, y);
    if x > 0 && y > 0 {
      RecurrentUnique(s, t, D, E, x - 1, y);
      RecurrentUnique(s, t, D, E, x, y - 1);
      RecurrentUnique(s, t, D, E, x - 1, y - 1);
    }
  }

  /** The recurrence determines the table: any table satisfying it holds the distances. */
  lemma RecurrentLev<T>(s: seq<T>, t: seq<T>, D: seq<seq<nat>>, x: nat, y: nat)
    requires Shaped(s, t, D) && forall x, y :: 0 <= x <= |s| && 0 <= y <= |t| ==> RecurrentAt(s, t, D, x, y)
    requires x <= |s| && y <= |t|
    ensures D[x][y] == Lev(s, t, x, y)
  {
    var E := LevTable(s, t);
    LevTableRecurrent(s, t, E);
    RecurrentUnique(s, t, D, E, x, y);
  }

  /** When the sweep reaches (i, j), all its predecessors have pushed and the cell holds the distance. */
  lemma RelaxedFinal<T>(s: seq<T>, t: seq<T>, D: seq<seq<nat>>, i: nat, j: nat)
    requires Recurrent(s, t, D) && i <= |s| && j <= |t|
    ensures Relaxed(s, t, D, i, j, i, j) == D[i][j]
  {
    assert RecurrentAt(s, t, D, i, j);
    if i > 0 && j > 0 {
      assert D[i - 1][j] <= i - 1 + j;
    } else if i > 0 {
      assert RecurrentAt(s, t, D, i - 1, j);
    } else if j > 0 {
      assert RecurrentAt(s, t, D, i, j - 1);
    }
  }

  /** Sweeping cell (i, j) lowers exactly its three successors, each by the cost of the edit that leads there. */
  lemma RelaxedStep<T>(s: seq<T>, t: seq<T>, D: seq<seq<nat>>, x: nat, y: nat, i: nat, j: nat)
    requires Shaped(s, t, D) && x <= |s| && y <= |t| && i <= |s| && j <= |t|
    ensures Relaxed(s, t, D, x, y, i, j + 1) ==
      if x == i + 1 && y == j then Min(Relaxed(s, t, D, x, y, i, j), D[i][j] + 1)
      else if x == i && y == j + 1 then Min(Relaxed(s, t, D, x, y, i, j), D[i][j] + 1)
      else if x == i + 1 && y == j + 1 then Min(Relaxed(s, t, D, x, y, i, j), D[i][j] + Cost(s, t, i, j))
      else Relaxed(s, t, D, x, y, i, j)
  {
  }

  /** Before the sweep starts only the origin holds 0; all other cells hold n + m + 1. */
  lemma RelaxedStart<T>(s: seq<T>, t: seq<T>, D: seq<seq<nat>>, x: nat, y: nat)
    requires Shaped(s, t, D) && x <= |s| && y <= |t|
    ensures Relaxed(s, t, D, x, y, 0, 0) == if x == 0 && y == 0 then 0 else |s| + |t| + 1
  {
  }

  /** Finishing row i is starting row i + 1. */
  lemma RelaxedNextRow<T>(s: seq<T>, t: seq<T>, D: seq<seq<nat>>, x: nat, y: nat, i: nat)
    requires Shaped(s, t, D) && x <= |s| && y <= |t|
    ensures Relaxed(s, t, D, x, y, i, |t| + 1) == Relaxed(s, t, D, x, y, i + 1, 0)
  {
  }

  /** One step of the sweep: cell (i, j), now final, pushes its distance to its three successors. */
  method Sweep<T(==)>(s: seq<T>, t: seq<T>, ghost D: seq<seq<nat>>, dp: array2<nat>, i: nat, j: nat)
    requires Recurrent(s, t, D) && dp.Length0 == |s| + 1 && dp.Length1 == |t| + 1 && i <= |s| && j <= |t|
    requires forall x, y :: 0 <= x <= |s| && 0 <= y <= |t| ==> dp[x, y] == Relaxed(s, t, D, x, y, i, j)
    modifies dp
    ensures forall x, y :: 0 <= x <= |s| && 0 <= y <= |t| ==> dp[x, y] == Relaxed(s, t, D, x, y, i, j + 1)
  {
    var n, m := |s|, |t|;
    RelaxedFinal(s, t, D, i, j);
    if i < n {
      dp[i + 1, j] := Min(dp[i + 1, j], dp[i, j] + 1);
    }
    if j < m {
      dp[i, j + 1] := Min(dp[i, j + 1], dp[i, j] + 1);
    }
    if i < n && j < m {
      dp[i + 1, j + 1] := Min(dp[i + 1, j + 1], dp[i, j] + Cost(s, t, i, j));
    }
    forall x, y | 0 <= x <= n && 0 <= y <= m
      ensures dp[x, y] == Relaxed(s, t, D, x, y, i, j + 1)
    {
      RelaxedStep(s, t, D, x, y, i, j);
      if !((x == i + 1 || x == i) && (y == j || y == j + 1)) {
        assert dp[x, y] == old(dp[x, y]);
      }
    }
  }

  /** `edit_distance(s, t)`: fills dp row by row, each cell pushing to its right, lower and diagonal neighbours. */
  method EditDistance<T(==)>(s: seq<T>, t: seq<T>) returns (d: nat)
    ensures d == Lev(s, t, |s|, |t|)
  {
    var n, m := |s|, |t|;
    ghost var D := LevTable(s, t);
    LevTableRecurrent(s, t, D);
    var dp := new nat[n + 1, m + 1]((_, _) => n + m + 1);
    dp[0, 0] := 0;
    forall x, y | 0 <= x <= n && 0 <= y <= m
      ensures dp[x, y] == Relaxed(s, t, D, x, y, 0, 0)
    {
      RelaxedStart(s, t, D, x, y);
    }
    var i := 0;
    while i <= n
      invariant 0 <= i <= n + 1
      invariant forall x, y :: 0 <= x <= n && 0 <= y <= m ==> dp[x, y] == Relaxed(s, t, D, x, y, i, 0)
    {
      var j := 0;
      while j <= m
        invariant 0 <= j <= m + 1
        invariant forall x, y :: 0 <= x <= n && 0 <= y <= m ==> dp[x, y] == Relaxed(s, t, D, x, y, i, j)
      {
        Sweep(s, t, D, dp, i, j);
        j := j + 1;
      }
      forall x, y | 0 <= x <= n && 0 <= y <= m
        ensures dp[x, y] == Relaxed(s, t, D, x, y, i + 1, 0)
      {
        RelaxedNextRow(s, t, D, x, y, i);
      }
      i := i + 1;
    }
    RelaxedFinal(s, t, D, n, m);
    d := dp[n, m];
  }

  /** s[i..] and s agree on their first L elements, and L cannot be extended: L is their longest common prefix. */
  ghost predicate IsLcp<T>(s: seq<T>, i: nat, L: nat)
  {
    && i + L <= |s|
    && (forall p :: 0 <= p < L ==> s[p] == s[i + p])
    && (i + L == |s| || s[L] != s[i + L])
  }

  /** The longest common prefix is unique, so `IsLcp` determines each entry of the Z-array. */
  lemma LcpUnique<T>(s: seq<T>, i: nat, L1: nat, L2: nat)
    requires IsLcp(s, i, L1) && IsLcp(s, i, L2)
    ensures L1 == L2
  {
  }

  /** Inside the box [j, j + zj), the entry at i copies the entry at i - j when that one ends inside the box. */
  lemma ZCopy<T>(s: seq<T>, i: nat, j: nat, zj: nat, L: nat)
    requires 1 <= j < i && IsLcp(s, j, zj) && IsLcp(s, i - j, L) && i + L < j + zj
    ensures IsLcp(s, i, L)
  {
    forall p | 0 <= p < L
      ensures s[p] == s[i + p]
    {
      assert s[j + (i - j + p)] == s[i - j + p];
    }
    assert s[j + (i - j + L)] == s[i - j + L];
  }

  /** Otherwise the part of s[i..] inside the box is already known to match the prefix. */
  lemma ZStart<T>(s: seq<T>, i: nat, j: nat, zj: nat, zij: nat)
    requires 1 <= j < i && IsLcp(s, j, zj) && IsLcp(s, i - j, zij) && j + zj <= i + zij && i < j + zj
    ensures forall p :: 0 <= p < j + zj - i ==> s[p] == s[i + p]
  {
    forall p | 0 <= p < j + zj - i
      ensures s[p] == s[i + p]
    {
      assert s[j + (i - j + p)] == s[i - j + p];
    }
  }

  /** The inner loop of `z_algorithm`: extends a known common prefix of s and s[i..] until it cannot grow. */
  method Extend<T(==)>(s: seq<T>, i: nat, k0: nat) returns (k: nat)
    requires i + k0 <= |s|
    requires forall p :: 0 <= p < k0 ==> s[p] == s[i + p]
    ensures k0 <= k && IsLcp(s, i, k)
  {
    k := k0;
    while i + k < |s| && s[k] == s[i + k]
      invariant k0 <= k && i + k <= |s|
      invariant forall p :: 0 <= p < k ==> s[p] == s[i + p]
      decreases |s| - k
    {
      k := k + 1;
    }
  }

  /**
   * `z_algorithm(s)`: z[i] is the length of the longest common prefix of s
   * and s[i..]; z[0] = |s|. The source indexes z[0] unconditionally, so an
   * empty input panics.
   */
  method ZAlgorithm<T(==)>(s: seq<T>) returns (z: seq<nat>)
    requires |s| >= 1
    ensures |z| == |s|
    ensures forall i :: 0 <= i < |s| ==> IsLcp(s, i, z[i])
  {
    var n := |s|;
    var za := new nat[n](_ => 0);
    var j := 0;
    var i := 1;
    while i < n
      invariant 1 <= i <= n && 0 <= j < i
      invariant za[0] == 0 && (j == 0 ==> i == 1)
      invariant forall k :: 1 <= k < i ==> IsLcp(s, k, za[k])
      invariant forall k :: i <= k < n ==> za[k] == 0
    {
      if i + za[i - j] < j + za[j] {
        ZCopy(s, i, j, za[j], za[i - j]);
        za[i] := za[i - j];
      } else {
        var k := if j + za[j] > i then j + za[j] - i else 0;
        if j + za[j] > i {
          ZStart(s, i, j, za[j], za[i - j]);
        }
        k := Extend(s, i, k);
        za[i] := k;
        j := i;
      }
      i := i + 1;
    }
    za[0] := n;
    z := za[..];
  }

  /** The Z-array of "ababa" is [5, 0, 3, 0, 1]. */
  lemma ZOfAbaba()
    ensures var s, z := "ababa", [5, 0, 3, 0, 1];
      forall i :: 0 <= i < 5 ==> IsLcp(s, i, z[i])
  {
    var s := "ababa";
    assert s[1] != s[0] && s[3] != s[0] by {
      assert s[3] == 'b' && s[0] == 'a';
    }
  }
}
