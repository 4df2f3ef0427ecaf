# procon_rs in Dafny

A Dafny model of the competitive-programming library procon_rs. The library is a collection of small Rust crates.

| area | crates | what is modelled |
|---|---|---|
| arithmetic | `procon_math`, `procon_modint`, `procon_bicoef` | gcd, extended gcd, modular power and inverse; modular integers over the six NTT-friendly primes; tables of binomial coefficients |
| polynomials | `procon_ntt`, `procon_fps` | the number-theoretic transform and polynomial multiplication; formal power series with inverse, logarithm, exponential, power and division |
| algebra | `procon_math_traits` | the algebraic traits: monoids and integer bounds |
| range queries | `procon_segtree`, `procon_lazy_segtree`, `procon_sparse_table`, `procon_rollinghash` | segment tree, lazy segment tree with range maps and binary search, sparse table, polynomial rolling hash |
| sets | `procon_unionfind`, `procon_multiset` | disjoint-set forest; counted multiset over a `BTreeMap` |
| sequences | `procon_string`, `procon_itertools` | edit distance and the Z-algorithm; the iterator adaptors and the lexicographic permutation steps |
| graphs | `procon_graph`, `procon_shortest_path` | directed and undirected graphs; Dijkstra's algorithm |

The model follows each crate's own form:

- **Objects the source mutates are classes.** `SegTree`, `LazySegTree`, `FormalPowerSeries`, `UnionFind`, `BTreeMultiSet` and its iterator, the graphs, `Dijkstra` and the iterator adaptors are Dafny classes.
  - Their vectors and maps are `seq` and `map` fields.
  - Their methods state the whole new state.
- **In-place slice algorithms keep an `array`.** This covers `next_permutation`, `prev_permutation`, and the NTT's `bit_reverse`, butterfly levels and buffers of `multiply`.
- **Loops are methods with invariants.** Each is proved against a specification function: the sparse-table build, the rolling-hash build and search, edit distance, the Z-algorithm, the modular inverse and power, the table builders of `procon_bicoef`, and Dijkstra's relaxation loop.
- **Pure code is functions and lemmas over datatypes.**

The lazy segment tree is specified by its elements: each leaf with the maps pending above it applied (`LazySegTree.LazySegTree.Contents`). Every operation on a range that ends by `size` states the new elements, and `max_right`/`min_left` state the binary-search answer. The NTT is specified by evaluation: after `dft` the buffer holds the input polynomial at the powers of the root, and the inverse transform brings it back. A formal power series is a coefficient sequence of residues; its products are proved against the exact convolution, and its inverse and logarithm against the identities they promise modulo `x^d`. Its exponential is the series whose logarithm is `f` (`FpsExp.IsLogarithm`), unique by `FpsExp.ExpUnique`, and its power `f^n` is repeated multiplication (`FpsPow.SeriesPow`).

Machine integers are unbounded in the model:

- `usize` becomes `nat`.
- `i64` and `u128` are `int`. Rust's truncating `/` and `%` are written out as `RustArith.TDiv` and `RustArith.TRem` wherever an operand can be negative.
- Where a width matters, the model proves that the values stay inside it. For example, the rolling hash stays inside `u128`, and a `ModInt` modulus satisfies `(m-1)^2 <= i64::MAX`.

Generic element types become `int`, or a type parameter where only equality or a monoid is used.

## Model

| member | source | states |
|---|---|---|
| Math.Gcd | procon_math/src/lib.rs:5-11 | the result divides both arguments, and it is 0 exactly when both are 0 |
| Math.GcdGreatest | procon_math/src/lib.rs:5-11 | every common divisor of `a` and `b` divides `gcd(a, b)` |
| Math.GcdNonNegative | procon_math/src/lib.rs:5-11 | on non-negative arguments the gcd is non-negative |
| Math.Lcm | procon_math/src/lib.rs:13-15 | `None` (the division by zero) exactly when both are 0; otherwise a common multiple with `lcm * gcd == a * b` |
| Math.ExtGcd | procon_math/src/lib.rs:17-25 | Bezout's identity `a x + b y == g`, and `g` is the gcd on non-negative inputs |
| Math.PowMod | procon_math/src/lib.rs:27-37 | the square-and-multiply loop returns Rust's remainder of `x^n`; for non-negative `x` this is `x^n mod m`; `n <= 0` gives 1 |
| Math.SignedMod | procon_math/src/lib.rs:44-46 | for `m > 0` the Euclidean residue `x mod m`; for `m < 0` a value in `(m, 0]` congruent to `x` |
| Math.InvMod | procon_math/src/lib.rs:39-42 | a value in `[0, m)` with `x * r == gcd(x, m) (mod m)` |
| Math.InvModIsInverse | procon_math/src/lib.rs:39-42 | when `gcd(x, m) == 1` the result is the multiplicative inverse of `x` modulo `m` |
| Math.FermatUnit | procon_modint/src/lib.rs:578-588 | Fermat's little theorem for units, on which `x / y == x * y^(m-2)` rests: `x^(p-1) == 1 (mod p)` for a prime `p` not dividing `x` |
| MathTraits.FoldAppend | procon_math_traits/src/lib.rs:30-34 | in a lawful monoid the product of a concatenation is the product of the two products |
| MathTraits.Min | procon_math_traits/src/lib.rs:197-202 | `min()` is `-2^(bits-1)` for a signed type and 0 for an unsigned one |
| MathTraits.Max | procon_math_traits/src/lib.rs:204-208 | `max()` is `2^(bits-1) - 1` for a signed type and `2^bits - 1` for an unsigned one |
| MathTraits.ZeroOneInRange | procon_math_traits/src/lib.rs:181-210 | every primitive integer type holds `zero()` and `one()`, and it spans exactly `2^bits` values |
| MathTraits.Additive | procon_math_traits/src/lib.rs:268-280 | identity 0 and op `+`: a lawful commutative monoid |
| MathTraits.Multiplicative | procon_math_traits/src/lib.rs:282-294 | identity 1 and op `*`: a lawful commutative monoid |
| MathTraits.Xor | procon_math_traits/src/lib.rs:312-322 | for every primitive integer type, signed ones included: identity 0, the values of the type are closed under `^`, and on an unsigned type `^` is the bitwise xor of the two values |
| MathTraits.XorTypeLaws | procon_math_traits/src/lib.rs:312-322 | on the values of any primitive type (two's complement for signed ones) `^` is associative and commutative, has identity 0 and makes every value its own inverse |
| MathTraits.XorLaws | procon_math_traits/src/lib.rs:312-322 | bitwise xor is associative and commutative, has 0 as identity and is self-inverse |
| MathTraits.GcdOp | procon_math_traits/src/lib.rs:296-310 | `op(a, b)` is `None` (a division by zero) exactly when `b == 0`; otherwise it is `gcd(a, b)`, a common divisor |
| MathTraits.GcdIdentityLeftOnly | procon_math_traits/src/lib.rs:296-310 | `id() == 0` is an identity only on the left: `op(0, b) == b`, while `op(a, 0)` panics |
| ModInt.Modulo | procon_modint/src/lib.rs:306-311 | every modulus is greater than 1, below `2^31`, has `(m-1)^2` inside `i64`, and is `1 (mod 2^21)` |
| ModInt.PrimitiveRoot | procon_modint/src/lib.rs:306-311 | each declared primitive root lies in `(1, m)` |
| ModInt.New | procon_modint/src/lib.rs:317-330 | `new(v)` is the Euclidean residue `v mod m`; a zero modulus is reported as `None` |
| ModInt.Reduce | procon_modint/src/lib.rs:386-390 | the operand reduction keeps the residue; it gives `[0, m)` for non-negative operands and leaves a negative one untouched |
| ModInt.Add | procon_modint/src/lib.rs:386-397 | always congruent to `a + rhs`; on a reduced value and a non-negative operand it is the reduced sum; with a negative operand it is negative exactly when `a + rhs` is |
| ModInt.Sub | procon_modint/src/lib.rs:450-463 | for a non-negative operand it is the reduced difference; a non-positive operand leaves the value unchanged |
| ModInt.Mul | procon_modint/src/lib.rs:516-525 | always congruent to `a * rhs` and within `(-m, m)`; the reduced product for non-negative operands; negative for a negative operand unless the product is 0 |
| ModInt.Power | procon_modint/src/lib.rs:332-352 | the square-and-multiply loop returns Rust's remainder of `c^e`; on a reduced base and `e > 0` this is `c^e mod m` |
| ModInt.Inv | procon_modint/src/lib.rs:358-369 | the extended-Euclid loop returns `r` in `[0, m)` with `a * r == gcd(a, m) (mod m)`; for a unit this is the inverse; 0 gives 0 |
| ModInt.Div | procon_modint/src/lib.rs:578-588 | for a prime modulus and an operand that is not a multiple of it, the result times the operand is the dividend; a multiple of `m` as divisor gives 0 |
| ModInt.Neg | procon_modint/src/lib.rs:371-379 | `-x` is in `[0, m)` and `x + (-x) == 0 (mod m)` |
| ModInt.AddFromInt | procon_modint/src/lib.rs:433-443 | `i64 + ModInt` is the reduced sum |
| ModInt.SubFromInt | procon_modint/src/lib.rs:499-509 | `i64 - ModInt` is the reduced difference |
| ModInt.MulFromInt | procon_modint/src/lib.rs:561-571 | `i64 * ModInt` is the reduced product |
| ModInt.DivFromInt | procon_modint/src/lib.rs:624-634 | `i64 / ModInt` times the divisor is the dividend, for a prime modulus |
| ModInt.NegativeOperandExample | procon_modint/src/lib.rs:381-397 | with a negative operand, as written: `0 + (-1)` is `-1`, `0 - (-1)` is `0`, and `1 * (-1)` is `-1`; the corrected operators give `m-1`, `1` and `m-1` |
| ModInt.AddReduced | procon_modint/src/lib.rs:386-397 | corrected `+=`: the reduced sum for every integer operand |
| ModInt.SubReduced | procon_modint/src/lib.rs:450-463 | corrected `-=`: the reduced difference for every integer operand |
| ModInt.MulReduced | procon_modint/src/lib.rs:516-525 | corrected `*=`: the reduced product for every integer operand |
| Bicoef.Tables | procon_bicoef/src/lib.rs:44-59 | the three loops of `SmallNCombination::new` fill `fact[i] == i! mod m`; for a prime `m > max` they fill `finv[i]` and `inv[i]` with the inverses of `i!` and `i` |
| Bicoef.FactNotMultiple | procon_bicoef/src/lib.rs:51 | no factorial below a prime is a multiple of it, so `finv[max] /= fact[max]` divides by a unit |
| Bicoef.NewSmall | procon_bicoef/src/lib.rs:44-59 | `SmallNCombination::new(max)` has tables of length `max + 1`, valid for a prime `m > max` |
| Bicoef.NewLarge | procon_bicoef/src/lib.rs:93-113 | `LargeNCombination::new(n, r_max)` fills `com[i] == C(n, i) mod m` for every `i <= r_max`, for a prime `m > r_max`; `r_max <= n` is required because `(n - i) + 1` underflows `usize` at `i == n + 1` |
| Bicoef.BinomStepUp | procon_bicoef/src/lib.rs:109-111 | `i * C(n, i) == (n - i + 1) * C(n, i - 1)`, the recurrence behind `com[i]` |
| Bicoef.Comb | procon_bicoef/src/lib.rs:69-75 | 0 when `n < r`; otherwise `C(n, r) mod m` |
| Bicoef.Perm | procon_bicoef/src/lib.rs:61-67 | 0 when `n < r`; otherwise `n! / (n-r)! mod m` |
| Bicoef.FallingFactorial | procon_bicoef/src/lib.rs:61-67 | the falling factorial times `(n-k)!` is `n!` |
| Bicoef.MultiComb | procon_bicoef/src/lib.rs:77-83 | 1 when `r == 0`; otherwise `C(n + r - 1, r) mod m` |
| Bicoef.LargeComb | procon_bicoef/src/lib.rs:115-117 | `com[r]` is `C(n, r) mod m` |
| Bicoef.SmallNew | procon_bicoef/src/lib.rs:14-17 | `small_new(n)` wraps a valid `SmallNCombination` |
| Bicoef.LargeNew | procon_bicoef/src/lib.rs:19-22 | `large_new(n, r)` wraps a valid `LargeNCombination` for `n` |
| Bicoef.BicoefComb | procon_bicoef/src/lib.rs:24-33 | `None` (the failed `assert_eq!`) exactly for a large table asked about another `n`; otherwise `C(n, r) mod m` |
| SegTree.SegTree.From | procon_segtree/src/lib.rs:16-27 | `size` is the least power of two (at least 1) holding `v`, the leaves are `v` padded with `id`, and every inner node holds the product of its children |
| SegTree.SegTree.New | procon_segtree/src/lib.rs:30-32 | `new(n)`: a valid tree of at least `n` leaves, all `id` |
| SegTree.SegTree.Get | procon_segtree/src/lib.rs:34-36 | `get(idx)` is the element at `idx` |
| SegTree.SegTree.Update | procon_segtree/src/lib.rs:44-46 | node `j` becomes the product of its two children; nothing else changes |
| SegTree.SegTree.SetAsWritten | procon_segtree/src/lib.rs:38-42 | `set` as written always panics: its first `update` is on the leaf itself, whose children lie past the end of `data` |
| SegTree.SegTree.Set | procon_segtree/src/lib.rs:38-42 | corrected `set`: the element at `idx` becomes `v`, and every inner node again holds the product of its children |
| SegTree.SegTree.QueryInner | procon_segtree/src/lib.rs:48-65 | the loop as written, one accumulator fed from both ends, for every `l <= r`: a read past the end of `data` is a panic (`None`), and none happens when `r <= size` |
| SegTree.QueryPastEndExample | procon_segtree/src/lib.rs:48-65 | nothing checks `r` against `size`: with `size == 4`, `query(0..6)` returns the product of leaf 0 and the root without panicking, and `query(0..9)` panics |
| SegTree.QueryInnerCommutative | procon_segtree/src/lib.rs:48-65 | with a commutative monoid, the as-written loop yields the product of the elements `[l, r)` |
| SegTree.QueryInnerNotCommutative | procon_segtree/src/lib.rs:48-65 | with concatenation of sequences, a lawful but not commutative monoid, `query_inner(0, 3)` on leaves `[0],[1],[2],[3]` yields `[2, 0, 1]` instead of `[0, 1, 2]` |
| SegTree.SegTree.QueryFixed | procon_segtree/src/lib.rs:48-65 | corrected loop, with a left and a right accumulator |
| SegTree.QueryFixedCorrect | procon_segtree/src/lib.rs:48-65 | for every lawful monoid, the corrected loop yields the product of the elements `[l, r)` in order |
| SegTree.SegTree.Query | procon_segtree/src/lib.rs:67-83 | `query(range)` as written runs `query_inner` on the converted bounds (an unbounded end is `size`); with a commutative monoid and an end within `size` it is the product of the elements in the range |
| SegTree.SegTree.QueryCorrected | procon_segtree/src/lib.rs:67-83 | corrected `query`: refused exactly when the end lies past `size`, and otherwise the product of the elements in the range, in order, for every lawful monoid |
| SparseTable.FloorLog2Bounds | procon_sparse_table/src/lib.rs:47-50 | `logs[x]` is `floor(log2 x)`: `2^logs[x] <= x < 2^(logs[x]+1)` |
| SparseTable.CombineOptimal | procon_sparse_table/src/lib.rs:57-59 | combining the best indices of two overlapping or adjacent windows gives the best index of their union |
| SparseTable.EntryOptimal | procon_sparse_table/src/lib.rs:55-61 | every filled entry `table[i][k]` is the index of a best element of the window `[i, i + 2^k)` |
| SparseTable.BuildLogs | procon_sparse_table/src/lib.rs:47-50 | the `logs` loop builds exactly the floor-log table |
| SparseTable.InitTable | procon_sparse_table/src/lib.rs:51-54 | the zero-filled table, with `table[i][0] == i` |
| SparseTable.FillLevel | procon_sparse_table/src/lib.rs:56-60 | one round of the outer loop fills column `k` for every window that fits |
| SparseTable.New | procon_sparse_table/src/lib.rs:45-68 | `new(v)` builds the specified table and logs for `v` |
| SparseTable.TableComplete | procon_sparse_table/src/lib.rs:55-61 | once the outer loop stops, every column is final |
| SparseTable.QueryInner | procon_sparse_table/src/lib.rs:70-79 | `query_inner(l, r)` is the index of a best element of `[l, r]` |
| SparseTable.QueryUnboundedAsWritten | procon_sparse_table/src/lib.rs:81-94 | as written, `query(1..)` on `[-7, 4, 8]` with `Min` gives index 0, outside the queried range |
| SparseTable.Query | procon_sparse_table/src/lib.rs:81-94 | corrected `query`: the index of a best element of the half-open range |
| UnionFind.SingletonRoots | procon_unionfind/src/lib.rs:8-14 | the forest `new(n)` builds has `n` roots |
| UnionFind.CompressFind | procon_unionfind/src/lib.rs:16-24 | path compression keeps the forest ranked and the root of every element |
| UnionFind.LinkClasses | procon_unionfind/src/lib.rs:37 | hanging one root under another unites their two classes and keeps every other class |
| UnionFind.LinkSizes | procon_unionfind/src/lib.rs:38-39 | the `sizes` update keeps each root's entry equal to its class size |
| UnionFind.LinkPartition | procon_unionfind/src/lib.rs:26-42 | after linking, two elements are together exactly when they were before, or one was with `x` and the other with `y` |
| UnionFind.CompressClasses | procon_unionfind/src/lib.rs:16-24 | compression keeps every class and the set of roots |
| UnionFind.UnionFind.constructor | procon_unionfind/src/lib.rs:8-14 | `n` singleton classes, each its own root |
| UnionFind.UnionFind.Root | procon_unionfind/src/lib.rs:16-24 | returns the root of `x`; only parent links change, each to the element's own root; every class is kept |
| UnionFind.UnionFind.Unite | procon_unionfind/src/lib.rs:26-42 | merges exactly when the roots differ, then lowers the class count by one; afterwards two elements are together iff they were, or one was with `x` and the other with `y` |
| UnionFind.UnionFind.Link | procon_unionfind/src/lib.rs:37-40 | the root `a` is hung under the root `b` and the invariant is kept |
| UnionFind.UnionFind.IsSame | procon_unionfind/src/lib.rs:44-48 | true exactly when both elements have one root |
| UnionFind.UnionFind.GroupSize | procon_unionfind/src/lib.rs:50-53 | the number of elements in the class of `x` |
| UnionFind.UnionFind.Len | procon_unionfind/src/lib.rs:55-57 | the number of classes (roots) |
| Strings.LevBounds | procon_string/src/lib.rs:3-24 | the edit distance lies between the difference of the lengths and the larger length |
| Strings.LevSelf | procon_string/src/lib.rs:3-24 | a sequence is at distance 0 from itself |
| Strings.RecurrentLev | procon_string/src/lib.rs:5-22 | any table satisfying the recurrence holds the edit distances |
| Strings.Sweep | procon_string/src/lib.rs:9-20 | one cell of the sweep pushes its distance to its three successors |
| Strings.EditDistance | procon_string/src/lib.rs:3-24 | `edit_distance(s, t)` is the Levenshtein distance of `s` and `t` |
| Strings.LcpUnique | procon_string/src/lib.rs:26-44 | the longest common prefix is unique |
| Strings.Extend | procon_string/src/lib.rs:35-37 | the inner loop extends a common prefix until it is the longest |
| Strings.ZAlgorithm | procon_string/src/lib.rs:26-44 | every `z[i]` is the length of the longest common prefix of `s` and `s[i..]` |
| Strings.ZOfAbaba | procon_string/src/lib.rs:67-72 | the Z-array of "ababa" is `[5, 0, 3, 0, 1]` |
| Itertools.Scan | procon_itertools/src/lib.rs:28-34 | `accumulate` yields one value per item |
| Itertools.ScanIsPrefixFold | procon_itertools/src/lib.rs:28-34 | the k-th value is the fold of the first `k + 1` items |
| Itertools.AccumulateExample | procon_itertools/src/lib.rs:216-223 | running sums and products of 1..5 |
| Itertools.Accumulate.Next | procon_itertools/src/lib.rs:28-34 | applies `f` to the running value and the next item, and stores the result |
| Itertools.Accumulate.Collect | procon_itertools/src/lib.rs:22-35 | draining yields the scan of the remaining items |
| Itertools.IndicesExact | procon_itertools/src/lib.rs:67-71 | the selected indices increase strictly and are exactly those whose bit is set |
| Itertools.IndicesInjective | procon_itertools/src/lib.rs:62-77 | distinct masks below `2^n` select distinct index sets, so each subset is yielded once |
| Itertools.BitBrute.Next | procon_itertools/src/lib.rs:62-77 | while `mask < 2^n` yields the elements whose bits are set and advances the mask; then `None` |
| Itertools.RangeIsLeast | procon_itertools/src/lib.rs:85 | `0, 1, ..., r-1` is the lexicographically first combination |
| Itertools.CombinationSuccessorIsNext | procon_itertools/src/lib.rs:136-147 | the successor is the next combination in lexicographic order; none exists exactly at the last one |
| Itertools.AdvanceCombination | procon_itertools/src/lib.rs:136-147 | the two loops compute the successor |
| Itertools.Combinations.Next | procon_itertools/src/lib.rs:127-150 | `None` when `n < r`; the first call yields the first tuple; later calls yield the successor, or `None` after the last; `r == 0` underflows |
| Itertools.CombinationsExample | procon_itertools/src/lib.rs:258-265 | the pairs of three items in order |
| Itertools.ZerosIsLeast | procon_itertools/src/lib.rs:97 | `r` zeros is the lexicographically first multichoice |
| Itertools.MultichoiceSuccessorIsNext | procon_itertools/src/lib.rs:165-176 | the successor is the next non-decreasing tuple in lexicographic order |
| Itertools.AdvanceMultichoice | procon_itertools/src/lib.rs:165-176 | the loops compute that successor |
| Itertools.CombinationsWithReplacement.Next | procon_itertools/src/lib.rs:159-179 | the first tuple, then the successors, then `None`; an empty input or `r == 0` panics |
| Itertools.MultichoiceExample | procon_itertools/src/lib.rs:267-281 | the pairs with repetition from three items, in order |
| LexicalPermutation.ReverseFrom | procon_itertools/src/lib.rs:196 | `self[lo..].reverse()` reverses the suffix and keeps the prefix |
| LexicalPermutation.FindPivot | procon_itertools/src/lib.rs:190-191 | the first scan stops at the specified pivot |
| LexicalPermutation.FindTarget | procon_itertools/src/lib.rs:193-194 | the second scan stops at the specified swap target |
| LexicalPermutation.NextPermutation | procon_itertools/src/lib.rs:188-198 | `next_permutation` performs the specified step on the array |
| LexicalPermutation.PrevPermutation | procon_itertools/src/lib.rs:199-209 | `prev_permutation` performs the specified step in the reversed order |
| LexicalPermutation.StepPermutes | procon_itertools/src/lib.rs:188-209 | both steps keep the multiset of elements |
| LexicalPermutation.StepStops | procon_itertools/src/lib.rs:188-209 | a step reports false exactly at the last arrangement, and then changes nothing |
| LexicalPermutation.StepAdvances | procon_itertools/src/lib.rs:188-209 | a step that reports true yields a lexicographically later permutation |
| LexicalPermutation.StepIsLeast | procon_itertools/src/lib.rs:188-209 | no permutation lies strictly between the input and the step result |
| LexicalPermutation.StepLast | procon_itertools/src/lib.rs:188-209 | at the last arrangement no permutation comes after |
| LexicalPermutation.NextPermutationFirstStep | procon_itertools/src/lib.rs:283-308 | `[0, 5, 8, 10]` steps to `[0, 5, 10, 8]` |
| LexicalPermutation.NextPermutationSecondStep | procon_itertools/src/lib.rs:283-308 | `[0, 5, 10, 8]` steps to `[0, 8, 5, 10]` |
| LexicalPermutation.NextPermutationAtLast | procon_itertools/src/lib.rs:283-308 | `[10, 8, 5, 0]` has no successor |
| LexicalPermutation.PrevPermutationLastSwap | procon_itertools/src/lib.rs:310-337 | `[0, 5, 10, 8]` steps back to `[0, 5, 8, 10]` |
| LexicalPermutation.PrevPermutationCarry | procon_itertools/src/lib.rs:310-337 | `[5, 0, 8, 10]` steps back to `[0, 10, 8, 5]` |
| LexicalPermutation.PrevPermutationAtFirst | procon_itertools/src/lib.rs:310-337 | the sorted slice has no predecessor |
| CountedMultiset.Occurrences | procon_multiset/src/lib.rs:41-43 | `count(v)`: on a map without zero counts, positive exactly when `v` is stored |
| CountedMultiset.Inserted | procon_multiset/src/lib.rs:16-18 | one more copy of `v`; other counts unchanged; no zero counts |
| CountedMultiset.RemovedOne | procon_multiset/src/lib.rs:20-31 | one copy fewer (none if absent); other counts unchanged; a key reaching 0 is dropped |
| CountedMultiset.RemoveOneUndoesInsert | procon_multiset/src/lib.rs:16-31 | inserting then removing one copy restores the map |
| CountedMultiset.SortedKeys | procon_multiset/src/lib.rs:57-64 | the keys in strictly ascending order, as a `BTreeMap` visits them |
| CountedMultiset.EntriesCount | procon_multiset/src/lib.rs:57-64 | the traversal gives every element its stored count |
| CountedMultiset.RangeYields | procon_multiset/src/lib.rs:57-100 | a range iterator yields, in non-decreasing order, each element in range as often as it is counted, and nothing else |
| CountedMultiset.SortedUnique | procon_multiset/src/lib.rs:57-100 | two ascending sequences with the same elements are equal, so the yield is determined |
| CountedMultiset.BTreeMultiSet.constructor | procon_multiset/src/lib.rs:11-14 | the empty multiset |
| CountedMultiset.BTreeMultiSet.Insert | procon_multiset/src/lib.rs:16-18 | the map becomes `Inserted(ctr, v)` |
| CountedMultiset.BTreeMultiSet.RemoveOne | procon_multiset/src/lib.rs:20-31 | the map becomes `RemovedOne(ctr, v)`; reports whether `v` was present |
| CountedMultiset.BTreeMultiSet.RemoveAll | procon_multiset/src/lib.rs:33-35 | drops `v` and returns its former count |
| CountedMultiset.IsEmptyIff | procon_multiset/src/lib.rs:37-39 | `is_empty` holds exactly when every count is 0 |
| CountedMultiset.IsDisjointIff | procon_multiset/src/lib.rs:45-47 | `is_disjoint` holds exactly when no element occurs in both |
| CountedMultiset.IsSubsetIff | procon_multiset/src/lib.rs:49-51 | `is_subset` holds exactly when every count is at most the other's |
| CountedMultiset.IsSupersetIff | procon_multiset/src/lib.rs:53-55 | `is_superset` holds exactly when every count is at least the other's |
| CountedMultiset.BTreeMultiSet.Range | procon_multiset/src/lib.rs:57-64 | `None` (the panic of `BTreeMap::range`) exactly when the start key exceeds the end key, or equals it with both bounds exclusive; otherwise a fresh iterator whose pending elements are the sorted expansion of the entries within the bounds |
| CountedMultiset.BTreeMultiSet.Iter | procon_multiset/src/lib.rs:66-68 | `iter` is `range(..)` |
| CountedMultiset.BTreeMultiSet.FromIter | procon_multiset/src/lib.rs:123-134 | every element's count is its number of occurrences in the input |
| CountedMultiset.MultiSetIterator.Next | procon_multiset/src/lib.rs:85-99 | refills from the next entry when the count is 0, then yields the current item |
| CountedMultiset.NextYieldsPending | procon_multiset/src/lib.rs:85-99 | each call yields the first pending element, or `None` once nothing is pending |
| CountedMultiset.MultiSetIterator.Collect | procon_multiset/src/lib.rs:83-100 | draining yields exactly the pending elements |
| CountedMultiset.IteratesAsSorted | procon_multiset/src/lib.rs:57-100 | a multiset counting the elements of a vector iterates as that vector sorted: the only non-decreasing sequence with those elements |
| CountedMultiset.FromVecExample | procon_multiset/src/lib.rs:140-148 | the multiset built from `[0, 2, 1, 3, 1, 4, 2, 3, 4, 1]` iterates as its sorted copy |
| RollingHashing.From | procon_rollinghash/src/lib.rs:36-47 | the build loop fills the powers and prefix hashes of the specification, all reduced and inside `u128` |
| RollingHashing.PolyConcat | procon_rollinghash/src/lib.rs:41-44 | reading the digits of `a + b` is reading `a`, shifting by `\|b\|` places, then reading `b` |
| RollingHashing.WindowIsSubstringHash | procon_rollinghash/src/lib.rs:62 | the window formula yields the hash of the substring |
| RollingHashing.EqualSubstringsHashEqually | procon_rollinghash/src/lib.rs:62 | equal substrings hash equally wherever they sit |
| RollingHashing.EndAsWritten | procon_rollinghash/src/lib.rs:57-61 | as written, both an inclusive and an exclusive end are one short of the end of the range |
| RollingHashing.InclusiveEndDropsLast | procon_rollinghash/src/lib.rs:50-63 | as written, `hash(l..=r)` hashes `s[l..r)` and leaves out the byte at `r` |
| RollingHashing.InclusiveEndExample | procon_rollinghash/src/lib.rs:50-63 | on `[1, 2]`, `hash(0..=1)` as written is the hash of `[1]`; the corrected `hash` gives that of `[1, 2]` |
| RollingHashing.WholeHash | procon_rollinghash/src/lib.rs:50-63 | `hash(..)` is the hash of the whole string |
| RollingHashing.HashIsSubstringHash | procon_rollinghash/src/lib.rs:50-63 | corrected `hash(range)`: the hash of exactly the bytes the range names |
| RollingHashing.SearchWindowAgrees | procon_rollinghash/src/lib.rs:71 | the search window `i..=i+len` as written covers exactly `[i, i+len)` |
| RollingHashing.FindSubstring | procon_rollinghash/src/lib.rs:66-77 | the scan returns `Positions(Tests(..))`: the starts, in the order visited, whose window hash equals the pattern's hash |
| RollingHashing.PositionsTrue | procon_rollinghash/src/lib.rs:69-74 | every reported start is in range and passed the hash test |
| RollingHashing.PositionsComplete | procon_rollinghash/src/lib.rs:69-74 | every start that passed the hash test is reported |
| RollingHashing.PositionsAscending | procon_rollinghash/src/lib.rs:69-74 | the reported starts strictly ascend |
| RollingHashing.OccurrencePassesTest | procon_rollinghash/src/lib.rs:66-77 | every true occurrence passes the test and is reported |
| Graphs.EdgeOrderFacts | procon_graph/src/lib.rs:270-286 | the order is consistent with `==` and antisymmetric; neither looks at the target node |
| Graphs.EdgeOrderTransitive | procon_graph/src/lib.rs:275-286 | the order is transitive |
| Graphs.EdgeEqIgnoresTarget | procon_graph/src/lib.rs:270-274 | edges to different nodes with equal weights compare equal |
| Graphs.Appended | procon_graph/src/lib.rs:155-160 | appending `e` to list `i` extends that list and keeps every other list |
| Graphs.AddBothKeepsValid | procon_graph/src/lib.rs:155-160 | adding both halves of an undirected edge keeps the lists symmetric and every target in range |
| Graphs.AddDirectedKeepsMirror | procon_graph/src/lib.rs:219-224 | a directed edge and its reverse in `inv` keep `inv` the mirror of the forward lists |
| Graphs.NodeWeightOf | procon_graph/src/lib.rs:162-164 | the weight of node `i`, `None` past the end |
| Graphs.UndirectedGraph.constructor | procon_graph/src/lib.rs:131-135 | `size` default nodes, no edges |
| Graphs.UndirectedGraph.FromNodes | procon_graph/src/lib.rs:143-147 | the given nodes, no edges |
| Graphs.UndirectedGraph.AddEdge | procon_graph/src/lib.rs:155-160 | `to` joins `from`'s list, then `from` joins `to`'s list |
| Graphs.DirectedGraph.constructor | procon_graph/src/lib.rs:193-198 | `size` default nodes, no edges, no inverse edges |
| Graphs.DirectedGraph.FromNodes | procon_graph/src/lib.rs:206-211 | the given nodes, no edges |
| Graphs.DirectedGraph.AddEdge | procon_graph/src/lib.rs:219-224 | `to` joins `edges[from]` and `from` joins `inv[to]` |
| Graphs.Graph.Len | procon_graph/src/lib.rs:96-102 | the node count of the wrapped graph |
| Graphs.Graph.NodeWeight | procon_graph/src/lib.rs:80-86 | `None` exactly past the end; otherwise the weight of node `i` of the wrapped graph |
| Graphs.Graph.AddEdge | procon_graph/src/lib.rs:72-78 | the wrapped graph's `add_edge`: the node weights are kept; a directed graph gains `to` in `edges[from]` and `from` in `inv[to]`; an undirected one gains `to` in `from`'s list and then `from` in `to`'s list |
| Graphs.Graph.NewDirected | procon_graph/src/lib.rs:45-48 | a fresh directed graph of `size` nodes, each of the default weight, with empty forward and inverse lists |
| Graphs.Graph.NewUndirected | procon_graph/src/lib.rs:40-43 | a fresh undirected graph of `size` nodes, each of the default weight, with empty lists |
| Graphs.NodeWeightPastEnd | procon_graph/src/lib.rs:80-124 | one list per node, every edge inside the graph, and `node_weight(i)` is `None` exactly past the end |
| ShortestPath.Dijkstra.From | procon_shortest_path/src/lib.rs:15-26 | the adjacency of the graph, every distance `E::max()`, no back pointers |
| ShortestPath.PopMin | procon_shortest_path/src/lib.rs:38 | the heap pop removes one entry of least distance and keeps the rest |
| ShortestPath.WalkLowerBound | procon_shortest_path/src/lib.rs:33-48 | with every edge relaxed, no walk from the start is shorter than the distance of its end |
| ShortestPath.ChainIsShortest | procon_shortest_path/src/lib.rs:50-60 | the chain of back pointers is a walk from the start whose length is the distance, and no walk to that node is shorter |
| ShortestPath.ReachedHasChain | procon_shortest_path/src/lib.rs:50-60 | every node with a back pointer has a chain of back pointers from the start |
| ShortestPath.LowerStep | procon_shortest_path/src/lib.rs:41-45 | one lowering keeps the back-pointer tree, keeps the heap covering every unrelaxed edge, and lowers the total distance |
| ShortestPath.RelaxFrom | procon_shortest_path/src/lib.rs:40-46 | the inner loop relaxes every edge of `v` and keeps the invariants |
| ShortestPath.PopKeepsPending | procon_shortest_path/src/lib.rs:38-39 | a popped stale entry leaves nothing pending |
| ShortestPath.Settle | procon_shortest_path/src/lib.rs:34-47 | the main loop ends with every reached edge relaxed and a shortest-path tree of back pointers |
| ShortestPath.Dijkstra.Build | procon_shortest_path/src/lib.rs:33-48 | `build(start)` leaves every distance the shortest walk length, and the back pointers a shortest-path tree |
| ShortestPath.Dijkstra.Restore | procon_shortest_path/src/lib.rs:50-60 | empty without a back pointer; otherwise a chain of back pointers ending at the goal |
| ShortestPath.Reversed | procon_shortest_path/src/lib.rs:58 | `path.reverse()` |
| ShortestPath.FirstExample | procon_shortest_path/src/lib.rs:68-81 | the first test graph from 0: distances `[0, 1, 3, 4]` and back pointers `None, 0, 1, 2` |
| ShortestPath.FirstExampleRestore | procon_shortest_path/src/lib.rs:79 | the only back-pointer chain from 0 to 3 is `[0, 1, 2, 3]` |
| ShortestPath.FirstExampleRestoreTwo | procon_shortest_path/src/lib.rs:80 | the only back-pointer chain from 0 to 2 is `[0, 1, 2]` |
| ShortestPath.SecondExample | procon_shortest_path/src/lib.rs:83-96 | the second test graph from 1: distances `[3, 0, 2, max]`, and node 3 has no back pointer |
| Ntt.RevIncIsNext | procon_ntt/src/lib.rs:36-42 | adding one at the top bit of the reversed counter and carrying downwards gives the reversal of the next index |
| Ntt.NextReversed | procon_ntt/src/lib.rs:36-42 | the inner loop (`k = n >> 1`, `i ^= k` while `k > i`, halving `k`) turns `rev(j - 1)` into `rev(j)` |
| Ntt.RevIsReversedDigits | procon_ntt/src/lib.rs:33-47 | the index `bit_reverse` pairs with `j` is the number whose `L` binary digits are `j`'s in reverse order |
| Ntt.RevInvolution | procon_ntt/src/lib.rs:33-47 | reversing the digits twice gives the index back |
| Ntt.BitReversedTwice | procon_ntt/src/lib.rs:33-47 | the bit-reversal permutation is an involution and sends distinct indices to distinct indices |
| Ntt.SwapStep | procon_ntt/src/lib.rs:43-45 | swapping `v[i]` and `v[j]` when `i > j` (with `i = rev(j)`) extends the reversed prefix by one index |
| Ntt.BitReverse | procon_ntt/src/lib.rs:33-47 | the in-place loop leaves entry `x` of the buffer holding the old entry `rev(x)` |
| Ntt.StageZero | procon_ntt/src/lib.rs:56 | before the first level, the buffer of residues is its bit-reversed permutation |
| Ntt.PolyEvenOdd | procon_ntt/src/lib.rs:63-70 | `f(x) == f_even(x^2) + x f_odd(x^2)`, the split each butterfly level rests on |
| Ntt.Butterfly | procon_ntt/src/lib.rs:66-69 | with `r1^2 == r0` and `r1^s == -1`, `f[j+k] + f[j+k+i] w^k` and `f[j+k] - f[j+k+i] w^k` are the two evaluations of the next stage |
| Ntt.LevelResultUnique | procon_ntt/src/lib.rs:63-70 | the butterflies of one level determine every entry of its result |
| Ntt.RowButterfly | procon_ntt/src/lib.rs:65-70 | the loop over blocks for one `k` applies each butterfly once and keeps every entry a residue |
| Ntt.LevelRow | procon_ntt/src/lib.rs:64-70 | `wn = w^k`, then the butterflies of every block at offset `k` |
| Ntt.Level | procon_ntt/src/lib.rs:63-71 | one level of half-length `i` on the array: every butterfly of the level holds between the old and the new contents |
| Ntt.LevelStages | procon_ntt/src/lib.rs:58-72 | a level applied to the stage with block size `2^m` gives the stage with block size `2^(m+1)` |
| Ntt.StageLast | procon_ntt/src/lib.rs:58-72 | after the last level the buffer holds the evaluations of the input polynomial at `r^0, ..., r^(n-1)`, modulo `p` |
| Ntt.StageRoot | procon_ntt/src/lib.rs:57-62 | `pr.pow((p-1)/(2i))`, or its inverse `1 / w`, is a residue in `[0, p)` |
| Ntt.ForwardFamily | procon_ntt/src/lib.rs:59 | for an NTT-friendly prime, each level's root squared is the previous level's root, and its `i`-th power is `-1` |
| Ntt.InverseFamily | procon_ntt/src/lib.rs:60-62 | the inverted roots `1 / w` form the same family |
| Ntt.DivideAll | procon_ntt/src/lib.rs:73-75 | every entry becomes `v / n` modulo `p` |
| Ntt.Dft | procon_ntt/src/lib.rs:54-76 | entries stay residues; for an NTT-friendly prime the forward `dft` is the evaluation at the powers of `w = g^((p-1)/n)`, and the inverse one is the evaluation at the powers of `1/w` divided by `n` |
| NttInverse.GeoRoot | procon_ntt/src/lib.rs:54-76 | `sum_{x<n} (r^e)^x == 0 (mod p)` for `0 < e < n` when `r^(n/2) == -1`, the cancellation the inverse transform rests on |
| NttInverse.RootOfUnity | procon_ntt/src/lib.rs:59 | the root of the last level has order `n`: `w^n == 1` and `w^(n/2) == -1` |
| NttInverse.TransformTwiceAsDual | procon_ntt/src/lib.rs:54-76 | transforming twice gives, at `y`, the sum of `a[x] (w w'^y)^x` over `x` |
| NttInverse.RoundTripAt | procon_ntt/src/lib.rs:54-76 | entry `y` after the forward and the inverse evaluation is `n a[y] mod p` |
| NttInverse.InverseTransformRoundTrip | procon_ntt/src/lib.rs:54-76 | `dft(dft(a, false), true) == a` on residues, for an NTT-friendly prime |
| NttMultiply.ConvBeyondDegree | procon_ntt/src/lib.rs:79 | coefficients of the product past `len f + len g - 2` vanish, so `m = len f + len g + 1` entries hold all of it |
| NttMultiply.PolyConv | procon_ntt/src/lib.rs:78-98 | the convolution's polynomial is the product of the two polynomials |
| NttMultiply.NextPowerOfTwoExponent | procon_ntt/src/lib.rs:80 | the least `k` with `m <= 2^k` |
| NttMultiply.NextPowerOfTwo | procon_ntt/src/lib.rs:80 | `m.next_power_of_two()` is `2^k` for that least `k` |
| NttMultiply.LoadPadded | procon_ntt/src/lib.rs:82-89 | the zero buffer of length `n` holds `f` followed by zeros |
| NttMultiply.MultiplyPointwise | procon_ntt/src/lib.rs:92-94 | `ff[i] *= gg[i]` for every `i` |
| NttMultiply.PointwiseTransform | procon_ntt/src/lib.rs:90-94 | the pointwise product of the transforms is the transform of the product modulo `p` |
| NttMultiply.ConvolutionTheorem | procon_ntt/src/lib.rs:90-95 | transforming back the pointwise product of the transforms gives the product modulo `p` |
| NttMultiply.TransformProduct | procon_ntt/src/lib.rs:90-95 | the three `dft` calls and the pointwise product leave in `ff` the inverse transform of the pointwise product |
| NttMultiply.Multiply | procon_ntt/src/lib.rs:78-98 | `multiply(f, g)` has `len f + len g + 1` residues and, for an NTT-friendly prime, entry `k` is the convolution `sum_{i+j=k} f_i g_j mod p` |
| NttMultiply.ProductExample | procon_ntt/src/lib.rs:143-148 | the product of `[0,1,2,3,4]` and `[0,1,2,4,8]` modulo 998244353 is `[0,0,1,4,11,26,36,40,32,0,0]` |
| NttMultiply.Reduced | procon_ntt/src/lib.rs:122-131 | `StaticModInt::new` on every entry: residues congruent to the inputs |
| NttMultiply.MulValues | procon_ntt/src/lib.rs:121-133 | `f * g` on arbitrary integers: `len f + len g + 1` residues, entry `k` the convolution of the inputs modulo `p` |
| FpsSeries.Mult | procon_fps/src/lib.rs:227-232 | the exact product of two coefficient lists has `len a + len b` entries |
| FpsSeries.CoefMult | procon_fps/src/lib.rs:227-232 | coefficient `k` of the exact product is the convolution `sum_{i+j=k} a_i b_j` |
| FpsSeries.PolyMult | procon_fps/src/lib.rs:227-232 | the exact product's polynomial is the product of the polynomials |
| FpsSeries.ValuesDetermineCoefficients | procon_fps/src/lib.rs:227-232 | two coefficient lists with the same polynomial at every integer agree coefficient by coefficient |
| FpsSeries.ConvAssociate | procon_fps/src/lib.rs:75-78 | the series product is associative |
| FpsSeries.ProductsAgree | procon_fps/src/lib.rs:75-78 | series agreeing below `d` modulo `p` have products agreeing below `d` |
| FpsSeries.NewtonDoubles | procon_fps/src/lib.rs:73-79 | if `v f == 1 mod x^i`, then the Newton step `2v - v^2 f` satisfies `v' f == 1 mod x^(2i)` |
| FpsSeries.InverseRound | procon_fps/src/lib.rs:75-78 | one round `(v + v - v*v*f.head(2i)).head(2i)` doubles the precision of the inverse |
| FpsSeries.Trimmed | procon_fps/src/lib.rs:309-313 | `cut` drops exactly the trailing zeros: the result is a prefix, ends in a non-zero or is empty, and only zeros were dropped |
| FpsSeries.TrimmedCoef | procon_fps/src/lib.rs:309-313 | `cut` keeps every coefficient of the series |
| FpsSeries.Head | procon_fps/src/lib.rs:321-326 | `head(n)` is the prefix of length `min(n, len)`, so coefficient `k` is kept exactly when `k < n` |
| FpsSeries.ReversedTwice | procon_fps/src/lib.rs:315-319 | `reversed` is an involution |
| FpsSeries.ConvReversed | procon_fps/src/lib.rs:253-255 | the product of the reversed series is the reversed product |
| FpsSeries.Derivative | procon_fps/src/lib.rs:47-54 | `differential` has `len - 1` coefficients, coefficient `i` being `(i+1) f_{i+1} mod p` |
| FpsSeries.Antiderivative | procon_fps/src/lib.rs:56-63 | `integral` has `len + 1` coefficients, starting with 0, and stays in residues |
| FpsSeries.DerivativeOfIntegral | procon_fps/src/lib.rs:47-63 | `differential(integral(f)) == f` for residues with `len f < p` |
| FpsSeries.IntegralOfDerivative | procon_fps/src/lib.rs:47-63 | `integral(differential(f))` is `f` with its constant term replaced by 0, for `1 <= len f <= p` |
| FpsSeries.LogDerivative | procon_fps/src/lib.rs:88-93 | the integral of `f' * inverse(f)`, cut to `d`, has derivative `f' / f` below `d - 1` |
| FpsSeries.QuotientTop | procon_fps/src/lib.rs:252-255 | the reversed head of `rev(f) * inverse(rev(v))` matches `f` on the coefficients `len v - 1 .. len f` when multiplied by `v` |
| Fps.CombineCoef | procon_fps/src/lib.rs:186-217 | adding or subtracting coefficientwise, after resizing to the longer length, gives residues equal to `a_k +/- b_k mod p` |
| Fps.ScalarDivisionMultiplies | procon_fps/src/lib.rs:234-241 | dividing by `inv = 1 / v` multiplies by `v` |
| Fps.ScalarDivisionRoundTrip | procon_fps/src/lib.rs:234-241 | multiplying by `1 / v` and then by `v` gives the coefficient back |
| Fps.ScalarDivisionExample | procon_fps/src/lib.rs:234-241 | `/ 2` as written turns the coefficient 1 into 2, where 1/2 is meant |
| Fps.NegationAsWritten | procon_fps/src/lib.rs:167-175 | `*v *= -1` on a residue `a` leaves `-a`, which is congruent to the negation but not reduced |
| Fps.FirstNonZero | procon_fps/src/lib.rs:118-122 | the index of the first non-zero coefficient, or the length when there is none |
| Fps.InverseStart | procon_fps/src/lib.rs:72 | `[1 / f_0]` is an inverse of `f` modulo `x` |
| Fps.InverseRoundExact | procon_fps/src/lib.rs:75-78 | one round with exact products doubles the precision of the inverse |
| Fps.LogWithCore | procon_fps/src/lib.rs:88-93 | with an inverse modulo `x^d`, the integral of the product, cut to `d`, is a logarithm of `f` below `d` |
| Fps.QuotientExact | procon_fps/src/lib.rs:252-255 | the quotient computed through the reversed series matches `f` on the top coefficients when multiplied by `v` |
| Fps.RemainderProof | procon_fps/src/lib.rs:260-267 | `f - (f / v) * v` is shorter than `v` and congruent to `f` minus a multiple of `v` |
| Fps.FormalPowerSeries.constructor | procon_fps/src/lib.rs:23-27 | `From<Vec>`: the given coefficients |
| Fps.FormalPowerSeries.New | procon_fps/src/lib.rs:30-33 | `size` zero coefficients |
| Fps.FormalPowerSeries.FromVec | procon_fps/src/lib.rs:35-41 | each coefficient is the Euclidean residue of the given integer |
| Fps.FormalPowerSeries.Cut | procon_fps/src/lib.rs:309-313 | the coefficients become their trimmed form |
| Fps.FormalPowerSeries.AddScalar | procon_fps/src/lib.rs:177-184 | an empty series grows to one coefficient; coefficient 0 gains `v`, the others are unchanged |
| Fps.FormalPowerSeries.SubScalar | procon_fps/src/lib.rs:198-205 | an empty series grows to one coefficient; coefficient 0 loses `v`, the others are unchanged |
| Fps.FormalPowerSeries.CombineWith | procon_fps/src/lib.rs:186-217 | the shorter side is resized with zeros and the other is added or subtracted coefficientwise |
| Fps.FormalPowerSeries.AddAssign | procon_fps/src/lib.rs:186-196 | the trimmed coefficientwise sum, coefficient `k` being `a_k + b_k mod p` |
| Fps.FormalPowerSeries.SubAssign | procon_fps/src/lib.rs:207-217 | the trimmed coefficientwise difference, coefficient `k` being `a_k - b_k mod p` |
| Fps.FormalPowerSeries.MulScalar | procon_fps/src/lib.rs:219-225 | every coefficient is multiplied by `v` modulo `p` |
| Fps.FormalPowerSeries.MulAssign | procon_fps/src/lib.rs:227-232 | the coefficients become `multiply(self, v)`: `len + len v + 1` residues, the product modulo `p` for an NTT-friendly prime |
| Fps.FormalPowerSeries.DivScalar | procon_fps/src/lib.rs:234-241 | `/= v` as written: each coefficient is divided by `1 / v`, that is multiplied by `v` |
| Fps.FormalPowerSeries.DivScalarCorrected | procon_fps/src/lib.rs:234-241 | corrected `/= v`: each coefficient is multiplied by `1 / v`, so multiplying by `v` gives it back |
| Fps.FormalPowerSeries.Negate | procon_fps/src/lib.rs:167-175 | `neg`: each coefficient becomes `a * (-1)` as `ModInt` computes it; on residues each is congruent to `-a` |
| Fps.FormalPowerSeries.ShlAssign | procon_fps/src/lib.rs:269-275 | `n` zeros are put in front: coefficient `k + n` is the old coefficient `k` |
| Fps.FormalPowerSeries.ShrAssign | procon_fps/src/lib.rs:277-281 | the first `n` coefficients are dropped: coefficient `k` is the old coefficient `k + n` |
| Fps.FormalPowerSeries.ShiftRoundTrip | procon_fps/src/lib.rs:269-281 | `(f << n) >> n == f` |
| Fps.FormalPowerSeries.Differential | procon_fps/src/lib.rs:47-54 | the loop `f[i - 1] = self[i] * i` computes the derivative |
| Fps.FormalPowerSeries.Integral | procon_fps/src/lib.rs:56-63 | the loop `f[i + 1] = self[i] / (i + 1)` computes the antiderivative |
| Fps.FormalPowerSeries.InverseStep | procon_fps/src/lib.rs:75-78 | one round of `inverse_with`: if `v f == 1 mod x^i` then the new `v` satisfies `v f == 1 mod x^(2i)` |
| Fps.FormalPowerSeries.InverseWith | procon_fps/src/lib.rs:65-82 | `degree` residues (the length when `degree < 0`) whose product with `f` is `1 mod x^degree` |
| Fps.FormalPowerSeries.Inverse | procon_fps/src/lib.rs:84-86 | `len` residues whose product with `f` is `1 mod x^len` |
| Fps.FormalPowerSeries.LogWith | procon_fps/src/lib.rs:88-93 | `degree` residues starting with 0 whose derivative times `f` is `f'` below `degree - 1` |
| Fps.FormalPowerSeries.LogFromParts | procon_fps/src/lib.rs:90-92 | `(differential * inverse_with(degree)).integral()`, resized: a logarithm of `f` below `degree` |
| Fps.FormalPowerSeries.IntegralOfProduct | procon_fps/src/lib.rs:90-92 | the integral of `multiply(a, b)`, resized to `degree`, starting with 0 |
| Fps.FormalPowerSeries.Log | procon_fps/src/lib.rs:95-97 | `log_with(len)`: a logarithm of `f` below `len`, starting with 0 |
| Fps.FormalPowerSeries.ExpStep | procon_fps/src/lib.rs:106 | one round of `exp_with`, `v * (f.head(2i) - v.log_with(2i) + 1).head(2i)`: keeps the residues and the constant term 1, and doubles the precision, turning an exponential of `f` below `i` into one below `2i` |
| Fps.FormalPowerSeries.ExpWith | procon_fps/src/lib.rs:99-111 | `degree` residues; for an NTT-friendly prime, starting with 1 and with logarithm `f` below `degree`: the exponential of `f` |
| Fps.FormalPowerSeries.Exp | procon_fps/src/lib.rs:113-115 | `exp_with(len)`: `len` residues; for an NTT-friendly prime, the exponential of `f` below `len` |
| Fps.FormalPowerSeries.PowWith | procon_fps/src/lib.rs:117-134 | zero series when there is no non-zero term or `i * power >= degree`; otherwise `None` (the panic of `log_with`) exactly when `k^2 != 1` for the lowest term `k x^i`; a result has `degree` residues and zeros below `i * power`, and is `f^power` below `degree` in the zero case and, for an NTT-friendly prime, in every case |
| Fps.FormalPowerSeries.PowFromLowest | procon_fps/src/lib.rs:126-133 | the branch after the lowest term is found: `None` exactly when `k^2 != 1`; otherwise zeros below `i * power` and, for an NTT-friendly prime, `f^power` below `degree` |
| Fps.FormalPowerSeries.PowTail | procon_fps/src/lib.rs:128-132 | `((log * n).exp * c) << shift`, resized: zeros below `shift`, and from `shift` on `c` times the coefficients of `t^power` for an NTT-friendly prime |
| Fps.FormalPowerSeries.PowExponential | procon_fps/src/lib.rs:128-129 | `(log_with(degree) * n).exp_with(degree)` for `t` starting with 1: `degree` residues agreeing with `t^power` below `degree` for an NTT-friendly prime |
| Fps.FormalPowerSeries.Pow | procon_fps/src/lib.rs:136-138 | `pow_with(n, len)`: the zero series, or `None` exactly when `k^2 != 1`, and otherwise `f^n` below `len` for an NTT-friendly prime |
| FpsExp.Deriv | procon_fps/src/lib.rs:47-54 | the exact derivative has one coefficient fewer than a non-empty series |
| FpsExp.DerivCoef | procon_fps/src/lib.rs:47-54 | coefficient `k` of the exact derivative is `(k + 1) f_(k+1)` |
| FpsExp.ProductRule | procon_fps/src/lib.rs:99-111 | `(A B)' == A' B + A B'`, coefficient by coefficient |
| FpsExp.DerivativeAgrees | procon_fps/src/lib.rs:47-54 | `differential` agrees with the exact derivative modulo `p` |
| FpsExp.LogarithmIsExact | procon_fps/src/lib.rs:88-93 | `r' f == f'` below `d - 1` holds with `differential` exactly when it holds with the exact derivative |
| FpsExp.CancelUnitFactor | procon_fps/src/lib.rs:99-111 | a series whose product with a series starting with 1 vanishes below `m` vanishes below `m` |
| FpsExp.LogOfExp | procon_fps/src/lib.rs:104-108 | two logarithms of one series starting with 1, with the same constant term, agree |
| FpsExp.ExpRound | procon_fps/src/lib.rs:106 | Newton's step: if `v` has logarithm `f` below `i` and `L` is a logarithm of `v` below `2i`, then `v (f - L + 1)` has logarithm `f` below `2i` |
| FpsExp.ExpPad | procon_fps/src/lib.rs:110 | resizing an exponential to `d <= i` keeps it an exponential below `d` |
| FpsExp.ExpUnique | procon_fps/src/lib.rs:99-111 | two series with logarithm `f` below `d <= p` and the same constant term agree below `d`: the exponential is unique |
| FpsExp.ExpLogTestVector | procon_fps/src/lib.rs:346-358 | `[0, 1, 2, 3, 4]` is a logarithm of `[1, 1, 499122179, 166374064, 291154613]` modulo 998244353 below 5, the pair both tests use |
| FpsPow.SeriesPow | procon_fps/src/lib.rs:117-134 | `A^n` as repeated products, never empty |
| FpsPow.SeriesPowConstant | procon_fps/src/lib.rs:131 | the constant term of `A^n` is `A_0^n` |
| FpsPow.PowerOfShifted | procon_fps/src/lib.rs:127-132 | `(x^s A)^n == x^(s n) A^n` |
| FpsPow.PowerOfScaled | procon_fps/src/lib.rs:127-131 | `(c A)^n == c^n A^n` |
| FpsPow.PowersAgree | procon_fps/src/lib.rs:127-132 | series that agree below `d` have powers that agree below `d` |
| FpsPow.LogOfProduct | procon_fps/src/lib.rs:128-129 | the sum of logarithms of `A` and `B` is a logarithm of `A B` |
| FpsPow.LogOfPower | procon_fps/src/lib.rs:128-129 | `n` times a logarithm of `t` is a logarithm of `t^n` |
| FpsPow.LogCongruent | procon_fps/src/lib.rs:128 | a series agreeing with a logarithm below `d` is a logarithm below `d` |
| Fps.ExpStart | procon_fps/src/lib.rs:101-102 | `[1]` is an exponential of any `f` below 1 |
| Fps.ExpStepProof | procon_fps/src/lib.rs:106 | the round's product starts with 1 and doubles the precision of the exponential |
| Fps.ExpFinish | procon_fps/src/lib.rs:110 | the final resize keeps the constant term 1 and the exponential below `degree` |
| Fps.LogOfPowerScaled | procon_fps/src/lib.rs:128 | `log_with(degree) * n`, with `n == power mod p`, is a logarithm of `t^power` |
| Fps.PowTailExp | procon_fps/src/lib.rs:128-129 | the exponential of `n log t` agrees with `t^power` below `d <= p` |
| Fps.PowOfLowDegree | procon_fps/src/lib.rs:123-125 | the zero series is `f^power` below `degree` when `f` is zero below `i` and `i * power >= degree` (or `f` is zero and `power > 0`) |
| Fps.ScaledBack | procon_fps/src/lib.rs:127 | when `k^2 == 1`, scaling the multiplied-by-`k` tail by `k` gives it back |
| Fps.PowOfScaledTail | procon_fps/src/lib.rs:127-131 | when `k^2 == 1`, `(f >> i)^power == k^power (k (f >> i))^power` modulo `p` |
| Fps.PowFromLowestProof | procon_fps/src/lib.rs:126-133 | `k^power t^power` shifted by `i * power`, with zeros below, is `f^power` below `degree` |
| Fps.FormalPowerSeries.Plus | procon_fps/src/lib.rs:297 | `a + b`: trimmed residues, coefficient `k` being `a_k + b_k mod p` |
| Fps.FormalPowerSeries.PlusScalar | procon_fps/src/lib.rs:296 | `a + v`: coefficient 0 gains `v`, the others are kept |
| Fps.FormalPowerSeries.Minus | procon_fps/src/lib.rs:299 | `a - b`: trimmed residues, coefficient `k` being `a_k - b_k mod p` |
| Fps.FormalPowerSeries.TimesScalar | procon_fps/src/lib.rs:300 | `a * v`: every coefficient multiplied by `v` |
| Fps.FormalPowerSeries.Times | procon_fps/src/lib.rs:301 | `a * b`: `multiply(a, b)` |
| Fps.FormalPowerSeries.QuotientScalar | procon_fps/src/lib.rs:302 | `a / v` as written: every coefficient divided by `1 / v` |
| Fps.FormalPowerSeries.ShiftLeft | procon_fps/src/lib.rs:305 | `a << n`: `n` zeros, then `a` |
| Fps.FormalPowerSeries.ShiftRight | procon_fps/src/lib.rs:306 | `a >> n`: `a` without its first `n` coefficients |
| Fps.FormalPowerSeries.DivAssign | procon_fps/src/lib.rs:243-258 | `/= v` for a series: empty when the cut series is shorter than `v`; otherwise `len f - len v + 1` residues `q` with `q v` matching `f` on the top coefficients |
| Fps.FormalPowerSeries.Quotient | procon_fps/src/lib.rs:303 | `a / b`: the series quotient, as `DivAssign` states |
| Fps.FormalPowerSeries.RemAssign | procon_fps/src/lib.rs:260-267 | `%= v`: residues shorter than `v`, congruent to `f - q v` for the quotient `q` |
| LazyMaps.MaxExt | procon_lazy_segtree/src/lib.rs:325 | `Maximum::op` returns one of its arguments |
| LazyMaps.MinExt | procon_lazy_segtree/src/lib.rs:346 | `Minimum::op` returns one of its arguments |
| LazyMaps.AddExt | procon_lazy_segtree/src/lib.rs:332-334 | `f + x` adds `f` to a finite value and keeps an infinite one |
| LazyMaps.MaxAdd | procon_lazy_segtree/src/lib.rs:320-339 | range add over range maximum: identity `min()`, `map_id` 0 |
| LazyMaps.MinAdd | procon_lazy_segtree/src/lib.rs:341-360 | range add over range minimum: identity `max()`, `map_id` 0 |
| LazyMaps.MaxAddLawful | procon_lazy_segtree/src/lib.rs:320-339 | `MaxAdd` is a monoid with maps that distribute over `op`, compose by `+`, and have `0` as identity |
| LazyMaps.MinAddLawful | procon_lazy_segtree/src/lib.rs:341-360 | the same laws for `MinAdd` |
| LazyState.PushAt | procon_lazy_segtree/src/lib.rs:227-231 | `push` on the two vectors keeps their lengths |
| LazyState.ApplyNode | procon_lazy_segtree/src/lib.rs:233-238 | `apply` on the two vectors keeps their lengths |
| LazyState.UpdateAt | procon_lazy_segtree/src/lib.rs:240-242 | `update` keeps the length of `data` |
| LazyState.PushElements | procon_lazy_segtree/src/lib.rs:227-231 | `push` does not change any element |
| LazyState.PushConsistent | procon_lazy_segtree/src/lib.rs:227-231 | `push` keeps the node invariant |
| LazyState.PushClears | procon_lazy_segtree/src/lib.rs:227-231 | after `push(k)` below clean ancestors, nothing is pending at `k` or above it |
| LazyState.ApplyElements | procon_lazy_segtree/src/lib.rs:233-238 | `apply(x, f)` below clean ancestors maps by `f` exactly the elements under `x` |
| LazyState.UpdateElements | procon_lazy_segtree/src/lib.rs:240-242 | `update` does not change any element |
| LazyState.WriteLeaf | procon_lazy_segtree/src/lib.rs:85 | writing leaf `k` below clean ancestors changes exactly element `k - size`, and breaks the node invariant only at `k`'s parent |
| LazyState.NodeValues | procon_lazy_segtree/src/lib.rs:259-273 | every node with no map pending above it holds the product of its leaves' elements |
| LazyState.BoundariesClean | procon_lazy_segtree/src/lib.rs:251-258 | after the boundary pushes, every node the query loop reads has no map pending above it |
| LazyRange.MapRange | procon_lazy_segtree/src/lib.rs:276-317 | the elements in `[lo, hi)` are mapped by `f` and the others kept |
| LazyRange.FoldMapped | procon_lazy_segtree/src/lib.rs:233-234 | mapping every element by `f` maps their product by `f` |
| LazyRange.MapRangeFold | procon_lazy_segtree/src/lib.rs:120-136 | the product of a mapped sub-range is the mapped product |
| LazyRange.MapRangeCompose | procon_lazy_segtree/src/lib.rs:236 | two range applications of `f` then `g` are one of `composite(g, f)` |
| LazyRange.StartRange | procon_lazy_segtree/src/lib.rs:283-290 | after the boundary pushes the range loop starts with nothing mapped and the invariant holding |
| LazyRange.ApplyLeftStep | procon_lazy_segtree/src/lib.rs:295-298 | `apply(l, f)` at an odd `l` maps the leaves under `l` and keeps the loop invariant |
| LazyRange.ApplyRightStep | procon_lazy_segtree/src/lib.rs:299-302 | `r -= 1; apply(r, f)` at an odd `r` maps the leaves under `r - 1` and keeps the loop invariant |
| LazyRange.WindowsMeet | procon_lazy_segtree/src/lib.rs:294-305 | when the two bounds meet, every element of `[l, r)` has been mapped exactly once |
| LazyRange.UpdateLeftStep | procon_lazy_segtree/src/lib.rs:310-312 | `update(l >> i)` where `l` is unaligned restores the node invariant at that node and changes no element |
| LazyRange.UpdateRightStep | procon_lazy_segtree/src/lib.rs:313-315 | `update((r - 1) >> i)` where `r` is unaligned restores the node invariant at that node and changes no element |
| LazySearch.LowBitPower | procon_lazy_segtree/src/lib.rs:180-181 | `l & -l == l` holds for a power of two |
| LazySearch.LowBitBetween | procon_lazy_segtree/src/lib.rs:180-181 | `l & -l != l` strictly between two powers of two |
| LazySearch.NodeFold | procon_lazy_segtree/src/lib.rs:165 | a node with clean ancestors holds the product of the elements under it |
| LazySearch.ChildFold | procon_lazy_segtree/src/lib.rs:169 | after `push(l)`, each child of `l` holds the product of the elements under it |
| LazySearch.MaxRightIsMax | procon_lazy_segtree/src/lib.rs:147-184 | for a monotone `g` with `g(id)`, the answer is the largest `r <= n` with `g` holding on `[l, r)` |
| LazySearch.MinLeftIsMin | procon_lazy_segtree/src/lib.rs:186-223 | for a monotone `g` with `g(id)`, the corrected answer is the least `l` with `g` holding on `[l, r)` |
| LazySearch.MinLeftAllHold | procon_lazy_segtree/src/lib.rs:218-222 | when `g` always holds and `1 <= r <= n`, the intended answer is 0 and not `n` |
| LazySearch.RightWalkStep | procon_lazy_segtree/src/lib.rs:165-182 | one round of the walk: stop at the node where `g` fails, stop at the right end with `g` holding on everything, or fold the node in and move right |
| LazySearch.RightWalkEnd | procon_lazy_segtree/src/lib.rs:179-183 | when `l & -l == l` after `l += 1`, the walk has folded every element from `l0` on |
| LazySearch.RightDescentLeaf | procon_lazy_segtree/src/lib.rs:175 | the descent ends at the leaf where `g` first fails |
| LazySearch.RightChildStep | procon_lazy_segtree/src/lib.rs:168-173 | `l *= 2`, then `l += 1` folding the left child in when `g` still holds: the failure stays under `l` |
| LazySearch.LeftWalkStep | procon_lazy_segtree/src/lib.rs:205-217 | one round of the corrected walk: stop at the node where `g` fails, stop at the left end, or fold the node in and move left |
| LazySearch.LeftWalkEnd | procon_lazy_segtree/src/lib.rs:218-221 | when `r & -r == r`, the walk has folded every element before `r0` |
| LazySearch.LeftDescentLeaf | procon_lazy_segtree/src/lib.rs:215 | the descent ends one past the leaf where `g` first fails |
| LazySearch.LeftChildStep | procon_lazy_segtree/src/lib.rs:207-213 | `r = 2r + 1`, then `r -= 1` folding the right child in when `g` still holds: the failure stays under `r` |
| LazySegTree.NextPowerExponent | procon_lazy_segtree/src/lib.rs:40 | the least `e` with `n <= 2^e`, as `next_power_of_two` |
| LazySegTree.LazySegTree.From | procon_lazy_segtree/src/lib.rs:36-65 | `size` the least power of two holding `v`, the elements `v` padded with `id`, and the node invariant holding |
| LazySegTree.LazySegTree.New | procon_lazy_segtree/src/lib.rs:68-70 | `n` elements, all `id` |
| LazySegTree.LazySegTree.Push | procon_lazy_segtree/src/lib.rs:227-231 | the map at `k` is applied to both children and reset to `map_id` |
| LazySegTree.LazySegTree.Apply | procon_lazy_segtree/src/lib.rs:233-238 | node `k` is mapped by `f`, and an inner node's pending map becomes `composite(f, lazy[k])` |
| LazySegTree.LazySegTree.Update | procon_lazy_segtree/src/lib.rs:240-242 | node `k` becomes `op` of its children |
| LazySegTree.LazySegTree.PushAncestors | procon_lazy_segtree/src/lib.rs:74-76 | the pushes from the root down leave nothing pending above the leaf and change no element |
| LazySegTree.LazySegTree.UpdateAncestors | procon_lazy_segtree/src/lib.rs:86-88 | the updates from the leaf up restore the node invariant and change no element |
| LazySegTree.LazySegTree.Get | procon_lazy_segtree/src/lib.rs:72-78 | the element at `idx`, with the elements unchanged |
| LazySegTree.LazySegTree.Store | procon_lazy_segtree/src/lib.rs:85-88 | writing the leaf and updating its ancestors changes exactly that element |
| LazySegTree.LazySegTree.Set | procon_lazy_segtree/src/lib.rs:80-89 | the element at `idx` becomes `v` and no other element changes |
| LazySegTree.LazySegTree.ApplyAt | procon_lazy_segtree/src/lib.rs:109-118 | the element at `idx` is mapped by `f` and no other element changes |
| LazySegTree.LazySegTree.PushBoundaries | procon_lazy_segtree/src/lib.rs:251-258 | each unaligned boundary ancestor is pushed, top down; no element changes |
| LazySegTree.LazySegTree.PushPending | procon_lazy_segtree/src/lib.rs:252-257 | one boundary push leaves that node clean and keeps the ones already cleaned |
| LazySegTree.FoldNodes | procon_lazy_segtree/src/lib.rs:259-273 | the two-accumulator loop returns the product of the leaves `[L, R)` |
| LazySegTree.LazySegTree.FoldBetween | procon_lazy_segtree/src/lib.rs:259-273 | the loop over the tree's nodes returns the product of the elements `[l, r)` |
| LazySegTree.LazySegTree.QueryInner | procon_lazy_segtree/src/lib.rs:244-274 | for every `l <= r`: up to `r == size` the product of the elements `[l, r)`, with the elements unchanged and the node invariant kept; past `size`, the value and state the loops leave as written, or `None` where they index past the vectors |
| LazySegTree.LazySegTree.Query | procon_lazy_segtree/src/lib.rs:91-107 | `query_inner` on the range, whose missing end is `size`: the product of its elements when it ends by `size`, the as-written outcome past it |
| LazySegTree.LazySegTree.QueryChecked | procon_lazy_segtree/src/lib.rs:91-107 | `query` with the missing bound check: `None`, the tree unchanged, exactly when the range ends past `size`; otherwise the product of its elements |
| LazySegTree.LazySegTree.ApplyBetween | procon_lazy_segtree/src/lib.rs:291-308 | the loop applies `f` to the nodes covering `[l, r)`, which maps exactly those elements |
| LazySegTree.LazySegTree.ApplyLevel | procon_lazy_segtree/src/lib.rs:294-305 | one round of that loop keeps its invariant and halves the bounds |
| LazySegTree.LazySegTree.ApplyLeft | procon_lazy_segtree/src/lib.rs:295-298 | the left half of a round: `apply(l, f)` and `l += 1` when `l` is odd |
| LazySegTree.LazySegTree.ApplyRight | procon_lazy_segtree/src/lib.rs:299-302 | the right half of a round: `r -= 1` and `apply(r, f)` when `r` is odd |
| LazySegTree.LazySegTree.UpdateBoundaries | procon_lazy_segtree/src/lib.rs:309-316 | the bottom-up updates of the boundary ancestors restore the node invariant, with no element changed |
| LazySegTree.LazySegTree.ApplyRangeInner | procon_lazy_segtree/src/lib.rs:276-317 | for every `l <= r`: up to `r == size` every element of `[l, r)` is mapped by `f`, no other changes and the node invariant is kept; past `size`, the state the loops leave as written, or `false` where they index past the vectors |
| LazySegTree.LazySegTree.ApplyRange | procon_lazy_segtree/src/lib.rs:120-136 | `apply_range_inner` on the range, whose missing end is `size`: every element in it mapped by `f` when it ends by `size`, the as-written outcome past it |
| LazySegTree.LazySegTree.ApplyRangeChecked | procon_lazy_segtree/src/lib.rs:120-136 | `apply_range` with the missing bound check: refused, the tree unchanged, exactly when the range ends past `size`; otherwise every element in it mapped by `f` |
| LazySegTree.LazySegTree.MaxRight | procon_lazy_segtree/src/lib.rs:147-184 | `n` when `l == n`; otherwise the first `r` where `g` fails on `[l, r + 1)`, or `n` when `g` holds on every element from `l` on; the elements are unchanged |
| LazySegTree.LazySegTree.MaxRightWalk | procon_lazy_segtree/src/lib.rs:160-182 | the do-while loop either finds the node where `g` first fails or shows that `g` holds on everything from `l` |
| LazySegTree.LazySegTree.MaxRightNode | procon_lazy_segtree/src/lib.rs:165 | each node the walk reads holds the product of its elements |
| LazySegTree.LazySegTree.PushClean | procon_lazy_segtree/src/lib.rs:167 | `push(l)` below clean ancestors leaves `l` clean and the elements unchanged |
| LazySegTree.LazySegTree.MaxRightDescend | procon_lazy_segtree/src/lib.rs:166-175 | the descent returns the leaf where `g` first fails |
| LazySegTree.LazySegTree.MaxRightChild | procon_lazy_segtree/src/lib.rs:167-173 | one step of the descent keeps the failure under the current node |
| LazySegTree.LazySegTree.MinLeft | procon_lazy_segtree/src/lib.rs:186-223 | corrected `min_left`: 0 when `r == 0`; otherwise the `l` where `g` holds on `[l, r)` and fails on `[l - 1, r)`, or 0 when `g` holds on everything before `r` |
| LazySegTree.LazySegTree.MinLeftWalk | procon_lazy_segtree/src/lib.rs:199-221 | the corrected do-while loop either finds the node where `g` first fails or shows `g` holds on everything before `r` |
| LazySegTree.LazySegTree.MinLeftNode | procon_lazy_segtree/src/lib.rs:205 | each node the walk reads holds the product of its elements |
| LazySegTree.LazySegTree.MinLeftDescend | procon_lazy_segtree/src/lib.rs:206-215 | the descent returns one past the leaf where `g` first fails |
| LazySegTree.LazySegTree.MinLeftChild | procon_lazy_segtree/src/lib.rs:207-213 | one step of the descent keeps the failure under the current node |
| LazySegTree.LazySegTree.MinLeftAsWritten | procon_lazy_segtree/src/lib.rs:186-223 | `min_left` as written: 0 for `r == 0`, and `n` for every `r >= 1` when `g` always holds |
| LazySegTree.LazySegTree.MinLeftAsWrittenWalk | procon_lazy_segtree/src/lib.rs:200-221 | the as-written walk, climbing over left children, never finds a failing node when `g` always holds: it stops at a power of two with `found == false` |
| LazyAsWritten.TryPush | procon_lazy_segtree/src/lib.rs:227-231 | `push(k)` panics exactly when `k` is not an inner node, and keeps the lengths |
| LazyAsWritten.TryApply | procon_lazy_segtree/src/lib.rs:233-238 | `apply(k, f)` panics exactly when `k` is past `data`, and keeps the lengths |
| LazyAsWritten.TryUpdate | procon_lazy_segtree/src/lib.rs:240-242 | `update(k)` panics exactly when `2k + 1` is past `data` |
| LazyAsWritten.QueryAsWritten | procon_lazy_segtree/src/lib.rs:244-274 | `query_inner` as written for any `l <= r`: `id` and no change when `l == r`; a result keeps the lengths |
| LazyAsWritten.ApplyRangeAsWritten | procon_lazy_segtree/src/lib.rs:276-317 | `apply_range_inner` as written for any `l <= r`: no change when `l == r`; a result keeps the lengths |
| LazyAsWritten.SumMulLawful | procon_lazy_segtree/src/lib.rs:11-26 | range multiply over range sum obeys the map-monoid laws |
| LazyAsWritten.PastEndTree | procon_lazy_segtree/src/lib.rs:36-65 | `data == [0, 11, 1, 10]`, `lazy == [1, 1]` is a consistent tree of size 2 over the elements `[1, 10]` |
| LazyAsWritten.QueryPastEnd | procon_lazy_segtree/src/lib.rs:244-274 | on that tree `query_inner(0, 4)` does not panic and returns 12, counting element 0 twice |
| LazyAsWritten.ApplyRangePastEnd | procon_lazy_segtree/src/lib.rs:276-317 | on that tree `apply_range_inner(0, 4, 2)` does not panic and leaves node 1 breaking the node invariant |

## Left out

- Dynamic modulus: `DynamicModInt` and its thread-local modulus (`set_modint`, `modulo`). They are the same arithmetic with a run-time modulus, which the model passes as the parameter `m`.
- Floating point: `PrimitiveFloating`, `Field` and `procon_complex` are floating-point code. They are not part of this model.
- `Signed`, `Unsigned` and `Bounded`: marker traits with no behaviour.
- `node_weight_mut`, `IndexMut`: mutable references into a graph. The model has no aliasing references; a node weight is read with `NodeWeight`.
- `next_back`: the multiset iterator's backward step, which shares `item` and `count` with `next`. Only forward iteration is modelled.
- Rolling-hash test: the rolling-hash search over the 62-byte test string (`[12, 31, 47]`) is not evaluated. `OccurrencePassesTest` and `FindSubstring` state the property that test checks.
- Edit-distance tests: the concrete values 4 and 3 are not evaluated. `LevSelf` covers the "icpc" case.
- Itertools.BitBrute.Next: the mask is unbounded, so `1 << n` overflowing for `n >= 64` is not modelled.
- Itertools.BitBrute.Next: the number of subsets yielded, `2^n`, is not stated as a count; the mask runs over `0..2^n` and `IndicesInjective` gives a different subset for each mask.
- Itertools.Combinations.Next: the number of tuples yielded, `C(n, r)`, is not stated as a count; `CombinationSuccessorIsNext` gives each combination exactly once, in lexicographic order. The same holds for `CombinationsWithReplacement`.
- Panics: an `assert!`, an index out of bounds or an arithmetic underflow that the source leaves to panic is a `requires` of the member that models it where no caller of the model can reach it (for example `Strings.ZAlgorithm` requires a non-empty string and `RollingHashing.FindSubstring` a pattern no longer than the text), and an `Option` result where the panic depends on run-time arguments (`SegTree.SegTree.Query`, `LazySegTree.LazySegTree.Query`, `CountedMultiset.BTreeMultiSet.Range`, `Itertools.Combinations.Next`).
- Ordered element types: `T: Ord` in `procon_multiset`, the sparse table and the permutation steps is modelled as `int`.
- ShortestPath.Dijkstra.Build: the relaxation is stated for non-negative weights only, as Dijkstra's algorithm requires.
  - `dists[v] + weight` is unbounded, so the overflow past `E::max()` on an unreachable node is not modelled.
  - `build` is modelled from the freshly constructed state only.
  - The binary heap is a sequence with a least-entry pop.
  - The adjacency lists are a snapshot taken when `From` runs; later changes to the graph are not modelled.
- NTT-friendly primes: the transforms are proved exact under `Ntt.NttPrime(p, g, L)`: `p` is prime, `2^L` divides `p - 1`, and `g^((p-1)/2) == -1`. That the six moduli of `procon_modint` with their primitive roots satisfy it is not proved (it needs the factorisation of `p - 1`). `Ntt.Dft`, `NttMultiply.Multiply`, `NttMultiply.MulValues` and the FPS members state their exact results under this hypothesis (`Fps.NttReady` for the lengths they use), which is an antecedent of those results and not a `requires`. Without it they state lengths and residue bounds, and the parts that need no transform: the zero branch of `pow_with` and the as-written `None` of its scalar `/`.
- Ntt.BitReverse: the buffer length is a power of two, at least 1. On an empty slice `v.len() - 1` underflows, which only `dft` on an empty buffer could reach.
- Ntt.Dft: the levels are modelled on an `array<int>` of residues; `StaticModInt` values are their residues.
- `NumberTheoreticTransform::from`, `len`, `Index` and `IndexMut`: the newtype wrapper around a `Vec`. The model works on the sequence itself.
- `FormalPowerSeries::values`, `Clone`, `Deref`, `DerefMut`, `Index` and `IndexMut`: access to the coefficient vector, which the model reads as the field `coef`.
- Fps.FormalPowerSeries.ExpWith: the exponential is stated for an NTT-friendly prime only. Otherwise a product can be wrong and `log_with` can panic inside the loop (`None`), and only the length and the residues are stated. A negative `degree` is excluded; the source casts it to a huge `usize`.
- Fps.FormalPowerSeries.PowWith: `f^power` is stated for an NTT-friendly prime, and without one only for the zero branch. For the zero series with `power == 0` the source returns zeros where `f^0` is 1; the contract states the zeros and leaves `f^power` out of that case. A negative `degree` is excluded; the source casts it to a huge `usize`.
- Fps.FormalPowerSeries.Pow: as `PowWith`, with `degree == len`.
- Fps.FormalPowerSeries.LogWith: a negative `degree` is excluded; the source casts it to a huge `usize`, and the resize then panics.
- Fps.FormalPowerSeries.Negate: the result `a * (-1)` is not reduced (see the `ModInt` finding); the contract states the value `ModInt` computes and its congruence to `-a`.
- Fps.FormalPowerSeries.RemAssign: the quotient `q` of the congruence is a ghost out-parameter; the member states the remainder's length and congruence.
- FPS inputs: the members that take series require canonical residues (`Ntt.Canonical`), which every `StaticModInt` built by `new` is.
- LazyMaps.MaxAdd: `min()` and `max()` of the element type are the infinities `NegInf` and `PosInf`, and `+` leaves them unchanged. A bounded type's overflow near its bounds is not modelled.
- `Debug` for `LazySegTree`: formatting, not modelled.
- Lazy segment tree bounds: an index past `size` panics in the source; `Get`, `Set` and `ApplyAt` require it in range. A range past `size` does not always panic: `QueryInner`, `Query`, `ApplyRangeInner` and `ApplyRange` take any `l <= r` and follow the loops as written past `size` (see Findings). `max_right` and `min_left` require `g(id)` and an index up to `n`, as their `assert!`s do.
- LazySegTree.LazySegTree.QueryInner: past `size` the result and the new state are those of `LazyAsWritten.QueryAsWritten`, a recursive rendering of the same loops, and whether the tree stays consistent there is not stated. `ApplyRangeInner` likewise follows `LazyAsWritten.ApplyRangeAsWritten` past `size`.
- Lazy segment tree laws: the members require `LazyMaps.IsLawful` of the map monoid, which the source assumes of every `MapMonoid` and which `MaxAddLawful` and `MinAddLawful` prove for the two instances.
- LazySearch.LowBit: the cast `l as isize` and `l & -l` are modelled as the lowest set bit of `l`; `l` stays below `2 * size`, far from the sign bit.
- LazySegTree.LazySegTree.MinLeftAsWritten: states the result for `r == 0`, its range (`n` or a value in `[1, size]`), and that it is `n` whenever `g` always holds. It does not state where the walk stops in general.
- LazySegTree.LazySegTree.MaxRight: the generic `g` is a total Dafny function; a `g` that panics or has side effects is not modelled.

## Findings

| source | as written | input that shows it | evidently intended | confidence | as-written member | corrected member |
|---|---|---|---|---|---|---|
| procon_segtree/src/lib.rs:41 | `set` updates `idx >> i` for `i` in `0..=log`; for `i == 0` this is the leaf, whose children `2 idx` and `2 idx + 1` lie past `data` | any `set(idx, v)` | update the ancestors `idx >> i` for `i` in `1..=log` | not executed | SegTree.SegTree.SetAsWritten | SegTree.SegTree.Set |
| procon_segtree/src/lib.rs:53-63 | `query_inner` feeds one accumulator from both ends, so the right-hand nodes are combined out of order | a concatenation monoid with leaves `[0],[1],[2],[3]`: `query(0..3)` gives `[2, 0, 1]` | separate left and right accumulators, `op(sml, smr)` at the end | not executed | SegTree.QueryInnerNotCommutative | SegTree.QueryFixedCorrect |
| procon_sparse_table/src/lib.rs:88-92 | an unbounded end becomes the inclusive index `data.len()`, one past the data | `query(1..)` on `[-7, 4, 8]` with `Min` gives 0 | `data.len() - 1` | not executed | SparseTable.QueryUnboundedAsWritten | SparseTable.Query |
| procon_rollinghash/src/lib.rs:57-61 | an inclusive end `i` becomes `r = i` and an exclusive one `i - 1`, and the window is `hash[r] - hash[l] * pow[r-l]`, that is `[l, r)` | `hash(0..=1)` on `[1, 2]` gives the hash of `[1]` | `i + 1` and `i` | not executed | RollingHashing.InclusiveEndExample | RollingHashing.HashIsSubstringHash |
| procon_modint/src/lib.rs:386-397, 450-463, 516-525 | the operand is reduced only when `rhs >= m`, so a negative operand reaches the arithmetic unreduced | `0 + (-1)` gives `-1`, `0 - (-1)` gives `0`, `1 * (-1)` gives `-1` | reduce the operand as `new` does | not executed | ModInt.NegativeOperandExample | ModInt.MulReduced |
| procon_fps/src/lib.rs:234-241 | scalar `/=` computes `inv = 1 / v` and then divides every coefficient by `inv`, which multiplies it by `v`; `pow_with` divides by its lowest coefficient `k` this way, so `log_with`'s `assert!` fails unless `k^2 == 1` | `[1] / 2` modulo 998244353 gives `[2]`; `pow(1)` of `[0, 2]` panics | multiply every coefficient by `inv` | not executed | Fps.ScalarDivisionExample | Fps.FormalPowerSeries.DivScalarCorrected |
| procon_lazy_segtree/src/lib.rs:202-222 | `min_left` climbs while `r % 2 == 0`, over left children, and returns `n` when it reaches the left end | any tree with `1 <= r <= n` and a `g` that always holds: the answer is `n`, where 0 is meant | climb while `r > 1 && r % 2 == 1` and return 0 at the left end | not executed | LazySegTree.LazySegTree.MinLeftAsWritten | LazySegTree.LazySegTree.MinLeft |
| procon_lazy_segtree/src/lib.rs:243-272 | `query_inner` checks only `l <= r`; a range ending past `size` folds slots of the tree that lie outside it | range multiply over range sum, elements `[1, 10]` (`size == 2`): `query(0..4)` gives 12, element 0 counted twice | `assert!(r <= self.size)`, refusing the range | not executed | LazyAsWritten.QueryPastEnd | LazySegTree.LazySegTree.QueryChecked |
| procon_lazy_segtree/src/lib.rs:274-317 | `apply_range_inner` checks only `l <= r`; a range ending past `size` maps slots outside it and recomputes a node that still has a map pending | the same tree: `apply_range(0..4, 2)` leaves node 1 at 12 under a pending 2, where the node invariant wants 24 | `assert!(r <= self.size)`, refusing the range | not executed | LazyAsWritten.ApplyRangePastEnd | LazySegTree.LazySegTree.ApplyRangeChecked |
