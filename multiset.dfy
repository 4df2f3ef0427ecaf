/**
 * procon_multiset: `BTreeMultiSet`, a multiset kept as a map from each
 * element to its number of occurrences, and its ascending iterator.
 * Elements (any `Ord`) are modelled by `int`, the `BTreeMap` by a finite
 * `map`, its ordered traversal by `Entries`, and `usize` counts by `nat`.
 */
module CountedMultiset {
  import opened Wrappers

  // ---------------------------------------------------------------------
  // The count map

  /** `count(v)`: the stored count of v, 0 when v is not a key. */
  function Occurrences(ctr: map<int, nat>, v: int): (c: nat)
    ensures NoZeroCounts(ctr) ==> (c > 0 <==> v in ctr)
  {
    if v in ctr then ctr[v] else 0
  }

  /** No stored key has count 0. */
  ghost predicate NoZeroCounts(ctr: map<int, nat>) {
    forall k :: k in ctr ==> ctr[k] > 0
  }

  /** `insert(v)`: `*ctr.entry(v).or_insert(0) += 1`. */
  function Inserted(ctr: map<int, nat>, v: int): (r: map<int, nat>)
    ensures Occurrences(r, v) == Occurrences(ctr, v) + 1
    ensures forall x :: x != v ==> Occurrences(r, x) == Occurrences(ctr, x)
    ensures NoZeroCounts(ctr) ==> NoZeroCounts(r)
  {
    ctr[v := Occurrences(ctr, v) + 1]
  }

  /** `remove_one(v)` on the map: decrement v's count, dropping the key when it reaches 0. */
  function RemovedOne(ctr: map<int, nat>, v: int): (r: map<int, nat>)
    ensures Occurrences(r, v) == if Occurrences(ctr, v) == 0 then 0 else Occurrences(ctr, v) - 1
    ensures forall x :: x != v ==> Occurrences(r, x) == Occurrences(ctr, x)
    ensures NoZeroCounts(ctr) ==> NoZeroCounts(r)
  {
    if v !in ctr then ctr
    else if ctr[v] <= 1 then ctr - {v}
    else ctr[v := ctr[v] - 1]
  }

  /** Inserting and then removing one copy restores the map. */
  lemma RemoveOneUndoesInsert(ctr: map<int, nat>, v: int)
    requires NoZeroCounts(ctr)
    ensures RemovedOne(Inserted(ctr, v), v) == ctr
  {
    if v in ctr {
      assert Inserted(ctr, v)[v] > 1;
    } else {
      assert Inserted(ctr, v) - {v} == ctr;
    }
  }

  /** Without zero counts, the map is empty exactly when every count is 0. */
  lemma EmptyIffNoOccurrences(ctr: map<int, nat>)
    requires NoZeroCounts(ctr)
    ensures |ctr| == 0 <==> forall x :: Occurrences(ctr, x) == 0
  {
    if |ctr| != 0 {
      var k := Pick(ctr.Keys);
      assert Occurrences(ctr, k) > 0;
    }
  }

  // ---------------------------------------------------------------------
  // Ordered traversal of the keys

  /** Some element of a non-empty set. */
  lemma Pick(s: set<int>) returns (x: int)
    requires s != {}
    ensures x in s
  {
    if forall y :: y !in s {
      assert false;
    }
    x :| x in s;
  }

  /** m is the least element of s. */
  predicate IsLeast(m: int, s: set<int>) {
    m in s && forall y :: y in s ==> m <= y
  }

  /** A non-empty finite set of integers has a least element. */
  lemma {:induction false} HasLeast(s: set<int>)
    requires s != {}
    ensures exists m :: IsLeast(m, s)
    decreases |s|
  {
    var x := Pick(s);
    var rest := s - {x};
    if rest == {} {
      LeastOfInsert(x, s, rest, x);
    } else {
      HasLeast(rest);
      var m :| IsLeast(m, rest);
      LeastOfInsert(x, s, rest, m);
    }
  }

  /** Putting x back into rest: the smaller of x and the least of rest is least. */
  lemma LeastOfInsert(x: int, s: set<int>, rest: set<int>, m: int)
    requires x in s && rest == s - {x}
    requires if rest == {} then m == x else IsLeast(m, rest)
    ensures IsLeast(if x < m then x else m, s)
  {
    forall y | y in s
      ensures (if x < m then x else m) <= y
    {
      if y != x {
        assert y in rest;
      }
    }
  }

  /** The least element of a non-empty set. */
  function Least(s: set<int>): (m: int)
    requires s != {}
    ensures m in s && forall y :: y in s ==> m <= y
  {
    HasLeast(s);
    var m :| IsLeast(m, s);
    m
  }

  /** The keys of a set in ascending order, as a `BTreeMap` visits them. */
  function SortedKeys(s: set<int>): (r: seq<int>)
    ensures |r| == |s| && forall x :: x in r <==> x in s
    ensures forall i, j :: 0 <= i < j < |r| ==> r[i] < r[j]
    decreases |s|
  {
    if s == {} then []
    else
      var m := Least(s);
      [m] + SortedKeys(s - {m})
  }

  /** Keys of the entries strictly increase. */
  ghost predicate KeysIncreasing(e: seq<(int, nat)>) {
    forall i, j :: 0 <= i < j < |e| ==> e[i].0 < e[j].0
  }

  /** Every key of the entries lies above b. */
  ghost predicate KeysAbove(e: seq<(int, nat)>, b: int) {
    forall i :: 0 <= i < |e| ==> b < e[i].0
  }

  /** The (key, count) pairs of the map in ascending key order. */
  function Entries(ctr: map<int, nat>): (r: seq<(int, nat)>)
    ensures KeysIncreasing(r)
    ensures forall i :: 0 <= i < |r| ==> r[i].0 in ctr && r[i].1 == ctr[r[i].0]
  {
    Pairs(ctr, SortedKeys(ctr.Keys))
  }

  /** Each key of ks paired with its count. */
  function Pairs(ctr: map<int, nat>, ks: seq<int>): (r: seq<(int, nat)>)
    requires forall i :: 0 <= i < |ks| ==> ks[i] in ctr
    ensures |r| == |ks|
    ensures forall i :: 0 <= i < |r| ==> r[i] == (ks[i], ctr[ks[i]])
  {
    seq(|ks|, i requires 0 <= i < |ks| => (ks[i], ctr[ks[i]]))
  }

  /** The sum of the counts the entries give x. */
  function CountIn(e: seq<(int, nat)>, x: int): nat {
    if e == [] then 0 else (if e[0].0 == x then e[0].1 else 0) + CountIn(e[1..], x)
  }

  /** With distinct keys, the entries of a key set give each key its map count. */
  lemma {:induction false} CountInKeys(ctr: map<int, nat>, ks: seq<int>, x: int)
    requires forall i :: 0 <= i < |ks| ==> ks[i] in ctr
    requires forall i, j :: 0 <= i < j < |ks| ==> ks[i] < ks[j]
    ensures CountIn(Pairs(ctr, ks), x) == if x in ks then ctr[x] else 0
    decreases |ks|
  {
    var e := Pairs(ctr, ks);
    if ks != [] {
      var ks' := ks[1..];
      CountInKeys(ctr, ks', x);
      assert e[1..] == Pairs(ctr, ks');
      assert x in ks <==> x == ks[0] || x in ks';
      if x == ks[0] {
        assert x !in ks';
      }
    }
  }

  /** The traversal gives every element its stored count. */
  lemma EntriesCount(ctr: map<int, nat>, x: int)
    ensures CountIn(Entries(ctr), x) == Occurrences(ctr, x)
  {
    CountInKeys(ctr, SortedKeys(ctr.Keys), x);
  }

  // ---------------------------------------------------------------------
  // `range`: the entries whose key is within the bounds

  /** One end of a key range (`std::ops::Bound` over the element type). */
  datatype KeyBound = NoBound | From(key: int) | After(key: int) | UpTo(key: int) | Before(key: int)

  /**
   * `BTreeMap::range` panics when the start key exceeds the end key, or
   * when they are equal and both bounds are exclusive.
   */
  predicate RangePanics(lo: KeyBound, hi: KeyBound) {
    && (lo.From? || lo.After?) && (hi.UpTo? || hi.Before?)
    && (lo.key > hi.key || (lo.key == hi.key && lo.After? && hi.Before?))
  }

  /** x is within the start bound lo and the end bound hi. */
  predicate InRange(lo: KeyBound, hi: KeyBound, x: int) {
    && (match lo
        case From(k) => k <= x
        case After(k) => k < x
        case _ => true)
    && (match hi
        case UpTo(k) => x <= k
        case Before(k) => x < k
        case _ => true)
  }

  /** The entries whose key is in range, in their order. */
  function Within(e: seq<(int, nat)>, lo: KeyBound, hi: KeyBound): seq<(int, nat)> {
    if e == [] then []
    else if InRange(lo, hi, e[0].0) then [e[0]] + Within(e[1..], lo, hi)
    else Within(e[1..], lo, hi)
  }

  /** The restriction counts x as before when x is in range and as 0 otherwise. */
  lemma {:induction false} WithinCount(e: seq<(int, nat)>, lo: KeyBound, hi: KeyBound, x: int)
    ensures CountIn(Within(e, lo, hi), x) == if InRange(lo, hi, x) then CountIn(e, x) else 0
    decreases |e|
  {
    if e != [] {
      WithinCount(e[1..], lo, hi, x);
      if InRange(lo, hi, e[0].0) {
        assert ([e[0]] + Within(e[1..], lo, hi))[1..] == Within(e[1..], lo, hi);
      }
    }
  }

  /** The restriction keeps the keys above a bound and increasing. */
  lemma {:induction false} WithinKeys(e: seq<(int, nat)>, lo: KeyBound, hi: KeyBound, b: int)
    requires KeysIncreasing(e)
    ensures KeysIncreasing(Within(e, lo, hi))
    ensures KeysAbove(e, b) ==> KeysAbove(Within(e, lo, hi), b)
    decreases |e|
  {
    if e != [] {
      WithinKeys(e[1..], lo, hi, b);
      WithinKeys(e[1..], lo, hi, e[0].0);
    }
  }

  /** Every count in the entries is positive. */
  ghost predicate PositiveCounts(e: seq<(int, nat)>) {
    forall i :: 0 <= i < |e| ==> e[i].1 > 0
  }

  /** The restriction keeps counts positive. */
  lemma {:induction false} WithinPositive(e: seq<(int, nat)>, lo: KeyBound, hi: KeyBound)
    requires PositiveCounts(e)
    ensures PositiveCounts(Within(e, lo, hi))
    decreases |e|
  {
    if e != [] {
      WithinPositive(e[1..], lo, hi);
    }
  }

  // ---------------------------------------------------------------------
  // What iteration yields

  /** c copies of x. */
  function Repeat(x: int, c: nat): seq<int> {
    if c == 0 then [] else [x] + Repeat(x, c - 1)
  }

  /** Each key repeated by its count, entry after entry. */
  function Expand(e: seq<(int, nat)>): seq<int> {
    if e == [] then [] else Repeat(e[0].0, e[0].1) + Expand(e[1..])
  }

  /** s never decreases. */
  ghost predicate NonDecreasing(s: seq<int>) {
    forall i, j :: 0 <= i < j < |s| ==> s[i] <= s[j]
  }

  /** Ascending between neighbours is ascending throughout. */
  lemma {:induction false} StepwiseNonDecreasing(s: seq<int>)
    requires forall i :: 0 < i < |s| ==> s[i - 1] <= s[i]
    ensures NonDecreasing(s)
    decreases |s|
  {
    if |s| > 1 {
      StepwiseNonDecreasing(s[..|s| - 1]);
      forall i, j | 0 <= i < j < |s|
        ensures s[i] <= s[j]
      {
        if j < |s| - 1 {
          assert s[..|s| - 1][i] <= s[..|s| - 1][j];
        } else if i < j - 1 {
          assert s[..|s| - 1][i] <= s[..|s| - 1][j - 1];
        }
      }
    }
  }

  lemma {:induction false} RepeatCount(x: int, c: nat, y: int)
    ensures multiset(Repeat(x, c))[y] == if x == y then c else 0
    ensures forall i :: 0 <= i < |Repeat(x, c)| ==> Repeat(x, c)[i] == x
    ensures |Repeat(x, c)| == c
    decreases c
  {
    if c > 0 {
      RepeatCount(x, c - 1, y);
    }
  }

  /** Expanding yields each element as often as the entries count it. */
  lemma {:induction false} ExpandCount(e: seq<(int, nat)>, x: int)
    ensures multiset(Expand(e))[x] == CountIn(e, x)
    decreases |e|
  {
    if e != [] {
      ExpandCount(e[1..], x);
      RepeatCount(e[0].0, e[0].1, x);
    }
  }

  /** With increasing keys, the expansion is ascending and stays above any bound of the keys. */
  lemma {:induction false} ExpandSorted(e: seq<(int, nat)>, b: int)
    requires KeysIncreasing(e)
    ensures NonDecreasing(Expand(e))
    ensures KeysAbove(e, b) ==> forall i :: 0 <= i < |Expand(e)| ==> b < Expand(e)[i]
    decreases |e|
  {
    if e != [] {
      ExpandSorted(e[1..], b);
      ExpandSorted(e[1..], e[0].0);
      RepeatCount(e[0].0, e[0].1, e[0].0);
      var r, t := Repeat(e[0].0, e[0].1), Expand(e[1..]);
      assert Expand(e) == r + t;
      forall i, j | 0 <= i < j < |r + t|
        ensures (r + t)[i] <= (r + t)[j]
      {
        if j >= |r| && i < |r| {
          assert (r + t)[j] == t[j - |r|];
        }
      }
    }
  }

  /**
   * Forward iteration over `range(lo, hi)` yields, in ascending order,
   * each element in range exactly as often as it is counted, and nothing
   * out of range.
   */
  lemma RangeYields(ctr: map<int, nat>, lo: KeyBound, hi: KeyBound)
    ensures NonDecreasing(Expand(Within(Entries(ctr), lo, hi)))
    ensures forall x :: (multiset(Expand(Within(Entries(ctr), lo, hi)))[x]
      == if InRange(lo, hi, x) then Occurrences(ctr, x) else 0)
  {
    var e := Entries(ctr);
    WithinKeys(e, lo, hi, 0);
    ExpandSorted(Within(e, lo, hi), 0);
    forall x
      ensures multiset(Expand(Within(e, lo, hi)))[x] == if InRange(lo, hi, x) then Occurrences(ctr, x) else 0
    {
      ExpandCount(Within(e, lo, hi), x);
      WithinCount(e, lo, hi, x);
      EntriesCount(ctr, x);
    }
  }

  /** Two ascending sequences with the same elements are equal. */
  lemma {:induction false} SortedUnique(a: seq<int>, b: seq<int>)
    requires NonDecreasing(a) && NonDecreasing(b) && multiset(a) == multiset(b)
    ensures a == b
    decreases |a|
  {
    assert |b| == |multiset(b)| == |multiset(a)| == |a|;
    if a != [] {
      assert a[0] in multiset(b) by {
        assert a[0] in a;
      }
      assert b[0] in multiset(a) by {
        assert b[0] in b;
      }
      var i :| 0 <= i < |b| && b[i] == a[0];
      var j :| 0 <= j < |a| && a[j] == b[0];
      assert b[0] <= b[i] && a[0] <= a[j];
      SortedTail(a);
      SortedTail(b);
      assert a == [a[0]] + a[1..] && b == [b[0]] + b[1..];
      forall x
        ensures multiset(a[1..])[x] == multiset(b[1..])[x]
      {
        assert multiset(a)[x] == multiset([a[0]])[x] + multiset(a[1..])[x];
        assert multiset(b)[x] == multiset([b[0]])[x] + multiset(b[1..])[x];
      }
      assert multiset(a[1..]) == multiset(b[1..]);
      SortedUnique(a[1..], b[1..]);
    }
  }

  lemma SortedTail(a: seq<int>)
    requires NonDecreasing(a) && a != []
    ensures NonDecreasing(a[1..])
  {
    forall i, j | 0 <= i < j < |a[1..]|
      ensures a[1..][i] <= a[1..][j]
    {
      assert a[1..][i] == a[i + 1] && a[1..][j] == a[j + 1];
    }
  }

  // ---------------------------------------------------------------------
  // The multiset and its iterator

  class BTreeMultiSet {
    var ctr: map<int, nat>

    /** No stored key has count 0: `remove_one` drops a key when its count reaches 0. */
    ghost predicate Valid()
      reads this
    {
      NoZeroCounts(ctr)
    }

    /** `new` / `default`: the empty multiset. */
    constructor ()
      ensures ctr == map[] && Valid()
    {
      ctr := map[];
    }

    /** `count(v)`. */
    function Count(v: int): nat
      reads this
    {
      Occurrences(ctr, v)
    }

    /** `insert(v)`: one more copy of v. */
    method Insert(v: int)
      requires Valid()
      modifies this
      ensures Valid() && ctr == Inserted(old(ctr), v)
    {
      var c := if v in ctr then ctr[v] else 0;
      ctr := ctr[v := c + 1];
    }

    /** `remove_one(v)`: reports whether v was present, removing one copy if so. */
    method RemoveOne(v: int) returns (removed: bool)
      requires Valid()
      modifies this
      ensures Valid() && ctr == RemovedOne(old(ctr), v)
      ensures removed <==> v in old(ctr)
    {
      if v in ctr {
        var target := ctr[v] - 1;
        if target == 0 {
          ctr := ctr - {v};
        } else {
          ctr := ctr[v := target];
        }
        removed := true;
      } else {
        removed := false;
      }
    }

    /** `remove_all(v)`: drops v entirely and returns how many copies there were. */
    method RemoveAll(v: int) returns (c: nat)
      requires Valid()
      modifies this
      ensures Valid() && ctr == old(ctr) - {v}
      ensures c == old(Count(v)) && Count(v) == 0
    {
      c := if v in ctr then ctr[v] else 0;
      ctr := ctr - {v};
    }

    /** `is_empty`: the map has no keys. */
    predicate IsEmpty()
      reads this
    {
      |ctr| == 0
    }

    /** `is_disjoint`: every key of this multiset has count 0 in other. */
    predicate IsDisjoint(other: BTreeMultiSet)
      reads this, other
    {
      forall k :: k in ctr ==> other.Count(k) == 0
    }

    /** `is_subset`: every key's count here is at most its count in other. */
    predicate IsSubset(other: BTreeMultiSet)
      reads this, other
    {
      forall k :: k in ctr ==> ctr[k] <= other.Count(k)
    }

    /** `is_superset`: other is a subset of this multiset. */
    predicate IsSuperset(other: BTreeMultiSet)
      reads this, other
    {
      other.IsSubset(this)
    }

    /**
     * `range(lo..hi)`: an iterator over the keys within the bounds, or
     * `None` where `BTreeMap::range` panics on the bounds.
     */
    method Range(lo: KeyBound, hi: KeyBound) returns (it: Option<MultiSetIterator>)
      requires Valid()
      ensures it.None? <==> RangePanics(lo, hi)
      ensures it.Some? ==> fresh(it.value) && it.value.Valid()
      ensures it.Some? ==> it.value.Pending() == Expand(Within(Entries(ctr), lo, hi))
    {
      if RangePanics(lo, hi) {
        return None;
      }
      var e := Entries(ctr);
      WithinPositive(e, lo, hi);
      var i := new MultiSetIterator(Within(e, lo, hi));
      it := Some(i);
    }

    /** `iter`: `range(..)`, which never panics. */
    method Iter() returns (it: MultiSetIterator)
      requires Valid()
      ensures fresh(it) && it.Valid()
      ensures it.Pending() == Expand(Within(Entries(ctr), NoBound, NoBound))
    {
      var r := Range(NoBound, NoBound);
      it := r.value;
    }

    /** `from_iter`: insert every item in turn. */
    static method FromIter(items: seq<int>) returns (ms: BTreeMultiSet)
      ensures fresh(ms) && ms.Valid()
      ensures forall x :: ms.Count(x) == multiset(items)[x]
    {
      ms := new BTreeMultiSet();
      var i := 0;
      while i < |items|
        invariant 0 <= i <= |items| && ms.Valid()
        invariant forall x :: ms.Count(x) == multiset(items[..i])[x]
        modifies ms
      {
        assert items[..i + 1] == items[..i] + [items[i]];
        ms.Insert(items[i]);
        i := i + 1;
      }
      assert items[..i] == items;
    }
  }

  /** A multiset without zero counts is empty exactly when every count is 0. */
  lemma IsEmptyIff(s: BTreeMultiSet)
    requires s.Valid()
    ensures s.IsEmpty() <==> forall x :: s.Count(x) == 0
  {
    EmptyIffNoOccurrences(s.ctr);
    assert forall x :: s.Count(x) == Occurrences(s.ctr, x);
  }

  /** `is_subset` compares the counts of every element. */
  lemma IsSubsetIff(s: BTreeMultiSet, t: BTreeMultiSet)
    ensures s.IsSubset(t) <==> forall x :: s.Count(x) <= t.Count(x)
  {
    if s.IsSubset(t) {
      forall x
        ensures s.Count(x) <= t.Count(x)
      {
        if x in s.ctr {
          assert s.ctr[x] <= t.Count(x);
        }
      }
    }
  }

  /** `is_superset` is the subset test read the other way. */
  lemma IsSupersetIff(s: BTreeMultiSet, t: BTreeMultiSet)
    ensures s.IsSuperset(t) <==> forall x :: t.Count(x) <= s.Count(x)
  {
    IsSubsetIff(t, s);
  }

  /** `is_disjoint` holds exactly when no element occurs in both. */
  lemma IsDisjointIff(s: BTreeMultiSet, t: BTreeMultiSet)
    requires s.Valid()
    ensures s.IsDisjoint(t) <==> forall x :: s.Count(x) == 0 || t.Count(x) == 0
  {
    if !s.IsDisjoint(t) {
      var k :| k in s.ctr && t.Count(k) != 0;
      assert s.Count(k) != 0;
    }
  }

  /** The elements an iterator in state (item, count, range) still yields, in order. */
  function PendingOf(item: Option<int>, count: nat, range: seq<(int, nat)>): seq<int>
    requires count > 0 ==> item.Some?
  {
    (if count > 0 then Repeat(item.value, count) else []) + Expand(range)
  }

  /**
   * One call of `next` from state (item0, count0, range0) to state
   * (item1, count1, range1) yields the first pending element and leaves the
   * rest pending, or yields None once nothing is pending.
   */
  lemma NextYieldsPending(item0: Option<int>, count0: nat, range0: seq<(int, nat)>,
                          item1: Option<int>, count1: nat, range1: seq<(int, nat)>)
    requires PositiveCounts(range0) && (count0 > 0 ==> item0.Some?) && (count1 > 0 ==> item1.Some?)
    requires count0 == 0 && range0 == [] ==> item1 == None && count1 == 0 && range1 == []
    requires count0 == 0 && range0 != [] ==>
      item1 == Some(range0[0].0) && count1 == range0[0].1 - 1 && range1 == range0[1..]
    requires count0 > 0 ==> item1 == item0 && count1 == count0 - 1 && range1 == range0
    ensures PendingOf(item0, count0, range0) == [] ==> item1 == None && PendingOf(item1, count1, range1) == []
    ensures PendingOf(item0, count0, range0) != [] ==>
      item1 == Some(PendingOf(item0, count0, range0)[0]) &&
      PendingOf(item1, count1, range1) == PendingOf(item0, count0, range0)[1..]
  {
    if count0 > 0 {
      assert Repeat(item0.value, count0) == [item0.value] + Repeat(item0.value, count0 - 1);
    } else if range0 != [] {
      var k, c := range0[0].0, range0[0].1;
      assert Expand(range0) == Repeat(k, c) + Expand(range0[1..]);
      assert Repeat(k, c) == [k] + Repeat(k, c - 1);
    }
  }

  class MultiSetIterator {
    /** The entries not yet started, in ascending key order. */
    var range: seq<(int, nat)>
    /** The element being repeated. */
    var item: Option<int>
    /** How many more copies of item remain. */
    var count: nat

    ghost predicate Valid()
      reads this
    {
      PositiveCounts(range) && (count > 0 ==> item.Some?)
    }

    /** The elements still to be yielded, in order. */
    ghost function Pending(): seq<int>
      reads this
      requires Valid()
    {
      PendingOf(item, count, range)
    }

    constructor (entries: seq<(int, nat)>)
      requires PositiveCounts(entries)
      ensures range == entries && item == None && count == 0 && Valid()
    {
      range, item, count := entries, None, 0;
    }

    /**
     * `next`: when the current element is used up, fetch the next entry
     * (or none); then hand out one copy of the current element.  It yields
     * the first pending element, or None once nothing is pending.
     */
    method Next() returns (r: Option<int>)
      requires Valid()
      modifies this
      ensures Valid() && r == item
      ensures old(count) == 0 && old(range) == [] ==> item == None && count == 0 && range == []
      ensures old(count) == 0 && old(range) != [] ==>
        item == Some(old(range)[0].0) && count == old(range)[0].1 - 1 && range == old(range)[1..]
      ensures old(count) > 0 ==> item == old(item) && count == old(count) - 1 && range == old(range)
      ensures old(Pending()) == [] ==> r == None && Pending() == []
      ensures old(Pending()) != [] ==> r == Some(old(Pending())[0]) && Pending() == old(Pending())[1..]
    {
      ghost var item0, count0, range0 := item, count, range;
      var it, c, rg := item, count, range;
      if c == 0 {
        if rg == [] {
          it, c := None, 0;
        } else {
          it, c := Some(rg[0].0), rg[0].1;
          rg := rg[1..];
        }
      }
      if it.Some? {
        c := c - 1;
      }
      NextYieldsPending(item0, count0, range0, it, c, rg);
      item, count, range := it, c, rg;
      r := it;
    }

    /** Draining the iterator (`collect`) yields exactly the pending elements. */
    method Collect() returns (out: seq<int>)
      requires Valid()
      modifies this
      ensures Valid() && out == old(Pending()) && Pending() == []
    {
      ghost var whole := Pending();
      out := [];
      while true
        invariant Valid() && Drained(whole, out, Pending())
        decreases |Pending()|
      {
        ghost var p0 := Pending();
        var next := Next();
        if next == None {
          return;
        }
        DrainStep(whole, out, p0, next.value, Pending());
        out := out + [next.value];
      }
    }
  }

  /** out is what has been taken from whole so far and rest what is still pending. */
  ghost predicate Drained(whole: seq<int>, out: seq<int>, rest: seq<int>) {
    whole == out + rest
  }

  /** Taking the first pending element x moves it from rest to out. */
  lemma DrainStep(whole: seq<int>, out: seq<int>, rest: seq<int>, x: int, rest': seq<int>)
    requires Drained(whole, out, rest) && rest != [] && x == rest[0] && rest' == rest[1..]
    ensures Drained(whole, out + [x], rest')
  {
    assert rest == [x] + rest';
  }

  /** The from_vec input and its sorted copy have the same elements. */
  lemma FromVecSameElements()
    ensures multiset([0, 2, 1, 3, 1, 4, 2, 3, 4, 1]) == multiset([0, 1, 1, 1, 2, 2, 3, 3, 4, 4])
  {
    assert multiset([0, 2, 1, 3, 1, 4, 2, 3, 4, 1]) == multiset{0, 2, 1, 3, 1, 4, 2, 3, 4, 1};
    assert multiset{0, 2, 1, 3, 1, 4, 2, 3, 4, 1} == multiset{0, 1, 1, 1, 2, 2, 3, 3, 4, 4};
    assert multiset([0, 1, 1, 1, 2, 2, 3, 3, 4, 4]) == multiset{0, 1, 1, 1, 2, 2, 3, 3, 4, 4};
  }

  lemma FromVecSorted()
    ensures NonDecreasing([0, 1, 1, 1, 2, 2, 3, 3, 4, 4])
  {
    StepwiseNonDecreasing([0, 1, 1, 1, 2, 2, 3, 3, 4, 4]);
  }

  /** A set built from v iterates as u, when u is v in non-decreasing order. */
  lemma IteratesAsSorted(ctr: map<int, nat>, v: seq<int>, u: seq<int>)
    requires forall x :: Occurrences(ctr, x) == multiset(v)[x]
    requires multiset(v) == multiset(u) && NonDecreasing(u)
    ensures Expand(Within(Entries(ctr), NoBound, NoBound)) == u
  {
    var e := Expand(Within(Entries(ctr), NoBound, NoBound));
    RangeYields(ctr, NoBound, NoBound);
    assert multiset(e) == multiset(u) by {
      forall x ensures multiset(e)[x] == multiset(u)[x] {
        assert InRange(NoBound, NoBound, x);
      }
    }
    SortedUnique(e, u);
  }

  /** The from_vec test: the set built from [0, 2, 1, 3, 1, 4, 2, 3, 4, 1] iterates as its sorted copy. */
  lemma FromVecExample(ctr: map<int, nat>)
    requires forall x :: Occurrences(ctr, x) == multiset([0, 2, 1, 3, 1, 4, 2, 3, 4, 1])[x]
    ensures Expand(Within(Entries(ctr), NoBound, NoBound)) == [0, 1, 1, 1, 2, 2, 3, 3, 4, 4]
  {
    FromVecSameElements();
    FromVecSorted();
    IteratesAsSorted(ctr, [0, 2, 1, 3, 1, 4, 2, 3, 4, 1], [0, 1, 1, 1, 2, 2, 3, 3, 4, 4]);
  }
}
