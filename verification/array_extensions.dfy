/**
 * The `Array` helpers of `Extensions+Array.swift`: in-place `mapped` and
 * `filtered`, sorting by a derived value in either order, and `unique`.
 * A Swift array is a `seq`; a mutating method returns the array's new value.
 * Closures are total pure functions (the `rethrows` error path is not
 * modelled), a key path is the projection function it denotes, and a
 * `Comparable` key type comes with its `<` as a parameter `less`, which
 * must be a strict weak order (see `StrictWeakOrder`).
 */
module ArrayExtensions {

  /** `Order`; the source spells the second case `descanding`. */
  datatype Order = Ascending | Descending

  // ---------------------------------------------------------------------------
  // mapped

  /** `mapped(_:)`: every element is replaced by its image under `transform`. */
  method Mapped<T>(s: seq<T>, transform: T -> T) returns (r: seq<T>)
    ensures |r| == |s|
    ensures forall i :: 0 <= i < |s| ==> r[i] == transform(s[i])
  {
    r := [];
    var i := 0;
    while i < |s|
      invariant 0 <= i <= |s|
      invariant |r| == i
      invariant forall j :: 0 <= j < i ==> r[j] == transform(s[j])
    {
      r := r + [transform(s[i])];
      i := i + 1;
    }
  }

  // ---------------------------------------------------------------------------
  // filtered

  /** `r` can be obtained from `s` by deleting elements, keeping the rest in order. */
  ghost predicate IsSubsequence<T>(r: seq<T>, s: seq<T>)
    decreases |s|
  {
    if |r| == 0 then true
    else if |s| == 0 then false
    else (r[|r| - 1] == s[|s| - 1] && IsSubsequence(r[..|r| - 1], s[..|s| - 1]))
         || IsSubsequence(r, s[..|s| - 1])
  }

  /** Swift's `filter`: the elements that satisfy `isIncluded`, as many times as they occur. */
  function Filter<T(!new)>(s: seq<T>, isIncluded: T -> bool): (r: seq<T>)
    ensures forall i :: 0 <= i < |r| ==> isIncluded(r[i])
    ensures forall x :: multiset(r)[x] == if isIncluded(x) then multiset(s)[x] else 0
    ensures |r| <= |s|
  {
    if |s| == 0 then []
    else
      var init, last := s[..|s| - 1], s[|s| - 1];
      assert s == init + [last];
      Filter(init, isIncluded) + if isIncluded(last) then [last] else []
  }

  /** The elements `Filter` keeps appear in their original relative order. */
  lemma {:induction false} FilterKeepsOrder<T(!new)>(s: seq<T>, isIncluded: T -> bool)
    ensures IsSubsequence(Filter(s, isIncluded), s)
  {
    if |s| > 0 {
      var init, last := s[..|s| - 1], s[|s| - 1];
      assert s == init + [last];
      FilterStep(s, isIncluded);
      FilterKeepsOrder(init, isIncluded);
      var front := Filter(init, isIncluded);
      if isIncluded(last) {
        assert Filter(s, isIncluded) == front + [last];
        SubsequenceKeepLast(front, init, last);
      } else {
        assert Filter(s, isIncluded) == front;
        SubsequenceSkipLast(front, init, last);
      }
    }
  }

  /** A subsequence extended by the element appended to the sequence is still a subsequence. */
  lemma SubsequenceKeepLast<T>(r: seq<T>, s: seq<T>, x: T)
    requires IsSubsequence(r, s)
    ensures IsSubsequence(r + [x], s + [x])
  {
    assert (r + [x])[..|r|] == r;
    assert (s + [x])[..|s|] == s;
  }

  /** A subsequence stays one when the sequence grows. */
  lemma SubsequenceSkipLast<T>(r: seq<T>, s: seq<T>, x: T)
    requires IsSubsequence(r, s)
    ensures IsSubsequence(r, s + [x])
  {
    assert (s + [x])[..|s|] == s;
  }

  /** Filtering changes nothing exactly when every element is kept. */
  lemma {:induction false} FilterAllKept<T(!new)>(s: seq<T>, isIncluded: T -> bool)
    ensures Filter(s, isIncluded) == s <==> forall i :: 0 <= i < |s| ==> isIncluded(s[i])
  {
    if |s| > 0 {
      var init, last := s[..|s| - 1], s[|s| - 1];
      assert s == init + [last];
      FilterStep(s, isIncluded);
      FilterAllKept(init, isIncluded);
      var front := Filter(init, isIncluded);
      if isIncluded(last) {
        AppendCancel(front, init, last);
      } else {
        assert |Filter(s, isIncluded)| <= |init| < |s|;
      }
      AllAppend(init, last, isIncluded);
    }
  }

  /** Appending the same element to two sequences keeps them equal or different. */
  lemma AppendCancel<T>(a: seq<T>, b: seq<T>, x: T)
    ensures a + [x] == b + [x] <==> a == b
  {
    if a + [x] == b + [x] {
      assert a == (a + [x])[..|a|] == (b + [x])[..|b|] == b;
    }
  }

  /** `filtered(_:)`: the array keeps exactly the elements that satisfy `isIncluded`. */
  method Filtered<T(!new)>(s: seq<T>, isIncluded: T -> bool) returns (r: seq<T>)
    ensures r == Filter(s, isIncluded)
    ensures forall i :: 0 <= i < |r| ==> isIncluded(r[i])
    ensures forall x :: multiset(r)[x] == if isIncluded(x) then multiset(s)[x] else 0
  {
    r := Filter(s, isIncluded);
  }

  /** One step of `Filter`: the last element is kept or dropped on its own. */
  lemma FilterStep<T(!new)>(s: seq<T>, isIncluded: T -> bool)
    requires |s| > 0
    ensures Filter(s, isIncluded)
         == Filter(s[..|s| - 1], isIncluded) + if isIncluded(s[|s| - 1]) then [s[|s| - 1]] else []
  {
  }

  /** Every element of `init + [last]` satisfies `p` exactly when every element of `init` and `last` do. */
  lemma AllAppend<T>(init: seq<T>, last: T, p: T -> bool)
    ensures (forall i :: 0 <= i < |init + [last]| ==> p((init + [last])[i]))
        <==> (forall i :: 0 <= i < |init| ==> p(init[i])) && p(last)
  {
    var s := init + [last];
    assert s[|init|] == last;
    assert forall i :: 0 <= i < |init| ==> s[i] == init[i];
  }

  // ---------------------------------------------------------------------------
  // sorted / sort

  /**
   * What Swift's `sorted(by:)` demands of its predicate: it is asymmetric, and
   * "not before" is transitive, so elements may tie. `Comparable`'s `<` on a key
   * type is such an order: it is total only up to the key type's own `==`, so
   * nothing more is required of `less` below.
   */
  ghost predicate StrictWeakOrder<T(!new)>(before: (T, T) -> bool) {
    && (forall x, y :: before(x, y) ==> !before(y, x))
    && (forall x, y, z :: !before(x, y) && !before(y, z) ==> !before(x, z))
  }

  /** No element is strictly `before` an element ahead of it. */
  ghost predicate SortedBy<T>(s: seq<T>, before: (T, T) -> bool) {
    forall i, j :: 0 <= i < j < |s| ==> !before(s[j], s[i])
  }

  /** Whether a key `x` goes before a key `y`: `<` when ascending, `>` when descending. */
  function KeyBefore<K>(order: Order, x: K, y: K, less: (K, K) -> bool): bool {
    match order
    case Ascending => less(x, y)
    case Descending => less(y, x)
  }

  /** The predicate `sorted(order:byValue:)` passes to Swift's `sorted(by:)`: it
      compares the sort values of two elements, and is a valid sort predicate in
      either order whenever `<` on the sort values is. */
  function Comparator<T(!new), K(!new)>(order: Order, sortValue: T -> K, less: (K, K) -> bool): (before: (T, T) -> bool)
    ensures StrictWeakOrder(less) ==> StrictWeakOrder(before)
  {
    var before := (a: T, b: T) => KeyBefore(order, sortValue(a), sortValue(b), less);
    KeyComparisonIsStrictWeakOrder(before, order, sortValue, less);
    before
  }

  /** Comparing elements by a key under a strict weak order, in either direction,
      is again a strict weak order. */
  lemma KeyComparisonIsStrictWeakOrder<T(!new), K(!new)>(before: (T, T) -> bool, order: Order, sortValue: T -> K, less: (K, K) -> bool)
    requires forall a, b :: before(a, b) == KeyBefore(order, sortValue(a), sortValue(b), less)
    ensures StrictWeakOrder(less) ==> StrictWeakOrder(before)
  {
    if StrictWeakOrder(less) {
      forall x, y, z | !before(x, y) && !before(y, z)
        ensures !before(x, z)
      {
        var kx, ky, kz := sortValue(x), sortValue(y), sortValue(z);
        if order == Ascending {
          assert !less(kx, ky) && !less(ky, kz);
        } else {
          assert !less(kz, ky) && !less(ky, kx);
        }
      }
    }
  }

  /** Inserts `x` behind every element it is not strictly before. */
  function Insert<T(!new)>(x: T, s: seq<T>, before: (T, T) -> bool): (r: seq<T>)
    requires StrictWeakOrder(before)
    requires SortedBy(s, before)
    ensures SortedBy(r, before)
    ensures multiset(r) == multiset(s) + multiset{x}
  {
    if |s| == 0 then [x]
    else
      var init, last := s[..|s| - 1], s[|s| - 1];
      if !before(x, last) then
        AppendBehind(x, s, before);
        s + [x]
      else
        var front := Insert(x, init, before);
        AppendLast(front, init, x, last, before);
        assert s == init + [last];
        front + [last]
  }

  /** `x` may go last when it is not before the current last element. */
  lemma AppendBehind<T(!new)>(x: T, s: seq<T>, before: (T, T) -> bool)
    requires StrictWeakOrder(before)
    requires SortedBy(s, before)
    requires |s| > 0 && !before(x, s[|s| - 1])
    ensures SortedBy(s + [x], before)
  {
    var last := s[|s| - 1];
    forall i | 0 <= i < |s| ensures !before(x, s[i]) {
      if i < |s| - 1 {
        assert !before(last, s[i]);
      }
    }
  }

  /** The old last element stays last when `x` is before it and went in front. */
  lemma AppendLast<T(!new)>(front: seq<T>, init: seq<T>, x: T, last: T, before: (T, T) -> bool)
    requires StrictWeakOrder(before)
    requires SortedBy(front, before) && SortedBy(init + [last], before)
    requires multiset(front) == multiset(init) + multiset{x}
    requires before(x, last)
    ensures SortedBy(front + [last], before)
  {
    assert (init + [last])[|init|] == last;
    forall i | 0 <= i < |front| ensures !before(last, front[i]) {
      var e := front[i];
      assert e in multiset(front);
      if e != x {
        assert e in multiset(init);
        var j :| 0 <= j < |init| && init[j] == e;
        assert (init + [last])[j] == e;
      }
    }
  }

  /** Insertion sort: a stable sort, one of the results Swift's `sorted(by:)` may give. */
  function SortWith<T(!new)>(s: seq<T>, before: (T, T) -> bool): (r: seq<T>)
    requires StrictWeakOrder(before)
    ensures SortedBy(r, before)
    ensures multiset(r) == multiset(s)
  {
    if |s| == 0 then []
    else
      assert s == s[..|s| - 1] + [s[|s| - 1]];
      Insert(s[|s| - 1], SortWith(s[..|s| - 1], before), before)
  }

  /** `sorted(order:byValue:)`: a permutation whose sort values ascend or descend. */
  function Sorted<T(!new), K(!new)>(s: seq<T>, order: Order := Ascending, sortValue: T -> K, less: (K, K) -> bool): (r: seq<T>)
    requires StrictWeakOrder(less)
    ensures multiset(r) == multiset(s)
    ensures order == Ascending ==>
      forall i, j :: 0 <= i < j < |r| ==> !less(sortValue(r[j]), sortValue(r[i]))
    ensures order == Descending ==>
      forall i, j :: 0 <= i < j < |r| ==> !less(sortValue(r[i]), sortValue(r[j]))
  {
    var r := SortWith(s, Comparator(order, sortValue, less));
    assert forall i, j :: 0 <= i < j < |r| ==> !Comparator(order, sortValue, less)(r[j], r[i]);
    r
  }

  /** `sorted(order:by:)`: sorting by a key path is sorting by the closure that reads it. */
  function SortedByKeyPath<T(!new), K(!new)>(s: seq<T>, order: Order := Ascending, keyPath: T -> K, less: (K, K) -> bool): (r: seq<T>)
    requires StrictWeakOrder(less)
    ensures r == Sorted(s, order, keyPath, less)
  {
    var read := (e: T) => keyPath(e);
    SortWithCongruent(s, Comparator(order, read, less), Comparator(order, keyPath, less));
    Sorted(s, order, read, less)
  }

  /** Inserting depends only on the values of the sort predicate, not on how it is written. */
  lemma {:induction false} InsertCongruent<T(!new)>(x: T, s: seq<T>, b1: (T, T) -> bool, b2: (T, T) -> bool)
    requires StrictWeakOrder(b1) && StrictWeakOrder(b2)
    requires forall y, z :: b1(y, z) == b2(y, z)
    requires SortedBy(s, b1) && SortedBy(s, b2)
    ensures Insert(x, s, b1) == Insert(x, s, b2)
  {
    if |s| > 0 {
      InsertCongruent(x, s[..|s| - 1], b1, b2);
    }
  }

  /** Sorting depends only on the values of the sort predicate, not on how it is written. */
  lemma {:induction false} SortWithCongruent<T(!new)>(s: seq<T>, b1: (T, T) -> bool, b2: (T, T) -> bool)
    requires StrictWeakOrder(b1) && StrictWeakOrder(b2)
    requires forall y, z :: b1(y, z) == b2(y, z)
    ensures SortWith(s, b1) == SortWith(s, b2)
  {
    if |s| > 0 {
      var init := s[..|s| - 1];
      SortWithCongruent(init, b1, b2);
      var sorted := SortWith(init, b1);
      assert SortedBy(sorted, b2);
      InsertCongruent(s[|s| - 1], sorted, b1, b2);
    }
  }

  /** `sort(order:byValue:)` on an array of `Comparable` elements: the array
      becomes what `sorted(order:byValue:)` returns. */
  method Sort<T(!new)>(s: seq<T>, order: Order := Ascending, sortValue: T -> T, less: (T, T) -> bool) returns (r: seq<T>)
    requires StrictWeakOrder(less)
    ensures r == Sorted(s, order, sortValue, less)
    ensures multiset(r) == multiset(s)
    ensures order == Ascending ==>
      forall i, j :: 0 <= i < j < |r| ==> !less(sortValue(r[j]), sortValue(r[i]))
    ensures order == Descending ==>
      forall i, j :: 0 <= i < j < |r| ==> !less(sortValue(r[i]), sortValue(r[j]))
  {
    r := Sorted(s, order, sortValue, less);
  }

  /** `sort(order:by:)`: the array becomes what `sorted(order:by:)` returns. */
  method SortByKeyPath<T(!new)>(s: seq<T>, order: Order := Ascending, keyPath: T -> T, less: (T, T) -> bool) returns (r: seq<T>)
    requires StrictWeakOrder(less)
    ensures r == SortedByKeyPath(s, order, keyPath, less)
    ensures multiset(r) == multiset(s)
    ensures order == Ascending ==>
      forall i, j :: 0 <= i < j < |r| ==> !less(keyPath(r[j]), keyPath(r[i]))
    ensures order == Descending ==>
      forall i, j :: 0 <= i < j < |r| ==> !less(keyPath(r[i]), keyPath(r[j]))
  {
    r := SortedByKeyPath(s, order, keyPath, less);
  }

  // ---------------------------------------------------------------------------
  // unique

  /** `unique`, that is `Array(Set(self))`: every distinct element exactly once.
      The order of a `Set` is unspecified; this model keeps first occurrences. */
  function Unique<T(==,!new)>(s: seq<T>): (r: seq<T>)
    ensures forall x :: x in r <==> x in s
    ensures forall x :: multiset(r)[x] == if x in s then 1 else 0
  {
    if |s| == 0 then []
    else
      var init, last := s[..|s| - 1], s[|s| - 1];
      assert s == init + [last];
      var rest := Unique(init);
      if last in rest then rest else rest + [last]
  }

  /** The distinct elements of `s`. */
  ghost function Elements<T>(s: seq<T>): set<T> {
    set x | x in s
  }

  /** Appending one element adds it to the distinct elements. */
  lemma ElementsAppend<T>(init: seq<T>, last: T)
    ensures Elements(init + [last]) == Elements(init) + {last}
  {
    assert forall x :: x in init + [last] <==> x in init || x == last;
  }

  /** One step of `Unique`: the last element is appended unless it occurred before. */
  lemma UniqueStep<T(!new)>(s: seq<T>)
    requires |s| > 0
    ensures Unique(s) == Unique(s[..|s| - 1]) + if s[|s| - 1] in s[..|s| - 1] then [] else [s[|s| - 1]]
  {
    var init, last := s[..|s| - 1], s[|s| - 1];
    assert last in Unique(init) <==> last in init;
  }

  /** Adding an element to a set grows it by one exactly when the element is new. */
  lemma CardinalityInsert<T>(e: set<T>, x: T)
    ensures |e + {x}| == if x in e then |e| else |e| + 1
  {
    if x in e {
      assert e + {x} == e;
    }
  }

  /** `unique` has as many elements as the array has distinct elements. */
  lemma {:induction false} UniqueCardinality<T(!new)>(s: seq<T>)
    ensures |Unique(s)| == |Elements(s)|
  {
    if |s| > 0 {
      var init, last := s[..|s| - 1], s[|s| - 1];
      assert s == init + [last];
      UniqueCardinality(init);
      UniqueStep(s);
      ElementsAppend(init, last);
      CardinalityInsert(Elements(init), last);
      assert last in init <==> last in Elements(init);
    }
  }
}
