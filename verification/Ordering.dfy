/**
 Orderings given by a three-way comparison, and what it means for one sequence to be
 the stable sort of another. Every sorting module states its result with these.
 */
module Ordering {

  /** What the sorts demand of the comparison they are given: a total preorder.
      Distinct elements may compare equal. */
  ghost predicate TotalPreorder<T(!new)>(compare: (T, T) -> int) {
    && (forall x, y :: compare(x, y) > 0 <==> compare(y, x) < 0)
    && (forall x, y, z :: Chain(compare, x, y, z) ==> compare(x, z) <= 0)
  }

  ghost predicate Chain<T>(compare: (T, T) -> int, x: T, y: T, z: T) {
    compare(x, y) <= 0 && compare(y, z) <= 0
  }

  ghost predicate Sorted<T>(compare: (T, T) -> int, s: seq<T>) {
    forall i, j :: 0 <= i < j < |s| ==> compare(s[i], s[j]) <= 0
  }

  lemma SortedSlice<T>(compare: (T, T) -> int, s: seq<T>, from: nat)
    requires Sorted(compare, s) && from <= |s|
    ensures Sorted(compare, s[from..])
  {
  }

  function Filter<T>(s: seq<T>, p: T -> bool): seq<T> {
    if s == [] then []
    else if p(s[0]) then [s[0]] + Filter(s[1..], p)
    else Filter(s[1..], p)
  }

  function Ties<T>(compare: (T, T) -> int, x: T): T -> bool {
    y => compare(y, x) == 0
  }

  /** The elements of `s` that tie with `x`, in the order in which they stand in `s`. */
  function Class<T>(compare: (T, T) -> int, s: seq<T>, x: T): seq<T> {
    Filter(s, Ties(compare, x))
  }

  ghost predicate SameClasses<T(!new)>(compare: (T, T) -> int, s: seq<T>, t: seq<T>) {
    forall x :: Class(compare, s, x) == Class(compare, t, x)
  }

  /** `output` is sorted, and elements that tie stand in it in their order in `input`. */
  ghost predicate StableSortOf<T(!new)>(compare: (T, T) -> int, input: seq<T>, output: seq<T>) {
    Sorted(compare, output) && SameClasses(compare, input, output)
  }

  function Reverse<T>(s: seq<T>): seq<T> {
    if s == [] then [] else Reverse(s[1..]) + [s[0]]
  }

  // ----- filters

  lemma {:induction false} FilterConcat<T>(s: seq<T>, t: seq<T>, p: T -> bool)
    ensures Filter(s + t, p) == Filter(s, p) + Filter(t, p)
  {
    if s == [] {
      assert s + t == t;
    } else {
      assert (s + t)[1..] == s[1..] + t;
      FilterConcat(s[1..], t, p);
    }
  }

  lemma FilterCons<T>(x: T, s: seq<T>, p: T -> bool)
    ensures Filter([x] + s, p) == (if p(x) then [x] else []) + Filter(s, p)
  {
    assert ([x] + s)[1..] == s;
  }

  lemma {:induction false} FilterMember<T>(s: seq<T>, p: T -> bool, x: T)
    ensures x in Filter(s, p) <==> x in s && p(x)
  {
    if s != [] {
      assert s == [s[0]] + s[1..];
      FilterMember(s[1..], p, x);
    }
  }

  lemma {:induction false} FilterCount<T>(s: seq<T>, p: T -> bool, x: T)
    ensures multiset(Filter(s, p))[x] == if p(x) then multiset(s)[x] else 0
  {
    if s != [] {
      assert s == [s[0]] + s[1..];
      FilterCount(s[1..], p, x);
    }
  }

  lemma {:induction false} FilterCongruent<T>(s: seq<T>, p: T -> bool, q: T -> bool)
    requires forall x :: x in s ==> p(x) == q(x)
    ensures Filter(s, p) == Filter(s, q)
  {
    if s != [] {
      FilterCongruent(s[1..], p, q);
    }
  }

  lemma {:induction false} FilterNone<T>(s: seq<T>, p: T -> bool)
    requires forall x :: x in s ==> !p(x)
    ensures Filter(s, p) == []
  {
    if s != [] {
      FilterNone(s[1..], p);
    }
  }

  /** Filtering twice keeps exactly what passes both tests. */
  lemma {:induction false} FilterFilter<T>(s: seq<T>, p: T -> bool, q: T -> bool, both: T -> bool)
    requires forall x :: x in s ==> both(x) == (p(x) && q(x))
    ensures Filter(Filter(s, p), q) == Filter(s, both)
  {
    if s != [] {
      FilterFilter(s[1..], p, q, both);
    }
  }

  lemma {:induction false} FilterSorted<T>(compare: (T, T) -> int, s: seq<T>, p: T -> bool)
    requires Sorted(compare, s)
    ensures Sorted(compare, Filter(s, p))
  {
    if s != [] {
      var rest := Filter(s[1..], p);
      FilterSorted(compare, s[1..], p);
      forall i | 0 <= i < |rest| ensures compare(s[0], rest[i]) <= 0 {
        FilterMember(s[1..], p, rest[i]);
      }
    }
  }

  /** The elements of t are those of s at the positions `at`, in their order. */
  ghost predicate PickedFrom<T>(s: seq<T>, t: seq<T>, at: seq<nat>) {
    && |at| == |t| && (forall i, j :: 0 <= i < j < |at| ==> at[i] < at[j])
    && (forall i :: 0 <= i < |at| ==> at[i] < |s| && t[i] == s[at[i]])
  }

  /** A filter picks exactly the elements that pass the test. */
  lemma {:induction false} FilterPicks<T>(s: seq<T>, p: T -> bool) returns (at: seq<nat>)
    ensures PickedFrom(s, Filter(s, p), at)
    ensures forall m: nat :: m in at <==> m < |s| && p(s[m])
  {
    if s == [] {
      at := [];
    } else {
      var last := |s| - 1;
      var at' := FilterPicks(s[..last], p);
      assert s == s[..last] + [s[last]];
      FilterConcat(s[..last], [s[last]], p);
      FilterCons(s[last], [], p);
      assert [s[last]] + [] == [s[last]];
      at := at' + if p(s[last]) then [last] else [];
      forall m: nat ensures m in at <==> m < |s| && p(s[m]) {
        assert m in at <==> m in at' || (m == last && p(s[last]));
      }
    }
  }

  // ----- reversal

  lemma {:induction false} ReadsBackwards<T>(s: seq<T>)
    ensures |Reverse(s)| == |s|
    ensures forall k :: 0 <= k < |s| ==> Reverse(s)[k] == s[|s| - 1 - k]
  {
    if s != [] {
      ReadsBackwards(s[1..]);
    }
  }

  lemma {:induction false} ReverseConcat<T>(s: seq<T>, t: seq<T>)
    ensures Reverse(s + t) == Reverse(t) + Reverse(s)
  {
    if s == [] {
      assert s + t == t;
    } else {
      assert (s + t)[1..] == s[1..] + t;
      ReverseConcat(s[1..], t);
    }
  }

  lemma {:induction false} FilterReverse<T>(s: seq<T>, p: T -> bool)
    ensures Filter(Reverse(s), p) == Reverse(Filter(s, p))
  {
    if s != [] {
      FilterReverse(s[1..], p);
      FilterConcat(Reverse(s[1..]), [s[0]], p);
      assert [s[0]][1..] == [];
      if p(s[0]) {
        ReverseConcat([s[0]], Filter(s[1..], p));
      }
    }
  }

  // ----- stable sorts are unique permutations

  lemma SameClassesSameElements<T(!new)>(compare: (T, T) -> int, s: seq<T>, t: seq<T>)
    requires TotalPreorder(compare) && SameClasses(compare, s, t)
    ensures multiset(s) == multiset(t) && |s| == |t|
  {
    forall x: T ensures multiset(s)[x] == multiset(t)[x] {
      FilterCount(s, Ties(compare, x), x);
      FilterCount(t, Ties(compare, x), x);
      assert Class(compare, s, x) == Class(compare, t, x);
    }
    assert |s| == |multiset(s)| && |t| == |multiset(t)|;
  }

  lemma SortedHeadBelow<T(!new)>(compare: (T, T) -> int, s: seq<T>, t: seq<T>)
    requires TotalPreorder(compare) && Sorted(compare, s)
    requires s != [] && t != [] && SameClasses(compare, s, t)
    ensures compare(s[0], t[0]) <= 0
  {
    FilterMember(t, Ties(compare, t[0]), t[0]);
    var e := Class(compare, t, t[0])[0];
    assert Class(compare, s, t[0]) == Class(compare, t, t[0]);
    FilterMember(s, Ties(compare, t[0]), e);
    var i :| 0 <= i < |s| && s[i] == e;
    assert !(compare(e, e) > 0);
    assert compare(s[0], e) <= 0 && compare(e, t[0]) == 0;
    assert Chain(compare, s[0], e, t[0]);
  }

  lemma SameClassesTail<T(!new)>(compare: (T, T) -> int, s: seq<T>, t: seq<T>)
    requires s != [] && t != [] && s[0] == t[0] && SameClasses(compare, s, t)
    ensures SameClasses(compare, s[1..], t[1..])
  {
    forall x ensures Class(compare, s[1..], x) == Class(compare, t[1..], x) {
      assert Class(compare, s, x) == Class(compare, t, x);
      var head := if Ties(compare, x)(s[0]) then [s[0]] else [];
      assert Class(compare, s, x) == head + Class(compare, s[1..], x);
      assert Class(compare, t, x) == head + Class(compare, t[1..], x);
      assert Class(compare, s[1..], x) == Class(compare, s, x)[|head|..];
      assert Class(compare, t[1..], x) == Class(compare, t, x)[|head|..];
    }
  }

  /** Sortedness and the order within every class leave no freedom at all. */
  lemma {:induction false} SortedClassesUnique<T(!new)>(compare: (T, T) -> int, s: seq<T>, t: seq<T>)
    requires TotalPreorder(compare)
    requires Sorted(compare, s) && Sorted(compare, t) && SameClasses(compare, s, t)
    ensures s == t
  {
    SameClassesSameElements(compare, s, t);
    if s != [] {
      SortedHeadBelow(compare, s, t);
      SortedHeadBelow(compare, t, s);
      assert Class(compare, s, s[0]) == Class(compare, t, s[0]);
      assert Ties(compare, s[0])(s[0]) && Ties(compare, s[0])(t[0]);
      assert s[0] == Class(compare, s, s[0])[0] == Class(compare, t, s[0])[0] == t[0];
      SameClassesTail(compare, s, t);
      SortedClassesUnique(compare, s[1..], t[1..]);
      assert s == [s[0]] + s[1..] && t == [t[0]] + t[1..];
    }
  }

  lemma StableSortUnique<T(!new)>(compare: (T, T) -> int, input: seq<T>, s: seq<T>, t: seq<T>)
    requires TotalPreorder(compare)
    requires StableSortOf(compare, input, s) && StableSortOf(compare, input, t)
    ensures s == t && multiset(s) == multiset(input) && |s| == |input|
  {
    SameClassesSameElements(compare, input, s);
    SortedClassesUnique(compare, s, t);
  }

  // ----- integers

  function CompareInt(x: int, y: int): int {
    if x > y then 1 else if x < y then -1 else 0
  }

  lemma IntOrder()
    ensures TotalPreorder(CompareInt)
  {
    forall x, y, z | Chain(CompareInt, x, y, z) ensures CompareInt(x, z) <= 0 {
    }
  }

  lemma {:induction false} IntClassIsRun(s: seq<int>, x: int)
    ensures |Class(CompareInt, s, x)| == multiset(s)[x]
    ensures forall y :: y in Class(CompareInt, s, x) ==> y == x
  {
    if s != [] {
      assert s == [s[0]] + s[1..];
      IntClassIsRun(s[1..], x);
      assert Ties(CompareInt, x)(s[0]) <==> s[0] == x;
    }
  }

  /** Equal integers cannot be told apart, so a permutation already has the same classes. */
  lemma IntPermutationSameClasses(s: seq<int>, t: seq<int>)
    requires multiset(s) == multiset(t)
    ensures SameClasses(CompareInt, s, t)
  {
    forall x ensures Class(CompareInt, s, x) == Class(CompareInt, t, x) {
      IntClassIsRun(s, x);
      IntClassIsRun(t, x);
      var m, n := Class(CompareInt, s, x), Class(CompareInt, t, x);
      assert |m| == |n|;
      forall i | 0 <= i < |m| ensures m[i] == n[i] {
        assert m[i] in m && n[i] in n;
      }
    }
  }

  lemma SortedIntsUnique(s: seq<int>, t: seq<int>)
    requires Sorted(CompareInt, s) && Sorted(CompareInt, t)
    requires multiset(s) == multiset(t)
    ensures s == t
  {
    IntOrder();
    IntPermutationSameClasses(s, t);
    SortedClassesUnique(CompareInt, s, t);
  }
}
