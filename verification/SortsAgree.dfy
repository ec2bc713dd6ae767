/** What the five sorting modules say together. */
module SortsAgree {
  import opened Ordering
  import opened InsertionSort
  import opened HoarePartition
  import opened QuickSort
  import opened MergeSort
  import opened CountingSort
  import opened RadixSort
  import opened Arithmetic

  lemma {:induction false} ReverseElements<T>(s: seq<T>)
    ensures multiset(Reverse(s)) == multiset(s)
  {
    if s != [] {
      ReverseElements(s[1..]);
      assert s == [s[0]] + s[1..];
    }
  }

  /** The merge sort leaves a sorted permutation in which elements that tie stand in exactly the
      reverse of their input order, and no other sequence is like that. */
  lemma MergeSortReversesTies<T(!new)>(compare: (T, T) -> int, s: seq<T>, t: seq<T>)
    requires TotalPreorder(compare)
    ensures StableSortOf(compare, Reverse(s), t)
       <==> Sorted(compare, t) && forall x :: Class(compare, t, x) == Reverse(Class(compare, s, x))
    ensures StableSortOf(compare, Reverse(s), t) ==> multiset(t) == multiset(s)
    ensures forall u :: StableSortOf(compare, Reverse(s), t) && StableSortOf(compare, Reverse(s), u) ==> t == u
  {
    forall x ensures Class(compare, Reverse(s), x) == Reverse(Class(compare, s, x)) {
      FilterReverse(s, Ties(compare, x));
    }
    ReverseElements(s);
    if StableSortOf(compare, Reverse(s), t) {
      StableSortUnique(compare, Reverse(s), t, t);
    }
    forall u | StableSortOf(compare, Reverse(s), t) && StableSortOf(compare, Reverse(s), u) ensures t == u {
      StableSortUnique(compare, Reverse(s), t, u);
    }
  }

  /** The result is the stable sort exactly when every class of ties reads the same backwards. */
  lemma MergeSortStableIff<T(!new)>(compare: (T, T) -> int, s: seq<T>, t: seq<T>)
    requires TotalPreorder(compare) && StableSortOf(compare, Reverse(s), t)
    ensures StableSortOf(compare, s, t) <==> forall x :: Reverse(Class(compare, s, x)) == Class(compare, s, x)
  {
    hide Class;
    MergeSortReversesTies(compare, s, t);
    if StableSortOf(compare, s, t) {
      forall x ensures Reverse(Class(compare, s, x)) == Class(compare, s, x) {
        assert Class(compare, s, x) == Class(compare, t, x);
      }
    }
    if forall x :: Reverse(Class(compare, s, x)) == Class(compare, s, x) {
      forall x ensures Class(compare, s, x) == Class(compare, t, x) {
        assert Class(compare, t, x) == Reverse(Class(compare, s, x));
      }
    }
  }

  function ByFirst(): ((int, int), (int, int)) -> int {
    (x: (int, int), y: (int, int)) => x.0 - y.0
  }

  /** So two different elements that tie change places. */
  lemma MergeSortUnstable(t: seq<(int, int)>)
    requires StableSortOf(ByFirst(), Reverse([(0, 1), (0, 2)]), t)
    ensures t == [(0, 2), (0, 1)] && !StableSortOf(ByFirst(), [(0, 1), (0, 2)], t)
  {
    var s := [(0, 1), (0, 2)];
    forall x, y, z | Chain(ByFirst(), x, y, z) ensures ByFirst()(x, z) <= 0 {
      assert ByFirst()(x, y) <= 0 && ByFirst()(y, z) <= 0;
    }
    assert s[1..] == [(0, 2)] && [(0, 2)][1..] == [];
    assert Reverse(s) == [(0, 2), (0, 1)];
    assert StableSortOf(ByFirst(), Reverse(s), Reverse(s));
    StableSortUnique(ByFirst(), Reverse(s), Reverse(s), t);
    assert Ties(ByFirst(), (0, 0))((0, 1)) && Ties(ByFirst(), (0, 0))((0, 2));
    assert Class(ByFirst(), s, (0, 0)) == s;
    MergeSortStableIff(ByFirst(), s, t);
  }

  /** Whatever the five sorts may leave, given what each promises, on integers in [0, min(k, base^p))
      it is the same. */
  lemma SortsAgreeOnSmallInts(s: seq<int>, k: nat, base: nat, p: nat, byInsertion: seq<int>, byMerging: seq<int>,
                              byPartition: seq<int>, byCounting: seq<int>, byRadix: seq<int>)
    requires base >= 1
    requires forall i :: 0 <= i < |s| ==> 0 <= s[i] < k && s[i] < Pow(base, p)
    requires StableSortOf(CompareInt, s, byInsertion)
    requires StableSortOf(CompareInt, Reverse(s), byMerging)
    requires forall i, j :: 0 <= i < j < |byPartition| ==> CompareInt(byPartition[i], byPartition[j]) <= 0
    requires multiset(byPartition) == multiset(s)
    requires StableSortOf(CompareInt, s, byCounting)
    requires StableSortOf(ByKey(LowDigits(base, p)), s, byRadix)
    ensures byInsertion == byMerging == byPartition == byCounting == byRadix
  {
    hide StableSortOf, Class;
    IntOrder();
    SortedBelowPower(base, p, s, byRadix);
    StableSortUnique(CompareInt, s, byInsertion, byCounting);
    StableSortUnique(CompareInt, s, byInsertion, byRadix);
    MergeSortReversesTies(CompareInt, s, byMerging);
    StableIsSorted(s, byInsertion);
    SortedIntsUnique(byInsertion, byMerging);
    SortedIntsUnique(byInsertion, byPartition);
  }

  lemma StableIsSorted(s: seq<int>, t: seq<int>)
    requires StableSortOf(CompareInt, s, t)
    ensures Sorted(CompareInt, t) && multiset(s) == multiset(t)
  {
    IntOrder();
    SameClassesSameElements(CompareInt, s, t);
  }

  lemma Bounded(s: seq<int>, t: seq<int>, k: nat, base: nat, p: nat)
    requires s == t && forall i :: 0 <= i < |s| ==> 0 <= s[i] < k && s[i] < Pow(base, p)
    ensures forall i :: 0 <= i < |t| ==> 0 <= t[i] < k
  {
  }

  /** Two of the sorts, which work on whole arrays of bounded integers. */
  method CountAndRadix(d: array<int>, e: array<int>, k: nat, base: nat, p: nat)
    requires d != e && d[..] == e[..] && base >= 1
    requires forall i :: 0 <= i < |d[..]| ==> 0 <= d[..][i] < k
    modifies d, e
    ensures StableSortOf(CompareInt, old(d[..]), d[..])
    ensures StableSortOf(ByKey(LowDigits(base, p)), old(d[..]), e[..])
  {
    hide *;
    assert forall j :: 0 <= j < d.Length ==> d[j] == d[..][j];
    assert forall j :: 0 <= j < e.Length ==> e[j] == d[..][j];
    ghost var slots := CtSort(d, k);
    RxSort(e, p, base);
  }

  /** Equal arrays are equal again after each has gone through another sort, if the quicksort ends. */
  method RunAll(a: array<int>, b: array<int>, c: array<int>, d: array<int>, e: array<int>,
                k: nat, base: nat, p: nat, rng: Rand, patience: nat) returns (finished: bool)
    requires a != b && a != c && a != d && a != e && b != c && b != d && b != e && c != d && c != e && d != e
    requires a[..] == b[..] == c[..] == d[..] == e[..]
    requires base >= 1
    requires forall i :: 0 <= i < |a[..]| ==> 0 <= a[..][i] < k && a[..][i] < Pow(base, p)
    modifies a, b, c, d, e, rng
    ensures TotalPreorder(CompareInt)
    ensures finished == RunOf(CompareInt, old(c[..]), 0, |old(c[..])| - 1, rng.stream, old(rng.pos), patience).finished
    ensures finished ==> a[..] == b[..] == c[..] == d[..] == e[..]
    ensures StableSortOf(CompareInt, old(a[..]), a[..])
  {
    hide *;
    ghost var s := a[..];
    IntOrder();
    Bounded(s, d[..], k, base, p);
    Issort(CompareInt, a);
    MgSort(CompareInt, b, 0, b.Length - 1);
    var left;
    finished, left := QkSort(CompareInt, c, 0, c.Length - 1, rng, patience);
    CountAndRadix(d, e, k, base, p);
    assert |s| == b.Length == c.Length;
    assert s[0..|s|] == s && b[0..b.Length] == b[..];
    ArrangedMeans(CompareInt, s, c[..], 0, |s| - 1);
    if finished {
      SortsAgreeOnSmallInts(s, k, base, p, a[..], b[..], c[..], d[..], e[..]);
    }
  }
}
