/** Radix sort of algolib/source/rxsort.c: p stable passes, one per base-k digit, lowest digit first. */
module RadixSort {
  import opened Ordering
  import opened CountingSort
  import opened Arithmetic

  /** Base-k digit n of a value. */
  function Digit(k: nat, n: nat): int -> int
    requires k >= 1
  {
    PowPositive(k, n);
    var p := Pow(k, n);
    x => x / p % k
  }

  /** What the digits below n make of a value. */
  function LowDigits(k: nat, n: nat): int -> int
    requires k >= 1
  {
    PowPositive(k, n);
    var p := Pow(k, n);
    x => x % p
  }

  /** h orders like g first and f second. */
  ghost predicate Lexicographic(g: int -> int, f: int -> int, h: int -> int) {
    forall x, y :: h(x) <= h(y) <==> g(x) < g(y) || (g(x) == g(y) && f(x) <= f(y))
  }

  lemma DigitAdded(k: nat, n: nat, x: int)
    requires k >= 1
    ensures 0 <= LowDigits(k, n)(x) < Pow(k, n)
    ensures LowDigits(k, n + 1)(x) == Digit(k, n)(x) * Pow(k, n) + LowDigits(k, n)(x)
  {
    PowPositive(k, n);
    SplitDigit(x, Pow(k, n), k);
  }

  lemma DigitsLexicographic(k: nat, n: nat)
    requires k >= 1
    ensures Lexicographic(Digit(k, n), LowDigits(k, n), LowDigits(k, n + 1))
  {
    hide Digit, LowDigits;
    forall x, y
      ensures LowDigits(k, n + 1)(x) <= LowDigits(k, n + 1)(y)
         <==> (Digit(k, n)(x) < Digit(k, n)(y)
            || (Digit(k, n)(x) == Digit(k, n)(y) && LowDigits(k, n)(x) <= LowDigits(k, n)(y)))
    {
      DigitAdded(k, n, x);
      DigitAdded(k, n, y);
      LexicographicSum(Pow(k, n), Digit(k, n)(x), LowDigits(k, n)(x), Digit(k, n)(y), LowDigits(k, n)(y));
    }
  }

  lemma BucketSplits(g: int -> int, f: int -> int, h: int -> int, s: seq<int>, x: int)
    requires Lexicographic(g, f, h)
    ensures Bucket(s, h, h(x)) == Bucket(Bucket(s, g, g(x)), f, f(x))
    ensures Bucket(s, h, h(x)) == Bucket(Bucket(s, f, f(x)), g, g(x))
  {
    forall y ensures Keyed(h, h(x))(y) == (Keyed(g, g(x))(y) && Keyed(f, f(x))(y)) {
      assert h(x) <= h(y) && h(y) <= h(x) <==> h(x) == h(y);
    }
    FilterFilter(s, Keyed(g, g(x)), Keyed(f, f(x)), Keyed(h, h(x)));
    FilterFilter(s, Keyed(f, f(x)), Keyed(g, g(x)), Keyed(h, h(x)));
  }

  lemma SameBuckets(key: int -> int, s: seq<int>, t: seq<int>, x: int)
    requires SameClasses(ByKey(key), s, t)
    ensures Bucket(s, key, key(x)) == Bucket(t, key, key(x))
  {
    ClassIsBucket(s, key, x);
    ClassIsBucket(t, key, x);
    assert Class(ByKey(key), s, x) == Class(ByKey(key), t, x);
  }

  /** Elements that pass a filter stay in order through it. */
  lemma FilteredPair(compare: (int, int) -> int, s: seq<int>, p: int -> bool, i: nat, j: nat)
    requires i < j < |s| && p(s[i]) && p(s[j])
    requires Sorted(compare, Filter(s, p))
    ensures compare(s[i], s[j]) <= 0
  {
    hide Filter;
    var a, b := Filter(s[..i], p), Filter(s[i + 1..], p);
    assert s == s[..i] + ([s[i]] + s[i + 1..]);
    FilterConcat(s[..i], [s[i]] + s[i + 1..], p);
    FilterCons(s[i], s[i + 1..], p);
    assert Filter(s, p) == a + [s[i]] + b;
    assert s[j] == s[i + 1..][j - i - 1];
    FilterMember(s[i + 1..], p, s[j]);
    var m :| 0 <= m < |b| && b[m] == s[j];
    assert Filter(s, p)[|a|] == s[i] && Filter(s, p)[|a| + 1 + m] == s[j];
  }

  /** A stable pass by g over something stably sorted by f stably sorts by g first and f second. */
  lemma StablePasses(g: int -> int, f: int -> int, h: int -> int, s: seq<int>, mid: seq<int>, t: seq<int>)
    requires Lexicographic(g, f, h)
    requires StableSortOf(ByKey(f), s, mid) && StableSortOf(ByKey(g), mid, t)
    ensures StableSortOf(ByKey(h), s, t)
  {
    forall i, j | 0 <= i < j < |t| ensures ByKey(h)(t[i], t[j]) <= 0 {
      var x, y := t[i], t[j];
      assert ByKey(g)(x, y) <= 0;
      if g(x) == g(y) {
        SameBuckets(g, mid, t, x);
        FilterSorted(ByKey(f), mid, Keyed(g, g(x)));
        FilteredPair(ByKey(f), t, Keyed(g, g(x)), i, j);
        assert ByKey(f)(x, y) <= 0;
      }
      assert h(x) <= h(y);
    }
    forall x ensures Class(ByKey(h), s, x) == Class(ByKey(h), t, x) {
      hide *;
      ClassIsBucket(s, h, x);
      ClassIsBucket(t, h, x);
      BucketSplits(g, f, h, s, x);
      BucketSplits(g, f, h, mid, x);
      BucketSplits(g, f, h, t, x);
      SameBuckets(f, s, mid, x);
      SameBuckets(g, mid, t, x);
    }
  }

  lemma ZeroDigits(k: nat, s: seq<int>)
    requires k >= 1
    ensures StableSortOf(ByKey(LowDigits(k, 0)), s, s)
  {
    forall i, j | 0 <= i < j < |s| ensures ByKey(LowDigits(k, 0))(s[i], s[j]) <= 0 {
    }
  }

  lemma DigitsInRange(s: seq<int>, k: nat, n: nat)
    requires k >= 1
    ensures KeysIn(s, Digit(k, n), k)
  {
  }

  method RxSort(data: array<int>, p: nat, k: nat)
    requires k >= 1
    requires forall j :: 0 <= j < data.Length ==> 0 <= data[j]
    modifies data
    ensures StableSortOf(ByKey(LowDigits(k, p)), old(data[..]), data[..])
  {
    hide *;
    ghost var s := data[..];
    var counts := new int[k];
    var temp := new int[data.Length];
    ZeroDigits(k, s);
    for n := 0 to p
      invariant StableSortOf(ByKey(LowDigits(k, n)), s, data[..])
    {
      ghost var mid := data[..];
      DigitsInRange(mid, k, n);
      ghost var _ := CountingPass(data, counts, temp, k, Digit(k, n));
      DigitsLexicographic(k, n);
      StablePasses(Digit(k, n), LowDigits(k, n), LowDigits(k, n + 1), s, mid, data[..]);
    }
  }

  function HasRemainder(q: nat, r: int): int -> bool
    requires q >= 1
  {
    x => x % q == r
  }

  lemma RemainderClass(k: nat, p: nat, s: seq<int>, x: int)
    requires k >= 1
    ensures Pow(k, p) >= 1
    ensures Class(ByKey(LowDigits(k, p)), s, x) == Filter(s, HasRemainder(Pow(k, p), x % Pow(k, p)))
  {
    PowPositive(k, p);
    FilterCongruent(s, Ties(ByKey(LowDigits(k, p)), x), HasRemainder(Pow(k, p), x % Pow(k, p)));
  }

  /** That is to say, the elements come in the order of their remainders modulo k to the p, and those with the same
      remainder in their old order. */
  lemma OrderedByRemainder(k: nat, p: nat, s: seq<int>, t: seq<int>)
    requires k >= 1 && StableSortOf(ByKey(LowDigits(k, p)), s, t)
    ensures Pow(k, p) >= 1 && multiset(t) == multiset(s)
    ensures forall i, j :: 0 <= i < j < |t| ==> t[i] % Pow(k, p) <= t[j] % Pow(k, p)
    ensures forall x ::
      Filter(s, HasRemainder(Pow(k, p), x % Pow(k, p))) == Filter(t, HasRemainder(Pow(k, p), x % Pow(k, p)))
  {
    hide Filter, Class;
    PowPositive(k, p);
    ByKeyOrder(LowDigits(k, p));
    SameClassesSameElements(ByKey(LowDigits(k, p)), s, t);
    forall i, j | 0 <= i < j < |t| ensures t[i] % Pow(k, p) <= t[j] % Pow(k, p) {
      assert ByKey(LowDigits(k, p))(t[i], t[j]) <= 0;
    }
    forall x
      ensures Filter(s, HasRemainder(Pow(k, p), x % Pow(k, p))) == Filter(t, HasRemainder(Pow(k, p), x % Pow(k, p)))
    {
      RemainderClass(k, p, s, x);
      RemainderClass(k, p, t, x);
      assert Class(ByKey(LowDigits(k, p)), s, x) == Class(ByKey(LowDigits(k, p)), t, x);
    }
  }

  /** Input below k to the p is thus fully sorted. */
  lemma SortedBelowPower(k: nat, p: nat, s: seq<int>, t: seq<int>)
    requires k >= 1 && StableSortOf(ByKey(LowDigits(k, p)), s, t)
    requires forall i :: 0 <= i < |s| ==> 0 <= s[i] < Pow(k, p)
    ensures StableSortOf(CompareInt, s, t)
    ensures multiset(t) == multiset(s) && forall i, j :: 0 <= i < j < |t| ==> t[i] <= t[j]
  {
    hide LowDigits, Class;
    var low := LowDigits(k, p);
    ByKeyOrder(low);
    SameClassesSameElements(ByKey(low), s, t);
    forall i | 0 <= i < |t| ensures low(t[i]) == t[i] {
      assert t[i] in multiset(t);
      var m :| 0 <= m < |s| && s[m] == t[i];
      LowDigitsBelow(k, p, t[i]);
    }
    forall i, j | 0 <= i < j < |t| ensures CompareInt(t[i], t[j]) <= 0 {
      assert ByKey(low)(t[i], t[j]) <= 0;
    }
    IntPermutationSameClasses(s, t);
  }

  lemma LowDigitsBelow(k: nat, p: nat, x: int)
    requires k >= 1 && 0 <= x < Pow(k, p)
    ensures LowDigits(k, p)(x) == x
  {
    PowPositive(k, p);
    DivMod(x, Pow(k, p), 0, x);
  }
}
