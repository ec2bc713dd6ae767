/** The partition of algolib/source/qksort.c: Hoare's, around a random pivot. */
module HoarePartition {
  import opened Ordering
  import opened InsertionSort
  import opened Arithmetic

  /** The C library generator: an arbitrary infinite stream of values and the position in it. */
  class Rand {
    const stream: nat -> nat
    var pos: nat

    constructor (stream: nat -> nat)
      ensures this.stream == stream && pos == 0
    {
      this.stream := stream;
      pos := 0;
    }

    method Next() returns (value: nat)
      modifies this
      ensures value == stream(old(pos)) && pos == old(pos) + 1
    {
      value := stream(pos);
      pos := pos + 1;
    }
  }

  ghost predicate AllAtMost<T>(compare: (T, T) -> int, s: seq<T>, lo: nat, hi: nat, p: T)
    requires hi <= |s|
  {
    forall m :: lo <= m < hi ==> compare(s[m], p) <= 0
  }

  ghost predicate AllAtLeast<T>(compare: (T, T) -> int, s: seq<T>, lo: nat, hi: nat, p: T)
    requires hi <= |s|
  {
    forall m :: lo <= m < hi ==> compare(s[m], p) >= 0
  }

  /** The pivot draw that makes no progress: the last slot of [lo, hi], holding a strict maximum. */
  ghost predicate Stalls<T>(compare: (T, T) -> int, s: seq<T>, lo: nat, hi: nat, r: nat)
    requires hi < |s|
  {
    r == hi && forall m :: lo <= m < hi ==> compare(s[m], s[hi]) < 0
  }

  function Median(x: int, y: int, z: int): int {
    if x <= y then (if y <= z then y else if x <= z then z else x)
    else (if x <= z then x else if y <= z then z else y)
  }

  lemma SwapKeepsElements<T>(s: seq<T>, i: nat, j: nat)
    requires i < |s| && j < |s|
    ensures multiset(s[i := s[j]][j := s[i]]) == multiset(s)
  {
  }

  lemma {:induction false} SortedTripleMiddle(s: seq<int>, t: seq<int>)
    requires |s| == 3 && Sorted(CompareInt, t) && multiset(s) == multiset(t)
    ensures |t| == 3 && t[1] == Median(s[0], s[1], s[2])
    decreases (if s[0] > s[1] then 1 else 0) + (if s[1] > s[2] then 1 else 0) + (if s[0] > s[2] then 1 else 0)
  {
    hide Sorted;
    if s[0] > s[1] {
      SwapKeepsElements(s, 0, 1);
      SortedTripleMiddle(s[0 := s[1]][1 := s[0]], t);
    } else if s[1] > s[2] {
      SwapKeepsElements(s, 1, 2);
      SortedTripleMiddle(s[1 := s[2]][2 := s[1]], t);
    } else {
      SortedTripleUnique(s, t);
    }
  }

  lemma SortedTripleUnique(s: seq<int>, t: seq<int>)
    requires |s| == 3 && s[0] <= s[1] <= s[2]
    requires Sorted(CompareInt, t) && multiset(s) == multiset(t)
    ensures s == t
  {
    SortedIntsUnique(s, t);
  }

  /** Index in [lo, hi] made of a value of the generator. */
  function Drawn(lo: nat, hi: nat, value: nat): nat
    requires lo <= hi
  {
    value % (hi - lo + 1) + lo
  }

  /** The pivot index that the three draws from position `at` on give: their median. */
  function PivotAt(lo: nat, hi: nat, stream: nat -> nat, at: nat): (r: nat)
    requires lo <= hi
    ensures lo <= r <= hi
  {
    Median(Drawn(lo, hi, stream(at)), Drawn(lo, hi, stream(at + 1)), Drawn(lo, hi, stream(at + 2)))
  }

  /** A draw lies in the range, as far behind its start as the value is, up to whole ranges. */
  lemma DrawnFacts(lo: nat, hi: nat, value: nat)
    requires lo <= hi
    ensures lo <= Drawn(lo, hi, value) <= hi
    ensures (Drawn(lo, hi, value) - lo - value) % (hi - lo + 1) == 0
  {
    var n := hi - lo + 1;
    DivFacts(value, n);
    DivMod(value % n - value, n, -(value / n), 0);
  }

  /** Among x, y and z there is m, two of them are at most m, and two are at least m. */
  ghost predicate InTheMiddle(m: int, x: int, y: int, z: int) {
    && (m == x || m == y || m == z)
    && ((x <= m && y <= m) || (x <= m && z <= m) || (y <= m && z <= m))
    && ((m <= x && m <= y) || (m <= x && m <= z) || (m <= y && m <= z))
  }

  /** The pivot is the middle one of the three values of the stream, each reduced to the range. */
  lemma PivotIsMiddle(lo: nat, hi: nat, stream: nat -> nat, at: nat)
    requires lo <= hi
    ensures var n := hi - lo + 1;
      InTheMiddle(PivotAt(lo, hi, stream, at) - lo, stream(at) % n, stream(at + 1) % n, stream(at + 2) % n)
  {
  }

  method PivotIndex(lo: nat, hi: nat, rng: Rand) returns (r: nat)
    requires lo <= hi
    modifies rng
    ensures rng.pos == old(rng.pos) + 3
    ensures r == PivotAt(lo, hi, rng.stream, old(rng.pos))
    ensures var n, at := hi - lo + 1, old(rng.pos);
      InTheMiddle(r - lo, rng.stream(at) % n, rng.stream(at + 1) % n, rng.stream(at + 2) % n)
  {
    hide Sorted, SameClasses, Class, InTheMiddle;
    PivotIsMiddle(lo, hi, rng.stream, rng.pos);
    var d0 := rng.Next();
    var d1 := rng.Next();
    var d2 := rng.Next();
    var r3 := new int[] [d0 % (hi - lo + 1) + lo, d1 % (hi - lo + 1) + lo, d2 % (hi - lo + 1) + lo];
    ghost var drawn := r3[..];
    IntOrder();
    Issort(CompareInt, r3);
    SameClassesSameElements(CompareInt, drawn, r3[..]);
    SortedTripleMiddle(drawn, r3[..]);
    r := r3[1];
  }

  /** t is s with the slots in [lo, hi) permuted and nothing else touched. */
  ghost predicate Rearranged<T>(s: seq<T>, t: seq<T>, lo: nat, hi: nat)
    requires lo <= hi <= |s|
  {
    && |t| == |s|
    && t[..lo] == s[..lo] && t[hi..] == s[hi..]
    && multiset(t[lo..hi]) == multiset(s[lo..hi])
  }

  lemma RearrangedLength<T>(s: seq<T>, t: seq<T>, lo: nat, hi: nat)
    requires lo <= hi <= |s| && Rearranged(s, t, lo, hi)
    ensures |t| == |s|
  {
  }

  lemma RearrangedTrans<T>(s: seq<T>, t: seq<T>, u: seq<T>, lo: nat, hi: nat)
    requires lo <= hi <= |s| && Rearranged(s, t, lo, hi) && Rearranged(t, u, lo, hi)
    ensures Rearranged(s, u, lo, hi)
  {
  }

  // ----- the loop on values

  /** The first index from `from` downwards with an element not above p. */
  function Down<T>(compare: (T, T) -> int, s: seq<T>, from: int, p: T): (k: int)
    requires from < |s|
    ensures k <= from && (k >= 0 ==> compare(s[k], p) <= 0)
    ensures forall m :: k < m <= from && m >= 0 ==> compare(s[m], p) > 0
    decreases from + 1
  {
    if from < 0 || compare(s[from], p) <= 0 then from else Down(compare, s, from - 1, p)
  }

  /** The first index from `from` upwards with an element not below p. */
  function Up<T>(compare: (T, T) -> int, s: seq<T>, from: nat, p: T): (i: nat)
    ensures from <= i && (i < |s| ==> compare(s[i], p) >= 0)
    ensures forall m :: from <= m < i && m < |s| ==> compare(s[m], p) < 0
    decreases |s| - from
  {
    if from >= |s| || compare(s[from], p) >= 0 then from else Up(compare, s, from + 1, p)
  }

  /** What the loop makes of s when it goes on from (i, k): the sequence and the index it returns. */
  function Hoare<T>(compare: (T, T) -> int, s: seq<T>, p: T, i: int, k: int): (seq<T>, int)
    requires -1 <= i && k <= |s|
    decreases k - i
  {
    var k', i' := Down(compare, s, k - 1, p), Up(compare, s, i + 1, p);
    if i' >= k' then (s, k') else Hoare(compare, s[i' := s[k']][k' := s[i']], p, i', k')
  }

  /** The partition of [lo, hi] around the element at r. */
  function Partitioned<T>(compare: (T, T) -> int, s: seq<T>, lo: nat, hi: nat, r: nat): (seq<T>, int)
    requires lo <= r <= hi < |s|
  {
    Hoare(compare, s, s[r], lo - 1, hi + 1)
  }

  /** From k downwards to the first element not above p; `stop` holds one. */
  method ScanDown<T>(compare: (T, T) -> int, a: array<T>, from: nat, p: T, ghost stop: nat) returns (k: nat)
    requires stop <= from < a.Length && compare(a[stop], p) <= 0
    ensures stop <= k <= from && k == Down(compare, a[..], from, p)
  {
    k := from;
    while compare(a[k], p) > 0
      invariant stop <= k <= from
      invariant Down(compare, a[..], from, p) == Down(compare, a[..], k, p)
      decreases k
    {
      k := k - 1;
    }
  }

  /** From i upwards to the first element not below p; `stop` holds one. */
  method ScanUp<T>(compare: (T, T) -> int, a: array<T>, from: nat, p: T, ghost stop: nat) returns (i: nat)
    requires from <= stop < a.Length && compare(a[stop], p) >= 0
    ensures from <= i <= stop && i == Up(compare, a[..], from, p)
  {
    i := from;
    while compare(a[i], p) < 0
      invariant from <= i <= stop
      invariant Up(compare, a[..], from, p) == Up(compare, a[..], i, p)
      decreases stop - i
    {
      i := i + 1;
    }
  }

  /**
   State of the partition loop between two rounds: everything up to i is at most the pivot,
   everything from k on is at least the pivot, and there are elements at which the next two
   scans stop. `met` is where the first swap found an element not below the pivot, or hi
   while nothing has been swapped.
   */
  ghost predicate Partway<T>(compare: (T, T) -> int, was: seq<T>, s: seq<T>, lo: nat, hi: nat, r: nat,
                             i: int, k: int, stopDown: nat, stopUp: nat, met: nat)
    requires lo <= r <= hi < |was|
  {
    && lo - 1 <= i < k <= hi + 1
    && lo <= stopDown < k && i < stopUp <= hi
    && Rearranged(was, s, lo, hi + 1)
    && compare(s[stopDown], was[r]) <= 0 && compare(s[stopUp], was[r]) >= 0
    && AllAtMost(compare, s, lo, i + 1, was[r])
    && AllAtLeast(compare, s, k, hi + 1, was[r])
    && (met == hi ==> s == was && i == lo - 1 && k == hi + 1 && stopUp == r)
    && (met != hi ==> k <= hi && lo <= met < hi && compare(was[met], was[r]) >= 0)
  }

  /** The two scans that start from (i, k) end at (i', k'). */
  ghost predicate Scanned<T>(compare: (T, T) -> int, s: seq<T>, p: T, i: int, k: int, i': nat, k': nat)
    requires -1 <= i < k <= |s| && i < i' < |s| && k' < k
  {
    && compare(s[k'], p) <= 0 && compare(s[i'], p) >= 0
    && (forall m :: k' < m < k ==> compare(s[m], p) > 0)
    && (forall m :: i < m < i' ==> compare(s[m], p) < 0)
  }

  lemma SwapRearranges<T>(s: seq<T>, lo: nat, hi: nat, i: nat, k: nat)
    requires lo <= i < k < hi <= |s|
    ensures Rearranged(s, s[i := s[k]][k := s[i]], lo, hi)
  {
    var t := s[i := s[k]][k := s[i]];
    assert t[lo..hi] == s[lo..hi][i - lo := s[k]][k - lo := s[i]];
  }

  lemma SwapBounds<T>(compare: (T, T) -> int, s: seq<T>, p: T, lo: nat, hi: nat, i: int, k: int, i': nat, k': nat)
    requires lo - 1 <= i < i' < k' < k <= hi + 1 <= |s| && Scanned(compare, s, p, i, k, i', k')
    requires AllAtMost(compare, s, lo, i + 1, p) && AllAtLeast(compare, s, k, hi + 1, p)
    ensures AllAtMost(compare, s[i' := s[k']][k' := s[i']], lo, i' + 1, p)
    ensures AllAtLeast(compare, s[i' := s[k']][k' := s[i']], k', hi + 1, p)
  {
  }

  lemma SwapStep<T>(compare: (T, T) -> int, was: seq<T>, s: seq<T>, lo: nat, hi: nat, r: nat,
                    i: int, k: int, stopDown: nat, stopUp: nat, met: nat, i': nat, k': nat)
    requires lo <= r <= hi < |was|
    requires Partway(compare, was, s, lo, hi, r, i, k, stopDown, stopUp, met)
    requires i < i' < k' < k && Scanned(compare, s, was[r], i, k, i', k')
    ensures Partway(compare, was, s[i' := s[k']][k' := s[i']], lo, hi, r, i', k', i', k', if met == hi then i' else met)
  {
    hide Rearranged, AllAtMost, AllAtLeast;
    RearrangedLength(was, s, lo, hi + 1);
    var t := s[i' := s[k']][k' := s[i']];
    SwapBounds(compare, s, was[r], lo, hi, i, k, i', k');
    assert Rearranged(was, t, lo, hi + 1) by {
      SwapRearranges(s, lo, hi + 1, i', k');
      RearrangedTrans(was, s, t, lo, hi + 1);
    }
    assert t[i'] == s[k'] && t[k'] == s[i'];
  }

  lemma LastRound<T>(compare: (T, T) -> int, was: seq<T>, s: seq<T>, lo: nat, hi: nat, r: nat,
                     i: int, k: int, stopDown: nat, stopUp: nat, met: nat, i': nat, k': nat)
    requires lo <= r <= hi < |was| && compare(was[r], was[r]) == 0
    requires Partway(compare, was, s, lo, hi, r, i, k, stopDown, stopUp, met)
    requires i < i' <= stopUp && stopDown <= k' < k && Scanned(compare, s, was[r], i, k, i', k')
    requires i' >= k'
    ensures AllAtMost(compare, s, lo, k' + 1, was[r]) && AllAtLeast(compare, s, k' + 1, hi + 1, was[r])
    ensures k' == hi <==> Stalls(compare, was, lo, hi, r)
    ensures k' == hi ==> s == was
  {
    if met != hi && r == hi {
      assert !(compare(was[met], was[hi]) < 0);
    }
  }

  lemma Scans<T>(compare: (T, T) -> int, s: seq<T>, p: T, i: int, k: int, stopDown: nat, stopUp: nat)
    requires -1 <= i < k <= |s| && stopDown < k && i < stopUp < |s|
    requires compare(s[stopDown], p) <= 0 && compare(s[stopUp], p) >= 0
    ensures var i', k' := Up(compare, s, i + 1, p), Down(compare, s, k - 1, p);
      stopDown <= k' < k && i < i' <= stopUp && Scanned(compare, s, p, i, k, i', k')
  {
    hide Up, Down;
  }

  /** The two sides are bounded by the pivot; the right one is empty exactly for a draw without progress,
      and then nothing has moved. */
  ghost predicate GoodSplit<T>(compare: (T, T) -> int, was: seq<T>, t: seq<T>, j: int, lo: nat, hi: nat, r: nat)
    requires lo <= r <= hi < |was|
  {
    && lo <= j <= hi
    && Rearranged(was, t, lo, hi + 1)
    && AllAtMost(compare, t, lo, j + 1, was[r])
    && AllAtLeast(compare, t, j + 1, hi + 1, was[r])
    && (j == hi <==> Stalls(compare, was, lo, hi, r))
    && (j == hi ==> t == was)
  }

  lemma {:induction false} HoareSplits<T>(compare: (T, T) -> int, was: seq<T>, s: seq<T>, lo: nat, hi: nat, r: nat,
                                          i: int, k: int, stopDown: nat, stopUp: nat, met: nat)
    requires lo <= r <= hi < |was| == |s| && compare(was[r], was[r]) == 0
    requires Partway(compare, was, s, lo, hi, r, i, k, stopDown, stopUp, met)
    ensures var (t, j) := Hoare(compare, s, was[r], i, k); GoodSplit(compare, was, t, j, lo, hi, r)
    decreases k - i
  {
    hide AllAtMost, AllAtLeast, Rearranged, Stalls, Scanned, Up, Down;
    var i', k' := Up(compare, s, i + 1, was[r]), Down(compare, s, k - 1, was[r]);
    Scans(compare, s, was[r], i, k, stopDown, stopUp);
    if i' >= k' {
      LastRound(compare, was, s, lo, hi, r, i, k, stopDown, stopUp, met, i', k');
    } else {
      SwapStep(compare, was, s, lo, hi, r, i, k, stopDown, stopUp, met, i', k');
      HoareSplits(compare, was, s[i' := s[k']][k' := s[i']], lo, hi, r, i', k', i', k', if met == hi then i' else met);
    }
  }

  /** The partition bounds both sides, only permutes the range, and makes no progress exactly when the
      pivot is the last element and strictly the largest. */
  lemma PartitionSplits<T(!new)>(compare: (T, T) -> int, s: seq<T>, lo: nat, hi: nat, r: nat)
    requires TotalPreorder(compare) && lo <= r <= hi < |s|
    ensures var (t, j) := Partitioned(compare, s, lo, hi, r); GoodSplit(compare, s, t, j, lo, hi, r)
  {
    assert !(compare(s[r], s[r]) > 0) && !(compare(s[r], s[r]) < 0);
    NothingScanned(compare, s, lo, hi, r);
    HoareSplits(compare, s, s, lo, hi, r, lo - 1, hi + 1, r, r, hi);
  }

  /** One round: where the scans end, and what is left to do. */
  lemma Round<T>(compare: (T, T) -> int, was: seq<T>, s: seq<T>, lo: nat, hi: nat, r: nat,
                 i: int, k: int, stopDown: nat, stopUp: nat, met: nat)
    requires lo <= r <= hi < |was| == |s|
    requires Partway(compare, was, s, lo, hi, r, i, k, stopDown, stopUp, met)
    ensures -1 <= i < k <= |s| && stopDown < k && i < stopUp < |s|
    ensures compare(s[stopDown], was[r]) <= 0 && compare(s[stopUp], was[r]) >= 0
    ensures var i', k' := Up(compare, s, i + 1, was[r]), Down(compare, s, k - 1, was[r]);
      if i' >= k' then Hoare(compare, s, was[r], i, k) == (s, k')
      else
        var t := s[i' := s[k']][k' := s[i']];
        && 0 <= i' && k' < |s| && Hoare(compare, s, was[r], i, k) == Hoare(compare, t, was[r], i', k')
        && Partway(compare, was, t, lo, hi, r, i', k', i', k', if met == hi then i' else met)
  {
    hide AllAtMost, AllAtLeast, Rearranged, Stalls, Scanned, Up, Down;
    var i', k' := Up(compare, s, i + 1, was[r]), Down(compare, s, k - 1, was[r]);
    Scans(compare, s, was[r], i, k, stopDown, stopUp);
    if i' < k' {
      SwapStep(compare, was, s, lo, hi, r, i, k, stopDown, stopUp, met, i', k');
    }
  }

  // ----- the loop

  method Swap<T>(a: array<T>, i: nat, k: nat)
    requires i < k < a.Length
    modifies a
    ensures a[..] == old(a[..])[i := old(a[k])][k := old(a[i])]
  {
    a[i], a[k] := a[k], a[i];
  }

  /** The loop of the partition, around the value found at index r. */
  method Split<T>(compare: (T, T) -> int, a: array<T>, lo: nat, hi: nat, r: nat) returns (j: nat)
    requires lo <= r <= hi < a.Length
    requires compare(a[r], a[r]) == 0
    modifies a
    ensures (a[..], j) == Partitioned(compare, old(a[..]), lo, hi, r)
  {
    hide Partway, Hoare, Up, Down;
    ghost var was := a[..];
    var pval := a[r];
    var i, k := lo - 1, hi + 1;
    ghost var stopDown: nat, stopUp: nat, met: nat := r, r, hi;
    NothingScanned(compare, was, lo, hi, r);
    while true
      invariant -1 <= i < k <= a.Length
      invariant Partway(compare, was, a[..], lo, hi, r, i, k, stopDown, stopUp, met)
      invariant Hoare(compare, a[..], pval, i, k) == Partitioned(compare, was, lo, hi, r)
      decreases k - i
    {
      Round(compare, was, a[..], lo, hi, r, i, k, stopDown, stopUp, met);
      k := ScanDown(compare, a, k - 1, pval, stopDown);
      i := ScanUp(compare, a, i + 1, pval, stopUp);
      if i >= k {
        break;
      }
      Swap(a, i, k);
      stopDown, stopUp, met := i, k, if met == hi then i else met;
    }
    j := k;
  }

  lemma NothingScanned<T>(compare: (T, T) -> int, was: seq<T>, lo: nat, hi: nat, r: nat)
    requires lo <= r <= hi < |was| && compare(was[r], was[r]) == 0
    ensures Partway(compare, was, was, lo, hi, r, lo - 1, hi + 1, r, r, hi)
  {
  }

  method Partition<T(!new)>(compare: (T, T) -> int, a: array<T>, lo: nat, hi: nat, rng: Rand) returns (j: nat)
    requires TotalPreorder(compare)
    requires lo <= hi < a.Length
    modifies a, rng
    ensures rng.pos == old(rng.pos) + 3
    ensures var r := PivotAt(lo, hi, rng.stream, old(rng.pos));
      && (a[..], j) == Partitioned(compare, old(a[..]), lo, hi, r)
      && GoodSplit(compare, old(a[..]), a[..], j, lo, hi, r)
  {
    hide GoodSplit, Partitioned;
    var r := PivotIndex(lo, hi, rng);
    ghost var p := a[r];
    assert !(compare(p, p) > 0) && !(compare(p, p) < 0);
    PartitionSplits(compare, a[..], lo, hi, r);
    j := Split(compare, a, lo, hi, r);
  }
}
