/** Insertion sort of algolib/source/issort.c. */
module InsertionSort {
  import opened Ordering

  lemma InsertSorted<T>(compare: (T, T) -> int, below: seq<T>, key: T, above: seq<T>)
    requires Sorted(compare, below + above)
    requires forall x :: x in below ==> compare(x, key) <= 0
    requires forall x :: x in above ==> compare(key, x) <= 0
    ensures Sorted(compare, below + [key] + above)
  {
    var old', new' := below + above, below + [key] + above;
    var m := |below|;
    forall i, j | 0 <= i < j < |new'| ensures compare(new'[i], new'[j]) <= 0 {
      if i == m {
        assert new'[j] in above;
      } else if j == m {
        assert new'[i] in below;
      } else {
        var i', j' := if i < m then i else i - 1, if j < m then j else j - 1;
        assert new'[i] == old'[i'] && new'[j] == old'[j'];
      }
    }
  }

  /** Putting the key behind everything that ties with it keeps every class in order. */
  lemma InsertClasses<T(!new)>(compare: (T, T) -> int, input: seq<T>, below: seq<T>, key: T, above: seq<T>)
    requires TotalPreorder(compare)
    requires SameClasses(compare, input, below + above)
    requires forall x :: x in above ==> compare(x, key) > 0
    ensures SameClasses(compare, input + [key], below + [key] + above)
  {
    forall x ensures Class(compare, input + [key], x) == Class(compare, below + [key] + above, x) {
      var p := Ties(compare, x);
      FilterConcat(input, [key], p);
      FilterConcat(below, above, p);
      FilterConcat(below + [key], above, p);
      FilterConcat(below, [key], p);
      assert Class(compare, input, x) == Class(compare, below + above, x);
      if p(key) {
        forall y | y in above ensures !p(y) {
          assert p(y) ==> Chain(compare, y, x, key);
        }
        FilterNone(above, p);
      }
    }
  }

  /** Everything left of the point where the shifting stops is at most the key. */
  lemma BelowKey<T(!new)>(compare: (T, T) -> int, below: seq<T>, key: T)
    requires TotalPreorder(compare) && Sorted(compare, below)
    requires below != [] ==> compare(below[|below| - 1], key) <= 0
    ensures forall x :: x in below ==> compare(x, key) <= 0
  {
    forall x | x in below ensures compare(x, key) <= 0 {
      var last := below[|below| - 1];
      assert !(compare(last, last) > 0);
      assert Chain(compare, x, last, key);
    }
  }

  lemma Inserted<T(!new)>(compare: (T, T) -> int, input: seq<T>, below: seq<T>, key: T, above: seq<T>)
    requires TotalPreorder(compare)
    requires StableSortOf(compare, input, below + above)
    requires below != [] ==> compare(below[|below| - 1], key) <= 0
    requires forall x :: x in above ==> compare(x, key) > 0
    ensures StableSortOf(compare, input + [key], below + [key] + above)
  {
    forall i, j | 0 <= i < j < |below| ensures compare(below[i], below[j]) <= 0 {
      assert below[i] == (below + above)[i] && below[j] == (below + above)[j];
    }
    BelowKey(compare, below, key);
    InsertSorted(compare, below, key, above);
    InsertClasses(compare, input, below, key, above);
  }

  /** now is s with the element at j moved down to m. */
  ghost predicate Moved<T>(s: seq<T>, now: seq<T>, m: nat, j: nat)
    requires m <= j < |s|
  {
    && |now| == |s| && now[m] == s[j]
    && (forall t :: 0 <= t < m || j < t < |s| ==> now[t] == s[t])
    && (forall t :: m < t <= j ==> now[t] == s[t - 1])
  }

  /** The inner loop: shift the larger elements of a[..j] up by one and drop a[j] into the gap.
      `m` is where the gap ends up. */
  method Insert<T>(compare: (T, T) -> int, a: array<T>, j: nat) returns (ghost m: nat)
    requires j < a.Length
    modifies a
    ensures m <= j && Moved(old(a[..]), a[..], m, j)
    ensures m > 0 ==> compare(old(a[m - 1]), old(a[j])) <= 0
    ensures forall t :: m <= t < j ==> compare(old(a[t]), old(a[j])) > 0
  {
    var key := a[j];
    var i := j - 1;
    while i >= 0 && compare(a[i], key) > 0
      invariant -1 <= i < j
      invariant forall t :: 0 <= t <= i ==> a[t] == old(a[t])
      invariant forall t :: i + 1 < t <= j ==> a[t] == old(a[t - 1])
      invariant forall t :: j < t < a.Length ==> a[t] == old(a[t])
      invariant forall t :: i < t < j ==> compare(old(a[t]), key) > 0
    {
      a[i + 1] := a[i];
      i := i - 1;
    }
    a[i + 1] := key;
    m := i + 1;
  }

  /** After round j the first j elements are stably sorted and the rest is as it was. */
  ghost predicate PrefixSorted<T(!new)>(compare: (T, T) -> int, input: seq<T>, s: seq<T>, j: nat) {
    && j <= |s| == |input|
    && s[j..] == input[j..]
    && StableSortOf(compare, input[..j], s[..j])
  }

  lemma MovedSlices<T>(s: seq<T>, now: seq<T>, m: nat, j: nat)
    requires m <= j < |s| && Moved(s, now, m, j)
    ensures |now| == |s| && now[j + 1..] == s[j + 1..]
    ensures now[..j + 1] == s[..m] + [s[j]] + s[m..j]
  {
  }

  lemma RoundDone<T(!new)>(compare: (T, T) -> int, input: seq<T>, s: seq<T>, now: seq<T>, m: nat, j: nat)
    requires TotalPreorder(compare)
    requires m <= j < |s| && PrefixSorted(compare, input, s, j) && Moved(s, now, m, j)
    requires m > 0 ==> compare(s[m - 1], s[j]) <= 0
    requires forall t :: m <= t < j ==> compare(s[t], s[j]) > 0
    ensures PrefixSorted(compare, input, now, j + 1)
  {
    hide StableSortOf, TotalPreorder, Moved;
    MovedSlices(s, now, m, j);
    var below, above := s[..m], s[m..j];
    assert below + above == s[..j];
    Inserted(compare, input[..j], below, s[j], above);
    assert s[j] == s[j..][0] == input[j..][0] == input[j];
    assert input[..j + 1] == input[..j] + [input[j]];
    assert now[j + 1..] == s[j..][1..] && input[j + 1..] == input[j..][1..];
  }

  lemma NoRounds<T(!new)>(compare: (T, T) -> int, input: seq<T>)
    ensures PrefixSorted(compare, input, input, if |input| > 0 then 1 else 0)
  {
  }

  method Issort<T(!new)>(compare: (T, T) -> int, a: array<T>)
    requires TotalPreorder(compare)
    modifies a
    ensures StableSortOf(compare, old(a[..]), a[..])
  {
    hide *;
    ghost var input := a[..];
    NoRounds(compare, input);
    var j := 1;
    while j < a.Length
      invariant j <= a.Length || (j == 1 && a.Length == 0)
      invariant PrefixSorted(compare, input, a[..], if a.Length == 0 then 0 else j)
    {
      ghost var was := a[..];
      ghost var m := Insert(compare, a, j);
      RoundDone(compare, input, was, a[..], m, j);
      j := j + 1;
    }
    AllRounds(compare, input, a[..]);
  }

  lemma AllRounds<T(!new)>(compare: (T, T) -> int, input: seq<T>, s: seq<T>)
    requires PrefixSorted(compare, input, s, |s|)
    ensures StableSortOf(compare, input, s)
  {
    assert s[..|s|] == s && input[..|s|] == input;
  }
}
