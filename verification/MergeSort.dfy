/** Top-down merge sort of algolib/source/mgsort.c. Its merge takes ties from the right run. */
module MergeSort {
  import opened Ordering

  function Merged<T>(compare: (T, T) -> int, x: seq<T>, y: seq<T>): seq<T>
    decreases |x| + |y|
  {
    if x == [] then y
    else if y == [] then x
    else if compare(x[0], y[0]) < 0 then [x[0]] + Merged(compare, x[1..], y)
    else [y[0]] + Merged(compare, x, y[1..])
  }

  lemma {:induction false} MergedMember<T>(compare: (T, T) -> int, x: seq<T>, y: seq<T>, e: T)
    ensures e in Merged(compare, x, y) <==> e in x || e in y
    decreases |x| + |y|
  {
    if x != [] && y != [] {
      if compare(x[0], y[0]) < 0 {
        MergedMember(compare, x[1..], y, e);
        assert x == [x[0]] + x[1..];
      } else {
        MergedMember(compare, x, y[1..], e);
        assert y == [y[0]] + y[1..];
      }
    }
  }

  lemma HeadBelow<T(!new)>(compare: (T, T) -> int, low: T, s: seq<T>)
    requires TotalPreorder(compare) && Sorted(compare, s)
    requires s != [] ==> compare(low, s[0]) <= 0
    ensures forall e :: e in s ==> compare(low, e) <= 0
  {
    forall e | e in s ensures compare(low, e) <= 0 {
      var i :| 0 <= i < |s| && s[i] == e;
      assert !(compare(e, e) > 0);
      assert Chain(compare, low, s[0], e);
    }
  }

  lemma {:induction false} MergedSorted<T(!new)>(compare: (T, T) -> int, x: seq<T>, y: seq<T>)
    requires TotalPreorder(compare) && Sorted(compare, x) && Sorted(compare, y)
    ensures Sorted(compare, Merged(compare, x, y))
    decreases |x| + |y|
  {
    if x != [] && y != [] {
      var left := compare(x[0], y[0]) < 0;
      var low := if left then x[0] else y[0];
      var x', y' := if left then x[1..] else x, if left then y else y[1..];
      var rest := Merged(compare, x', y');
      MergedSorted(compare, x', y');
      assert !(compare(low, low) > 0);
      HeadBelow(compare, low, x);
      HeadBelow(compare, low, y);
      forall i | 0 <= i < |rest| ensures compare(low, rest[i]) <= 0 {
        MergedMember(compare, x', y', rest[i]);
      }
      assert Merged(compare, x, y) == [low] + rest;
    }
  }

  lemma NoTiesAbove<T(!new)>(compare: (T, T) -> int, low: T, y: seq<T>, e: T)
    requires TotalPreorder(compare) && Sorted(compare, y)
    requires y != [] ==> compare(low, y[0]) < 0
    requires compare(low, e) == 0
    ensures Class(compare, y, e) == []
  {
    forall b | b in y ensures !Ties(compare, e)(b) {
      HeadBelow(compare, y[0], y) by { assert !(compare(y[0], y[0]) > 0); }
      assert compare(e, low) <= 0;
      assert compare(b, e) == 0 ==> Chain(compare, b, e, low);
      assert compare(b, low) <= 0 ==> Chain(compare, y[0], b, low);
      assert compare(y[0], low) > 0;
    }
    FilterNone(y, Ties(compare, e));
  }

  /** In the merge of two runs the elements that tie come from the right run first. */
  lemma {:induction false} MergedClass<T(!new)>(compare: (T, T) -> int, x: seq<T>, y: seq<T>, e: T)
    requires TotalPreorder(compare) && Sorted(compare, x) && Sorted(compare, y)
    ensures Class(compare, Merged(compare, x, y), e) == Class(compare, y, e) + Class(compare, x, e)
    decreases |x| + |y|
  {
    hide TotalPreorder, Sorted, Filter;
    if x != [] && y != [] {
      var p := Ties(compare, e);
      if compare(x[0], y[0]) < 0 {
        SortedSlice(compare, x, 1);
        MergedClass(compare, x[1..], y, e);
        FilterCons(x[0], x[1..], p);
        FilterCons(x[0], Merged(compare, x[1..], y), p);
        assert x == [x[0]] + x[1..];
        if p(x[0]) {
          NoTiesAbove(compare, x[0], y, e);
        }
      } else {
        SortedSlice(compare, y, 1);
        MergedClass(compare, x, y[1..], e);
        FilterCons(y[0], y[1..], p);
        FilterCons(y[0], Merged(compare, x, y[1..]), p);
        assert y == [y[0]] + y[1..];
      }
    } else {
      assert Filter<T>([], Ties(compare, e)) == [] by { FilterNone([], Ties(compare, e)); }
    }
  }

  /** Merging the stable sorts of two reversed runs stably sorts the reverse of both together. */
  lemma MergedRuns<T(!new)>(compare: (T, T) -> int, left: seq<T>, right: seq<T>, x: seq<T>, y: seq<T>)
    requires TotalPreorder(compare)
    requires StableSortOf(compare, Reverse(left), x) && StableSortOf(compare, Reverse(right), y)
    ensures StableSortOf(compare, Reverse(left + right), Merged(compare, x, y))
  {
    MergedSorted(compare, x, y);
    ReverseConcat(left, right);
    forall e ensures Class(compare, Reverse(left + right), e) == Class(compare, Merged(compare, x, y), e) {
      MergedClass(compare, x, y, e);
      FilterConcat(Reverse(right), Reverse(left), Ties(compare, e));
      assert Class(compare, Reverse(left), e) == Class(compare, x, e);
      assert Class(compare, Reverse(right), e) == Class(compare, y, e);
    }
  }

  // ----- the merge loop

  lemma {:induction false} MergedLength<T>(compare: (T, T) -> int, x: seq<T>, y: seq<T>)
    ensures |Merged(compare, x, y)| == |x| + |y|
    decreases |x| + |y|
  {
    if x != [] && y != [] {
      if compare(x[0], y[0]) < 0 {
        MergedLength(compare, x[1..], y);
      } else {
        MergedLength(compare, x, y[1..]);
      }
    }
  }

  /** Buffer m holds the first mpos elements of the merge of s[i..j + 1] and s[j + 1..k + 1];
      what is left of the two runs starts at ipos and jpos. */
  ghost predicate Pending<T>(compare: (T, T) -> int, s: seq<T>, i: nat, j: nat, k: nat,
                             m: seq<T>, ipos: nat, jpos: nat, mpos: nat)
    requires i <= j < k < |s|
  {
    && i <= ipos <= j + 1 <= jpos <= k + 1
    && |m| == k - i + 1 && mpos == ipos - i + jpos - (j + 1)
    && Merged(compare, s[i..j + 1], s[j + 1..k + 1]) == m[..mpos] + Merged(compare, s[ipos..j + 1], s[jpos..k + 1])
  }

  lemma NothingTaken<T>(compare: (T, T) -> int, s: seq<T>, i: nat, j: nat, k: nat, m: seq<T>)
    requires i <= j < k < |s| && |m| == k - i + 1
    ensures Pending(compare, s, i, j, k, m, i, j + 1, 0)
  {
  }

  lemma TakeLeft<T>(compare: (T, T) -> int, s: seq<T>, i: nat, j: nat, k: nat, m: seq<T>, ipos: nat, jpos: nat,
                    mpos: nat)
    requires i <= j < k < |s| && Pending(compare, s, i, j, k, m, ipos, jpos, mpos)
    requires ipos <= j && (jpos > k || compare(s[ipos], s[jpos]) < 0)
    ensures mpos < |m| && Pending(compare, s, i, j, k, m[mpos := s[ipos]], ipos + 1, jpos, mpos + 1)
  {
    var x, y, done := s[ipos..j + 1], s[jpos..k + 1], m[..mpos];
    assert x == [s[ipos]] + s[ipos + 1..j + 1];
    assert Merged(compare, x, y) == [x[0]] + Merged(compare, x[1..], y);
    assert m[mpos := s[ipos]][..mpos + 1] == done + [x[0]];
    assert done + ([x[0]] + Merged(compare, x[1..], y)) == (done + [x[0]]) + Merged(compare, x[1..], y);
  }

  lemma TakeRight<T>(compare: (T, T) -> int, s: seq<T>, i: nat, j: nat, k: nat, m: seq<T>, ipos: nat, jpos: nat,
                     mpos: nat)
    requires i <= j < k < |s| && Pending(compare, s, i, j, k, m, ipos, jpos, mpos)
    requires jpos <= k && (ipos > j || compare(s[ipos], s[jpos]) >= 0)
    ensures mpos < |m| && Pending(compare, s, i, j, k, m[mpos := s[jpos]], ipos, jpos + 1, mpos + 1)
  {
    var x, y, done := s[ipos..j + 1], s[jpos..k + 1], m[..mpos];
    assert y == [s[jpos]] + s[jpos + 1..k + 1];
    assert Merged(compare, x, y) == [y[0]] + Merged(compare, x, y[1..]);
    assert m[mpos := s[jpos]][..mpos + 1] == done + [y[0]];
    assert done + ([y[0]] + Merged(compare, x, y[1..])) == (done + [y[0]]) + Merged(compare, x, y[1..]);
  }

  lemma AllTaken<T>(compare: (T, T) -> int, s: seq<T>, i: nat, j: nat, k: nat, m: seq<T>, mpos: nat)
    requires i <= j < k < |s| && Pending(compare, s, i, j, k, m, j + 1, k + 1, mpos)
    ensures m == Merged(compare, s[i..j + 1], s[j + 1..k + 1])
  {
  }

  lemma CopiedBack<T>(s: seq<T>, now: seq<T>, i: nat, m: seq<T>)
    requires i + |m| <= |s| == |now|
    requires forall t :: 0 <= t < |m| ==> now[i + t] == m[t]
    requires forall t :: 0 <= t < i || i + |m| <= t < |s| ==> now[t] == s[t]
    ensures now == s[..i] + m + s[i + |m|..]
  {
    forall t | i <= t < i + |m| ensures now[t] == m[t - i] {
      assert now[i + (t - i)] == m[t - i];
    }
  }

  method Store<T>(m: array<T>, mpos: nat, x: T)
    requires mpos < m.Length
    modifies m
    ensures m[..] == old(m[..])[mpos := x]
  {
    m[mpos] := x;
  }

  /** The merging loops: they fill a new buffer and leave the array alone. */
  method FillBuffer<T(0)>(compare: (T, T) -> int, a: array<T>, i: nat, j: nat, k: nat) returns (m: array<T>)
    requires i <= j < k < a.Length
    ensures fresh(m)
    ensures m[..] == Merged(compare, a[i..j + 1], a[j + 1..k + 1])
  {
    hide *;
    ghost var was := a[..];
    var ipos: nat, jpos: nat, mpos: nat := i, j + 1, 0;
    m := new T[k - i + 1];
    NothingTaken(compare, was, i, j, k, m[..]);
    while ipos <= j || jpos <= k
      modifies m
      invariant ipos <= j + 1 && jpos <= k + 1
      invariant Pending(compare, was, i, j, k, m[..], ipos, jpos, mpos)
      decreases k + 1 - jpos + j + 1 - ipos
    {
      if ipos > j {
        while jpos <= k
          modifies m
          invariant jpos <= k + 1
          invariant Pending(compare, was, i, j, k, m[..], ipos, jpos, mpos)
        {
          TakeRight(compare, was, i, j, k, m[..], ipos, jpos, mpos);
          Store(m, mpos, a[jpos]);
          jpos, mpos := jpos + 1, mpos + 1;
        }
        continue;
      } else if jpos > k {
        while ipos <= j
          modifies m
          invariant ipos <= j + 1
          invariant Pending(compare, was, i, j, k, m[..], ipos, jpos, mpos)
        {
          TakeLeft(compare, was, i, j, k, m[..], ipos, jpos, mpos);
          Store(m, mpos, a[ipos]);
          ipos, mpos := ipos + 1, mpos + 1;
        }
        continue;
      }
      if compare(a[ipos], a[jpos]) < 0 {
        TakeLeft(compare, was, i, j, k, m[..], ipos, jpos, mpos);
        Store(m, mpos, a[ipos]);
        ipos, mpos := ipos + 1, mpos + 1;
      } else {
        TakeRight(compare, was, i, j, k, m[..], ipos, jpos, mpos);
        Store(m, mpos, a[jpos]);
        jpos, mpos := jpos + 1, mpos + 1;
      }
    }
    AllTaken(compare, was, i, j, k, m[..], mpos);
  }

  method Merge<T(0)>(compare: (T, T) -> int, a: array<T>, i: nat, j: nat, k: nat)
    requires i <= j < k < a.Length
    modifies a
    ensures a[..] == old(a[..i]) + Merged(compare, old(a[i..j + 1]), old(a[j + 1..k + 1])) + old(a[k + 1..])
  {
    hide *;
    ghost var was := a[..];
    var m := FillBuffer(compare, a, i, j, k);
    MergedLength(compare, was[i..j + 1], was[j + 1..k + 1]);
    forall t | 0 <= t < m.Length {
      a[i + t] := m[t];
    }
    CopiedBack(was, a[..], i, m[..]);
  }

  /** Sorts a[i..k + 1]: the result is the stable sort of that range read backwards, so elements
      that tie end up in exactly the reverse of their order. */
  method MgSort<T(0, !new)>(compare: (T, T) -> int, a: array<T>, i: nat, k: int)
    requires TotalPreorder(compare)
    requires i <= k + 1 <= a.Length
    modifies a
    ensures StableSortOf(compare, Reverse(old(a[i..k + 1])), a[i..k + 1])
    ensures a[..i] == old(a[..i]) && a[k + 1..] == old(a[k + 1..])
    decreases k - i
  {
    hide *;
    ghost var s0 := a[..];
    if i < k {
      var j := (i + k - 1) / 2;
      MgSort(compare, a, i, j);
      ghost var s1 := a[..];
      MgSort(compare, a, j + 1, k);
      ghost var s2 := a[..];
      Merge(compare, a, i, j, k);
      BothRunsSorted(compare, s0, s1, s2, a[..], i, j + 1, k + 1);
    } else {
      SingleSorted(compare, s0[i..k + 1]);
    }
  }

  lemma SingleSorted<T(!new)>(compare: (T, T) -> int, s: seq<T>)
    requires |s| <= 1
    ensures StableSortOf(compare, Reverse(s), s)
  {
    if s != [] {
      assert s[1..] == [];
    }
    assert Reverse(s) == s;
  }

  lemma SplicedSlices<T>(s: seq<T>, now: seq<T>, i: nat, k: nat, m: seq<T>)
    requires i <= k <= |s| && |m| == k - i && now == s[..i] + m + s[k..]
    ensures |now| == |s| && now[..i] == s[..i] && now[i..k] == m && now[k..] == s[k..]
  {
  }

  lemma BothRunsSorted<T(!new)>(compare: (T, T) -> int, s0: seq<T>, s1: seq<T>, s2: seq<T>, s3: seq<T>, i: nat,
                                j: nat, k: nat)
    requires TotalPreorder(compare)
    requires i <= j <= k <= |s0| == |s1| == |s2|
    requires StableSortOf(compare, Reverse(s0[i..j]), s1[i..j]) && s1[..i] == s0[..i] && s1[j..] == s0[j..]
    requires StableSortOf(compare, Reverse(s1[j..k]), s2[j..k]) && s2[..j] == s1[..j] && s2[k..] == s1[k..]
    requires s3 == s2[..i] + Merged(compare, s2[i..j], s2[j..k]) + s2[k..]
    ensures |s3| == |s0|
    ensures StableSortOf(compare, Reverse(s0[i..k]), s3[i..k])
    ensures s3[..i] == s0[..i] && s3[k..] == s0[k..]
  {
    hide StableSortOf, TotalPreorder, Merged, Reverse;
    MergedLength(compare, s2[i..j], s2[j..k]);
    SplicedSlices(s2, s3, i, k, Merged(compare, s2[i..j], s2[j..k]));
    assert s1[j..k] == s1[j..][..k - j] == s0[j..][..k - j] == s0[j..k];
    assert s2[i..j] == s2[..j][i..] == s1[..j][i..] == s1[i..j];
    assert s0[i..k] == s0[i..j] + s0[j..k];
    MergedRuns(compare, s0[i..j], s0[j..k], s2[i..j], s2[j..k]);
    assert s2[..i] == s2[..j][..i] == s1[..j][..i] == s1[..i];
    assert s2[k..] == s1[j..][k - j..] == s0[j..][k - j..] == s0[k..];
  }
}
