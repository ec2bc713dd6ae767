/** Randomised quicksort of algolib/source/qksort.c. */
module QuickSort {
  import opened HoarePartition
  import opened Ordering

  ghost predicate SortedRange<T>(compare: (T, T) -> int, s: seq<T>, lo: nat, hi: nat)
    requires hi <= |s|
  {
    forall i, j :: lo <= i < j < hi ==> compare(s[i], s[j]) <= 0
  }

  lemma RearrangedWiden<T>(s: seq<T>, t: seq<T>, lo: nat, hi: nat, lo': nat, hi': nat)
    requires lo' <= lo <= hi <= hi' <= |s| && Rearranged(s, t, lo, hi)
    ensures Rearranged(s, t, lo', hi')
  {
    assert s[..lo'] == s[..lo][..lo'] && t[..lo'] == t[..lo][..lo'];
    assert s[hi'..] == s[hi..][hi' - hi..] && t[hi'..] == t[hi..][hi' - hi..];
    assert s[lo'..hi'] == s[..lo][lo'..] + s[lo..hi] + s[hi..][..hi' - hi];
    assert t[lo'..hi'] == t[..lo][lo'..] + t[lo..hi] + t[hi..][..hi' - hi];
  }

  lemma BoundsKeep<T>(compare: (T, T) -> int, s: seq<T>, t: seq<T>, lo: nat, hi: nat, p: T)
    requires lo <= hi <= |s| && Rearranged(s, t, lo, hi)
    ensures AllAtMost(compare, s, lo, hi, p) ==> AllAtMost(compare, t, lo, hi, p)
    ensures AllAtLeast(compare, s, lo, hi, p) ==> AllAtLeast(compare, t, lo, hi, p)
  {
    forall m | lo <= m < hi ensures exists n :: lo <= n < hi && s[n] == t[m] {
      assert t[lo..hi][m - lo] == t[m];
      assert t[m] in multiset(t[lo..hi]);
      assert t[m] in s[lo..hi];
    }
  }

  lemma TrivialRange<T>(compare: (T, T) -> int, s: seq<T>, lo: nat, hi: nat)
    requires lo <= hi <= lo + 1 && hi <= |s|
    ensures SortedRange(compare, s, lo, hi) && Rearranged(s, s, lo, hi)
  {
  }

  lemma LeftDone<T>(was: seq<T>, split: seq<T>, mid: seq<T>, lo: nat, j: nat, hi: nat)
    requires lo <= j <= hi <= |was| == |split|
    requires Rearranged(was, split, lo, hi) && Rearranged(split, mid, lo, j)
    ensures Rearranged(was, mid, lo, hi)
  {
    RearrangedWiden(split, mid, lo, j, lo, hi);
  }

  /** Working on the two sides of a partition one after the other permutes the range, and
      sorting both sorts it. */
  lemma BothDone<T(!new)>(compare: (T, T) -> int, was: seq<T>, split: seq<T>, mid: seq<T>, end: seq<T>,
                          lo: nat, j: nat, hi: nat, p: T)
    requires TotalPreorder(compare)
    requires lo <= j <= hi <= |was| == |split| == |mid| == |end|
    requires Rearranged(was, split, lo, hi)
    requires AllAtMost(compare, split, lo, j, p) && AllAtLeast(compare, split, j, hi, p)
    requires Rearranged(split, mid, lo, j) && Rearranged(mid, end, j, hi)
    ensures Rearranged(was, end, lo, hi)
    ensures SortedRange(compare, mid, lo, j) && SortedRange(compare, end, j, hi) ==> SortedRange(compare, end, lo, hi)
  {
    LeftDone(was, split, mid, lo, j, hi);
    RearrangedWiden(mid, end, j, hi, lo, hi);
    RearrangedTrans(was, mid, end, lo, hi);
    if SortedRange(compare, mid, lo, j) && SortedRange(compare, end, j, hi) {
      Joined(compare, split, mid, end, lo, j, hi, p);
    }
  }

  /** Sorting the two sides of a partition one after the other sorts the range. */
  lemma Joined<T(!new)>(compare: (T, T) -> int, split: seq<T>, mid: seq<T>, end: seq<T>, lo: nat, j: nat, hi: nat, p: T)
    requires TotalPreorder(compare)
    requires lo <= j <= hi <= |split|
    requires AllAtMost(compare, split, lo, j, p) && AllAtLeast(compare, split, j, hi, p)
    requires Rearranged(split, mid, lo, j) && SortedRange(compare, mid, lo, j)
    requires Rearranged(mid, end, j, hi) && SortedRange(compare, end, j, hi)
    ensures SortedRange(compare, end, lo, hi)
  {
    BoundsKeep(compare, split, mid, lo, j, p);
    forall m | j <= m < hi ensures mid[m] == split[m] {
      assert mid[m] == mid[j..][m - j] && split[m] == split[j..][m - j];
    }
    BoundsKeep(compare, mid, end, j, hi, p);
    forall m | lo <= m < j ensures end[m] == mid[m] {
      assert end[m] == end[..j][m] && mid[m] == mid[..j][m];
    }
    forall m, n | lo <= m < n < hi ensures compare(end[m], end[n]) <= 0 {
      if m < j <= n {
        assert compare(p, end[n]) <= 0;
        assert Chain(compare, end[m], p, end[n]);
      } else if n < j {
        assert compare(mid[m], mid[n]) <= 0;
      }
    }
  }

  // ----- runs

  /** A run of the sort: whether it has come to an end, what it has made of the sequence, how far it has
      advanced in the stream of draws, and where in the stream the draws without progress began. */
  datatype Run<T> = Run(finished: bool, s: seq<T>, at: nat, stalls: seq<nat>)

  /** The run on [lo, hi], watched until it ends or more than `patience` draws have made no progress. After
      such a draw the left call gets the whole range again. */
  ghost function RunOf<T(!new)>(compare: (T, T) -> int, s: seq<T>, lo: nat, hi: int, stream: nat -> nat, at: nat,
                                patience: nat): (run: Run<T>)
    requires TotalPreorder(compare) && lo <= hi + 1 <= |s|
    ensures |run.s| == |s|
    ensures if run.finished then |run.stalls| <= patience else |run.stalls| == patience + 1
    decreases hi - lo + 1 + patience
  {
    if lo >= hi then Run(true, s, at, [])
    else
      var r := PivotAt(lo, hi, stream, at);
      PartitionSplits(compare, s, lo, hi, r);
      var (t, j) := Partitioned(compare, s, lo, hi, r);
      var stalls := if j == hi then [at] else [];
      if |stalls| > patience then Run(false, t, at + 3, stalls)
      else
        var left := RunOf(compare, t, lo, j, stream, at + 3, patience - |stalls|);
        if !left.finished then Run(false, left.s, left.at, stalls + left.stalls)
        else
          var right := RunOf(compare, left.s, j + 1, hi, stream, left.at, patience - |stalls| - |left.stalls|);
          Run(right.finished, right.s, right.at, stalls + left.stalls + right.stalls)
  }

  lemma RunTrivial<T(!new)>(compare: (T, T) -> int, s: seq<T>, lo: nat, hi: int, stream: nat -> nat, at: nat,
                            patience: nat)
    requires TotalPreorder(compare) && lo <= hi + 1 <= |s| && lo >= hi
    ensures RunOf(compare, s, lo, hi, stream, at, patience) == Run(true, s, at, [])
  {
  }

  /** How a run goes on after the first partition: t and j are what the partition gives. */
  lemma RunStep<T(!new)>(compare: (T, T) -> int, s: seq<T>, lo: nat, hi: nat, stream: nat -> nat, at: nat,
                         patience: nat)
    returns (t: seq<T>, j: nat, stalls: seq<nat>)
    requires TotalPreorder(compare) && lo < hi < |s|
    ensures |t| == |s| && lo <= j <= hi && stalls == if j == hi then [at] else []
    ensures var r := PivotAt(lo, hi, stream, at);
      (t, j) == Partitioned(compare, s, lo, hi, r) && GoodSplit(compare, s, t, j, lo, hi, r)
    ensures var run := RunOf(compare, s, lo, hi, stream, at, patience);
      if |stalls| > patience then run == Run(false, t, at + 3, stalls)
      else
        var left := RunOf(compare, t, lo, j, stream, at + 3, patience - |stalls|);
        && |left.s| == |s|
        && if !left.finished then run == Run(false, left.s, left.at, stalls + left.stalls)
           else
             && |stalls| + |left.stalls| <= patience
             && var right := RunOf(compare, left.s, j + 1, hi, stream, left.at, patience - |stalls| - |left.stalls|);
                run == Run(right.finished, right.s, right.at, stalls + left.stalls + right.stalls)
  {
    hide TotalPreorder, GoodSplit, Partitioned, PivotAt, Rearranged, SortedRange;
    var r := PivotAt(lo, hi, stream, at);
    PartitionSplits(compare, s, lo, hi, r);
    var (t', j') := Partitioned(compare, s, lo, hi, r);
    SplitParts(compare, s, t', j', lo, hi, r);
    t, j := t', j';
    stalls := if j == hi then [at] else [];
  }

  lemma SplitParts<T>(compare: (T, T) -> int, was: seq<T>, t: seq<T>, j: int, lo: nat, hi: nat, r: nat)
    requires lo <= r <= hi < |was| && GoodSplit(compare, was, t, j, lo, hi, r)
    ensures |t| == |was| && lo <= j <= hi && Rearranged(was, t, lo, hi + 1)
    ensures AllAtMost(compare, t, lo, j + 1, was[r]) && AllAtLeast(compare, t, j + 1, hi + 1, was[r])
    ensures (j == hi <==> Stalls(compare, was, lo, hi, r)) && (j == hi ==> t == was)
  {
  }

  // ----- what a run does

  /** Every draw that is counted as making no progress is one: at its place in the stream the three draws give
      the last index of a part of the range, in some arrangement of it, and the element there is strictly the
      largest of the part. */
  ghost predicate StallPoint<T(!new)>(compare: (T, T) -> int, s: seq<T>, lo: nat, hi: nat, stream: nat -> nat, n: nat)
    requires hi < |s| && lo <= hi
  {
    exists t, lo', hi' :: StallsIn(compare, s, lo, hi, t, lo', hi', stream, n)
  }

  ghost predicate StallsIn<T(!new)>(compare: (T, T) -> int, s: seq<T>, lo: nat, hi: nat, t: seq<T>, lo': nat, hi': nat,
                                    stream: nat -> nat, n: nat)
    requires hi < |s| && lo <= hi
  {
    && Rearranged(s, t, lo, hi + 1)
    && lo <= lo' < hi' <= hi && |t| == |s| && Stalls(compare, t, lo', hi', PivotAt(lo', hi', stream, n))
  }

  /** Positions in ascending order, each a number of whole pivot draws behind `from`. */
  ghost predicate Positions(stalls: seq<nat>, from: nat, to: nat) {
    && from <= to && (to - from) % 3 == 0
    && (forall k :: 0 <= k < |stalls| ==> from <= stalls[k] < to && (stalls[k] - from) % 3 == 0)
    && (forall k, m :: 0 <= k < m < |stalls| ==> stalls[k] < stalls[m])
  }

  lemma PositionsJoin(x: seq<nat>, y: seq<nat>, from: nat, mid: nat, to: nat)
    requires Positions(x, from, mid) && Positions(y, mid, to)
    ensures Positions(x + y, from, to)
  {
  }

  /** All of them are draws without progress. */
  ghost predicate AllStall<T(!new)>(compare: (T, T) -> int, s: seq<T>, lo: nat, hi: nat, stream: nat -> nat,
                                    stalls: seq<nat>)
    requires hi < |s| && lo <= hi
  {
    forall k :: 0 <= k < |stalls| ==> StallPoint(compare, s, lo, hi, stream, stalls[k])
  }

  lemma AllStallJoin<T(!new)>(compare: (T, T) -> int, s: seq<T>, lo: nat, hi: nat, stream: nat -> nat,
                              x: seq<nat>, y: seq<nat>)
    requires hi < |s| && lo <= hi
    requires AllStall(compare, s, lo, hi, stream, x) && AllStall(compare, s, lo, hi, stream, y)
    ensures AllStall(compare, s, lo, hi, stream, x + y)
  {
    hide StallPoint;
  }

  lemma AllStallWidens<T(!new)>(compare: (T, T) -> int, s: seq<T>, lo: nat, hi: nat, t: seq<T>, lo': nat, hi': nat,
                                stream: nat -> nat, stalls: seq<nat>)
    requires lo <= lo' <= hi' <= hi < |s| == |t| && Rearranged(s, t, lo, hi + 1)
    requires AllStall(compare, t, lo', hi', stream, stalls)
    ensures AllStall(compare, s, lo, hi, stream, stalls)
  {
    hide StallPoint, Rearranged;
    forall k | 0 <= k < |stalls| ensures StallPoint(compare, s, lo, hi, stream, stalls[k]) {
      StallWidens(compare, s, lo, hi, t, lo', hi', stream, stalls[k]);
    }
  }

  lemma StallWidens<T(!new)>(compare: (T, T) -> int, s: seq<T>, lo: nat, hi: nat, t: seq<T>, lo': nat, hi': nat,
                             stream: nat -> nat, n: nat)
    requires lo <= lo' <= hi' <= hi < |s| == |t| && Rearranged(s, t, lo, hi + 1)
    requires StallPoint(compare, t, lo', hi', stream, n)
    ensures StallPoint(compare, s, lo, hi, stream, n)
  {
    hide Rearranged, Stalls;
    var u, lo'', hi'' :| StallsIn(compare, t, lo', hi', u, lo'', hi'', stream, n);
    RearrangedWiden(t, u, lo', hi' + 1, lo, hi + 1);
    RearrangedTrans(s, t, u, lo, hi + 1);
    assert StallsIn(compare, s, lo, hi, u, lo'', hi'', stream, n);
  }

  lemma NoneStall<T(!new)>(compare: (T, T) -> int, s: seq<T>, lo: nat, hi: nat, stream: nat -> nat)
    requires hi < |s| && lo <= hi
    ensures AllStall(compare, s, lo, hi, stream, [])
  {
  }

  lemma PositionsNone(at: nat)
    ensures Positions([], at, at) && Positions([], at, at + 3) && Positions([at], at, at + 3)
  {
  }

  lemma FirstStall<T(!new)>(compare: (T, T) -> int, s: seq<T>, lo: nat, hi: nat, stream: nat -> nat, at: nat, j: int)
    requires lo < hi < |s| && (j == hi ==> Stalls(compare, s, lo, hi, PivotAt(lo, hi, stream, at)))
    ensures AllStall(compare, s, lo, hi, stream, if j == hi then [at] else [])
  {
    if j == hi {
      assert StallsIn(compare, s, lo, hi, s, lo, hi, stream, at);
    }
  }

  /** However it goes, a run permutes its range, and its draws without progress happen where it says. When it ends
      the range is sorted, after one partition for each element but one and one more for each such draw. */
  ghost predicate GoodRun<T(!new)>(compare: (T, T) -> int, s: seq<T>, lo: nat, hi: int, stream: nat -> nat, at: nat,
                                   run: Run<T>)
    requires lo <= hi + 1 <= |s|
  {
    && |run.s| == |s| && Rearranged(s, run.s, lo, hi + 1)
    && Positions(run.stalls, at, run.at)
    && (if lo < hi then AllStall(compare, s, lo, hi, stream, run.stalls) else run.stalls == [])
    && (run.finished ==> SortedRange(compare, run.s, lo, hi + 1))
    && (run.finished ==> run.at == at + 3 * ((if lo < hi then hi - lo else 0) + |run.stalls|))
  }

  lemma GoodTrivial<T(!new)>(compare: (T, T) -> int, s: seq<T>, lo: nat, hi: int, stream: nat -> nat, at: nat)
    requires lo <= hi + 1 <= |s| && lo >= hi
    ensures GoodRun(compare, s, lo, hi, stream, at, Run(true, s, at, []))
  {
    hide Rearranged, SortedRange, Positions;
    TrivialRange(compare, s, lo, hi + 1);
    PositionsNone(at);
  }

  /** The partition and the draw for it, before the two calls. */
  lemma GoodStart<T(!new)>(compare: (T, T) -> int, s: seq<T>, lo: nat, hi: nat, stream: nat -> nat, at: nat, t: seq<T>,
                           j: nat, stalls: seq<nat>)
    requires lo < hi < |s| && GoodSplit(compare, s, t, j, lo, hi, PivotAt(lo, hi, stream, at))
    requires stalls == if j == hi then [at] else []
    ensures GoodRun(compare, s, lo, hi, stream, at, Run(false, t, at + 3, stalls))
  {
    hide Rearranged, SortedRange, Positions, AllStall, Stalls, AllAtMost, AllAtLeast, PivotAt;
    RearrangedLength(s, t, lo, hi + 1);
    PositionsNone(at);
    FirstStall(compare, s, lo, hi, stream, at, j);
  }

  /** A run on the part [lo', hi'] of what has been made so far takes the whole run further. */
  lemma GoodGoesOn<T(!new)>(compare: (T, T) -> int, s: seq<T>, lo: nat, hi: nat, stream: nat -> nat, at: nat,
                            sofar: Run<T>, lo': nat, hi': int, part: Run<T>)
    requires lo < hi < |s| && lo <= lo' <= hi' + 1 <= hi + 1 && !sofar.finished
    requires GoodRun(compare, s, lo, hi, stream, at, sofar) &&
      GoodRun(compare, sofar.s, lo', hi', stream, sofar.at, part)
    ensures GoodRun(compare, s, lo, hi, stream, at, Run(false, part.s, part.at, sofar.stalls + part.stalls))
  {
    hide Rearranged, SortedRange, Positions, AllStall;
    RearrangedWiden(sofar.s, part.s, lo', hi' + 1, lo, hi + 1);
    RearrangedTrans(s, sofar.s, part.s, lo, hi + 1);
    PositionsJoin(sofar.stalls, part.stalls, at, sofar.at, part.at);
    if lo' < hi' {
      AllStallWidens(compare, s, lo, hi, sofar.s, lo', hi', stream, part.stalls);
    } else {
      NoneStall(compare, s, lo, hi, stream);
    }
    AllStallJoin(compare, s, lo, hi, stream, sofar.stalls, part.stalls);
  }

  /** When both calls have ended the whole run has. */
  lemma GoodEnd<T(!new)>(compare: (T, T) -> int, s: seq<T>, lo: nat, hi: nat, stream: nat -> nat, at: nat, t: seq<T>,
                         j: nat, stalls: seq<nat>, left: Run<T>, right: Run<T>)
    requires TotalPreorder(compare) && lo < hi < |s| && lo <= j <= hi
    requires GoodSplit(compare, s, t, j, lo, hi, PivotAt(lo, hi, stream, at)) && |t| == |s|
    requires stalls == if j == hi then [at] else []
    requires left.finished && GoodRun(compare, t, lo, j, stream, at + 3, left)
    requires right.finished && GoodRun(compare, left.s, j + 1, hi, stream, left.at, right)
    requires GoodRun(compare, s, lo, hi, stream, at, Run(false, right.s, right.at, stalls + left.stalls + right.stalls))
    ensures GoodRun(compare, s, lo, hi, stream, at, Run(true, right.s, right.at, stalls + left.stalls + right.stalls))
  {
    hide TotalPreorder, Rearranged, SortedRange, Positions, AllStall, Stalls, AllAtMost, AllAtLeast, PivotAt;
    BothDone(compare, s, t, left.s, right.s, lo, j + 1, hi + 1, s[PivotAt(lo, hi, stream, at)]);
  }

  lemma {:induction false} RunGood<T(!new)>(compare: (T, T) -> int, s: seq<T>, lo: nat, hi: int, stream: nat -> nat,
                                            at: nat, patience: nat)
    requires TotalPreorder(compare) && lo <= hi + 1 <= |s|
    ensures GoodRun(compare, s, lo, hi, stream, at, RunOf(compare, s, lo, hi, stream, at, patience))
    decreases hi - lo + 1 + patience
  {
    hide *;
    if lo >= hi {
      RunTrivial(compare, s, lo, hi, stream, at, patience);
      GoodTrivial(compare, s, lo, hi, stream, at);
    } else {
      var t, j, stalls := RunStep(compare, s, lo, hi, stream, at, patience);
      GoodStart(compare, s, lo, hi, stream, at, t, j, stalls);
      if |stalls| <= patience {
        var left := RunOf(compare, t, lo, j, stream, at + 3, patience - |stalls|);
        RunGood(compare, t, lo, j, stream, at + 3, patience - |stalls|);
        GoodGoesOn(compare, s, lo, hi, stream, at, Run(false, t, at + 3, stalls), lo, j, left);
        if left.finished {
          var patience' := patience - |stalls| - |left.stalls|;
          var right := RunOf(compare, left.s, j + 1, hi, stream, left.at, patience');
          RunGood(compare, left.s, j + 1, hi, stream, left.at, patience');
          GoodGoesOn(compare, s, lo, hi, stream, at, Run(false, left.s, left.at, stalls + left.stalls), j + 1, hi,
                     right);
          if right.finished {
            GoodEnd(compare, s, lo, hi, stream, at, t, j, stalls, left, right);
          }
        }
      }
    }
  }

  lemma GoodSorts<T(!new)>(compare: (T, T) -> int, s: seq<T>, lo: nat, hi: int, stream: nat -> nat, at: nat,
                           run: Run<T>)
    requires lo <= hi + 1 <= |s| && GoodRun(compare, s, lo, hi, stream, at, run)
    ensures |run.s| == |s| && Rearranged(s, run.s, lo, hi + 1)
    ensures run.finished ==> SortedRange(compare, run.s, lo, hi + 1)
  {
  }

  /** What is left by a sort of [lo, hi], element by element. */
  lemma ArrangedMeans<T>(compare: (T, T) -> int, s: seq<T>, t: seq<T>, lo: nat, hi: int)
    requires lo <= hi + 1 <= |s| && Rearranged(s, t, lo, hi + 1)
    ensures |t| == |s| && multiset(t) == multiset(s)
    ensures forall i :: 0 <= i < lo || hi < i < |s| ==> t[i] == s[i]
    ensures SortedRange(compare, t, lo, hi + 1) <==> forall i, j :: lo <= i < j <= hi ==> compare(t[i], t[j]) <= 0
  {
    assert s == s[..lo] + s[lo..hi + 1] + s[hi + 1..];
    assert t == t[..lo] + t[lo..hi + 1] + t[hi + 1..];
    forall i | 0 <= i < lo ensures t[i] == s[i] {
      assert t[i] == t[..lo][i] && s[i] == s[..lo][i];
    }
    forall i | hi < i < |s| ensures t[i] == s[i] {
      assert t[i] == t[hi + 1..][i - hi - 1] && s[i] == s[hi + 1..][i - hi - 1];
    }
  }

  /**
   Sorts a[lo..hi+1]. Since a draw without progress hands the left call the whole range again, the sort gives
   up when more than `patience` draws have made none; `left` is how much patience remains.
   */
  method QkSort<T(!new)>(compare: (T, T) -> int, a: array<T>, lo: nat, hi: int, rng: Rand, patience: nat)
    returns (finished: bool, left: nat)
    requires TotalPreorder(compare)
    requires lo <= hi + 1 <= a.Length
    modifies a, rng
    ensures var run := RunOf(compare, old(a[..]), lo, hi, rng.stream, old(rng.pos), patience);
      && finished == run.finished && a[..] == run.s && rng.pos == run.at
      && (finished ==> left == patience - |run.stalls|)
    ensures finished ==> SortedRange(compare, a[..], lo, hi + 1)
    ensures Rearranged(old(a[..]), a[..], lo, hi + 1)
    decreases hi - lo + 1 + patience
  {
    hide *;
    ghost var was, at := a[..], rng.pos;
    RunGood(compare, was, lo, hi, rng.stream, at, patience);
    GoodSorts(compare, was, lo, hi, rng.stream, at, RunOf(compare, was, lo, hi, rng.stream, at, patience));
    finished, left := true, patience;
    if lo >= hi {
      RunTrivial(compare, was, lo, hi, rng.stream, at, patience);
    }
    if lo < hi {
      ghost var t, split, stalls := RunStep(compare, was, lo, hi, rng.stream, at, patience);
      var j := Partition(compare, a, lo, hi, rng);
      assert a[..] == t && j == split;
      if j == hi {
        if patience == 0 {
          return false, 0;
        }
        left := patience - 1;
      }
      finished, left := QkSort(compare, a, lo, j, rng, left);
      if !finished {
        return;
      }
      finished, left := QkSort(compare, a, j + 1, hi, rng, left);
    }
  }

  // ----- when the sort ends

  /** More patience changes nothing about a run that ends, and sees further in one that does not. */
  lemma {:induction false} MorePatience<T(!new)>(compare: (T, T) -> int, s: seq<T>, lo: nat, hi: int,
                                                 stream: nat -> nat, at: nat, few: nat, many: nat)
    requires TotalPreorder(compare) && lo <= hi + 1 <= |s| && few <= many
    ensures var run, run' := RunOf(compare, s, lo, hi, stream, at, few), RunOf(compare, s, lo, hi, stream, at, many);
      if run.finished then run' == run else run.stalls <= run'.stalls
    decreases hi - lo + 1 + few
  {
    hide *;
    if lo >= hi {
      RunTrivial(compare, s, lo, hi, stream, at, few);
      RunTrivial(compare, s, lo, hi, stream, at, many);
    } else {
      var t, j, stalls := RunStep(compare, s, lo, hi, stream, at, few);
      var t', j', stalls' := RunStep(compare, s, lo, hi, stream, at, many);
      assert t == t' && j == j' && stalls == stalls';
      if |stalls| <= few {
        MorePatience(compare, t, lo, j, stream, at + 3, few - |stalls|, many - |stalls|);
        var left := RunOf(compare, t, lo, j, stream, at + 3, few - |stalls|);
        if left.finished {
          var few', many' := few - |stalls| - |left.stalls|, many - |stalls| - |left.stalls|;
          MorePatience(compare, left.s, j + 1, hi, stream, left.at, few', many');
        }
      }
    }
  }

  /** The sort ends for some patience. */
  ghost predicate Ends<T(!new)>(compare: (T, T) -> int, s: seq<T>, lo: nat, hi: int, stream: nat -> nat, at: nat)
    requires TotalPreorder(compare) && lo <= hi + 1 <= |s|
  {
    exists patience: nat :: RunOf(compare, s, lo, hi, stream, at, patience).finished
  }

  /** The sort ends within its patience if and only if its run, followed as far as one likes, never has more
      draws without progress than that. */
  lemma FinishesIff<T(!new)>(compare: (T, T) -> int, s: seq<T>, lo: nat, hi: int, stream: nat -> nat, at: nat,
                             patience: nat)
    requires TotalPreorder(compare) && lo <= hi + 1 <= |s|
    ensures RunOf(compare, s, lo, hi, stream, at, patience).finished
      <==> forall further: nat :: |RunOf(compare, s, lo, hi, stream, at, further).stalls| <= patience
  {
    hide TotalPreorder;
    var run := RunOf(compare, s, lo, hi, stream, at, patience);
    if run.finished {
      forall further: nat ensures |RunOf(compare, s, lo, hi, stream, at, further).stalls| <= patience {
        if patience <= further {
          MorePatience(compare, s, lo, hi, stream, at, patience, further);
        }
      }
    }
  }

  /** Without looking at the run: the sort ends if the stream has no more than `patience` places, in a row of pivot
      draws, at which some part of some arrangement of the range could make no progress. */
  lemma FewStallsEnd<T(!new)>(compare: (T, T) -> int, s: seq<T>, lo: nat, hi: nat, stream: nat -> nat, at: nat,
                              patience: nat)
    requires TotalPreorder(compare) && lo < hi < |s|
    requires forall stalls, to :: Positions(stalls, at, to) && AllStall(compare, s, lo, hi, stream, stalls) ==>
      |stalls| <= patience
    ensures RunOf(compare, s, lo, hi, stream, at, patience).finished
  {
    hide TotalPreorder, Positions, AllStall, RunOf;
    RunGood(compare, s, lo, hi, stream, at, patience);
  }

  // ----- a sort that does not end

  /** Every pivot from position `at` on is drawn from the last slot. */
  ghost predicate AlwaysLast(lo: nat, hi: nat, stream: nat -> nat, at: nat)
    requires lo <= hi
  {
    forall n: nat :: n >= at && (n - at) % 3 == 0 ==> PivotAt(lo, hi, stream, n) == hi
  }

  /** With the strict maximum in the last slot and such draws the sort never ends. */
  lemma {:induction false} NeverFinishes<T(!new)>(compare: (T, T) -> int, s: seq<T>, lo: nat, hi: nat,
                                                  stream: nat -> nat, at: nat, patience: nat)
    requires TotalPreorder(compare) && lo < hi < |s|
    requires Stalls(compare, s, lo, hi, hi) && AlwaysLast(lo, hi, stream, at)
    ensures !RunOf(compare, s, lo, hi, stream, at, patience).finished
    decreases patience
  {
    hide TotalPreorder, Stalls, Partitioned, RunOf, PivotAt, GoodSplit;
    var t, j, stalls := RunStep(compare, s, lo, hi, stream, at, patience);
    SplitParts(compare, s, t, j, lo, hi, hi);
    if patience > 0 {
      NeverFinishes(compare, s, lo, hi, stream, at + 3, patience - 1);
    }
  }

  lemma {:induction false} PairFinishes<T(!new)>(compare: (T, T) -> int, s: seq<T>, lo: nat, hi: nat,
                                                 stream: nat -> nat, at: nat, n: nat)
    requires TotalPreorder(compare) && lo + 1 == hi < |s|
    requires n >= at && (n - at) % 3 == 0 && PivotAt(lo, hi, stream, n) != hi
    ensures RunOf(compare, s, lo, hi, stream, at, n - at).finished
    decreases n - at
  {
    hide TotalPreorder, Stalls, Partitioned, RunOf, PivotAt, GoodSplit;
    var t, j, stalls := RunStep(compare, s, lo, hi, stream, at, n - at);
    SplitParts(compare, s, t, j, lo, hi, PivotAt(lo, hi, stream, at));
    if j == hi {
      LastDrawn(compare, s, lo, hi, PivotAt(lo, hi, stream, at));
      PairFinishes(compare, s, lo, hi, stream, at + 3, n);
      MorePatience(compare, s, lo, hi, stream, at + 3, n - at - 3, n - at - 1);
    } else {
      RunTrivial(compare, t, lo, j, stream, at + 3, n - at);
    }
    var left := RunOf(compare, t, lo, j, stream, at + 3, n - at - |stalls|);
    RunTrivial(compare, left.s, j + 1, hi, stream, left.at, n - at - |stalls| - |left.stalls|);
  }

  lemma LastDrawn<T>(compare: (T, T) -> int, s: seq<T>, lo: nat, hi: nat, r: nat)
    requires hi < |s| && Stalls(compare, s, lo, hi, r)
    ensures r == hi
  {
  }

  /** Of the three values from position n on, two are even. */
  ghost predicate TwoEven(stream: nat -> nat, n: nat) {
    || (stream(n) % 2 == 0 && stream(n + 1) % 2 == 0)
    || (stream(n) % 2 == 0 && stream(n + 2) % 2 == 0)
    || (stream(n + 1) % 2 == 0 && stream(n + 2) % 2 == 0)
  }

  /** In a range of two the pivot is drawn from the last slot unless two values are even. */
  lemma PairPivot(lo: nat, hi: nat, stream: nat -> nat, n: nat)
    requires lo + 1 == hi
    ensures PivotAt(lo, hi, stream, n) != hi <==> TwoEven(stream, n)
  {
    hide PivotAt;
    PivotIsMiddle(lo, hi, stream, n);
  }

  /** The sort of two ascending elements ends if and only if not every draw hits the last slot. */
  lemma PairEndsIff<T(!new)>(compare: (T, T) -> int, s: seq<T>, lo: nat, hi: nat, stream: nat -> nat, at: nat)
    requires TotalPreorder(compare) && lo + 1 == hi < |s| && compare(s[lo], s[hi]) < 0
    ensures Ends(compare, s, lo, hi, stream, at) <==> !AlwaysLast(lo, hi, stream, at)
  {
    hide TotalPreorder, RunOf, PivotAt;
    if AlwaysLast(lo, hi, stream, at) {
      forall patience: nat ensures !RunOf(compare, s, lo, hi, stream, at, patience).finished {
        NeverFinishes(compare, s, lo, hi, stream, at, patience);
      }
    } else {
      var n: nat :| n >= at && (n - at) % 3 == 0 && PivotAt(lo, hi, stream, n) != hi;
      PairFinishes(compare, s, lo, hi, stream, at, n);
    }
  }

  /** So on the values that are drawn: it ends if and only if some pivot draw has two even values. */
  lemma PairEndsOnDraws<T(!new)>(compare: (T, T) -> int, s: seq<T>, lo: nat, hi: nat, stream: nat -> nat, at: nat)
    requires TotalPreorder(compare) && lo + 1 == hi < |s| && compare(s[lo], s[hi]) < 0
    ensures Ends(compare, s, lo, hi, stream, at)
      <==> exists n: nat :: n >= at && (n - at) % 3 == 0 && TwoEven(stream, n)
  {
    hide TotalPreorder, Ends, PivotAt, TwoEven;
    PairEndsIff(compare, s, lo, hi, stream, at);
    forall n: nat ensures PivotAt(lo, hi, stream, n) != hi <==> TwoEven(stream, n) {
      PairPivot(lo, hi, stream, n);
    }
  }
}
