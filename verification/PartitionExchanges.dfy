/** Which elements change places in the partition of algolib/source/qksort.c. */
module PartitionExchanges {
  import opened HoarePartition
  import opened Ordering

  /** How far the two scans have come after these exchanges. */
  function UpTo(up: seq<nat>, lo: nat): int {
    if up == [] then lo - 1 else up[|up| - 1]
  }

  function DownTo(down: seq<nat>, hi: nat): int {
    if down == [] then hi + 1 else down[|down| - 1]
  }

  /** The scans move towards each other. */
  ghost predicate Closing(up: seq<nat>, down: seq<nat>, lo: nat, hi: nat) {
    && |up| == |down| && lo - 1 <= UpTo(up, lo) < DownTo(down, hi) <= hi + 1
    && (forall e, f :: 0 <= e < f < |up| ==> up[e] < up[f] && down[e] > down[f])
    && (forall e :: 0 <= e < |up| ==> lo <= up[e] <= UpTo(up, lo) && DownTo(down, hi) <= down[e] <= hi)
  }

  /** They have stopped at all elements not below p, and at all elements not above p. */
  ghost predicate Stopped<T>(compare: (T, T) -> int, was: seq<T>, lo: nat, hi: nat, p: T, up: seq<nat>, down: seq<nat>)
    requires lo <= hi < |was| && Closing(up, down, lo, hi)
  {
    && (forall q: nat :: lo <= q <= UpTo(up, lo) ==> (q in up <==> compare(was[q], p) >= 0))
    && (forall q: nat :: DownTo(down, hi) <= q <= hi ==> (q in down <==> compare(was[q], p) <= 0))
  }

  /** In s these elements have changed places in pairs, and nothing else has moved. */
  ghost predicate Traded<T>(was: seq<T>, s: seq<T>, up: seq<nat>, down: seq<nat>) {
    && |s| == |was| && |up| == |down|
    && (forall e :: 0 <= e < |up| ==> up[e] < |s| && down[e] < |s|)
    && (forall e :: 0 <= e < |up| ==> s[up[e]] == was[down[e]] && s[down[e]] == was[up[e]])
    && (forall q: nat :: q < |s| && q !in up && q !in down ==> s[q] == was[q])
  }

  /** The positions `up` are, from lo on upwards, the first that hold an element not below p, and `down`, from hi on
      downwards, the first that hold one not above p; they have not met. In s they have changed places. */
  ghost predicate Exchanged<T>(compare: (T, T) -> int, was: seq<T>, s: seq<T>, lo: nat, hi: nat, p: T,
                               up: seq<nat>, down: seq<nat>)
    requires lo <= hi < |was|
  {
    Closing(up, down, lo, hi) && Stopped(compare, was, lo, hi, p, up, down) && Traded(was, s, up, down)
  }

  /** No further pair is left between the scans, and j is where the downward one stops. */
  ghost predicate ScansMeet<T>(compare: (T, T) -> int, s: seq<T>, p: T, i: int, k: int, j: int)
    requires -1 <= i < k <= |s|
  {
    && 0 <= j < k && compare(s[j], p) <= 0
    && (forall q :: i < q < j ==> compare(s[q], p) < 0)
    && (forall q :: j < q < k ==> compare(s[q], p) > 0)
  }

  /** The exchanges and the place where the scans meet. */
  ghost predicate Outcome<T>(compare: (T, T) -> int, was: seq<T>, lo: nat, hi: nat, p: T, t: seq<T>, j: int,
                             up: seq<nat>, down: seq<nat>)
    requires lo <= hi < |was|
  {
    && Exchanged(compare, was, t, lo, hi, p, up, down)
    && ScansMeet(compare, t, p, UpTo(up, lo), DownTo(down, hi), j)
  }

  lemma InMore(s: seq<nat>, x: nat)
    ensures forall q: nat :: q in s + [x] <==> q in s || q == x
  {
    forall q: nat ensures q in s + [x] <==> q in s || q == x {
      assert (s + [x])[|s|] == x;
    }
  }

  lemma ClosingNext(up: seq<nat>, down: seq<nat>, lo: nat, hi: nat, i: nat, k: nat)
    requires Closing(up, down, lo, hi) && UpTo(up, lo) < i < k < DownTo(down, hi)
    ensures Closing(up + [i], down + [k], lo, hi)
    ensures UpTo(up + [i], lo) == i && DownTo(down + [k], hi) == k
    ensures -1 <= UpTo(up, lo) && DownTo(down, hi) <= hi + 1
  {
  }

  /** Between the scans nothing has moved. */
  lemma Untouched<T>(was: seq<T>, s: seq<T>, lo: nat, hi: nat, up: seq<nat>, down: seq<nat>)
    requires Closing(up, down, lo, hi) && Traded(was, s, up, down)
    ensures forall q: nat :: UpTo(up, lo) < q < DownTo(down, hi) ==> q !in up && q !in down
    ensures forall q: nat :: UpTo(up, lo) < q < DownTo(down, hi) && q < |s| ==> s[q] == was[q]
  {
  }

  lemma StopsAtNext<T>(compare: (T, T) -> int, was: seq<T>, s: seq<T>, lo: nat, p: T, up: seq<nat>, from: int, i: nat)
    requires lo - 1 <= from < i < |s| == |was|
    requires forall q: nat :: q in up ==> q <= from
    requires forall q: nat :: lo <= q <= from ==> (q in up <==> compare(was[q], p) >= 0)
    requires forall q: nat :: from < q <= i ==> s[q] == was[q]
    requires compare(s[i], p) >= 0 && forall q :: from < q < i ==> compare(s[q], p) < 0
    ensures forall q: nat :: lo <= q <= i ==> (q in up + [i] <==> compare(was[q], p) >= 0)
  {
    InMore(up, i);
    forall q: nat | lo <= q <= i ensures q in up + [i] <==> compare(was[q], p) >= 0 {
      if q > from {
        assert s[q] == was[q];
      }
    }
  }

  lemma StopsDownAtNext<T>(compare: (T, T) -> int, was: seq<T>, s: seq<T>, hi: nat, p: T, down: seq<nat>, from: int,
                           k: nat)
    requires k < from <= hi + 1 <= |s| == |was|
    requires forall q: nat :: q in down ==> q >= from
    requires forall q: nat :: from <= q <= hi ==> (q in down <==> compare(was[q], p) <= 0)
    requires forall q: nat :: k <= q < from ==> s[q] == was[q]
    requires compare(s[k], p) <= 0 && forall q :: k < q < from ==> compare(s[q], p) > 0
    ensures forall q: nat :: k <= q <= hi ==> (q in down + [k] <==> compare(was[q], p) <= 0)
  {
    InMore(down, k);
    forall q: nat | k <= q <= hi ensures q in down + [k] <==> compare(was[q], p) <= 0 {
      if q < from {
        assert s[q] == was[q];
      }
    }
  }

  lemma StoppedParts<T>(compare: (T, T) -> int, was: seq<T>, lo: nat, hi: nat, p: T, up: seq<nat>, down: seq<nat>)
    requires lo <= hi < |was| && Closing(up, down, lo, hi)
    ensures forall q: nat :: q in up ==> q <= UpTo(up, lo)
    ensures forall q: nat :: q in down ==> q >= DownTo(down, hi)
    ensures lo - 1 <= UpTo(up, lo) && DownTo(down, hi) <= hi + 1
  {
  }

  lemma StoppedNext<T>(compare: (T, T) -> int, was: seq<T>, s: seq<T>, lo: nat, hi: nat, p: T, up: seq<nat>,
                       down: seq<nat>, i: nat, k: nat)
    requires lo <= hi < |was| == |s| && Closing(up, down, lo, hi) && Stopped(compare, was, lo, hi, p, up, down)
    requires UpTo(up, lo) < i < k < DownTo(down, hi)
    requires forall q: nat :: UpTo(up, lo) < q < DownTo(down, hi) && q < |s| ==> s[q] == was[q]
    requires -1 <= UpTo(up, lo) && DownTo(down, hi) <= |s|
    requires Scanned(compare, s, p, UpTo(up, lo), DownTo(down, hi), i, k)
    requires Closing(up + [i], down + [k], lo, hi) && UpTo(up + [i], lo) == i && DownTo(down + [k], hi) == k
    ensures Stopped(compare, was, lo, hi, p, up + [i], down + [k])
  {
    hide Closing, UpTo, DownTo;
    StoppedParts(compare, was, lo, hi, p, up, down);
    StopsAtNext(compare, was, s, lo, p, up, UpTo(up, lo), i);
    StopsDownAtNext(compare, was, s, hi, p, down, DownTo(down, hi), k);
  }

  lemma TradedNext<T>(was: seq<T>, s: seq<T>, up: seq<nat>, down: seq<nat>, i: nat, k: nat)
    requires Traded(was, s, up, down) && i < |s| && k < |s|
    requires i !in up && i !in down && k !in up && k !in down && i != k
    ensures Traded(was, s[i := s[k]][k := s[i]], up + [i], down + [k])
  {
    var t := s[i := s[k]][k := s[i]];
    InMore(up, i);
    InMore(down, k);
    forall e | 0 <= e < |up| ensures t[up[e]] == s[up[e]] && t[down[e]] == s[down[e]] {
      assert up[e] in up && down[e] in down;
    }
  }

  lemma ExchangeNext<T>(compare: (T, T) -> int, was: seq<T>, s: seq<T>, lo: nat, hi: nat, p: T, up: seq<nat>,
                        down: seq<nat>, i: nat, k: nat)
    requires lo <= hi < |was| && Exchanged(compare, was, s, lo, hi, p, up, down) && |s| == |was|
    requires UpTo(up, lo) < i < k < DownTo(down, hi) && Scanned(compare, s, p, UpTo(up, lo), DownTo(down, hi), i, k)
    ensures Exchanged(compare, was, s[i := s[k]][k := s[i]], lo, hi, p, up + [i], down + [k])
    ensures UpTo(up + [i], lo) == i && DownTo(down + [k], hi) == k
  {
    hide Closing, Stopped, Traded, Scanned, UpTo, DownTo;
    ClosingNext(up, down, lo, hi, i, k);
    Untouched(was, s, lo, hi, up, down);
    StoppedNext(compare, was, s, lo, hi, p, up, down, i, k);
    TradedNext(was, s, up, down, i, k);
  }

  lemma {:induction false} HoareExchanges<T>(compare: (T, T) -> int, was: seq<T>, s: seq<T>, lo: nat, hi: nat, r: nat,
                                             stopDown: nat, stopUp: nat, met: nat, up: seq<nat>, down: seq<nat>)
    returns (up': seq<nat>, down': seq<nat>)
    requires lo <= r <= hi < |was| && Exchanged(compare, was, s, lo, hi, was[r], up, down)
    requires Partway(compare, was, s, lo, hi, r, UpTo(up, lo), DownTo(down, hi), stopDown, stopUp, met)
    ensures var (t, j) := Hoare(compare, s, was[r], UpTo(up, lo), DownTo(down, hi));
      Outcome(compare, was, lo, hi, was[r], t, j, up', down')
    decreases DownTo(down, hi) - UpTo(up, lo)
  {
    hide AllAtMost, AllAtLeast, Rearranged, Stalls, Scanned, Up, Down, Exchanged, UpTo, DownTo, ScansMeet, Partway;
    var i, k, p := UpTo(up, lo), DownTo(down, hi), was[r];
    ExchangedLength(compare, was, s, lo, hi, p, up, down);
    Round(compare, was, s, lo, hi, r, i, k, stopDown, stopUp, met);
    var i', k' := Up(compare, s, i + 1, p), Down(compare, s, k - 1, p);
    Scans(compare, s, p, i, k, stopDown, stopUp);
    if i' >= k' {
      up', down' := up, down;
      Meeting(compare, s, p, i, k, i', k');
    } else {
      ExchangeNext(compare, was, s, lo, hi, p, up, down, i', k');
      up', down' := HoareExchanges(compare, was, s[i' := s[k']][k' := s[i']], lo, hi, r, i', k',
                                   if met == hi then i' else met, up + [i'], down + [k']);
    }
  }

  lemma ExchangedLength<T>(compare: (T, T) -> int, was: seq<T>, s: seq<T>, lo: nat, hi: nat, p: T, up: seq<nat>,
                           down: seq<nat>)
    requires lo <= hi < |was| && Exchanged(compare, was, s, lo, hi, p, up, down)
    ensures |s| == |was|
  {
  }

  lemma Meeting<T>(compare: (T, T) -> int, s: seq<T>, p: T, i: int, k: int, i': nat, k': nat)
    requires -1 <= i < k <= |s| && i < i' < |s| && k' < k && Scanned(compare, s, p, i, k, i', k') && i' >= k'
    ensures ScansMeet(compare, s, p, i, k, k')
  {
  }

  /** So the result is settled: elements not below the pivot, from the left, and elements not above it, from the
      right, have changed places in pairs until the scans met. */
  lemma PartitionExchanges<T(!new)>(compare: (T, T) -> int, s: seq<T>, lo: nat, hi: nat, r: nat)
    returns (up: seq<nat>, down: seq<nat>)
    requires TotalPreorder(compare) && lo <= r <= hi < |s|
    ensures var (t, j) := Partitioned(compare, s, lo, hi, r); Outcome(compare, s, lo, hi, s[r], t, j, up, down)
  {
    hide Hoare;
    assert !(compare(s[r], s[r]) > 0) && !(compare(s[r], s[r]) < 0);
    NothingScanned(compare, s, lo, hi, r);
    up, down := HoareExchanges(compare, s, s, lo, hi, r, r, r, hi, [], []);
  }

  lemma SameStops<T>(compare: (T, T) -> int, was: seq<T>, lo: nat, hi: nat, p: T, up: seq<nat>, down: seq<nat>,
                     up': seq<nat>, down': seq<nat>, e: nat)
    requires lo <= hi < |was| && Closing(up, down, lo, hi) && Stopped(compare, was, lo, hi, p, up, down)
    requires Closing(up', down', lo, hi) && Stopped(compare, was, lo, hi, p, up', down')
    requires e < |up| && e < |up'|
    requires forall f :: 0 <= f < e ==> up[f] == up'[f] && down[f] == down'[f]
    ensures up[e] <= up'[e] && down[e] >= down'[e]
  {
    if up'[e] <= UpTo(up, lo) {
      assert up'[e] in up';
      var f :| 0 <= f < |up| && up[f] == up'[e];
      if f < e {
        assert false;
      }
    }
    if down'[e] >= DownTo(down, hi) {
      assert down'[e] in down';
      var f :| 0 <= f < |down| && down[f] == down'[e];
      if f < e {
        assert false;
      }
    }
  }

  lemma {:induction false} SamePrefix<T>(compare: (T, T) -> int, was: seq<T>, lo: nat, hi: nat, p: T, up: seq<nat>,
                                         down: seq<nat>, up': seq<nat>, down': seq<nat>, n: nat)
    requires lo <= hi < |was| && Closing(up, down, lo, hi) && Stopped(compare, was, lo, hi, p, up, down)
    requires Closing(up', down', lo, hi) && Stopped(compare, was, lo, hi, p, up', down')
    requires n <= |up| && n <= |up'|
    ensures |down| == |up| && |down'| == |up'|
    ensures forall f :: 0 <= f < n ==> up[f] == up'[f] && down[f] == down'[f]
  {
    if n > 0 {
      SamePrefix(compare, was, lo, hi, p, up, down, up', down', n - 1);
      SameStops(compare, was, lo, hi, p, up, down, up', down', n - 1);
      SameStops(compare, was, lo, hi, p, up', down', up, down, n - 1);
    }
  }

  lemma NoMoreStops<T>(compare: (T, T) -> int, was: seq<T>, lo: nat, hi: nat, p: T, t: seq<T>, j: int, up: seq<nat>,
                       down: seq<nat>, up': seq<nat>, down': seq<nat>)
    requires lo <= hi < |was| && Outcome(compare, was, lo, hi, p, t, j, up, down)
    requires Closing(up', down', lo, hi) && Stopped(compare, was, lo, hi, p, up', down')
    ensures |up'| <= |up|
  {
    if |up| < |up'| {
      var m := |up|;
      SamePrefix(compare, was, lo, hi, p, up, down, up', down', m);
      var q, r := up'[m], down'[m];
      assert q in up' && r in down';
      assert UpTo(up, lo) < q < r < DownTo(down, hi);
      Untouched(was, t, lo, hi, up, down);
      assert false;
    }
  }

  /** Nothing else is possible. */
  lemma OutcomeUnique<T>(compare: (T, T) -> int, was: seq<T>, lo: nat, hi: nat, p: T, t: seq<T>, j: int, up: seq<nat>,
                         down: seq<nat>, t': seq<T>, j': int, up': seq<nat>, down': seq<nat>)
    requires lo <= hi < |was|
    requires Outcome(compare, was, lo, hi, p, t, j, up, down) && Outcome(compare, was, lo, hi, p, t', j', up', down')
    ensures t == t' && j == j' && up == up' && down == down'
  {
    NoMoreStops(compare, was, lo, hi, p, t, j, up, down, up', down');
    NoMoreStops(compare, was, lo, hi, p, t', j', up', down', up, down);
    SamePrefix(compare, was, lo, hi, p, up, down, up', down', |up|);
    assert up == up' && down == down';
    SameTrade(was, t, t', up, down);
  }

  lemma SameTrade<T>(was: seq<T>, t: seq<T>, t': seq<T>, up: seq<nat>, down: seq<nat>)
    requires Traded(was, t, up, down) && Traded(was, t', up, down)
    ensures t == t'
  {
    forall q | 0 <= q < |was| ensures t[q] == t'[q] {
      if q in up {
        var e :| 0 <= e < |up| && up[e] == q;
      } else if q in down {
        var e :| 0 <= e < |down| && down[e] == q;
      }
    }
  }
}
