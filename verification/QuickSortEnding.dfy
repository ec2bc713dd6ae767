/** When the quicksort of algolib/source/qksort.c does not end. */
module QuickSortEnding {
  import opened HoarePartition
  import opened Ordering
  import opened QuickSort

  /** The run of a sort that ends. */
  ghost function Final<T(!new)>(compare: (T, T) -> int, s: seq<T>, lo: nat, hi: int, stream: nat -> nat,
                                at: nat): (run: Run<T>)
    requires TotalPreorder(compare) && lo <= hi + 1 <= |s| && Ends(compare, s, lo, hi, stream, at)
    ensures run.finished && |run.s| == |s|
  {
    var patience: nat :| RunOf(compare, s, lo, hi, stream, at, patience).finished;
    RunOf(compare, s, lo, hi, stream, at, patience)
  }

  /** It is the same for every patience that is enough. */
  lemma FinalIs<T(!new)>(compare: (T, T) -> int, s: seq<T>, lo: nat, hi: int, stream: nat -> nat, at: nat,
                         patience: nat)
    requires TotalPreorder(compare) && lo <= hi + 1 <= |s| && RunOf(compare, s, lo, hi, stream, at, patience).finished
    ensures Ends(compare, s, lo, hi, stream, at)
    ensures RunOf(compare, s, lo, hi, stream, at, patience) == Final(compare, s, lo, hi, stream, at)
  {
    hide TotalPreorder, RunOf;
    var other: nat :| RunOf(compare, s, lo, hi, stream, at, other).finished
      && Final(compare, s, lo, hi, stream, at) == RunOf(compare, s, lo, hi, stream, at, other);
    if patience <= other {
      MorePatience(compare, s, lo, hi, stream, at, patience, other);
    } else {
      MorePatience(compare, s, lo, hi, stream, at, other, patience);
    }
  }

  lemma EnoughPatience<T(!new)>(compare: (T, T) -> int, s: seq<T>, lo: nat, hi: int, stream: nat -> nat, at: nat)
    returns (enough: nat)
    requires TotalPreorder(compare) && lo <= hi + 1 <= |s| && Ends(compare, s, lo, hi, stream, at)
    ensures |Final(compare, s, lo, hi, stream, at).stalls| <= enough
    ensures forall patience: nat :: patience >= enough ==>
      RunOf(compare, s, lo, hi, stream, at, patience) == Final(compare, s, lo, hi, stream, at)
  {
    hide TotalPreorder, RunOf;
    enough :| RunOf(compare, s, lo, hi, stream, at, enough).finished;
    FinalIs(compare, s, lo, hi, stream, at, enough);
    forall patience: nat | patience >= enough
      ensures RunOf(compare, s, lo, hi, stream, at, patience) == Final(compare, s, lo, hi, stream, at)
    {
      MorePatience(compare, s, lo, hi, stream, at, enough, patience);
    }
  }

  /** A sort ends if and only if both its calls do. */
  lemma EndsStep<T(!new)>(compare: (T, T) -> int, s: seq<T>, lo: nat, hi: nat, stream: nat -> nat, at: nat)
    returns (t: seq<T>, j: nat)
    requires TotalPreorder(compare) && lo < hi < |s|
    ensures |t| == |s| && lo <= j <= hi && (t, j) == Partitioned(compare, s, lo, hi, PivotAt(lo, hi, stream, at))
    ensures j == hi <==> Stalls(compare, s, lo, hi, PivotAt(lo, hi, stream, at))
    ensures j == hi ==> t == s
    ensures Ends(compare, s, lo, hi, stream, at)
      <==> (&& Ends(compare, t, lo, j, stream, at + 3)
            && var left := Final(compare, t, lo, j, stream, at + 3); Ends(compare, left.s, j + 1, hi, stream, left.at))
  {
    hide *;
    var stalls;
    t, j, stalls := RunStep(compare, s, lo, hi, stream, at, 0);
    SplitParts(compare, s, t, j, lo, hi, PivotAt(lo, hi, stream, at));
    if Ends(compare, s, lo, hi, stream, at) {
      var enough := EnoughPatience(compare, s, lo, hi, stream, at);
      var t', j', stalls' := RunStep(compare, s, lo, hi, stream, at, enough);
      assert t' == t && j' == j && stalls' == stalls;
      FinalIs(compare, t, lo, j, stream, at + 3, enough - |stalls|);
      var left := Final(compare, t, lo, j, stream, at + 3);
      FinalIs(compare, left.s, j + 1, hi, stream, left.at, enough - |stalls| - |left.stalls|);
    }
    if Ends(compare, t, lo, j, stream, at + 3) {
      var left := Final(compare, t, lo, j, stream, at + 3);
      if Ends(compare, left.s, j + 1, hi, stream, left.at) {
        var first := EnoughPatience(compare, t, lo, j, stream, at + 3);
        var second := EnoughPatience(compare, left.s, j + 1, hi, stream, left.at);
        var patience := |stalls| + first + second;
        var t', j', stalls' := RunStep(compare, s, lo, hi, stream, at, patience);
        assert t' == t && j' == j && stalls' == stalls;
        assert RunOf(compare, t, lo, j, stream, at + 3, patience - |stalls|) == left;
        FinalIs(compare, s, lo, hi, stream, at, patience);
      }
    }
  }

  // ----- the calls that a sort makes

  /** A call: what it finds, the range, and the place in the stream of draws. */
  datatype Part<T> = Part(s: seq<T>, lo: nat, hi: int, at: nat)

  /** The sort makes this call, nested so deep. The right call is made when the left one has ended. */
  ghost predicate Calls<T(!new)>(compare: (T, T) -> int, s: seq<T>, lo: nat, hi: int, stream: nat -> nat, at: nat,
                                 part: Part<T>, depth: nat)
    requires TotalPreorder(compare) && lo <= hi + 1 <= |s|
    decreases depth
  {
    if depth == 0 then part == Part(s, lo, hi, at)
    else
      && lo < hi
      && var (t, j) := Partitioned(compare, s, lo, hi, PivotAt(lo, hi, stream, at));
         && |t| == |s| && lo <= j <= hi
         && (|| Calls(compare, t, lo, j, stream, at + 3, part, depth - 1)
             || (&& Ends(compare, t, lo, j, stream, at + 3)
                 && var left := Final(compare, t, lo, j, stream, at + 3);
                    Calls(compare, left.s, j + 1, hi, stream, left.at, part, depth - 1)))
  }

  /** A call that never ends: the strict maximum of its range is in the last slot, and so is every pivot drawn. */
  ghost predicate Stuck<T>(compare: (T, T) -> int, stream: nat -> nat, part: Part<T>) {
    && part.lo < part.hi < |part.s|
    && Stalls(compare, part.s, part.lo, part.hi, part.hi) && AlwaysLast(part.lo, part.hi, stream, part.at)
  }

  lemma {:induction false} StuckNeverEnds<T(!new)>(compare: (T, T) -> int, s: seq<T>, lo: nat, hi: int,
                                                   stream: nat -> nat, at: nat, part: Part<T>, depth: nat)
    requires TotalPreorder(compare) && lo <= hi + 1 <= |s|
    requires Calls(compare, s, lo, hi, stream, at, part, depth) && Stuck(compare, stream, part)
    ensures !Ends(compare, s, lo, hi, stream, at)
    decreases depth
  {
    hide TotalPreorder, RunOf, Partitioned, PivotAt, Stalls, AlwaysLast;
    if depth == 0 {
      forall patience: nat ensures !RunOf(compare, s, lo, hi, stream, at, patience).finished {
        NeverFinishes(compare, s, lo, hi, stream, at, patience);
      }
    } else {
      var t, j := EndsStep(compare, s, lo, hi, stream, at);
      if Calls(compare, t, lo, j, stream, at + 3, part, depth - 1) {
        StuckNeverEnds(compare, t, lo, j, stream, at + 3, part, depth - 1);
      } else {
        var left := Final(compare, t, lo, j, stream, at + 3);
        StuckNeverEnds(compare, left.s, j + 1, hi, stream, left.at, part, depth - 1);
      }
    }
  }

  lemma CallsNext<T(!new)>(compare: (T, T) -> int, s: seq<T>, lo: nat, hi: nat, stream: nat -> nat, at: nat, t: seq<T>,
                           j: nat, part: Part<T>, depth: nat)
    requires TotalPreorder(compare) && lo < hi < |s| == |t| && lo <= j <= hi
    requires (t, j) == Partitioned(compare, s, lo, hi, PivotAt(lo, hi, stream, at))
    ensures Calls(compare, t, lo, j, stream, at + 3, part, depth) ==>
      Calls(compare, s, lo, hi, stream, at, part, depth + 1)
    ensures Ends(compare, t, lo, j, stream, at + 3) ==>
      var left := Final(compare, t, lo, j, stream, at + 3);
      Calls(compare, left.s, j + 1, hi, stream, left.at, part, depth) ==>
        Calls(compare, s, lo, hi, stream, at, part, depth + 1)
  {
    hide TotalPreorder, Partitioned, PivotAt, Ends, Final;
  }

  lemma TrivialEnds<T(!new)>(compare: (T, T) -> int, s: seq<T>, lo: nat, hi: int, stream: nat -> nat, at: nat)
    requires TotalPreorder(compare) && lo <= hi + 1 <= |s| && lo >= hi
    ensures Ends(compare, s, lo, hi, stream, at)
  {
    RunTrivial(compare, s, lo, hi, stream, at, 0);
  }

  lemma StallsLast<T>(compare: (T, T) -> int, s: seq<T>, lo: nat, hi: nat, r: nat)
    requires hi < |s| && Stalls(compare, s, lo, hi, r)
    ensures r == hi && Stalls(compare, s, lo, hi, hi)
  {
  }

  /** A sort that does not end makes a call that is stuck. */
  lemma {:induction false} FindStuck<T(!new)>(compare: (T, T) -> int, s: seq<T>, lo: nat, hi: int,
                                              stream: nat -> nat, at: nat)
    returns (part: Part<T>, depth: nat)
    requires TotalPreorder(compare) && lo <= hi + 1 <= |s| && !Ends(compare, s, lo, hi, stream, at)
    ensures Calls(compare, s, lo, hi, stream, at, part, depth) && Stuck(compare, stream, part)
    decreases hi - lo + 1, 1, 0
  {
    hide TotalPreorder, RunOf, Partitioned, PivotAt, Stalls, Ends;
    if lo >= hi {
      TrivialEnds(compare, s, lo, hi, stream, at);
      assert false;
    }
    if Stalls(compare, s, lo, hi, hi) {
      if AlwaysLast(lo, hi, stream, at) {
        part, depth := Part(s, lo, hi, at), 0;
      } else {
        var n: nat :| n >= at && (n - at) % 3 == 0 && PivotAt(lo, hi, stream, n) != hi;
        part, depth := FindStuckFrom(compare, s, lo, hi, stream, at, n);
      }
    } else {
      part, depth := FindStuckFrom(compare, s, lo, hi, stream, at, at);
    }
  }

  /** The same from a pivot draw on that is not stuck, or comes to one at n. */
  lemma {:induction false} FindStuckFrom<T(!new)>(compare: (T, T) -> int, s: seq<T>, lo: nat, hi: nat,
                                                  stream: nat -> nat, at: nat, n: nat)
    returns (part: Part<T>, depth: nat)
    requires TotalPreorder(compare) && lo < hi < |s| && !Ends(compare, s, lo, hi, stream, at)
    requires n >= at && (n - at) % 3 == 0
    requires Stalls(compare, s, lo, hi, hi) ==> PivotAt(lo, hi, stream, n) != hi
    ensures Calls(compare, s, lo, hi, stream, at, part, depth) && Stuck(compare, stream, part)
    decreases hi - lo + 1, 0, n - at
  {
    hide TotalPreorder, RunOf, Partitioned, PivotAt, Stalls, Ends, Calls, Stuck;
    var t, j := EndsStep(compare, s, lo, hi, stream, at);
    if j == hi {
      StallsLast(compare, s, lo, hi, PivotAt(lo, hi, stream, at));
      if Ends(compare, t, lo, j, stream, at + 3) {
        var left := Final(compare, t, lo, j, stream, at + 3);
        TrivialEnds(compare, left.s, j + 1, hi, stream, left.at);
        assert false;
      }
      part, depth := FindStuckFrom(compare, t, lo, j, stream, at + 3, n);
    } else if !Ends(compare, t, lo, j, stream, at + 3) {
      part, depth := FindStuck(compare, t, lo, j, stream, at + 3);
    } else {
      var left := Final(compare, t, lo, j, stream, at + 3);
      part, depth := FindStuck(compare, left.s, j + 1, hi, stream, left.at);
    }
    CallsNext(compare, s, lo, hi, stream, at, t, j, part, depth);
    depth := depth + 1;
  }

  /** The sort does not end if and only if it comes to a call on a range with the strict maximum in the last slot,
      from which on every pivot is drawn from that slot. */
  lemma NeverEndsIff<T(!new)>(compare: (T, T) -> int, s: seq<T>, lo: nat, hi: int, stream: nat -> nat, at: nat)
    requires TotalPreorder(compare) && lo <= hi + 1 <= |s|
    ensures !Ends(compare, s, lo, hi, stream, at)
      <==> exists part, depth: nat :: Calls(compare, s, lo, hi, stream, at, part, depth) && Stuck(compare, stream, part)
  {
    hide TotalPreorder, Ends, Calls, Stuck;
    if !Ends(compare, s, lo, hi, stream, at) {
      var part, depth := FindStuck(compare, s, lo, hi, stream, at);
    }
    if part, depth: nat :| Calls(compare, s, lo, hi, stream, at, part, depth) && Stuck(compare, stream, part) {
      StuckNeverEnds(compare, s, lo, hi, stream, at, part, depth);
    }
  }
}
