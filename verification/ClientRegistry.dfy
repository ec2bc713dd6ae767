/**
 The client list under every interleaving, cserver/tcp.c. A thread touches the list twice, both times under the
 one lock, so a run is a sequence of such locked sections.
 */
module ClientRegistry {
  import opened LinkedList
  import opened ClientList

  /** Threads are numbered; each has the record of its client. `entered` are the threads that have registered,
      in that order, `left` those that have deregistered since, and `freed` those whose record has been freed. */
  datatype State = State(registry: seq<nat>, entered: seq<nat>, left: set<nat>, freed: set<nat>, bugs: nat)

  const START := State([], [], {}, {}, 0)

  type Threads = nat -> int

  /** The id in the record of each thread, and what the thread reads there after the record has been freed. */
  datatype Clients = Clients(ids: Threads, stale: Threads)

  function IdsOf(ids: Threads, registry: seq<nat>): (r: seq<int>)
    ensures |r| == |registry| && forall i :: 0 <= i < |r| ==> r[i] == ids(registry[i])
  {
    seq(|registry|, i requires 0 <= i < |registry| => ids(registry[i]))
  }

  /** The next locked section of thread t. */
  function Advance(c: Clients, s: State, t: nat): State {
    if t !in s.entered then
      s.(registry := [t] + s.registry, entered := s.entered + [t])
    else if t in s.left then s
    else
      var id, left := if t in s.freed then c.stale(t) else c.ids(t), s.left + {t};
      var k := First(IdsOf(c.ids, s.registry), id);
      if k < |s.registry| then
        s.(registry := s.registry[..k] + s.registry[k + 1..], left := left, freed := s.freed + {s.registry[k]})
      else s.(left := left, bugs := s.bugs + 1)
  }

  /** The state after the locked sections of the threads in the order of the schedule. */
  function After(c: Clients, schedule: seq<nat>): State {
    if schedule == [] then START
    else Advance(c, After(c, schedule[..|schedule| - 1]), schedule[|schedule| - 1])
  }

  /** The threads between their two locked sections, the one that registered last first. */
  function Live(entered: seq<nat>, left: set<nat>): seq<nat> {
    if entered == [] then []
    else
      var n := |entered| - 1;
      (if entered[n] in left then [] else [entered[n]]) + Live(entered[..n], left)
  }

  predicate Serving(s: State, t: nat) {
    t in s.entered && t !in s.left
  }

  /** Above all, no record in the registry has been freed, so the finder never reads freed memory. */
  ghost predicate Orderly(s: State) {
    && Distinct(s.entered) && Distinct(s.registry)
    && (forall t :: t in s.left ==> t in s.entered)
    && (forall t :: t in s.registry ==> t in s.entered && t !in s.freed)
    && (forall t :: t in s.freed ==> t in s.entered)
  }

  lemma {:induction false} LiveMembers(entered: seq<nat>, left: set<nat>, t: nat)
    ensures t in Live(entered, left) <==> t in entered && t !in left
  {
    if entered != [] {
      var n := |entered| - 1;
      assert entered == entered[..n] + [entered[n]];
      LiveMembers(entered[..n], left, t);
    }
  }

  lemma {:induction false} LiveWithout(entered: seq<nat>, left: set<nat>, t: nat)
    requires t !in entered
    ensures Live(entered, left + {t}) == Live(entered, left)
  {
    if entered != [] {
      var n := |entered| - 1;
      assert entered == entered[..n] + [entered[n]];
      LiveWithout(entered[..n], left, t);
    }
  }

  lemma LiveLast(older: seq<nat>, t: nat, left: set<nat>)
    ensures Live([], left) == []
    ensures Live(older + [t], left) == (if t in left then [] else [t]) + Live(older, left)
  {
    assert (older + [t])[..|older|] == older;
  }

  lemma {:induction false} LiveSplit(older: seq<nat>, newer: seq<nat>, left: set<nat>)
    ensures Live(older + newer, left) == Live(newer, left) + Live(older, left)
  {
    hide Live;
    if newer == [] {
      assert older + newer == older;
      LiveLast([], 0, left);
    } else {
      var n := |newer| - 1;
      var most, t := newer[..n], newer[n];
      LiveSplit(older, most, left);
      LiveLast(most, t, left);
      LiveLast(older + most, t, left);
      assert newer == most + [t] && older + newer == (older + most) + [t];
    }
  }

  lemma Position(s: seq<nat>, t: nat) returns (i: nat)
    requires t in s
    ensures i < |s| && s[i] == t
  {
    i :| 0 <= i < |s| && s[i] == t;
  }

  /** The live threads around the i-th one to register, before and after it leaves. */
  lemma LiveAround(entered: seq<nat>, left: set<nat>, i: nat)
    requires i < |entered| && entered[i] !in left
    requires Distinct(entered)
    ensures Live(entered, left) == Live(entered[i + 1..], left) + [entered[i]] + Live(entered[..i], left)
    ensures Live(entered, left + {entered[i]}) == Live(entered[i + 1..], left) + Live(entered[..i], left)
  {
    hide Live;
    var t, older, newer := entered[i], entered[..i], entered[i + 1..];
    assert entered == (older + [t]) + newer;
    LiveSplit(older + [t], newer, left);
    LiveSplit(older + [t], newer, left + {t});
    LiveLast(older, t, left);
    LiveLast(older, t, left + {t});
    LiveWithout(older, left, t);
    LiveWithout(newer, left, t);
  }

  /** The threads at the positions `at`, from the last one to the first, are those that have not left. */
  ghost predicate PickedBackwards(entered: seq<nat>, left: set<nat>, live: seq<nat>, at: seq<nat>) {
    && |at| == |live| && (forall i, j :: 0 <= i < j < |at| ==> at[i] > at[j])
    && (forall i :: 0 <= i < |at| ==> at[i] < |entered| && live[i] == entered[at[i]])
    && (forall m: nat :: m in at <==> m < |entered| && entered[m] !in left)
  }

  lemma PickedOneMore(entered: seq<nat>, left: set<nat>, live: seq<nat>, at: seq<nat>, t: nat)
    requires PickedBackwards(entered, left, live, at)
    ensures t in left ==> PickedBackwards(entered + [t], left, live, at)
    ensures t !in left ==> PickedBackwards(entered + [t], left, [t] + live, [|entered|] + at)
  {
    var n := |entered|;
    forall m: nat ensures m in [n] + at <==> m == n || m in at {
    }
  }

  /** The live threads stand in the reverse of the order in which they have registered. */
  lemma {:induction false} NewestFirst(entered: seq<nat>, left: set<nat>) returns (at: seq<nat>)
    ensures PickedBackwards(entered, left, Live(entered, left), at)
  {
    hide PickedBackwards, Live;
    LiveLast([], 0, left);
    if entered == [] {
      at := [];
      assert PickedBackwards([], left, [], []) by { NonePicked(left); }
    } else {
      var n := |entered| - 1;
      at := NewestFirst(entered[..n], left);
      LiveLast(entered[..n], entered[n], left);
      PickedOneMore(entered[..n], left, Live(entered[..n], left), at, entered[n]);
      assert entered == entered[..n] + [entered[n]] && [] + Live(entered[..n], left) == Live(entered[..n], left);
      if entered[n] !in left {
        at := [n] + at;
      }
    }
  }

  lemma NonePicked(left: set<nat>)
    ensures PickedBackwards([], left, [], [])
  {
  }

  /** The registry holds the live threads, each once and the newest first, and no bug has been reported. */
  ghost predicate Exactly(s: State) {
    s.registry == Live(s.entered, s.left) && s.bugs == 0
  }

  /** A live thread that registered after t has the same id. */
  ghost predicate Overtaken(ids: Threads, s: State, t: nat) {
    exists i, j :: 0 <= i < j < |s.entered| && s.entered[i] == t &&
      s.entered[j] !in s.left && ids(s.entered[j]) == ids(t)
  }

  lemma EntersExactly(c: Clients, s: State, t: nat)
    requires Orderly(s) && Exactly(s) && !Serving(s, t)
    ensures Exactly(Advance(c, s, t))
  {
    if t !in s.entered {
      assert (s.entered + [t])[..|s.entered|] == s.entered;
    }
  }

  lemma OrderlyParts(s: State)
    requires Orderly(s)
    ensures Distinct(s.entered) && Distinct(s.registry)
    ensures forall t :: t in s.registry ==> t !in s.freed
  {
  }

  /** The record that a leaving thread finds and drops, when the registry is exact: its own, or that of a newer
      live client with the same id. */
  lemma FoundBy(c: Clients, s: State, t: nat) returns (k: nat)
    requires Orderly(s) && Exactly(s) && Serving(s, t)
    ensures t !in s.freed && k == First(IdsOf(c.ids, s.registry), c.ids(t)) < |s.registry|
    ensures s.registry[k] in s.entered && s.registry[k] !in s.left
    ensures s.registry[k] == t <==> !Overtaken(c.ids, s, t)
    ensures s.registry[k] == t ==> Live(s.entered, s.left + {t}) == s.registry[..k] + s.registry[k + 1..]
  {
    hide Live, Orderly;
    var ids := c.ids;
    var i := Position(s.entered, t);
    OrderlyParts(s);
    LiveAround(s.entered, s.left, i);
    var newer, older := Live(s.entered[i + 1..], s.left), Live(s.entered[..i], s.left);
    assert s.registry == newer + [t] + older;
    assert s.registry[|newer|] == t && IdsOf(ids, s.registry)[|newer|] == ids(t);
    k := First(IdsOf(ids, s.registry), ids(t));
    LiveMembers(s.entered, s.left, s.registry[k]);
    if Overtaken(ids, s, t) {
      var i', j :| 0 <= i' < j < |s.entered| && s.entered[i'] == t &&
        s.entered[j] !in s.left && ids(s.entered[j]) == ids(t);
      assert s.entered[i + 1..][j - i - 1] == s.entered[j];
      LiveMembers(s.entered[i + 1..], s.left, s.entered[j]);
      var m := Position(newer, s.entered[j]);
      assert IdsOf(ids, s.registry)[m] == ids(t);
    } else {
      forall m | 0 <= m < |newer| ensures ids(newer[m]) != ids(t) {
        LiveMembers(s.entered[i + 1..], s.left, newer[m]);
        var j := Position(s.entered[i + 1..], newer[m]);
        assert s.entered[i + 1 + j] == newer[m];
      }
      FirstUnique(IdsOf(ids, s.registry), ids(t), |newer|);
    }
  }

  /** A thread finds and removes its own record exactly when no newer live client has the same id. */
  lemma LeavesExactlyIff(c: Clients, s: State, t: nat)
    requires Orderly(s) && Exactly(s) && Serving(s, t)
    ensures Exactly(Advance(c, s, t)) <==> !Overtaken(c.ids, s, t)
  {
    hide Live, Orderly, Overtaken;
    var k := FoundBy(c, s, t);
    OrderlyParts(s);
    if s.registry[k] != t {
      ExactMembers(s);
      var m := Position(s.registry, t);
      var rest := s.registry[..k] + s.registry[k + 1..];
      assert rest[if m < k then m else m - 1] == t;
      LiveMembers(s.entered, s.left + {t}, t);
    }
  }

  /** No live thread has lost its record. */
  ghost predicate Safe(s: State) {
    forall t :: Serving(s, t) ==> t !in s.freed
  }

  lemma ExactSafe(s: State)
    requires Orderly(s) && Exactly(s)
    ensures Safe(s)
  {
    hide Orderly;
    OrderlyParts(s);
    ExactMembers(s);
  }

  /** Otherwise it frees the record of a thread that still uses it. */
  lemma LeavesSafelyIff(c: Clients, s: State, t: nat)
    requires Orderly(s) && Exactly(s) && Serving(s, t)
    ensures Safe(Advance(c, s, t)) <==> !Overtaken(c.ids, s, t)
  {
    hide Live, Orderly, Overtaken, Exactly;
    var k := FoundBy(c, s, t);
    ExactSafe(s);
    var s' := Advance(c, s, t);
    if s.registry[k] != t {
      assert Serving(s', s.registry[k]) && s.registry[k] in s'.freed;
    }
  }

  lemma {:induction false} AfterOrderly(c: Clients, schedule: seq<nat>)
    ensures Orderly(After(c, schedule))
  {
    hide Orderly;
    if schedule == [] {
      StartOrderly();
    } else {
      AfterOrderly(c, schedule[..|schedule| - 1]);
      AdvanceOrderly(c, After(c, schedule[..|schedule| - 1]), schedule[|schedule| - 1]);
    }
  }

  lemma StartOrderly()
    ensures Orderly(START)
  {
  }

  lemma AdvanceOrderly(c: Clients, s: State, t: nat)
    requires Orderly(s)
    ensures Orderly(Advance(c, s, t))
  {
    hide First, IdsOf;
    var s' := Advance(c, s, t);
    if t in s.entered && t !in s.left {
      var k := First(IdsOf(c.ids, s.registry), if t in s.freed then c.stale(t) else c.ids(t));
      if k < |s.registry| {
        DistinctRemove(s.registry, k);
        forall u | u in s'.registry ensures u in s.registry && u != s.registry[k] {
          var m := Position(s'.registry, u);
          assert u == s.registry[if m < k then m else m + 1];
        }
      }
    } else if t !in s.entered {
      assert forall i :: 0 < i < |s'.registry| ==> s'.registry[i] == s.registry[i - 1] && s'.registry[i] in s.registry;
    }
  }

  /** Whatever happens, each thread that leaves either has a record dropped and freed or reports a bug. */
  lemma {:induction false} DroppedOrReported(c: Clients, schedule: seq<nat>)
    ensures var s := After(c, schedule);
      |s.registry| + |s.left| == |s.entered| + s.bugs && |s.freed| + s.bugs == |s.left|
  {
    hide Advance, Orderly;
    if schedule != [] {
      var before, t := After(c, schedule[..|schedule| - 1]), schedule[|schedule| - 1];
      DroppedOrReported(c, schedule[..|schedule| - 1]);
      AfterOrderly(c, schedule[..|schedule| - 1]);
      AdvanceCounts(c, before, t);
    }
  }

  lemma AdvanceCounts(c: Clients, s: State, t: nat)
    requires Orderly(s)
    ensures var s' := Advance(c, s, t);
      && |s'.registry| + |s'.left| - |s'.entered| - s'.bugs == |s.registry| + |s.left| - |s.entered| - s.bugs
      && |s'.freed| + s'.bugs - |s'.left| == |s.freed| + s.bugs - |s.left|
  {
    hide Orderly;
    OrderlyParts(s);
    var id := if t in s.freed then c.stale(t) else c.ids(t);
    var k := First(IdsOf(c.ids, s.registry), id);
    if k < |s.registry| {
      assert s.registry[k] in s.registry && s.registry[k] !in s.freed;
    }
  }

  // ----- runs in which every thread removes its own record

  ghost predicate ExactAt(c: Clients, schedule: seq<nat>, n: nat)
    requires n <= |schedule|
  {
    Exactly(After(c, schedule[..n]))
  }

  /** The n-th locked section is not that of a leaving thread with a newer live namesake. */
  ghost predicate NotOvertakenAt(c: Clients, schedule: seq<nat>, n: nat)
    requires n < |schedule|
  {
    var s := After(c, schedule[..n]);
    Serving(s, schedule[n]) ==> !Overtaken(c.ids, s, schedule[n])
  }

  ghost predicate SafeAt(c: Clients, schedule: seq<nat>, n: nat)
    requires n <= |schedule|
  {
    Safe(After(c, schedule[..n]))
  }

  lemma StepAt(c: Clients, schedule: seq<nat>, n: nat)
    requires n < |schedule| && ExactAt(c, schedule, n)
    ensures ExactAt(c, schedule, n + 1) <==> NotOvertakenAt(c, schedule, n)
    ensures SafeAt(c, schedule, n + 1) <==> NotOvertakenAt(c, schedule, n)
  {
    hide Exactly, Overtaken, Orderly, Safe;
    var s, t := After(c, schedule[..n]), schedule[n];
    assert schedule[..n + 1][..n] == schedule[..n];
    AfterOrderly(c, schedule[..n]);
    if Serving(s, t) {
      LeavesExactlyIff(c, s, t);
      LeavesSafelyIff(c, s, t);
    } else {
      EntersExactly(c, s, t);
      AdvanceOrderly(c, s, t);
      ExactSafe(Advance(c, s, t));
    }
  }

  lemma {:induction false} ExactUpTo(c: Clients, schedule: seq<nat>, n: nat)
    requires n <= |schedule| && forall m :: 0 <= m < n ==> NotOvertakenAt(c, schedule, m)
    ensures ExactAt(c, schedule, n)
  {
    if n == 0 {
      assert schedule[..0] == [];
    } else {
      ExactUpTo(c, schedule, n - 1);
      StepAt(c, schedule, n - 1);
    }
  }

  /** Over a whole run, the registry is always exactly the live clients if and only if no thread ever leaves
      while a newer client with the same id is still there. */
  lemma ExactRunIff(c: Clients, schedule: seq<nat>)
    ensures (forall n :: 0 <= n <= |schedule| ==> ExactAt(c, schedule, n))
      <==> (forall n :: 0 <= n < |schedule| ==> NotOvertakenAt(c, schedule, n))
  {
    hide ExactAt, NotOvertakenAt;
    if forall n :: 0 <= n < |schedule| ==> NotOvertakenAt(c, schedule, n) {
      forall n | 0 <= n <= |schedule| ensures ExactAt(c, schedule, n) {
        ExactUpTo(c, schedule, n);
      }
    }
    if forall n :: 0 <= n <= |schedule| ==> ExactAt(c, schedule, n) {
      forall n | 0 <= n < |schedule| ensures NotOvertakenAt(c, schedule, n) {
        StepAt(c, schedule, n);
      }
    }
  }

  lemma {:induction false} SafeUpTo(c: Clients, schedule: seq<nat>, n: nat)
    requires n <= |schedule| && forall m :: 0 <= m <= |schedule| ==> SafeAt(c, schedule, m)
    ensures ExactAt(c, schedule, n) && forall m :: 0 <= m < n ==> NotOvertakenAt(c, schedule, m)
  {
    hide SafeAt, NotOvertakenAt;
    if n == 0 {
      assert schedule[..0] == [];
    } else {
      SafeUpTo(c, schedule, n - 1);
      StepAt(c, schedule, n - 1);
    }
  }

  /** Over a whole run, no thread ever loses its record to another one under the same condition. */
  lemma SafeRunIff(c: Clients, schedule: seq<nat>)
    ensures (forall n :: 0 <= n <= |schedule| ==> SafeAt(c, schedule, n))
      <==> (forall n :: 0 <= n < |schedule| ==> NotOvertakenAt(c, schedule, n))
  {
    if forall n :: 0 <= n < |schedule| ==> NotOvertakenAt(c, schedule, n) {
      forall n | 0 <= n <= |schedule| ensures SafeAt(c, schedule, n) {
        hide Exactly, Orderly, Safe, NotOvertakenAt;
        ExactUpTo(c, schedule, n);
        AfterOrderly(c, schedule[..n]);
        ExactSafe(After(c, schedule[..n]));
      }
    }
    if forall n :: 0 <= n <= |schedule| ==> SafeAt(c, schedule, n) {
      hide SafeAt, NotOvertakenAt;
      SafeUpTo(c, schedule, |schedule|);
    }
  }

  /** Two clients with one id: when the first of them leaves, the record of the second is dropped and freed. */
  lemma NamesakeDropped(c: Clients, t: nat, t': nat)
    requires t != t' && c.ids(t) == c.ids(t')
    ensures var s := After(c, [t, t', t]);
      s.registry == [t] && Live(s.entered, s.left) == [t'] && t' in s.freed && !Exactly(s)
  {
    hide *;
    var schedule: seq<nat> := [t, t', t];
    assert schedule[..0] == [] && schedule[..1] == [t] && schedule[..2] == [t, t'] && schedule[..3] == schedule;
    AfterNothing(c);
    AfterStep(c, schedule, 0);
    AfterStep(c, schedule, 1);
    AfterStep(c, schedule, 2);
    var s1, s2 := After(c, schedule[..1]), After(c, schedule[..2]);
    Enters(c, After(c, schedule[..0]), t);
    assert s1 == State([t], [t], {}, {}, 0) by { assert [t] + [] == [t] && [] + [t] == [t]; }
    Enters(c, s1, t');
    assert s2 == State([t', t], [t, t'], {}, {}, 0) by { assert [t'] + [t] == [t', t] && [t] + [t'] == [t, t']; }
    DropsFirst(c, s2, t);
    var s3 := After(c, schedule);
    assert s3.registry == [t] && s3.entered == [t, t'] && s3.left == {t};
    LiveLast([t], t', {t});
    LiveLast([], t, {t});
    assert [] + [t] == [t] && [t] + [t'] == [t, t'];
    NotExactly(s3);
  }

  lemma Enters(c: Clients, s: State, t: nat)
    ensures START == State([], [], {}, {}, 0)
    ensures t !in s.entered ==> Advance(c, s, t) == State([t] + s.registry, s.entered + [t], s.left, s.freed, s.bugs)
  {
    hide First;
  }

  lemma DropsFirst(c: Clients, s: State, t: nat)
    requires t in s.entered && t !in s.left && t !in s.freed && s.registry != [] && c.ids(s.registry[0]) == c.ids(t)
    ensures Advance(c, s, t) == State(s.registry[1..], s.entered, s.left + {t}, s.freed + {s.registry[0]}, s.bugs)
  {
    hide First;
    FirstUnique(IdsOf(c.ids, s.registry), c.ids(t), 0);
    assert s.registry[..0] + s.registry[1..] == s.registry[1..];
  }

  lemma NotExactly(s: State)
    requires s.registry != Live(s.entered, s.left)
    ensures !Exactly(s)
  {
  }

  ghost predicate DistinctIds(ids: Threads, s: State) {
    forall t, t' :: Serving(s, t) && Serving(s, t') && ids(t) == ids(t') ==> t == t'
  }

  /** In particular when the ids of the live clients are always pairwise distinct: then the registry holds
      exactly the live threads, each once. */
  lemma DistinctIdsExact(c: Clients, schedule: seq<nat>)
    requires forall n :: 0 <= n <= |schedule| ==> DistinctIds(c.ids, After(c, schedule[..n]))
    ensures var s := After(c, schedule);
      && Exactly(s) && Distinct(s.registry)
      && forall t :: t in s.registry <==> Serving(s, t)
  {
    hide After, Exactly, Orderly, DistinctIds, Overtaken, Serving;
    forall m | 0 <= m < |schedule| ensures NotOvertakenAt(c, schedule, m) {
      AfterOrderly(c, schedule[..m]);
      assert DistinctIds(c.ids, After(c, schedule[..m]));
      if Serving(After(c, schedule[..m]), schedule[m]) {
        DistinctNotOvertaken(c.ids, After(c, schedule[..m]), schedule[m]);
      }
    }
    ExactUpTo(c, schedule, |schedule|);
    assert schedule[..|schedule|] == schedule;
    AfterOrderly(c, schedule);
    ExactMembers(After(c, schedule));
  }

  lemma DistinctNotOvertaken(ids: Threads, s: State, t: nat)
    requires Orderly(s) && DistinctIds(ids, s) && Serving(s, t)
    ensures !Overtaken(ids, s, t)
  {
    if i, j :| 0 <= i < j < |s.entered| && s.entered[i] == t && s.entered[j] !in s.left && ids(s.entered[j]) == ids(t) {
      assert Serving(s, s.entered[j]);
      assert false;
    }
  }

  lemma {:induction false} LiveDistinct(entered: seq<nat>, left: set<nat>)
    requires Distinct(entered)
    ensures Distinct(Live(entered, left))
  {
    if entered != [] {
      var n := |entered| - 1;
      LiveDistinct(entered[..n], left);
      LiveMembers(entered[..n], left, entered[n]);
    }
  }

  lemma ExactMembers(s: State)
    requires Orderly(s) && Exactly(s)
    ensures Distinct(s.registry)
    ensures forall t :: t in s.registry <==> Serving(s, t)
  {
    LiveDistinct(s.entered, s.left);
    forall t ensures t in s.registry <==> Serving(s, t) {
      LiveMembers(s.entered, s.left, t);
    }
  }

  // ----- when a bug can be reported

  /** The registry has as many records with each id as there are live threads with that id. */
  ghost predicate Matching(ids: Threads, s: State) {
    && multiset(IdsOf(ids, s.registry)) == multiset(IdsOf(ids, Live(s.entered, s.left)))
    && s.bugs == 0
  }

  lemma WithoutOne(s: seq<int>, k: nat)
    requires k < |s|
    ensures multiset(s[..k] + s[k + 1..]) == multiset(s) - multiset{s[k]}
  {
    assert s == s[..k] + [s[k]] + s[k + 1..];
  }

  lemma IdsWithout(ids: Threads, registry: seq<nat>, k: nat)
    requires k < |registry|
    ensures multiset(IdsOf(ids, registry[..k] + registry[k + 1..])) ==
      multiset(IdsOf(ids, registry)) - multiset{ids(registry[k])}
  {
    var all := IdsOf(ids, registry);
    assert IdsOf(ids, registry[..k] + registry[k + 1..]) == all[..k] + all[k + 1..];
    WithoutOne(all, k);
  }

  lemma AdvanceMatching(c: Clients, s: State, t: nat)
    requires Orderly(s) && Matching(c.ids, s) && (Serving(s, t) ==> t !in s.freed)
    ensures Matching(c.ids, Advance(c, s, t))
  {
    if t !in s.entered {
      EntersMatching(c, s, t);
    } else if t !in s.left {
      LeavesMatching(c, s, t);
    }
  }

  lemma EntersMatching(c: Clients, s: State, t: nat)
    requires Orderly(s) && Matching(c.ids, s) && t !in s.entered
    ensures Matching(c.ids, Advance(c, s, t))
  {
    assert (s.entered + [t])[..|s.entered|] == s.entered;
    var live := Live(s.entered, s.left);
    var ids := c.ids;
    assert IdsOf(ids, [t] + s.registry) == [ids(t)] + IdsOf(ids, s.registry);
    assert IdsOf(ids, [t] + live) == [ids(t)] + IdsOf(ids, live);
  }

  lemma LeavesMatching(c: Clients, s: State, t: nat)
    requires Orderly(s) && Matching(c.ids, s) && Serving(s, t) && t !in s.freed
    ensures Matching(c.ids, Advance(c, s, t))
  {
    hide Live, First, Orderly;
    var ids := c.ids;
    var i := Position(s.entered, t);
    OrderlyParts(s);
    LiveAround(s.entered, s.left, i);
    var newer, older := Live(s.entered[i + 1..], s.left), Live(s.entered[..i], s.left);
    LeaverOut(ids, newer, t, older);
    FirstFound(IdsOf(ids, s.registry), IdsOf(ids, newer + [t] + older), ids(t));
    IdsWithout(ids, s.registry, First(IdsOf(ids, s.registry), ids(t)));
  }

  lemma LeaverOut(ids: Threads, newer: seq<nat>, t: nat, older: seq<nat>)
    ensures multiset(IdsOf(ids, newer + older)) == multiset(IdsOf(ids, newer + [t] + older)) - multiset{ids(t)}
    ensures ids(t) in IdsOf(ids, newer + [t] + older)
  {
    var live := newer + [t] + older;
    assert live[..|newer|] + live[|newer| + 1..] == newer + older;
    IdsWithout(ids, live, |newer|);
    assert IdsOf(ids, live)[|newer|] == ids(t);
  }

  lemma FirstFound(x: seq<int>, y: seq<int>, id: int)
    requires multiset(x) == multiset(y) && id in y
    ensures First(x, id) < |x|
  {
    hide First;
    assert id in multiset(y);
    var i :| 0 <= i < |x| && x[i] == id;
  }

  /** The n-th locked section is that of a leaving thread whose record has been freed. */
  ghost predicate LeavesFreedAt(c: Clients, schedule: seq<nat>, n: nat)
    requires n < |schedule|
  {
    var s := After(c, schedule[..n]);
    Serving(s, schedule[n]) && schedule[n] in s.freed
  }

  lemma {:induction false} MatchingUpTo(c: Clients, schedule: seq<nat>, n: nat)
    requires n <= |schedule| && forall m :: 0 <= m < n ==> !LeavesFreedAt(c, schedule, m)
    ensures Matching(c.ids, After(c, schedule[..n]))
  {
    hide Matching, Live, Orderly;
    if n == 0 {
      assert schedule[..0] == [];
      StartMatching(c.ids);
    } else {
      MatchingUpTo(c, schedule, n - 1);
      AfterStep(c, schedule, n - 1);
      AfterOrderly(c, schedule[..n - 1]);
      assert !LeavesFreedAt(c, schedule, n - 1);
      AdvanceMatching(c, After(c, schedule[..n - 1]), schedule[n - 1]);
    }
  }

  lemma StartMatching(ids: Threads)
    ensures Matching(ids, START)
  {
  }

  /** Whatever ids the clients chose, as long as no thread leaves on a freed record each id is registered as often
      as there are live threads with it, and no bug is reported. */
  lemma NoBug(c: Clients, schedule: seq<nat>)
    requires forall n :: 0 <= n < |schedule| ==> !LeavesFreedAt(c, schedule, n)
    ensures var s := After(c, schedule);
      Matching(c.ids, s) && s.bugs == 0 && |s.registry| == |Live(s.entered, s.left)|
  {
    hide Live, LeavesFreedAt;
    MatchingUpTo(c, schedule, |schedule|);
    assert schedule[..|schedule|] == schedule;
    var s := After(c, schedule);
    SameLength(IdsOf(c.ids, s.registry), IdsOf(c.ids, Live(s.entered, s.left)));
  }

  /** And no thread does unless one has left before while a newer client with the same id was still there. */
  lemma NeverOvertakenNoBug(c: Clients, schedule: seq<nat>)
    requires forall n :: 0 <= n < |schedule| ==> NotOvertakenAt(c, schedule, n)
    ensures forall n :: 0 <= n < |schedule| ==> !LeavesFreedAt(c, schedule, n)
    ensures After(c, schedule).bugs == 0
  {
    hide NotOvertakenAt, After;
    SafeRunIff(c, schedule);
    forall n | 0 <= n < |schedule| ensures !LeavesFreedAt(c, schedule, n) {
      assert SafeAt(c, schedule, n);
    }
    NoBug(c, schedule);
  }

  // ----- a freed record can hold anything

  lemma {:induction false} BugsStay(c: Clients, schedule: seq<nat>, m: nat, n: nat)
    requires m <= n <= |schedule|
    ensures After(c, schedule[..m]).bugs <= After(c, schedule[..n]).bugs
    decreases n
  {
    hide After, Advance;
    if m < n {
      BugsStay(c, schedule, m, n - 1);
      AfterStep(c, schedule, n - 1);
      MoreBugs(c, After(c, schedule[..n - 1]), schedule[n - 1]);
    }
  }

  lemma MoreBugs(c: Clients, s: State, t: nat)
    ensures s.bugs <= Advance(c, s, t).bugs
  {
    hide First;
  }

  function Changed(c: Clients, t: nat, id: int): Clients {
    Clients(c.ids, (u: nat) => if u == t then id else c.stale(u))
  }

  lemma SameStep(c: Clients, s: State, u: nat, t: nat, id: int)
    requires t !in Advance(c, s, u).left
    ensures t !in s.left && Advance(Changed(c, t, id), s, u) == Advance(c, s, u)
  {
    hide First;
  }

  /** What thread t would read in a freed record makes no difference before it leaves. */
  lemma {:induction false} SameBefore(c: Clients, schedule: seq<nat>, n: nat, t: nat, id: int)
    requires n <= |schedule| && t !in After(c, schedule[..n]).left
    ensures After(Changed(c, t, id), schedule[..n]) == After(c, schedule[..n])
  {
    hide Advance;
    if n == 0 {
      assert schedule[..0] == [];
    } else {
      hide After;
      AfterStep(c, schedule, n - 1);
      AfterStep(Changed(c, t, id), schedule, n - 1);
      SameStep(c, After(c, schedule[..n - 1]), schedule[n - 1], t, id);
      SameBefore(c, schedule, n - 1, t, id);
    }
  }

  lemma {:induction false} FreshId(s: seq<int>) returns (id: int)
    ensures forall i :: 0 <= i < |s| ==> s[i] < id
  {
    if s == [] {
      id := 0;
    } else {
      var id' := FreshId(s[1..]);
      id := if s[0] < id' then id' else s[0] + 1;
      assert forall i :: 1 <= i < |s| ==> s[i] == s[1..][i - 1];
    }
  }

  lemma FreedReported(c: Clients, schedule: seq<nat>, n: nat) returns (c': Clients)
    requires n < |schedule| && LeavesFreedAt(c, schedule, n)
    ensures c'.ids == c.ids && After(c', schedule).bugs > 0
  {
    hide First, After;
    var s, t := After(c, schedule[..n]), schedule[n];
    var id := FreshId(IdsOf(c.ids, s.registry));
    c' := Changed(c, t, id);
    SameBefore(c, schedule, n, t, id);
    FirstUnique(IdsOf(c.ids, s.registry), id, |s.registry|);
    AfterStep(c', schedule, n);
    assert After(c', schedule[..n + 1]).bugs > 0;
    BugsStay(c', schedule, n + 1, |schedule|);
    assert schedule[..|schedule|] == schedule;
  }

  ghost predicate BugPossible(ids: Threads, schedule: seq<nat>) {
    exists stale: Threads :: After(Clients(ids, stale), schedule).bugs > 0
  }

  ghost predicate FreedLeave(ids: Threads, schedule: seq<nat>) {
    exists stale: Threads, n :: 0 <= n < |schedule| && LeavesFreedAt(Clients(ids, stale), schedule, n)
  }

  /** For some content of freed memory a bug is reported if and only if, for some, a thread leaves on a record that
      has been freed. */
  lemma BugPossibleIff(ids: Threads, schedule: seq<nat>)
    ensures BugPossible(ids, schedule) <==> FreedLeave(ids, schedule)
  {
    hide After, LeavesFreedAt;
    if BugPossible(ids, schedule) {
      var stale: Threads :| After(Clients(ids, stale), schedule).bugs > 0;
      if forall n :: 0 <= n < |schedule| ==> !LeavesFreedAt(Clients(ids, stale), schedule, n) {
        NoBug(Clients(ids, stale), schedule);
      }
    }
    if FreedLeave(ids, schedule) {
      var stale: Threads, n :| 0 <= n < |schedule| && LeavesFreedAt(Clients(ids, stale), schedule, n);
      var c' := FreedReported(Clients(ids, stale), schedule, n);
      assert c' == Clients(ids, c'.stale);
    }
  }

  lemma SameLength(x: seq<int>, y: seq<int>)
    requires multiset(x) == multiset(y)
    ensures |x| == |y|
  {
    assert |multiset(x)| == |x| && |multiset(y)| == |y|;
  }

  // ----- the server does this

  function Records(client: nat -> ClientInfo, registry: seq<nat>): (r: seq<ClientInfo>)
    ensures |r| == |registry| && forall i :: 0 <= i < |r| ==> r[i] == client(registry[i])
  {
    seq(|registry|, i requires 0 <= i < |registry| => client(registry[i]))
  }

  function IdOf(client: nat -> ClientInfo): Threads {
    (t: nat) => client(t).id
  }

  lemma AfterStep(c: Clients, schedule: seq<nat>, n: nat)
    requires n < |schedule|
    ensures After(c, schedule[..n + 1]) == Advance(c, After(c, schedule[..n]), schedule[n])
  {
    assert schedule[..n + 1][..n] == schedule[..n];
  }

  /** The records that have been freed. */
  ghost predicate FreedRecords(client: nat -> ClientInfo, s: State, freed: set<ClientInfo>) {
    forall t :: client(t) in freed <==> t in s.freed
  }

  /** Every connection has a record of its own. */
  ghost predicate OwnRecords(client: nat -> ClientInfo) {
    forall t, t' :: client(t) == client(t') ==> t == t'
  }

  /** The next locked section of thread t, on the records in the list. */
  lemma AdvanceRecords(client: nat -> ClientInfo, stale: Threads, s: State, freed: set<ClientInfo>, t: nat)
    requires FreedRecords(client, s, freed) && OwnRecords(client)
    ensures var s', before := Advance(Clients(IdOf(client), stale), s, t), Records(client, s.registry);
      var after, id := Records(client, s'.registry), IdRead(client(t), freed, stale(t));
      if t !in s.entered then
        && after == [client(t)] + before && s'.entered == s.entered + [t] && s'.left == s.left && s'.bugs == s.bugs
        && s'.freed == s.freed
      else if t in s.left then s' == s
      else
        && s'.entered == s.entered && s'.left == s.left + {t}
        && after == Drop(before, id)
        && s'.bugs == (if Has(before, id) then s.bugs else s.bugs + 1)
        && FreedRecords(client, s', if Has(before, id) then freed + {before[First(Ids(before), id)]} else freed)
  {
    assert Ids(Records(client, s.registry)) == IdsOf(IdOf(client), s.registry);
  }

  /** Performs the locked sections of a schedule on the list of clients. A thread whose record has been freed
      reads what `stale` says. */
  method Serve(clients: List<ClientInfo>, client: nat -> ClientInfo, stale: Threads, schedule: seq<nat>)
    returns (bugs: nat)
    requires clients.Valid() && clients.Contents() == [] && OwnRecords(client)
    modifies clients, clients.spine
    ensures clients.Valid()
    ensures var s := After(Clients(IdOf(client), stale), schedule);
      clients.Contents() == Records(client, s.registry) && clients.size == |s.registry| && bugs == s.bugs
    ensures (forall n :: 0 <= n < |schedule| ==> !LeavesFreedAt(Clients(IdOf(client), stale), schedule, n))  ==>
      bugs == 0
  {
    hide After, Drop, Has, Advance, Records, Matching, Live, FreedRecords, OwnRecords, LeavesFreedAt, First, Ids;
    ghost var c := Clients(IdOf(client), stale);
    var entered, left: set<nat>, freed: set<ClientInfo> := {}, {}, {};
    bugs := 0;
    assert schedule[..0] == [] && After(c, []) == START by { AfterNothing(c); }
    NothingFreed(client);
    var n := 0;
    while n < |schedule|
      invariant 0 <= n <= |schedule| && clients.Valid()
      invariant forall i :: 0 <= i < |clients.spine| ==>
        clients.spine[i] in old(clients.spine) || fresh(clients.spine[i])
      invariant var s := After(c, schedule[..n]);
        && clients.Contents() == Records(client, s.registry) && bugs == s.bugs
        && left == s.left && (forall t :: t in entered <==> t in s.entered) && FreedRecords(client, s, freed)
    {
      var t := schedule[n];
      AfterStep(c, schedule, n);
      AdvanceRecords(client, stale, After(c, schedule[..n]), freed, t);
      if t !in entered {
        SameFreed(client, After(c, schedule[..n]), After(c, schedule[..n + 1]), freed);
        Register(clients, client(t));
        entered := entered + {t};
      } else if t !in left {
        var outcome;
        outcome, freed := Deregister(clients, client(t), freed, stale(t));
        if !outcome.Removed? {
          bugs := bugs + 1;
        }
        left := left + {t};
      }
      n := n + 1;
    }
    assert schedule[..n] == schedule;
    if forall n :: 0 <= n < |schedule| ==> !LeavesFreedAt(c, schedule, n) {
      NoBug(c, schedule);
    }
  }

  lemma NothingFreed(client: nat -> ClientInfo)
    ensures FreedRecords(client, START, {})
  {
  }

  lemma SameFreed(client: nat -> ClientInfo, s: State, s': State, freed: set<ClientInfo>)
    requires FreedRecords(client, s, freed) && (s'.freed == s.freed || s' == s)
    ensures FreedRecords(client, s', freed)
  {
  }

  lemma AfterNothing(c: Clients)
    ensures After(c, []) == START
  {
  }
}
