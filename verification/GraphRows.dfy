/**
 What a graph of algolib/source/graph.c denotes: one row for each adjacency list, in list
 order, with the keys of the vertex and of the adjacent set. The calls are stated here as
 functions of the rows; module Graph has the methods that perform them.
 */
module GraphRows {
  import opened Digraph
  import opened LinkedList

  /** Keys stand for the classes of matching vertices. */
  type Key(==, !new)

  datatype Row = Row(name: Key, targets: seq<Key>)

  /** Position of the row of a vertex, or the number of rows when there is none. */
  function IndexOf(rows: seq<Row>, k: Key): (i: nat)
    ensures i <= |rows|
    ensures i < |rows| ==> rows[i].name == k
    ensures forall j :: 0 <= j < i ==> rows[j].name != k
  {
    if rows == [] || rows[0].name == k then 0 else 1 + IndexOf(rows[1..], k)
  }

  predicate Named(rows: seq<Row>, k: Key) {
    IndexOf(rows, k) < |rows|
  }

  function EdgeCount(rows: seq<Row>): nat {
    if rows == [] then 0 else |rows[0].targets| + EdgeCount(rows[1..])
  }

  ghost predicate NamesDistinct(rows: seq<Row>) {
    forall i, j :: 0 <= i < j < |rows| ==> rows[i].name != rows[j].name
  }

  /** No two vertices match, adjacent sets hold no key twice, and every edge leads to a vertex. */
  ghost predicate WellFormedRows(rows: seq<Row>) {
    && NamesDistinct(rows)
    && (forall i :: 0 <= i < |rows| ==> Distinct(rows[i].targets))
    && (forall i, e :: 0 <= i < |rows| && 0 <= e < |rows[i].targets| ==> Named(rows, rows[i].targets[e]))
  }

  // ----- the calls

  datatype Outcome = Outcome(status: int, rows: seq<Row>)

  function InsVertexOf(rows: seq<Row>, k: Key): Outcome {
    if Named(rows, k) then Outcome(1, rows) else Outcome(0, rows + [Row(k, [])])
  }

  function InsEdgeOf(rows: seq<Row>, k1: Key, k2: Key): Outcome {
    var i := IndexOf(rows, k1);
    if !Named(rows, k2) || i == |rows| then Outcome(-1, rows)
    else if k2 in rows[i].targets then Outcome(1, rows)
    else Outcome(0, rows[i := Row(rows[i].name, rows[i].targets + [k2])])
  }

  function Without(s: seq<Key>, k: Key): seq<Key> {
    if s == [] then [] else if s[0] == k then s[1..] else [s[0]] + Without(s[1..], k)
  }

  function RemEdgeOf(rows: seq<Row>, k1: Key, k2: Key): Outcome {
    var i := IndexOf(rows, k1);
    if i == |rows| || k2 !in rows[i].targets then Outcome(-1, rows)
    else Outcome(0, rows[i := Row(rows[i].name, Without(rows[i].targets, k2))])
  }

  predicate Targeted(rows: seq<Row>, k: Key) {
    exists i :: 0 <= i < |rows| && k in rows[i].targets
  }

  function RemVertexOf(rows: seq<Row>, k: Key): Outcome {
    var i := IndexOf(rows, k);
    if Targeted(rows, k) || i == |rows| || rows[i].targets != [] then Outcome(-1, rows)
    else Outcome(0, rows[..i] + rows[i + 1..])
  }

  datatype Call = InsVertex(k: Key) | InsEdge(k1: Key, k2: Key) | RemEdge(k1: Key, k2: Key) | RemVertex(k: Key)

  function Perform(rows: seq<Row>, call: Call): Outcome {
    match call
    case InsVertex(k) => InsVertexOf(rows, k)
    case InsEdge(k1, k2) => InsEdgeOf(rows, k1, k2)
    case RemEdge(k1, k2) => RemEdgeOf(rows, k1, k2)
    case RemVertex(k) => RemVertexOf(rows, k)
  }

  lemma InsEdgeCases(rows: seq<Row>, k1: Key, k2: Key)
    ensures var i, j, after := IndexOf(rows, k1), IndexOf(rows, k2), Perform(rows, InsEdge(k1, k2));
      && (i == |rows| || j == |rows| ==> after == Outcome(-1, rows))
      && (i < |rows| && j < |rows| && k2 in rows[i].targets ==> after == Outcome(1, rows))
      && (i < |rows| && j < |rows| && k2 !in rows[i].targets ==>
            after == Outcome(0, rows[i := Row(rows[i].name, rows[i].targets + [k2])]))
  {
  }

  lemma RemEdgeCases(rows: seq<Row>, k1: Key, k2: Key)
    ensures var i, after := IndexOf(rows, k1), Perform(rows, RemEdge(k1, k2));
      && (i == |rows| || k2 !in rows[i].targets ==> after == Outcome(-1, rows))
      && (i < |rows| && k2 in rows[i].targets ==>
            after == Outcome(0, rows[i := Row(rows[i].name, Without(rows[i].targets, k2))]))
  {
  }

  function PerformAll(rows: seq<Row>, calls: seq<Call>): seq<Row>
    decreases |calls|
  {
    if calls == [] then rows else PerformAll(Perform(rows, calls[0]).rows, calls[1..])
  }

  // ----- facts about rows

  lemma IndexUnique(rows: seq<Row>, i: nat)
    requires NamesDistinct(rows) && i < |rows|
    ensures IndexOf(rows, rows[i].name) == i
  {
  }

  lemma NamedAppend(rows: seq<Row>, more: seq<Row>, k: Key)
    requires Named(rows, k)
    ensures Named(rows + more, k)
  {
    var i := IndexOf(rows, k);
    assert (rows + more)[i].name == k;
  }

  lemma {:induction false} EdgeCountConcat(rows: seq<Row>, more: seq<Row>)
    ensures EdgeCount(rows + more) == EdgeCount(rows) + EdgeCount(more)
  {
    if rows == [] {
      assert rows + more == more;
    } else {
      assert (rows + more)[1..] == rows[1..] + more;
      EdgeCountConcat(rows[1..], more);
    }
  }

  lemma EdgeCountSplit(rows: seq<Row>, i: nat)
    requires i < |rows|
    ensures EdgeCount(rows) == EdgeCount(rows[..i]) + |rows[i].targets| + EdgeCount(rows[i + 1..])
  {
    assert rows == rows[..i] + [rows[i]] + rows[i + 1..];
    EdgeCountConcat(rows[..i] + [rows[i]], rows[i + 1..]);
    EdgeCountConcat(rows[..i], [rows[i]]);
    assert [rows[i]][1..] == [];
  }

  lemma EdgeCountUpdate(rows: seq<Row>, i: nat, row: Row)
    requires i < |rows|
    ensures EdgeCount(rows[i := row]) == EdgeCount(rows) - |rows[i].targets| + |row.targets|
  {
    EdgeCountSplit(rows, i);
    EdgeCountSplit(rows[i := row], i);
    assert rows[i := row][..i] == rows[..i] && rows[i := row][i + 1..] == rows[i + 1..];
  }

  lemma {:induction false} IndexUpdate(rows: seq<Row>, i: nat, row: Row, k: Key)
    requires i < |rows| && row.name == rows[i].name
    ensures IndexOf(rows[i := row], k) == IndexOf(rows, k)
  {
    var a, b := IndexOf(rows[i := row], k), IndexOf(rows, k);
    assert forall j :: 0 <= j < |rows| ==> rows[i := row][j].name == rows[j].name;
    assert !(a < b) && !(b < a);
  }

  lemma {:induction false} WithoutFacts(s: seq<Key>, k: Key)
    requires Distinct(s)
    ensures Distinct(Without(s, k))
    ensures forall x :: x in Without(s, k) <==> x in s && x != k
    ensures |Without(s, k)| == if k in s then |s| - 1 else |s|
  {
    if s != [] {
      var rest := Without(s[1..], k);
      WithoutFacts(s[1..], k);
      assert s == [s[0]] + s[1..];
      forall i | 0 <= i < |rest| ensures rest[i] != s[0] {
        assert rest[i] in rest;
        var j :| 0 <= j < |s[1..]| && s[1..][j] == rest[i];
        assert s[1..][j] == s[j + 1];
      }
    }
  }

  lemma {:induction false} WithoutAt(s: seq<Key>, k: Key, i: nat)
    requires i < |s| && s[i] == k && forall j :: 0 <= j < i ==> s[j] != k
    ensures Without(s, k) == s[..i] + s[i + 1..]
  {
    if i == 0 {
      assert s[..0] + s[1..] == s[1..];
    } else {
      WithoutAt(s[1..], k, i - 1);
      assert s[..i] + s[i + 1..] == [s[0]] + (s[1..][..i - 1] + s[1..][i..]);
    }
  }

  // ----- when a call succeeds, and what it does then

  lemma NamedIff(rows: seq<Row>, k: Key)
    ensures Named(rows, k) <==> exists i :: 0 <= i < |rows| && rows[i].name == k
  {
  }

  /** A vertex is refused exactly when one that matches it is stored; otherwise it becomes the last one, without
      edges. */
  lemma VertexInsertion(rows: seq<Row>, k: Key)
    ensures var after := Perform(rows, InsVertex(k));
      after == if exists i :: 0 <= i < |rows| && rows[i].name == k then Outcome(1, rows)
               else Outcome(0, rows + [Row(k, [])])
  {
    hide IndexOf;
    NamedIff(rows, k);
  }

  /** There is an edge from k1 to k2. */
  ghost predicate Joined(rows: seq<Row>, k1: Key, k2: Key) {
    exists i, e :: 0 <= i < |rows| && 0 <= e < |rows[i].targets| && rows[i].name == k1 && rows[i].targets[e] == k2
  }

  /** An edge is inserted exactly when both vertices are stored and it is not there; then it becomes the last one
      out of its vertex. */
  lemma EdgeInsertion(rows: seq<Row>, k1: Key, k2: Key)
    requires NamesDistinct(rows)
    ensures var after := Perform(rows, InsEdge(k1, k2));
      && after.status == (if !Named(rows, k1) || !Named(rows, k2) then -1 else if Joined(rows, k1, k2) then 1 else 0)
      && |after.rows| == |rows|
      && forall i :: 0 <= i < |rows| ==>
           after.rows[i] ==
             if after.status == 0 && rows[i].name == k1 then Row(k1, rows[i].targets + [k2]) else rows[i]
  {
    hide IndexOf;
    InsEdgeCases(rows, k1, k2);
    JoinedAt(rows, k1, k2);
  }

  /** An edge is removed exactly when it is there; the other ones out of its vertex keep their order. */
  lemma EdgeRemoval(rows: seq<Row>, k1: Key, k2: Key)
    requires NamesDistinct(rows)
    ensures var after := Perform(rows, RemEdge(k1, k2));
      && after.status == (if Joined(rows, k1, k2) then 0 else -1)
      && |after.rows| == |rows|
      && forall i :: 0 <= i < |rows| ==>
           if after.status == 0 && rows[i].name == k1 then after.rows[i].name == k1 && exists e ::
             && 0 <= e < |rows[i].targets| && rows[i].targets[e] == k2
             && after.rows[i].targets == rows[i].targets[..e] + rows[i].targets[e + 1..]
           else after.rows[i] == rows[i]
  {
    hide IndexOf, Without;
    RemEdgeCases(rows, k1, k2);
    JoinedAt(rows, k1, k2);
    var i := IndexOf(rows, k1);
    if i < |rows| && k2 in rows[i].targets {
      var e := FirstAt(rows[i].targets, k2);
      WithoutAt(rows[i].targets, k2, e);
    }
  }

  lemma JoinedAt(rows: seq<Row>, k1: Key, k2: Key)
    requires NamesDistinct(rows)
    ensures var i := IndexOf(rows, k1); Joined(rows, k1, k2) <==> i < |rows| && k2 in rows[i].targets
  {
    hide IndexOf;
  }

  lemma {:induction false} FirstAt(s: seq<Key>, k: Key) returns (e: nat)
    requires k in s
    ensures e < |s| && s[e] == k && forall d :: 0 <= d < e ==> s[d] != k
  {
    e := 0;
    while s[e] != k
      invariant e < |s| && forall d :: 0 <= d < e ==> s[d] != k
      invariant exists d :: e <= d < |s| && s[d] == k
      decreases |s| - e
    {
      e := e + 1;
    }
  }

  /** A vertex is removed exactly when it is stored without edges and no edge leads to it; the others keep their
      order. */
  lemma VertexRemoval(rows: seq<Row>, k: Key)
    requires NamesDistinct(rows)
    ensures var after := Perform(rows, RemVertex(k));
      && (after.status == 0 || after.status == -1)
      && (after.status == 0 <==>
            && (exists i :: 0 <= i < |rows| && rows[i] == Row(k, []))
            && !(exists k1 :: Joined(rows, k1, k)))
      && (after.status != 0 ==> after.rows == rows)
      && (after.status == 0 ==>
            exists i :: 0 <= i < |rows| && rows[i].name == k && after.rows == rows[..i] + rows[i + 1..])
  {
    hide IndexOf;
    var i := IndexOf(rows, k);
    assert Targeted(rows, k) <==> exists k1 :: Joined(rows, k1, k) by {
      if Targeted(rows, k) {
        var j :| 0 <= j < |rows| && k in rows[j].targets;
        var e :| 0 <= e < |rows[j].targets| && rows[j].targets[e] == k;
        assert Joined(rows, rows[j].name, k);
      }
    }
  }

  // ----- what every call keeps

  lemma TargetsReplaced(rows: seq<Row>, i: nat, targets: seq<Key>)
    requires WellFormedRows(rows) && i < |rows| && Distinct(targets)
    requires forall e :: 0 <= e < |targets| ==> Named(rows, targets[e])
    ensures WellFormedRows(rows[i := Row(rows[i].name, targets)])
  {
    hide IndexOf;
    var rows' := rows[i := Row(rows[i].name, targets)];
    forall j, e | 0 <= j < |rows'| && 0 <= e < |rows'[j].targets| ensures Named(rows', rows'[j].targets[e]) {
      IndexUpdate(rows, i, Row(rows[i].name, targets), rows'[j].targets[e]);
      assert j != i ==> Named(rows, rows[j].targets[e]);
    }
  }

  lemma VertexRemoved(rows: seq<Row>, i: nat)
    requires WellFormedRows(rows) && i < |rows| && !Targeted(rows, rows[i].name)
    ensures WellFormedRows(rows[..i] + rows[i + 1..])
  {
    hide IndexOf;
    var rows' := rows[..i] + rows[i + 1..];
    assert forall j :: 0 <= j < |rows'| ==> rows'[j] == rows[if j < i then j else j + 1];
    forall j, e | 0 <= j < |rows'| && 0 <= e < |rows'[j].targets| ensures Named(rows', rows'[j].targets[e]) {
      var j' := if j < i then j else j + 1;
      var k := rows[j'].targets[e];
      assert Named(rows, k);
      var m := IndexOf(rows, k);
      assert m != i by { assert k in rows[j'].targets; }
      assert rows'[if m < i then m else m - 1].name == k;
    }
  }

  /** Every call keeps the rows well formed and moves the edge count by one exactly when it inserts
      or removes an edge; a refused call changes nothing. */
  lemma CallKeeps(rows: seq<Row>, call: Call)
    requires WellFormedRows(rows)
    ensures WellFormedRows(Perform(rows, call).rows)
    ensures Perform(rows, call).status != 0 ==> Perform(rows, call).rows == rows
    ensures Perform(rows, call).status == 0 ==>
      var change := if call.InsEdge? then 1 else if call.RemEdge? then -1 else 0;
      EdgeCount(Perform(rows, call).rows) == EdgeCount(rows) + change
    ensures Perform(rows, call).status == 0 ==>
      var change := if call.InsVertex? then 1 else if call.RemVertex? then -1 else 0;
      |Perform(rows, call).rows| == |rows| + change
  {
    hide IndexOf, EdgeCount;
    match call {
      case InsVertex(k) =>
        var added := Row(k, []);
        EdgeCountConcat(rows, [added]);
        EdgeCountOne(added);
        VertexInserted(rows, k);
      case InsEdge(k1, k2) =>
        var i := IndexOf(rows, k1);
        if Perform(rows, call).status == 0 {
          EdgeCountUpdate(rows, i, Row(rows[i].name, rows[i].targets + [k2]));
          TargetsReplaced(rows, i, rows[i].targets + [k2]);
        }
      case RemEdge(k1, k2) =>
        var i := IndexOf(rows, k1);
        if Perform(rows, call).status == 0 {
          WithoutFacts(rows[i].targets, k2);
          EdgeCountUpdate(rows, i, Row(rows[i].name, Without(rows[i].targets, k2)));
          EdgeLess(rows, i, k2);
        }
      case RemVertex(k) =>
        var i := IndexOf(rows, k);
        if Perform(rows, call).status == 0 {
          VertexRemoved(rows, i);
          EdgeCountSplit(rows, i);
          EdgeCountConcat(rows[..i], rows[i + 1..]);
        }
    }
  }

  lemma EdgeCountOne(row: Row)
    ensures EdgeCount([row]) == |row.targets|
  {
    assert [row][1..] == [];
  }

  lemma TargetNamed(rows: seq<Row>, k: Key)
    requires WellFormedRows(rows)
    ensures Targeted(rows, k) ==> Named(rows, k)
  {
    if Targeted(rows, k) {
      var i :| 0 <= i < |rows| && k in rows[i].targets;
      var e :| 0 <= e < |rows[i].targets| && rows[i].targets[e] == k;
    }
  }

  lemma EdgeLess(rows: seq<Row>, i: nat, k: Key)
    requires WellFormedRows(rows) && i < |rows|
    ensures WellFormedRows(rows[i := Row(rows[i].name, Without(rows[i].targets, k))])
  {
    hide IndexOf;
    var targets := Without(rows[i].targets, k);
    WithoutFacts(rows[i].targets, k);
    forall e | 0 <= e < |targets| ensures Named(rows, targets[e]) {
      assert targets[e] in targets && targets[e] in rows[i].targets;
      var d :| 0 <= d < |rows[i].targets| && rows[i].targets[d] == targets[e];
    }
    TargetsReplaced(rows, i, targets);
  }

  lemma VertexInserted(rows: seq<Row>, k: Key)
    requires WellFormedRows(rows)
    ensures WellFormedRows(InsVertexOf(rows, k).rows)
  {
    if !Named(rows, k) {
      var rows' := rows + [Row(k, [])];
      forall i, e | 0 <= i < |rows'| && 0 <= e < |rows'[i].targets| ensures Named(rows', rows'[i].targets[e]) {
        assert i < |rows| && Named(rows, rows[i].targets[e]);
        NamedAppend(rows, [Row(k, [])], rows[i].targets[e]);
      }
    }
  }

  datatype Kind = VertexIn | VertexOut | EdgeIn | EdgeOut

  function KindOf(call: Call): Kind {
    match call
    case InsVertex(_) => VertexIn
    case RemVertex(_) => VertexOut
    case InsEdge(_, _) => EdgeIn
    case RemEdge(_, _) => EdgeOut
  }

  /** How many of the calls of one kind are not refused. */
  function Succeeded(rows: seq<Row>, calls: seq<Call>, kind: Kind): nat
    decreases |calls|
  {
    if calls == [] then 0
    else
      var first := Perform(rows, calls[0]);
      (if first.status == 0 && KindOf(calls[0]) == kind then 1 else 0) + Succeeded(first.rows, calls[1..], kind)
  }

  /** Whatever the calls, the graph stays well formed, and it has as many more vertices and edges as insertions
      have succeeded, less the removals that have. */
  lemma {:induction false} EveryRunCounts(rows: seq<Row>, calls: seq<Call>)
    requires WellFormedRows(rows)
    ensures var after := PerformAll(rows, calls);
      && WellFormedRows(after)
      && |after| == |rows| + Succeeded(rows, calls, VertexIn) - Succeeded(rows, calls, VertexOut)
      && EdgeCount(after) == EdgeCount(rows) + Succeeded(rows, calls, EdgeIn) - Succeeded(rows, calls, EdgeOut)
    decreases |calls|
  {
    hide Perform, EdgeCount, WellFormedRows;
    if calls != [] {
      CallKeeps(rows, calls[0]);
      EveryRunCounts(Perform(rows, calls[0]).rows, calls[1..]);
    }
  }

  /** The calls are performed from the first to the last. */
  lemma {:induction false} LastCall(rows: seq<Row>, calls: seq<Call>, last: Call)
    ensures PerformAll(rows, []) == rows
    ensures PerformAll(rows, calls + [last]) == Perform(PerformAll(rows, calls), last).rows
    decreases |calls|
  {
    hide Perform;
    if calls == [] {
      assert [last][1..] == [];
    } else {
      assert (calls + [last])[1..] == calls[1..] + [last];
      LastCall(Perform(rows, calls[0]).rows, calls[1..], last);
    }
  }

  /** Removing the edge or vertex just inserted restores the graph. */
  lemma InsertionUndone(rows: seq<Row>, k1: Key, k2: Key)
    requires WellFormedRows(rows)
    ensures InsEdgeOf(rows, k1, k2).status == 0 ==>
      RemEdgeOf(InsEdgeOf(rows, k1, k2).rows, k1, k2) == Outcome(0, rows)
    ensures InsVertexOf(rows, k1).status == 0 ==> RemVertexOf(InsVertexOf(rows, k1).rows, k1) == Outcome(0, rows)
  {
    hide IndexOf, Without;
    if InsEdgeOf(rows, k1, k2).status == 0 {
      var i := IndexOf(rows, k1);
      var targets := rows[i].targets + [k2];
      IndexUpdate(rows, i, Row(rows[i].name, targets), k1);
      WithoutAt(targets, k2, |rows[i].targets|);
      assert targets[..|rows[i].targets|] + targets[|rows[i].targets| + 1..] == rows[i].targets;
      assert rows[i := Row(rows[i].name, rows[i].targets)] == rows;
    }
    if InsVertexOf(rows, k1).status == 0 {
      var rows' := rows + [Row(k1, [])];
      assert rows'[|rows|].name == k1;
      assert IndexOf(rows', k1) == |rows|;
      TargetNamed(rows, k1);
      assert forall i :: 0 <= i < |rows| ==> rows'[i] == rows[i];
      assert rows'[..|rows|] + rows'[|rows| + 1..] == rows;
    }
  }

  // ----- the directed graph on row positions

  function Resolve(rows: seq<Row>): Digraph {
    seq(|rows|, i requires 0 <= i < |rows| =>
      seq(|rows[i].targets|, e requires 0 <= e < |rows[i].targets| => IndexOf(rows, rows[i].targets[e])))
  }

  lemma ResolvedWellFormed(rows: seq<Row>)
    requires WellFormedRows(rows)
    ensures WellFormed(Resolve(rows)) && |Resolve(rows)| == |rows|
    ensures forall i :: 0 <= i < |rows| ==> |Resolve(rows)[i]| == |rows[i].targets|
    ensures forall i, e :: 0 <= i < |rows| && 0 <= e < |rows[i].targets| ==>
      Resolve(rows)[i][e] == IndexOf(rows, rows[i].targets[e]) < |rows|
  {
    var g := Resolve(rows);
    forall i, e | 0 <= i < |rows| && 0 <= e < |rows[i].targets|
      ensures g[i][e] == IndexOf(rows, rows[i].targets[e]) < |rows|
    {
      assert Named(rows, rows[i].targets[e]);
    }
  }

  /** A vertex can be removed exactly when it is stored and no edge leads to it or away from it. */
  lemma RemovableIffIsolated(rows: seq<Row>, k: Key)
    requires WellFormedRows(rows)
    ensures var i := IndexOf(rows, k);
      (RemVertexOf(rows, k).status == 0)
        <==> (i < |rows| && forall u: nat, v: nat :: Edge(Resolve(rows), u, v) ==> u != i && v != i)
  {
    hide IndexOf, Resolve;
    ResolvedWellFormed(rows);
    var i, g := IndexOf(rows, k), Resolve(rows);
    if i < |rows| {
      if RemVertexOf(rows, k).status == 0 {
        forall u: nat, v: nat | Edge(g, u, v) ensures u != i && v != i {
          var e :| 0 <= e < |g[u]| && g[u][e] == v;
          assert rows[u].targets[e] in rows[u].targets;
        }
      } else if rows[i].targets != [] {
        assert g[i][0] in g[i];
        assert Edge(g, i, g[i][0]);
      } else {
        var u :| 0 <= u < |rows| && k in rows[u].targets;
        var e :| 0 <= e < |rows[u].targets| && rows[u].targets[e] == k;
        assert g[u][e] == i;
        assert Edge(g, u, i);
      }
    }
  }

  /** The first n vertices of a graph with the edges out of them. */
  ghost function EdgesFrom(g: Digraph, n: nat): set<(nat, nat)>
    requires n <= |g|
  {
    set u: nat, e: nat | 0 <= u < n && 0 <= e < |g[u]| :: (u, g[u][e])
  }

  ghost function EdgesOut(u: nat, targets: seq<nat>): set<(nat, nat)> {
    set e: nat | 0 <= e < |targets| :: (u, targets[e])
  }

  lemma {:induction false} OutSize(u: nat, targets: seq<nat>)
    requires Distinct(targets)
    ensures |EdgesOut(u, targets)| == |targets|
  {
    if targets != [] {
      var last := |targets| - 1;
      OutSize(u, targets[..last]);
      assert EdgesOut(u, targets) == EdgesOut(u, targets[..last]) + {(u, targets[last])};
    }
  }

  lemma ResolvedDistinct(rows: seq<Row>, u: nat)
    requires WellFormedRows(rows) && u < |rows|
    ensures |Resolve(rows)| == |rows| && Distinct(Resolve(rows)[u]) && |Resolve(rows)[u]| == |rows[u].targets|
  {
    hide IndexOf, Resolve;
    ResolvedWellFormed(rows);
    var g := Resolve(rows);
    forall d, e | 0 <= d < e < |g[u]| ensures g[u][d] != g[u][e] {
      assert rows[g[u][d]].name == rows[u].targets[d] && rows[g[u][e]].name == rows[u].targets[e];
    }
  }

  lemma {:induction false} EdgesCounted(rows: seq<Row>, n: nat)
    requires WellFormedRows(rows) && n <= |rows|
    ensures |Resolve(rows)| == |rows| && |EdgesFrom(Resolve(rows), n)| == EdgeCount(rows[..n])
  {
    hide *;
    ResolvedWellFormed(rows);
    var g := Resolve(rows);
    if n > 0 {
      EdgesCounted(rows, n - 1);
      ResolvedDistinct(rows, n - 1);
      OutSize(n - 1, g[n - 1]);
      FromSplit(g, n - 1);
      assert rows[..n] == rows[..n - 1] + [rows[n - 1]];
      EdgeCountConcat(rows[..n - 1], [rows[n - 1]]);
      EdgeCountOne(rows[n - 1]);
    } else {
      NoEdges(g);
      assert rows[..0] == [];
    }
  }

  lemma NoEdges(g: Digraph)
    ensures EdgesFrom(g, 0) == {} && EdgeCount([]) == 0
  {
  }

  lemma FromSplit(g: Digraph, n: nat)
    requires n < |g|
    ensures |EdgesFrom(g, n + 1)| == |EdgesFrom(g, n)| + |EdgesOut(n, g[n])|
  {
    assert EdgesFrom(g, n + 1) == EdgesFrom(g, n) + EdgesOut(n, g[n]);
    assert EdgesFrom(g, n) !! EdgesOut(n, g[n]);
  }

  /** The edge count is the number of pairs of vertices with an edge from one to the other. */
  lemma EdgeCountIs(rows: seq<Row>)
    requires WellFormedRows(rows)
    ensures |set u: nat, v: nat | u < |rows| && v < |rows| && Edge(Resolve(rows), u, v) :: (u, v)| == EdgeCount(rows)
  {
    hide Resolve, WellFormedRows, EdgeCount;
    ResolvedWellFormed(rows);
    var g := Resolve(rows);
    EdgesCounted(rows, |rows|);
    assert rows[..|rows|] == rows;
    var edges := set u: nat, v: nat | u < |rows| && v < |rows| && Edge(g, u, v) :: (u, v);
    forall u: nat, v: nat ensures (u, v) in edges <==> (u, v) in EdgesFrom(g, |rows|) {
      if (u, v) in edges {
        var e :| 0 <= e < |g[u]| && g[u][e] == v;
      }
    }
    assert edges == EdgesFrom(g, |rows|);
  }
}
