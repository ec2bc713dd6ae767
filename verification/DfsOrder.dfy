/** The order in which the depth-first search of algolib/source/dfs.c lists the vertices, as a function of the graph. */
module DfsOrder {
  import opened Digraph

  ghost function Left(g: Digraph, avoid: set<nat>): set<nat> {
    set v: nat | v < |g| && v !in avoid
  }

  ghost function Elements(s: seq<nat>): set<nat> {
    set i | 0 <= i < |s| :: s[i]
  }

  /** What a search lists that starts from each of `starts` in turn and enters no vertex of `avoid`. A vertex comes in
      front of everything that is listed before it is finished. */
  ghost function Listed(g: Digraph, avoid: set<nat>, starts: seq<nat>): seq<nat>
    decreases Left(g, avoid), |starts|
  {
    if starts == [] then []
    else
      var x := starts[0];
      if x in avoid || x >= |g| then Listed(g, avoid, starts[1..])
      else
        assert x in Left(g, avoid);
        var found := Listed(g, avoid + {x}, g[x]);
        Listed(g, avoid + {x} + Elements(found), starts[1..]) + [x] + found
  }

  lemma ListedNothing(g: Digraph, avoid: set<nat>)
    ensures Listed(g, avoid, []) == []
  {
  }

  lemma ListedSkips(g: Digraph, avoid: set<nat>, starts: seq<nat>)
    requires starts != [] && (starts[0] in avoid || starts[0] >= |g|)
    ensures Listed(g, avoid, starts) == Listed(g, avoid, starts[1..])
  {
  }

  lemma ListedEnters(g: Digraph, avoid: set<nat>, starts: seq<nat>)
    requires starts != [] && starts[0] !in avoid && starts[0] < |g|
    ensures var found := Listed(g, avoid + {starts[0]}, g[starts[0]]);
      Listed(g, avoid, starts)
        == Listed(g, avoid + {starts[0]} + Elements(found), starts[1..]) + [starts[0]] + found
    ensures starts[0] in Left(g, avoid) && starts[0] !in Left(g, avoid + {starts[0]})
  {
  }

  /** A single start is listed in front of what is listed from its own edges. */
  lemma ListedRoot(g: Digraph, avoid: set<nat>, x: nat)
    ensures Listed(g, avoid, [x]) ==
      if x < |g| && x !in avoid then [x] + Listed(g, avoid + {x}, g[x]) else []
  {
    assert [x][1..] == [];
  }

  lemma ElementsJoin(s: seq<nat>, t: seq<nat>)
    ensures Elements(s + t) == Elements(s) + Elements(t)
    ensures forall v :: v in Elements(s) <==> v in s
  {
    forall v | v in Elements(t) ensures v in Elements(s + t) {
      var i :| 0 <= i < |t| && t[i] == v;
      assert (s + t)[|s| + i] == v;
    }
    forall v | v in Elements(s) ensures v in Elements(s + t) {
      var i :| 0 <= i < |s| && s[i] == v;
      assert (s + t)[i] == v;
    }
  }

  /** Another start is searched from last, without entering what has been listed, and its vertices are listed first. */
  lemma {:induction false} ListedMore(g: Digraph, avoid: set<nat>, starts: seq<nat>, more: seq<nat>)
    ensures Listed(g, avoid, starts + more)
      == Listed(g, avoid + Elements(Listed(g, avoid, starts)), more) + Listed(g, avoid, starts)
    decreases Left(g, avoid), |starts|
  {
    hide Listed, Elements;
    if starts == [] {
      ListedNothing(g, avoid);
      NoElements();
      assert starts + more == more && avoid + {} == avoid;
    } else {
      var x, rest := starts[0], starts[1..];
      assert (starts + more)[0] == x && (starts + more)[1..] == rest + more;
      if x in avoid || x >= |g| {
        ListedSkips(g, avoid, starts);
        ListedSkips(g, avoid, starts + more);
        ListedMore(g, avoid, rest, more);
      } else {
        ListedEnters(g, avoid, starts);
        ListedEnters(g, avoid, starts + more);
        var found := Listed(g, avoid + {x}, g[x]);
        var avoid' := avoid + {x} + Elements(found);
        var later := Listed(g, avoid', rest);
        ListedMore(g, avoid', rest, more);
        ElementsJoin(later, [x] + found);
        ElementsJoin([x], found);
        OneElement(x);
        assert Listed(g, avoid, starts) == later + ([x] + found);
        assert avoid + Elements(Listed(g, avoid, starts)) == avoid' + Elements(later);
      }
    }
  }

  lemma NoElements()
    ensures Elements([]) == {}
  {
  }

  lemma OneElement(x: nat)
    ensures Elements([x]) == {x}
  {
    assert [x][0] in Elements([x]);
  }

  // ----- what is listed

  /** There is a path from u to v on which no vertex is avoided. */
  ghost predicate ReachesAvoiding(g: Digraph, avoid: set<nat>, u: nat, v: nat) {
    exists p :: IsPath(g, p, u, v) && Avoids(p, avoid)
  }

  ghost predicate Avoids(p: seq<nat>, avoid: set<nat>) {
    forall i :: 0 <= i < |p| ==> p[i] !in avoid
  }

  lemma ReachesFirst(g: Digraph, avoid: set<nat>, x: nat, y: nat, v: nat)
    requires x !in avoid && Edge(g, x, y) && ReachesAvoiding(g, avoid + {x}, y, v)
    ensures ReachesAvoiding(g, avoid, x, v)
  {
    var p :| IsPath(g, p, y, v) && Avoids(p, avoid + {x});
    var q := [x] + p;
    forall i | 0 < i < |q| ensures Edge(g, q[i - 1], q[i]) {
      assert i > 1 ==> Edge(g, p[i - 2], p[i - 1]);
    }
    assert IsPath(g, q, x, v) && Avoids(q, avoid);
  }

  /** From where a listed vertex has been reached. */
  lemma {:induction false} ListedFrom(g: Digraph, avoid: set<nat>, starts: seq<nat>, v: nat) returns (i: nat)
    requires WellFormed(g) && v in Listed(g, avoid, starts)
    ensures i < |starts| && ReachesAvoiding(g, avoid, starts[i], v)
    decreases Left(g, avoid), |starts|
  {
    hide Listed, ReachesAvoiding;
    if starts == [] {
      ListedNothing(g, avoid);
      assert false;
    }
    var x, rest := starts[0], starts[1..];
    if x in avoid || x >= |g| {
      ListedSkips(g, avoid, starts);
      i := ListedFrom(g, avoid, rest, v);
      i := i + 1;
    } else {
      ListedEnters(g, avoid, starts);
      var found := Listed(g, avoid + {x}, g[x]);
      var avoid' := avoid + {x} + Elements(found);
      if v == x {
        i := 0;
        ReachesItself(g, avoid, x);
      } else if v in found {
        var e := ListedFrom(g, avoid + {x}, g[x], v);
        i := 0;
        assert Edge(g, x, g[x][e]);
        ReachesFirst(g, avoid, x, g[x][e], v);
      } else {
        assert v in Listed(g, avoid', rest);
        i := ListedFrom(g, avoid', rest, v);
        AvoidsLess(g, avoid, avoid', rest[i], v);
        i := i + 1;
      }
    }
  }

  lemma ReachesItself(g: Digraph, avoid: set<nat>, x: nat)
    requires x < |g| && x !in avoid
    ensures ReachesAvoiding(g, avoid, x, x)
  {
    assert IsPath(g, [x], x, x) && Avoids([x], avoid);
  }

  lemma AvoidsLess(g: Digraph, avoid: set<nat>, avoid': set<nat>, u: nat, v: nat)
    requires avoid <= avoid' && ReachesAvoiding(g, avoid', u, v)
    ensures ReachesAvoiding(g, avoid, u, v)
  {
    var p :| IsPath(g, p, u, v) && Avoids(p, avoid');
    assert Avoids(p, avoid);
  }

  /** No edge leads out of the listed vertices except to avoided ones, and no start is left out. */
  ghost predicate Complete(g: Digraph, avoid: set<nat>, starts: seq<nat>, listed: set<nat>) {
    && (forall i :: 0 <= i < |starts| ==> starts[i] >= |g| || starts[i] in avoid || starts[i] in listed)
    && (forall u, v :: u in listed && Edge(g, u, v) ==> v in avoid || v in listed)
  }

  lemma {:induction false} ListedComplete(g: Digraph, avoid: set<nat>, starts: seq<nat>)
    ensures Complete(g, avoid, starts, Elements(Listed(g, avoid, starts)))
    decreases Left(g, avoid), |starts|
  {
    hide Listed, Elements;
    if starts == [] {
      ListedNothing(g, avoid);
      NoElements();
    } else {
      var x, rest := starts[0], starts[1..];
      if x in avoid || x >= |g| {
        ListedSkips(g, avoid, starts);
        ListedComplete(g, avoid, rest);
        assert forall i :: 0 < i < |starts| ==> starts[i] == rest[i - 1];
      } else {
        ListedEnters(g, avoid, starts);
        var found := Listed(g, avoid + {x}, g[x]);
        var avoid' := avoid + {x} + Elements(found);
        var later := Listed(g, avoid', rest);
        ListedComplete(g, avoid + {x}, g[x]);
        ListedComplete(g, avoid', rest);
        ElementsJoin(later, [x] + found);
        ElementsJoin([x], found);
        OneElement(x);
        assert Listed(g, avoid, starts) == later + ([x] + found);
        CompleteJoined(g, avoid, starts, Elements(found), Elements(later));
      }
    }
  }

  lemma CompleteJoined(g: Digraph, avoid: set<nat>, starts: seq<nat>, found: set<nat>, later: set<nat>)
    requires starts != [] && starts[0] < |g|
    requires Complete(g, avoid + {starts[0]}, g[starts[0]], found)
    requires Complete(g, avoid + {starts[0]} + found, starts[1..], later)
    ensures Complete(g, avoid, starts, later + ({starts[0]} + found))
  {
    var x := starts[0];
    assert forall i :: 0 < i < |starts| ==> starts[i] == starts[1..][i - 1];
    forall v | Edge(g, x, v) ensures v in avoid + {x} || v in found {
      var e :| 0 <= e < |g[x]| && g[x][e] == v;
    }
  }

  lemma {:induction false} PathListed(g: Digraph, avoid: set<nat>, starts: seq<nat>, listed: set<nat>, p: seq<nat>,
                                      u: nat, v: nat)
    requires Complete(g, avoid, starts, listed) && IsPath(g, p, u, v) && Avoids(p, avoid) && u in listed
    ensures v in listed
    decreases |p|
  {
    if |p| > 1 {
      PathSplits(g, p, u, v, |p| - 2);
      assert Avoids(p[..|p| - 1], avoid);
      PathListed(g, avoid, starts, listed, p[..|p| - 1], u, p[|p| - 2]);
      assert Edge(g, p[|p| - 2], p[|p| - 1]);
      assert p[|p| - 1] !in avoid;
    }
  }

  /** Exactly the vertices are listed to which a path leads from a start without entering an avoided one. */
  lemma ListedIff(g: Digraph, avoid: set<nat>, starts: seq<nat>, v: nat)
    requires WellFormed(g)
    ensures v in Listed(g, avoid, starts) <==> exists i :: 0 <= i < |starts| && ReachesAvoiding(g, avoid, starts[i], v)
  {
    hide Listed, Complete;
    if v in Listed(g, avoid, starts) {
      var i := ListedFrom(g, avoid, starts, v);
    }
    if i :| 0 <= i < |starts| && ReachesAvoiding(g, avoid, starts[i], v) {
      var p :| IsPath(g, p, starts[i], v) && Avoids(p, avoid);
      assert p[0] == starts[i];
      ListedComplete(g, avoid, starts);
      StartListed(g, avoid, starts, Elements(Listed(g, avoid, starts)), i);
      PathListed(g, avoid, starts, Elements(Listed(g, avoid, starts)), p, starts[i], v);
    }
  }

  lemma StartListed(g: Digraph, avoid: set<nat>, starts: seq<nat>, listed: set<nat>, i: nat)
    requires Complete(g, avoid, starts, listed) && i < |starts| && starts[i] < |g| && starts[i] !in avoid
    ensures starts[i] in listed
  {
  }

  /** What can be reached from the first n starts comes behind everything that cannot. */
  lemma EarlierStartsLast(g: Digraph, avoid: set<nat>, starts: seq<nat>, n: nat, u: nat, v: nat)
    requires WellFormed(g) && n <= |starts| && v in Listed(g, avoid, starts)
    requires exists i :: 0 <= i < n && ReachesAvoiding(g, avoid, starts[i], u)
    requires !exists i :: 0 <= i < n && ReachesAvoiding(g, avoid, starts[i], v)
    ensures Precedes(Listed(g, avoid, starts), v, u)
  {
    hide Listed, ReachesAvoiding, Elements;
    var first, last := starts[..n], starts[n..];
    assert starts == first + last;
    ListedMore(g, avoid, first, last);
    var early, late := Listed(g, avoid, first), Listed(g, avoid + Elements(Listed(g, avoid, first)), last);
    ListedIff(g, avoid, first, u);
    ListedIff(g, avoid, first, v);
    var i :| 0 <= i < n && ReachesAvoiding(g, avoid, starts[i], u);
    assert first[i] == starts[i];
    var a :| 0 <= a < |late| && late[a] == v;
    var b :| 0 <= b < |early| && early[b] == u;
    assert (late + early)[a] == v && (late + early)[|late| + b] == u;
  }

  // ----- the whole graph

  function All(n: nat): seq<nat> {
    seq(n, i => i)
  }

  lemma ReachesAnything(g: Digraph, u: nat, v: nat)
    ensures ReachesAvoiding(g, {}, u, v) <==> Reaches(g, u, v)
  {
    if Reaches(g, u, v) {
      var p :| IsPath(g, p, u, v);
      assert Avoids(p, {});
    }
  }

  /** In the search of a whole graph, what can be reached from the first n stored vertices comes behind everything
      that cannot. */
  lemma EarlierRootsLast(g: Digraph, n: nat, u: nat, v: nat)
    requires WellFormed(g) && n <= |g| && v < |g|
    requires exists i: nat :: i < n && Reaches(g, i, u)
    requires !exists i: nat :: i < n && Reaches(g, i, v)
    ensures Precedes(Listed(g, {}, All(|g|)), v, u)
  {
    hide Listed, Reaches, ReachesAvoiding;
    var starts := All(|g|);
    ReachesItself(g, {}, v);
    assert starts[v] == v;
    ListedIff(g, {}, starts, v);
    var i: nat :| i < n && Reaches(g, i, u);
    ReachesAnything(g, i, u);
    assert starts[i] == i;
    forall j | 0 <= j < n ensures !ReachesAvoiding(g, {}, starts[j], v) {
      ReachesAnything(g, j, v);
    }
    EarlierStartsLast(g, {}, starts, n, u, v);
  }
}
