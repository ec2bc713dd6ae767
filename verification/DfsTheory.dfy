/** The invariant of the depth-first search of algolib/source/dfs.c, on plain values. */
module DfsTheory {
  import opened Digraph

  /** Black vertices are those already listed, each once. */
  ghost predicate Shaped(g: Digraph, color: seq<Color>, ord: seq<nat>) {
    && |color| == |g|
    && (forall i :: 0 <= i < |ord| ==> ord[i] < |g| && color[ord[i]] == Black)
    && (forall i, j :: 0 <= i < j < |ord| ==> ord[i] != ord[j])
    && (forall v :: 0 <= v < |g| && color[v] == Black ==> v in ord)
  }

  /** No edge leads from a finished vertex to an undiscovered one. */
  ghost predicate Closed(g: Digraph, color: seq<Color>)
    requires |color| == |g|
  {
    forall u: nat, v: nat :: 0 <= u < |g| && color[u] == Black && Edge(g, u, v) ==> color[v] != White
  }

  /** Every edge from a listed vertex leads forward in the list, or closes a cycle. */
  ghost predicate EdgesOrdered(g: Digraph, ord: seq<nat>) {
    forall u: nat, v: nat :: u in ord && Edge(g, u, v) ==> Precedes(ord, u, v) || Reaches(g, v, u)
  }

  /** A finished vertex that reaches an unfinished one lies on a cycle with one being explored. */
  ghost predicate CycleOpen(g: Digraph, color: seq<Color>, u: nat)
    requires |color| == |g|
  {
    exists y: nat :: 0 <= y < |g| && color[y] == Gray && StronglyConnected(g, u, y)
  }

  ghost predicate OpenCycles(g: Digraph, color: seq<Color>)
    requires |color| == |g|
  {
    forall u: nat, x: nat :: 0 <= u < |g| && 0 <= x < |g| && color[u] == Black && color[x] != Black && Reaches(g, u, x)
      ==> CycleOpen(g, color, u)
  }

  /** Some vertex strongly connected with u is not finished yet, or stands before v. */
  ghost predicate Leads(g: Digraph, color: seq<Color>, ord: seq<nat>, u: nat, v: nat)
    requires |color| == |g|
  {
    exists y: nat :: 0 <= y < |g| && StronglyConnected(g, u, y) && (color[y] != Black || Precedes(ord, y, v))
  }

  ghost predicate ComponentsOrdered(g: Digraph, color: seq<Color>, ord: seq<nat>)
    requires |color| == |g|
  {
    forall u: nat, v: nat :: u < |g| && v in ord && Reaches(g, u, v) ==> Reaches(g, v, u) || Leads(g, color, ord, u, v)
  }

  ghost predicate Inv(g: Digraph, color: seq<Color>, ord: seq<nat>) {
    && Shaped(g, color, ord) && Closed(g, color)
    && EdgesOrdered(g, ord) && OpenCycles(g, color) && ComponentsOrdered(g, color, ord)
  }

  /** The vertices being explored all reach x. */
  ghost predicate Stack(g: Digraph, color: seq<Color>, x: nat)
    requires |color| == |g|
  {
    forall y: nat :: 0 <= y < |g| && color[y] == Gray ==> Reaches(g, y, x)
  }

  /** The first m edges out of x lead to discovered vertices. */
  ghost predicate Explored(g: Digraph, color: seq<Color>, x: nat, m: nat)
    requires |color| == |g|
  {
    x < |g| && m <= |g[x]| && forall e :: 0 <= e < m ==> g[x][e] < |g| && color[g[x][e]] != White
  }

  // ----- nothing discovered

  lemma StartInv(g: Digraph, color: seq<Color>)
    requires |color| == |g| && forall v :: 0 <= v < |g| ==> color[v] == White
    ensures Inv(g, color, [])
    ensures forall x :: Stack(g, color, x)
  {
  }

  // ----- a white vertex turns gray

  lemma DiscoverInv(g: Digraph, color: seq<Color>, ord: seq<nat>, x: nat)
    requires Inv(g, color, ord) && x < |g| && color[x] == White && Stack(g, color, x)
    ensures Inv(g, color[x := Gray], ord) && Stack(g, color[x := Gray], x)
  {
    hide Precedes, Reaches;
    var color' := color[x := Gray];
    ReachesSelf(g, x);
    forall v | 0 <= v < |g| && color'[v] == Black ensures v in ord {
      assert color[v] == Black;
    }
    forall u: nat, z: nat | 0 <= u < |g| && 0 <= z < |g| && color'[u] == Black && color'[z] != Black && Reaches(g, u, z)
      ensures CycleOpen(g, color', u)
    {
      assert CycleOpen(g, color, u);
      var y: nat :| 0 <= y < |g| && color[y] == Gray && StronglyConnected(g, u, y);
      assert color'[y] == Gray;
    }
    forall u: nat, v: nat | u < |g| && v in ord && Reaches(g, u, v) && !Reaches(g, v, u)
      ensures Leads(g, color', ord, u, v)
    {
      var y: nat :| 0 <= y < |g| && StronglyConnected(g, u, y) && (color[y] != Black || Precedes(ord, y, v));
      assert color'[y] == Black ==> color[y] == Black;
    }
  }

  // ----- a gray vertex turns black and goes to the front of the list

  lemma FinishShaped(g: Digraph, color: seq<Color>, ord: seq<nat>, x: nat)
    requires Shaped(g, color, ord) && x < |g| && color[x] == Gray
    ensures Shaped(g, color[x := Black], [x] + ord)
  {
    var color', ord' := color[x := Black], [x] + ord;
    assert forall i :: 0 < i < |ord'| ==> ord'[i] == ord[i - 1];
    forall v | 0 <= v < |g| && color'[v] == Black ensures v in ord' {
      if v == x {
        assert ord'[0] == x;
      } else {
        assert v in ord;
      }
    }
  }

  lemma FinishEdges(g: Digraph, color: seq<Color>, ord: seq<nat>, x: nat)
    requires Shaped(g, color, ord) && EdgesOrdered(g, ord) && Stack(g, color, x)
    requires x < |g| && Explored(g, color, x, |g[x]|)
    ensures EdgesOrdered(g, [x] + ord)
  {
    hide Precedes, Reaches;
    forall u: nat, v: nat | u in [x] + ord && Edge(g, u, v) ensures Precedes([x] + ord, u, v) || Reaches(g, v, u) {
      PrecedesPrepend(ord, x, u, v);
      if u == x {
        var e :| 0 <= e < |g[x]| && g[x][e] == v;
        assert color[v] != White;
      } else {
        assert u in ord;
      }
    }
  }

  /** On a path from x to an unfinished vertex other than x there is one being explored, other
      than x, to which only finished vertices or x lead. */
  lemma {:induction false} FirstUnfinished(g: Digraph, color: seq<Color>, x: nat, p: seq<nat>, z: nat)
    returns (y: nat)
    requires |color| == |g| && Closed(g, color) && x < |g| && Explored(g, color, x, |g[x]|)
    requires IsPath(g, p, x, z) && color[z] != Black && z != x
    ensures y < |g| && color[y] == Gray && y != x && Reaches(g, x, y)
    decreases |p|
  {
    var w := p[|p| - 2];
    PathSplits(g, p, x, z, |p| - 2);
    assert Edge(g, w, z) by { assert Edge(g, p[|p| - 2], p[|p| - 1]); }
    if w == x {
      var e :| 0 <= e < |g[x]| && g[x][e] == z;
      y := z;
    } else if color[w] == Black {
      y := z;
    } else {
      y := FirstUnfinished(g, color, x, p[..|p| - 1], w);
    }
  }

  lemma FinishCycleOfX(g: Digraph, color: seq<Color>, x: nat, z: nat)
    requires |color| == |g| && Closed(g, color) && Stack(g, color, x)
    requires x < |g| && Explored(g, color, x, |g[x]|)
    requires z < |g| && color[z] != Black && z != x && Reaches(g, x, z)
    ensures CycleOpen(g, color[x := Black], x)
  {
    var p :| IsPath(g, p, x, z);
    var y := FirstUnfinished(g, color, x, p, z);
    assert Reaches(g, y, x);
    assert color[x := Black][y] == Gray && StronglyConnected(g, x, y);
  }

  lemma FinishCycles(g: Digraph, color: seq<Color>, x: nat)
    requires |color| == |g| && Closed(g, color) && OpenCycles(g, color) && Stack(g, color, x)
    requires x < |g| && color[x] == Gray && Explored(g, color, x, |g[x]|)
    ensures OpenCycles(g, color[x := Black])
  {
    hide Reaches;
    var color' := color[x := Black];
    forall u: nat, z: nat | 0 <= u < |g| && 0 <= z < |g| && color'[u] == Black && color'[z] != Black && Reaches(g, u, z)
      ensures CycleOpen(g, color', u)
    {
      if u == x {
        FinishCycleOfX(g, color, x, z);
      } else {
        assert CycleOpen(g, color, u);
        var y: nat :| 0 <= y < |g| && color[y] == Gray && StronglyConnected(g, u, y);
        if y == x {
          ReachesTransitive(g, x, u, z);
          FinishCycleOfX(g, color, x, z);
          var y': nat :| 0 <= y' < |g| && color'[y'] == Gray && StronglyConnected(g, x, y');
          ReachesTransitive(g, u, x, y');
          ReachesTransitive(g, y', x, u);
          assert StronglyConnected(g, u, y');
        } else {
          assert color'[y] == Gray;
        }
      }
    }
  }

  lemma FinishComponents(g: Digraph, color: seq<Color>, ord: seq<nat>, x: nat)
    requires Shaped(g, color, ord) && OpenCycles(g, color) && ComponentsOrdered(g, color, ord)
    requires x < |g| && color[x] == Gray
    ensures ComponentsOrdered(g, color[x := Black], [x] + ord)
  {
    hide Reaches, Precedes;
    var color', ord' := color[x := Black], [x] + ord;
    forall u: nat, v: nat | u < |g| && v in ord' && Reaches(g, u, v) && !Reaches(g, v, u)
      ensures Leads(g, color', ord', u, v)
    {
      if v == x {
        ReachesSelf(g, u);
        if color[u] == Black {
          assert CycleOpen(g, color, u);
          var y: nat :| 0 <= y < |g| && color[y] == Gray && StronglyConnected(g, u, y);
          assert y != x && color'[y] != Black;
        } else {
          assert StronglyConnected(g, u, u) && color'[u] != Black;
        }
      } else {
        assert v in ord && Leads(g, color, ord, u, v);
        var y: nat :| 0 <= y < |g| && StronglyConnected(g, u, y) && (color[y] != Black || Precedes(ord, y, v));
        PrecedesPrepend(ord, x, y, v);
        assert y == x || color'[y] == color[y];
      }
    }
  }

  lemma FinishInv(g: Digraph, color: seq<Color>, ord: seq<nat>, x: nat)
    requires Inv(g, color, ord) && Stack(g, color, x)
    requires x < |g| && color[x] == Gray && Explored(g, color, x, |g[x]|)
    ensures Inv(g, color[x := Black], [x] + ord)
  {
    hide OpenCycles, ComponentsOrdered, EdgesOrdered, Precedes, Reaches, Stack;
    FinishShaped(g, color, ord, x);
    FinishEdges(g, color, ord, x);
    FinishCycles(g, color, x);
    FinishComponents(g, color, ord, x);
    forall u: nat, v: nat | 0 <= u < |g| && color[x := Black][u] == Black && Edge(g, u, v)
      ensures color[x := Black][v] != White
    {
      if u == x {
        var e :| 0 <= e < |g[x]| && g[x][e] == v;
      }
    }
  }

  // ----- what the finished list means

  /** The finished list: every vertex once; an edge leads forward or closes a cycle; and when u reaches
      v but not the other way round, some vertex strongly connected with u stands before v. */
  ghost predicate ReverseFinishingOrder(g: Digraph, ord: seq<nat>) {
    && (forall i :: 0 <= i < |ord| ==> ord[i] < |g|)
    && (forall i, j :: 0 <= i < j < |ord| ==> ord[i] != ord[j])
    && (forall v: nat :: v < |g| ==> v in ord)
    && EdgesOrdered(g, ord)
    && (forall u: nat, v: nat :: u < |g| && v < |g| && Reaches(g, u, v) ==>
          Reaches(g, v, u) || exists y: nat :: StronglyConnected(g, u, y) && Precedes(ord, y, v))
  }

  lemma AllFinished(g: Digraph, color: seq<Color>, ord: seq<nat>)
    requires Inv(g, color, ord) && forall v :: 0 <= v < |g| ==> color[v] == Black
    ensures ReverseFinishingOrder(g, ord)
  {
    hide Reaches, Precedes, EdgesOrdered;
    forall u: nat, v: nat | u < |g| && v < |g| && Reaches(g, u, v) && !Reaches(g, v, u)
      ensures exists y: nat :: StronglyConnected(g, u, y) && Precedes(ord, y, v)
    {
      assert color[v] == Black;
      assert Leads(g, color, ord, u, v);
      var y: nat :| y < |g| && StronglyConnected(g, u, y) && (color[y] != Black || Precedes(ord, y, v));
    }
  }

  ghost predicate Topological(g: Digraph, ord: seq<nat>) {
    forall u: nat, v: nat :: Edge(g, u, v) ==> Precedes(ord, u, v)
  }

  /** Along a path in a topological order positions only grow. */
  lemma {:induction false} PathForward(g: Digraph, ord: seq<nat>, p: seq<nat>, u: nat, v: nat, i: nat, j: nat)
    requires Topological(g, ord) && IsPath(g, p, u, v)
    requires forall m, n :: 0 <= m < n < |ord| ==> ord[m] != ord[n]
    requires i < |ord| && ord[i] == u && j < |ord| && ord[j] == v
    ensures i <= j
    decreases |p|
  {
    if |p| > 1 {
      var w := p[|p| - 2];
      PathSplits(g, p, u, v, |p| - 2);
      assert Edge(g, p[|p| - 2], p[|p| - 1]);
      var m, n :| 0 <= m < n < |ord| && ord[m] == w && ord[n] == v;
      assert n == j;
      PathForward(g, ord, p[..|p| - 1], u, w, i, m);
    } else {
      assert u == v;
    }
  }

  /** The finished list is a topological order exactly when the graph has no cycle. */
  lemma TopologicalIffAcyclic(g: Digraph, ord: seq<nat>)
    requires ReverseFinishingOrder(g, ord)
    ensures Topological(g, ord) <==> Acyclic(g)
  {
    if Topological(g, ord) {
      forall u: nat, v: nat | Edge(g, u, v) ensures !Reaches(g, v, u) {
        var i, j :| 0 <= i < j < |ord| && ord[i] == u && ord[j] == v;
        forall p ensures !IsPath(g, p, v, u) {
          if IsPath(g, p, v, u) {
            PathForward(g, ord, p, v, u, j, i);
            assert false;
          }
        }
      }
    }
    if Acyclic(g) {
      forall u: nat, v: nat | Edge(g, u, v) ensures Precedes(ord, u, v) {
        assert u in ord && !Reaches(g, v, u);
      }
    }
  }
}
