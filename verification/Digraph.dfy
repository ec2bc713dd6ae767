/** Directed graphs as adjacency lists over 0..n, and the paths in them. */
module Digraph {

  type Digraph = seq<seq<nat>>

  /** What a traversal has done with a vertex: nothing, started, finished. */
  datatype Color = White | Gray | Black

  ghost predicate WellFormed(g: Digraph) {
    forall u, e :: 0 <= u < |g| && 0 <= e < |g[u]| ==> g[u][e] < |g|
  }

  ghost predicate Edge(g: Digraph, u: nat, v: nat) {
    u < |g| && v < |g| && v in g[u]
  }

  ghost predicate IsPath(g: Digraph, p: seq<nat>, u: nat, v: nat) {
    && p != [] && p[0] == u && p[|p| - 1] == v
    && (forall i :: 0 <= i < |p| ==> p[i] < |g|)
    && (forall i :: 0 < i < |p| ==> Edge(g, p[i - 1], p[i]))
  }

  ghost predicate Reaches(g: Digraph, u: nat, v: nat) {
    exists p :: IsPath(g, p, u, v)
  }

  ghost predicate ReachesIn(g: Digraph, u: nat, v: nat, length: nat) {
    exists p :: IsPath(g, p, u, v) && |p| == length + 1
  }

  /** length is that of a shortest path from u to v. */
  ghost predicate Distance(g: Digraph, u: nat, v: nat, length: nat) {
    && ReachesIn(g, u, v, length)
    && forall p :: IsPath(g, p, u, v) ==> length + 1 <= |p|
  }

  ghost predicate StronglyConnected(g: Digraph, u: nat, v: nat) {
    Reaches(g, u, v) && Reaches(g, v, u)
  }

  lemma ReachesSelf(g: Digraph, u: nat)
    requires u < |g|
    ensures Reaches(g, u, u) && ReachesIn(g, u, u, 0)
  {
    assert IsPath(g, [u], u, u);
  }

  lemma PathExtends(g: Digraph, p: seq<nat>, u: nat, v: nat, w: nat)
    requires IsPath(g, p, u, v) && Edge(g, v, w)
    ensures IsPath(g, p + [w], u, w)
  {
  }

  lemma ReachesInNext(g: Digraph, u: nat, v: nat, w: nat, length: nat)
    requires ReachesIn(g, u, v, length) && Edge(g, v, w)
    ensures ReachesIn(g, u, w, length + 1)
  {
    var p :| IsPath(g, p, u, v) && |p| == length + 1;
    PathExtends(g, p, u, v, w);
  }

  lemma ReachesNext(g: Digraph, u: nat, v: nat, w: nat)
    requires Reaches(g, u, v) && Edge(g, v, w)
    ensures Reaches(g, u, w)
  {
    var p :| IsPath(g, p, u, v);
    PathExtends(g, p, u, v, w);
  }

  lemma ReachesTransitive(g: Digraph, u: nat, v: nat, w: nat)
    requires Reaches(g, u, v) && Reaches(g, v, w)
    ensures Reaches(g, u, w)
  {
    var p :| IsPath(g, p, u, v);
    var q :| IsPath(g, q, v, w);
    var r := p + q[1..];
    forall i | 0 < i < |r| ensures Edge(g, r[i - 1], r[i]) {
      if i < |p| {
        assert Edge(g, p[i - 1], p[i]);
      } else {
        var j := i - |p| + 1;
        assert Edge(g, q[j - 1], q[j]);
      }
    }
    assert IsPath(g, r, u, w);
  }

  /** The part of a path from an inner point on, and up to it. */
  lemma PathSplits(g: Digraph, p: seq<nat>, u: nat, v: nat, i: nat)
    requires IsPath(g, p, u, v) && i < |p|
    ensures IsPath(g, p[..i + 1], u, p[i]) && IsPath(g, p[i..], p[i], v)
  {
    forall j | 0 < j < |p[i..]| ensures Edge(g, p[i..][j - 1], p[i..][j]) {
      assert Edge(g, p[i + j - 1], p[i + j]);
    }
  }

  /** Distances from u: 0 at u only, one more than that of some predecessor elsewhere, and along an edge never more
      than one more. */
  lemma DistanceSteps(g: Digraph, u: nat, v: nat, n: nat)
    requires u < |g| && Distance(g, u, v, n)
    ensures n == 0 <==> u == v
    ensures n > 0 ==> exists w: nat :: Distance(g, u, w, n - 1) && Edge(g, w, v)
    ensures forall w: nat, m: nat :: Edge(g, v, w) && Distance(g, u, w, m) ==> m <= n + 1
  {
    var p :| IsPath(g, p, u, v) && |p| == n + 1;
    if u == v {
      ReachesSelf(g, u);
      assert IsPath(g, [u], u, u);
    }
    if n > 0 {
      var w := p[n - 1];
      PathSplits(g, p, u, v, n - 1);
      assert Edge(g, p[n - 1], p[n]);
      assert IsPath(g, p[..n], u, w);
      forall q | IsPath(g, q, u, w) ensures n <= |q| {
        PathExtends(g, q, u, w, v);
      }
      assert Distance(g, u, w, n - 1);
    }
    forall w: nat, m: nat | Edge(g, v, w) && Distance(g, u, w, m) ensures m <= n + 1 {
      PathExtends(g, p, u, v, w);
    }
  }

  // ----- orders

  /** u stands before v in ord. */
  ghost predicate Precedes(ord: seq<nat>, u: nat, v: nat) {
    exists i, j :: 0 <= i < j < |ord| && ord[i] == u && ord[j] == v
  }

  ghost predicate Acyclic(g: Digraph) {
    forall u, v :: Edge(g, u, v) ==> !Reaches(g, v, u)
  }

  lemma PrecedesPrepend(ord: seq<nat>, x: nat, u: nat, v: nat)
    ensures Precedes(ord, u, v) ==> Precedes([x] + ord, u, v)
    ensures v in ord ==> Precedes([x] + ord, x, v)
  {
    if Precedes(ord, u, v) {
      var i, j :| 0 <= i < j < |ord| && ord[i] == u && ord[j] == v;
      assert ([x] + ord)[i + 1] == u && ([x] + ord)[j + 1] == v;
    }
    if v in ord {
      var j :| 0 <= j < |ord| && ord[j] == v;
      assert ([x] + ord)[0] == x && ([x] + ord)[j + 1] == v;
    }
  }
}
