/** The invariant of the breadth-first search of algolib/source/bfs.c, on plain values. */
module BfsTheory {
  import opened Digraph

  /** The colours, the hop counts and the queue of a search from s. */
  datatype Search = Search(color: seq<Color>, hops: seq<int>, queue: seq<nat>)

  ghost predicate Shaped(g: Digraph, s: nat, b: Search) {
    && |b.color| == |b.hops| == |g|
    && s < |g| && b.color[s] != White && b.hops[s] == 0
    && (forall v :: 0 <= v < |g| ==> b.hops[v] >= -1 && (b.color[v] == White <==> b.hops[v] == -1))
    && (forall i :: 0 <= i < |b.queue| ==> b.queue[i] < |g| && b.color[b.queue[i]] == Gray)
    && (forall i, j :: 0 <= i < j < |b.queue| ==> b.queue[i] != b.queue[j])
    && (forall v :: 0 <= v < |g| && b.color[v] == Gray ==> v in b.queue)
  }

  /** Every hop count is the length of some path from s. */
  ghost predicate Sound(g: Digraph, s: nat, b: Search)
    requires Shaped(g, s, b)
  {
    forall v :: 0 <= v < |g| && b.color[v] != White ==> ReachesIn(g, s, v, b.hops[v])
  }

  /** An edge that leaves a finished vertex adds at most one hop. */
  ghost predicate Relaxed(g: Digraph, b: Search, u: nat, v: nat)
    requires |b.color| == |b.hops| == |g| && u < |g| && v < |g|
  {
    b.color[v] != White && b.hops[v] <= b.hops[u] + 1
  }

  ghost predicate Finished(g: Digraph, s: nat, b: Search)
    requires Shaped(g, s, b)
  {
    forall u, v :: 0 <= u < |g| && b.color[u] == Black && Edge(g, u, v) ==> Relaxed(g, b, u, v)
  }

  /** Queued hop counts do not fall, differ by at most one, and are not below the finished ones. */
  ghost predicate Monotone(g: Digraph, s: nat, b: Search)
    requires Shaped(g, s, b)
  {
    && (forall i, j :: 0 <= i < j < |b.queue| ==> b.hops[b.queue[i]] <= b.hops[b.queue[j]])
    && (forall i :: 0 <= i < |b.queue| ==> b.hops[b.queue[i]] <= b.hops[b.queue[0]] + 1)
    && (b.queue != [] ==> forall v :: 0 <= v < |g| && b.color[v] == Black ==> b.hops[v] <= b.hops[b.queue[0]])
  }

  ghost predicate Inv(g: Digraph, s: nat, b: Search) {
    Shaped(g, s, b) && Sound(g, s, b) && Finished(g, s, b) && Monotone(g, s, b)
  }

  /** The first m edges that leave the head of the queue have been looked at. */
  ghost predicate Scanned(g: Digraph, b: Search, m: nat)
    requires |b.color| == |b.hops| == |g|
  {
    && b.queue != [] && b.queue[0] < |g| && m <= |g[b.queue[0]]|
    && forall e :: 0 <= e < m ==> g[b.queue[0]][e] < |g| && Relaxed(g, b, b.queue[0], g[b.queue[0]][e])
  }

  lemma NothingScanned(g: Digraph, s: nat, b: Search)
    requires Inv(g, s, b) && b.queue != []
    ensures Scanned(g, b, 0)
  {
  }

  function Start(n: nat, s: nat): Search
    requires s < n
  {
    Search(seq(n, i => if i == s then Gray else White), seq(n, i => if i == s then 0 else -1), [s])
  }

  lemma StartInv(g: Digraph, s: nat)
    requires s < |g|
    ensures Inv(g, s, Start(|g|, s))
  {
    var b := Start(|g|, s);
    assert b.queue[0] == s;
    ReachesSelf(g, s);
  }

  function Discover(b: Search, u: nat, v: nat): Search
    requires |b.color| == |b.hops| && u < |b.color| && v < |b.color|
  {
    Search(b.color[v := Gray], b.hops[v := b.hops[u] + 1], b.queue + [v])
  }

  lemma ShapedQueue(g: Digraph, s: nat, b: Search)
    requires Shaped(g, s, b)
    ensures |b.color| == |b.hops| == |g|
    ensures forall i :: 0 <= i < |b.queue| ==> b.queue[i] < |g| && b.color[b.queue[i]] == Gray
  {
  }

  lemma DiscoverMonotone(g: Digraph, s: nat, b: Search, v: nat)
    requires Shaped(g, s, b) && Monotone(g, s, b) && b.queue != []
    requires v < |g| && b.color[v] == White && Shaped(g, s, Discover(b, b.queue[0], v))
    ensures Monotone(g, s, Discover(b, b.queue[0], v))
  {
    hide Shaped;
    ShapedQueue(g, s, b);
    var b', n := Discover(b, b.queue[0], v), |b.queue|;
    forall i | 0 <= i < n ensures b'.queue[i] == b.queue[i] && b'.hops[b'.queue[i]] == b.hops[b.queue[i]] {
      assert b.color[b.queue[i]] == Gray;
    }
    assert b'.queue[n] == v && b'.hops[v] == b.hops[b.queue[0]] + 1;
  }

  lemma DiscoverInv(g: Digraph, s: nat, b: Search, m: nat)
    requires Inv(g, s, b) && Scanned(g, b, m) && WellFormed(g)
    requires m < |g[b.queue[0]]| && b.color[g[b.queue[0]][m]] == White
    ensures Inv(g, s, Discover(b, b.queue[0], g[b.queue[0]][m]))
    ensures Scanned(g, Discover(b, b.queue[0], g[b.queue[0]][m]), m + 1)
  {
    hide Monotone, ReachesIn;
    var u := b.queue[0];
    var v := g[u][m];
    var b' := Discover(b, u, v);
    assert Edge(g, u, v);
    DiscoverShaped(g, s, b, u, v);
    DiscoverMonotone(g, s, b, v);
    ReachesInNext(g, s, u, v, b.hops[u]);
    assert b'.queue[0] == u && u != v;
    assert forall x, y :: 0 <= x < |g| && b'.color[x] == Black && Edge(g, x, y) ==> Relaxed(g, b, x, y);
  }

  lemma DiscoverShaped(g: Digraph, s: nat, b: Search, u: nat, v: nat)
    requires Shaped(g, s, b) && u < |g| && b.color[u] != White && v < |g| && b.color[v] == White
    ensures Shaped(g, s, Discover(b, u, v))
  {
    var b' := Discover(b, u, v);
    forall x | 0 <= x < |g| && b'.color[x] == Gray ensures x in b'.queue {
      if x == v {
        assert b'.queue[|b.queue|] == v;
      } else {
        assert x in b.queue;
      }
    }
  }

  /** Looking at an edge to a vertex already met changes nothing. */
  lemma SkipScanned(g: Digraph, s: nat, b: Search, m: nat)
    requires Inv(g, s, b) && Scanned(g, b, m) && WellFormed(g)
    requires m < |g[b.queue[0]]| && b.color[g[b.queue[0]][m]] != White
    ensures Scanned(g, b, m + 1)
  {
    var v := g[b.queue[0]][m];
    if b.color[v] == Gray {
      var i :| 0 <= i < |b.queue| && b.queue[i] == v;
    }
  }

  function Finish(b: Search): Search
    requires b.queue != [] && b.queue[0] < |b.color|
  {
    Search(b.color[b.queue[0] := Black], b.hops, b.queue[1..])
  }

  lemma FinishInv(g: Digraph, s: nat, b: Search)
    requires Inv(g, s, b) && b.queue != [] && Scanned(g, b, |g[b.queue[0]]|)
    ensures Inv(g, s, Finish(b))
  {
    hide Monotone, ReachesIn;
    var u, b' := b.queue[0], Finish(b);
    FinishShaped(g, s, b);
    FinishRelaxed(g, s, b);
    FinishMonotone(g, s, b);
  }

  lemma FinishRelaxed(g: Digraph, s: nat, b: Search)
    requires Shaped(g, s, b) && Finished(g, s, b) && b.queue != [] && Scanned(g, b, |g[b.queue[0]]|)
    requires Shaped(g, s, Finish(b))
    ensures Finished(g, s, Finish(b))
  {
    var u, b' := b.queue[0], Finish(b);
    forall x, y | 0 <= x < |g| && b'.color[x] == Black && Edge(g, x, y) ensures Relaxed(g, b', x, y) {
      if x == u {
        var e :| 0 <= e < |g[u]| && g[u][e] == y;
      } else {
        assert Relaxed(g, b, x, y);
      }
    }
  }

  lemma FinishMonotone(g: Digraph, s: nat, b: Search)
    requires Shaped(g, s, b) && Monotone(g, s, b) && b.queue != [] && Shaped(g, s, Finish(b))
    ensures Monotone(g, s, Finish(b))
  {
    hide Shaped;
    ShapedQueue(g, s, b);
    var b' := Finish(b);
    assert forall i :: 0 <= i < |b'.queue| ==> b'.queue[i] == b.queue[i + 1];
    if b'.queue != [] {
      assert b.hops[b.queue[0]] <= b.hops[b.queue[1]];
    }
  }

  lemma FinishShaped(g: Digraph, s: nat, b: Search)
    requires Shaped(g, s, b) && b.queue != []
    ensures Shaped(g, s, Finish(b))
  {
    var b' := Finish(b);
    assert forall i :: 0 <= i < |b'.queue| ==> b'.queue[i] == b.queue[i + 1];
    forall v | 0 <= v < |g| && b'.color[v] == Gray ensures v in b'.queue {
      var i :| 0 <= i < |b.queue| && b.queue[i] == v;
      assert i > 0 && b'.queue[i - 1] == v;
    }
  }

  /** With an empty queue every vertex on a path from s is finished within the length of the path. */
  lemma {:induction false} PathBound(g: Digraph, s: nat, b: Search, p: seq<nat>, v: nat)
    requires Inv(g, s, b) && b.queue == [] && IsPath(g, p, s, v)
    ensures b.color[v] == Black && b.hops[v] <= |p| - 1
    decreases |p|
  {
    assert b.color[v] != Gray;
    if |p| > 1 {
      var w := p[|p| - 2];
      PathSplits(g, p, s, v, |p| - 2);
      PathBound(g, s, b, p[..|p| - 1], w);
      assert Edge(g, p[|p| - 2], p[|p| - 1]);
      assert Relaxed(g, b, w, v);
    }
  }

  /** What the search has found when its queue is empty. */
  ghost predicate ShortestPaths(g: Digraph, s: nat, hops: seq<int>)
    requires |hops| == |g|
  {
    forall v :: 0 <= v < |g| ==>
      if Reaches(g, s, v) then hops[v] >= 0 && Distance(g, s, v, hops[v]) else hops[v] == -1
  }

  lemma EmptyQueueShortest(g: Digraph, s: nat, b: Search)
    requires Inv(g, s, b) && b.queue == []
    ensures ShortestPaths(g, s, b.hops)
  {
    forall v | 0 <= v < |g|
      ensures if Reaches(g, s, v) then b.hops[v] >= 0 && Distance(g, s, v, b.hops[v]) else b.hops[v] == -1
    {
      forall p | IsPath(g, p, s, v) ensures b.color[v] == Black && b.hops[v] + 1 <= |p| {
        PathBound(g, s, b, p, v);
      }
      if b.color[v] != White {
        assert ReachesIn(g, s, v, b.hops[v]);
      }
    }
  }

  /** By then all vertices that have been met are finished. */
  lemma EmptyQueueColors(g: Digraph, s: nat, b: Search)
    requires Inv(g, s, b) && b.queue == []
    ensures |b.color| == |b.hops| == |g|
    ensures forall v :: 0 <= v < |g| ==> b.color[v] == if b.hops[v] == -1 then White else Black
  {
    forall v | 0 <= v < |g| ensures b.color[v] != Gray {
      assert b.color[v] == Gray ==> v in b.queue;
    }
  }
}
