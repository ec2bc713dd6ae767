/** Breadth-first search of algolib/source/bfs.c: hop counts from a start vertex. */
module Bfs {
  import opened Digraph
  import opened GraphRows
  import opened Graph
  import opened LinkedList
  import opened Queue
  import opened Wrappers
  import Theory = BfsTheory

  /** Colours and hop counts as the vertex records hold them. */
  ghost predicate Mirrors(graph: Graph, color: seq<Color>, hops: seq<int>)
    reads graph, graph.adjlists, graph.Vertices()
  {
    && |color| == |hops| == |graph.adjlists|
    && forall i :: 0 <= i < |graph.adjlists| ==>
         graph.adjlists[i].vertex.color == color[i] && graph.adjlists[i].vertex.hops == hops[i]
  }

  /** The queue holds adjacency lists; q are their positions. */
  ghost predicate Queues(graph: Graph, queue: List<AdjList>, q: seq<nat>)
    reads graph, queue, queue.spine
  {
    && |queue.Contents()| == |q|
    && forall t :: 0 <= t < |q| ==> q[t] < |graph.adjlists| && queue.Contents()[t] == graph.adjlists[q[t]]
  }

  /** Vertex records and queue hold what the ghost state says. */
  ghost predicate Holds(graph: Graph, queue: List<AdjList>, b: Theory.Search)
    reads graph, graph.adjlists, graph.Vertices(), queue, queue.spine
  {
    queue.Valid() && Mirrors(graph, b.color, b.hops) && Queues(graph, queue, b.queue)
  }

  /** Writes one vertex record. */
  method Mark(graph: Graph, vertex: Vertex, color: Color, hops: int, queue: List<AdjList>,
              ghost i: nat, ghost b: Theory.Search)
    requires graph.Valid() && Holds(graph, queue, b)
    requires i < |graph.adjlists| && graph.adjlists[i].vertex == vertex
    modifies vertex
    ensures Holds(graph, queue, Theory.Search(b.color[i := color], b.hops[i := hops], b.queue))
  {
    RecordsDistinct(graph);
    vertex.color, vertex.hops := color, hops;
  }

  method Push(graph: Graph, queue: List<AdjList>, adjlist: AdjList, ghost i: nat, ghost b: Theory.Search)
    requires Holds(graph, queue, b)
    requires i < |graph.adjlists| && graph.adjlists[i] == adjlist
    modifies queue, queue.spine
    ensures Holds(graph, queue, Theory.Search(b.color, b.hops, b.queue + [i]))
    ensures forall i :: 0 <= i < |queue.spine| ==> queue.spine[i] in old(queue.spine) || fresh(queue.spine[i])
  {
    Enqueue(queue, adjlist);
  }

  method Pop(graph: Graph, queue: List<AdjList>, ghost b: Theory.Search) returns (status: int, adjlist: Option<AdjList>)
    requires Holds(graph, queue, b) && b.queue != []
    modifies queue
    ensures status == 0 && b.queue[0] < |graph.adjlists| && adjlist == Some(graph.adjlists[b.queue[0]])
    ensures Holds(graph, queue, Theory.Search(b.color, b.hops, b.queue[1..]))
    ensures forall i :: 0 <= i < |queue.spine| ==> queue.spine[i] in old(queue.spine)
  {
    status, adjlist := Dequeue(queue);
  }

  method Front(graph: Graph, queue: List<AdjList>, ghost b: Theory.Search) returns (adjlist: AdjList)
    requires Holds(graph, queue, b) && b.queue != []
    ensures b.queue[0] < |graph.adjlists| && adjlist == graph.adjlists[b.queue[0]]
  {
    adjlist := Peek(queue).value;
  }

  lemma RecordAt(graph: Graph, queue: List<AdjList>, b: Theory.Search, i: nat)
    requires Holds(graph, queue, b)
    ensures |b.color| == |b.hops| == |graph.adjlists|
    ensures i < |graph.adjlists| ==>
      graph.adjlists[i].vertex.color == b.color[i] && graph.adjlists[i].vertex.hops == b.hops[i]
  {
  }

  /** The first loop: the start vertex gray with no hops, all others white and unreached. */
  method Initialize(graph: Graph, start: Key)
    requires graph.Valid()
    modifies graph.Vertices()
    ensures forall i :: 0 <= i < |graph.adjlists| ==>
      var v := graph.adjlists[i].vertex;
      if v.data == start then v.color == Gray && v.hops == 0 else v.color == White && v.hops == -1
  {
    RecordsDistinct(graph);
    var element := 0;
    while element < |graph.adjlists|
      invariant element <= |graph.adjlists|
      invariant forall i :: 0 <= i < element ==>
        var v := graph.adjlists[i].vertex;
        if v.data == start then v.color == Gray && v.hops == 0 else v.color == White && v.hops == -1
    {
      var vertex := graph.adjlists[element].vertex;
      assert vertex in graph.Vertices();
      if vertex.data == start {
        vertex.color, vertex.hops := Gray, 0;
      } else {
        vertex.color, vertex.hops := White, -1;
      }
      element := element + 1;
    }
  }

  /** The list holds vertex records of the graph, those at the positions `at`. */
  ghost predicate Lists(graph: Graph, hops: List<Vertex>, at: seq<nat>)
    reads graph, hops, hops.spine
  {
    && |at| == |hops.Contents()|
    && (forall i :: 0 <= i < |at| ==>
          at[i] < |graph.adjlists| && hops.Contents()[i] == graph.adjlists[at[i]].vertex)
  }

  /** Of the first n positions, those with a hop count, in ascending order. */
  ghost predicate Reached(at: seq<nat>, hops: seq<int>, n: nat)
    requires n <= |hops|
  {
    && (forall i, j :: 0 <= i < j < |at| ==> at[i] < at[j])
    && (forall v: nat :: v in at <==> v < n && hops[v] != -1)
  }

  lemma ReachedNext(at: seq<nat>, hops: seq<int>, n: nat)
    requires n < |hops| && Reached(at, hops, n)
    ensures Reached(if hops[n] != -1 then at + [n] else at, hops, n + 1)
  {
    forall i | 0 <= i < |at| ensures at[i] < n {
      assert at[i] in at;
    }
    forall v: nat ensures v in at + [n] <==> v in at || v == n {
      assert (at + [n])[|at|] == n;
    }
  }

  method Gather(graph: Graph, vertex: Vertex, hops: List<Vertex>, ghost element: nat, ghost at: seq<nat>)
    requires hops.Valid() && Lists(graph, hops, at)
    requires element < |graph.adjlists| && graph.adjlists[element].vertex == vertex
    modifies hops, hops.tail
    ensures hops.Valid() && Lists(graph, hops, at + [element])
    ensures forall i :: 0 <= i < |hops.spine| ==> hops.spine[i] in old(hops.spine) || fresh(hops.spine[i])
  {
    Enqueue(hops, vertex);
  }

  lemma NoneListed(graph: Graph, hops: List<Vertex>)
    requires hops.Contents() == []
    ensures Lists(graph, hops, [])
  {
  }

  lemma NoneReached(hops: seq<int>)
    ensures Reached([], hops, 0)
  {
  }

  /** The last loop: gathers the reached vertices in the order of the graph's own list. */
  method Collect(graph: Graph, ghost c: seq<Color>, ghost h: seq<int>) returns (hops: List<Vertex>, ghost at: seq<nat>)
    requires graph.Valid() && Mirrors(graph, c, h)
    ensures fresh(hops) && hops.Valid() && Lists(graph, hops, at) && Reached(at, h, |h|)
  {
    hide EdgeCount, WellFormedRows, Reached, Lists;
    hops := new List();
    at := [];
    NoneReached(h);
    assert Lists(graph, hops, at) by { NoneListed(graph, hops); }
    var element := 0;
    while element < |graph.adjlists|
      invariant element <= |graph.adjlists|
      invariant fresh(hops) && hops.Valid() && forall m :: 0 <= m < |hops.spine| ==> fresh(hops.spine[m])
      invariant Lists(graph, hops, at) && Reached(at, h, element)
    {
      var vertex := graph.adjlists[element].vertex;
      assert vertex.hops == old(graph.adjlists[element].vertex.hops) == h[element];
      ReachedNext(at, h, element);
      if vertex.hops != -1 {
        Gather(graph, vertex, hops, element, at);
        at := at + [element];
      }
      element := element + 1;
    }
  }

  /** What one round of the search keeps. */
  twostate predicate SameRound(queue: List<AdjList>, b: Theory.Search, b': Theory.Search)
    reads queue
  {
    && b.queue != [] && b'.queue != [] && b'.queue[0] == b.queue[0]
    && |b'.color| == |b.color| && (forall v :: 0 <= v < |b.color| ==> (b'.color[v] == Black <==> b.color[v] == Black))
    && (forall i :: 0 <= i < |queue.spine| ==> queue.spine[i] in old(queue.spine) || fresh(queue.spine[i]))
  }

  /** A white vertex turns gray, one hop behind, and its list goes into the queue. */
  method Discover(graph: Graph, queue: List<AdjList>, adjlist: AdjList, clr: AdjList, ghost u: nat, ghost v: nat,
                  ghost b: Theory.Search)
    requires graph.Valid() && Holds(graph, queue, b) && |b.color| == |b.hops| == |graph.adjlists|
    requires u < |graph.adjlists| && adjlist == graph.adjlists[u] && v < |graph.adjlists| && clr == graph.adjlists[v]
    modifies graph.Vertices(), queue, queue.spine
    ensures Holds(graph, queue, Theory.Discover(b, u, v))
    ensures forall i :: 0 <= i < |queue.spine| ==> queue.spine[i] in old(queue.spine) || fresh(queue.spine[i])
  {
    hide Holds, EdgeCount, WellFormedRows;
    RecordAt(graph, queue, b, u);
    assert clr.vertex in graph.Vertices();
    Mark(graph, clr.vertex, Gray, adjlist.vertex.hops + 1, queue, v, b);
    Push(graph, queue, clr, v, Theory.Search(b.color[v := Gray], b.hops[v := b.hops[u] + 1], b.queue));
  }

  /** One edge of the list at the head of the queue. */
  method Visit(graph: Graph, queue: List<AdjList>, adjlist: AdjList, member: nat, ghost s: nat, ghost b: Theory.Search)
    returns (status: int, ghost b': Theory.Search)
    requires graph.Valid() && Holds(graph, queue, b) && b.queue != []
    requires b.queue[0] < |graph.adjlists| && adjlist == graph.adjlists[b.queue[0]] && member < |adjlist.adjacent|
    requires |b.color| == |b.hops| == |graph.adjlists|
    requires Theory.Inv(Resolve(graph.Rows()), s, b) && Theory.Scanned(Resolve(graph.Rows()), b, member)
    modifies graph.Vertices(), queue, queue.spine
    ensures status == 0 && Holds(graph, queue, b')
    ensures |b'.color| == |b'.hops| == |graph.adjlists|
    ensures Theory.Inv(Resolve(graph.Rows()), s, b') && Theory.Scanned(Resolve(graph.Rows()), b', member + 1)
    ensures SameRound(queue, b, b')
  {
    hide Holds, Resolve, EdgeCount, WellFormedRows, WellFormed, Theory.Inv, Theory.Scanned;
    ghost var g, u := Resolve(graph.Rows()), b.queue[0];
    ResolvedGraph(graph);
    var clr;
    status, clr := Target(graph, adjlist, member, u);
    ghost var v := g[u][member];
    RecordAt(graph, queue, b, v);
    RecordAt(graph, queue, b, u);
    b' := b;
    if clr.vertex.color == White {
      Theory.DiscoverInv(g, s, b, member);
      Discover(graph, queue, adjlist, clr, u, v, b);
      b' := Theory.Discover(b, u, v);
    } else {
      Theory.SkipScanned(g, s, b, member);
    }
  }

  /** One round of the search: the edges of the list at the head of the queue. */
  method Expand(graph: Graph, queue: List<AdjList>, adjlist: AdjList, ghost s: nat, ghost b: Theory.Search)
    returns (status: int, ghost b': Theory.Search)
    requires graph.Valid() && Holds(graph, queue, b) && b.queue != []
    requires b.queue[0] < |graph.adjlists| && adjlist == graph.adjlists[b.queue[0]]
    requires |b.color| == |b.hops| == |graph.adjlists|
    requires Theory.Inv(Resolve(graph.Rows()), s, b)
    modifies graph.Vertices(), queue, queue.spine
    ensures status == 0 && Holds(graph, queue, b')
    ensures |b'.color| == |b'.hops| == |graph.adjlists|
    ensures Theory.Inv(Resolve(graph.Rows()), s, b')
    ensures Theory.Scanned(Resolve(graph.Rows()), b', |adjlist.adjacent|)
    ensures SameRound(queue, b, b')
  {
    hide Holds, Resolve, EdgeCount, WellFormedRows, WellFormed, Theory.Inv, Theory.Scanned;
    ghost var g := Resolve(graph.Rows());
    ResolvedGraph(graph);
    Theory.NothingScanned(g, s, b);
    status, b' := 0, b;
    var member := 0;
    while member < |adjlist.adjacent|
      invariant member <= |adjlist.adjacent| && status == 0
      invariant Holds(graph, queue, b') && |b'.color| == |b'.hops| == |graph.adjlists|
      invariant SameRound(queue, b, b')
      invariant Theory.Inv(g, s, b') && Theory.Scanned(g, b', member)
    {
      status, b' := Visit(graph, queue, adjlist, member, s, b');
      member := member + 1;
    }
  }

  /** One round: the edges of the list at the head of the queue, which then leaves the queue. */
  method Round(graph: Graph, queue: List<AdjList>, ghost s: nat, ghost b: Theory.Search)
    returns (status: int, ghost b': Theory.Search)
    requires graph.Valid() && Holds(graph, queue, b) && b.queue != []
    requires |b.color| == |b.hops| == |graph.adjlists|
    requires Theory.Inv(Resolve(graph.Rows()), s, b)
    modifies graph.Vertices(), queue, queue.spine
    ensures status == 0 && Holds(graph, queue, b')
    ensures |b'.color| == |b'.hops| == |graph.adjlists|
    ensures Theory.Inv(Resolve(graph.Rows()), s, b') && Unfinished(b') < Unfinished(b)
    ensures forall i :: 0 <= i < |queue.spine| ==> queue.spine[i] in old(queue.spine) || fresh(queue.spine[i])
  {
    hide Holds, Resolve, EdgeCount, WellFormedRows, WellFormed, Theory.Inv, Theory.Scanned, Unfinished;
    ghost var g := Resolve(graph.Rows());
    ResolvedGraph(graph);
    var adjlist := Front(graph, queue, b);
    status, b' := Expand(graph, queue, adjlist, s, b);
    Theory.FinishInv(g, s, b');
    FinishedLess(g, s, b, b');
    ghost var u, expanded := b'.queue[0], b';
    RecordAt(graph, queue, b', u);
    var popped;
    status, popped := Pop(graph, queue, b');
    b' := Theory.Search(b'.color, b'.hops, b'.queue[1..]);
    Mark(graph, popped.value.vertex, Black, popped.value.vertex.hops, queue, u, b');
    b' := Theory.Finish(expanded);
    assert b'.hops == expanded.hops[u := expanded.hops[u]];
  }

  /** The search loop: rounds until the queue is empty. */
  method Search(graph: Graph, queue: List<AdjList>, ghost s: nat, ghost b: Theory.Search)
    returns (status: int, ghost b': Theory.Search)
    requires graph.Valid() && Holds(graph, queue, b)
    requires |b.color| == |b.hops| == |graph.adjlists|
    requires Theory.Inv(Resolve(graph.Rows()), s, b)
    modifies graph.Vertices(), queue, queue.spine
    ensures status == 0 && Holds(graph, queue, b')
    ensures |b'.color| == |b'.hops| == |graph.adjlists|
    ensures Theory.Inv(Resolve(graph.Rows()), s, b') && b'.queue == []
  {
    hide *;
    ghost var g := Resolve(graph.Rows());
    status, b' := 0, b;
    QueueSize(graph, queue, b);
    while queue.size > 0
      invariant status == 0
      invariant Holds(graph, queue, b') && |b'.color| == |b'.hops| == |graph.adjlists|
      invariant queue.size == |b'.queue|
      invariant Theory.Inv(g, s, b')
      invariant forall i :: 0 <= i < |queue.spine| ==> queue.spine[i] in old(queue.spine) || fresh(queue.spine[i])
      decreases Unfinished(b')
    {
      status, b' := Round(graph, queue, s, b');
      QueueSize(graph, queue, b');
    }
  }

  ghost function Unfinished(b: Theory.Search): set<nat> {
    set v: nat | v < |b.color| && b.color[v] != Black
  }

  lemma FinishedLess(g: Digraph, s: nat, b: Theory.Search, b': Theory.Search)
    requires Theory.Inv(g, s, b) && Theory.Inv(g, s, b')
    requires |b'.color| == |b.color| && forall v :: 0 <= v < |b.color| ==>
      (b'.color[v] == Black <==> b.color[v] == Black)
    requires b'.queue != []
    ensures Unfinished(Theory.Finish(b')) < Unfinished(b)
  {
    var u := b'.queue[0];
    assert b'.color[u] == Gray;
    assert u in Unfinished(b) && u !in Unfinished(Theory.Finish(b'));
  }

  lemma QueueSize(graph: Graph, queue: List<AdjList>, b: Theory.Search)
    requires Holds(graph, queue, b)
    ensures queue.size == |b.queue|
  {
  }

  lemma Started(graph: Graph, start: Key, s: nat)
    requires graph.Valid() && s == IndexOf(graph.Rows(), start) < |graph.adjlists|
    requires forall i :: 0 <= i < |graph.adjlists| ==>
      var v := graph.adjlists[i].vertex;
      if v.data == start then v.color == Gray && v.hops == 0 else v.color == White && v.hops == -1
    ensures var b := Theory.Start(|graph.adjlists|, s); Mirrors(graph, b.color, b.hops)
  {
    forall i | 0 <= i < |graph.adjlists| ensures graph.adjlists[i].vertex.data == start <==> i == s {
      assert i != s ==> graph.Rows()[i].name != graph.Rows()[s].name;
    }
  }

  /**
   The search. It is refused when no stored vertex matches the start. Otherwise every stored vertex
   holds the length of a shortest path from the start vertex, or -1 when there is no path, and the
   list holds exactly the reachable vertices, in the order of the graph's own list: those at the positions `at`.
   */
  method Bfs(graph: Graph, start: Vertex) returns (status: int, hops: Option<List<Vertex>>, ghost at: seq<nat>)
    requires graph.Valid()
    modifies graph.Vertices()
    ensures status == if exists i :: 0 <= i < |graph.adjlists| && graph.adjlists[i].vertex.data == start.data
      then 0 else -1
    ensures status != 0 ==> hops == None
    ensures status == 0 ==>
      |Resolve(graph.Rows())| == |graph.adjlists| && IndexOf(graph.Rows(), start.data) < |graph.adjlists|
    ensures status == 0 ==>
      var g, s := Resolve(graph.Rows()), IndexOf(graph.Rows(), start.data);
      && graph.adjlists[s].vertex.data == start.data
      && forall v :: 0 <= v < |graph.adjlists| ==>
           var vertex := graph.adjlists[v].vertex;
           if Reaches(g, s, v) then vertex.color == Black && vertex.hops >= 0 && Distance(g, s, v, vertex.hops)
           else vertex.color == White && vertex.hops == -1
    ensures status == 0 ==>
      var g, s := Resolve(graph.Rows()), IndexOf(graph.Rows(), start.data);
      && hops.Some? && fresh(hops.value) && hops.value.Valid() && |at| == |hops.value.Contents()|
      && (forall i, j :: 0 <= i < j < |at| ==> at[i] < at[j])
      && (forall i :: 0 <= i < |at| ==>
            at[i] < |graph.adjlists| && hops.value.Contents()[i] == graph.adjlists[at[i]].vertex)
      && (forall v: nat :: v < |graph.adjlists| ==> (v in at <==> Reaches(g, s, v)))
  {
    hide Holds, Mirrors, Resolve, EdgeCount, WellFormedRows, WellFormed, Theory.Inv, Reaches, Distance, IndexOf;
    ResolvedGraph(graph);
    at := [];
    var queue;
    ghost var b;
    status, queue, b := Prepare(graph, start.data);
    if status != 0 {
      return -1, None, [];
    }
    ghost var g, s := Resolve(graph.Rows()), IndexOf(graph.Rows(), start.data);
    status, b := Search(graph, queue, s, b);
    Theory.EmptyQueueShortest(g, s, b);
    Searched(graph, queue, b);
    var list;
    list, at := Collect(graph, b.color, b.hops);
    Theory.EmptyQueueColors(g, s, b);
    hops := Some(list);
  }

  /** The first loop, as the search sees it. */
  method Paint(graph: Graph, start: Key) returns (ghost b: Theory.Search)
    requires graph.Valid()
    modifies graph.Vertices()
    ensures var s := IndexOf(graph.Rows(), start);
      s < |graph.adjlists| ==>
        && b.queue == [s] && |b.color| == |b.hops| == |graph.adjlists| && Mirrors(graph, b.color, b.hops)
        && Theory.Inv(Resolve(graph.Rows()), s, b)
  {
    hide Mirrors, Resolve, EdgeCount, WellFormedRows, WellFormed, IndexOf, Theory.Inv;
    Initialize(graph, start);
    ghost var s := IndexOf(graph.Rows(), start);
    b := Theory.Search([], [], []);
    if s < |graph.adjlists| {
      b := Theory.Start(|graph.adjlists|, s);
      ResolvedGraph(graph);
      Theory.StartInv(Resolve(graph.Rows()), s);
      Started(graph, start, s);
    }
  }

  /** The queue with the list of the start vertex. */
  method FirstQueue(graph: Graph, start: Key) returns (status: int, queue: List<AdjList>)
    requires graph.Valid()
    ensures status == if exists i :: 0 <= i < |graph.adjlists| && graph.adjlists[i].vertex.data == start
      then 0 else -1
    ensures status == 0 ==> IndexOf(graph.Rows(), start) < |graph.adjlists|
    ensures fresh(queue) && queue.Valid() && forall i :: 0 <= i < |queue.spine| ==> fresh(queue.spine[i])
    ensures status == 0 ==> Queues(graph, queue, [IndexOf(graph.Rows(), start)])
  {
    hide EdgeCount, WellFormedRows, IndexOf;
    queue := new List();
    var clr;
    status, clr := graph.GetAdjList(start);
    if status == 0 {
      Enqueue(queue, clr.value);
    }
  }

  lemma Begun(graph: Graph, queue: List<AdjList>, b: Theory.Search)
    requires queue.Valid() && Mirrors(graph, b.color, b.hops) && Queues(graph, queue, b.queue)
    ensures Holds(graph, queue, b)
  {
  }

  /** What comes before the search loop. */
  method Prepare(graph: Graph, start: Key) returns (status: int, queue: List<AdjList>, ghost b: Theory.Search)
    requires graph.Valid()
    modifies graph.Vertices()
    ensures status == if exists i :: 0 <= i < |graph.adjlists| && graph.adjlists[i].vertex.data == start
      then 0 else -1
    ensures status == 0 ==> IndexOf(graph.Rows(), start) < |graph.adjlists|
    ensures fresh(queue) && forall i :: 0 <= i < |queue.spine| ==> fresh(queue.spine[i])
    ensures status == 0 ==>
      && Holds(graph, queue, b) && |b.color| == |b.hops| == |graph.adjlists|
      && Theory.Inv(Resolve(graph.Rows()), IndexOf(graph.Rows(), start), b)
  {
    hide Mirrors, Queues, Holds, Resolve, EdgeCount, WellFormedRows, IndexOf, Theory.Inv;
    b := Paint(graph, start);
    status, queue := FirstQueue(graph, start);
    if status == 0 {
      Begun(graph, queue, b);
    }
  }

  lemma Searched(graph: Graph, queue: List<AdjList>, b: Theory.Search)
    requires Holds(graph, queue, b)
    ensures Mirrors(graph, b.color, b.hops) && |b.color| == |b.hops| == |graph.adjlists|
    ensures forall i :: 0 <= i < |graph.adjlists| ==>
      graph.adjlists[i].vertex.hops == b.hops[i] && graph.adjlists[i].vertex.color == b.color[i]
  {
  }
}
