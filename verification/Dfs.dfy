/** Depth-first search of algolib/source/dfs.c: all vertices in reverse finishing order. */
module Dfs {
  import opened Digraph
  import opened GraphRows
  import opened Graph
  import opened LinkedList
  import Theory = DfsTheory
  import Order = DfsOrder

  /** Vertex records and list hold what the ghost state says. */
  ghost predicate Holds(graph: Graph, ordered: List<Vertex>, color: seq<Color>, ord: seq<nat>)
    reads graph, graph.adjlists, graph.Vertices(), ordered, ordered.spine
  {
    && ordered.Valid()
    && |color| == |graph.adjlists|
    && (forall i :: 0 <= i < |graph.adjlists| ==> graph.adjlists[i].vertex.color == color[i])
    && |ordered.Contents()| == |ord|
    && (forall t :: 0 <= t < |ord| ==>
          ord[t] < |graph.adjlists| && ordered.Contents()[t] == graph.adjlists[ord[t]].vertex)
  }

  lemma RecordAt(graph: Graph, ordered: List<Vertex>, color: seq<Color>, ord: seq<nat>, i: nat)
    requires Holds(graph, ordered, color, ord)
    ensures |color| == |graph.adjlists|
    ensures i < |graph.adjlists| ==> graph.adjlists[i].vertex.color == color[i]
  {
  }

  method Paint(graph: Graph, vertex: Vertex, c: Color, ordered: List<Vertex>,
               ghost i: nat, ghost color: seq<Color>, ghost ord: seq<nat>)
    requires graph.Valid() && Holds(graph, ordered, color, ord)
    requires i < |graph.adjlists| && graph.adjlists[i].vertex == vertex
    modifies vertex
    ensures Holds(graph, ordered, color[i := c], ord)
  {
    RecordsDistinct(graph);
    vertex.color := c;
  }

  method Prepend(graph: Graph, vertex: Vertex, ordered: List<Vertex>,
                 ghost i: nat, ghost color: seq<Color>, ghost ord: seq<nat>)
    requires Holds(graph, ordered, color, ord)
    requires i < |graph.adjlists| && graph.adjlists[i].vertex == vertex
    modifies ordered
    ensures Holds(graph, ordered, color, [i] + ord)
  {
    ghost var k := ordered.InsNext(null, vertex);
    assert ordered.Contents() == [vertex] + old(ordered.Contents());
  }

  ghost function Whites(color: seq<Color>): set<nat> {
    set v: nat | v < |color| && color[v] == White
  }

  /** What a completed call does to the colours: it finishes vertices but leaves none started. */
  ghost predicate Progress(color: seq<Color>, color': seq<Color>) {
    && |color'| == |color|
    && (forall v :: 0 <= v < |color| ==> (color[v] == Gray <==> color'[v] == Gray))
    && (forall v :: 0 <= v < |color| && color[v] == Black ==> color'[v] == Black)
  }

  lemma ProgressFacts(g: Digraph, start: seq<Color>, x: nat, color: seq<Color>)
    requires |start| == |g| && x < |g| && start[x] == White && Progress(start[x := Gray], color)
    ensures |color| == |g| && color[x] == Gray && Whites(color) < Whites(start)
    ensures Progress(start, color[x := Black])
  {
    assert x in Whites(start) && x !in Whites(color);
    forall v | v in Whites(color) ensures v in Whites(start) {
      assert start[x := Gray][v] == White;
    }
  }

  lemma ProgressNext(g: Digraph, a: seq<Color>, b: seq<Color>, c: seq<Color>, x: nat, m: nat)
    requires |a| == |g| && Progress(a, b) && Progress(b, c)
    ensures Progress(a, c)
    ensures Theory.Explored(g, b, x, m) ==> Theory.Explored(g, c, x, m)
  {
    forall v | 0 <= v < |g| && b[v] != White ensures c[v] != White {
    }
  }

  lemma StackKept(g: Digraph, a: seq<Color>, b: seq<Color>, x: nat)
    requires |a| == |g| && Progress(a, b) && Theory.Stack(g, a, x)
    ensures Theory.Stack(g, b, x)
  {
  }

  lemma StackPushed(g: Digraph, color: seq<Color>, x: nat, m: nat)
    requires WellFormed(g) && |color| == |g| && x < |g| && m < |g[x]| && Theory.Stack(g, color, x)
    ensures Theory.Stack(g, color, g[x][m])
  {
    var v := g[x][m];
    assert Edge(g, x, v);
    forall y: nat | y < |g| && color[y] == Gray ensures Reaches(g, y, v) {
      ReachesNext(g, y, x, v);
    }
  }

  /** The vertex turns gray. */
  method Open(graph: Graph, adjlist: AdjList, ordered: List<Vertex>, ghost x: nat, ghost color: seq<Color>,
              ghost ord: seq<nat>)
    requires graph.Valid() && Holds(graph, ordered, color, ord) && |color| == |graph.adjlists|
    requires x < |graph.adjlists| && adjlist == graph.adjlists[x] && color[x] == White
    requires |Resolve(graph.Rows())| == |graph.adjlists|
    requires Theory.Inv(Resolve(graph.Rows()), color, ord) && Theory.Stack(Resolve(graph.Rows()), color, x)
    modifies graph.Vertices()
    ensures Holds(graph, ordered, color[x := Gray], ord)
    ensures Theory.Inv(Resolve(graph.Rows()), color[x := Gray], ord)
    ensures Theory.Stack(Resolve(graph.Rows()), color[x := Gray], x)
  {
    hide Holds, Resolve, EdgeCount, WellFormedRows, Theory.Inv, Theory.Stack;
    assert adjlist.vertex in graph.Vertices();
    Theory.DiscoverInv(Resolve(graph.Rows()), color, ord, x);
    Paint(graph, adjlist.vertex, Gray, ordered, x, color, ord);
  }

  /** The vertex turns black and goes to the front of the list. */
  method Close(graph: Graph, adjlist: AdjList, ordered: List<Vertex>, ghost x: nat, ghost color: seq<Color>,
               ghost ord: seq<nat>)
    requires graph.Valid() && Holds(graph, ordered, color, ord) && |color| == |graph.adjlists|
    requires x < |graph.adjlists| && adjlist == graph.adjlists[x] && color[x] == Gray
    requires |Resolve(graph.Rows())| == |graph.adjlists| && |Resolve(graph.Rows())[x]| == |adjlist.adjacent|
    requires Theory.Inv(Resolve(graph.Rows()), color, ord) && Theory.Stack(Resolve(graph.Rows()), color, x)
    requires Theory.Explored(Resolve(graph.Rows()), color, x, |adjlist.adjacent|)
    modifies graph.Vertices(), ordered
    ensures Holds(graph, ordered, color[x := Black], [x] + ord)
    ensures Theory.Inv(Resolve(graph.Rows()), color[x := Black], [x] + ord)
  {
    hide Holds, Resolve, EdgeCount, WellFormedRows, Theory.Inv, Theory.Stack, Theory.Explored;
    assert adjlist.vertex in graph.Vertices();
    Theory.FinishInv(Resolve(graph.Rows()), color, ord, x);
    Paint(graph, adjlist.vertex, Black, ordered, x, color, ord);
    Prepend(graph, adjlist.vertex, ordered, x, color[x := Black], ord);
  }

  /** The vertices that have been met. */
  ghost function Met(color: seq<Color>): set<nat> {
    set v: nat | v < |color| && color[v] != White
  }

  /** What a search from `starts` does: it puts what it lists in front, and that is what it meets. */
  ghost predicate Searches(g: Digraph, starts: seq<nat>, color: seq<Color>, ord: seq<nat>, color': seq<Color>,
                           ord': seq<nat>)
  {
    var listed := Order.Listed(g, Met(color), starts);
    ord' == listed + ord && Met(color') == Met(color) + Order.Elements(listed)
  }

  lemma SearchesNothing(g: Digraph, color: seq<Color>, ord: seq<nat>)
    ensures Searches(g, [], color, ord, color, ord)
  {
    Order.ListedNothing(g, Met(color));
    Order.NoElements();
    assert [] + ord == ord && Met(color) + {} == Met(color);
  }

  lemma SearchesMore(g: Digraph, starts: seq<nat>, x: nat, color: seq<Color>, ord: seq<nat>, color1: seq<Color>,
                     ord1: seq<nat>, color2: seq<Color>, ord2: seq<nat>)
    requires Searches(g, starts, color, ord, color1, ord1) && Searches(g, [x], color1, ord1, color2, ord2)
    ensures Searches(g, starts + [x], color, ord, color2, ord2)
  {
    hide Met, Order.Listed;
    Order.ListedMore(g, Met(color), starts, [x]);
    var early := Order.Listed(g, Met(color), starts);
    var late := Order.Listed(g, Met(color) + Order.Elements(early), [x]);
    Order.ElementsJoin(late, early);
    assert late + (early + ord) == (late + early) + ord;
    assert Met(color) + Order.Elements(late + early) == (Met(color) + Order.Elements(early)) + Order.Elements(late);
  }

  lemma SearchesEdge(g: Digraph, x: nat, m: nat, color: seq<Color>, ord: seq<nat>, color1: seq<Color>, ord1: seq<nat>,
                     color2: seq<Color>, ord2: seq<nat>)
    requires x < |g| && m < |g[x]| && Searches(g, g[x][..m], color, ord, color1, ord1)
    requires Searches(g, [g[x][m]], color1, ord1, color2, ord2)
    ensures Searches(g, g[x][..m + 1], color, ord, color2, ord2)
  {
    hide Searches;
    SearchesMore(g, g[x][..m], g[x][m], color, ord, color1, ord1, color2, ord2);
    assert g[x][..m + 1] == g[x][..m] + [g[x][m]];
  }

  lemma NoEdges(s: seq<nat>)
    ensures s[..0] == [] && s[..|s|] == s
  {
  }

  lemma SearchesMet(g: Digraph, x: nat, color: seq<Color>, ord: seq<nat>)
    requires x < |color| && color[x] != White
    ensures Searches(g, [x], color, ord, color, ord)
  {
    Order.ListedRoot(g, Met(color), x);
    Order.NoElements();
    assert [] + ord == ord && Met(color) + {} == Met(color);
  }

  /** A vertex that turns gray, is searched from and turns black. */
  lemma SearchesRoot(g: Digraph, x: nat, color: seq<Color>, ord: seq<nat>, color': seq<Color>, ord': seq<nat>)
    requires x < |g| == |color| && color[x] == White && x < |color'| && color'[x] == Gray
    requires Searches(g, g[x], color[x := Gray], ord, color', ord')
    ensures Searches(g, [x], color, ord, color'[x := Black], [x] + ord')
  {
    hide Order.Listed;
    MetOneMore(color, x);
    MetStill(color', x);
    Order.ListedRoot(g, Met(color), x);
    var found := Order.Listed(g, Met(color) + {x}, g[x]);
    Order.ElementsJoin([x], found);
    Order.OneElement(x);
    assert [x] + (found + ord) == ([x] + found) + ord;
  }

  lemma MetOneMore(color: seq<Color>, x: nat)
    requires x < |color|
    ensures Met(color[x := Gray]) == Met(color) + {x}
    ensures x in Met(color) <==> color[x] != White
  {
  }

  lemma MetStill(color: seq<Color>, x: nat)
    requires x < |color| && color[x] != White
    ensures Met(color[x := Black]) == Met(color)
  {
  }

  method DfsMain(graph: Graph, adjlist: AdjList, ordered: List<Vertex>,
                 ghost x: nat, ghost color: seq<Color>, ghost ord: seq<nat>)
    returns (status: int, ghost color': seq<Color>, ghost ord': seq<nat>)
    requires graph.Valid() && Holds(graph, ordered, color, ord) && |color| == |graph.adjlists|
    requires x < |graph.adjlists| && adjlist == graph.adjlists[x] && color[x] == White
    requires |Resolve(graph.Rows())| == |graph.adjlists|
    requires Theory.Inv(Resolve(graph.Rows()), color, ord) && Theory.Stack(Resolve(graph.Rows()), color, x)
    modifies graph.Vertices(), ordered
    ensures status == 0 && Holds(graph, ordered, color', ord') && |color'| == |graph.adjlists|
    ensures Theory.Inv(Resolve(graph.Rows()), color', ord')
    ensures Progress(color, color') && color'[x] == Black
    ensures Searches(Resolve(graph.Rows()), [x], color, ord, color', ord')
    decreases Whites(color), 0
  {
    hide Holds, Resolve, EdgeCount, WellFormedRows, WellFormed, Theory.Inv, Theory.Stack, Theory.Explored, Whites,
         Progress, Searches;
    ghost var g := Resolve(graph.Rows());
    ResolvedGraph(graph);
    status, color', ord' := 0, color[x := Gray], ord;
    Open(graph, adjlist, ordered, x, color, ord);
    NothingExplored(g, color', x);
    SearchesNothing(g, color', ord);
    NoEdges(g[x]);
    var member := 0;
    while member < |adjlist.adjacent|
      invariant member <= |adjlist.adjacent| && status == 0
      invariant Holds(graph, ordered, color', ord') && |color'| == |graph.adjlists|
      invariant Theory.Inv(g, color', ord') && Theory.Stack(g, color', x) && Theory.Explored(g, color', x, member)
      invariant Progress(color[x := Gray], color')
      invariant Searches(g, g[x][..member], color[x := Gray], ord, color', ord')
    {
      ghost var before, before' := color', ord';
      ProgressFacts(g, color, x, color');
      status, color', ord' := Explore(graph, adjlist, member, ordered, x, color', ord');
      ProgressNext(g, color[x := Gray], before, color', x, member + 1);
      SearchesEdge(g, x, member, color[x := Gray], ord, before, before', color', ord');
      member := member + 1;
    }
    NoEdges(g[x]);
    ProgressFacts(g, color, x, color');
    SearchesRoot(g, x, color, ord, color', ord');
    Close(graph, adjlist, ordered, x, color', ord');
    color', ord' := color'[x := Black], [x] + ord';
  }

  /** One edge out of a vertex that is being explored. */
  method Explore(graph: Graph, adjlist: AdjList, member: nat, ordered: List<Vertex>,
                 ghost x: nat, ghost color: seq<Color>, ghost ord: seq<nat>)
    returns (status: int, ghost color': seq<Color>, ghost ord': seq<nat>)
    requires graph.Valid() && Holds(graph, ordered, color, ord) && |color| == |graph.adjlists|
    requires x < |graph.adjlists| && adjlist == graph.adjlists[x] && member < |adjlist.adjacent|
    requires |Resolve(graph.Rows())| == |graph.adjlists|
    requires Theory.Inv(Resolve(graph.Rows()), color, ord) && Theory.Stack(Resolve(graph.Rows()), color, x)
    requires Theory.Explored(Resolve(graph.Rows()), color, x, member)
    modifies graph.Vertices(), ordered
    ensures status == 0 && Holds(graph, ordered, color', ord') && |color'| == |graph.adjlists|
    ensures Theory.Inv(Resolve(graph.Rows()), color', ord') && Theory.Stack(Resolve(graph.Rows()), color', x)
    ensures Theory.Explored(Resolve(graph.Rows()), color', x, member + 1)
    ensures Progress(color, color')
    ensures Searches(Resolve(graph.Rows()), [Resolve(graph.Rows())[x][member]], color, ord, color', ord')
    decreases Whites(color), 1
  {
    hide Holds, Resolve, EdgeCount, WellFormedRows, WellFormed, Theory.Inv, Theory.Stack, Theory.Explored, Whites,
         Progress, Searches;
    ghost var g := Resolve(graph.Rows());
    ResolvedGraph(graph);
    var clr;
    status, clr := Target(graph, adjlist, member, x);
    color', ord' := color, ord;
    ghost var v := g[x][member];
    RecordAt(graph, ordered, color, ord, v);
    NothingExplored(g, color, x);
    if clr.vertex.color == White {
      StackPushed(g, color, x, member);
      status, color', ord' := DfsMain(graph, clr, ordered, v, color, ord);
      ProgressNext(g, color, color, color', x, member);
      StackKept(g, color, color', x);
    } else {
      SearchesMet(g, v, color, ord);
    }
    ExploredNext(g, color', x, member);
  }

  lemma NothingExplored(g: Digraph, color: seq<Color>, x: nat)
    requires |color| == |g| && x < |g|
    ensures Progress(color, color) && Theory.Explored(g, color, x, 0)
  {
  }

  lemma ExploredNext(g: Digraph, color: seq<Color>, x: nat, m: nat)
    requires |color| == |g| && x < |g| && m < |g[x]| && Theory.Explored(g, color, x, m)
    requires g[x][m] < |g| && color[g[x][m]] != White
    ensures Theory.Explored(g, color, x, m + 1)
  {
  }

  /** The first loop: every vertex white. */
  method Initialize(graph: Graph)
    requires graph.Valid()
    modifies graph.Vertices()
    ensures forall i :: 0 <= i < |graph.adjlists| ==> graph.adjlists[i].vertex.color == White
  {
    var element := 0;
    while element < |graph.adjlists|
      invariant element <= |graph.adjlists|
      invariant forall i :: 0 <= i < element ==> graph.adjlists[i].vertex.color == White
    {
      var vertex := graph.adjlists[element].vertex;
      assert vertex in graph.Vertices();
      vertex.color := White;
      element := element + 1;
    }
  }

  /** What holds between two searches of the main loop: nothing is started, and the vertices of the
      lists before `element` are finished. */
  ghost predicate Between(color: seq<Color>, element: nat) {
    && (forall v :: 0 <= v < |color| ==> color[v] != Gray)
    && (forall v :: 0 <= v < element && v < |color| ==> color[v] == Black)
  }

  lemma BetweenStack(g: Digraph, color: seq<Color>, element: nat, x: nat)
    requires |color| == |g| && Between(color, element)
    ensures Theory.Stack(g, color, x)
  {
  }

  lemma BetweenNext(color: seq<Color>, color': seq<Color>, element: nat)
    requires element < |color| && Between(color, element) && Progress(color, color') && color'[element] == Black
    ensures Between(color', element + 1)
  {
  }

  lemma BetweenSkip(color: seq<Color>, element: nat)
    requires element < |color| && Between(color, element) && color[element] != White
    ensures Between(color, element + 1)
  {
  }

  lemma AllWhite(graph: Graph, ordered: List<Vertex>)
    requires graph.Valid() && ordered.Valid() && ordered.Contents() == []
    requires forall i :: 0 <= i < |graph.adjlists| ==> graph.adjlists[i].vertex.color == White
    ensures var color := seq(|graph.adjlists|, i => White);
      Holds(graph, ordered, color, []) && Between(color, 0)
  {
  }

  /** One round of the main loop: a search from the vertex of a list unless it has been found before. */
  method Restart(graph: Graph, element: nat, ordered: List<Vertex>, ghost color: seq<Color>, ghost ord: seq<nat>)
    returns (status: int, ghost color': seq<Color>, ghost ord': seq<nat>)
    requires graph.Valid() && Holds(graph, ordered, color, ord) && |color| == |graph.adjlists|
    requires element < |graph.adjlists| && Between(color, element)
    requires |Resolve(graph.Rows())| == |graph.adjlists| && Theory.Inv(Resolve(graph.Rows()), color, ord)
    modifies graph.Vertices(), ordered
    ensures status == 0 && Holds(graph, ordered, color', ord') && |color'| == |graph.adjlists|
    ensures Theory.Inv(Resolve(graph.Rows()), color', ord') && Between(color', element + 1)
    ensures Searches(Resolve(graph.Rows()), [element], color, ord, color', ord')
  {
    hide Holds, Resolve, EdgeCount, WellFormedRows, WellFormed, Theory.Inv, Theory.Stack, Between, Progress, Searches;
    RecordAt(graph, ordered, color, ord, element);
    status, color', ord' := 0, color, ord;
    var vertex := graph.adjlists[element].vertex;
    if vertex.color == White {
      BetweenStack(Resolve(graph.Rows()), color, element, element);
      status, color', ord' := DfsMain(graph, graph.adjlists[element], ordered, element, color, ord);
      BetweenNext(color, color', element);
    } else {
      BetweenSkip(color, element);
      SearchesMet(Resolve(graph.Rows()), element, color, ord);
    }
  }

  /**
   The search. It never fails, and whatever cycles the graph has, it lists every vertex exactly once:
   `ord` gives the positions of the listed vertices.
   */
  method Dfs(graph: Graph) returns (status: int, ordered: List<Vertex>, ghost ord: seq<nat>)
    requires graph.Valid()
    modifies graph.Vertices()
    ensures status == 0 && fresh(ordered) && ordered.Valid()
    ensures |ordered.Contents()| == |ord| == |graph.adjlists|
    ensures forall t :: 0 <= t < |ord| ==>
      ord[t] < |graph.adjlists| && ordered.Contents()[t] == graph.adjlists[ord[t]].vertex
    ensures Theory.ReverseFinishingOrder(Resolve(graph.Rows()), ord)
    ensures ord == Order.Listed(Resolve(graph.Rows()), {}, Order.All(|graph.adjlists|))
    ensures forall i :: 0 <= i < |graph.adjlists| ==> graph.adjlists[i].vertex.color == Black
  {
    hide Holds, Resolve, EdgeCount, WellFormedRows, WellFormed, Theory.Inv, Theory.Stack, Between, Progress, Searches,
         Theory.ReverseFinishingOrder, Order.Listed, Order.All;
    ghost var g := Resolve(graph.Rows());
    ResolvedGraph(graph);
    Initialize(graph);
    ordered := new List();
    AllWhite(graph, ordered);
    ghost var color := seq(|graph.adjlists|, i => White);
    ord := [];
    Theory.StartInv(g, color);
    ghost var white := color;
    SearchesNothing(g, white, []);
    AllNext(0);
    status := 0;
    var element := 0;
    while element < |graph.adjlists|
      invariant element <= |graph.adjlists| && status == 0
      invariant Holds(graph, ordered, color, ord) && |color| == |graph.adjlists|
      invariant Theory.Inv(g, color, ord) && Between(color, element)
      invariant Searches(g, Order.All(element), white, [], color, ord)
    {
      ghost var before, before' := color, ord;
      status, color, ord := Restart(graph, element, ordered, color, ord);
      SearchesMore(g, Order.All(element), element, white, [], before, before', color, ord);
      AllNext(element);
      element := element + 1;
    }
    AllSearched(g, white, color, ord);
    Listed(graph, ordered, color, ord, element);
    Theory.AllFinished(g, color, ord);
    AllListed(g, ord);
  }

  lemma AllNext(n: nat)
    ensures Order.All(0) == [] && Order.All(n + 1) == Order.All(n) + [n]
  {
  }

  lemma AllSearched(g: Digraph, white: seq<Color>, color: seq<Color>, ord: seq<nat>)
    requires |white| == |g| && forall v :: 0 <= v < |g| ==> white[v] == White
    requires Searches(g, Order.All(|g|), white, [], color, ord)
    ensures ord == Order.Listed(g, {}, Order.All(|g|))
  {
    hide Order.Listed, Order.All;
    assert Met(white) == {};
  }

  lemma Listed(graph: Graph, ordered: List<Vertex>, color: seq<Color>, ord: seq<nat>, element: nat)
    requires Holds(graph, ordered, color, ord) && Between(color, element) && element == |graph.adjlists|
    ensures ordered.Valid() && |color| == |graph.adjlists| && |ordered.Contents()| == |ord|
    ensures forall v :: 0 <= v < |color| ==> color[v] == Black && graph.adjlists[v].vertex.color == Black
    ensures forall t :: 0 <= t < |ord| ==>
      ord[t] < |graph.adjlists| && ordered.Contents()[t] == graph.adjlists[ord[t]].vertex
  {
  }

  /** A list that holds every position once is as long as there are positions. */
  lemma AllListed(g: Digraph, ord: seq<nat>)
    requires Theory.ReverseFinishingOrder(g, ord)
    ensures |ord| == |g|
  {
    var positions := Order.All(|g|);
    DistinctSize(positions);
    DistinctSize(ord);
    forall v | v in Order.Elements(positions) ensures v in Order.Elements(ord) {
      assert v in ord;
    }
    forall v | v in Order.Elements(ord) ensures v in Order.Elements(positions) {
      assert positions[v] == v;
    }
    assert Order.Elements(ord) == Order.Elements(positions);
  }

  lemma {:induction false} DistinctSize(s: seq<nat>)
    requires forall i, j :: 0 <= i < j < |s| ==> s[i] != s[j]
    ensures |Order.Elements(s)| == |s|
  {
    if s != [] {
      var last := |s| - 1;
      DistinctSize(s[..last]);
      assert Order.Elements(s) == Order.Elements(s[..last]) + {s[last]};
    }
  }
}
