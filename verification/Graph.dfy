/** The graph of algolib/source/graph.c: adjacency lists that its calls change in place. */
module Graph {
  import opened Digraph
  import opened GraphRows
  import opened LinkedList
  import opened Wrappers

  /** A caller's vertex record. Only `data` takes part in matching; the traversals use the rest. */
  class Vertex {
    const data: Key
    var color: Color
    var hops: int

    constructor (data: Key)
      ensures this.data == data
    {
      this.data := data;
      color, hops := White, -1;
    }
  }

  class AdjList {
    const vertex: Vertex
    var adjacent: seq<Vertex>

    constructor (vertex: Vertex)
      ensures this.vertex == vertex && adjacent == []
    {
      this.vertex := vertex;
      adjacent := [];
    }

    ghost function ToRow(): (row: Row)
      reads this
      ensures row.name == vertex.data && |row.targets| == |adjacent|
      ensures forall e :: 0 <= e < |adjacent| ==> row.targets[e] == adjacent[e].data
    {
      Row(vertex.data, seq(|adjacent|, e requires 0 <= e < |adjacent| reads this => adjacent[e].data))
    }

    /** Position of the first member that matches, or the number of members. */
    method Find(k: Key) returns (e: nat)
      ensures e <= |adjacent|
      ensures e < |adjacent| ==> adjacent[e].data == k
      ensures forall d :: 0 <= d < e ==> adjacent[d].data != k
      ensures e < |adjacent| <==> k in ToRow().targets
    {
      e := 0;
      while e < |adjacent|
        invariant e <= |adjacent|
        invariant forall d :: 0 <= d < e ==> adjacent[d].data != k
      {
        if k == adjacent[e].data {
          assert ToRow().targets[e] == k;
          return;
        }
        e := e + 1;
      }
    }
  }

  class Graph {
    var vcount: int
    var ecount: int
    var adjlists: seq<AdjList>

    static ghost function RowsOf(lists: seq<AdjList>): (rows: seq<Row>)
      reads lists
      ensures |rows| == |lists|
      ensures forall i :: 0 <= i < |rows| ==> rows[i] == lists[i].ToRow()
    {
      seq(|lists|, i requires 0 <= i < |lists| reads lists => lists[i].ToRow())
    }

    ghost function Rows(): (rows: seq<Row>)
      reads `adjlists, adjlists
      ensures |rows| == |adjlists|
      ensures forall i :: 0 <= i < |rows| ==> rows[i] == adjlists[i].ToRow()
    {
      RowsOf(adjlists)
    }

    /** The stored vertex records. */
    ghost function Vertices(): set<Vertex>
      reads `adjlists
    {
      set i | 0 <= i < |adjlists| :: adjlists[i].vertex
    }

    /** The counters count, no two vertices match, and every edge leads to a stored vertex. */
    ghost predicate Valid()
      reads this, adjlists
    {
      vcount == |adjlists| && ecount == EdgeCount(Rows()) && WellFormedRows(Rows())
    }

    constructor ()
      ensures Valid() && Rows() == [] && vcount == ecount == 0
    {
      vcount, ecount, adjlists := 0, 0, [];
    }

    /** The walk with which most calls start. */
    method Locate(k: Key) returns (i: nat)
      ensures i == IndexOf(Rows(), k)
      ensures i < |adjlists| ==> adjlists[i].vertex.data == k
      ensures forall j :: 0 <= j < i ==> adjlists[j].vertex.data != k
    {
      i := 0;
      ghost var rows := Rows();
      while i < |adjlists|
        invariant i <= |adjlists|
        invariant forall j :: 0 <= j < i ==> rows[j].name != k
      {
        if k == adjlists[i].vertex.data {
          return;
        }
        i := i + 1;
      }
    }

    lemma StillValid(rows: seq<Row>, call: Call)
      requires WellFormedRows(rows) && Perform(rows, call) == Outcome(0, Rows())
      requires vcount == |rows| + if call.InsVertex? then 1 else if call.RemVertex? then -1 else 0
      requires ecount == EdgeCount(rows) + if call.InsEdge? then 1 else if call.RemEdge? then -1 else 0
      ensures Valid()
    {
      CallKeeps(rows, call);
    }

    method InsVertex(v: Vertex) returns (status: int)
      requires Valid()
      modifies this
      ensures Valid()
      ensures Outcome(status, Rows()) == Perform(old(Rows()), Call.InsVertex(v.data))
      ensures status == if exists i :: 0 <= i < |old(adjlists)| && old(adjlists)[i].vertex.data == v.data then 1 else 0
      ensures status != 0 ==> unchanged(this)
      ensures status == 0 ==> |adjlists| > 0 && adjlists[..|adjlists| - 1] == old(adjlists)
      ensures status == 0 ==>
        var added := adjlists[|adjlists| - 1]; fresh(added) && added.vertex == v && added.adjacent == []
      ensures status == 0 ==> vcount == old(vcount) + 1 && ecount == old(ecount)
    {
      hide IndexOf, EdgeCount, WellFormedRows, Without;
      ghost var rows := Rows();
      var i := Locate(v.data);
      if i < |adjlists| {
        return 1;
      }
      var adjlist := new AdjList(v);
      adjlists := adjlists + [adjlist];
      vcount := vcount + 1;
      assert adjlist.ToRow() == Row(v.data, []);
      assert Rows() == rows + [Row(v.data, [])];
      StillValid(rows, Call.InsVertex(v.data));
      status := 0;
    }

    method InsEdge(v1: Vertex, v2: Vertex) returns (status: int)
      requires Valid()
      modifies this, adjlists
      ensures Valid() && adjlists == old(adjlists)
      ensures Outcome(status, Rows()) == Perform(old(Rows()), Call.InsEdge(v1.data, v2.data))
      ensures status == 0 ==>
        var i := IndexOf(old(Rows()), v1.data);
        && i < |old(adjlists)| && adjlists[i].vertex.data == v1.data
        && adjlists[i].adjacent == old(adjlists[i].adjacent) + [v2]
        && forall j :: 0 <= j < |adjlists| && j != i ==> unchanged(adjlists[j])
      ensures status == 0 ==> vcount == old(vcount) && ecount == old(ecount) + 1
      ensures status != 0 ==> unchanged(this) && forall i :: 0 <= i < |adjlists| ==> unchanged(adjlists[i])
    {
      hide IndexOf, EdgeCount, WellFormedRows, Perform;
      ghost var rows := Rows();
      InsEdgeCases(rows, v1.data, v2.data);
      var j := Locate(v2.data);
      if j == |adjlists| {
        return -1;
      }
      var i := Locate(v1.data);
      if i == |adjlists| {
        return -1;
      }
      var e := adjlists[i].Find(v2.data);
      if e < |adjlists[i].adjacent| {
        return 1;
      }
      ghost var targets := rows[i].targets + [v2.data];
      SetAdjacent(i, adjlists[i].adjacent + [v2], targets);
      ecount := ecount + 1;
      StillValid(rows, Call.InsEdge(v1.data, v2.data));
      status := 0;
    }

    /** The lists are different objects, since their vertices do not match. */
    lemma ListsDistinct()
      requires Valid()
      ensures forall i, j :: 0 <= i < j < |adjlists| ==> adjlists[i] != adjlists[j]
    {
      forall i, j | 0 <= i < j < |adjlists| ensures adjlists[i] != adjlists[j] {
        assert Rows()[i].name != Rows()[j].name;
      }
    }

    /** Gives the list at position i a new adjacent set, with the keys `targets`. */
    method SetAdjacent(i: nat, adjacent: seq<Vertex>, ghost targets: seq<Key>)
      requires Valid() && i < |adjlists|
      requires |targets| == |adjacent| && forall e :: 0 <= e < |targets| ==> targets[e] == adjacent[e].data
      modifies adjlists[i]
      ensures Rows() == old(Rows())[i := Row(old(Rows())[i].name, targets)]
      ensures adjlists[i].adjacent == adjacent
      ensures forall j :: 0 <= j < |adjlists| && j != i ==> unchanged(adjlists[j])
    {
      ghost var rows := Rows();
      ListsDistinct();
      adjlists[i].adjacent := adjacent;
      assert adjlists[i].ToRow().targets == targets;
      assert Rows() == rows[i := Row(rows[i].name, targets)];
    }

    /** Takes the e-th member, the first that matches, out of the adjacent set at position i. */
    method DropAdjacent(i: nat, e: nat, ghost k: Key)
      requires Valid() && i < |adjlists| && e < |adjlists[i].adjacent| && adjlists[i].adjacent[e].data == k
      requires forall d :: 0 <= d < e ==> adjlists[i].adjacent[d].data != k
      modifies adjlists[i]
      ensures Rows() == old(Rows())[i := Row(old(Rows())[i].name, Without(old(Rows())[i].targets, k))]
      ensures adjlists[i].adjacent == old(adjlists[i].adjacent)[..e] + old(adjlists[i].adjacent)[e + 1..]
      ensures forall j :: 0 <= j < |adjlists| && j != i ==> unchanged(adjlists[j])
    {
      hide EdgeCount, WellFormedRows, Without;
      ghost var targets := Rows()[i].targets;
      WithoutAt(targets, k, e);
      SetAdjacent(i, adjlists[i].adjacent[..e] + adjlists[i].adjacent[e + 1..], targets[..e] + targets[e + 1..]);
    }

    method RemEdge(k1: Key, k2: Key) returns (status: int, removed: Option<Vertex>)
      requires Valid()
      modifies this, adjlists
      ensures Valid() && adjlists == old(adjlists)
      ensures Outcome(status, Rows()) == Perform(old(Rows()), Call.RemEdge(k1, k2))
      ensures status == 0 ==>
        var i := IndexOf(old(Rows()), k1);
        && removed.Some? && removed.value.data == k2 && i < |old(adjlists)|
        && (exists e :: 0 <= e < |old(adjlists[i].adjacent)| && old(adjlists[i].adjacent)[e] == removed.value
              && adjlists[i].adjacent == old(adjlists[i].adjacent)[..e] + old(adjlists[i].adjacent)[e + 1..])
        && forall j :: 0 <= j < |adjlists| && j != i ==> unchanged(adjlists[j])
      ensures status == 0 ==> vcount == old(vcount) && ecount == old(ecount) - 1
      ensures status != 0 ==> removed == None && unchanged(this)
      ensures status != 0 ==> forall i :: 0 <= i < |adjlists| ==> unchanged(adjlists[i])
    {
      hide IndexOf, EdgeCount, WellFormedRows, Without, Perform;
      ghost var rows := Rows();
      RemEdgeCases(rows, k1, k2);
      var i := Locate(k1);
      if i == |adjlists| {
        return -1, None;
      }
      var e := adjlists[i].Find(k2);
      if e == |adjlists[i].adjacent| {
        return -1, None;
      }
      removed := Some(adjlists[i].adjacent[e]);
      DropAdjacent(i, e, k2);
      ecount := ecount - 1;
      StillValid(rows, Call.RemEdge(k1, k2));
      status := 0;
    }

    lemma Unmatched(i: nat)
      requires Valid() && i < |adjlists|
      ensures IndexOf(Rows(), Rows()[i].name) == i
    {
      IndexUnique(Rows(), i);
    }

    method RemVertex(k: Key) returns (status: int, removed: Option<Vertex>)
      requires Valid()
      modifies this
      ensures Valid()
      ensures Outcome(status, Rows()) == Perform(old(Rows()), Call.RemVertex(k))
      ensures status == 0 ==>
        var i := IndexOf(old(Rows()), k);
        && removed.Some? && removed.value.data == k && i < |old(adjlists)|
        && removed.value == old(adjlists)[i].vertex && adjlists == old(adjlists)[..i] + old(adjlists)[i + 1..]
      ensures status == 0 ==> vcount == old(vcount) - 1 && ecount == old(ecount)
      ensures status != 0 ==> removed == None && unchanged(this)
    {
      hide IndexOf, EdgeCount, WellFormedRows, Without;
      ghost var rows := Rows();
      var removable, temp := FindIsolated(k);
      if !removable {
        return -1, None;
      }
      removed := Some(adjlists[temp].vertex);
      adjlists := adjlists[..temp] + adjlists[temp + 1..];
      vcount := vcount - 1;
      assert Rows() == rows[..temp] + rows[temp + 1..];
      StillValid(rows, Call.RemVertex(k));
      status := 0;
    }

    /** The checks of the vertex removal: one walk that stops at an edge to the vertex. */
    method FindIsolated(k: Key) returns (removable: bool, temp: nat)
      requires Valid()
      ensures removable <==> RemVertexOf(Rows(), k).status == 0
      ensures removable ==> temp == IndexOf(Rows(), k) < |adjlists|
    {
      hide IndexOf, EdgeCount, WellFormedRows;
      ghost var rows := Rows();
      var element: nat, found := 0, false;
      temp := 0;
      while element < |adjlists|
        invariant element <= |adjlists|
        invariant forall i :: 0 <= i < element ==> k !in rows[i].targets
        invariant found ==> temp < element && rows[temp].name == k
        invariant !found ==> forall i :: 0 <= i < element ==> rows[i].name != k
      {
        var e := adjlists[element].Find(k);
        if e < |adjlists[element].adjacent| {
          return false, temp;
        }
        if k == adjlists[element].vertex.data {
          temp, found := element, true;
        }
        element := element + 1;
      }
      if !found {
        return false, temp;
      }
      Unmatched(temp);
      removable := |adjlists[temp].adjacent| == 0;
    }

    method GetAdjList(k: Key) returns (status: int, adjlist: Option<AdjList>)
      requires Valid()
      ensures status == if exists i :: 0 <= i < |adjlists| && adjlists[i].vertex.data == k then 0 else -1
      ensures status == 0 <==> Named(Rows(), k)
      ensures status == 0 ==> adjlist == Some(adjlists[IndexOf(Rows(), k)]) && adjlist.value.vertex.data == k
      ensures status != 0 ==> adjlist == None
    {
      var i := Locate(k);
      if i == |adjlists| {
        return -1, None;
      }
      return 0, Some(adjlists[i]);
    }

    method IsAdjacent(k1: Key, k2: Key) returns (adjacent: bool)
      requires Valid()
      ensures adjacent <==> Joined(Rows(), k1, k2)
    {
      hide IndexOf;
      JoinedAt(Rows(), k1, k2);
      var i := Locate(k1);
      if i == |adjlists| {
        return false;
      }
      var e := adjlists[i].Find(k2);
      adjacent := e < |adjlists[i].adjacent|;
    }
  }

  // ----- what the traversals rely on

  lemma RecordsDistinct(graph: Graph)
    requires graph.Valid()
    ensures forall i, j :: 0 <= i < j < |graph.adjlists| ==> graph.adjlists[i].vertex != graph.adjlists[j].vertex
  {
    forall i, j | 0 <= i < j < |graph.adjlists| ensures graph.adjlists[i].vertex != graph.adjlists[j].vertex {
      assert graph.Rows()[i].name != graph.Rows()[j].name;
    }
  }

  lemma ResolvedGraph(graph: Graph)
    requires graph.Valid()
    ensures WellFormed(Resolve(graph.Rows())) && |Resolve(graph.Rows())| == |graph.adjlists|
    ensures forall i :: 0 <= i < |graph.adjlists| ==> |Resolve(graph.Rows())[i]| == |graph.adjlists[i].adjacent|
  {
    ResolvedWellFormed(graph.Rows());
    assert forall i :: 0 <= i < |graph.adjlists| ==> |graph.Rows()[i].targets| == |graph.adjlists[i].adjacent|;
  }

  /** The lookup of an edge target never fails. */
  method Target(graph: Graph, adjlist: AdjList, member: nat, ghost u: nat) returns (status: int, target: AdjList)
    requires graph.Valid() && u < |graph.adjlists| && adjlist == graph.adjlists[u] && member < |adjlist.adjacent|
    ensures var g := Resolve(graph.Rows());
      u < |g| && member < |g[u]| && g[u][member] < |graph.adjlists| &&
      status == 0 && target == graph.adjlists[g[u][member]]
  {
    ResolvedWellFormed(graph.Rows());
    var found;
    status, found := graph.GetAdjList(adjlist.adjacent[member].data);
    assert graph.Rows()[u].targets[member] == adjlist.adjacent[member].data;
    target := found.value;
  }
}
