/** The singly linked list of algolib/source/list.c. cserver/list.c has the same two operations. */
module LinkedList {
  import opened Wrappers

  class Node<T> {
    var data: T
    var next: Node?<T>

    constructor (data: T, next: Node?<T>)
      ensures this.data == data && this.next == next
    {
      this.data := data;
      this.next := next;
    }
  }

  ghost predicate Distinct<T>(s: seq<T>) {
    forall i, j :: 0 <= i < j < |s| ==> s[i] != s[j]
  }

  lemma DistinctInsert<T>(s: seq<T>, k: nat, x: T)
    requires Distinct(s) && k <= |s| && x !in s
    ensures Distinct(s[..k] + [x] + s[k..])
  {
  }

  lemma DistinctRemove<T>(s: seq<T>, k: nat)
    requires Distinct(s) && k < |s|
    ensures Distinct(s[..k] + s[k + 1..])
  {
  }

  class List<T> {
    var size: nat
    var head: Node?<T>
    var tail: Node?<T>
    /** The nodes from head to tail. */
    ghost var spine: seq<Node<T>>

    ghost predicate Valid()
      reads this, spine
    {
      && size == |spine|
      && Distinct(spine)
      && head == (if spine == [] then null else spine[0])
      && tail == (if spine == [] then null else spine[|spine| - 1])
      && (forall i {:trigger spine[i].next} :: 0 <= i < |spine| ==>
            spine[i].next == if i + 1 < |spine| then spine[i + 1] else null)
    }

    ghost function Contents(): (s: seq<T>)
      reads this, spine
      ensures |s| == |spine|
      ensures forall i :: 0 <= i < |s| ==> s[i] == spine[i].data
    {
      seq(|spine|, i requires 0 <= i < |spine| reads this, spine => spine[i].data)
    }

    constructor ()
      ensures Valid() && Contents() == [] && spine == []
    {
      size, head, tail, spine := 0, null, null, [];
    }

    /** Inserts behind `element`, or in front of everything when it is null.
        `k` is the number of elements the new one stands behind. */
    method InsNext(element: Node?<T>, data: T) returns (ghost k: nat)
      requires Valid()
      requires element != null ==> element in spine
      modifies this, element
      ensures Valid()
      ensures k <= |old(spine)| && element == (if k == 0 then null else old(spine)[k - 1])
      ensures Contents() == old(Contents()[..k]) + [data] + old(Contents()[k..])
      ensures exists n :: fresh(n) && spine == old(spine)[..k] + [n] + old(spine)[k..]
    {
      ghost var nodes, values := spine, Contents();
      var added := new Node(data, null);
      if element == null {
        k := 0;
        LinkFirst(added);
      } else {
        ghost var at :| 0 <= at < |spine| && spine[at] == element;
        k := at + 1;
        LinkAfter(element, added, at);
      }
      ContentsInserted(nodes, values, k, added);
    }

    /** Removes the element behind `element`, or the first one when it is null. It is refused when
        there is no such element. */
    method RemNext(element: Node?<T>) returns (status: int, data: Option<T>, ghost k: nat)
      requires Valid()
      requires element != null ==> element in spine
      modifies this, element
      ensures Valid()
      ensures k <= |old(spine)| && element == (if k == 0 then null else old(spine)[k - 1])
      ensures status == (if k < |old(spine)| then 0 else -1)
      ensures status == 0 ==> data == Some(old(Contents())[k])
      ensures status == 0 ==> Contents() == old(Contents()[..k]) + old(Contents()[k + 1..])
      ensures status == 0 ==> spine == old(spine)[..k] + old(spine)[k + 1..]
      ensures status != 0 ==> data == None && spine == old(spine) && Contents() == old(Contents())
    {
      hide *;
      ghost var nodes, values := spine, Contents();
      k := 0;
      Ends();
      if size == 0 {
        return -1, None, k;
      }
      if element == null {
        data := Some(head.data);
        UnlinkFirst();
      } else {
        ghost var at := Locate(element);
        k := at + 1;
        if element.next == null {
          return -1, None, k;
        }
        data := Some(element.next.data);
        UnlinkAfter(element, at);
      }
      status := 0;
      assert spine == nodes[..k] + nodes[k + 1..];
      ContentsRemoved(nodes, values, k);
    }

    lemma Ends()
      requires Valid()
      ensures size == |spine|
      ensures spine != [] ==> head == spine[0] && tail == spine[|spine| - 1]
      ensures spine == [] ==> head == null && tail == null
    {
    }

    lemma Locate(element: Node<T>) returns (at: nat)
      requires Valid() && element in spine
      ensures at < |spine| && spine[at] == element
      ensures element.next == if at + 1 < |spine| then spine[at + 1] else null
    {
      at :| 0 <= at < |spine| && spine[at] == element;
    }

    method LinkFirst(added: Node<T>)
      requires Valid() && added !in spine
      modifies this, added
      ensures Valid() && spine == [added] + old(spine)
      ensures added.data == old(added.data)
    {
      if size == 0 {
        tail := added;
      }
      added.next := head;
      head := added;
      size := size + 1;
      DistinctInsert(spine, 0, added);
      assert spine[..0] + [added] + spine[0..] == [added] + spine;
      spine := [added] + spine;
    }

    method LinkAfter(element: Node<T>, added: Node<T>, ghost at: nat)
      requires Valid() && added !in spine
      requires at < |spine| && spine[at] == element
      modifies this, element, added
      ensures Valid() && spine == old(spine)[..at + 1] + [added] + old(spine)[at + 1..]
      ensures added.data == old(added.data) && element.data == old(element.data)
    {
      ghost var nodes := spine;
      if element.next == null {
        tail := added;
      }
      added.next := element.next;
      element.next := added;
      size := size + 1;
      DistinctInsert(spine, at + 1, added);
      spine := nodes[..at + 1] + [added] + nodes[at + 1..];
      assert forall i :: at + 1 < i < |spine| ==> spine[i] == nodes[i - 1];
    }

    method UnlinkFirst()
      requires Valid() && spine != []
      modifies this
      ensures Valid() && spine == old(spine)[1..]
    {
      if size == 1 {
        tail := null;
      }
      head := head.next;
      size := size - 1;
      spine := spine[1..];
    }

    method UnlinkAfter(element: Node<T>, ghost at: nat)
      requires Valid()
      requires at + 1 < |spine| && spine[at] == element
      modifies this, element
      ensures Valid() && spine == old(spine)[..at + 1] + old(spine)[at + 2..]
      ensures element.data == old(element.data)
    {
      ghost var nodes := spine;
      element.next := element.next.next;
      if element.next == null {
        tail := element;
      }
      size := size - 1;
      DistinctRemove(nodes, at + 1);
      spine := nodes[..at + 1] + nodes[at + 2..];
      assert forall i :: at < i < |spine| ==> spine[i] == nodes[i + 1];
    }

    lemma ContentsInserted(nodes: seq<Node<T>>, values: seq<T>, k: nat, added: Node<T>)
      requires k <= |nodes| == |values| && spine == nodes[..k] + [added] + nodes[k..]
      requires forall i :: 0 <= i < |nodes| ==> nodes[i].data == values[i]
      ensures Contents() == values[..k] + [added.data] + values[k..]
    {
    }

    lemma ContentsRemoved(nodes: seq<Node<T>>, values: seq<T>, k: nat)
      requires k < |nodes| == |values| && spine == nodes[..k] + nodes[k + 1..]
      requires forall i :: 0 <= i < |nodes| ==> nodes[i].data == values[i]
      ensures Contents() == values[..k] + values[k + 1..]
    {
    }

    /** Empties the list from the front; `destroyed` is what the callback gets to see. */
    method Destroy() returns (destroyed: seq<T>)
      requires Valid()
      modifies this
      ensures Valid() && Contents() == []
      ensures destroyed == old(Contents())
    {
      hide *;
      destroyed := [];
      ghost var all := Contents();
      Ends();
      assert all == [] + all;
      while size > 0
        invariant Valid() && size == |spine|
        invariant all == destroyed + Contents()
        decreases size
      {
        var status, data;
        ghost var k;
        ghost var values := Contents();
        status, data, k := RemNext(null);
        Ends();
        Moved(all, destroyed, values);
        destroyed := destroyed + [data.value];
      }
      assert Contents() == [];
    }
  }

  lemma Moved<T>(all: seq<T>, done: seq<T>, rest: seq<T>)
    requires rest != [] && all == done + rest
    ensures all == (done + [rest[0]]) + (rest[..0] + rest[1..])
  {
  }
}
