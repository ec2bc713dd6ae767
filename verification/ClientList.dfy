/** The list of connected clients of the threaded chat server, cserver/tcp.c and cserver/client.c. */
module ClientList {
  import opened LinkedList

  class ClientInfo {
    const descriptor: int
    const id: int
    const ip: string

    constructor (descriptor: int, id: int, ip: string)
      ensures this.descriptor == descriptor && this.id == id && this.ip == ip
    {
      this.descriptor, this.id, this.ip := descriptor, id, ip;
    }
  }

  // ----- the finder

  /** The position of the first occurrence of an id, or the length when there is none. */
  function First(ids: seq<int>, id: int): (k: nat)
    ensures k <= |ids| && (k < |ids| ==> ids[k] == id)
    ensures forall j :: 0 <= j < k ==> ids[j] != id
  {
    if ids == [] || ids[0] == id then 0
    else
      1 + First(ids[1..], id)
  }

  lemma FirstUnique(ids: seq<int>, id: int, k: nat)
    requires k <= |ids| && (k < |ids| ==> ids[k] == id) && forall j :: 0 <= j < k ==> ids[j] != id
    ensures First(ids, id) == k
  {
    if First(ids, id) < k {
      assert false;
    }
  }

  function Ids(clients: seq<ClientInfo>): (ids: seq<int>)
    ensures |ids| == |clients| && forall i :: 0 <= i < |ids| ==> ids[i] == clients[i].id
  {
    seq(|clients|, i requires 0 <= i < |clients| => clients[i].id)
  }

  /** Finds the node before the first client with the given id: null when that client is the first of all. */
  method FindNextClientId(list: List<ClientInfo>, element: Node?<ClientInfo>, id: int)
    returns (status: int, found: Node?<ClientInfo>)
    requires list.Valid()
    ensures var k, n := First(Ids(list.Contents()), id), |list.spine|;
      && status == (if k < n then 0 else -1)
      && found == (if k < n then (if k == 0 then null else list.spine[k - 1])
                   else if n <= 1 then element else list.spine[n - 2])
  {
    ghost var ids := Ids(list.Contents());
    found := element;
    if list.size == 0 {
      return -1, found;
    }
    var current := list.head;
    if current.data.id == id {
      FirstUnique(ids, id, 0);
      return 0, null;
    }
    ghost var i := 0;
    while current.next != null
      invariant 0 <= i < |list.spine| && current == list.spine[i]
      invariant found == if i == 0 then element else list.spine[i - 1]
      invariant forall j :: 0 <= j <= i ==> ids[j] != id
      decreases |list.spine| - i
    {
      found := current;
      current := current.next;
      i := i + 1;
      if current.data.id == id {
        FirstUnique(ids, id, i);
        return 0, found;
      }
    }
    FirstUnique(ids, id, |ids|);
    status := -1;
  }

  // ----- the two locked sections

  method Register(clients: List<ClientInfo>, cinfo: ClientInfo)
    requires clients.Valid()
    modifies clients
    ensures clients.Valid() && clients.Contents() == [cinfo] + old(clients.Contents())
    ensures forall i :: 0 <= i < |clients.spine| ==> clients.spine[i] in old(clients.spine) || fresh(clients.spine[i])
  {
    ghost var values := clients.Contents();
    ghost var k := clients.InsNext(null, cinfo);
    assert k == 0;
    assert values[..0] + [cinfo] + values[0..] == [cinfo] + values;
  }

  /** The records without the first one that has the given id. */
  function Drop(records: seq<ClientInfo>, id: int): seq<ClientInfo> {
    var k := First(Ids(records), id);
    if k < |records| then records[..k] + records[k + 1..] else records
  }

  predicate Has(records: seq<ClientInfo>, id: int) {
    First(Ids(records), id) < |records|
  }

  /** The record that is dropped is the first one with the id, when there is one. */
  lemma DropsFirstOf(records: seq<ClientInfo>, id: int)
    ensures Has(records, id) <==> exists i :: 0 <= i < |records| && records[i].id == id
    ensures !Has(records, id) ==> Drop(records, id) == records
    ensures Has(records, id) ==> exists k ::
      && 0 <= k < |records| && records[k].id == id && (forall j :: 0 <= j < k ==> records[j].id != id)
      && k == First(Ids(records), id) && Drop(records, id) == records[..k] + records[k + 1..]
  {
    hide First;
    if i :| 0 <= i < |records| && records[i].id == id {
      assert Ids(records)[i] == id;
    }
    if Has(records, id) {
      var k := First(Ids(records), id);
      assert Ids(records)[k] == records[k].id;
      forall j | 0 <= j < k ensures records[j].id != id {
        assert Ids(records)[j] == records[j].id;
      }
    }
  }

  datatype Outcome = NotFound | NotRemoved | Removed(client: ClientInfo)

  /** What a thread reads as the id in its record: once the record has been freed, anything. */
  function IdRead(cinfo: ClientInfo, freed: set<ClientInfo>, stale: int): int {
    if cinfo in freed then stale else cinfo.id
  }

  /** Drops and frees the first record with the id that is read in the record of the leaving client. The outcomes
      other than Removed are the ones reported as bugs. */
  method Deregister(clients: List<ClientInfo>, cinfo: ClientInfo, freed: set<ClientInfo>, stale: int)
    returns (outcome: Outcome, freed': set<ClientInfo>)
    requires clients.Valid()
    modifies clients, clients.spine
    ensures clients.Valid()
    ensures var before, id := old(clients.Contents()), IdRead(cinfo, freed, stale);
      && clients.Contents() == Drop(before, id)
      && outcome == (if Has(before, id) then Removed(before[First(Ids(before), id)]) else NotFound)
      && freed' == if Has(before, id) then freed + {before[First(Ids(before), id)]} else freed
    ensures forall i :: 0 <= i < |clients.spine| ==> clients.spine[i] in old(clients.spine)
  {
    hide First, Ids;
    freed' := freed;
    var status, element := FindNextClientId(clients, clients.head, IdRead(cinfo, freed, stale));
    if status == -1 {
      outcome := NotFound;
    } else {
      var data;
      ghost var k;
      status, data, k := clients.RemNext(element);
      if status == -1 {
        outcome := NotRemoved;
        freed' := freed + {cinfo};
      } else {
        outcome := Removed(data.value);
        freed' := freed + {data.value};
      }
    }
  }
}
