/**
 * The engine-side graph: a table of nodes, each wrapping a processor with a
 * list of ports, and a table of connections between the ports of those
 * nodes.  Node ids are handed out from a counter; a connection is only
 * accepted when it is legal and not already present.
 */
module Graph {
  import opened Optional
  import opened Seqs

  /** The kinds of port a node can expose. `Unknown` is what a port index
      out of range reports. */
  datatype PortType = Audio | Midi | Control | Unknown

  datatype Port = Port(kind: PortType, isInput: bool)

  /** The four kinds of graph input/output node. */
  datatype IODeviceType = AudioInputNode | AudioOutputNode | MidiInputNode | MidiOutputNode

  const NumDeviceTypes: nat := 4

  /** The position of a device type in the enumeration. */
  function DeviceTypeIndex(t: IODeviceType): (i: nat)
    ensures i < NumDeviceTypes
  {
    match t
    case AudioInputNode => 0
    case AudioOutputNode => 1
    case MidiInputNode => 2
    case MidiOutputNode => 3
  }

  /** The device type at a position of the enumeration. */
  function DeviceTypeAt(i: nat): (t: IODeviceType)
    requires i < NumDeviceTypes
    ensures DeviceTypeIndex(t) == i
  {
    if i == 0 then AudioInputNode
    else if i == 1 then AudioOutputNode
    else if i == 2 then MidiInputNode
    else MidiOutputNode
  }

  /** What a plugin description names: a plugin, or one of the internal
      graph input/output devices. */
  datatype Descriptor = PluginDescriptor(identifier: string) | IODescriptor(device: IODeviceType)

  /** The processor a node holds: a real instance, or the offline
      placeholder that stands in for a plugin that could not be loaded. */
  datatype Processor = Instance(desc: Descriptor) | Placeholder(desc: Descriptor)

  datatype NodeObject = NodeObject(nodeId: nat, processor: Processor, ports: seq<Port>)
  {
    /** True of the audio and MIDI input/output nodes. */
    predicate IsIONode()
    {
      processor.Instance? && processor.desc.IODescriptor?
    }

    /** The type of one port; `Unknown` past the last port. */
    function PortTypeAt(port: nat): (t: PortType)
      ensures port >= |ports| ==> t == Unknown
    {
      if port < |ports| then ports[port].kind else Unknown
    }
  }

  datatype Connection = Connection(sourceNode: nat, sourcePort: nat, destNode: nat, destPort: nat)

  // ---------------------------------------------------------------------
  // Queries over the node table

  predicate HasNode(nodes: seq<NodeObject>, id: nat)
  {
    exists i :: 0 <= i < |nodes| && nodes[i].nodeId == id
  }

  /** No two nodes share an id.  Stated over the id list, so that it is
      only instantiated where ids are discussed. */
  predicate UniqueIds(nodes: seq<NodeObject>)
  {
    forall i, j {:trigger Ids(nodes)[i], Ids(nodes)[j]} :: 0 <= i < j < |nodes| ==> Ids(nodes)[i] != Ids(nodes)[j]
  }

  /** The ids of the nodes, in table order. */
  function Ids(nodes: seq<NodeObject>): (ids: seq<nat>)
    ensures |ids| == |nodes|
    ensures forall i :: 0 <= i < |nodes| ==> ids[i] == nodes[i].nodeId
  {
    if nodes == [] then [] else [nodes[0].nodeId] + Ids(nodes[1..])
  }

  /** The pairwise reading of unique ids, over the nodes themselves. */
  lemma UniqueIdsMeans(nodes: seq<NodeObject>)
    ensures UniqueIds(nodes) <==> forall i, j :: 0 <= i < j < |nodes| ==> nodes[i].nodeId != nodes[j].nodeId
  {
    var ids := Ids(nodes);
    assert forall i :: 0 <= i < |nodes| ==> ids[i] == nodes[i].nodeId;
  }

  /** The first node with the given id, if any. */
  function FindNode(nodes: seq<NodeObject>, id: nat): (r: Option<NodeObject>)
    ensures r.Some? <==> HasNode(nodes, id)
    ensures r.Some? ==> r.value in nodes && r.value.nodeId == id
    ensures r.Some? ==> exists i :: 0 <= i < |nodes| && nodes[i] == r.value && forall j :: 0 <= j < i ==> nodes[j].nodeId != id
  {
    if nodes == [] then None
    else if nodes[0].nodeId == id then Some(nodes[0])
    else
      var r := FindNode(nodes[1..], id);
      assert HasNode(nodes[1..], id) ==> HasNode(nodes, id);
      assert HasNode(nodes, id) ==> HasNode(nodes[1..], id) by {
        if HasNode(nodes, id) {
          var i :| 0 <= i < |nodes| && nodes[i].nodeId == id;
          assert nodes[1..][i - 1].nodeId == id;
        }
      }
      assert r.Some? ==> exists i :: 0 <= i < |nodes| && nodes[i] == r.value && forall j :: 0 <= j < i ==> nodes[j].nodeId != id by {
        if r.Some? {
          var i :| 0 <= i < |nodes[1..]| && nodes[1..][i] == r.value && forall j :: 0 <= j < i ==> nodes[1..][j].nodeId != id;
          assert nodes[i + 1] == r.value;
          forall j | 0 <= j < i + 1
            ensures nodes[j].nodeId != id
          {
            if j > 0 {
              assert nodes[j] == nodes[1..][j - 1];
            }
          }
        }
      }
      r
  }

  /** With unique ids, the node found for an id is the one at its position. */
  lemma FindNodeAt(nodes: seq<NodeObject>, i: nat)
    requires UniqueIds(nodes) && i < |nodes|
    ensures FindNode(nodes, nodes[i].nodeId) == Some(nodes[i])
  {
    UniqueIdsMeans(nodes);
    var r := FindNode(nodes, nodes[i].nodeId);
    var j :| 0 <= j < |nodes| && nodes[j] == r.value;
  }

  /** The type of a port on the node with the given id; `Unknown` when there
      is no such node or port. */
  function PortTypeOf(nodes: seq<NodeObject>, id: nat, port: nat): PortType
  {
    match FindNode(nodes, id)
    case None => Unknown
    case Some(n) => n.PortTypeAt(port)
  }

  function KeepNode(id: nat): NodeObject -> bool
  {
    (n: NodeObject) => n.nodeId != id
  }

  /** The table with the node of the given id taken out. */
  function WithoutNode(nodes: seq<NodeObject>, id: nat): (r: seq<NodeObject>)
    ensures !HasNode(r, id)
    ensures forall other :: other != id ==> (HasNode(r, other) <==> HasNode(nodes, other))
  {
    var r := Filter(nodes, KeepNode(id));
    FilterMembers(nodes, KeepNode(id));
    assert forall other :: other != id && HasNode(nodes, other) ==> HasNode(r, other) by {
      forall other | other != id && HasNode(nodes, other)
        ensures HasNode(r, other)
      {
        var i :| 0 <= i < |nodes| && nodes[i].nodeId == other;
        assert nodes[i] in r;
      }
    }
    assert forall other :: HasNode(r, other) ==> HasNode(nodes, other) by {
      forall other | HasNode(r, other)
        ensures HasNode(nodes, other)
      {
        var i :| 0 <= i < |r| && r[i].nodeId == other;
        assert r[i] in nodes;
      }
    }
    r
  }

  /** Removing a node keeps the remaining ids unique. */
  lemma {:induction false} WithoutNodeUnique(nodes: seq<NodeObject>, id: nat)
    requires UniqueIds(nodes)
    ensures UniqueIds(WithoutNode(nodes, id))
    ensures forall n :: n in WithoutNode(nodes, id) <==> n in nodes && n.nodeId != id
    decreases |nodes|
  {
    FilterMembers(nodes, KeepNode(id));
    if nodes != [] {
      var head, tail := nodes[0], nodes[1..];
      UniqueTail(nodes);
      WithoutNodeUnique(tail, id);
      var rest := WithoutNode(tail, id);
      if head.nodeId != id {
        UniqueHeadNotInTail(nodes);
        assert WithoutNode(nodes, id) == [head] + rest;
        UniqueIdsCons(head, rest);
      } else {
        assert WithoutNode(nodes, id) == rest;
      }
    }
  }

  lemma UniqueTail(nodes: seq<NodeObject>)
    requires UniqueIds(nodes) && nodes != []
    ensures UniqueIds(nodes[1..])
  {
    var ids, tailIds := Ids(nodes), Ids(nodes[1..]);
    forall i, j | 0 <= i < j < |tailIds|
      ensures tailIds[i] != tailIds[j]
    {
      assert tailIds[i] == ids[i + 1] && tailIds[j] == ids[j + 1];
    }
  }

  lemma UniqueHeadNotInTail(nodes: seq<NodeObject>)
    requires UniqueIds(nodes) && nodes != []
    ensures !HasNode(nodes[1..], nodes[0].nodeId)
  {
    var ids := Ids(nodes);
    assert forall k :: 0 <= k < |nodes[1..]| ==> nodes[1..][k].nodeId == ids[k + 1];
  }

  /** Putting a node with a fresh id in front keeps the ids unique. */
  lemma UniqueIdsCons(head: NodeObject, rest: seq<NodeObject>)
    requires UniqueIds(rest) && !HasNode(rest, head.nodeId)
    ensures UniqueIds([head] + rest)
  {
    var ids, restIds := Ids([head] + rest), Ids(rest);
    assert ([head] + rest)[1..] == rest;
    forall i, j | 0 <= i < j < |ids|
      ensures ids[i] != ids[j]
    {
      assert ids[j] == restIds[j - 1] == rest[j - 1].nodeId;
      if i > 0 {
        assert ids[i] == restIds[i - 1];
      }
    }
  }

  // ---------------------------------------------------------------------
  // Connection rules

  /** A connection is legal when it joins an output port of one existing
      node to an input port of another existing node of the same type. */
  predicate Legal(nodes: seq<NodeObject>, c: Connection)
  {
    && c.sourceNode != c.destNode
    && FindNode(nodes, c.sourceNode).Some?
    && FindNode(nodes, c.destNode).Some?
    && var src := FindNode(nodes, c.sourceNode).value;
    && var dst := FindNode(nodes, c.destNode).value;
    && c.sourcePort < |src.ports| && !src.ports[c.sourcePort].isInput
    && c.destPort < |dst.ports| && dst.ports[c.destPort].isInput
    && src.ports[c.sourcePort].kind == dst.ports[c.destPort].kind
  }

  /** A connection can be made when it is legal and not already present. */
  predicate CanConnect(nodes: seq<NodeObject>, connections: seq<Connection>, c: Connection)
  {
    Legal(nodes, c) && c !in connections
  }

  /** The connection table after trying to add `c`. */
  function Connect(nodes: seq<NodeObject>, connections: seq<Connection>, c: Connection): (r: seq<Connection>)
    ensures CanConnect(nodes, connections, c) ==> r == connections + [c]
    ensures !CanConnect(nodes, connections, c) ==> r == connections
  {
    if CanConnect(nodes, connections, c) then connections + [c] else connections
  }

  /** No connection appears twice in the table: the first entry is not
      repeated, and neither is any later one. */
  predicate NoDuplicates(connections: seq<Connection>)
    decreases |connections|
  {
    connections == [] || (connections[0] !in connections[1..] && NoDuplicates(connections[1..]))
  }

  /** A table has no duplicates exactly when its entries are pairwise distinct. */
  lemma {:induction false} NoDuplicatesMeans(connections: seq<Connection>)
    ensures NoDuplicates(connections) <==> forall i, j :: 0 <= i < j < |connections| ==> connections[i] != connections[j]
    decreases |connections|
  {
    if connections != [] {
      var tail := connections[1..];
      NoDuplicatesMeans(tail);
      assert forall k :: 0 <= k < |tail| ==> tail[k] == connections[k + 1];
      if forall i, j :: 0 <= i < j < |connections| ==> connections[i] != connections[j] {
        forall k | 0 <= k < |tail|
          ensures tail[k] != connections[0]
        {
          assert connections[0] != connections[k + 1];
        }
      }
    }
  }

  /** Appending a connection not yet in the table keeps it free of duplicates. */
  lemma {:induction false} NoDuplicatesAppend(connections: seq<Connection>, c: Connection)
    requires NoDuplicates(connections) && c !in connections
    ensures NoDuplicates(connections + [c])
    decreases |connections|
  {
    if connections != [] {
      NoDuplicatesAppend(connections[1..], c);
      assert (connections + [c])[1..] == connections[1..] + [c];
    } else {
      assert ([c])[1..] == [];
    }
  }

  predicate EndpointsExist(nodes: seq<NodeObject>, connections: seq<Connection>)
  {
    forall c :: c in connections ==> HasNode(nodes, c.sourceNode) && HasNode(nodes, c.destNode)
  }

  /** Adding through `Connect` never introduces a duplicate or a dangling
      connection. */
  lemma ConnectKeepsTable(nodes: seq<NodeObject>, connections: seq<Connection>, c: Connection)
    requires NoDuplicates(connections) && EndpointsExist(nodes, connections)
    ensures NoDuplicates(Connect(nodes, connections, c))
    ensures EndpointsExist(nodes, Connect(nodes, connections, c))
  {
    if CanConnect(nodes, connections, c) {
      NoDuplicatesAppend(connections, c);
    }
  }

  function KeepUnattached(id: nat): Connection -> bool
  {
    (c: Connection) => c.sourceNode != id && c.destNode != id
  }

  function KeepOther(c: Connection): Connection -> bool
  {
    (d: Connection) => d != c
  }

  function KeepLegal(nodes: seq<NodeObject>): Connection -> bool
  {
    (c: Connection) => Legal(nodes, c)
  }

  lemma HeadNotInTail(connections: seq<Connection>)
    requires NoDuplicates(connections) && connections != []
    ensures connections[0] !in connections[1..]
  {
  }

  /** Filtering keeps a table free of duplicates. */
  lemma {:induction false} FilterNoDuplicates(connections: seq<Connection>, keep: Connection -> bool)
    requires NoDuplicates(connections)
    ensures NoDuplicates(Filter(connections, keep))
    decreases |connections|
  {
    if connections != [] {
      var rest := Filter(connections[1..], keep);
      FilterNoDuplicates(connections[1..], keep);
      FilterMembers(connections[1..], keep);
      if keep(connections[0]) {
        assert Filter(connections, keep) == [connections[0]] + rest;
        assert connections[0] !in rest;
        assert ([connections[0]] + rest)[0] == connections[0];
        assert ([connections[0]] + rest)[1..] == rest;
      } else {
        assert Filter(connections, keep) == rest;
      }
    }
  }

  /** With unique ids, legality read off the positions of the two nodes:
      different nodes, an output port of the first and an input port of the
      second, both in range and of one kind. */
  lemma LegalAt(nodes: seq<NodeObject>, c: Connection, i: nat, j: nat)
    requires UniqueIds(nodes) && i < |nodes| && j < |nodes|
    requires nodes[i].nodeId == c.sourceNode && nodes[j].nodeId == c.destNode
    ensures Legal(nodes, c) <==>
              && i != j
              && c.sourcePort < |nodes[i].ports| && !nodes[i].ports[c.sourcePort].isInput
              && c.destPort < |nodes[j].ports| && nodes[j].ports[c.destPort].isInput
              && nodes[i].ports[c.sourcePort].kind == nodes[j].ports[c.destPort].kind
  {
    UniqueIdsMeans(nodes);
    FindNodeAt(nodes, i);
    FindNodeAt(nodes, j);
    assert i != j <==> c.sourceNode != c.destNode;
  }

  /** After removing the illegal connections, every remaining one is legal,
      every legal one is kept, and the table is unchanged exactly when none
      was illegal. */
  lemma LegalOnlyIsLegal(nodes: seq<NodeObject>, connections: seq<Connection>)
    ensures forall c :: c in Filter(connections, KeepLegal(nodes)) ==> Legal(nodes, c)
    ensures forall c :: c in connections && Legal(nodes, c) ==> c in Filter(connections, KeepLegal(nodes))
    ensures Filter(connections, KeepLegal(nodes)) == connections <==> forall c :: c in connections ==> Legal(nodes, c)
  {
    FilterMembers(connections, KeepLegal(nodes));
    FilterUnchanged(connections, KeepLegal(nodes));
  }

  /** Without duplicates, removing by endpoints takes out exactly one entry
      when the connection is present and none otherwise. */
  lemma {:induction false} RemoveOneConnection(connections: seq<Connection>, c: Connection)
    requires NoDuplicates(connections)
    ensures c in connections ==> |Filter(connections, KeepOther(c))| == |connections| - 1
    ensures c !in connections ==> Filter(connections, KeepOther(c)) == connections
    decreases |connections|
  {
    if connections != [] {
      RemoveOneConnection(connections[1..], c);
      HeadNotInTail(connections);
    }
  }

  /** An id above every id in use names no node and no connection end. */
  lemma FreshIdIsUnused(nodes: seq<NodeObject>, connections: seq<Connection>, id: nat)
    requires forall i :: 0 <= i < |nodes| ==> nodes[i].nodeId < id
    requires EndpointsExist(nodes, connections)
    ensures !HasNode(nodes, id)
    ensures WithoutNode(nodes, id) == nodes
    ensures Filter(connections, KeepUnattached(id)) == connections
  {
    FilterUnchanged(nodes, KeepNode(id));
    FilterUnchanged(connections, KeepUnattached(id));
  }

  /** Replacing (or adding) the node with a given id keeps the node and
      connection tables consistent. */
  lemma PlaceNodeKeepsTables(nodes: seq<NodeObject>, connections: seq<Connection>, n: NodeObject)
    requires UniqueIds(nodes) && EndpointsExist(nodes, connections) && NoDuplicates(connections)
    ensures UniqueIds(WithoutNode(nodes, n.nodeId) + [n])
    ensures EndpointsExist(WithoutNode(nodes, n.nodeId) + [n], Filter(connections, KeepUnattached(n.nodeId)))
    ensures NoDuplicates(Filter(connections, KeepUnattached(n.nodeId)))
  {
    var rest := WithoutNode(nodes, n.nodeId);
    WithoutNodeUnique(nodes, n.nodeId);
    UniqueIdsMeans(rest);
    UniqueIdsMeans(rest + [n]);
    FilterNoDuplicates(connections, KeepUnattached(n.nodeId));
    forall other | HasNode(rest, other)
      ensures HasNode(rest + [n], other)
    {
      var i :| 0 <= i < |rest| && rest[i].nodeId == other;
      assert (rest + [n])[i].nodeId == other;
    }
  }

  /** Node ids are unique, non-zero and never above the counter; every
      connection joins existing nodes and appears once. */
  predicate Consistent(nodes: seq<NodeObject>, connections: seq<Connection>, lastNodeId: nat)
  {
    && UniqueIds(nodes)
    && (forall i :: 0 <= i < |nodes| ==> 0 < nodes[i].nodeId <= lastNodeId)
    && EndpointsExist(nodes, connections)
    && NoDuplicates(connections)
  }

  /** Taking a node out together with its connections keeps the tables
      consistent. */
  lemma RemoveKeepsConsistent(nodes: seq<NodeObject>, connections: seq<Connection>, lastNodeId: nat, id: nat)
    requires Consistent(nodes, connections, lastNodeId)
    ensures Consistent(WithoutNode(nodes, id), Filter(connections, KeepUnattached(id)), lastNodeId)
  {
    var rest := WithoutNode(nodes, id);
    WithoutNodeUnique(nodes, id);
    FilterNoDuplicates(connections, KeepUnattached(id));
    forall i | 0 <= i < |rest|
      ensures 0 < rest[i].nodeId <= lastNodeId
    {
      assert rest[i] in nodes;
    }
  }

  /** Dropping connections keeps the tables consistent. */
  lemma FilterKeepsConsistent(nodes: seq<NodeObject>, connections: seq<Connection>, lastNodeId: nat, keep: Connection -> bool)
    requires Consistent(nodes, connections, lastNodeId)
    ensures Consistent(nodes, Filter(connections, keep), lastNodeId)
  {
    FilterNoDuplicates(connections, keep);
  }

  /** What the backward pass that drops illegal connections leaves once it
      reaches the front of the table. */
  lemma IllegalPassDone(nodes: seq<NodeObject>, before: seq<Connection>, lastNodeId: nat,
                        connections: seq<Connection>, doneAnything: bool)
    requires Consistent(nodes, before, lastNodeId)
    requires connections == Filter(before, KeepLegal(nodes))
    requires doneAnything <==> |connections| < |before|
    ensures Consistent(nodes, connections, lastNodeId)
    ensures forall c :: c in connections ==> Legal(nodes, c)
    ensures doneAnything <==> exists c :: c in before && !Legal(nodes, c)
  {
    FilterKeepsLength(before, KeepLegal(nodes));
    FilterKeepsConsistent(nodes, before, lastNodeId, KeepLegal(nodes));
    LegalOnlyIsLegal(nodes, before);
    if doneAnything {
      var k :| 0 <= k < |before| && !KeepLegal(nodes)(before[k]);
      assert before[k] in before;
    }
  }

  /** Deleting the connection at a position keeps the tables consistent. */
  lemma RemoveAtKeepsConsistent(nodes: seq<NodeObject>, connections: seq<Connection>, lastNodeId: nat, index: int)
    requires Consistent(nodes, connections, lastNodeId)
    ensures Consistent(nodes, RemoveAt(connections, index), lastNodeId)
  {
    var r := RemoveAt(connections, index);
    if 0 <= index < |connections| {
      forall c | c in r
        ensures c in connections
      {
        var k :| 0 <= k < |r| && r[k] == c;
        if k < index {
          assert connections[k] == c;
        } else {
          assert connections[k + 1] == c;
        }
      }
      NoDuplicatesMeans(connections);
      NoDuplicatesMeans(r);
      forall i, j | 0 <= i < j < |r|
        ensures r[i] != r[j]
      {
        var i' := if i < index then i else i + 1;
        var j' := if j < index then j else j + 1;
        assert r[i] == connections[i'] && r[j] == connections[j'];
      }
    }
  }

  /** Taking out an id that no node holds changes neither table. */
  lemma RemoveAbsentChangesNothing(nodes: seq<NodeObject>, connections: seq<Connection>, lastNodeId: nat, id: nat)
    requires Consistent(nodes, connections, lastNodeId) && !HasNode(nodes, id)
    ensures WithoutNode(nodes, id) == nodes
    ensures Filter(connections, KeepUnattached(id)) == connections
  {
    FilterUnchanged(nodes, KeepNode(id));
    FilterUnchanged(connections, KeepUnattached(id));
    assert forall i :: 0 <= i < |connections| ==> connections[i] in connections;
  }

  // ---------------------------------------------------------------------
  // The graph

  class GraphProcessor {
    var nodes: seq<NodeObject>
    var connections: seq<Connection>
    var lastNodeId: nat

    /** Node ids are unique, non-zero and never above the counter; every
        connection joins existing nodes and appears once. */
    ghost predicate Valid()
      reads this
    {
      Consistent(nodes, connections, lastNodeId)
    }

    constructor()
      ensures Valid()
      ensures nodes == [] && connections == [] && lastNodeId == 0
    {
      nodes := [];
      connections := [];
      lastNodeId := 0;
    }

    /** Deletes every node and connection; the id counter keeps its value. */
    method Clear()
      requires Valid()
      modifies this
      ensures Valid()
      ensures nodes == [] && connections == [] && lastNodeId == old(lastNodeId)
    {
      nodes := [];
      connections := [];
    }

    /** The node at a table position, or nothing when out of range. */
    function GetNode(index: int): (r: Option<NodeObject>)
      reads this
      ensures r.Some? <==> 0 <= index < |nodes|
      ensures r.Some? ==> r.value == nodes[index]
    {
      if 0 <= index < |nodes| then Some(nodes[index]) else None
    }

    /** The node with the given id, or nothing. */
    function GetNodeForId(nodeId: nat): (r: Option<NodeObject>)
      reads this
      ensures r.Some? <==> HasNode(nodes, nodeId)
      ensures r.Some? ==> r.value in nodes && r.value.nodeId == nodeId
    {
      FindNode(nodes, nodeId)
    }

    /**
     * Adds a node.  An id of 0 asks for the next free id; any other id is
     * used as given, and a node already holding it is removed first,
     * together with its connections.  The counter never falls behind the
     * ids in use.
     */
    method AddNode(processor: Processor, ports: seq<Port>, nodeId: nat) returns (id: nat)
      requires Valid()
      modifies this
      ensures Valid()
      ensures id == (if nodeId == 0 then old(lastNodeId) + 1 else nodeId)
      ensures nodes == WithoutNode(old(nodes), id) + [NodeObject(id, processor, ports)]
      ensures connections == Filter(old(connections), KeepUnattached(id))
      ensures lastNodeId == (if id > old(lastNodeId) then id else old(lastNodeId))
      ensures nodeId == 0 ==> nodes == old(nodes) + [NodeObject(id, processor, ports)]
      ensures nodeId == 0 ==> connections == old(connections)
    {
      if nodeId == 0 {
        id := lastNodeId + 1;
        FreshIdIsUnused(nodes, connections, id);
      } else {
        id := nodeId;
      }
      var n := NodeObject(id, processor, ports);
      PlaceNodeKeepsTables(nodes, connections, n);
      FilterMembers(nodes, KeepNode(id));
      nodes := WithoutNode(nodes, id) + [n];
      connections := Filter(connections, KeepUnattached(id));
      if id > lastNodeId {
        lastNodeId := id;
      }
      forall i | 0 <= i < |nodes|
        ensures 0 < nodes[i].nodeId <= lastNodeId
      {
        if i < |nodes| - 1 {
          assert nodes[i] in old(nodes);
        }
      }
    }

    /** Deletes the node with the given id and every connection attached to
        it; answers whether there was such a node. */
    method RemoveNode(nodeId: nat) returns (removed: bool)
      requires Valid()
      modifies this
      ensures Valid()
      ensures removed <==> HasNode(old(nodes), nodeId)
      ensures nodes == WithoutNode(old(nodes), nodeId)
      ensures connections == Filter(old(connections), KeepUnattached(nodeId))
      ensures lastNodeId == old(lastNodeId)
      ensures !removed ==> nodes == old(nodes) && connections == old(connections)
    {
      removed := HasNode(nodes, nodeId);
      RemoveKeepsConsistent(nodes, connections, lastNodeId, nodeId);
      if !removed {
        RemoveAbsentChangesNothing(nodes, connections, lastNodeId, nodeId);
      }
      nodes := WithoutNode(nodes, nodeId);
      connections := Filter(connections, KeepUnattached(nodeId));
    }

    /** The connection at a table position, or nothing when out of range. */
    function GetConnection(index: int): (r: Option<Connection>)
      reads this
      ensures r.Some? <==> 0 <= index < |connections|
      ensures r.Some? ==> r.value == connections[index]
    {
      if 0 <= index < |connections| then Some(connections[index]) else None
    }

    /** The connection between the given points, or nothing. */
    function GetConnectionBetween(sourceNode: nat, sourcePort: nat, destNode: nat, destPort: nat): (r: Option<Connection>)
      reads this
      ensures r.Some? <==> Connection(sourceNode, sourcePort, destNode, destPort) in connections
      ensures r.Some? ==> r.value == Connection(sourceNode, sourcePort, destNode, destPort)
    {
      var c := Connection(sourceNode, sourcePort, destNode, destPort);
      if c in connections then Some(c) else None
    }

    /** Whether the given points could be connected now. */
    function CanConnectPorts(sourceNode: nat, sourcePort: nat, destNode: nat, destPort: nat): (r: bool)
      reads this
      ensures r <==> Legal(nodes, Connection(sourceNode, sourcePort, destNode, destPort))
                     && GetConnectionBetween(sourceNode, sourcePort, destNode, destPort).None?
    {
      CanConnect(nodes, connections, Connection(sourceNode, sourcePort, destNode, destPort))
    }

    /** Connects two ports when that is legal and not yet done; answers
        whether the connection was added. */
    method AddConnection(sourceNode: nat, sourcePort: nat, destNode: nat, destPort: nat) returns (added: bool)
      requires Valid()
      modifies this
      ensures Valid()
      ensures added == old(CanConnectPorts(sourceNode, sourcePort, destNode, destPort))
      ensures connections == Connect(nodes, old(connections), Connection(sourceNode, sourcePort, destNode, destPort))
      ensures nodes == old(nodes) && lastNodeId == old(lastNodeId)
    {
      var c := Connection(sourceNode, sourcePort, destNode, destPort);
      added := CanConnect(nodes, connections, c);
      ConnectKeepsTable(nodes, connections, c);
      if added {
        connections := connections + [c];
      }
    }

    /** Deletes the connection at a table position; out of range does nothing. */
    method RemoveConnectionAt(index: int)
      requires Valid()
      modifies this
      ensures Valid()
      ensures connections == RemoveAt(old(connections), index)
      ensures nodes == old(nodes) && lastNodeId == old(lastNodeId)
    {
      RemoveAtKeepsConsistent(nodes, connections, lastNodeId, index);
      connections := RemoveAt(connections, index);
    }

    /** Deletes the connection between the given points, walking the table
        from the back; answers whether one was deleted. */
    method RemoveConnection(sourceNode: nat, sourcePort: nat, destNode: nat, destPort: nat) returns (removed: bool)
      requires Valid()
      modifies this
      ensures Valid()
      ensures removed <==> Connection(sourceNode, sourcePort, destNode, destPort) in old(connections)
      ensures connections == Filter(old(connections), KeepOther(Connection(sourceNode, sourcePort, destNode, destPort)))
      ensures nodes == old(nodes) && lastNodeId == old(lastNodeId)
    {
      var c := Connection(sourceNode, sourcePort, destNode, destPort);
      var kept;
      kept, removed := RemoveFromBack(connections, KeepOther(c));
      FilterKeepsConsistent(nodes, connections, lastNodeId, KeepOther(c));
      assert removed ==> c in connections;
      assert c in connections ==> removed by {
        if c in connections {
          var k :| 0 <= k < |connections| && connections[k] == c;
          assert !KeepOther(c)(connections[k]);
        }
      }
      connections := kept;
    }

    /** Whether a connection still fits the ports of the nodes it joins. */
    function IsConnectionLegal(c: Connection): (r: bool)
      reads this
      ensures r <==>
                && c.sourceNode != c.destNode
                && HasNode(nodes, c.sourceNode) && HasNode(nodes, c.destNode)
                && (var src, dst := FindNode(nodes, c.sourceNode).value, FindNode(nodes, c.destNode).value;
                    && c.sourcePort < |src.ports| && !src.ports[c.sourcePort].isInput
                    && c.destPort < |dst.ports| && dst.ports[c.destPort].isInput
                    && src.ports[c.sourcePort].kind == dst.ports[c.destPort].kind)
      ensures r ==> PortTypeOf(nodes, c.sourceNode, c.sourcePort) == PortTypeOf(nodes, c.destNode, c.destPort)
    {
      Legal(nodes, c)
    }

    /** Deletes every connection that is no longer legal, walking the table
        from the back; answers whether anything was deleted. */
    method RemoveIllegalConnections() returns (doneAnything: bool)
      requires Valid()
      modifies this
      ensures Valid()
      ensures connections == Filter(old(connections), KeepLegal(nodes))
      ensures forall c :: c in connections ==> Legal(nodes, c)
      ensures doneAnything <==> exists c :: c in old(connections) && !Legal(nodes, c)
      ensures nodes == old(nodes) && lastNodeId == old(lastNodeId)
    {
      var kept;
      kept, doneAnything := RemoveFromBack(connections, KeepLegal(nodes));
      IllegalPassDone(nodes, connections, lastNodeId, kept, doneAnything);
      connections := kept;
    }
  }
}
