/**
 * The document-side view of a graph that the graph manager keeps in step
 * with the engine: node records, arc records (an arc can be marked
 * missing when the engine could not make it), the replay of arcs against
 * the engine's connection table, and the plan that keeps exactly the
 * wanted input/output nodes in a graph.
 */
module GraphModel {
  import opened Optional
  import opened Seqs
  import opened Graph

  /** The id the manager answers when no node was created. */
  const InvalidNode: nat := 0

  /** A node record of the document: its id, what it was made from, its
      ports and whether it only exists as an offline placeholder. */
  datatype NodeModel = NodeModel(nodeId: nat, desc: Descriptor, ports: seq<Port>, missing: bool)

  /** An arc record of the document. */
  datatype Arc = Arc(sourceNode: nat, sourcePort: nat, destNode: nat, destPort: nat, missing: bool)
  {
    function AsConnection(): Connection
    {
      Connection(sourceNode, sourcePort, destNode, destPort)
    }
  }

  /** The arc record that mirrors an engine connection. */
  function MakeArc(c: Connection): (a: Arc)
    ensures !a.missing && a.AsConnection() == c
  {
    Arc(c.sourceNode, c.sourcePort, c.destNode, c.destPort, false)
  }

  /** One arc record per connection, in order. */
  function ArcsOf(connections: seq<Connection>): (r: seq<Arc>)
    ensures |r| == |connections|
    ensures forall i :: 0 <= i < |connections| ==> r[i] == MakeArc(connections[i])
  {
    if connections == [] then [] else [MakeArc(connections[0])] + ArcsOf(connections[1..])
  }

  /** The connections that the arcs not marked missing stand for, in order. */
  function LiveConnections(arcs: seq<Arc>): seq<Connection>
  {
    if arcs == [] then []
    else (if arcs[0].missing then [] else [arcs[0].AsConnection()]) + LiveConnections(arcs[1..])
  }

  /** How many arcs are marked missing. */
  function MissingCount(arcs: seq<Arc>): nat
  {
    if arcs == [] then 0 else (if arcs[0].missing then 1 else 0) + MissingCount(arcs[1..])
  }

  lemma {:induction false} LiveConnectionsAppend(a: seq<Arc>, b: seq<Arc>)
    ensures LiveConnections(a + b) == LiveConnections(a) + LiveConnections(b)
    decreases |a|
  {
    if a == [] {
      assert a + b == b;
    } else {
      assert (a + b)[1..] == a[1..] + b;
      LiveConnectionsAppend(a[1..], b);
    }
  }

  /** The arcs made from a connection table stand for exactly that table. */
  lemma {:induction false} LiveConnectionsOfArcs(connections: seq<Connection>)
    ensures LiveConnections(ArcsOf(connections)) == connections
    decreases |connections|
  {
    if connections != [] {
      assert ArcsOf(connections)[1..] == ArcsOf(connections[1..]);
      LiveConnectionsOfArcs(connections[1..]);
    }
  }

  /** Every arc record is either live or missing. */
  lemma {:induction false} ArcCount(arcs: seq<Arc>)
    ensures |arcs| == |LiveConnections(arcs)| + MissingCount(arcs)
    decreases |arcs|
  {
    if arcs != [] {
      ArcCount(arcs[1..]);
    }
  }

  /** The ids of the node records, in document order. */
  function ModelIds(nodes: seq<NodeModel>): (ids: seq<nat>)
    ensures |ids| == |nodes|
    ensures forall i :: 0 <= i < |nodes| ==> ids[i] == nodes[i].nodeId
  {
    if nodes == [] then [] else [nodes[0].nodeId] + ModelIds(nodes[1..])
  }

  predicate HasModelNode(nodes: seq<NodeModel>, id: nat)
  {
    exists i :: 0 <= i < |nodes| && nodes[i].nodeId == id
  }

  /** When the document and the engine list the same ids, they know the
      same nodes. */
  lemma SameIdsSameNodes(nodes: seq<NodeModel>, objects: seq<NodeObject>, id: nat)
    requires ModelIds(nodes) == Ids(objects)
    ensures HasModelNode(nodes, id) <==> HasNode(objects, id)
  {
    if HasModelNode(nodes, id) {
      var i :| 0 <= i < |nodes| && nodes[i].nodeId == id;
      assert Ids(objects)[i] == id;
    }
    if HasNode(objects, id) {
      var i :| 0 <= i < |objects| && objects[i].nodeId == id;
      assert ModelIds(nodes)[i] == id;
    }
  }

  // ---------------------------------------------------------------------
  // Replaying arcs against the engine

  /**
   * Tries each arc in turn on the connection table.  An arc the engine
   * accepts is kept with its missing mark cleared; one it refuses is kept
   * marked missing when `keepFailed` says so, and dropped otherwise.
   * Answers the final connection table and the arc records kept.
   */
  function Replay(objects: seq<NodeObject>, connections: seq<Connection>, arcs: seq<Arc>, keepFailed: Arc -> bool): (r: (seq<Connection>, seq<Arc>))
    ensures |r.1| <= |arcs|
    decreases |arcs|
  {
    if arcs == [] then (connections, [])
    else
      var c := arcs[0].AsConnection();
      var rest := Replay(objects, Connect(objects, connections, c), arcs[1..], keepFailed);
      if CanConnect(objects, connections, c) then (rest.0, [arcs[0].(missing := false)] + rest.1)
      else if keepFailed(arcs[0]) then (rest.0, [arcs[0].(missing := true)] + rest.1)
      else rest
  }

  /** The live arcs kept by a replay are exactly the connections it added,
      in the order it added them. */
  lemma {:induction false} ReplayLive(objects: seq<NodeObject>, connections: seq<Connection>, arcs: seq<Arc>, keepFailed: Arc -> bool)
    ensures Replay(objects, connections, arcs, keepFailed).0 == connections + LiveConnections(Replay(objects, connections, arcs, keepFailed).1)
    decreases |arcs|
  {
    if arcs != [] {
      var c := arcs[0].AsConnection();
      ReplayLive(objects, Connect(objects, connections, c), arcs[1..], keepFailed);
    }
  }

  /** Every arc a replay keeps is a copy of an input arc; it is marked
      missing only when the engine refused it and `keepFailed` accepted it. */
  lemma {:induction false} ReplayKeepsCopies(objects: seq<NodeObject>, connections: seq<Connection>, arcs: seq<Arc>, keepFailed: Arc -> bool)
    ensures forall b :: b in Replay(objects, connections, arcs, keepFailed).1 ==>
              exists a :: a in arcs && b == a.(missing := b.missing) && (b.missing ==> keepFailed(a))
    decreases |arcs|
  {
    if arcs != [] {
      var c := arcs[0].AsConnection();
      ReplayKeepsCopies(objects, Connect(objects, connections, c), arcs[1..], keepFailed);
      forall b | b in Replay(objects, connections, arcs, keepFailed).1
        ensures exists a :: a in arcs && b == a.(missing := b.missing) && (b.missing ==> keepFailed(a))
      {
        if b in Replay(objects, Connect(objects, connections, c), arcs[1..], keepFailed).1 {
          var a :| a in arcs[1..] && b == a.(missing := b.missing) && (b.missing ==> keepFailed(a));
          assert a in arcs;
        } else {
          assert b == arcs[0].(missing := b.missing);
        }
      }
    }
  }

  /** Every input arc that `keepFailed` accepts survives a replay, live or
      marked missing. */
  lemma {:induction false} ReplayKeepsAccepted(objects: seq<NodeObject>, connections: seq<Connection>, arcs: seq<Arc>, keepFailed: Arc -> bool)
    ensures forall a :: a in arcs && keepFailed(a) ==>
              a.(missing := false) in Replay(objects, connections, arcs, keepFailed).1
              || a.(missing := true) in Replay(objects, connections, arcs, keepFailed).1
    decreases |arcs|
  {
    if arcs != [] {
      var c := arcs[0].AsConnection();
      ReplayKeepsAccepted(objects, Connect(objects, connections, c), arcs[1..], keepFailed);
      forall a | a in arcs && keepFailed(a)
        ensures a.(missing := false) in Replay(objects, connections, arcs, keepFailed).1
                || a.(missing := true) in Replay(objects, connections, arcs, keepFailed).1
      {
        if a != arcs[0] {
          assert a in arcs[1..];
        }
      }
    }
  }

  /** A replay ends with every legal connection one of its arcs stands
      for, whether it was already there or the replay added it. */
  lemma {:induction false} ReplayAddsLegal(objects: seq<NodeObject>, connections: seq<Connection>, arcs: seq<Arc>, keepFailed: Arc -> bool)
    ensures forall a :: a in arcs && Legal(objects, a.AsConnection()) ==> a.AsConnection() in Replay(objects, connections, arcs, keepFailed).0
    decreases |arcs|
  {
    if arcs != [] {
      var c := arcs[0].AsConnection();
      var next := Connect(objects, connections, c);
      ReplayAddsLegal(objects, next, arcs[1..], keepFailed);
      ReplayLive(objects, next, arcs[1..], keepFailed);
      forall a | a in arcs && Legal(objects, a.AsConnection())
        ensures a.AsConnection() in Replay(objects, connections, arcs, keepFailed).0
      {
        if a == arcs[0] {
          assert c in next;
        } else {
          assert a in arcs[1..];
        }
      }
    }
  }

  /** A replay keeps the engine's connection table free of duplicates and of
      connections to absent nodes. */
  lemma {:induction false} ReplayKeepsTable(objects: seq<NodeObject>, connections: seq<Connection>, arcs: seq<Arc>, keepFailed: Arc -> bool)
    requires NoDuplicates(connections) && EndpointsExist(objects, connections)
    ensures NoDuplicates(Replay(objects, connections, arcs, keepFailed).0)
    ensures EndpointsExist(objects, Replay(objects, connections, arcs, keepFailed).0)
    decreases |arcs|
  {
    if arcs != [] {
      var c := arcs[0].AsConnection();
      ConnectKeepsTable(objects, connections, c);
      ReplayKeepsTable(objects, Connect(objects, connections, c), arcs[1..], keepFailed);
    }
  }

  /** When every arc is refused and may be kept, a replay keeps all of them
      as missing and adds nothing. */
  lemma {:induction false} ReplayOfNothingNew(objects: seq<NodeObject>, connections: seq<Connection>, arcs: seq<Arc>, keepFailed: Arc -> bool)
    requires forall i :: 0 <= i < |arcs| ==> arcs[i].AsConnection() in connections
    ensures Replay(objects, connections, arcs, keepFailed).0 == connections
    decreases |arcs|
  {
    if arcs != [] {
      ReplayOfNothingNew(objects, connections, arcs[1..], keepFailed);
    }
  }

  function KeepAll(): Arc -> bool
  {
    (a: Arc) => true
  }

  function IsMissing(): Arc -> bool
  {
    (a: Arc) => a.missing
  }

  /** An arc refused while loading is kept when both of its nodes are in
      the document. */
  function KeepAnchored(nodes: seq<NodeModel>): Arc -> bool
  {
    (a: Arc) => HasModelNode(nodes, a.sourceNode) && HasModelNode(nodes, a.destNode)
  }

  /**
   * Loading keeps exactly the arcs whose two nodes are in the document:
   * each kept arc has both nodes, and each arc with both nodes is kept,
   * live or marked missing.
   */
  lemma LoadKeepsAnchoredArcs(objects: seq<NodeObject>, nodes: seq<NodeModel>, arcs: seq<Arc>)
    requires ModelIds(nodes) == Ids(objects)
    ensures forall b :: b in Replay(objects, [], arcs, KeepAnchored(nodes)).1 ==>
              HasModelNode(nodes, b.sourceNode) && HasModelNode(nodes, b.destNode)
    ensures forall a :: a in arcs && HasModelNode(nodes, a.sourceNode) && HasModelNode(nodes, a.destNode) ==>
              a.(missing := false) in Replay(objects, [], arcs, KeepAnchored(nodes)).1
              || a.(missing := true) in Replay(objects, [], arcs, KeepAnchored(nodes)).1
  {
    var r := Replay(objects, [], arcs, KeepAnchored(nodes));
    ReplayKeepsCopies(objects, [], arcs, KeepAnchored(nodes));
    ReplayKeepsAccepted(objects, [], arcs, KeepAnchored(nodes));
    ReplayLive(objects, [], arcs, KeepAnchored(nodes));
    ReplayKeepsTable(objects, [], arcs, KeepAnchored(nodes));
    forall b | b in r.1
      ensures HasModelNode(nodes, b.sourceNode) && HasModelNode(nodes, b.destNode)
    {
      var a :| a in arcs && b == a.(missing := b.missing) && (b.missing ==> KeepAnchored(nodes)(a));
      if !b.missing {
        LiveMember(r.1, b);
        assert b.AsConnection() in r.0;
        SameIdsSameNodes(nodes, objects, b.sourceNode);
        SameIdsSameNodes(nodes, objects, b.destNode);
      }
    }
  }

  lemma {:induction false} LiveMember(arcs: seq<Arc>, b: Arc)
    requires b in arcs && !b.missing
    ensures b.AsConnection() in LiveConnections(arcs)
    decreases |arcs|
  {
    if arcs[0] != b {
      LiveMember(arcs[1..], b);
    }
  }

  /**
   * The arc table rebuilt after the engine's connections changed: one live
   * arc per connection, in order, followed by a copy of every arc that was
   * marked missing, tried once more and left missing only if the engine
   * still refuses it.  Answers the final connection table and arc table.
   */
  function ArcsChanged(objects: seq<NodeObject>, connections: seq<Connection>, arcs: seq<Arc>): (r: (seq<Connection>, seq<Arc>))
    ensures LiveConnections(r.1) == r.0
    ensures |r.0| >= |connections| && r.0[..|connections|] == connections
  {
    var retried := Replay(objects, connections, Filter(arcs, IsMissing()), KeepAll());
    ReplayLive(objects, connections, Filter(arcs, IsMissing()), KeepAll());
    LiveConnectionsAppend(ArcsOf(connections), retried.1);
    LiveConnectionsOfArcs(connections);
    (retried.0, ArcsOf(connections) + retried.1)
  }

  /** With no arc marked missing, the rebuilt arc table mirrors the
      connection table exactly and no connection is added. */
  lemma ArcsChangedWithoutMissing(objects: seq<NodeObject>, connections: seq<Connection>, arcs: seq<Arc>)
    requires MissingCount(arcs) == 0
    ensures ArcsChanged(objects, connections, arcs) == (connections, ArcsOf(connections))
    ensures MissingCount(ArcsChanged(objects, connections, arcs).1) == 0
  {
    NoMissingFilter(arcs);
    NoMissingArcsOf(connections);
    assert Replay(objects, connections, [], KeepAll()) == (connections, []);
    assert ArcsOf(connections) + [] == ArcsOf(connections);
  }

  lemma {:induction false} NoMissingFilter(arcs: seq<Arc>)
    requires MissingCount(arcs) == 0
    ensures Filter(arcs, IsMissing()) == []
    decreases |arcs|
  {
    if arcs != [] {
      NoMissingFilter(arcs[1..]);
    }
  }

  lemma {:induction false} NoMissingArcsOf(connections: seq<Connection>)
    ensures MissingCount(ArcsOf(connections)) == 0
    decreases |connections|
  {
    if connections != [] {
      assert ArcsOf(connections)[1..] == ArcsOf(connections[1..]);
      NoMissingArcsOf(connections[1..]);
    }
  }

  /** Every missing arc keeps a copy through a rebuild, live or still
      marked missing. */
  lemma ArcsChangedKeepsMissing(objects: seq<NodeObject>, connections: seq<Connection>, arcs: seq<Arc>)
    ensures forall a :: a in arcs && a.missing ==>
              a.(missing := false) in ArcsChanged(objects, connections, arcs).1
              || a in ArcsChanged(objects, connections, arcs).1
  {
    var missing := Filter(arcs, IsMissing());
    FilterMembers(arcs, IsMissing());
    ReplayKeepsAccepted(objects, connections, missing, KeepAll());
    forall a | a in arcs && a.missing
      ensures a.(missing := false) in ArcsChanged(objects, connections, arcs).1
              || a in ArcsChanged(objects, connections, arcs).1
    {
      assert a in missing;
      assert a.(missing := true) == a;
    }
  }

  /** A rebuild brings back every legal connection that an arc marked
      missing stands for, even one that was just deleted from the table. */
  lemma RebuildRestores(objects: seq<NodeObject>, connections: seq<Connection>, arcs: seq<Arc>, a: Arc)
    requires a in arcs && a.missing && Legal(objects, a.AsConnection())
    ensures a.AsConnection() in ArcsChanged(objects, connections, arcs).0
  {
    FilterMembers(arcs, IsMissing());
    ReplayAddsLegal(objects, connections, Filter(arcs, IsMissing()), KeepAll());
  }

  // ---------------------------------------------------------------------
  // Loading node records

  /** What loading a node record into the engine produced. */
  datatype Outcome = Created(ports: seq<Port>) | Substituted | Failed

  /** A node record loads as a real processor when the factory can create
      one, otherwise as a placeholder when the engine accepts that, and
      otherwise fails. */
  function OutcomeOf(n: NodeModel, factory: Descriptor -> Option<seq<Port>>, placeholderAccepted: NodeModel -> bool): (o: Outcome)
    ensures o.Created? <==> factory(n.desc).Some?
    ensures o.Failed? <==> factory(n.desc).None? && !placeholderAccepted(n)
  {
    match factory(n.desc)
    case Some(ports) => Created(ports)
    case None => if placeholderAccepted(n) then Substituted else Failed
  }

  /** The node record that loading `n` leaves: a created node takes the
      ports of its processor, a placeholder is marked missing, a failure
      leaves none. */
  function LoadedRecord(n: NodeModel, factory: Descriptor -> Option<seq<Port>>, placeholderAccepted: NodeModel -> bool): (r: seq<NodeModel>)
    ensures |r| <= 1
    ensures r == [] <==> OutcomeOf(n, factory, placeholderAccepted).Failed?
    ensures r != [] ==> r[0].nodeId == n.nodeId && r[0].desc == n.desc
  {
    match OutcomeOf(n, factory, placeholderAccepted)
    case Created(ports) => [n.(ports := ports)]
    case Substituted => [n.(missing := true)]
    case Failed => []
  }

  /** The engine node that loading `n` makes, if any. */
  function LoadedObject(n: NodeModel, factory: Descriptor -> Option<seq<Port>>, placeholderAccepted: NodeModel -> bool): (r: seq<NodeObject>)
    ensures |r| == |LoadedRecord(n, factory, placeholderAccepted)|
    ensures r != [] ==> r[0].nodeId == n.nodeId
  {
    match OutcomeOf(n, factory, placeholderAccepted)
    case Created(ports) => [NodeObject(n.nodeId, Instance(n.desc), ports)]
    case Substituted => [NodeObject(n.nodeId, Placeholder(n.desc), n.ports)]
    case Failed => []
  }

  /** The node records left after loading, in document order. */
  function LoadedRecords(graphNodes: seq<NodeModel>, factory: Descriptor -> Option<seq<Port>>, placeholderAccepted: NodeModel -> bool): (r: seq<NodeModel>)
    ensures |r| <= |graphNodes|
  {
    if graphNodes == [] then []
    else LoadedRecord(graphNodes[0], factory, placeholderAccepted) + LoadedRecords(graphNodes[1..], factory, placeholderAccepted)
  }

  /** The engine nodes made while loading, in document order. */
  function LoadedObjects(graphNodes: seq<NodeModel>, factory: Descriptor -> Option<seq<Port>>, placeholderAccepted: NodeModel -> bool): (r: seq<NodeObject>)
    ensures |r| <= |graphNodes|
  {
    if graphNodes == [] then []
    else LoadedObject(graphNodes[0], factory, placeholderAccepted) + LoadedObjects(graphNodes[1..], factory, placeholderAccepted)
  }

  /** Loading one more record extends both tables by what that record made. */
  lemma LoadedAppend(a: seq<NodeModel>, n: NodeModel, factory: Descriptor -> Option<seq<Port>>, placeholderAccepted: NodeModel -> bool)
    ensures LoadedRecords(a + [n], factory, placeholderAccepted) == LoadedRecords(a, factory, placeholderAccepted) + LoadedRecords([n], factory, placeholderAccepted)
    ensures LoadedObjects(a + [n], factory, placeholderAccepted) == LoadedObjects(a, factory, placeholderAccepted) + LoadedObjects([n], factory, placeholderAccepted)
  {
    LoadedRecordsAppend(a, n, factory, placeholderAccepted);
    LoadedObjectsAppend(a, n, factory, placeholderAccepted);
  }

  lemma {:induction false} LoadedRecordsAppend(a: seq<NodeModel>, n: NodeModel, factory: Descriptor -> Option<seq<Port>>, placeholderAccepted: NodeModel -> bool)
    ensures LoadedRecords(a + [n], factory, placeholderAccepted) == LoadedRecords(a, factory, placeholderAccepted) + LoadedRecords([n], factory, placeholderAccepted)
    decreases |a|
  {
    if a == [] {
      assert a + [n] == [n];
    } else {
      assert (a + [n])[1..] == a[1..] + [n];
      LoadedRecordsAppend(a[1..], n, factory, placeholderAccepted);
      var head, rest, last := LoadedRecord(a[0], factory, placeholderAccepted), LoadedRecords(a[1..], factory, placeholderAccepted), LoadedRecords([n], factory, placeholderAccepted);
      assert head + (rest + last) == (head + rest) + last;
    }
  }

  lemma {:induction false} LoadedObjectsAppend(a: seq<NodeModel>, n: NodeModel, factory: Descriptor -> Option<seq<Port>>, placeholderAccepted: NodeModel -> bool)
    ensures LoadedObjects(a + [n], factory, placeholderAccepted) == LoadedObjects(a, factory, placeholderAccepted) + LoadedObjects([n], factory, placeholderAccepted)
    decreases |a|
  {
    if a == [] {
      assert a + [n] == [n];
    } else {
      assert (a + [n])[1..] == a[1..] + [n];
      LoadedObjectsAppend(a[1..], n, factory, placeholderAccepted);
      var head, rest, last := LoadedObject(a[0], factory, placeholderAccepted), LoadedObjects(a[1..], factory, placeholderAccepted), LoadedObjects([n], factory, placeholderAccepted);
      assert head + (rest + last) == (head + rest) + last;
    }
  }

  /** The document and the engine end up listing the same ids, and each
      loaded id is one of the records' ids. */
  lemma LoadedIds(graphNodes: seq<NodeModel>, factory: Descriptor -> Option<seq<Port>>, placeholderAccepted: NodeModel -> bool)
    ensures ModelIds(LoadedRecords(graphNodes, factory, placeholderAccepted)) == Ids(LoadedObjects(graphNodes, factory, placeholderAccepted))
    ensures forall i :: 0 <= i < |LoadedObjects(graphNodes, factory, placeholderAccepted)| ==>
              LoadedObjects(graphNodes, factory, placeholderAccepted)[i].nodeId in ModelIds(graphNodes)
  {
    LoadedIdsMatch(graphNodes, factory, placeholderAccepted);
    LoadedIdsAmong(graphNodes, factory, placeholderAccepted);
  }

  lemma ModelIdsAppend(a: seq<NodeModel>, b: seq<NodeModel>)
    ensures ModelIds(a + b) == ModelIds(a) + ModelIds(b)
  {
  }

  lemma IdsAppend(a: seq<NodeObject>, b: seq<NodeObject>)
    ensures Ids(a + b) == Ids(a) + Ids(b)
  {
  }

  lemma {:induction false} LoadedIdsMatch(graphNodes: seq<NodeModel>, factory: Descriptor -> Option<seq<Port>>, placeholderAccepted: NodeModel -> bool)
    ensures ModelIds(LoadedRecords(graphNodes, factory, placeholderAccepted)) == Ids(LoadedObjects(graphNodes, factory, placeholderAccepted))
    decreases |graphNodes|
  {
    if graphNodes != [] {
      LoadedIdsMatch(graphNodes[1..], factory, placeholderAccepted);
      var hr, rr := LoadedRecord(graphNodes[0], factory, placeholderAccepted), LoadedRecords(graphNodes[1..], factory, placeholderAccepted);
      var ho, ro := LoadedObject(graphNodes[0], factory, placeholderAccepted), LoadedObjects(graphNodes[1..], factory, placeholderAccepted);
      ModelIdsAppend(hr, rr);
      IdsAppend(ho, ro);
      assert ModelIds(hr) == Ids(ho);
    }
  }

  lemma {:induction false} LoadedIdsAmong(graphNodes: seq<NodeModel>, factory: Descriptor -> Option<seq<Port>>, placeholderAccepted: NodeModel -> bool)
    ensures forall i :: 0 <= i < |LoadedObjects(graphNodes, factory, placeholderAccepted)| ==>
              LoadedObjects(graphNodes, factory, placeholderAccepted)[i].nodeId in ModelIds(graphNodes)
    decreases |graphNodes|
  {
    if graphNodes != [] {
      LoadedIdsAmong(graphNodes[1..], factory, placeholderAccepted);
      var ho, rest := LoadedObject(graphNodes[0], factory, placeholderAccepted), LoadedObjects(graphNodes[1..], factory, placeholderAccepted);
      var all := ho + rest;
      forall i | 0 <= i < |all|
        ensures all[i].nodeId in ModelIds(graphNodes)
      {
        if i < |ho| {
          assert ModelIds(graphNodes)[0] == all[i].nodeId;
        } else {
          assert all[i] == rest[i - |ho|];
          var j :| 0 <= j < |graphNodes[1..]| && ModelIds(graphNodes[1..])[j] == all[i].nodeId;
          assert ModelIds(graphNodes)[j + 1] == all[i].nodeId;
        }
      }
    }
  }

  /** A record is kept by loading exactly when it did not fail. */
  lemma {:induction false} LoadedRecordsKeep(graphNodes: seq<NodeModel>, factory: Descriptor -> Option<seq<Port>>, placeholderAccepted: NodeModel -> bool, i: nat)
    requires i < |graphNodes|
    requires forall j, k :: 0 <= j < k < |graphNodes| ==> graphNodes[j].nodeId != graphNodes[k].nodeId
    ensures HasModelNode(LoadedRecords(graphNodes, factory, placeholderAccepted), graphNodes[i].nodeId)
            <==> !OutcomeOf(graphNodes[i], factory, placeholderAccepted).Failed?
    decreases |graphNodes|
  {
    var r := LoadedRecords(graphNodes, factory, placeholderAccepted);
    var rest := LoadedRecords(graphNodes[1..], factory, placeholderAccepted);
    var id := graphNodes[i].nodeId;
    if i == 0 {
      RestLacksId(graphNodes, factory, placeholderAccepted);
      if !OutcomeOf(graphNodes[0], factory, placeholderAccepted).Failed? {
        assert r[0].nodeId == id;
      } else {
        assert r == rest;
      }
    } else {
      LoadedRecordsKeep(graphNodes[1..], factory, placeholderAccepted, i - 1);
      assert graphNodes[1..][i - 1] == graphNodes[i];
      var head := r[..|r| - |rest|];
      assert r == head + rest;
      assert forall k :: 0 <= k < |head| ==> head[k].nodeId == graphNodes[0].nodeId;
      if HasModelNode(rest, id) {
        var k :| 0 <= k < |rest| && rest[k].nodeId == id;
        assert r[|head| + k].nodeId == id;
      }
      if HasModelNode(r, id) {
        var k :| 0 <= k < |r| && r[k].nodeId == id;
        assert k >= |head|;
        assert rest[k - |head|].nodeId == id;
      }
    }
  }

  /** The records after the first never carry the first record's id. */
  lemma {:induction false} RestLacksId(graphNodes: seq<NodeModel>, factory: Descriptor -> Option<seq<Port>>, placeholderAccepted: NodeModel -> bool)
    requires graphNodes != []
    requires forall j, k :: 0 <= j < k < |graphNodes| ==> graphNodes[j].nodeId != graphNodes[k].nodeId
    ensures !HasModelNode(LoadedRecords(graphNodes[1..], factory, placeholderAccepted), graphNodes[0].nodeId)
  {
    LoadedIds(graphNodes[1..], factory, placeholderAccepted);
  }

  // ---------------------------------------------------------------------
  // Input/output nodes

  /** Which input/output nodes the graph wants, as decided from the graph's
      settings and the channels and MIDI abilities of its processor. */
  datatype Wants = Wants(audioIn: bool, audioOut: bool, midiIn: bool, midiOut: bool)
  {
    predicate Wanted(t: IODeviceType)
    {
      match t
      case AudioInputNode => audioIn
      case AudioOutputNode => audioOut
      case MidiInputNode => midiIn
      case MidiOutputNode => midiOut
    }
  }

  predicate IsIOOf(n: NodeObject, t: IODeviceType)
  {
    n.processor == Instance(IODescriptor(t))
  }

  predicate HasIO(objects: seq<NodeObject>, t: IODeviceType)
  {
    exists i :: 0 <= i < |objects| && IsIOOf(objects[i], t)
  }

  /** No two different nodes are input/output nodes of the same kind. */
  predicate AtMostOnePerKind(objects: seq<NodeObject>)
  {
    forall m, n :: m in objects && n in objects && m.IsIONode() && m.processor == n.processor ==> m == n
  }

  /** The id of the last input/output node of a kind, scanning in table
      order, or nothing. */
  function LastIONode(objects: seq<NodeObject>, t: IODeviceType): (r: Option<nat>)
    ensures r.Some? <==> HasIO(objects, t)
    ensures r.Some? ==> exists i :: 0 <= i < |objects| && IsIOOf(objects[i], t) && objects[i].nodeId == r.value
  {
    if objects == [] then None
    else if IsIOOf(objects[|objects| - 1], t) then Some(objects[|objects| - 1].nodeId)
    else
      var r := LastIONode(objects[..|objects| - 1], t);
      assert HasIO(objects, t) ==> HasIO(objects[..|objects| - 1], t) by {
        if HasIO(objects, t) {
          var i :| 0 <= i < |objects| && IsIOOf(objects[i], t);
          assert objects[..|objects| - 1][i] == objects[i];
        }
      }
      if r.Some? then
        var i :| 0 <= i < |objects| - 1 && IsIOOf(objects[..|objects| - 1][i], t) && objects[..|objects| - 1][i].nodeId == r.value;
        assert objects[i] == objects[..|objects| - 1][i];
        r
      else r
  }

  /** The ids of the input/output nodes to remove: those of the kinds among
      the first `k` that exist but are not wanted. */
  function Removals(objects: seq<NodeObject>, wants: Wants, k: nat): seq<nat>
    requires k <= NumDeviceTypes
  {
    if k == 0 then []
    else
      var t := DeviceTypeAt(k - 1);
      Removals(objects, wants, k - 1)
      + (if HasIO(objects, t) && !wants.Wanted(t) then [LastIONode(objects, t).value] else [])
  }

  /** Whether enforcing creates a node of kind `t`: the kind is wanted,
      absent, and the factory can create its processor. */
  predicate Planned(objects: seq<NodeObject>, wants: Wants, factory: Descriptor -> Option<seq<Port>>, t: IODeviceType)
  {
    !HasIO(objects, t) && wants.Wanted(t) && factory(IODescriptor(t)).Some?
  }

  /** The engine nodes created for the planned kinds among the first `k`,
      in kind order, numbered on from `lastId`. */
  function AddedIONodes(objects: seq<NodeObject>, wants: Wants, factory: Descriptor -> Option<seq<Port>>, lastId: nat, k: nat): (r: seq<NodeObject>)
    requires k <= NumDeviceTypes
    ensures |r| <= k
    ensures forall i :: 0 <= i < |r| ==> r[i].nodeId == lastId + 1 + i
  {
    if k == 0 then []
    else
      var prev := AddedIONodes(objects, wants, factory, lastId, k - 1);
      var t := DeviceTypeAt(k - 1);
      if Planned(objects, wants, factory, t)
      then prev + [NodeObject(lastId + 1 + |prev|, Instance(IODescriptor(t)), factory(IODescriptor(t)).value)]
      else prev
  }

  /** Taking one more kind into account appends at most the node of that
      kind. */
  lemma AddedIONodesMembersStep(objects: seq<NodeObject>, wants: Wants, factory: Descriptor -> Option<seq<Port>>, lastId: nat, k: nat)
    requires 0 < k <= NumDeviceTypes
    ensures var t := DeviceTypeAt(k - 1);
            forall m :: m in AddedIONodes(objects, wants, factory, lastId, k) <==>
              m in AddedIONodes(objects, wants, factory, lastId, k - 1)
              || (Planned(objects, wants, factory, t)
                  && m == NodeObject(lastId + 1 + |AddedIONodes(objects, wants, factory, lastId, k - 1)|,
                                     Instance(IODescriptor(t)), factory(IODescriptor(t)).value))
  {
  }

  /** The created nodes carry fresh ids and are input/output nodes of
      planned kinds among the first `k`. */
  lemma {:induction false} AddedIONodesMembers(objects: seq<NodeObject>, wants: Wants, factory: Descriptor -> Option<seq<Port>>, lastId: nat, k: nat)
    requires k <= NumDeviceTypes
    ensures forall n :: n in AddedIONodes(objects, wants, factory, lastId, k) ==>
              n.nodeId > lastId && n.IsIONode() && DeviceTypeIndex(n.processor.desc.device) < k
              && Planned(objects, wants, factory, n.processor.desc.device)
  {
    if k > 0 {
      AddedIONodesMembers(objects, wants, factory, lastId, k - 1);
      AddedIONodesMembersStep(objects, wants, factory, lastId, k);
    }
  }

  /** Every planned kind among the first `k` gets a node. */
  lemma {:induction false} AddedIONodesCover(objects: seq<NodeObject>, wants: Wants, factory: Descriptor -> Option<seq<Port>>, lastId: nat, k: nat)
    requires k <= NumDeviceTypes
    ensures forall t :: DeviceTypeIndex(t) < k && Planned(objects, wants, factory, t) ==>
              exists n :: n in AddedIONodes(objects, wants, factory, lastId, k) && IsIOOf(n, t)
  {
    if k > 0 {
      AddedIONodesCover(objects, wants, factory, lastId, k - 1);
      AddedIONodesMembersStep(objects, wants, factory, lastId, k);
      var prev := AddedIONodes(objects, wants, factory, lastId, k - 1);
      var t := DeviceTypeAt(k - 1);
      forall u | DeviceTypeIndex(u) < k && Planned(objects, wants, factory, u)
        ensures exists n :: n in AddedIONodes(objects, wants, factory, lastId, k) && IsIOOf(n, u)
      {
        if DeviceTypeIndex(u) == k - 1 {
          DeviceTypeIndexInjective();
          var n := NodeObject(lastId + 1 + |prev|, Instance(IODescriptor(t)), factory(IODescriptor(t)).value);
          assert IsIOOf(n, u);
        } else {
          var m :| m in prev && IsIOOf(m, u);
        }
      }
    }
  }

  /** No two created nodes share a kind. */
  lemma {:induction false} AddedIONodesOnePerKind(objects: seq<NodeObject>, wants: Wants, factory: Descriptor -> Option<seq<Port>>, lastId: nat, k: nat)
    requires k <= NumDeviceTypes
    ensures AtMostOnePerKind(AddedIONodes(objects, wants, factory, lastId, k))
  {
    if k > 0 {
      AddedIONodesOnePerKind(objects, wants, factory, lastId, k - 1);
      AddedIONodesMembers(objects, wants, factory, lastId, k - 1);
      AddedIONodesOnePerKindStep(objects, wants, factory, lastId, k);
    }
  }

  /** Creating the node of the next kind keeps kinds unique. */
  lemma AddedIONodesOnePerKindStep(objects: seq<NodeObject>, wants: Wants, factory: Descriptor -> Option<seq<Port>>, lastId: nat, k: nat)
    requires 0 < k <= NumDeviceTypes
    requires AtMostOnePerKind(AddedIONodes(objects, wants, factory, lastId, k - 1))
    requires forall m :: m in AddedIONodes(objects, wants, factory, lastId, k - 1) ==>
               m.IsIONode() && DeviceTypeIndex(m.processor.desc.device) < k - 1
    ensures AtMostOnePerKind(AddedIONodes(objects, wants, factory, lastId, k))
  {
    var prev := AddedIONodes(objects, wants, factory, lastId, k - 1);
    var t := DeviceTypeAt(k - 1);
    if Planned(objects, wants, factory, t) {
      var n := NodeObject(lastId + 1 + |prev|, Instance(IODescriptor(t)), factory(IODescriptor(t)).value);
      OnePerKindAppend(prev, n);
    }
  }

  /** Appending a node whose processor no listed node has keeps kinds unique. */
  lemma OnePerKindAppend(objects: seq<NodeObject>, n: NodeObject)
    requires AtMostOnePerKind(objects)
    requires forall m :: m in objects ==> m.processor != n.processor
    ensures AtMostOnePerKind(objects + [n])
  {
  }

  lemma DeviceTypeIndexInjective()
    ensures forall s, t :: DeviceTypeIndex(s) == DeviceTypeIndex(t) ==> s == t
    ensures forall i :: 0 <= i < NumDeviceTypes ==> DeviceTypeIndex(DeviceTypeAt(i)) == i
  {
  }

  /** The ids removed are those of the existing, unwanted kinds. */
  lemma RemovalsAre(objects: seq<NodeObject>, wants: Wants, k: nat)
    requires k <= NumDeviceTypes
    ensures forall id :: id in Removals(objects, wants, k) <==>
              exists t :: DeviceTypeIndex(t) < k && HasIO(objects, t) && !wants.Wanted(t) && LastIONode(objects, t) == Some(id)
  {
    if k > 0 {
      RemovalsAre(objects, wants, k - 1);
      DeviceTypeIndexInjective();
    }
  }

  function KeepIds(ids: seq<nat>): NodeObject -> bool
  {
    (n: NodeObject) => n.nodeId !in ids
  }

  lemma HasIOMember(objects: seq<NodeObject>, t: IODeviceType)
    ensures HasIO(objects, t) <==> exists n :: n in objects && IsIOOf(n, t)
  {
    if exists n :: n in objects && IsIOOf(n, t) {
      var n :| n in objects && IsIOOf(n, t);
      var i :| 0 <= i < |objects| && objects[i] == n;
    }
  }

  /** Each id planned for removal belongs to an old input/output node of an
      unwanted kind, so it is at most `lastId`. */
  lemma RemovalIds(objects: seq<NodeObject>, wants: Wants, lastId: nat)
    requires UniqueIds(objects)
    requires forall i :: 0 <= i < |objects| ==> objects[i].nodeId <= lastId
    ensures forall id :: id in Removals(objects, wants, NumDeviceTypes) ==> id <= lastId
    ensures forall n :: n in objects && n.nodeId in Removals(objects, wants, NumDeviceTypes) ==>
              n.IsIONode() && !wants.Wanted(n.processor.desc.device)
    ensures AtMostOnePerKind(objects) ==>
              forall n :: n in objects && n.IsIONode() && !wants.Wanted(n.processor.desc.device) ==>
                n.nodeId in Removals(objects, wants, NumDeviceTypes)
  {
    RemovalsAre(objects, wants, NumDeviceTypes);
    DeviceTypeIndexInjective();
    UniqueIdsMeans(objects);
    if AtMostOnePerKind(objects) {
      forall n | n in objects && n.IsIONode() && !wants.Wanted(n.processor.desc.device)
        ensures n.nodeId in Removals(objects, wants, NumDeviceTypes)
      {
        var t := n.processor.desc.device;
        var i :| 0 <= i < |objects| && objects[i] == n;
        assert HasIO(objects, t);
        var j :| 0 <= j < |objects| && IsIOOf(objects[j], t) && objects[j].nodeId == LastIONode(objects, t).value;
        assert objects[j] == n;
      }
    }
    forall id | id in Removals(objects, wants, NumDeviceTypes)
      ensures id <= lastId
    {
      var t :| DeviceTypeIndex(t) < NumDeviceTypes && HasIO(objects, t) && !wants.Wanted(t) && LastIONode(objects, t) == Some(id);
      var i :| 0 <= i < |objects| && IsIOOf(objects[i], t) && objects[i].nodeId == id;
    }
    forall n | n in objects && n.nodeId in Removals(objects, wants, NumDeviceTypes)
      ensures n.IsIONode() && !wants.Wanted(n.processor.desc.device)
    {
      var t :| DeviceTypeIndex(t) < NumDeviceTypes && HasIO(objects, t) && !wants.Wanted(t) && LastIONode(objects, t) == Some(n.nodeId);
      var j :| 0 <= j < |objects| && IsIOOf(objects[j], t) && objects[j].nodeId == n.nodeId;
      var i :| 0 <= i < |objects| && objects[i] == n;
      assert objects[i].nodeId == objects[j].nodeId;
    }
  }

  /** The three facts about an enforced table, from what is known of the
      nodes kept, the nodes created and the ids removed. */
  lemma EnforcedFacts(objects: seq<NodeObject>, added: seq<NodeObject>, removals: seq<nat>, r: seq<NodeObject>,
                      wants: Wants, factory: Descriptor -> Option<seq<Port>>)
    requires forall n :: n in r <==> (n in objects || n in added) && n.nodeId !in removals
    requires AtMostOnePerKind(objects) && AtMostOnePerKind(added)
    requires forall n :: n in objects && n.nodeId in removals ==> n.IsIONode() && !wants.Wanted(n.processor.desc.device)
    requires forall n :: n in objects && n.IsIONode() && !wants.Wanted(n.processor.desc.device) ==> n.nodeId in removals
    requires forall n :: n in added ==>
               n.nodeId !in removals && n.IsIONode() && Planned(objects, wants, factory, n.processor.desc.device)
    requires forall t :: Planned(objects, wants, factory, t) ==> exists n :: n in added && IsIOOf(n, t)
    ensures forall t :: HasIO(r, t) <==> wants.Wanted(t) && (HasIO(objects, t) || factory(IODescriptor(t)).Some?)
    ensures AtMostOnePerKind(r)
    ensures forall n :: n in objects && !n.IsIONode() ==> n in r
  {
    forall t
      ensures HasIO(r, t) <==> wants.Wanted(t) && (HasIO(objects, t) || factory(IODescriptor(t)).Some?)
    {
      HasIOMember(r, t);
      HasIOMember(objects, t);
      if HasIO(objects, t) {
        var n :| n in objects && IsIOOf(n, t);
        if wants.Wanted(t) {
          assert n in r;
        }
      } else if wants.Wanted(t) && factory(IODescriptor(t)).Some? {
        assert Planned(objects, wants, factory, t);
        var n :| n in added && IsIOOf(n, t);
        assert n in r;
      }
    }
    forall m, n | m in r && n in r && m.IsIONode() && m.processor == n.processor
      ensures m == n
    {
      var t := m.processor.desc.device;
      HasIOMember(objects, t);
      if m in added && n in objects {
        assert IsIOOf(n, t);
      } else if n in added && m in objects {
        assert IsIOOf(m, t);
      }
    }
  }

  /**
   * What enforcing the input/output nodes does to a node table whose ids
   * are unique and at most `lastId`: afterwards a kind is present exactly
   * when it is wanted and was either present or creatable, no kind is
   * present twice, and every other node stays.
   */
  lemma EnforceIONodes(objects: seq<NodeObject>, wants: Wants, factory: Descriptor -> Option<seq<Port>>, lastId: nat)
    requires UniqueIds(objects) && AtMostOnePerKind(objects)
    requires forall i :: 0 <= i < |objects| ==> objects[i].nodeId <= lastId
    ensures var r := EnforcedNodes(objects, wants, factory, lastId);
            && (forall t :: HasIO(r, t) <==> wants.Wanted(t) && (HasIO(objects, t) || factory(IODescriptor(t)).Some?))
            && AtMostOnePerKind(r)
            && (forall n :: n in objects && !n.IsIONode() ==> n in r)
  {
    var added := AddedIONodes(objects, wants, factory, lastId, NumDeviceTypes);
    var removals := Removals(objects, wants, NumDeviceTypes);
    var r := EnforcedNodes(objects, wants, factory, lastId);
    RemovalIds(objects, wants, lastId);
    AddedIONodesMembers(objects, wants, factory, lastId, NumDeviceTypes);
    AddedIONodesCover(objects, wants, factory, lastId, NumDeviceTypes);
    AddedIONodesOnePerKind(objects, wants, factory, lastId, NumDeviceTypes);
    FilterMembers(objects + added, KeepIds(removals));
    EnforcedFacts(objects, added, removals, r, wants, factory);
  }

  /** The node table after enforcing the input/output nodes: the new nodes
      appended, then the unwanted ones taken out. */
  function EnforcedNodes(objects: seq<NodeObject>, wants: Wants, factory: Descriptor -> Option<seq<Port>>, lastId: nat): seq<NodeObject>
  {
    Filter(objects + AddedIONodes(objects, wants, factory, lastId, NumDeviceTypes),
           KeepIds(Removals(objects, wants, NumDeviceTypes)))
  }

  /** A table that has exactly the wanted kinds plans nothing. */
  lemma {:induction false} NothingToEnforce(objects: seq<NodeObject>, wants: Wants, factory: Descriptor -> Option<seq<Port>>, k: nat)
    requires k <= NumDeviceTypes
    requires forall t :: HasIO(objects, t) ==> wants.Wanted(t)
    requires forall t :: wants.Wanted(t) && factory(IODescriptor(t)).Some? ==> HasIO(objects, t)
    ensures Removals(objects, wants, k) == []
    ensures forall lastId: nat :: AddedIONodes(objects, wants, factory, lastId, k) == []
  {
    if k > 0 {
      NothingToEnforce(objects, wants, factory, k - 1);
    }
  }

  /** Once enforced, enforcing again with the same wants and factory plans
      neither a removal nor an addition. */
  lemma EnforceIONodesIdempotent(objects: seq<NodeObject>, wants: Wants, factory: Descriptor -> Option<seq<Port>>, lastId: nat)
    requires UniqueIds(objects) && AtMostOnePerKind(objects)
    requires forall i :: 0 <= i < |objects| ==> objects[i].nodeId <= lastId
    ensures Removals(EnforcedNodes(objects, wants, factory, lastId), wants, NumDeviceTypes) == []
    ensures forall nextId: nat :: AddedIONodes(EnforcedNodes(objects, wants, factory, lastId), wants, factory, nextId, NumDeviceTypes) == []
  {
    var r := EnforcedNodes(objects, wants, factory, lastId);
    EnforceIONodes(objects, wants, factory, lastId);
    RemovalsAre(r, wants, NumDeviceTypes);
    NothingToEnforce(r, wants, factory, NumDeviceTypes);
  }

  /** The kind's last input/output node lies at or after any node of that
      kind. */
  lemma {:induction false} LastIONodeIsLast(objects: seq<NodeObject>, t: IODeviceType, j: nat)
    requires j < |objects| && IsIOOf(objects[j], t)
    ensures HasIO(objects, t)
    ensures exists k :: j <= k < |objects| && IsIOOf(objects[k], t) && objects[k].nodeId == LastIONode(objects, t).value
    decreases |objects|
  {
    var last := |objects| - 1;
    if IsIOOf(objects[last], t) {
      assert IsIOOf(objects[last], t) && objects[last].nodeId == LastIONode(objects, t).value;
    } else {
      var prefix := objects[..last];
      assert prefix[j] == objects[j];
      LastIONodeIsLast(prefix, t, j);
      var k :| j <= k < |prefix| && IsIOOf(prefix[k], t) && prefix[k].nodeId == LastIONode(prefix, t).value;
      assert objects[k] == prefix[k];
    }
  }

  /**
   * The enforcer removes only the last node of an unwanted kind. So when a
   * table holds two input/output nodes of one kind, the earlier one
   * survives enforcement, whatever is wanted.
   */
  lemma EarlierDuplicateSurvives(objects: seq<NodeObject>, wants: Wants, factory: Descriptor -> Option<seq<Port>>, lastId: nat, t: IODeviceType, i: nat, j: nat)
    requires UniqueIds(objects)
    requires i < j < |objects| && IsIOOf(objects[i], t) && IsIOOf(objects[j], t)
    ensures objects[i] in EnforcedNodes(objects, wants, factory, lastId)
  {
    var removals := Removals(objects, wants, NumDeviceTypes);
    UniqueIdsMeans(objects);
    RemovalsAre(objects, wants, NumDeviceTypes);
    if objects[i].nodeId in removals {
      var u :| DeviceTypeIndex(u) < NumDeviceTypes && HasIO(objects, u) && !wants.Wanted(u) && LastIONode(objects, u) == Some(objects[i].nodeId);
      var m :| 0 <= m < |objects| && IsIOOf(objects[m], u) && objects[m].nodeId == objects[i].nodeId;
      assert m == i;
      assert u == t;
      LastIONodeIsLast(objects, t, j);
      assert false;
    }
    FilterMembers(objects + AddedIONodes(objects, wants, factory, lastId, NumDeviceTypes), KeepIds(removals));
  }
}
