/**
 * The graph manager: it owns a graph's document (node and arc records)
 * and keeps it in step with the engine graph.  Every change to the
 * engine's connections is followed by a rebuild of the arc records.
 */
module GraphManagerModel {
  import opened Optional
  import opened Seqs
  import opened Graph
  import opened GraphModel

  /** Whether disconnecting `nodeId` with the given switches takes away
      connection `c`. */
  predicate Detaches(objects: seq<NodeObject>, c: Connection, nodeId: nat, inputs: bool, outputs: bool, audio: bool, midi: bool)
  {
    && ((outputs && c.sourceNode == nodeId) || (inputs && c.destNode == nodeId))
    && ((audio && PortTypeOf(objects, c.sourceNode, c.sourcePort) == Audio && PortTypeOf(objects, c.destNode, c.destPort) == Audio)
        || (midi && PortTypeOf(objects, c.sourceNode, c.sourcePort) == Midi && PortTypeOf(objects, c.destNode, c.destPort) == Midi))
  }

  function KeepAttached(objects: seq<NodeObject>, nodeId: nat, inputs: bool, outputs: bool, audio: bool, midi: bool): Connection -> bool
  {
    (c: Connection) => !Detaches(objects, c, nodeId, inputs, outputs, audio, midi)
  }

  function KeepRecord(id: nat): NodeModel -> bool
  {
    (n: NodeModel) => n.nodeId != id
  }

  /** Taking the same id out of the document and the engine keeps their id
      lists equal. */
  lemma {:induction false} RemoveSameId(records: seq<NodeModel>, objects: seq<NodeObject>, id: nat)
    requires ModelIds(records) == Ids(objects)
    ensures ModelIds(Filter(records, KeepRecord(id))) == Ids(Filter(objects, KeepNode(id)))
    decreases |records|
  {
    if records != [] {
      assert records[0].nodeId == objects[0].nodeId;
      assert ModelIds(records[1..]) == Ids(objects[1..]) by {
        assert ModelIds(records)[1..] == ModelIds(records[1..]);
        assert Ids(objects)[1..] == Ids(objects[1..]);
      }
      RemoveSameId(records[1..], objects[1..], id);
      var fr, fo := Filter(records[1..], KeepRecord(id)), Filter(objects[1..], KeepNode(id));
      if records[0].nodeId != id {
        assert Filter(records, KeepRecord(id)) == [records[0]] + fr;
        assert Filter(objects, KeepNode(id)) == [objects[0]] + fo;
        assert ([records[0]] + fr)[1..] == fr && ([objects[0]] + fo)[1..] == fo;
      } else {
        assert Filter(records, KeepRecord(id)) == fr;
        assert Filter(objects, KeepNode(id)) == fo;
      }
    }
  }

  /** With unique ids, taking out the one record of an id leaves the others. */
  lemma FilterOneRecord(records: seq<NodeModel>, p: nat, id: nat)
    requires p < |records| && records[p].nodeId == id
    requires forall i, j :: 0 <= i < j < |records| ==> records[i].nodeId != records[j].nodeId
    ensures Filter(records, KeepRecord(id)) == records[..p] + records[p + 1..]
  {
    KeepOtherRecords(records, p, id);
    FilterDropsOne(records, p, KeepRecord(id));
  }

  /** With unique ids, the records before and after the one of an id all
      carry other ids. */
  lemma KeepOtherRecords(records: seq<NodeModel>, p: nat, id: nat)
    requires p < |records| && records[p].nodeId == id
    requires forall i, j :: 0 <= i < j < |records| ==> records[i].nodeId != records[j].nodeId
    ensures Filter(records[..p], KeepRecord(id)) == records[..p]
    ensures Filter(records[p + 1..], KeepRecord(id)) == records[p + 1..]
  {
    var front, back := records[..p], records[p + 1..];
    forall i | 0 <= i < |front|
      ensures KeepRecord(id)(front[i])
    {
      assert front[i] == records[i];
    }
    forall i | 0 <= i < |back|
      ensures KeepRecord(id)(back[i])
    {
      assert back[i] == records[p + 1 + i];
    }
    FilterAll(front, KeepRecord(id));
    FilterAll(back, KeepRecord(id));
  }

  lemma UniqueRecordIds(records: seq<NodeModel>, objects: seq<NodeObject>)
    requires ModelIds(records) == Ids(objects) && UniqueIds(objects)
    ensures forall i, j :: 0 <= i < j < |records| ==> records[i].nodeId != records[j].nodeId
  {
    forall i, j | 0 <= i < j < |records|
      ensures records[i].nodeId != records[j].nodeId
    {
      assert ModelIds(records)[i] == Ids(objects)[i];
      assert ModelIds(records)[j] == Ids(objects)[j];
    }
  }

  /** Removing one more id from a filtered table is filtering by one more id. */
  lemma {:induction false} KeepIdsStep(objects: seq<NodeObject>, ids: seq<nat>, id: nat)
    ensures Filter(Filter(objects, KeepIds(ids)), KeepNode(id)) == Filter(objects, KeepIds(ids + [id]))
    decreases |objects|
  {
    if objects != [] {
      var n := objects[0];
      KeepIdsStep(objects[1..], ids, id);
      var inner := Filter(objects[1..], KeepIds(ids));
      assert n.nodeId in ids + [id] <==> n.nodeId in ids || n.nodeId == id;
      if KeepIds(ids)(n) {
        assert Filter(objects, KeepIds(ids)) == [n] + inner;
        assert ([n] + inner)[1..] == inner;
      } else {
        assert Filter(objects, KeepIds(ids)) == inner;
      }
    }
  }

  /** The same step, for the loop that removes the ids of a list in order. */
  lemma KeepIdsPrefixStep(objects: seq<NodeObject>, ids: seq<nat>, j: nat)
    requires j < |ids|
    ensures Filter(Filter(objects, KeepIds(ids[..j])), KeepNode(ids[j])) == Filter(objects, KeepIds(ids[..j + 1]))
  {
    KeepIdsStep(objects, ids[..j], ids[j]);
    assert ids[..j + 1] == ids[..j] + [ids[j]];
  }

  /** Removing no ids keeps the table. */
  lemma KeepNoIds(objects: seq<NodeObject>)
    ensures Filter(objects, KeepIds([])) == objects
  {
    FilterAll(objects, KeepIds([]));
  }

  /** The table after deleting the nodes of the first `j` ids, one at a
      time. */
  function WithoutIds(objects: seq<NodeObject>, ids: seq<nat>, j: nat): seq<NodeObject>
    requires j <= |ids|
  {
    if j == 0 then objects else WithoutNode(WithoutIds(objects, ids, j - 1), ids[j - 1])
  }

  /** Deleting the ids one at a time is filtering out all of them at once. */
  lemma {:induction false} WithoutIdsFilter(objects: seq<NodeObject>, ids: seq<nat>, j: nat)
    requires j <= |ids|
    ensures WithoutIds(objects, ids, j) == Filter(objects, KeepIds(ids[..j]))
  {
    if j == 0 {
      KeepNoIds(objects);
      assert ids[..0] == [];
    } else {
      var prev := WithoutIds(objects, ids, j - 1);
      WithoutIdsFilter(objects, ids, j - 1);
      assert WithoutIds(objects, ids, j) == Filter(prev, KeepNode(ids[j - 1]));
      KeepIdsPrefixStep(objects, ids, j - 1);
    }
  }

  function KeepRecordIds(ids: seq<nat>): NodeModel -> bool
  {
    (n: NodeModel) => n.nodeId !in ids
  }

  /** The connections that touch none of the given nodes. */
  function KeepClear(ids: seq<nat>): Connection -> bool
  {
    (c: Connection) => c.sourceNode !in ids && c.destNode !in ids
  }

  /** Deleting the record of one more id from the filtered document. */
  lemma RecordIdsStep(records: seq<NodeModel>, ids: seq<nat>, j: nat)
    requires j < |ids|
    ensures Filter(Filter(records, KeepRecordIds(ids[..j])), KeepRecord(ids[j])) == Filter(records, KeepRecordIds(ids[..j + 1]))
  {
    assert ids[..j + 1] == ids[..j] + [ids[j]];
    FilterTwice(records, KeepRecordIds(ids[..j]), KeepRecord(ids[j]), KeepRecordIds(ids[..j + 1]));
  }

  /** Dropping the connections of one more node from the filtered table. */
  lemma ClearStep(connections: seq<Connection>, ids: seq<nat>, j: nat)
    requires j < |ids|
    ensures Filter(Filter(connections, KeepClear(ids[..j])), KeepUnattached(ids[j])) == Filter(connections, KeepClear(ids[..j + 1]))
  {
    assert ids[..j + 1] == ids[..j] + [ids[j]];
    FilterTwice(connections, KeepClear(ids[..j]), KeepUnattached(ids[j]), KeepClear(ids[..j + 1]));
  }

  /** Neither the engine nor, with equal id lists, the document holds an id
      that no node holds; the document then keeps every record. */
  lemma AbsentRecord(records: seq<NodeModel>, objects: seq<NodeObject>, id: nat)
    requires ModelIds(records) == Ids(objects) && !HasNode(objects, id)
    ensures Filter(records, KeepRecord(id)) == records
  {
    forall i | 0 <= i < |records|
      ensures KeepRecord(id)(records[i])
    {
      assert ModelIds(records)[i] == Ids(objects)[i];
    }
    FilterAll(records, KeepRecord(id));
  }

  /** The document record of a node the manager created from a description. */
  function CreatedRecord(n: NodeObject): NodeModel
  {
    NodeModel(n.nodeId, n.processor.desc, n.ports, false)
  }

  /** The records of created nodes, in order. */
  function CreatedRecords(objects: seq<NodeObject>): (r: seq<NodeModel>)
    ensures |r| == |objects|
    ensures forall i :: 0 <= i < |objects| ==> r[i] == CreatedRecord(objects[i])
  {
    if objects == [] then [] else [CreatedRecord(objects[0])] + CreatedRecords(objects[1..])
  }

  /**
   * The connection and arc tables after the nodes of the first `j` ids
   * are deleted one at a time from `objects`: a deletion that finds its
   * node drops the node's connections and rebuilds the arcs against the
   * smaller table; one that finds nothing changes nothing.
   */
  function AfterRemovals(objects: seq<NodeObject>, connections: seq<Connection>, arcs: seq<Arc>, ids: seq<nat>, j: nat)
    : (r: (seq<Connection>, seq<Arc>))
    requires j <= |ids|
    ensures LiveConnections(arcs) == connections ==> LiveConnections(r.1) == r.0
  {
    if j == 0 then (connections, arcs)
    else
      var prev := AfterRemovals(objects, connections, arcs, ids, j - 1);
      var table := WithoutIds(objects, ids, j - 1);
      if HasNode(table, ids[j - 1])
      then ArcsChanged(WithoutNode(table, ids[j - 1]), Filter(prev.0, KeepUnattached(ids[j - 1])), prev.1)
      else prev
  }

  /** The document after enforcing the input/output nodes: a record for
      each created node appended, then the records of the unwanted nodes
      taken out. */
  function EnforcedRecords(records: seq<NodeModel>, objects: seq<NodeObject>, wants: Wants,
                           factory: Descriptor -> Option<seq<Port>>, lastId: nat): seq<NodeModel>
  {
    Filter(records + CreatedRecords(AddedIONodes(objects, wants, factory, lastId, NumDeviceTypes)),
           KeepRecordIds(Removals(objects, wants, NumDeviceTypes)))
  }

  /** The connection and arc tables after enforcing the input/output
      nodes: creating leaves them alone, then each unwanted node is
      deleted in turn from the grown table. */
  function EnforcedLinks(objects: seq<NodeObject>, connections: seq<Connection>, arcs: seq<Arc>, wants: Wants,
                         factory: Descriptor -> Option<seq<Port>>, lastId: nat): (seq<Connection>, seq<Arc>)
  {
    var removals := Removals(objects, wants, NumDeviceTypes);
    AfterRemovals(objects + AddedIONodes(objects, wants, factory, lastId, NumDeviceTypes), connections, arcs, removals, |removals|)
  }

  /** During loading, the engine never holds the id of a record still to
      be loaded. */
  lemma LoadedLacksLaterId(graphNodes: seq<NodeModel>, factory: Descriptor -> Option<seq<Port>>, placeholderAccepted: NodeModel -> bool, i: nat)
    requires i < |graphNodes|
    requires forall j, k :: 0 <= j < k < |graphNodes| ==> graphNodes[j].nodeId != graphNodes[k].nodeId
    ensures !HasNode(LoadedObjects(graphNodes[..i], factory, placeholderAccepted), graphNodes[i].nodeId)
  {
    LoadedIds(graphNodes[..i], factory, placeholderAccepted);
    assert graphNodes[i].nodeId !in ModelIds(graphNodes[..i]);
  }

  /** Scanning one more node: the last input/output node of a kind is the
      new one when it is of that kind, and the earlier answer otherwise. */
  lemma LastIONodeStep(objects: seq<NodeObject>, i: nat, t: IODeviceType)
    requires i < |objects|
    ensures LastIONode(objects[..i + 1], t)
            == if IsIOOf(objects[i], t) then Some(objects[i].nodeId) else LastIONode(objects[..i], t)
  {
    assert objects[..i + 1][..i] == objects[..i];
  }

  /** The step of the creation pass for the kind at position `k`, by what
      the scan found for that kind: an existing node of an unwanted kind is
      planned for removal, and unless the kind is missing and wanted no
      node is created. */
  lemma EnforceStep(objects: seq<NodeObject>, wants: Wants, factory: Descriptor -> Option<seq<Port>>, lastId: nat, k: nat, found: Option<nat>)
    requires k < NumDeviceTypes && found == LastIONode(objects, DeviceTypeAt(k))
    ensures var t := DeviceTypeAt(k);
            && Removals(objects, wants, k + 1)
               == Removals(objects, wants, k) + (if found.Some? && !wants.Wanted(t) then [found.value] else [])
            && (found.Some? || !wants.Wanted(t) ==>
                  AddedIONodes(objects, wants, factory, lastId, k + 1) == AddedIONodes(objects, wants, factory, lastId, k))
  {
  }

  /** The creating step for a missing, wanted kind: the table after the
      engine is asked for the node (which it adds with the next id when the
      factory can build it) is the table with the created nodes so far. */
  lemma EnforceCreated(objects: seq<NodeObject>, wants: Wants, factory: Descriptor -> Option<seq<Port>>, lastId: nat, k: nat,
                       before: seq<NodeObject>, after: seq<NodeObject>, lastBefore: nat, lastAfter: nat)
    requires k < NumDeviceTypes && !HasIO(objects, DeviceTypeAt(k)) && wants.Wanted(DeviceTypeAt(k))
    requires before == objects + AddedIONodes(objects, wants, factory, lastId, k)
    requires lastBefore == lastId + |AddedIONodes(objects, wants, factory, lastId, k)|
    requires factory(IODescriptor(DeviceTypeAt(k))).None? ==> after == before && lastAfter == lastBefore
    requires factory(IODescriptor(DeviceTypeAt(k))).Some? ==>
               && after == before + [NodeObject(lastBefore + 1, Instance(IODescriptor(DeviceTypeAt(k))), factory(IODescriptor(DeviceTypeAt(k))).value)]
               && lastAfter == lastBefore + 1
    ensures after == objects + AddedIONodes(objects, wants, factory, lastId, k + 1)
    ensures lastAfter == lastId + |AddedIONodes(objects, wants, factory, lastId, k + 1)|
  {
    var t := DeviceTypeAt(k);
    var prev := AddedIONodes(objects, wants, factory, lastId, k);
    if Planned(objects, wants, factory, t) {
      var n := NodeObject(lastId + 1 + |prev|, Instance(IODescriptor(t)), factory(IODescriptor(t)).value);
      assert objects + (prev + [n]) == (objects + prev) + [n];
    }
  }

  /** The records of the nodes created for the first `k + 1` kinds: those
      for the first `k`, then the record of the node of kind `k` when one
      is planned. */
  lemma CreatedRecordsStep(objects: seq<NodeObject>, wants: Wants, factory: Descriptor -> Option<seq<Port>>, lastId: nat, k: nat)
    requires k < NumDeviceTypes
    ensures var t := DeviceTypeAt(k);
            var prev := AddedIONodes(objects, wants, factory, lastId, k);
            CreatedRecords(AddedIONodes(objects, wants, factory, lastId, k + 1))
            == CreatedRecords(prev)
               + if Planned(objects, wants, factory, t)
                 then [NodeModel(lastId + 1 + |prev|, IODescriptor(t), factory(IODescriptor(t)).value, false)]
                 else []
  {
    var t := DeviceTypeAt(k);
    var prev := AddedIONodes(objects, wants, factory, lastId, k);
    if Planned(objects, wants, factory, t) {
      var n := NodeObject(lastId + 1 + |prev|, Instance(IODescriptor(t)), factory(IODescriptor(t)).value);
      assert CreatedRecords(prev + [n]) == CreatedRecords(prev) + [CreatedRecord(n)];
    } else {
      assert CreatedRecords(prev) + [] == CreatedRecords(prev);
    }
  }

  /** The same creating step, for the document: the record of the created
      node is appended when the factory can build it. */
  lemma EnforceCreatedRecord(objects: seq<NodeObject>, records0: seq<NodeModel>, wants: Wants, factory: Descriptor -> Option<seq<Port>>,
                             lastId: nat, k: nat, before: seq<NodeModel>, after: seq<NodeModel>, lastBefore: nat)
    requires k < NumDeviceTypes && !HasIO(objects, DeviceTypeAt(k)) && wants.Wanted(DeviceTypeAt(k))
    requires before == records0 + CreatedRecords(AddedIONodes(objects, wants, factory, lastId, k))
    requires lastBefore == lastId + |AddedIONodes(objects, wants, factory, lastId, k)|
    requires factory(IODescriptor(DeviceTypeAt(k))).None? ==> after == before
    requires factory(IODescriptor(DeviceTypeAt(k))).Some? ==>
               after == before + [NodeModel(lastBefore + 1, IODescriptor(DeviceTypeAt(k)), factory(IODescriptor(DeviceTypeAt(k))).value, false)]
    ensures after == records0 + CreatedRecords(AddedIONodes(objects, wants, factory, lastId, k + 1))
  {
    CreatedRecordsStep(objects, wants, factory, lastId, k);
    var t := DeviceTypeAt(k);
    var prev := CreatedRecords(AddedIONodes(objects, wants, factory, lastId, k));
    if Planned(objects, wants, factory, t) {
      var r := NodeModel(lastBefore + 1, IODescriptor(t), factory(IODescriptor(t)).value, false);
      assert records0 + (prev + [r]) == (records0 + prev) + [r];
    } else {
      assert prev + [] == prev;
    }
  }

  /** What is left of retrying the missing arcs of `arcs` from position
      `i` on, against the connection table `connections`. */
  function Pending(objects: seq<NodeObject>, connections: seq<Connection>, arcs: seq<Arc>, i: nat): (seq<Connection>, seq<Arc>)
    requires i <= |arcs|
  {
    Replay(objects, connections, Filter(arcs[i..], IsMissing()), KeepAll())
  }

  /** One step of the retry loop: a missing arc is tried on the table and
      copied with the engine's answer; any other arc is passed over. */
  lemma RetryStep(objects: seq<NodeObject>, connections: seq<Connection>, arcs: seq<Arc>, i: nat)
    requires i < |arcs|
    ensures var c := arcs[i].AsConnection();
            var next := Pending(objects, Connect(objects, connections, c), arcs, i + 1);
            arcs[i].missing ==>
              Pending(objects, connections, arcs, i)
              == (next.0, [arcs[i].(missing := !CanConnect(objects, connections, c))] + next.1)
    ensures !arcs[i].missing ==> Pending(objects, connections, arcs, i) == Pending(objects, connections, arcs, i + 1)
  {
    FilterStep(arcs, i + 1, IsMissing());
    if arcs[i].missing {
      var rest := Filter(arcs[i + 1..], IsMissing());
      assert Filter(arcs[i..], IsMissing()) == [arcs[i]] + rest;
      assert ([arcs[i]] + rest)[0] == arcs[i];
      assert ([arcs[i]] + rest)[1..] == rest;
      assert arcs[i].(missing := true) == arcs[i];
      var c := arcs[i].AsConnection();
      var tail := Replay(objects, Connect(objects, connections, c), rest, KeepAll());
      assert KeepAll()(arcs[i]);
      assert Replay(objects, connections, [arcs[i]] + rest, KeepAll())
             == (tail.0, [arcs[i].(missing := !CanConnect(objects, connections, c))] + tail.1);
    } else {
      assert !IsMissing()(arcs[i]);
      assert [] + Filter(arcs[i + 1..], IsMissing()) == Filter(arcs[i + 1..], IsMissing());
    }
  }

  /** The retry loop's invariant carried over one missing arc: the copy
      records whether the engine took it. */
  lemma RetryMissingStep(objects: seq<NodeObject>, connections: seq<Connection>, arcs: seq<Arc>, i: nat,
                         copies: seq<Arc>, target: (seq<Connection>, seq<Arc>))
    requires i < |arcs| && arcs[i].missing
    requires Pending(objects, connections, arcs, i).0 == target.0
    requires copies + Pending(objects, connections, arcs, i).1 == target.1
    ensures var c := arcs[i].AsConnection();
            var next := Pending(objects, Connect(objects, connections, c), arcs, i + 1);
            && next.0 == target.0
            && (copies + [arcs[i].(missing := !CanConnect(objects, connections, c))]) + next.1 == target.1
  {
    RetryStep(objects, connections, arcs, i);
    var c := arcs[i].AsConnection();
    var next := Pending(objects, Connect(objects, connections, c), arcs, i + 1);
    var copy := arcs[i].(missing := !CanConnect(objects, connections, c));
    assert copies + ([copy] + next.1) == (copies + [copy]) + next.1;
  }

  /** Arc records none of which is missing are exactly the records of the
      connections they stand for. */
  lemma {:induction false} NoMissingArcs(arcs: seq<Arc>)
    requires MissingCount(arcs) == 0
    ensures arcs == ArcsOf(LiveConnections(arcs))
    decreases |arcs|
  {
    if arcs != [] {
      NoMissingArcs(arcs[1..]);
      assert LiveConnections(arcs) == [arcs[0].AsConnection()] + LiveConnections(arcs[1..]);
      assert ArcsOf(LiveConnections(arcs))[1..] == ArcsOf(LiveConnections(arcs[1..]));
    }
  }

  /** In the disconnect loop, the table starts with the untouched front of
      the original followed by the kept part of its back, so the entry at
      `i` is still the original one. */
  lemma DisconnectAt(c0: seq<Connection>, i: nat, keep: Connection -> bool, current: seq<Connection>)
    requires i < |c0|
    requires StartsWith(current, c0[..i + 1] + Filter(c0[i + 1..], keep))
    ensures i < |current| && current[i] == c0[i]
  {
    var core := c0[..i + 1] + Filter(c0[i + 1..], keep);
    assert current[..|core|][i] == core[i];
  }

  /** Keeping the entry at `i` extends the kept part by that entry. */
  lemma DisconnectKeep(c0: seq<Connection>, i: nat, keep: Connection -> bool)
    requires i < |c0| && keep(c0[i])
    ensures c0[..i + 1] + Filter(c0[i + 1..], keep) == c0[..i] + Filter(c0[i..], keep)
    ensures Filter(c0[i + 1..], keep) == c0[i + 1..] ==> Filter(c0[i..], keep) == c0[i..]
  {
    var rest := Filter(c0[i + 1..], keep);
    FilterStep(c0, i + 1, keep);
    assert Filter(c0[i..], keep) == [c0[i]] + rest;
    calc {
      c0[..i + 1] + rest;
      { assert c0[..i + 1] == c0[..i] + [c0[i]]; }
      (c0[..i] + [c0[i]]) + rest;
      c0[..i] + ([c0[i]] + rest);
    }
    if rest == c0[i + 1..] {
      assert c0[i..] == [c0[i]] + c0[i + 1..];
    }
  }

  /** Deleting the entry at `i` from the untouched front followed by the
      kept part of the back extends the kept part past `i`. */
  lemma DisconnectDropExact(c0: seq<Connection>, i: nat, keep: Connection -> bool)
    requires i < |c0| && !keep(c0[i])
    ensures RemoveAt(c0[..i + 1] + Filter(c0[i + 1..], keep), i) == c0[..i] + Filter(c0[i..], keep)
  {
    BackwardStep(c0, i, keep, c0[..i + 1] + Filter(c0[i + 1..], keep));
  }

  /** Deleting the entry at `i` from a table that starts with the untouched
      front and the kept back leaves one that starts with the next such. */
  lemma DisconnectDrop(c0: seq<Connection>, i: nat, keep: Connection -> bool, current: seq<Connection>)
    requires i < |c0| && !keep(c0[i])
    requires StartsWith(current, c0[..i + 1] + Filter(c0[i + 1..], keep))
    ensures StartsWith(RemoveAt(current, i), c0[..i] + Filter(c0[i..], keep))
  {
    DisconnectDropExact(c0, i, keep);
    StartsWithRemoveAt(current, c0[..i + 1] + Filter(c0[i + 1..], keep), i);
  }

  /**
   * The state of the disconnect loop at position `i`: the table starts
   * with the untouched front of the original `c0` followed by the kept
   * part of its back (exactly that when no arc was missing), and it was
   * changed exactly when an entry from `i` on was not kept.
   */
  ghost predicate DetachInv(c0: seq<Connection>, keep: Connection -> bool, i: nat, connections: seq<Connection>,
                            arcs: seq<Arc>, arcs0: seq<Arc>, noMissing: bool, doneAnything: bool)
    requires i <= |c0|
  {
    && StartsWith(connections, c0[..i] + Filter(c0[i..], keep))
    && (noMissing ==> MissingCount(arcs) == 0 && connections == c0[..i] + Filter(c0[i..], keep))
    && (!doneAnything ==> connections == c0 && arcs == arcs0)
    && (doneAnything <==> |Filter(c0[i..], keep)| < |c0| - i)
  }

  /** One pass of the disconnect loop keeps its state description. */
  lemma DetachInvStep(c0: seq<Connection>, keep: Connection -> bool, i: nat,
                      connections: seq<Connection>, arcs: seq<Arc>, arcs0: seq<Arc>, noMissing: bool, doneAnything: bool,
                      removed: bool, connections': seq<Connection>, arcs': seq<Arc>)
    requires 0 < i <= |c0|
    requires DetachInv(c0, keep, i, connections, arcs, arcs0, noMissing, doneAnything)
    requires i - 1 < |connections| && removed == !keep(connections[i - 1])
    requires removed ==> StartsWith(connections', RemoveAt(connections, i - 1))
    requires removed && MissingCount(arcs) == 0 ==> MissingCount(arcs') == 0 && connections' == RemoveAt(connections, i - 1)
    requires !removed ==> connections' == connections && arcs' == arcs
    ensures DetachInv(c0, keep, i - 1, connections', arcs', arcs0, noMissing, doneAnything || removed)
  {
    DisconnectAt(c0, i - 1, keep, connections);
    FilterStep(c0, i, keep);
    if removed {
      DisconnectDrop(c0, i - 1, keep, connections);
      DisconnectDropExact(c0, i - 1, keep);
      StartsWithTrans(connections', RemoveAt(connections, i - 1), c0[..i - 1] + Filter(c0[i - 1..], keep));
    } else {
      DisconnectKeep(c0, i - 1, keep);
    }
  }

  /**
   * What a disconnect pass leaves, from table `c0` and arc records `arcs0`:
   * a table that starts with the kept connections (exactly those when no
   * arc was missing), and a report of a change exactly when some
   * connection was not kept; with no change nothing moved.
   */
  ghost predicate Detached(c0: seq<Connection>, arcs0: seq<Arc>, keep: Connection -> bool,
                           connections: seq<Connection>, arcs: seq<Arc>, doneAnything: bool)
  {
    && StartsWith(connections, Filter(c0, keep))
    && (MissingCount(arcs0) == 0 ==> MissingCount(arcs) == 0 && connections == Filter(c0, keep))
    && (doneAnything <==> Filter(c0, keep) != c0)
    && (!doneAnything ==> connections == c0 && arcs == arcs0)
  }

  /** At the end of the disconnect loop the kept part is all of it. */
  lemma DetachInvDone(c0: seq<Connection>, keep: Connection -> bool, connections: seq<Connection>,
                      arcs: seq<Arc>, arcs0: seq<Arc>, doneAnything: bool)
    requires DetachInv(c0, keep, 0, connections, arcs, arcs0, MissingCount(arcs0) == 0, doneAnything)
    ensures Detached(c0, arcs0, keep, connections, arcs, doneAnything)
  {
    assert c0[..0] + Filter(c0[0..], keep) == Filter(c0, keep) by {
      assert c0[0..] == c0;
    }
    FilterUnchanged(c0, keep);
    FilterKeepsLength(c0, keep);
  }

  /** The count the loader's consistency check compares, as written: as
      many arc records as engine connections. */
  predicate ArcCountMatchesAsWritten(arcs: seq<Arc>, connections: seq<Connection>)
  {
    |arcs| == |connections|
  }

  /**
   * Loading a graph whose one arc names a port its source node lacks keeps
   * that arc marked missing, so the as-written check fails: one arc record,
   * no connection.
   */
  lemma LoadedMissingArcFailsCountCheck()
    ensures var objects := [NodeObject(1, Instance(PluginDescriptor([])), [Port(Audio, false)]),
                            NodeObject(2, Instance(PluginDescriptor([])), [Port(Audio, true)])];
            var records := [NodeModel(1, PluginDescriptor([]), [Port(Audio, false)], false),
                            NodeModel(2, PluginDescriptor([]), [Port(Audio, true)], false)];
            var r := Replay(objects, [], [Arc(1, 5, 2, 0, false)], KeepAnchored(records));
            r == ([], [Arc(1, 5, 2, 0, true)]) && !ArcCountMatchesAsWritten(r.1, r.0)
  {
    var objects := [NodeObject(1, Instance(PluginDescriptor([])), [Port(Audio, false)]),
                    NodeObject(2, Instance(PluginDescriptor([])), [Port(Audio, true)])];
    var records := [NodeModel(1, PluginDescriptor([]), [Port(Audio, false)], false),
                    NodeModel(2, PluginDescriptor([]), [Port(Audio, true)], false)];
    var a := Arc(1, 5, 2, 0, false);
    assert FindNode(objects, 1) == Some(objects[0]);
    assert !Legal(objects, a.AsConnection());
    assert records[0].nodeId == 1 && records[1].nodeId == 2;
    assert KeepAnchored(records)(a);
    assert !CanConnect(objects, [], a.AsConnection());
    assert Connect(objects, [], a.AsConnection()) == [];
    assert Replay(objects, [], [], KeepAnchored(records)) == ([], []);
    assert [a][0] == a && [a][1..] == [];
    assert Replay(objects, Connect(objects, [], a.AsConnection()), [a][1..], KeepAnchored(records)) == ([], []);
    assert [a.(missing := true)] + [] == [a.(missing := true)];
    assert Replay(objects, [], [a], KeepAnchored(records)) == ([], [a.(missing := true)]);
  }

  /** The count that does hold whenever the live arcs mirror the engine:
      one arc record per connection plus one per missing arc. */
  lemma ArcsAccountForConnections(arcs: seq<Arc>, connections: seq<Connection>)
    requires LiveConnections(arcs) == connections
    ensures |arcs| == |connections| + MissingCount(arcs)
  {
    ArcCount(arcs);
  }

  /**
   * The document loop that deletes the record of a removed node.  After a
   * deletion it steps past the entry that moved into the deleted place;
   * with unique ids no second entry can match, so exactly the records of
   * that id go.
   */
  method RemoveRecord(records: seq<NodeModel>, uid: nat) returns (kept: seq<NodeModel>)
    requires forall i, j :: 0 <= i < j < |records| ==> records[i].nodeId != records[j].nodeId
    ensures kept == Filter(records, KeepRecord(uid))
    ensures HasModelNode(records, uid) ==> |kept| == |records| - 1
  {
    kept := records;
    ghost var at: int := -1;
    var i := 0;
    while i < |kept|
      invariant at == -1 ==> kept == records && i <= |records| && forall k :: 0 <= k < i ==> records[k].nodeId != uid
      invariant at != -1 ==> && 0 <= at < i <= |records| && records[at].nodeId == uid
                             && kept == records[..at] + records[at + 1..]
                             && forall k :: i <= k < |kept| ==> kept[k].nodeId != uid
      decreases |kept| - i
    {
      if kept[i].nodeId == uid {
        at := i;
        kept := kept[..i] + kept[i + 1..];
        forall k | i <= k < |kept|
          ensures kept[k].nodeId != uid
        {
          assert kept[k] == records[k + 1];
        }
      }
      i := i + 1;
    }
    if at == -1 {
      FilterUnchanged(records, KeepRecord(uid));
    } else {
      FilterOneRecord(records, at, uid);
    }
  }

  // ---------------------------------------------------------------------
  // Loading a document

  /** The highest id the engine has handed out after adding `objects` in
      order, starting from `lastNodeId`: each explicit id above the mark
      raises it. */
  function HighestId(lastNodeId: nat, objects: seq<NodeObject>): (r: nat)
    ensures lastNodeId <= r
    ensures forall i :: 0 <= i < |objects| ==> objects[i].nodeId <= r
    ensures r == lastNodeId || exists i :: 0 <= i < |objects| && objects[i].nodeId == r
    decreases |objects|
  {
    if objects == [] then lastNodeId
    else
      var front := HighestId(lastNodeId, objects[..|objects| - 1]);
      var last := objects[|objects| - 1].nodeId;
      if last > front then last else front
  }

  /** Document records whose ids are distinct and all set. */
  predicate LoadableIds(graphNodes: seq<NodeModel>)
  {
    && (forall i :: 0 <= i < |graphNodes| ==> graphNodes[i].nodeId != 0)
    && (forall j, k :: 0 <= j < k < |graphNodes| ==> graphNodes[j].nodeId != graphNodes[k].nodeId)
  }

  /** One step of the loading loop: loading one more record extends both
      tables by what that record makes, and the engine does not yet hold
      the record's id. */
  lemma LoadStep(graphNodes: seq<NodeModel>, factory: Descriptor -> Option<seq<Port>>, placeholderAccepted: NodeModel -> bool, i: nat)
    requires i < |graphNodes| && LoadableIds(graphNodes)
    ensures !HasNode(LoadedObjects(graphNodes[..i], factory, placeholderAccepted), graphNodes[i].nodeId)
    ensures LoadedObjects(graphNodes[..i + 1], factory, placeholderAccepted)
            == LoadedObjects(graphNodes[..i], factory, placeholderAccepted) + LoadedObject(graphNodes[i], factory, placeholderAccepted)
    ensures LoadedRecords(graphNodes[..i + 1], factory, placeholderAccepted)
            == LoadedRecords(graphNodes[..i], factory, placeholderAccepted) + LoadedRecord(graphNodes[i], factory, placeholderAccepted)
  {
    var n := graphNodes[i];
    LoadedLacksLaterId(graphNodes, factory, placeholderAccepted, i);
    assert graphNodes[..i + 1] == graphNodes[..i] + [n];
    LoadedAppend(graphNodes[..i], n, factory, placeholderAccepted);
    assert [n][1..] == [];
    assert LoadedRecords([n], factory, placeholderAccepted) == LoadedRecord(n, factory, placeholderAccepted) + [];
    assert LoadedObjects([n], factory, placeholderAccepted) == LoadedObject(n, factory, placeholderAccepted) + [];
  }

  /** Taking out an id the table does not hold leaves the table as it was. */
  lemma WithoutAbsentNode(objects: seq<NodeObject>, id: nat)
    requires !HasNode(objects, id)
    ensures WithoutNode(objects, id) == objects
  {
    FilterAll(objects, KeepNode(id));
  }

  /** The mark after adding nodes in two runs is the mark after the first
      run carried through the second. */
  lemma {:induction false} HighestIdAppend(lastNodeId: nat, objects: seq<NodeObject>, more: seq<NodeObject>)
    ensures HighestId(HighestId(lastNodeId, objects), more) == HighestId(lastNodeId, objects + more)
    decreases |more|
  {
    if more == [] {
      assert objects + more == objects;
    } else {
      var front := more[..|more| - 1];
      HighestIdAppend(lastNodeId, objects, front);
      assert (objects + more)[..|objects + more| - 1] == objects + front;
    }
  }

  /** Replaying a non-empty list of arcs: the first is tried on the table,
      then the rest on what that leaves. */
  lemma ReplayFirst(objects: seq<NodeObject>, connections: seq<Connection>, arcs: seq<Arc>, keepFailed: Arc -> bool)
    requires arcs != []
    ensures var c := arcs[0].AsConnection();
            var next := Replay(objects, Connect(objects, connections, c), arcs[1..], keepFailed);
            var more := if CanConnect(objects, connections, c) then [arcs[0].(missing := false)]
                        else if keepFailed(arcs[0]) then [arcs[0].(missing := true)] else [];
            Replay(objects, connections, arcs, keepFailed) == (next.0, more + next.1)
  {
    var c := arcs[0].AsConnection();
    var next := Replay(objects, Connect(objects, connections, c), arcs[1..], keepFailed);
    if !CanConnect(objects, connections, c) && !keepFailed(arcs[0]) {
      assert [] + next.1 == next.1;
    }
  }

  /** One step of the arc loop: the arc is tried on the table; an accepted
      arc is kept live, a refused one kept missing when `keepFailed`
      allows, and dropped otherwise. */
  lemma ReplayStep(objects: seq<NodeObject>, connections: seq<Connection>, arcs: seq<Arc>, i: nat, keepFailed: Arc -> bool,
                   kept: seq<Arc>, target: (seq<Connection>, seq<Arc>))
    requires i < |arcs|
    requires Replay(objects, connections, arcs[i..], keepFailed).0 == target.0
    requires kept + Replay(objects, connections, arcs[i..], keepFailed).1 == target.1
    ensures var c := arcs[i].AsConnection();
            var next := Replay(objects, Connect(objects, connections, c), arcs[i + 1..], keepFailed);
            var more := if CanConnect(objects, connections, c) then [arcs[i].(missing := false)]
                        else if keepFailed(arcs[i]) then [arcs[i].(missing := true)] else [];
            next.0 == target.0 && (kept + more) + next.1 == target.1
  {
    var rest := arcs[i..];
    assert rest[0] == arcs[i] && rest[1..] == arcs[i + 1..];
    ReplayFirst(objects, connections, rest, keepFailed);
    var c := arcs[i].AsConnection();
    var next := Replay(objects, Connect(objects, connections, c), arcs[i + 1..], keepFailed);
    var more := if CanConnect(objects, connections, c) then [arcs[i].(missing := false)]
                else if keepFailed(arcs[i]) then [arcs[i].(missing := true)] else [];
    assert kept + (more + next.1) == (kept + more) + next.1;
  }

  class GraphManager {
    const processor: GraphProcessor
    var nodes: seq<NodeModel>
    var arcs: seq<Arc>
    var lastUID: nat

    /** The engine is consistent, the document lists the engine's node ids
        in the same order, and the live arcs are the engine's connections
        in the same order. */
    ghost predicate Valid()
      reads this, processor
    {
      && processor.Valid()
      && ModelIds(nodes) == Ids(processor.nodes)
      && LiveConnections(arcs) == processor.connections
    }

    constructor(processor: GraphProcessor)
      ensures this.processor == processor
      ensures nodes == [] && arcs == [] && lastUID == 0
    {
      this.processor := processor;
      nodes := [];
      arcs := [];
      lastUID := 0;
    }

    /** Hands out the next id: one more than the last. */
    method GetNextUID() returns (uid: nat)
      modifies this
      ensures uid == old(lastUID) + 1 && lastUID == uid
      ensures nodes == old(nodes) && arcs == old(arcs)
    {
      lastUID := lastUID + 1;
      uid := lastUID;
    }

    /** The number of engine connections, which is the number of arc
        records less the missing ones. */
    method GetNumConnections() returns (n: nat)
      requires Valid()
      ensures n == |processor.connections|
      ensures n + MissingCount(arcs) == |arcs|
    {
      ArcsAccountForConnections(arcs, processor.connections);
      n := |processor.connections|;
    }

    /** One live arc record per engine connection, in order. */
    method ArcsFromConnections() returns (newArcs: seq<Arc>)
      ensures newArcs == ArcsOf(processor.connections)
      ensures LiveConnections(newArcs) == processor.connections && MissingCount(newArcs) == 0
    {
      newArcs := [];
      var i := 0;
      while i < |processor.connections|
        invariant 0 <= i <= |processor.connections|
        invariant newArcs == ArcsOf(processor.connections[..i])
      {
        assert processor.connections[..i + 1] == processor.connections[..i] + [processor.connections[i]];
        newArcs := newArcs + [MakeArc(processor.connections[i])];
        i := i + 1;
      }
      assert processor.connections[..i] == processor.connections;
      LiveConnectionsOfArcs(processor.connections);
      NoMissingArcsOf(processor.connections);
    }

    /** Tries every arc marked missing once more on the engine, in order,
        and answers a copy of each marked with the engine's answer. */
    method RetryMissingArcs() returns (copies: seq<Arc>)
      requires processor.Valid()
      modifies processor
      ensures processor.Valid()
      ensures (processor.connections, copies) == Pending(old(processor.nodes), old(processor.connections), arcs, 0)
      ensures processor.nodes == old(processor.nodes) && processor.lastNodeId == old(processor.lastNodeId)
    {
      var all := arcs;
      ghost var objects := processor.nodes;
      ghost var target := Pending(objects, processor.connections, all, 0);
      copies := [];
      var i := 0;
      while i < |all|
        invariant 0 <= i <= |all|
        invariant processor.Valid()
        invariant processor.nodes == objects && processor.lastNodeId == old(processor.lastNodeId)
        invariant Pending(objects, processor.connections, all, i).0 == target.0
        invariant copies + Pending(objects, processor.connections, all, i).1 == target.1
      {
        var arc := all[i];
        if arc.missing {
          RetryMissingStep(objects, processor.connections, all, i, copies, target);
          var added := processor.AddConnection(arc.sourceNode, arc.sourcePort, arc.destNode, arc.destPort);
          copies := copies + [arc.(missing := !added)];
        } else {
          RetryStep(objects, processor.connections, all, i);
        }
        i := i + 1;
      }
      assert all[i..] == [];
      assert Pending(objects, processor.connections, all, i) == (processor.connections, []);
      assert copies + [] == copies;
    }

    /**
     * Rebuilds the arc records after the engine's connections changed: one
     * live arc per engine connection, in order, then a copy of each arc
     * that was marked missing, tried once more on the engine and left
     * missing only if the engine still refuses it.
     */
    method ProcessorArcsChanged()
      requires processor.Valid()
      modifies this, processor
      ensures processor.Valid()
      ensures (processor.connections, arcs) == ArcsChanged(processor.nodes, old(processor.connections), old(arcs))
      ensures LiveConnections(arcs) == processor.connections
      ensures processor.nodes == old(processor.nodes) && processor.lastNodeId == old(processor.lastNodeId)
      ensures nodes == old(nodes) && lastUID == old(lastUID)
    {
      var newArcs := ArcsFromConnections();
      var copies := RetryMissingArcs();
      assert arcs[0..] == arcs;
      arcs := newArcs + copies;
    }

    /** Connects two ports through the engine and, when that worked,
        rebuilds the arc records. */
    method AddConnection(sourceNode: nat, sourcePort: nat, destNode: nat, destPort: nat) returns (result: bool)
      requires Valid()
      modifies this, processor
      ensures Valid()
      ensures result == old(processor.CanConnectPorts(sourceNode, sourcePort, destNode, destPort))
      ensures result ==> (processor.connections, arcs)
                         == ArcsChanged(processor.nodes, old(processor.connections) + [Connection(sourceNode, sourcePort, destNode, destPort)], old(arcs))
      ensures !result ==> processor.connections == old(processor.connections) && arcs == old(arcs)
      ensures processor.nodes == old(processor.nodes) && nodes == old(nodes)
      ensures processor.lastNodeId == old(processor.lastNodeId) && lastUID == old(lastUID)
    {
      result := processor.AddConnection(sourceNode, sourcePort, destNode, destPort);
      if result {
        ProcessorArcsChanged();
      }
    }

    /** Deletes the engine connection at a position (nothing when out of
        range) and rebuilds the arc records. */
    method RemoveConnectionAt(index: int)
      requires Valid()
      modifies this, processor
      ensures Valid()
      ensures (processor.connections, arcs) == ArcsChanged(processor.nodes, RemoveAt(old(processor.connections), index), old(arcs))
      ensures processor.nodes == old(processor.nodes) && nodes == old(nodes)
      ensures processor.lastNodeId == old(processor.lastNodeId) && lastUID == old(lastUID)
    {
      processor.RemoveConnectionAt(index);
      ProcessorArcsChanged();
    }

    /** Deletes the engine connection between two points and, when there
        was one, rebuilds the arc records. */
    method RemoveConnection(sourceNode: nat, sourcePort: nat, destNode: nat, destPort: nat)
      requires Valid()
      modifies this, processor
      ensures Valid()
      ensures var c := Connection(sourceNode, sourcePort, destNode, destPort);
              if c in old(processor.connections)
              then (processor.connections, arcs) == ArcsChanged(processor.nodes, Filter(old(processor.connections), KeepOther(c)), old(arcs))
              else processor.connections == old(processor.connections) && arcs == old(arcs)
      ensures processor.nodes == old(processor.nodes) && nodes == old(nodes)
      ensures processor.lastNodeId == old(processor.lastNodeId) && lastUID == old(lastUID)
    {
      ghost var before := processor.connections;
      var removed := processor.RemoveConnection(sourceNode, sourcePort, destNode, destPort);
      if removed {
        ProcessorArcsChanged();
      } else {
        RemoveOneConnection(before, Connection(sourceNode, sourcePort, destNode, destPort));
      }
    }

    /** Has the engine drop every illegal connection and, when it dropped
        any, rebuilds the arc records.  Every legal connection stays. */
    method RemoveIllegalConnections()
      requires Valid()
      modifies this, processor
      ensures Valid()
      ensures forall c :: c in old(processor.connections) && Legal(processor.nodes, c) ==> c in processor.connections
      ensures (exists c :: c in old(processor.connections) && !Legal(processor.nodes, c))
              ==> (processor.connections, arcs) == ArcsChanged(processor.nodes, Filter(old(processor.connections), KeepLegal(processor.nodes)), old(arcs))
      ensures (forall c :: c in old(processor.connections) ==> Legal(processor.nodes, c))
              ==> processor.connections == old(processor.connections) && arcs == old(arcs)
      ensures processor.nodes == old(processor.nodes) && nodes == old(nodes)
      ensures processor.lastNodeId == old(processor.lastNodeId) && lastUID == old(lastUID)
    {
      ghost var before := processor.connections;
      ghost var objects := processor.nodes;
      var doneAnything := processor.RemoveIllegalConnections();
      ghost var filtered := processor.connections;
      FilterMembers(before, KeepLegal(objects));
      LegalOnlyIsLegal(objects, before);
      if doneAnything {
        ProcessorArcsChanged();
        PrefixMembers(filtered, processor.connections);
      }
    }

    /** Creates a node from a description through the factory and adds its
        record; answers the new id, or `InvalidNode` when the factory
        failed. */
    method AddNode(desc: Descriptor, factory: Descriptor -> Option<seq<Port>>) returns (nodeId: nat)
      requires Valid()
      modifies this, processor
      ensures Valid()
      ensures factory(desc).None? ==> nodeId == InvalidNode && nodes == old(nodes) && processor.nodes == old(processor.nodes)
      ensures factory(desc).Some? ==>
                && nodeId == old(processor.lastNodeId) + 1
                && processor.nodes == old(processor.nodes) + [NodeObject(nodeId, Instance(desc), factory(desc).value)]
                && nodes == old(nodes) + [NodeModel(nodeId, desc, factory(desc).value, false)]
      ensures processor.lastNodeId == if factory(desc).Some? then old(processor.lastNodeId) + 1 else old(processor.lastNodeId)
      ensures processor.connections == old(processor.connections) && arcs == old(arcs)
      ensures lastUID == old(lastUID)
    {
      match factory(desc) {
        case None =>
          nodeId := InvalidNode;
        case Some(ports) =>
          nodeId := processor.AddNode(Instance(desc), ports, 0);
          nodes := nodes + [NodeModel(nodeId, desc, ports, false)];
          assert ModelIds(nodes) == ModelIds(old(nodes)) + [nodeId];
          assert Ids(processor.nodes) == Ids(old(processor.nodes)) + [nodeId];
      }
    }

    /**
     * Deletes a node from the engine and, when the engine had it, its
     * record from the document, then rebuilds the arc records.
     */
    method RemoveNode(uid: nat)
      requires Valid()
      modifies this, processor
      ensures Valid()
      ensures processor.nodes == WithoutNode(old(processor.nodes), uid)
      ensures processor.lastNodeId == old(processor.lastNodeId)
      ensures lastUID == old(lastUID)
      ensures HasNode(old(processor.nodes), uid) ==>
                && nodes == Filter(old(nodes), KeepRecord(uid))
                && (processor.connections, arcs) == ArcsChanged(processor.nodes, Filter(old(processor.connections), KeepUnattached(uid)), old(arcs))
      ensures !HasNode(old(processor.nodes), uid) ==>
                nodes == old(nodes) && processor.connections == old(processor.connections) && arcs == old(arcs)
      ensures nodes == Filter(old(nodes), KeepRecord(uid))
    {
      ghost var objects := processor.nodes;
      var records := nodes;
      UniqueRecordIds(records, objects);
      var removed := processor.RemoveNode(uid);
      if !removed {
        AbsentRecord(records, objects, uid);
        return;
      }
      var kept := RemoveRecord(records, uid);
      RemoveSameId(records, objects, uid);
      nodes := kept;
      ProcessorArcsChanged();
    }

    /** One pass of the disconnect loop: deletes the connection at `i` when
        the switches select it, rebuilding the arc records; answers whether
        it did. */
    method DetachAt(i: nat, nodeId: nat, inputs: bool, outputs: bool, audio: bool, midi: bool) returns (removed: bool)
      requires Valid() && i < |processor.connections|
      modifies this, processor
      ensures Valid()
      ensures processor.nodes == old(processor.nodes) && nodes == old(nodes)
      ensures processor.lastNodeId == old(processor.lastNodeId) && lastUID == old(lastUID)
      ensures removed == Detaches(processor.nodes, old(processor.connections[i]), nodeId, inputs, outputs, audio, midi)
      ensures removed ==> StartsWith(processor.connections, RemoveAt(old(processor.connections), i))
      ensures removed && MissingCount(old(arcs)) == 0 ==>
                MissingCount(arcs) == 0 && processor.connections == RemoveAt(old(processor.connections), i)
      ensures !removed ==> processor.connections == old(processor.connections) && arcs == old(arcs)
    {
      ghost var objects := processor.nodes;
      ghost var before := processor.connections;
      ghost var arcsBefore := arcs;
      var c := processor.GetConnection(i).value;
      removed := false;
      if (outputs && c.sourceNode == nodeId) || (inputs && c.destNode == nodeId) {
        assert c in before;
        var src := processor.GetNodeForId(c.sourceNode).value;
        var dst := processor.GetNodeForId(c.destNode).value;
        removed := (audio && src.PortTypeAt(c.sourcePort) == Audio && dst.PortTypeAt(c.destPort) == Audio)
                   || (midi && src.PortTypeAt(c.sourcePort) == Midi && dst.PortTypeAt(c.destPort) == Midi);
      }
      if removed {
        RemoveConnectionAt(i);
        if MissingCount(arcsBefore) == 0 {
          ArcsChangedWithoutMissing(objects, RemoveAt(before, i), arcsBefore);
        }
      }
    }

    /** One pass of the disconnect loop, with the loop's state description
        carried from position `i` to `i - 1`. */
    method DetachStep(i: nat, nodeId: nat, inputs: bool, outputs: bool, audio: bool, midi: bool,
                      ghost c0: seq<Connection>, ghost arcs0: seq<Arc>, ghost noMissing: bool, ghost doneAnything: bool)
      returns (removed: bool)
      requires Valid() && 0 < i <= |c0|
      requires DetachInv(c0, KeepAttached(processor.nodes, nodeId, inputs, outputs, audio, midi), i, processor.connections, arcs, arcs0, noMissing, doneAnything)
      modifies this, processor
      ensures Valid()
      ensures processor.nodes == old(processor.nodes) && nodes == old(nodes)
      ensures processor.lastNodeId == old(processor.lastNodeId) && lastUID == old(lastUID)
      ensures DetachInv(c0, KeepAttached(processor.nodes, nodeId, inputs, outputs, audio, midi), i - 1, processor.connections, arcs, arcs0, noMissing, doneAnything || removed)
    {
      ghost var keep := KeepAttached(processor.nodes, nodeId, inputs, outputs, audio, midi);
      ghost var current := processor.connections;
      ghost var arcsBefore := arcs;
      DisconnectAt(c0, i - 1, keep, current);
      removed := DetachAt(i - 1, nodeId, inputs, outputs, audio, midi);
      DetachInvStep(c0, keep, i, current, arcsBefore, arcs0, noMissing, doneAnything, removed, processor.connections, arcs);
    }

    /**
     * The loop of a disconnect: walks the engine's table from the back and
     * deletes each connection the switches select, rebuilding the arc
     * records after each deletion.  Answers whether anything was deleted.
     */
    method DetachConnections(nodeId: nat, inputs: bool, outputs: bool, audio: bool, midi: bool) returns (doneAnything: bool)
      requires Valid()
      modifies this, processor
      ensures Valid()
      ensures processor.nodes == old(processor.nodes) && nodes == old(nodes)
      ensures processor.lastNodeId == old(processor.lastNodeId) && lastUID == old(lastUID)
      ensures Detached(old(processor.connections), old(arcs), KeepAttached(processor.nodes, nodeId, inputs, outputs, audio, midi),
                       processor.connections, arcs, doneAnything)
    {
      ghost var c0 := processor.connections;
      ghost var objects := processor.nodes;
      ghost var arcs0 := arcs;
      ghost var keep := KeepAttached(objects, nodeId, inputs, outputs, audio, midi);
      ghost var noMissing := MissingCount(arcs) == 0;
      doneAnything := false;
      var i := |processor.connections|;
      assert c0[i..] == [] && c0[..i] == c0;
      while i > 0
        invariant 0 <= i <= |c0|
        invariant Valid()
        invariant processor.nodes == objects && nodes == old(nodes)
        invariant processor.lastNodeId == old(processor.lastNodeId) && lastUID == old(lastUID)
        invariant DetachInv(c0, keep, i, processor.connections, arcs, arcs0, noMissing, doneAnything)
      {
        var removed := DetachStep(i, nodeId, inputs, outputs, audio, midi, c0, arcs0, noMissing, doneAnything);
        doneAnything := doneAnything || removed;
        i := i - 1;
      }
      DetachInvDone(c0, keep, processor.connections, arcs, arcs0, doneAnything);
    }

    /**
     * Deletes the connections of one node that the switches select (its
     * inputs and/or outputs, audio and/or MIDI) and, when any went,
     * rebuilds the arc records once more.  Retried missing arcs can only
     * add connections behind the ones kept.
     */
    method DisconnectNode(nodeId: nat, inputs: bool, outputs: bool, audio: bool, midi: bool)
      requires Valid()
      modifies this, processor
      ensures Valid()
      ensures processor.nodes == old(processor.nodes) && nodes == old(nodes)
      ensures processor.lastNodeId == old(processor.lastNodeId) && lastUID == old(lastUID)
      ensures StartsWith(processor.connections, Filter(old(processor.connections), KeepAttached(processor.nodes, nodeId, inputs, outputs, audio, midi)))
      ensures MissingCount(old(arcs)) == 0 ==>
                && processor.connections == Filter(old(processor.connections), KeepAttached(processor.nodes, nodeId, inputs, outputs, audio, midi))
                && arcs == ArcsOf(processor.connections)
      ensures (forall c :: c in old(processor.connections) ==> !Detaches(processor.nodes, c, nodeId, inputs, outputs, audio, midi))
              ==> processor.connections == old(processor.connections) && arcs == old(arcs)
    {
      ghost var c0 := processor.connections;
      ghost var objects := processor.nodes;
      ghost var keep := KeepAttached(objects, nodeId, inputs, outputs, audio, midi);
      ghost var noMissing := MissingCount(arcs) == 0;
      if noMissing {
        NoMissingArcs(arcs);
      }
      var doneAnything := DetachConnections(nodeId, inputs, outputs, audio, midi);
      if doneAnything {
        ghost var arcsBefore := arcs;
        ghost var connectionsBefore := processor.connections;
        ProcessorArcsChanged();
        StartsWithTrans(processor.connections, connectionsBefore, Filter(c0, keep));
        if noMissing {
          ArcsChangedWithoutMissing(objects, connectionsBefore, arcsBefore);
        }
      }
      if forall c :: c in c0 ==> !Detaches(objects, c, nodeId, inputs, outputs, audio, midi) {
        FilterAll(c0, keep);
      }
    }
  
    /** The scan of the engine's table for input/output nodes: for each
        kind, the id of the last node of that kind, or nothing. */
    method FindIONodes() returns (found: seq<Option<nat>>)
      ensures |found| == NumDeviceTypes
      ensures forall k :: 0 <= k < NumDeviceTypes ==> found[k] == LastIONode(processor.nodes, DeviceTypeAt(k))
    {
      var objects := processor.nodes;
      found := [None, None, None, None];
      var i := 0;
      while i < |objects|
        invariant 0 <= i <= |objects| && |found| == NumDeviceTypes
        invariant forall k :: 0 <= k < NumDeviceTypes ==> found[k] == LastIONode(objects[..i], DeviceTypeAt(k))
      {
        var n := objects[i];
        forall k | 0 <= k < NumDeviceTypes
          ensures LastIONode(objects[..i + 1], DeviceTypeAt(k))
                  == if IsIOOf(n, DeviceTypeAt(k)) then Some(n.nodeId) else LastIONode(objects[..i], DeviceTypeAt(k))
        {
          LastIONodeStep(objects, i, DeviceTypeAt(k));
        }
        if n.IsIONode() {
          found := found[DeviceTypeIndex(n.processor.desc.device) := Some(n.nodeId)];
        }
        i := i + 1;
      }
      assert objects[..i] == objects;
    }
  
    /** The handling of one kind: an unwanted present node is planned for
        removal, a wanted absent one is created. */
    method EnforceKind(k: nat, wants: Wants, factory: Descriptor -> Option<seq<Port>>, found: seq<Option<nat>>, removals: seq<nat>,
                       ghost pn0: seq<NodeObject>, ghost records0: seq<NodeModel>, ghost last0: nat) returns (removals': seq<nat>)
      requires Valid() && k < NumDeviceTypes && |found| == NumDeviceTypes
      requires found[k] == LastIONode(pn0, DeviceTypeAt(k))
      requires processor.nodes == pn0 + AddedIONodes(pn0, wants, factory, last0, k)
      requires nodes == records0 + CreatedRecords(AddedIONodes(pn0, wants, factory, last0, k))
      requires processor.lastNodeId == last0 + |AddedIONodes(pn0, wants, factory, last0, k)|
      requires removals == Removals(pn0, wants, k)
      modifies this, processor
      ensures Valid()
      ensures processor.nodes == pn0 + AddedIONodes(pn0, wants, factory, last0, k + 1)
      ensures nodes == records0 + CreatedRecords(AddedIONodes(pn0, wants, factory, last0, k + 1))
      ensures processor.lastNodeId == last0 + |AddedIONodes(pn0, wants, factory, last0, k + 1)|
      ensures removals' == Removals(pn0, wants, k + 1)
      ensures processor.connections == old(processor.connections) && arcs == old(arcs)
      ensures lastUID == old(lastUID)
    {
      var t := DeviceTypeAt(k);
      removals' := removals;
      EnforceStep(pn0, wants, factory, last0, k, found[k]);
      if found[k].None? && wants.Wanted(t) {
        assert !HasIO(pn0, t);
        ghost var before, recordsBefore, lastBefore := processor.nodes, nodes, processor.lastNodeId;
        var nodeId := AddNode(IODescriptor(t), factory);
        ghost var after, recordsAfter, lastAfter := processor.nodes, nodes, processor.lastNodeId;
        EnforceCreated(pn0, wants, factory, last0, k, before, after, lastBefore, lastAfter);
        EnforceCreatedRecord(pn0, records0, wants, factory, last0, k, recordsBefore, recordsAfter, lastBefore);
      }
      if found[k].Some? && !wants.Wanted(t) {
        removals' := removals + [found[k].value];
      }
    }

    /** Deletes the nodes with the given ids, one after another, each with
        its record and its connections. */
    method RemoveNodes(ids: seq<nat>)
      requires Valid()
      modifies this, processor
      ensures Valid()
      ensures processor.nodes == Filter(old(processor.nodes), KeepIds(ids))
      ensures nodes == Filter(old(nodes), KeepRecordIds(ids))
      ensures (processor.connections, arcs) == AfterRemovals(old(processor.nodes), old(processor.connections), old(arcs), ids, |ids|)
      ensures MissingCount(old(arcs)) == 0 ==>
                && processor.connections == Filter(old(processor.connections), KeepClear(ids))
                && arcs == ArcsOf(processor.connections)
      ensures processor.lastNodeId == old(processor.lastNodeId) && lastUID == old(lastUID)
    {
      ghost var base, records0, c0, arcs0 := processor.nodes, nodes, processor.connections, arcs;
      ghost var noMissing := MissingCount(arcs) == 0;
      RemovingStart(ids, noMissing);
      var j := 0;
      while j < |ids|
        invariant 0 <= j <= |ids|
        invariant Valid()
        invariant processor.lastNodeId == old(processor.lastNodeId) && lastUID == old(lastUID)
        invariant Removing(base, records0, c0, arcs0, ids, j, noMissing)
      {
        RemoveStep(base, records0, c0, arcs0, ids, j, noMissing);
        j := j + 1;
      }
      RemovingDone(base, records0, c0, arcs0, ids, noMissing);
    }

    /** Before the first deletion, every table is as it started. */
    lemma RemovingStart(ids: seq<nat>, noMissing: bool)
      requires Valid() && noMissing == (MissingCount(arcs) == 0)
      ensures Removing(processor.nodes, nodes, processor.connections, arcs, ids, 0, noMissing)
    {
      if noMissing {
        NoMissingArcs(arcs);
      }
      assert ids[..0] == [];
      FilterAll(nodes, KeepRecordIds([]));
      FilterAll(processor.connections, KeepClear([]));
    }

    /** After the last deletion, the tables are the filtered ones. */
    lemma RemovingDone(base: seq<NodeObject>, records0: seq<NodeModel>, c0: seq<Connection>, arcs0: seq<Arc>,
                       ids: seq<nat>, noMissing: bool)
      requires Removing(base, records0, c0, arcs0, ids, |ids|, noMissing)
      ensures processor.nodes == Filter(base, KeepIds(ids))
      ensures nodes == Filter(records0, KeepRecordIds(ids))
      ensures (processor.connections, arcs) == AfterRemovals(base, c0, arcs0, ids, |ids|)
      ensures noMissing ==> processor.connections == Filter(c0, KeepClear(ids)) && arcs == ArcsOf(processor.connections)
    {
      WithoutIdsFilter(base, ids, |ids|);
      assert ids[..|ids|] == ids;
    }

    /** The state of the removal loop after the first `j` ids: each table
        as the deletions so far leave it. */
    ghost predicate Removing(base: seq<NodeObject>, records0: seq<NodeModel>, c0: seq<Connection>, arcs0: seq<Arc>,
                             ids: seq<nat>, j: nat, noMissing: bool)
      reads this, processor
    {
      && j <= |ids|
      && processor.nodes == WithoutIds(base, ids, j)
      && nodes == Filter(records0, KeepRecordIds(ids[..j]))
      && (processor.connections, arcs) == AfterRemovals(base, c0, arcs0, ids, j)
      && (noMissing ==> MissingCount(arcs) == 0 && arcs == ArcsOf(processor.connections))
      && (noMissing ==> processor.connections == Filter(c0, KeepClear(ids[..j])))
    }

    /** One pass of the removal loop, with its state carried from `j` to
        `j + 1`. */
    method RemoveStep(ghost base: seq<NodeObject>, ghost records0: seq<NodeModel>, ghost c0: seq<Connection>, ghost arcs0: seq<Arc>,
                      ids: seq<nat>, j: nat, ghost noMissing: bool)
      requires Valid() && j < |ids|
      requires Removing(base, records0, c0, arcs0, ids, j, noMissing)
      modifies this, processor
      ensures Valid()
      ensures processor.lastNodeId == old(processor.lastNodeId) && lastUID == old(lastUID)
      ensures Removing(base, records0, c0, arcs0, ids, j + 1, noMissing)
    {
      ghost var objects, current, arcsBefore := processor.nodes, processor.connections, arcs;
      ghost var present := HasNode(objects, ids[j]);
      if !present {
        RemoveAbsentChangesNothing(objects, current, processor.lastNodeId, ids[j]);
      }
      RemoveNode(ids[j]);
      RecordIdsStep(records0, ids, j);
      if noMissing {
        ClearStep(c0, ids, j);
        if present {
          ArcsChangedWithoutMissing(processor.nodes, Filter(current, KeepUnattached(ids[j])), arcsBefore);
        }
      }
    }

    /** The creation pass: handles the kinds in order, creating each
        wanted absent one the factory can make, and answers the ids of the
        present kinds that are not wanted. */
    method CreateIONodes(wants: Wants, factory: Descriptor -> Option<seq<Port>>, found: seq<Option<nat>>) returns (removals: seq<nat>)
      requires Valid() && |found| == NumDeviceTypes
      requires forall k :: 0 <= k < NumDeviceTypes ==> found[k] == LastIONode(processor.nodes, DeviceTypeAt(k))
      modifies this, processor
      ensures Valid()
      ensures processor.nodes == old(processor.nodes) + AddedIONodes(old(processor.nodes), wants, factory, old(processor.lastNodeId), NumDeviceTypes)
      ensures removals == Removals(old(processor.nodes), wants, NumDeviceTypes)
      ensures nodes == old(nodes) + CreatedRecords(AddedIONodes(old(processor.nodes), wants, factory, old(processor.lastNodeId), NumDeviceTypes))
      ensures processor.lastNodeId == old(processor.lastNodeId) + |AddedIONodes(old(processor.nodes), wants, factory, old(processor.lastNodeId), NumDeviceTypes)|
      ensures processor.connections == old(processor.connections) && arcs == old(arcs)
      ensures lastUID == old(lastUID)
    {
      ghost var pn0 := processor.nodes;
      ghost var records0 := nodes;
      ghost var last0 := processor.lastNodeId;
      removals := [];
      assert processor.nodes == pn0 + AddedIONodes(pn0, wants, factory, last0, 0) by {
        assert pn0 + [] == pn0;
      }
      assert nodes == records0 + CreatedRecords(AddedIONodes(pn0, wants, factory, last0, 0)) by {
        assert records0 + [] == records0;
      }
      var k := 0;
      while k < NumDeviceTypes
        invariant 0 <= k <= NumDeviceTypes
        invariant Valid()
        invariant lastUID == old(lastUID)
        invariant processor.nodes == pn0 + AddedIONodes(pn0, wants, factory, last0, k)
        invariant nodes == records0 + CreatedRecords(AddedIONodes(pn0, wants, factory, last0, k))
        invariant processor.connections == old(processor.connections) && arcs == old(arcs)
        invariant processor.lastNodeId == last0 + |AddedIONodes(pn0, wants, factory, last0, k)|
        invariant removals == Removals(pn0, wants, k)
      {
        removals := EnforceKind(k, wants, factory, found, removals, pn0, records0, last0);
        k := k + 1;
      }
    }

    /**
     * Makes the graph hold exactly the wanted input/output nodes: scans
     * for the present ones, creates each wanted kind that is absent (when
     * the factory can), then deletes each present kind that is not wanted.
     */
    method AddMissingIONodes(wants: Wants, factory: Descriptor -> Option<seq<Port>>)
      requires Valid()
      modifies this, processor
      ensures Valid()
      ensures processor.nodes == EnforcedNodes(old(processor.nodes), wants, factory, old(processor.lastNodeId))
      ensures nodes == EnforcedRecords(old(nodes), old(processor.nodes), wants, factory, old(processor.lastNodeId))
      ensures (processor.connections, arcs)
              == EnforcedLinks(old(processor.nodes), old(processor.connections), old(arcs), wants, factory, old(processor.lastNodeId))
      ensures MissingCount(old(arcs)) == 0 ==>
                && processor.connections == Filter(old(processor.connections), KeepClear(Removals(old(processor.nodes), wants, NumDeviceTypes)))
                && arcs == ArcsOf(processor.connections)
      ensures processor.lastNodeId
              == old(processor.lastNodeId) + |AddedIONodes(old(processor.nodes), wants, factory, old(processor.lastNodeId), NumDeviceTypes)|
      ensures lastUID == old(lastUID)
    {
      var found := FindIONodes();
      var removals := CreateIONodes(wants, factory, found);
      RemoveNodes(removals);
    }
  

    /** Deletes every node and arc record and empties the engine. */
    method Clear()
      requires Valid()
      modifies this, processor
      ensures Valid()
      ensures nodes == [] && arcs == []
      ensures processor.nodes == [] && processor.connections == []
      ensures processor.lastNodeId == old(processor.lastNodeId) && lastUID == old(lastUID)
    {
      nodes := [];
      arcs := [];
      processor.Clear();
    }

    /**
     * Creates the engine node of one document record under the record's
     * own id: the factory's processor when it can make one, otherwise a
     * placeholder when the engine takes it.  Answers the record as loaded,
     * a placeholder's marked missing, or nothing when both failed.
     */
    method LoadNode(n: NodeModel, factory: Descriptor -> Option<seq<Port>>, placeholderAccepted: NodeModel -> bool)
      returns (record: seq<NodeModel>)
      requires processor.Valid() && processor.connections == []
      requires n.nodeId != 0 && !HasNode(processor.nodes, n.nodeId)
      modifies processor
      ensures processor.Valid() && processor.connections == []
      ensures record == LoadedRecord(n, factory, placeholderAccepted)
      ensures processor.nodes == old(processor.nodes) + LoadedObject(n, factory, placeholderAccepted)
      ensures processor.lastNodeId == HighestId(old(processor.lastNodeId), LoadedObject(n, factory, placeholderAccepted))
    {
      WithoutAbsentNode(processor.nodes, n.nodeId);
      match factory(n.desc) {
        case Some(ports) =>
          var id := processor.AddNode(Instance(n.desc), ports, n.nodeId);
          record := [n.(ports := ports)];
        case None =>
          if placeholderAccepted(n) {
            var id := processor.AddNode(Placeholder(n.desc), n.ports, n.nodeId);
            record := [n.(missing := true)];
          } else {
            record := [];
          }
      }
    }

    /**
     * Loads each document record in order (see `LoadNode`) into an empty
     * engine, and answers the records that loaded; the engine then holds
     * one node per answered record.
     */
    method InstantiateNodes(graphNodes: seq<NodeModel>, factory: Descriptor -> Option<seq<Port>>, placeholderAccepted: NodeModel -> bool)
      returns (records: seq<NodeModel>)
      requires processor.Valid() && processor.nodes == [] && processor.connections == []
      requires LoadableIds(graphNodes)
      modifies processor
      ensures processor.Valid()
      ensures records == LoadedRecords(graphNodes, factory, placeholderAccepted)
      ensures processor.nodes == LoadedObjects(graphNodes, factory, placeholderAccepted)
      ensures ModelIds(records) == Ids(processor.nodes)
      ensures processor.connections == []
      ensures processor.lastNodeId == HighestId(old(processor.lastNodeId), processor.nodes)
    {
      records := [];
      var i := 0;
      while i < |graphNodes|
        invariant 0 <= i <= |graphNodes|
        invariant processor.Valid() && processor.connections == []
        invariant records == LoadedRecords(graphNodes[..i], factory, placeholderAccepted)
        invariant processor.nodes == LoadedObjects(graphNodes[..i], factory, placeholderAccepted)
        invariant processor.lastNodeId == HighestId(old(processor.lastNodeId), processor.nodes)
      {
        LoadStep(graphNodes, factory, placeholderAccepted, i);
        ghost var before := processor.nodes;
        var record := LoadNode(graphNodes[i], factory, placeholderAccepted);
        HighestIdAppend(old(processor.lastNodeId), before, LoadedObject(graphNodes[i], factory, placeholderAccepted));
        records := records + record;
        i := i + 1;
      }
      assert graphNodes[..i] == graphNodes;
      LoadedIds(graphNodes, factory, placeholderAccepted);
    }

    /**
     * Tries each arc record on the engine in order.  An accepted arc is
     * kept live; a refused one is kept marked missing when `keepFailed`
     * says so and dropped otherwise.  Answers the arcs kept.
     */
    method ReconcileArcs(all: seq<Arc>, keepFailed: Arc -> bool) returns (kept: seq<Arc>)
      requires processor.Valid()
      modifies processor
      ensures processor.Valid()
      ensures (processor.connections, kept) == Replay(old(processor.nodes), old(processor.connections), all, keepFailed)
      ensures processor.nodes == old(processor.nodes) && processor.lastNodeId == old(processor.lastNodeId)
    {
      ghost var objects := processor.nodes;
      ghost var target := Replay(objects, processor.connections, all, keepFailed);
      kept := [];
      var i := 0;
      while i < |all|
        invariant 0 <= i <= |all|
        invariant processor.Valid()
        invariant processor.nodes == objects && processor.lastNodeId == old(processor.lastNodeId)
        invariant Replay(objects, processor.connections, all[i..], keepFailed).0 == target.0
        invariant kept + Replay(objects, processor.connections, all[i..], keepFailed).1 == target.1
      {
        var arc := all[i];
        ReplayStep(objects, processor.connections, all, i, keepFailed, kept, target);
        var worked := processor.AddConnection(arc.sourceNode, arc.sourcePort, arc.destNode, arc.destPort);
        if worked {
          kept := kept + [arc.(missing := false)];
        } else if keepFailed(arc) {
          kept := kept + [arc.(missing := true)];
        }
        i := i + 1;
      }
      assert all[i..] == [];
      assert kept + [] == kept;
    }

    /**
     * Replays the document's arcs on the engine after its nodes were
     * loaded, keeping a refused arc marked missing when both of its nodes
     * are in the document, and makes the kept arcs the arc records.
     */
    method LoadArcs(graphArcs: seq<Arc>)
      requires processor.Valid() && processor.connections == []
      requires ModelIds(nodes) == Ids(processor.nodes)
      modifies this, processor
      ensures Valid()
      ensures (processor.connections, arcs) == Replay(processor.nodes, [], graphArcs, KeepAnchored(nodes))
      ensures processor.nodes == old(processor.nodes) && processor.lastNodeId == old(processor.lastNodeId)
      ensures nodes == old(nodes) && lastUID == old(lastUID)
    {
      var kept := ReconcileArcs(graphArcs, KeepAnchored(nodes));
      arcs := kept;
      ReplayLive(processor.nodes, [], graphArcs, KeepAnchored(nodes));
      assert [] + LiveConnections(kept) == LiveConnections(kept);
    }

    /**
     * Loads a document into an emptied engine: creates its nodes, drops
     * the records that failed, then replays its arcs (see `LoadArcs`).
     */
    method LoadDocument(graphNodes: seq<NodeModel>, graphArcs: seq<Arc>,
                        factory: Descriptor -> Option<seq<Port>>, placeholderAccepted: NodeModel -> bool)
      requires Valid() && LoadableIds(graphNodes)
      modifies this, processor
      ensures Valid()
      ensures nodes == LoadedRecords(graphNodes, factory, placeholderAccepted)
      ensures processor.nodes == LoadedObjects(graphNodes, factory, placeholderAccepted)
      ensures processor.lastNodeId == HighestId(old(processor.lastNodeId), processor.nodes)
      ensures (processor.connections, arcs) == Replay(processor.nodes, [], graphArcs, KeepAnchored(nodes))
      ensures lastUID == old(lastUID)
    {
      Clear();
      var records := InstantiateNodes(graphNodes, factory, placeholderAccepted);
      nodes := records;
      LoadArcs(graphArcs);
    }

    /**
     * Replaces the graph with a document: loads it, brings the
     * input/output nodes in line with what the graph wants, and rebuilds
     * the arc records.
     */
    method SetNodeModel(graphNodes: seq<NodeModel>, graphArcs: seq<Arc>, wants: Wants,
                        factory: Descriptor -> Option<seq<Port>>, placeholderAccepted: NodeModel -> bool)
      requires Valid() && LoadableIds(graphNodes)
      modifies this, processor
      ensures Valid()
      ensures var loaded := LoadedObjects(graphNodes, factory, placeholderAccepted);
              var records := LoadedRecords(graphNodes, factory, placeholderAccepted);
              var last := HighestId(old(processor.lastNodeId), loaded);
              var replayed := Replay(loaded, [], graphArcs, KeepAnchored(records));
              var enforced := EnforcedLinks(loaded, replayed.0, replayed.1, wants, factory, last);
              && processor.nodes == EnforcedNodes(loaded, wants, factory, last)
              && nodes == EnforcedRecords(records, loaded, wants, factory, last)
              && (processor.connections, arcs) == ArcsChanged(processor.nodes, enforced.0, enforced.1)
              && processor.lastNodeId == last + |AddedIONodes(loaded, wants, factory, last, NumDeviceTypes)|
      ensures lastUID == old(lastUID)
    {
      LoadDocument(graphNodes, graphArcs, factory, placeholderAccepted);
      AddMissingIONodes(wants, factory);
      ProcessorArcsChanged();
    }
  }
}
