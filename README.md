# Element: graph, MIDI and script-header core

Element is an audio plugin host built on JUCE. This project models the
parts of its engine and controllers that decide what the host's graphs
look like:

- **Node graph.** The engine's `GraphProcessor` keeps a table of nodes and
  a table of connections. The controller's `GraphManager` keeps the
  document's node records and arc records in step with those tables. It
  adds, removes and disconnects nodes. It loads a saved document, keeping
  arcs the engine cannot make marked as missing. It makes sure exactly the
  wanted audio and MIDI input/output nodes exist.
- **Root graph settings.** The render mode, the lock, the MIDI program
  and channel, and the engine index.
- **MIDI engine.** The registry of MIDI input callbacks, the open MIDI
  inputs and whether each is enabled, and how an incoming message is
  dispatched.
- **Program-change map.** The node that rewrites incoming program
  changes.
- **Message objects.** The request objects for connections, node removal,
  disconnection and MIDI device nodes.
- **Version numbers.** Splitting a version string into segments and
  packing the segments into an integer.
- **Script headers.** The `@script`, `@kind`, `@author` and
  `@description` tags a Lua script carries in its leading comment.
  `Script::make` and `Script::anonymous` write such headers.

Each stateful object is a Dafny `class` whose fields the methods update:

- `Graph.GraphProcessor`
- `GraphManagerModel.GraphManager`
- `RootGraphModel.RootGraph`
- `MidiEngineModel.MidiEngine`
- `ProgramChangeMap.ProgramChangeMapNode`, whose render pass rewrites an
  `array` of events in place

Each such method states its new state in terms of specification functions
of the old state. Loading a document chains several of them: loading the
records, replaying the arcs, enforcing the input/output nodes and
rebuilding the arcs. The properties the host relies on are proved about
those functions as lemmas.

The JUCE string operations the source calls are written out in
`JuceString` (text.dfy) for narrow characters: trim,
upTo/fromFirstOccurrenceOf, fromLastOccurrenceOf and
StringArray::fromLines. The order-preserving filter behind every "remove
the matching entries" loop is in `Seqs` (seqs.dfy).

The plugin factory is a parameter of the operations that use it:
`Descriptor -> Option<seq<Port>>` gives the ports of the processor it
would create, or nothing when creation fails. Device availability is a
parameter too (`canOpen`). So is the decision whether a placeholder
stands in for a node that cannot be loaded (`placeholderAccepted`).

## Model

| member | source | states |
|---|---|---|
| Graph.DeviceTypeIndex | src/engine/GraphProcessor.h:215-230 | the four I/O device kinds are numbered 0 to 3 |
| Graph.DeviceTypeAt | src/engine/GraphProcessor.h:215-230 | inverse of the numbering: each index below 4 names the kind with that number |
| Graph.FindNode | src/engine/GraphProcessor.h:86-90 | finds the first node with the id; nothing exactly when no node has it |
| Graph.FindNodeAt | src/engine/GraphProcessor.h:86-90 | with unique ids, the lookup answers the one position holding the id |
| Graph.WithoutNode | src/engine/GraphProcessor.h:107-111 | afterwards no node has the id, and every other id is present exactly when it was before |
| Graph.WithoutNodeUnique | src/engine/GraphProcessor.h:107-111 | removing a node keeps node ids unique and keeps exactly the nodes of other ids |
| Graph.Connect | src/engine/GraphProcessor.h:137-143 | a connection is appended exactly when it is legal and not yet present; otherwise the table is unchanged |
| Graph.NoDuplicatesMeans | src/engine/GraphProcessor.h:122-126 | a table has no duplicates exactly when no two of its entries are equal |
| Graph.ConnectKeepsTable | src/engine/GraphProcessor.h:137-143 | connecting keeps the table free of duplicates and every endpoint an existing node |
| Graph.LegalOnlyIsLegal | src/engine/GraphProcessor.h:168-173 | after the illegal connections are purged, every remaining connection is legal and every legal one is kept |
| Graph.LegalAt | src/engine/GraphProcessor.h:161-166 | with unique ids, legality read off the two nodes: different nodes, output port to input port, both in range, one kind |
| Graph.RemoveOneConnection | src/engine/GraphProcessor.h:152-156 | removing by endpoints deletes exactly one entry when the connection is present, and none when it is absent |
| Graph.FreshIdIsUnused | src/engine/GraphProcessor.h:92-105 | an id above every id in the table names no node, so placing it removes no node and no connection |
| Graph.PlaceNodeKeepsTables | src/engine/GraphProcessor.h:92-105 | placing a node (replacing one with the same id and dropping its connections) keeps ids unique and endpoints existing |
| Graph.RemoveKeepsConsistent | src/engine/GraphProcessor.h:107-111 | removing a node and its attached connections keeps the tables consistent |
| Graph.IllegalPassDone | src/engine/GraphProcessor.h:168-173 | the backward purge ends with exactly the legal connections, and reports a change iff one was illegal |
| Graph.RemoveAbsentChangesNothing | src/engine/GraphProcessor.h:107-111 | removing an id no node holds changes neither the node table nor the connection table |
| Graph.GraphProcessor.constructor | src/engine/GraphProcessor.h:339-343 | a new processor has no nodes, no connections and last node id 0 |
| Graph.GraphProcessor.Clear | src/engine/GraphProcessor.h:72-75 | clearing empties both tables and keeps the last node id |
| Graph.GraphProcessor.GetNode | src/engine/GraphProcessor.h:80-84 | answers a node exactly when the index is in range, and then the node at that index |
| Graph.GraphProcessor.GetNodeForId | src/engine/GraphProcessor.h:86-90 | answers the node with the id, or nothing when no node has it |
| Graph.GraphProcessor.AddNode | src/engine/GraphProcessor.h:92-105 | id 0 takes last node id + 1; a given id replaces the node of that id and drops its connections; the last node id never falls |
| Graph.GraphProcessor.RemoveNode | src/engine/GraphProcessor.h:107-111 | removes exactly when a node has the id, and then drops every connection attached to it |
| Graph.GraphProcessor.GetConnection | src/engine/GraphProcessor.h:119-120 | answers the connection at an index in range, nothing otherwise |
| Graph.GraphProcessor.GetConnectionBetween | src/engine/GraphProcessor.h:122-126 | answers a connection exactly when one joins the two endpoints |
| Graph.GraphProcessor.CanConnectPorts | src/engine/GraphProcessor.h:133-135 | true iff the connection is legal and not already present |
| Graph.GraphProcessor.AddConnection | src/engine/GraphProcessor.h:137-143 | adds exactly when it can connect, and answers whether it did |
| Graph.GraphProcessor.RemoveConnectionAt | src/engine/GraphProcessor.h:149-150 | deletes the entry at an index in range, nothing otherwise |
| Graph.GraphProcessor.RemoveConnection | src/engine/GraphProcessor.h:152-156 | removes the connection between the endpoints, and answers whether one was there |
| Graph.GraphProcessor.IsConnectionLegal | src/engine/GraphProcessor.h:161-166 | true exactly when the two nodes exist and differ, the source port is an output and the destination port an input, both in range, and the two carry one kind of signal |
| Graph.GraphProcessor.RemoveIllegalConnections | src/engine/GraphProcessor.h:168-173 | leaves exactly the legal connections in order, and answers whether any was removed |
| GraphModel.MakeArc | src/controllers/GraphManager.cpp:602-632 | the arc record made for a connection is live and stands for that connection |
| GraphModel.ArcsOf | src/controllers/GraphManager.cpp:602-632 | one live arc per connection, in order |
| GraphModel.LiveConnectionsOfArcs | src/controllers/GraphManager.cpp:602-632 | the arcs made from a table stand for exactly that table |
| GraphModel.ArcCount | src/controllers/GraphManager.cpp:602-632 | every arc is either live or missing |
| GraphModel.SameIdsSameNodes | src/controllers/GraphManager.cpp:482-572 | when document and engine list the same ids, they hold the same nodes |
| GraphModel.Replay | src/controllers/GraphManager.cpp:529-558 | replaying arcs never keeps more arcs than it was given |
| GraphModel.ReplayLive | src/controllers/GraphManager.cpp:529-558 | the live arcs a replay keeps are exactly the connections it added, in order |
| GraphModel.ReplayKeepsCopies | src/controllers/GraphManager.cpp:529-558 | every kept arc copies an input arc, and is marked missing only if the keep rule accepted it |
| GraphModel.ReplayKeepsAccepted | src/controllers/GraphManager.cpp:529-558 | every input arc the keep rule accepts survives, live or missing |
| GraphModel.ReplayKeepsTable | src/controllers/GraphManager.cpp:529-558 | a replay keeps the connection table free of duplicates and anchored |
| GraphModel.LoadKeepsAnchoredArcs | src/controllers/GraphManager.cpp:529-558 | loading keeps exactly the arcs whose two nodes are in the document |
| GraphModel.ArcsChanged | src/controllers/GraphManager.cpp:602-632 | after a rebuild the live arcs equal the connection table, which extends the old one |
| GraphModel.ArcsChangedWithoutMissing | src/controllers/GraphManager.cpp:602-632 | with no missing arcs, the rebuilt arc table mirrors the connections exactly |
| GraphModel.ArcsChangedKeepsMissing | src/controllers/GraphManager.cpp:617-630 | every missing arc survives a rebuild, live or still missing |
| GraphModel.ReplayAddsLegal | src/controllers/GraphManager.cpp:529-558 | a replay ends with every legal connection one of its arcs stands for |
| GraphModel.RebuildRestores | src/controllers/GraphManager.cpp:617-630 | a rebuild brings back every legal connection a missing arc stands for, even one just deleted |
| GraphModel.OutcomeOf | src/controllers/GraphManager.cpp:491-513 | a record is created iff the factory makes it, and fails iff neither the factory nor a placeholder serves |
| GraphModel.LoadedRecord | src/controllers/GraphManager.cpp:491-513 | a failed record is dropped; a kept one keeps its id and description |
| GraphModel.LoadedObject | src/controllers/GraphManager.cpp:491-513 | an engine node is made exactly for a kept record, with its id |
| GraphModel.LoadedIds | src/controllers/GraphManager.cpp:491-520 | after loading, document and engine list the same ids, all taken from the document |
| GraphModel.LoadedRecordsKeep | src/controllers/GraphManager.cpp:491-520 | a record survives loading exactly when it did not fail |
| GraphModel.LastIONode | src/controllers/GraphManager.cpp:114-123 | finds an I/O node of a kind exactly when the table has one, and that node has the answered id |
| GraphModel.AddedIONodes | src/controllers/GraphManager.cpp:125-173 | created I/O nodes take consecutive fresh ids after the last id |
| GraphModel.AddedIONodesCover | src/controllers/GraphManager.cpp:125-173 | every wanted, missing, creatable kind gets a node |
| GraphModel.AddedIONodesOnePerKind | src/controllers/GraphManager.cpp:125-173 | no two created nodes share a kind |
| GraphModel.RemovalsAre | src/controllers/GraphManager.cpp:125-176 | the ids removed are exactly those of the last I/O node of each existing unwanted kind |
| GraphModel.RemovalIds | src/controllers/GraphManager.cpp:125-176 | each removed id is that of an old unwanted I/O node, never a created one |
| GraphModel.EnforceIONodes | src/controllers/GraphManager.cpp:89-178 | for a table with unique ids and at most one input/output node per kind: afterwards a kind is present iff wanted and present or creatable; no kind twice; other nodes stay |
| GraphModel.NothingToEnforce | src/controllers/GraphManager.cpp:89-178 | a table holding exactly the wanted kinds plans no change |
| GraphModel.EnforceIONodesIdempotent | src/controllers/GraphManager.cpp:89-178 | for a table with unique ids and at most one input/output node per kind, enforcing a second time changes nothing |
| GraphModel.LastIONodeIsLast | src/controllers/GraphManager.cpp:114-123 | the node the scan keeps for a kind lies at or after every node of that kind |
| GraphModel.EarlierDuplicateSurvives | src/controllers/GraphManager.cpp:114-178 | with two input/output nodes of one kind, the earlier survives enforcement whatever is wanted, since only the last is removed |
| GraphManagerModel.RemoveSameId | src/controllers/GraphManager.cpp:369-397 | removing one id from document and engine keeps their id lists equal |
| GraphManagerModel.FilterOneRecord | src/controllers/GraphManager.cpp:369-397 | with unique ids, removing an id deletes exactly its one record |
| GraphManagerModel.WithoutIdsFilter | src/controllers/GraphManager.cpp:175-176 | removing ids one by one equals filtering all of them at once |
| GraphManagerModel.RecordIdsStep | src/controllers/GraphManager.cpp:175-176 | deleting one more record is filtering the document by one more id |
| GraphManagerModel.ClearStep | src/controllers/GraphManager.cpp:175-176 | dropping one more node's connections is filtering the table by one more id |
| GraphManagerModel.AbsentRecord | src/controllers/GraphManager.cpp:369-397 | with equal id lists, an id no node holds leaves every record |
| GraphManagerModel.CreatedRecords | src/controllers/GraphManager.cpp:296-309 | one record per created node, in order, carrying its id, description and ports |
| GraphManagerModel.AfterRemovals | src/controllers/GraphManager.cpp:175-176 | the live arcs still equal the connection table after any number of deletions |
| GraphManagerModel.CreatedRecordsStep | src/controllers/GraphManager.cpp:125-173 | one more kind adds at most the record of its created node |
| GraphManagerModel.EnforceCreatedRecord | src/controllers/GraphManager.cpp:160-171 | creating a wanted missing kind appends its record exactly when the factory builds it |
| GraphManagerModel.LoadedLacksLaterId | src/controllers/GraphManager.cpp:491-513 | with distinct ids, a record's id is not yet in the engine when it loads |
| GraphManagerModel.NoMissingArcs | src/controllers/GraphManager.cpp:602-632 | arcs with none missing are exactly the arcs of their connections |
| GraphManagerModel.DisconnectDrop | src/controllers/GraphManager.cpp:399-425 | deleting a detached entry keeps the filtered prefix |
| GraphManagerModel.DetachInvDone | src/controllers/GraphManager.cpp:399-425 | when the backward pass finishes, the table starts with the filtered original |
| GraphManagerModel.LoadedMissingArcFailsCountCheck | src/controllers/GraphManager.cpp:567 | a document with one arc to a missing port violates the count assertion as written |
| GraphManagerModel.ArcsAccountForConnections | src/controllers/GraphManager.cpp:433-437 | arcs number the connections plus the missing arcs |
| GraphManagerModel.RemoveRecord | src/controllers/GraphManager.cpp:369-397 | the records without the id; one fewer exactly when present |
| GraphManagerModel.HighestId | src/controllers/GraphManager.cpp:491-513 | the new last node id bounds every loaded id and is one of them or the old mark |
| GraphManagerModel.HighestIdAppend | src/controllers/GraphManager.cpp:491-513 | raising the mark node by node equals raising it over all of them |
| GraphManagerModel.GraphManager.constructor | src/controllers/GraphManager.cpp:180-182 | starts with empty document tables and last UID 0 |
| GraphManagerModel.GraphManager.GetNextUID | src/controllers/GraphManager.cpp:194-197 | answers the old UID + 1 and stores it, so UIDs strictly increase |
| GraphManagerModel.GraphManager.GetNumConnections | src/controllers/GraphManager.cpp:433-437 | the engine's count, which plus the missing arcs is the arc count |
| GraphManagerModel.GraphManager.ArcsFromConnections | src/controllers/GraphManager.cpp:602-616 | one live arc per connection, none missing |
| GraphManagerModel.GraphManager.RetryMissingArcs | src/controllers/GraphManager.cpp:617-630 | each missing arc is tried again, and kept live or missing accordingly |
| GraphManagerModel.GraphManager.ProcessorArcsChanged | src/controllers/GraphManager.cpp:602-632 | the arc table becomes the rebuild of the connections and old missing arcs |
| GraphManagerModel.GraphManager.AddConnection | src/controllers/GraphManager.cpp:458-467 | succeeds iff the engine can connect, then the arcs are rebuilt; otherwise connections and arcs are unchanged; the node tables and both id counters are always kept |
| GraphManagerModel.GraphManager.RemoveConnectionAt | src/controllers/GraphManager.cpp:469-473 | deletes the entry at the index and rebuilds the arcs; node tables and id counters kept |
| GraphManagerModel.GraphManager.RemoveConnection | src/controllers/GraphManager.cpp:475-480 | filters the connection out and rebuilds the arcs, or changes nothing when absent; node tables and id counters kept |
| GraphManagerModel.GraphManager.RemoveIllegalConnections | src/controllers/GraphManager.cpp:427-431 | keeps every legal connection, and leaves tables alone when all were legal; node tables and id counters kept |
| GraphManagerModel.GraphManager.AddNode | src/controllers/GraphManager.cpp:286-367 | a failed creation answers the invalid id and changes nothing; otherwise the node takes last id + 1 and is added to both tables; connections, arcs and the UID counter kept |
| GraphManagerModel.GraphManager.RemoveNode | src/controllers/GraphManager.cpp:369-397 | an absent id changes nothing; a present one leaves both tables without it and the arcs rebuilt; the records always lose the id; id counters kept |
| GraphManagerModel.GraphManager.DetachAt | src/controllers/GraphManager.cpp:405-420 | deletes the entry iff the request takes it |
| GraphManagerModel.GraphManager.DetachConnections | src/controllers/GraphManager.cpp:399-425 | the backward pass leaves the filtered table and reports whether it changed |
| GraphManagerModel.GraphManager.DisconnectNode | src/controllers/GraphManager.cpp:399-425 | the table starts with the connections the request does not take; when no arc was missing it is exactly those, with one live arc each; a request that takes nothing changes nothing; id counters kept |
| GraphManagerModel.GraphManager.FindIONodes | src/controllers/GraphManager.cpp:114-123 | finds the last I/O node of each kind |
| GraphManagerModel.GraphManager.EnforceKind | src/controllers/GraphManager.cpp:125-173 | handling one kind extends the plan by that kind |
| GraphManagerModel.GraphManager.RemoveNodes | src/controllers/GraphManager.cpp:175-176 | the listed nodes and their records are removed, the rest kept in order; connections and arcs are those of deleting the nodes one at a time, and exactly the connections clear of them when no arc was missing |
| GraphManagerModel.GraphManager.RemoveStep | src/controllers/GraphManager.cpp:175-176 | one deletion carries every table from the first j ids to the first j + 1 |
| GraphManagerModel.GraphManager.RemovingDone | src/controllers/GraphManager.cpp:175-176 | after the last deletion the node and record tables are filtered by all the ids |
| GraphManagerModel.GraphManager.CreateIONodes | src/controllers/GraphManager.cpp:109-173 | appends the planned nodes and one record each, leaves connections and arcs alone, and answers the planned removals |
| GraphManagerModel.GraphManager.AddMissingIONodes | src/controllers/GraphManager.cpp:89-178 | the engine table becomes the enforced table, the records gain one per created node and lose the removed ones, connections and arcs are those of the removals (exactly the connections clear of the removed nodes when no arc was missing), and the id counter grows by the nodes created |
| GraphManagerModel.GraphManager.Clear | src/controllers/GraphManager.cpp:583-600 | empties all four tables and keeps both id marks |
| GraphManagerModel.GraphManager.LoadNode | src/controllers/GraphManager.cpp:491-513 | one record loads as its outcome says, and the mark rises to its id |
| GraphManagerModel.GraphManager.InstantiateNodes | src/controllers/GraphManager.cpp:491-520 | all records load in order, and document and engine ids match |
| GraphManagerModel.GraphManager.ReconcileArcs | src/controllers/GraphManager.cpp:529-558 | the arcs are replayed against the engine |
| GraphManagerModel.GraphManager.LoadArcs | src/controllers/GraphManager.cpp:529-563 | arcs are replayed, keeping refused ones only when both nodes exist |
| GraphManagerModel.GraphManager.LoadDocument | src/controllers/GraphManager.cpp:482-563 | loads the nodes and then the anchored arcs |
| GraphManagerModel.GraphManager.SetNodeModel | src/controllers/GraphManager.cpp:482-572 | engine nodes, records, connections and arcs are those of the loaded document after the I/O nodes are enforced and the arcs rebuilt once more; the id counter is the loaded mark plus the nodes created |
| RootGraphModel.RenderModeValidMeans | src/engine/AudioEngine.h:59-61 | an integer is valid iff it is the value of a render mode |
| RootGraphModel.SlugForRenderMode | src/engine/AudioEngine.h:63-71 | every render mode has a non-empty name |
| RootGraphModel.SlugRoundTrip | src/engine/AudioEngine.h:63-71 | reading back a mode's name gives the mode |
| RootGraphModel.SlugsDistinct | src/engine/AudioEngine.h:63-71 | the two modes have different names |
| RootGraphModel.ApplyIdempotent | src/engine/AudioEngine.h:52-97 | a request applied twice does what it does once |
| RootGraphModel.RunKeepsEngineIndex | src/engine/AudioEngine.h:105-107 | no request changes the engine index or the MIDI channel |
| RootGraphModel.LockIsOneWay | src/engine/AudioEngine.h:52-57 | the lock stays on iff it was on and no unlock was asked for |
| RootGraphModel.LockedRendersSingle | src/engine/AudioEngine.h:82-89 | while locked, a render-mode request leaves a single graph |
| RootGraphModel.LockedKeepsSingle | src/engine/AudioEngine.h:82-89 | a locked single graph stays single |
| RootGraphModel.UnlockedFollowsRequest | src/engine/AudioEngine.h:82-89 | once unlocked, the graph renders in the mode asked for |
| RootGraphModel.RootGraph.constructor | src/engine/AudioEngine.h:118-123 | starts parallel, locked, channel 0, program -1, engine index -1 |
| RootGraphModel.RootGraph.IsSingle | src/engine/AudioEngine.h:80 | true iff the mode is SingleGraph |
| RootGraphModel.RootGraph.RenderModeSlug | src/engine/AudioEngine.h:79 | a name that reads back as the current mode |
| RootGraphModel.RootGraph.SetLocked | src/engine/AudioEngine.h:52-57 | the graph is unlocked whatever is passed |
| RootGraphModel.RootGraph.SetRenderMode | src/engine/AudioEngine.h:82-89 | a locked graph becomes SingleGraph; otherwise it takes the mode |
| RootGraphModel.RootGraph.SetMidiProgram | src/engine/AudioEngine.h:91-97 | the program is stored and the other settings are as the request function says |
| Midi.Channel | tests/ProgramChangeMapTest.cpp:50-53 | a channel from 1 to 16, 0 exactly for a system message |
| Midi.ProgramChangeNumber | tests/ProgramChangeMapTest.cpp:60-61 | a program number from 0 to 255 |
| Midi.StatusByte | tests/ProgramChangeMapTest.cpp:50-53 | a status byte whose kind and channel read back |
| Midi.ProgramChange | tests/ProgramChangeMapTest.cpp:50-51 | a two-byte program change on the channel, with program taken modulo 128 |
| Midi.NoteOn | tests/ProgramChangeMapTest.cpp:52 | a note-on on the channel that is none of the other kinds |
| Midi.NoteOff | tests/ProgramChangeMapTest.cpp:53 | a note-off on the channel that is none of the other kinds |
| Midi.ProgramChangeOfItself | tests/ProgramChangeMapTest.cpp:60-61 | building a two-byte program change from its own channel and number gives it back |
| ProgramChangeMap.CountPorts | tests/ProgramChangeMapTest.cpp:17-18 | counts at most the given ports |
| ProgramChangeMap.NodePortCounts | tests/ProgramChangeMapTest.cpp:17-18 | the node has one MIDI input, one MIDI output and no audio ports |
| ProgramChangeMap.FindInput | tests/ProgramChangeMapTest.cpp:23-37 | the first entry for the program, nothing when none matches |
| ProgramChangeMap.UpsertedMaps | tests/ProgramChangeMapTest.cpp:23-37 | after adding, the program maps through the new entry, inputs stay distinct, and a present entry is replaced in place |
| ProgramChangeMap.UpsertedKeepsOthers | tests/ProgramChangeMapTest.cpp:23-37 | adding leaves every other program's mapping alone |
| ProgramChangeMap.UpsertedIdempotent | tests/ProgramChangeMapTest.cpp:33-37 | adding the same entry twice equals adding it once |
| ProgramChangeMap.FirstMatch | tests/ProgramChangeMapTest.cpp:23-37 | the lookup answers a matching position with none earlier |
| ProgramChangeMap.RenderEvent | tests/ProgramChangeMapTest.cpp:54-69 | frame kept; other messages unchanged; a mapped program change becomes one to the output program on the same channel |
| ProgramChangeMap.Rendered | tests/ProgramChangeMapTest.cpp:54-69 | the render pass rewrites each event on its own, keeping the count |
| ProgramChangeMap.IdentityMappingKeepsEvent | tests/ProgramChangeMapTest.cpp:28-31 | a program mapped to itself leaves the event as it was |
| ProgramChangeMap.ProgramChangeMapNode.constructor | tests/ProgramChangeMapTest.cpp:17-20 | a new node has no entries |
| ProgramChangeMap.ProgramChangeMapNode.Clear | tests/ProgramChangeMapTest.cpp:20 | clearing removes every entry |
| ProgramChangeMap.ProgramChangeMapNode.GetProgramEntry | tests/ProgramChangeMapTest.cpp:23-37 | an entry exactly when the index is in range |
| ProgramChangeMap.ProgramChangeMapNode.AddProgramEntry | tests/ProgramChangeMapTest.cpp:23-26 | the entries become the upsert, with inputs distinct |
| ProgramChangeMap.ProgramChangeMapNode.AddIdentityEntry | tests/ProgramChangeMapTest.cpp:28-31 | the program is mapped to itself |
| ProgramChangeMap.ProgramChangeMapNode.Render | tests/ProgramChangeMapTest.cpp:54 | the buffer is rewritten in place, event by event |
| ProgramChangeMap.TestMapEntries | tests/ProgramChangeMapTest.cpp:20-37 | the unit test's entries end as 3→6 and 5→5 |
| ProgramChangeMap.DuplicateCheckAsWrittenPassesWrongInput | tests/ProgramChangeMapTest.cpp:36 | the check as written passes an entry whose input is 7, which the intended check refuses |
| ProgramChangeMap.DuplicateCheckHolds | tests/ProgramChangeMapTest.cpp:32-36 | the intended check holds of the first entry of the test's map and implies the check as written |
| ProgramChangeMap.TestRender | tests/ProgramChangeMapTest.cpp:50-69 | the unit test's block renders to programs 6 and 5, a note-on, a note-off, frames kept |
| MidiEngineModel.FilterKeepsNoDuplicatePairs | src/engine/midiengine.cpp:261-287 | removing registrations keeps pairs unique |
| MidiEngineModel.RemovePairMeans | src/engine/midiengine.cpp:261-273 | exactly the entries of the pair go, the rest stay in order |
| MidiEngineModel.RemoveCallbackMeans | src/engine/midiengine.cpp:275-287 | every entry of the callback goes from every device, the rest stay in order |
| MidiEngineModel.FindHolder | src/engine/midiengine.cpp:173-208 | finds the first input open with the identifier, nothing when none is |
| MidiEngineModel.Open | src/engine/midiengine.cpp:173-208 | an open input is answered as it is; an absent one is opened, disabled, exactly when asked and the device opens |
| MidiEngineModel.OpenKeepsUnique | src/engine/midiengine.cpp:173-208 | no device is ever open twice |
| MidiEngineModel.SetEnabledMeans | src/engine/midiengine.cpp:211-228 | afterwards enabled iff asked and open or openable; other inputs unchanged |
| MidiEngineModel.SetEnabledIdempotent | src/engine/midiengine.cpp:211-228 | asking twice equals asking once |
| MidiEngineModel.EngineDeliveryMeans | src/engine/midiengine.cpp:289-298 | active sense goes nowhere; others reach consumers, catch-alls and the source's registrations, in order |
| MidiEngineModel.HolderDeliveryMeans | src/engine/midiengine.cpp:148-159 | active sense goes nowhere; others reach consumers, and matching entries when enabled, in order |
| MidiEngineModel.HolderWithinEngine | src/engine/midiengine.cpp:148-159 | an enabled holder reaches no more than the engine dispatch would |
| MidiEngineModel.Collect | src/engine/midiengine.cpp:155-158 | walking the callbacks collects exactly the filtered list |
| MidiEngineModel.MidiEngine.constructor | src/engine/midiengine.cpp:173-208 | starts with no callbacks and no open inputs |
| MidiEngineModel.MidiEngine.GetMidiInput | src/engine/midiengine.cpp:173-208 | behaves as Open |
| MidiEngineModel.MidiEngine.IsMidiInputEnabled | src/engine/midiengine.cpp:230-237 | true iff the input is open and enabled |
| MidiEngineModel.MidiEngine.SetMidiInputEnabled | src/engine/midiengine.cpp:211-228 | the inputs become SetEnabled's; a change is announced iff the state changed |
| MidiEngineModel.MidiEngine.RemoveMidiInputCallbackFor | src/engine/midiengine.cpp:261-273 | the registrations of the pair go |
| MidiEngineModel.MidiEngine.RemoveMidiInputCallback | src/engine/midiengine.cpp:275-287 | every registration of the callback goes |
| MidiEngineModel.MidiEngine.AddMidiInputCallback | src/engine/midiengine.cpp:239-259 | replaces the pair's registration; registers iff catch-all, enabled or consumer; a consumer opens its input |
| MidiEngineModel.MidiEngine.HandleIncomingMidiMessage | src/engine/midiengine.cpp:289-298 | delivers to exactly the engine dispatch list |
| MidiEngineModel.MidiEngine.HandleHolderMessage | src/engine/midiengine.cpp:148-159 | delivers to exactly the holder dispatch list |
| MidiEngineModel.AppendKeepsNoDuplicatePairs | src/engine/midiengine.cpp:239-259 | appending an absent pair keeps pairs unique |
| MidiEngineModel.AddRegistersOnce | src/engine/midiengine.cpp:239-259 | after registering, the pair is there at most once, exactly once when kept |
| Messages.ChannelForm | src/messages.hpp:93-102 | a channel-form request with its channels and invalid ports |
| Messages.PortForm | src/messages.hpp:104-113 | a port-form request with its ports and channels -1 |
| Messages.RemoveNode | src/messages.hpp:80-82 | a one-node removal with an empty list |
| Messages.RemoveNodes | src/messages.hpp:80-82 | a list removal with the single id invalid |
| Messages.DisconnectAll | src/messages.hpp:233-243 | the default request covers every direction and kind |
| Messages.DisconnectAllTakes | src/messages.hpp:233-243 | the default takes exactly the node's connections, and every narrower request takes fewer |
| Messages.DisconnectAllLeaves | src/messages.hpp:233-243 | carried out by the graph manager with no arc missing, the default request leaves exactly the connections not joining the node through two audio or two MIDI ports |
| Messages.GetPluginDescription | src/messages.hpp:56-64 | an internal plugin with no audio channels, not an instrument |
| Messages.DescriptionTellsDirection | src/messages.hpp:56-64 | the identifier names the input device iff the request is for an input |
| Version.FindBreak | src/Version.cpp:33 | the first ',' or '.', or the end |
| Version.Split | src/Version.cpp:33 | at least one token, none holding a break |
| Version.TrimAll | src/Version.cpp:34 | each token trimmed, count kept |
| Version.RemoveEmpty | src/Version.cpp:35 | only non-empty tokens remain, all of them when none is empty |
| Version.Segments | src/Version.cpp:30-37 | non-empty, trimmed and break-free segments |
| Version.SegmentsOfJoin | src/Version.cpp:30-37 | joining segments with ',' or '.' and splitting gives them back |
| Version.SegmentsIgnoreSeparatorKind | src/Version.cpp:33 | ',' and '.' split alike |
| Version.SegmentsOfJoinDropsEmpty | src/Version.cpp:35 | empty tokens are dropped |
| Version.Decimal | src/Version.cpp:43-48 | a non-empty string of digits |
| Version.IntValueOfDecimal | src/Version.cpp:43-48 | getIntValue reads a number's decimal back |
| Version.VersionString | src/Version.cpp:30-37 | the segments of a dotted number list are the numbers' decimals |
| Version.AsHexIntegerOfComponents | src/Version.cpp:39-51 | a.b.c packs to a·65536 + b·256 + c; a fourth part shifts by 256 and adds d |
| Version.PackLexLess | src/Version.cpp:39-51 | for two versions with the same number (three or four) of byte-sized parts, packing preserves lexicographic order |
| Version.FirstDifference | src/Version.cpp:39-51 | the first position where two lists differ |
| Version.NewerVersionIsLexicographic | src/Version.cpp:102 | for two versions with the same number (three or four) of byte-sized parts, a higher packed value means a lexicographically later version |
| Version.ToInt32 | src/Version.cpp:43-49 | the 32-bit `int` holding a value: in [-2^31, 2^31), equal to it modulo 2^32, and the value itself when it fits |
| Version.PackFitsInt | src/Version.cpp:39-51 | byte-sized parts, with a first part below 128 when there are four, pack below 2^31, so the program's `int` is the packed value |
| Version.OverflowThresholds | src/Version.cpp:43-49 | 128.0.0.0 and 32768.0.0 are the first versions whose packed value reaches 2^31, and the program holds -2^31 for both |
| Version.NewerVersionInProgram | src/Version.cpp:102 | for two versions with the same number (three or four) of parts whose values fit the `int`, the program's "newer" test is exactly the lexicographic order of the parts; the build-time `ProjectInfo::versionNumber` is taken to be the running version's packed value |
| Version.MixedCountMisorders | src/Version.cpp:39-51 | 1.0.0.0 packs higher than the later 2.0.0, though both fit the `int`: versions with different part counts are not ordered by the test |
| Version.WrappedComparison | src/Version.cpp:102 | 128.0.0.0 is later than 1.0.0.0, yet the program's wrapped value for it is the lower |
| JuceString.TrimStart | src/script.cpp:24 | drops leading white space only |
| JuceString.TrimEnd | src/script.cpp:24 | drops trailing white space only |
| JuceString.Trim | src/script.cpp:24 | a trimmed string from the input's characters; a trimmed input is kept |
| JuceString.FirstOccurrence | src/script.cpp:33 | the first position of a substring, nothing when absent |
| JuceString.UpToFirstOccurrenceOf | src/script.cpp:35 | a prefix; all when absent |
| JuceString.FromFirstOccurrenceOf | src/script.cpp:35 | a suffix; empty when absent |
| JuceString.SplitAtFirst | src/script.cpp:35 | before + t + after gives the input; before lacks t |
| JuceString.FromLastOccurrenceOf | src/script.cpp:41 | the suffix after the last occurrence, without the character |
| JuceString.Lines | src/script.cpp:18 | lines without break characters |
| JuceString.LinesOfJoin | src/script.cpp:18 | splitting joined lines gives them back |
| JuceString.NoBreakChars | src/script.cpp:18 | no '\n' and no '\r' means no line break |
| ScriptHeader.SetName | src/script.cpp:39-54 | @script fills the name only when empty |
| ScriptHeader.SetKind | src/script.cpp:39-54 | @kind fills the kind after its last '.' only when empty |
| ScriptHeader.SetAuthor | src/script.cpp:39-54 | @author fills the author only when empty |
| ScriptHeader.SearchTags | src/script.cpp:31-56 | the four tags are tried in turn |
| ScriptHeader.ScanLine | src/script.cpp:24-74 | one line is read into the scan state |
| ScriptHeader.ParseScriptComments | src/script.cpp:12-78 | the loop yields the header of the text |
| ScriptHeader.Parse | src/script.cpp:119-124 | the header, with no code |
| ScriptHeader.ScanFields | src/script.cpp:12-78 | a set field is never overwritten; a field changes only from a line holding its tag; the kind holds no '.' |
| ScriptHeader.NoTagsNoHeader | src/script.cpp:12-78 | a text without tags has a blank header |
| ScriptHeader.StopsAtCode | src/script.cpp:64-74 | the first code line ends the scan |
| ScriptHeader.StopsAtBlockEnd | src/script.cpp:58-62 | the line closing a block ends the scan |
| ScriptHeader.BlockLinesScanned | src/script.cpp:26-27 | lines inside a block are searched |
| ScriptHeader.CommentLineScanned | src/script.cpp:29 | a "--" line is searched |
| ScriptHeader.HeaderThenCode | src/script.cpp:64-74 | whatever follows the first code line after a comment header cannot change the header |
| ScriptHeader.TaggedLine | src/script.cpp:35 | a tag's value is the trimmed text after the tag |
| ScriptHeader.OnlyTagApplies | src/script.cpp:31-56 | a line with one tag sets only that field |
| ScriptHeader.ScanComments | src/script.cpp:12-78 | a header of plain comment lines is read line by line, every tag line applied in order |
| ScriptHeader.Make | src/script.cpp:207-224 | the script made carries the given name |
| ScriptHeader.MakeCodeLines | src/script.cpp:207-224 | for a one-word kind, the made text splits back into exactly the lines written |
| ScriptHeader.MakeOffers | src/script.cpp:207-224 | the header lines make writes, read in order, give the kind and author "Your Name" and nothing else |
| ScriptHeader.MakeParsesBack | src/script.cpp:207-224 | a made script's header parses back to no name, the kind after its last '.', author "Your Name" and no description |
| ScriptHeader.Anonymous | src/script.cpp:173-188 | the anonymous script is named "Anonymous Script" |
| ScriptHeader.View | src/script.cpp:190-205 | the view script is named "View Script" |
| ScriptHeader.BuiltinOffers | src/script.cpp:173-205 | the built-in header lines, read in order, give name "amp", the kind and author "Michael Fisher" |
| ScriptHeader.BuiltinParsesBack | src/script.cpp:173-205 | a built-in header parses back to its fields |
| ScriptHeader.AnonymousParsesBack | src/script.cpp:173-188 | parses to ("amp", "Anonymous", "Michael Fisher", "", "") |
| ScriptHeader.ViewParsesBack | src/script.cpp:190-205 | parses to ("amp", "View", "Michael Fisher", "", "") |

## Left out

- Version.AsHexInteger: is the packed value as an unbounded integer. The source packs into a signed 32-bit `int` (src/Version.cpp:43-49), which overflows once the packed value reaches 2^31. With four segments that happens when the first part is 128 or more; with three byte-sized later parts, when the first part is 32768 or more. Version.AsHexInt32 is the value the program holds, assuming two's-complement wrap-around. Version.OverflowThresholds pins both thresholds.
- AsHexIntegerOfComponents: states the packing over unbounded integers, so it agrees with the program's `int` only below 2^31. Version.PackFitsInt states that byte-sized parts, with a first part below 128 when there are four, stay below it.
- NewerVersionInProgram: covers only two versions with the same number of parts. Across part counts the program's test at src/Version.cpp:102 misorders versions even when both fit the `int`, as Version.MixedCountMisorders shows for 2.0.0 and 1.0.0.0.
- PackLexLess: states the order of the unbounded packed values, including four-part versions whose first part is 128 to 255. For those the program's `int` wraps, and the order does not hold of it. Version.NewerVersionInProgram states the order for the program's value, where it holds.
- NewerVersionIsLexicographic: compares the unbounded packed values. For four-part versions whose first part is 128 to 255, the comparison at src/Version.cpp:102 sees a wrapped value instead. Version.NewerVersionInProgram covers the range where the program's comparison is right, and Version.WrappedComparison exhibits 128.0.0.0 against 1.0.0.0, where it is wrong.
- Graph.GraphProcessor: src/engine/GraphProcessor.cpp is not part of this model, so five behaviours the header does not document are the model's own choices:
  - `addConnection` appends the new connection at the end (src/engine/GraphProcessor.h:137-143). A JUCE-style graph may keep its table sorted instead.
  - Legality is Graph.Legal: distinct existing nodes, an output port to an input port, both in range, one kind. This goes beyond the prose at :133-135 and :159-166.
  - `addNode` with id 0 takes last node id + 1, and a given id raises the last node id to at least that id (:92-105). A replaced node is removed and the new one appended.
  - `clear` keeps the last node id (:72-75).
  - A new processor's last node id is 0 (the constructor's body is in the .cpp; the fields are declared at :339-343).
  - These contracts rest on the append order: Graph.Connect, Graph.GraphProcessor.AddConnection, GraphModel.ReplayLive ("in order"), GraphModel.ArcsChanged ("extends the old table"), and GraphManagerModel.GraphManager.DisconnectNode ("the table starts with").
- GraphManagerModel.GraphManager.GetNextUID: does not model the wrap-around of the `uint32` counter.
- Graph.GraphProcessor.IsConnectionLegal: does not include the feedback check `isAnInputTo` (src/engine/GraphProcessor.h:363). Its body is not part of this model.
- GraphManagerModel.GraphManager.SetNodeModel: requires the saved node ids to be distinct and non-zero (`LoadableIds`). The source does not check this, and its outcome for repeated ids depends on engine internals that are not part of this model.
- GraphManagerModel.GraphManager.AddNode: covers only the automatic id of `addNode (desc, rx, ry, nodeId)` (src/controllers/GraphManager.cpp:286), that is a `nodeId` of 0. With a given id the engine replaces the node holding that id (Graph.GraphProcessor.AddNode models that case), while the document appends a second record for the id; that path is not modelled.
- GraphManagerModel.GraphManager.AddNode: the branch for a node that holds a nested graph (src/controllers/GraphManager.cpp:311-315) is not modelled. It loads the node's own document into the nested graph's manager and enforces that graph's input/output nodes. Nested graphs are not part of this model.
- GraphManagerModel.GraphManager.DisconnectNode: does not promise that none of the connections the request takes remains. Each deletion rebuilds the arcs and retries the missing ones (src/controllers/GraphManager.cpp:417, :617-630). So a missing arc record for a legal connection the request took brings that connection back, as GraphModel.RebuildRestores states.
- ScriptHeader.MakeParsesBack: restricted to a kind that is one word (ScriptHeader.OneWord): non-empty, with no white space or line break, and with no '@' and no ']'. A `juce::Identifier` may contain '@' and ']'. For such kinds the round trip is not proved, because the parser treats those characters as tag and block markers. A kind with a break would be split across lines when the header is written.
- Messages.ChannelForm: requires both channels to be non-negative, which is the source's own `jassert`.
- GraphManager `addNode (const Node&)` (src/controllers/GraphManager.cpp:244-284) is not modelled. It passes the record's own id, when it has one, to `createFilter` (:255-256). The engine then replaces any node holding that id (:233), which is the given-id case of Graph.GraphProcessor.AddNode. The rest of its work copies ValueTree properties.
- Bus layouts in `addNode` (src/controllers/GraphManager.cpp:317-352) and `setupNode` (:634-680) are not modelled: they concern the plugin's channel layout and the document's ValueTree properties.
- The document's `syncArcsModel` and `NodeModelUpdater` are not part of this model.
- Audio rendering, device I/O, `processMidiBuffer` (src/engine/midiengine.cpp:300-318) and the settings XML are left out: they are audio and device work.
- Locks (`ScopedLock`) are no-ops: the model is sequential.
- `changed()` notifications are left out, apart from the count in `MidiEngine.SetMidiInputEnabled`. The `loaded` flag and AlertWindow pop-ups are left out: they are user-interface signals.
- The plugin factory is a deterministic function parameter. So are device availability (`canOpen`) and whether a placeholder stands in (`placeholderAccepted`). Their real work is foreign code.
- A MIDI input opened by `getMidiInput` starts disabled. Its default is set in a header that is not part of this model.
- KV_INVALID_NODE and KV_INVALID_PORT are modelled as 0 and 0xFFFFFFFF. Their definitions are not part of this model.
- The ProgramChangeMapNode class is not part of this model. Its behaviour is modelled from the expectations in tests/ProgramChangeMapTest.cpp. A repeated input program replaces the whole entry, name included.
- `ScriptInfo::read` (src/script.cpp:80-117), which runs Lua, is left out. So are `parse (File)` (:126-137) and the gzip helpers (:163-164): they are file and interpreter I/O.
- A Script object is modelled only by its name and code text.
- Node records (ValueTrees) are modelled by node id and descriptor. Their other properties are not modelled.

## Findings

| source | as written | input that shows it | evidently intended | confidence | as-written member | corrected member |
|---|---|---|---|---|---|---|
| tests/ProgramChangeMapTest.cpp:36 | the "does not duplicate" check writes `=` for the input, which assigns the value of `3 && entry.out == 6` (1 or 0) to the input and reads it back, so only the output is compared | an entry mapping 7 to 6 passes | the entry maps 3 to 6 | not executed | ProgramChangeMap.DuplicateCheckAsWrittenPassesWrongInput | ProgramChangeMap.DuplicateCheckHolds |
| src/controllers/GraphManager.cpp:567 (also :435) | asserts that the arc table has as many entries as the engine has connections | a document with nodes 1 and 2 and one arc 1:5 → 2:0, where node 1 has no port 5: the arc is kept marked missing, so there is 1 arc and 0 connections | the arc count equals the connections plus the arcs marked missing | not executed | GraphManagerModel.LoadedMissingArcFailsCountCheck | GraphManagerModel.ArcsAccountForConnections |
