/**
 * The application messages that ask the controllers to change a graph
 * (src/messages.hpp): connection requests in their two forms, node
 * removal, node disconnection and MIDI device nodes.  Each message is a
 * value fixed at construction; the constructors decide which form holds.
 */
module Messages {
  import opened Graph
  import opened GraphModel
  import opened GraphManagerModel
  import opened Seqs

  newtype uint32 = x: int | 0 <= x < 0x1_0000_0000

  /** The port number that stands for "no port". */
  const InvalidPort: uint32 := 0xFFFF_FFFF

  // ----- connection requests ------------------------------------------

  datatype ConnectionAction = AddConnection | RemoveConnection

  /** A request to add or remove a connection, either between two channels
      or between two ports. */
  datatype ConnectionMessage = ConnectionMessage(
    action: ConnectionAction,
    sourceNode: uint32, sourcePort: uint32, destNode: uint32, destPort: uint32,
    sourceChannel: int, destChannel: int)
  {
    /** Channel form: both channels are given. */
    predicate UseChannels()
    {
      sourceChannel >= 0 && destChannel >= 0
    }

    /** Port form: anything that is not the channel form. */
    predicate UsePorts()
    {
      !UseChannels()
    }
  }

  /** A request between two channels; the ports are left unset.  Both
      channels must be given. */
  function ChannelForm(action: ConnectionAction, s: uint32, sc: int, d: uint32, dc: int): (m: ConnectionMessage)
    requires sc >= 0 && dc >= 0
    ensures m.UseChannels() && !m.UsePorts()
    ensures m.action == action && m.sourceNode == s && m.destNode == d
    ensures m.sourceChannel == sc && m.destChannel == dc
    ensures m.sourcePort == InvalidPort && m.destPort == InvalidPort
  {
    ConnectionMessage(action, s, InvalidPort, d, InvalidPort, sc, dc)
  }

  /** A request between two ports; the channels are set to -1. */
  function PortForm(action: ConnectionAction, s: uint32, sp: uint32, d: uint32, dp: uint32): (m: ConnectionMessage)
    ensures m.UsePorts() && !m.UseChannels()
    ensures m.action == action && m.sourceNode == s && m.destNode == d
    ensures m.sourcePort == sp && m.destPort == dp
    ensures m.sourceChannel == -1 && m.destChannel == -1
  {
    ConnectionMessage(action, s, sp, d, dp, -1, -1)
  }

  // ----- node removal ---------------------------------------------------

  /** A request to remove one node by id, or a list of nodes. */
  datatype RemoveNodeMessage = RemoveNodeMessage(nodeId: uint32, nodes: seq<uint32>)

  const InvalidNodeId: uint32 := InvalidNode as uint32

  /** Removal of one node. */
  function RemoveNode(nodeId: uint32): (m: RemoveNodeMessage)
    ensures m.nodeId == nodeId && m.nodes == []
  {
    RemoveNodeMessage(nodeId, [])
  }

  /** Removal of a list of nodes: the single id is left invalid. */
  function RemoveNodes(nodes: seq<uint32>): (m: RemoveNodeMessage)
    ensures m.nodeId == InvalidNodeId && m.nodes == nodes
  {
    RemoveNodeMessage(InvalidNodeId, nodes)
  }

  // ----- disconnection --------------------------------------------------

  /** A request to disconnect a node, by direction and by signal kind. */
  datatype DisconnectNodeMessage = DisconnectNodeMessage(node: nat, inputs: bool, outputs: bool, audio: bool, midi: bool)

  /** The default request: every direction and every kind. */
  function DisconnectAll(node: nat): (m: DisconnectNodeMessage)
    ensures m.node == node && m.inputs && m.outputs && m.audio && m.midi
  {
    DisconnectNodeMessage(node, true, true, true, true)
  }

  /** Whether a request takes away connection `c` of the table `objects`. */
  predicate Takes(objects: seq<NodeObject>, m: DisconnectNodeMessage, c: Connection)
  {
    Detaches(objects, c, m.node, m.inputs, m.outputs, m.audio, m.midi)
  }

  /** The default request takes away exactly the connections that touch the
      node and join two audio ports or two MIDI ports; any other request
      takes away no more than it. */
  lemma DisconnectAllTakes(objects: seq<NodeObject>, node: nat, c: Connection, m: DisconnectNodeMessage)
    requires m.node == node
    ensures Takes(objects, DisconnectAll(node), c) <==>
      (c.sourceNode == node || c.destNode == node) &&
      ((PortTypeOf(objects, c.sourceNode, c.sourcePort) == Audio && PortTypeOf(objects, c.destNode, c.destPort) == Audio) ||
       (PortTypeOf(objects, c.sourceNode, c.sourcePort) == Midi && PortTypeOf(objects, c.destNode, c.destPort) == Midi))
    ensures Takes(objects, m, c) ==> Takes(objects, DisconnectAll(node), c)
  {
  }

  /** Carried out by `GraphManager.DisconnectNode` with its own switches,
      the default request leaves, when no arc record is missing, exactly
      the connections that do not join the node through two audio ports or
      two MIDI ports. */
  lemma DisconnectAllLeaves(objects: seq<NodeObject>, connections: seq<Connection>, node: nat)
    ensures var m := DisconnectAll(node);
            forall c :: c in Filter(connections, KeepAttached(objects, m.node, m.inputs, m.outputs, m.audio, m.midi)) <==>
              && c in connections
              && !((c.sourceNode == node || c.destNode == node) &&
                   ((PortTypeOf(objects, c.sourceNode, c.sourcePort) == Audio && PortTypeOf(objects, c.destNode, c.destPort) == Audio) ||
                    (PortTypeOf(objects, c.sourceNode, c.sourcePort) == Midi && PortTypeOf(objects, c.destNode, c.destPort) == Midi)))
  {
    var m := DisconnectAll(node);
    FilterMembers(connections, KeepAttached(objects, m.node, m.inputs, m.outputs, m.audio, m.midi));
  }

  // ----- MIDI device nodes ----------------------------------------------

  /** What a plugin node is made from. */
  datatype PluginDescription = PluginDescription(
    pluginFormatName: string, fileOrIdentifier: string,
    numInputChannels: int, numOutputChannels: int, isInstrument: bool)

  /** A request to add a node for a MIDI device. */
  datatype AddMidiDeviceMessage = AddMidiDeviceMessage(device: string, inputDevice: bool)

  const MidiInputDeviceId := "element.midiInputDevice"
  const MidiOutputDeviceId := "element.midiOutputDevice"

  /** The internal plugin standing for a MIDI device: no audio channels,
      not an instrument, and an identifier saying which direction. */
  function GetPluginDescription(m: AddMidiDeviceMessage): (desc: PluginDescription)
    ensures desc.pluginFormatName == "Internal"
    ensures desc.numInputChannels == 0 && desc.numOutputChannels == 0 && !desc.isInstrument
    ensures desc.fileOrIdentifier == MidiInputDeviceId || desc.fileOrIdentifier == MidiOutputDeviceId
  {
    PluginDescription("Internal", if m.inputDevice then MidiInputDeviceId else MidiOutputDeviceId, 0, 0, false)
  }

  /** The identifier tells the direction: it names the input device exactly
      when the message asks for an input. */
  lemma DescriptionTellsDirection(m: AddMidiDeviceMessage)
    ensures GetPluginDescription(m).fileOrIdentifier == MidiInputDeviceId <==> m.inputDevice
    ensures GetPluginDescription(m).fileOrIdentifier == MidiOutputDeviceId <==> !m.inputDevice
  {
    assert MidiInputDeviceId[15] != MidiOutputDeviceId[15];
  }
}
