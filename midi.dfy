/**
 * MIDI messages as the host handles them: the raw bytes of one message,
 * and events that pair a message with its sample position in a block.
 * The predicates and constructors follow juce::MidiMessage.
 */
module Midi {

  newtype byte = b: int | 0 <= b < 256

  /** The status byte's upper half names the kind of message. */
  function Kind(status: byte): int
  {
    status as int / 16
  }

  datatype MidiMessage = MidiMessage(data: seq<byte>)
  {
    /** Active sense: the single status byte 0xFE, which devices send to
        say they are still there. */
    predicate IsActiveSense()
    {
      |data| > 0 && data[0] == 0xFE
    }

    predicate IsProgramChange()
    {
      |data| > 0 && Kind(data[0]) == 0xC
    }

    predicate IsNoteOn()
    {
      |data| > 2 && Kind(data[0]) == 0x9 && data[2] != 0
    }

    /** A note-off, or a note-on with velocity zero, which means the same. */
    predicate IsNoteOff()
    {
      |data| > 2 && (Kind(data[0]) == 0x8 || (Kind(data[0]) == 0x9 && data[2] == 0))
    }

    /** The channel, 1 to 16, of a channel message; 0 for a system message. */
    function Channel(): (c: int)
      requires |data| > 0
      ensures 0 <= c <= 16
      ensures c == 0 <==> Kind(data[0]) == 0xF
    {
      if Kind(data[0]) == 0xF then 0 else data[0] as int % 16 + 1
    }

    function ProgramChangeNumber(): (p: int)
      requires IsProgramChange() && |data| > 1
      ensures 0 <= p < 256
    {
      data[1] as int
    }
  }

  /** The status byte of a channel message of the given kind. */
  function StatusByte(kind: int, channel: int): (b: byte)
    requires 0x8 <= kind <= 0xE && 1 <= channel <= 16
    ensures Kind(b) == kind && b as int % 16 + 1 == channel
  {
    (kind * 16 + channel - 1) as byte
  }

  /** MidiMessage::programChange: the program number is taken modulo 128. */
  function ProgramChange(channel: int, program: int): (m: MidiMessage)
    requires 1 <= channel <= 16
    ensures m.IsProgramChange() && |m.data| == 2
    ensures m.Channel() == channel && m.ProgramChangeNumber() == program % 128
    ensures !m.IsActiveSense() && !m.IsNoteOn() && !m.IsNoteOff()
  {
    MidiMessage([StatusByte(0xC, channel), (program % 128) as byte])
  }

  function NoteOn(channel: int, note: int, velocity: byte): (m: MidiMessage)
    requires 1 <= channel <= 16 && 0 <= note < 128 && velocity != 0
    ensures m.IsNoteOn() && !m.IsNoteOff() && !m.IsProgramChange() && !m.IsActiveSense()
    ensures m.Channel() == channel
  {
    MidiMessage([StatusByte(0x9, channel), note as byte, velocity])
  }

  function NoteOff(channel: int, note: int): (m: MidiMessage)
    requires 1 <= channel <= 16 && 0 <= note < 128
    ensures m.IsNoteOff() && !m.IsNoteOn() && !m.IsProgramChange() && !m.IsActiveSense()
    ensures m.Channel() == channel
  {
    MidiMessage([StatusByte(0x8, channel), note as byte, 0])
  }

  /** A two-byte program change is the message `ProgramChange` builds
      from its own channel and number. */
  lemma ProgramChangeOfItself(m: MidiMessage)
    requires m.IsProgramChange() && |m.data| == 2 && m.data[1] < 128
    ensures ProgramChange(m.Channel(), m.ProgramChangeNumber()) == m
  {
    var r := ProgramChange(m.Channel(), m.ProgramChangeNumber());
    assert r.data[0] == m.data[0];
    assert r.data[1] == m.data[1];
  }

  /** A message at a sample position within a block. */
  datatype Event = Event(message: MidiMessage, frame: nat)
}
