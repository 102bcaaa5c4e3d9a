/**
 * The program-change map node: a list of entries, each mapping an incoming
 * program number to an outgoing one, and a render pass that rewrites the
 * program changes of a MIDI block through the map.  Adding an entry for a
 * program already mapped replaces that entry where it stands.
 */
module ProgramChangeMap {
  import opened Optional
  import opened Midi
  import opened Graph

  datatype ProgramEntry = ProgramEntry(name: string, programIn: int, programOut: int)

  /** The node's ports: one MIDI input and one MIDI output. */
  const NodePorts: seq<Port> := [Port(Midi, true), Port(Midi, false)]

  /** How many of `ports` are of the given kind and direction. */
  function CountPorts(ports: seq<Port>, kind: PortType, isInput: bool): (n: nat)
    ensures n <= |ports|
  {
    if ports == [] then 0
    else (if ports[0] == Port(kind, isInput) then 1 else 0) + CountPorts(ports[1..], kind, isInput)
  }

  lemma NodePortCounts()
    ensures CountPorts(NodePorts, Midi, true) == 1 && CountPorts(NodePorts, Midi, false) == 1
    ensures CountPorts(NodePorts, Audio, true) == 0 && CountPorts(NodePorts, Audio, false) == 0
  {
    assert NodePorts[1..][1..] == [];
  }

  /** Position of the entry for program `programIn`, if there is one. */
  function FindInput(entries: seq<ProgramEntry>, programIn: int): (r: Option<nat>)
    ensures r.Some? ==> r.value < |entries| && entries[r.value].programIn == programIn
    ensures r.Some? ==> forall j :: 0 <= j < r.value ==> entries[j].programIn != programIn
    ensures r.None? ==> forall j :: 0 <= j < |entries| ==> entries[j].programIn != programIn
  {
    if entries == [] then None
    else if entries[0].programIn == programIn then Some(0)
    else match FindInput(entries[1..], programIn) {
      case None => None
      case Some(k) => Some(k + 1)
    }
  }

  /** No two entries map the same program. */
  predicate DistinctInputs(entries: seq<ProgramEntry>)
  {
    forall i, j :: 0 <= i < j < |entries| ==> entries[i].programIn != entries[j].programIn
  }

  /** The entries after adding `e`: the entry for the same program is
      replaced in place, otherwise `e` goes at the end. */
  function Upserted(entries: seq<ProgramEntry>, e: ProgramEntry): seq<ProgramEntry>
  {
    match FindInput(entries, e.programIn)
    case Some(i) => entries[i := e]
    case None => entries + [e]
  }

  /** After adding, the program maps through the new entry, every other
      program maps as before, and the list grows exactly when the program
      was not yet mapped. */
  lemma UpsertedMaps(entries: seq<ProgramEntry>, e: ProgramEntry)
    requires DistinctInputs(entries)
    ensures var r := Upserted(entries, e);
            && DistinctInputs(r)
            && FindInput(r, e.programIn).Some? && r[FindInput(r, e.programIn).value] == e
            && (FindInput(entries, e.programIn).Some? ==> |r| == |entries| && FindInput(r, e.programIn) == FindInput(entries, e.programIn))
            && (FindInput(entries, e.programIn).None? ==> |r| == |entries| + 1)
  {
    var r := Upserted(entries, e);
    match FindInput(entries, e.programIn) {
      case Some(i) =>
        assert r[i] == e;
        assert FindInput(r, e.programIn) == Some(i) by {
          FirstMatch(r, e.programIn, i);
        }
      case None =>
        FirstMatch(r, e.programIn, |entries|);
    }
  }

  /** Adding an entry leaves the mapping of every other program alone. */
  lemma UpsertedKeepsOthers(entries: seq<ProgramEntry>, e: ProgramEntry, p: int)
    requires DistinctInputs(entries) && p != e.programIn
    ensures Lookup(Upserted(entries, e), p) == Lookup(entries, p)
  {
    var r := Upserted(entries, e);
    match FindInput(entries, p) {
      case Some(k) =>
        assert r[k] == entries[k];
        FirstMatch(r, p, k);
      case None =>
        assert forall j :: 0 <= j < |r| ==> r[j].programIn != p;
    }
  }

  /** Adding the same entry twice is the same as adding it once. */
  lemma UpsertedIdempotent(entries: seq<ProgramEntry>, e: ProgramEntry)
    requires DistinctInputs(entries)
    ensures Upserted(Upserted(entries, e), e) == Upserted(entries, e)
  {
    UpsertedMaps(entries, e);
    var r := Upserted(entries, e);
    assert r[FindInput(r, e.programIn).value := e] == r;
  }

  /** The first match is at `i` when `i` matches and nothing before it does. */
  lemma FirstMatch(entries: seq<ProgramEntry>, programIn: int, i: nat)
    requires i < |entries| && entries[i].programIn == programIn
    requires forall j :: 0 <= j < i ==> entries[j].programIn != programIn
    ensures FindInput(entries, programIn) == Some(i)
  {
    var r := FindInput(entries, programIn);
    assert r.Some?;
  }

  /** The output program an incoming program maps to, if any. */
  function Lookup(entries: seq<ProgramEntry>, programIn: int): Option<int>
  {
    match FindInput(entries, programIn)
    case Some(i) => Some(entries[i].programOut)
    case None => None
  }

  /** What the render pass does to one event: a program change whose
      program is mapped becomes a program change to the mapped program on
      the same channel at the same position; anything else passes as is. */
  function RenderEvent(entries: seq<ProgramEntry>, ev: Event): (r: Event)
    ensures r.frame == ev.frame
    ensures !ev.message.IsProgramChange() ==> r == ev
    ensures ev.message.IsProgramChange() && |ev.message.data| > 1 && Lookup(entries, ev.message.ProgramChangeNumber()).Some? ==>
              && r.message.IsProgramChange() && |r.message.data| == 2
              && r.message.ProgramChangeNumber() == Lookup(entries, ev.message.ProgramChangeNumber()).value % 128
              && r.message.Channel() == ev.message.Channel()
  {
    var m := ev.message;
    if m.IsProgramChange() && |m.data| > 1 then
      match Lookup(entries, m.ProgramChangeNumber()) {
        case Some(out) => Event(ProgramChange(m.Channel(), out), ev.frame)
        case None => ev
      }
    else ev
  }

  /** The render pass over a whole block, event by event in order. */
  function Rendered(entries: seq<ProgramEntry>, events: seq<Event>): (r: seq<Event>)
    ensures |r| == |events|
    ensures forall i :: 0 <= i < |events| ==> r[i] == RenderEvent(entries, events[i])
  {
    if events == [] then [] else [RenderEvent(entries, events[0])] + Rendered(entries, events[1..])
  }

  /** A program mapped to itself leaves a plain program change as it was. */
  lemma IdentityMappingKeepsEvent(entries: seq<ProgramEntry>, ev: Event)
    requires ev.message.IsProgramChange() && |ev.message.data| == 2 && ev.message.data[1] < 128
    requires Lookup(entries, ev.message.ProgramChangeNumber()) == Some(ev.message.ProgramChangeNumber())
    ensures RenderEvent(entries, ev) == ev
  {
    ProgramChangeOfItself(ev.message);
  }

  class ProgramChangeMapNode {
    var entries: seq<ProgramEntry>

    ghost predicate Valid()
      reads this
    {
      DistinctInputs(entries)
    }

    constructor()
      ensures Valid() && entries == []
    {
      entries := [];
    }

    method Clear()
      modifies this
      ensures Valid() && entries == []
    {
      entries := [];
    }

    function NumProgramEntries(): nat
      reads this
    {
      |entries|
    }

    /** The entry at a position, or nothing when out of range. */
    function GetProgramEntry(index: int): (r: Option<ProgramEntry>)
      reads this
      ensures r.Some? <==> 0 <= index < |entries|
      ensures r.Some? ==> r.value == entries[index]
    {
      if 0 <= index < |entries| then Some(entries[index]) else None
    }

    /** Maps `programIn` to `programOut` under `name`, replacing the entry
        that already maps `programIn`. */
    method AddProgramEntry(name: string, programIn: int, programOut: int)
      requires Valid()
      modifies this
      ensures Valid()
      ensures entries == Upserted(old(entries), ProgramEntry(name, programIn, programOut))
    {
      var e := ProgramEntry(name, programIn, programOut);
      UpsertedMaps(entries, e);
      var i := 0;
      while i < |entries|
        invariant 0 <= i <= |entries|
        invariant forall j :: 0 <= j < i ==> entries[j].programIn != programIn
      {
        if entries[i].programIn == programIn {
          FirstMatch(entries, programIn, i);
          entries := entries[i := e];
          return;
        }
        i := i + 1;
      }
      entries := entries + [e];
    }

    /** Maps `program` to itself. */
    method AddIdentityEntry(name: string, program: int)
      requires Valid()
      modifies this
      ensures Valid()
      ensures entries == Upserted(old(entries), ProgramEntry(name, program, program))
    {
      AddProgramEntry(name, program, program);
    }

    /** Rewrites the block in place, event by event in order. */
    method Render(buffer: array<Event>)
      modifies buffer
      ensures buffer[..] == Rendered(entries, old(buffer[..]))
    {
      ghost var original := buffer[..];
      for i := 0 to buffer.Length
        invariant forall j :: 0 <= j < i ==> buffer[j] == RenderEvent(entries, original[j])
        invariant forall j :: i <= j < buffer.Length ==> buffer[j] == original[j]
      {
        var ev := buffer[i];
        var m := ev.message;
        if m.IsProgramChange() && |m.data| > 1 {
          var found := FindInput(entries, m.ProgramChangeNumber());
          if found.Some? {
            buffer[i] := Event(ProgramChange(m.Channel(), entries[found.value].programOut), ev.frame);
          }
        }
      }
      assert buffer[..] == Rendered(entries, original);
    }
  }

  /**
   * The map the unit test builds: program 3 to 4, then 5 to itself, then 3
   * again to 6.  The third entry replaces the first in place and the count
   * stays at two.
   */
  lemma TestMapEntries(n1: string, n2: string, n3: string)
    ensures var m := Upserted(Upserted(Upserted([], ProgramEntry(n1, 3, 4)), ProgramEntry(n2, 5, 5)), ProgramEntry(n3, 3, 6));
            && m == [ProgramEntry(n3, 3, 6), ProgramEntry(n2, 5, 5)]
            && Lookup(m, 3) == Some(6) && Lookup(m, 5) == Some(5)
  {
    var a := Upserted([], ProgramEntry(n1, 3, 4));
    assert a == [ProgramEntry(n1, 3, 4)];
    var b := Upserted(a, ProgramEntry(n2, 5, 5));
    assert FindInput(a, 5) == None;
    assert b == [ProgramEntry(n1, 3, 4), ProgramEntry(n2, 5, 5)];
    assert FindInput(b, 3) == Some(0);
    var c := Upserted(b, ProgramEntry(n3, 3, 6));
    assert FindInput(c, 5) == Some(1) by {
      FirstMatch(c, 5, 1);
    }
  }

  /** The "does not duplicate" check of the unit test as written: `=`
      binds loosest, so the entry's input is assigned the value of
      `3 && entry.out == 6`, which is 1 when the output is 6 and 0
      otherwise, and that stored value is what the check reads. Only the
      output is compared. */
  predicate DuplicateCheckAsWritten(entry: ProgramEntry)
  {
    var stored := if entry.programOut == 6 then 1 else 0;
    var updated := entry.(programIn := stored);
    updated.programIn != 0
  }

  /** The check the test means: the first entry maps 3 to 6. */
  predicate DuplicateCheck(entry: ProgramEntry)
  {
    entry.programIn == 3 && entry.programOut == 6
  }

  /** The check as written passes an entry whose input is not 3, which
      the intended check refuses. */
  lemma DuplicateCheckAsWrittenPassesWrongInput()
    ensures DuplicateCheckAsWritten(ProgramEntry("Program Edit", 7, 6))
    ensures !DuplicateCheck(ProgramEntry("Program Edit", 7, 6))
  {
  }

  /** The intended check holds of the first entry of the test's map, and
      it is stricter than the check as written. */
  lemma DuplicateCheckHolds(n1: string, n2: string, n3: string)
    ensures var m := Upserted(Upserted(Upserted([], ProgramEntry(n1, 3, 4)), ProgramEntry(n2, 5, 5)), ProgramEntry(n3, 3, 6));
            DuplicateCheck(m[0])
    ensures forall e :: DuplicateCheck(e) ==> DuplicateCheckAsWritten(e)
  {
    TestMapEntries(n1, n2, n3);
  }

  /**
   * The block the unit test renders through that map: program changes 3
   * and 5 on channel 1, then a note-on and a note-off.  It comes out as
   * program changes 6 and 5 followed by the same note-on and note-off, in
   * the same order.
   */
  lemma TestRender(entries: seq<ProgramEntry>, velocity: byte)
    requires Lookup(entries, 3) == Some(6) && Lookup(entries, 5) == Some(5) && velocity != 0
    ensures var out := Rendered(entries, [Event(ProgramChange(1, 3), 100), Event(ProgramChange(1, 5), 200),
                                         Event(NoteOn(1, 12, velocity), 300), Event(NoteOff(1, 12), 300)]);
            && out[0].message.IsProgramChange() && out[0].message.ProgramChangeNumber() == 6
            && out[1].message.IsProgramChange() && out[1].message.ProgramChangeNumber() == 5
            && out[2].message.IsNoteOn() && out[3].message.IsNoteOff()
            && out[0].frame == 100 && out[1].frame == 200 && out[2].frame == 300 && out[3].frame == 300
  {
  }
}
