/**
 * The MIDI engine's input side (src/engine/midiengine.cpp): the list of
 * registered input callbacks, each bound to one device identifier (or to
 * every device, with an empty identifier) and possibly a consumer; the open
 * input holders, each with an `active` flag; and the two places where an
 * incoming message is handed to the callbacks.  Callbacks are identified by
 * a number standing for the callback object; a delivery is reported as the
 * list of entries that received the message, in the order they received it.
 */
module MidiEngineModel {
  import opened Optional
  import opened Seqs
  import opened Midi

  /** One registered callback: the device it listens to ("" for all), the
      callback, and whether it consumes input that is not enabled. */
  datatype CallbackInfo = CallbackInfo(device: string, callback: nat, consumer: bool)

  /** One open MIDI input and whether it is enabled. */
  datatype Holder = Holder(identifier: string, active: bool)

  /** The (device, callback) pair a registration is keyed by. */
  function Pair(mc: CallbackInfo): (string, nat)
  {
    (mc.device, mc.callback)
  }

  /** No (device, callback) pair is registered twice. */
  predicate NoDuplicatePairs(callbacks: seq<CallbackInfo>)
  {
    forall i, j :: 0 <= i < j < |callbacks| ==> Pair(callbacks[i]) != Pair(callbacks[j])
  }

  /** No device is open twice. */
  predicate UniqueIdentifiers(inputs: seq<Holder>)
  {
    forall i, j :: 0 <= i < j < |inputs| ==> inputs[i].identifier != inputs[j].identifier
  }

  // ----- removal -------------------------------------------------------

  /** Keeps the entries that are not the given registration. */
  function KeepOtherPair(device: string, callback: nat): CallbackInfo -> bool
  {
    (mc: CallbackInfo) => !(mc.callback == callback && mc.device == device)
  }

  /** Keeps the entries of other callbacks. */
  function KeepOtherCallback(callback: nat): CallbackInfo -> bool
  {
    (mc: CallbackInfo) => mc.callback != callback
  }

  /** Filtering keeps registrations unique. */
  lemma {:induction false} FilterKeepsNoDuplicatePairs(s: seq<CallbackInfo>, keep: CallbackInfo -> bool)
    requires NoDuplicatePairs(s)
    ensures NoDuplicatePairs(Filter(s, keep))
    decreases |s|
  {
    if s != [] {
      var rest := Filter(s[1..], keep);
      FilterKeepsNoDuplicatePairs(s[1..], keep);
      if keep(s[0]) {
        assert Filter(s, keep) == [s[0]] + rest;
        FilterMembers(s[1..], keep);
        forall j | 0 <= j < |rest|
          ensures Pair(rest[j]) != Pair(s[0])
        {
          assert rest[j] in s[1..];
          var k :| 0 <= k < |s[1..]| && s[1..][k] == rest[j];
          assert s[k + 1] == rest[j];
        }
      }
    }
  }

  /** Removing one registration removes every entry with that pair, keeps
      every other entry in order, and keeps the rest unique. */
  lemma RemovePairMeans(s: seq<CallbackInfo>, device: string, callback: nat)
    ensures forall mc :: mc in Filter(s, KeepOtherPair(device, callback)) <==>
      mc in s && Pair(mc) != (device, callback)
    ensures NoDuplicatePairs(s) ==> NoDuplicatePairs(Filter(s, KeepOtherPair(device, callback)))
  {
    FilterMembers(s, KeepOtherPair(device, callback));
    if NoDuplicatePairs(s) {
      FilterKeepsNoDuplicatePairs(s, KeepOtherPair(device, callback));
    }
  }

  /** Removing a callback removes it from every device and keeps every
      other entry in order. */
  lemma RemoveCallbackMeans(s: seq<CallbackInfo>, callback: nat)
    ensures forall mc :: mc in Filter(s, KeepOtherCallback(callback)) <==>
      mc in s && mc.callback != callback
    ensures NoDuplicatePairs(s) ==> NoDuplicatePairs(Filter(s, KeepOtherCallback(callback)))
  {
    FilterMembers(s, KeepOtherCallback(callback));
    if NoDuplicatePairs(s) {
      FilterKeepsNoDuplicatePairs(s, KeepOtherCallback(callback));
    }
  }

  // ----- inputs --------------------------------------------------------

  /** Whether some open input with this identifier is enabled. */
  predicate InputEnabled(inputs: seq<Holder>, identifier: string)
  {
    exists k :: 0 <= k < |inputs| && inputs[k].identifier == identifier && inputs[k].active
  }

  /** The first open input with this identifier. */
  function FindHolder(inputs: seq<Holder>, identifier: string): (r: Option<nat>)
    ensures r.Some? ==> r.value < |inputs| && inputs[r.value].identifier == identifier
    ensures r.Some? ==> forall k :: 0 <= k < r.value ==> inputs[k].identifier != identifier
    ensures r.None? <==> forall k :: 0 <= k < |inputs| ==> inputs[k].identifier != identifier
    decreases |inputs|
  {
    if inputs == [] then None
    else if inputs[0].identifier == identifier then Some(0)
    else match FindHolder(inputs[1..], identifier)
      case None => None
      case Some(k) => Some(k + 1)
  }

  /** Looking up an input, opening it when asked to and the device opens
      (`canOpen` stands for the device being available and opening); a
      freshly opened input starts disabled.  The holder found is returned
      by its position. */
  function Open(inputs: seq<Holder>, identifier: string, openIfNotAlready: bool, canOpen: string -> bool): (r: (seq<Holder>, Option<nat>))
    ensures r.1.Some? ==> r.1.value < |r.0| && r.0[r.1.value].identifier == identifier
    ensures FindHolder(inputs, identifier).Some? ==> r == (inputs, FindHolder(inputs, identifier))
    ensures r.0 == inputs || r.0 == inputs + [Holder(identifier, false)]
    ensures r.0 != inputs <==> FindHolder(inputs, identifier).None? && openIfNotAlready && canOpen(identifier)
    ensures r.1.None? <==> FindHolder(inputs, identifier).None? && !(openIfNotAlready && canOpen(identifier))
  {
    match FindHolder(inputs, identifier)
    case Some(k) => (inputs, Some(k))
    case None =>
      if openIfNotAlready && canOpen(identifier) then (inputs + [Holder(identifier, false)], Some(|inputs|))
      else (inputs, None)
  }

  /** Opening an input never opens a device twice. */
  lemma OpenKeepsUnique(inputs: seq<Holder>, identifier: string, openIfNotAlready: bool, canOpen: string -> bool)
    requires UniqueIdentifiers(inputs)
    ensures UniqueIdentifiers(Open(inputs, identifier, openIfNotAlready, canOpen).0)
  {
  }

  /** The effect of enabling or disabling an input: nothing when it is
      already in that state; otherwise the input is looked up (and opened,
      when enabling) and its flag set. */
  function SetEnabled(inputs: seq<Holder>, identifier: string, enabled: bool, canOpen: string -> bool): seq<Holder>
  {
    if enabled == InputEnabled(inputs, identifier) then inputs
    else
      var (after, found) := Open(inputs, identifier, enabled, canOpen);
      if found.Some? then after[found.value := after[found.value].(active := enabled)] else after
  }

  /** Enabling or disabling an input: afterwards it is enabled exactly when
      enabling was asked for and the input was open or could be opened;
      disabling never opens a device; other inputs keep their flags; and no
      device is open twice. */
  lemma SetEnabledMeans(inputs: seq<Holder>, identifier: string, enabled: bool, canOpen: string -> bool)
    requires UniqueIdentifiers(inputs)
    ensures var r := SetEnabled(inputs, identifier, enabled, canOpen);
      && UniqueIdentifiers(r)
      && (InputEnabled(r, identifier) <==> enabled && (FindHolder(inputs, identifier).Some? || canOpen(identifier)))
      && (!enabled ==> |r| == |inputs|)
      && (forall k :: 0 <= k < |inputs| && inputs[k].identifier != identifier ==> r[k] == inputs[k])
  {
    var r := SetEnabled(inputs, identifier, enabled, canOpen);
    if enabled == InputEnabled(inputs, identifier) {
      if enabled {
        var k :| 0 <= k < |inputs| && inputs[k].identifier == identifier && inputs[k].active;
        assert FindHolder(inputs, identifier).Some?;
      } else {
        if FindHolder(inputs, identifier).Some? || canOpen(identifier) {
        }
      }
    } else {
      var (after, found) := Open(inputs, identifier, enabled, canOpen);
      if found.Some? {
        assert r[found.value].identifier == identifier && r[found.value].active == enabled;
        if !enabled {
          forall k | 0 <= k < |r| && r[k].identifier == identifier
            ensures !r[k].active
          {
            assert k == found.value;
          }
        }
      } else if enabled {
        assert r == inputs;
      }
    }
  }

  /** Asking twice for the same state does no more than asking once. */
  lemma SetEnabledIdempotent(inputs: seq<Holder>, identifier: string, enabled: bool, canOpen: string -> bool)
    requires UniqueIdentifiers(inputs)
    ensures var once := SetEnabled(inputs, identifier, enabled, canOpen);
      SetEnabled(once, identifier, enabled, canOpen) == once
  {
    var once := SetEnabled(inputs, identifier, enabled, canOpen);
    SetEnabledMeans(inputs, identifier, enabled, canOpen);
    if InputEnabled(once, identifier) != enabled {
      assert enabled && FindHolder(inputs, identifier).None? && !canOpen(identifier);
      assert once == inputs;
    }
  }

  // ----- dispatch ------------------------------------------------------

  /** Which entries the engine's own input callback serves for a message
      from `source`: consumers, entries for every device, and entries for
      that device. */
  function EngineAccepts(source: string): CallbackInfo -> bool
  {
    (mc: CallbackInfo) => mc.consumer || mc.device == [] || mc.device == source
  }

  /** Which entries an input holder serves: consumers always, the others
      only while the input is enabled; and only entries for every device or
      for that input. */
  function HolderAccepts(holder: Holder): CallbackInfo -> bool
  {
    (mc: CallbackInfo) => (holder.active || mc.consumer) && (mc.device == [] || mc.device == holder.identifier)
  }

  /** The entries a message from `source` reaches through the engine. */
  function EngineDelivery(callbacks: seq<CallbackInfo>, source: string, message: MidiMessage): seq<CallbackInfo>
  {
    if message.IsActiveSense() then [] else Filter(callbacks, EngineAccepts(source))
  }

  /** The entries a message reaches through an input holder. */
  function HolderDelivery(callbacks: seq<CallbackInfo>, holder: Holder, message: MidiMessage): seq<CallbackInfo>
  {
    if message.IsActiveSense() then [] else Filter(callbacks, HolderAccepts(holder))
  }

  /** Engine dispatch never delivers active sense; any other message reaches
      exactly the entries that are consumers, listen to every device or to
      the source. */
  lemma EngineDeliveryMeans(callbacks: seq<CallbackInfo>, source: string, message: MidiMessage)
    ensures message.IsActiveSense() ==> EngineDelivery(callbacks, source, message) == []
    ensures !message.IsActiveSense() ==> forall mc :: mc in EngineDelivery(callbacks, source, message) <==>
      mc in callbacks && (mc.consumer || mc.device == [] || mc.device == source)
  {
    FilterMembers(callbacks, EngineAccepts(source));
  }

  /** Holder dispatch never delivers active sense; any other message reaches
      exactly the entries for every device or for that input, and of those
      only consumers while the input is disabled. */
  lemma HolderDeliveryMeans(callbacks: seq<CallbackInfo>, holder: Holder, message: MidiMessage)
    ensures message.IsActiveSense() ==> HolderDelivery(callbacks, holder, message) == []
    ensures !message.IsActiveSense() ==> forall mc :: mc in HolderDelivery(callbacks, holder, message) <==>
      mc in callbacks && (holder.active || mc.consumer) && (mc.device == [] || mc.device == holder.identifier)
  {
    FilterMembers(callbacks, HolderAccepts(holder));
  }

  /** An enabled holder delivers to no more entries than the engine would
      for the same device. */
  lemma HolderWithinEngine(callbacks: seq<CallbackInfo>, holder: Holder, message: MidiMessage)
    ensures forall mc :: mc in HolderDelivery(callbacks, holder, message) ==>
      mc in EngineDelivery(callbacks, holder.identifier, message)
  {
    HolderDeliveryMeans(callbacks, holder, message);
    EngineDeliveryMeans(callbacks, holder.identifier, message);
  }

  /** Extending a prefix by one element extends its filter by at most it. */
  lemma FilterPrefixStep<T(!new)>(s: seq<T>, i: nat, keep: T -> bool)
    requires i < |s|
    ensures Filter(s[..i + 1], keep) == Filter(s[..i], keep) + (if keep(s[i]) then [s[i]] else [])
  {
    assert s[..i + 1] == s[..i] + [s[i]];
    FilterAppend(s[..i], [s[i]], keep);
    assert [s[i]][1..] == [];
  }

  /** Walks the callbacks in order, collecting those `keep` accepts. */
  method Collect(callbacks: seq<CallbackInfo>, keep: CallbackInfo -> bool) returns (delivered: seq<CallbackInfo>)
    ensures delivered == Filter(callbacks, keep)
  {
    delivered := [];
    var i := 0;
    while i < |callbacks|
      invariant 0 <= i <= |callbacks|
      invariant delivered == Filter(callbacks[..i], keep)
    {
      FilterPrefixStep(callbacks, i, keep);
      if keep(callbacks[i]) {
        delivered := delivered + [callbacks[i]];
      }
      i := i + 1;
    }
    assert callbacks[..i] == callbacks;
  }

  class MidiEngine {
    /** The registered input callbacks, in registration order. */
    var callbacks: seq<CallbackInfo>
    /** The open MIDI inputs. */
    var inputs: seq<Holder>
    /** How many change notifications have been sent. */
    var changeMessages: nat

    predicate Valid()
      reads this
    {
      NoDuplicatePairs(callbacks) && UniqueIdentifiers(inputs)
    }

    constructor()
      ensures Valid() && callbacks == [] && inputs == [] && changeMessages == 0
    {
      callbacks := [];
      inputs := [];
      changeMessages := 0;
    }

    /** The open input with this identifier, opening it when asked to. */
    method GetMidiInput(identifier: string, openIfNotAlready: bool, canOpen: string -> bool) returns (holder: Option<nat>)
      requires Valid()
      modifies this
      ensures Valid()
      ensures (inputs, holder) == Open(old(inputs), identifier, openIfNotAlready, canOpen)
      ensures callbacks == old(callbacks) && changeMessages == old(changeMessages)
    {
      OpenKeepsUnique(inputs, identifier, openIfNotAlready, canOpen);
      var i := 0;
      while i < |inputs|
        invariant 0 <= i <= |inputs|
        invariant forall k :: 0 <= k < i ==> inputs[k].identifier != identifier
      {
        if inputs[i].identifier == identifier {
          return Some(i);
        }
        i := i + 1;
      }
      if !openIfNotAlready {
        return None;
      }
      if canOpen(identifier) {
        inputs := inputs + [Holder(identifier, false)];
        return Some(|inputs| - 1);
      }
      return None;
    }

    /** Whether the input with this identifier is open and enabled. */
    method IsMidiInputEnabled(identifier: string) returns (enabled: bool)
      ensures enabled <==> InputEnabled(inputs, identifier)
    {
      var i := 0;
      while i < |inputs|
        invariant 0 <= i <= |inputs|
        invariant forall k :: 0 <= k < i ==> !(inputs[k].identifier == identifier && inputs[k].active)
      {
        if inputs[i].identifier == identifier && inputs[i].active {
          return true;
        }
        i := i + 1;
      }
      return false;
    }

    /** Enables or disables an input; a change is announced only when the
        input was not already in the requested state. */
    method SetMidiInputEnabled(identifier: string, enabled: bool, canOpen: string -> bool)
      requires Valid()
      modifies this
      ensures Valid()
      ensures inputs == SetEnabled(old(inputs), identifier, enabled, canOpen)
      ensures changeMessages == old(changeMessages) + (if enabled == InputEnabled(old(inputs), identifier) then 0 else 1)
      ensures callbacks == old(callbacks)
    {
      SetEnabledMeans(inputs, identifier, enabled, canOpen);
      var current := IsMidiInputEnabled(identifier);
      if enabled != current {
        var holder := GetMidiInput(identifier, enabled, canOpen);
        if holder.Some? {
          inputs := inputs[holder.value := inputs[holder.value].(active := enabled)];
        }
        changeMessages := changeMessages + 1;
      }
    }

    /** Drops every registration of `callback` for `identifier`. */
    method RemoveMidiInputCallbackFor(identifier: string, callback: nat)
      requires Valid()
      modifies this
      ensures Valid()
      ensures callbacks == Filter(old(callbacks), KeepOtherPair(identifier, callback))
      ensures inputs == old(inputs) && changeMessages == old(changeMessages)
    {
      RemovePairMeans(callbacks, identifier, callback);
      var i := |callbacks|;
      ghost var before := callbacks;
      while i > 0
        invariant 0 <= i <= |before|
        invariant callbacks == before[..i] + Filter(before[i..], KeepOtherPair(identifier, callback))
        invariant inputs == old(inputs) && changeMessages == old(changeMessages)
      {
        i := i - 1;
        BackwardStep(before, i, KeepOtherPair(identifier, callback), callbacks);
        var mc := callbacks[i];
        if mc.callback == callback && mc.device == identifier {
          callbacks := callbacks[..i] + callbacks[i + 1..];
        }
      }
      BackwardPassDone(before, KeepOtherPair(identifier, callback), callbacks);
    }

    /** Drops every registration of `callback`, for every device. */
    method RemoveMidiInputCallback(callback: nat)
      requires Valid()
      modifies this
      ensures Valid()
      ensures callbacks == Filter(old(callbacks), KeepOtherCallback(callback))
      ensures inputs == old(inputs) && changeMessages == old(changeMessages)
    {
      RemoveCallbackMeans(callbacks, callback);
      var i := |callbacks|;
      ghost var before := callbacks;
      while i > 0
        invariant 0 <= i <= |before|
        invariant callbacks == before[..i] + Filter(before[i..], KeepOtherCallback(callback))
        invariant inputs == old(inputs) && changeMessages == old(changeMessages)
      {
        i := i - 1;
        BackwardStep(before, i, KeepOtherCallback(callback), callbacks);
        if callbacks[i].callback == callback {
          callbacks := callbacks[..i] + callbacks[i + 1..];
        }
      }
      BackwardPassDone(before, KeepOtherCallback(callback), callbacks);
    }

    /** Registers `callback` for `identifier`, replacing an earlier
        registration of the same pair.  The entry is kept only for every
        device, for an enabled input, or for a consumer; a consumer also
        opens its input. */
    method AddMidiInputCallback(identifier: string, callback: nat, consumer: bool, canOpen: string -> bool)
      requires Valid()
      modifies this
      ensures Valid()
      ensures callbacks == Filter(old(callbacks), KeepOtherPair(identifier, callback)) +
        (if identifier == [] || InputEnabled(old(inputs), identifier) || consumer
         then [CallbackInfo(identifier, callback, consumer)] else [])
      ensures inputs == if consumer then Open(old(inputs), identifier, true, canOpen).0 else old(inputs)
      ensures changeMessages == old(changeMessages)
    {
      RemoveMidiInputCallbackFor(identifier, callback);
      var enabled := IsMidiInputEnabled(identifier);
      if identifier == [] || enabled || consumer {
        if consumer {
          var holder := GetMidiInput(identifier, true, canOpen);
        }
        AppendKeepsNoDuplicatePairs(callbacks, CallbackInfo(identifier, callback, consumer));
        callbacks := callbacks + [CallbackInfo(identifier, callback, consumer)];
      }
    }

    /** A message arriving at the engine's own input callback. */
    method HandleIncomingMidiMessage(source: string, message: MidiMessage) returns (delivered: seq<CallbackInfo>)
      ensures delivered == EngineDelivery(callbacks, source, message)
    {
      delivered := [];
      if !message.IsActiveSense() {
        delivered := Collect(callbacks, EngineAccepts(source));
      }
    }

    /** A message arriving at the open input at position `index`. */
    method HandleHolderMessage(index: nat, message: MidiMessage) returns (delivered: seq<CallbackInfo>)
      requires index < |inputs|
      ensures delivered == HolderDelivery(callbacks, inputs[index], message)
    {
      delivered := [];
      if !message.IsActiveSense() {
        delivered := Collect(callbacks, HolderAccepts(inputs[index]));
      }
    }
  }

  /** Appending a registration whose pair is absent keeps pairs unique. */
  lemma AppendKeepsNoDuplicatePairs(s: seq<CallbackInfo>, mc: CallbackInfo)
    requires NoDuplicatePairs(s)
    requires forall x :: x in s ==> Pair(x) != Pair(mc)
    ensures NoDuplicatePairs(s + [mc])
  {
    var r := s + [mc];
    forall i, j | 0 <= i < j < |r|
      ensures Pair(r[i]) != Pair(r[j])
    {
      if j == |s| {
        assert r[i] in s;
      }
    }
  }

  /** After registering, the pair is registered at most once: exactly once
      when the registration was kept, not at all otherwise. */
  lemma AddRegistersOnce(s: seq<CallbackInfo>, identifier: string, callback: nat, consumer: bool, kept: bool)
    ensures var r := Filter(s, KeepOtherPair(identifier, callback)) + (if kept then [CallbackInfo(identifier, callback, consumer)] else []);
      (kept ==> r[|r| - 1] == CallbackInfo(identifier, callback, consumer)) &&
      forall k :: 0 <= k < |r| - (if kept then 1 else 0) ==> Pair(r[k]) != (identifier, callback)
  {
    var f := Filter(s, KeepOtherPair(identifier, callback));
    var r := f + (if kept then [CallbackInfo(identifier, callback, consumer)] else []);
    forall k | 0 <= k < |r| - (if kept then 1 else 0)
      ensures Pair(r[k]) != (identifier, callback)
    {
      assert r[k] == f[k];
    }
  }
}
