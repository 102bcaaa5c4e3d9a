/**
 * The root graph's render settings (src/engine/AudioEngine.h): how the
 * engine renders the graph, whether that choice is locked, and the MIDI
 * program the graph answers to.  The lock starts on and only ever comes
 * off; while it is on every render-mode request yields a single graph.
 */
module RootGraphModel {
  import opened Optional

  datatype RenderMode = SingleGraph | Parallel

  /** The value of each render mode in the source's enumeration. */
  function ModeValue(mode: RenderMode): int
  {
    match mode
    case SingleGraph => 0
    case Parallel => 1
  }

  /** Whether an integer names a render mode. */
  predicate RenderModeValid(mode: int)
  {
    mode == 0 || mode == 1
  }

  /** The valid integers are exactly the values of the render modes. */
  lemma RenderModeValidMeans(value: int)
    ensures RenderModeValid(value) <==> exists mode: RenderMode :: ModeValue(mode) == value
  {
    if value == 0 {
      assert ModeValue(SingleGraph) == value;
    } else if value == 1 {
      assert ModeValue(Parallel) == value;
    }
  }

  /** The name a render mode is stored under. */
  function SlugForRenderMode(mode: RenderMode): (slug: string)
    ensures slug != []
  {
    match mode
    case SingleGraph => "single"
    case Parallel => "parallel"
  }

  /** The render mode a stored name stands for, if any. */
  function RenderModeForSlug(slug: string): Option<RenderMode>
  {
    if slug == "single" then Some(SingleGraph)
    else if slug == "parallel" then Some(Parallel)
    else None
  }

  /** Reading back a stored name gives the mode again, so no two modes
      share a name. */
  lemma SlugRoundTrip(mode: RenderMode)
    ensures RenderModeForSlug(SlugForRenderMode(mode)) == Some(mode)
  {
    if mode == Parallel {
      assert SlugForRenderMode(mode)[0] != "single"[0];
    }
  }

  lemma SlugsDistinct()
    ensures SlugForRenderMode(SingleGraph) != SlugForRenderMode(Parallel)
  {
    SlugRoundTrip(SingleGraph);
    SlugRoundTrip(Parallel);
  }

  /** The render settings of a root graph. */
  datatype Settings = Settings(renderMode: RenderMode, locked: bool, midiChannel: int, midiProgram: int, engineIndex: int)

  /** The requests the settings answer to. */
  datatype Request = SetLocked | SetRenderMode(mode: RenderMode) | SetMidiProgram(program: int)

  /** What one request does: unlocking always unlocks, whatever is asked;
      a locked graph renders as a single graph whatever mode is asked. */
  function Apply(s: Settings, r: Request): Settings
  {
    match r
    case SetLocked => s.(locked := false)
    case SetRenderMode(mode) =>
      if !s.locked && s.renderMode == mode then s
      else s.(renderMode := if s.locked then SingleGraph else mode)
    case SetMidiProgram(program) =>
      if program == s.midiProgram then s else s.(midiProgram := program)
  }

  /** A run of requests, applied in order. */
  function Run(s: Settings, rs: seq<Request>): Settings
    decreases |rs|
  {
    if rs == [] then s else Run(Apply(s, rs[0]), rs[1..])
  }

  /** Settings of a new root graph: parallel, locked, omni MIDI channel,
      no MIDI program, not attached to an engine. */
  const Initial := Settings(Parallel, true, 0, -1, -1)

  /** Each request, applied twice, does no more than applied once. */
  lemma ApplyIdempotent(s: Settings, r: Request)
    ensures Apply(Apply(s, r), r) == Apply(s, r)
  {
  }

  /** No request touches the engine index or the MIDI channel. */
  lemma {:induction false} RunKeepsEngineIndex(s: Settings, rs: seq<Request>)
    ensures Run(s, rs).engineIndex == s.engineIndex
    ensures Run(s, rs).midiChannel == s.midiChannel
    decreases |rs|
  {
    if rs != [] {
      RunKeepsEngineIndex(Apply(s, rs[0]), rs[1..]);
    }
  }

  /** The lock is one-way: it is still on exactly when no unlock request
      came. */
  lemma {:induction false} LockIsOneWay(s: Settings, rs: seq<Request>)
    ensures Run(s, rs).locked <==> s.locked && SetLocked !in rs
    decreases |rs|
  {
    if rs != [] {
      LockIsOneWay(Apply(s, rs[0]), rs[1..]);
      assert rs == [rs[0]] + rs[1..];
    }
  }

  /** While locked, any render-mode request leaves a single graph. */
  lemma {:induction false} LockedRendersSingle(s: Settings, rs: seq<Request>, i: nat)
    requires s.locked && SetLocked !in rs
    requires i < |rs| && rs[i].SetRenderMode?
    ensures Run(s, rs).renderMode == SingleGraph
    decreases |rs|
  {
    var next := Apply(s, rs[0]);
    assert next.locked;
    if i == 0 {
      assert next.renderMode == SingleGraph;
      LockedKeepsSingle(next, rs[1..]);
    } else {
      assert rs[1..][i - 1] == rs[i];
      LockedRendersSingle(next, rs[1..], i - 1);
    }
  }

  /** A locked graph that renders as a single graph keeps doing so. */
  lemma {:induction false} LockedKeepsSingle(s: Settings, rs: seq<Request>)
    requires s.locked && s.renderMode == SingleGraph && SetLocked !in rs
    ensures Run(s, rs).renderMode == SingleGraph
    decreases |rs|
  {
    if rs != [] {
      assert rs[0] != SetLocked;
      LockedKeepsSingle(Apply(s, rs[0]), rs[1..]);
    }
  }

  /** Once unlocked, the graph renders in the last mode asked for. */
  lemma UnlockedFollowsRequest(s: Settings, mode: RenderMode)
    requires !s.locked
    ensures Apply(s, SetRenderMode(mode)).renderMode == mode
  {
  }

  class RootGraph {
    var renderMode: RenderMode
    var locked: bool
    var midiChannel: int
    var midiProgram: int
    var engineIndex: int

    function State(): Settings
      reads this
    {
      Settings(renderMode, locked, midiChannel, midiProgram, engineIndex)
    }

    constructor()
      ensures State() == Initial
    {
      renderMode := Parallel;
      locked := true;
      midiChannel := 0;
      midiProgram := -1;
      engineIndex := -1;
    }

    /** Whether the graph renders as a single graph. */
    function IsSingle(): (r: bool)
      reads this
      ensures r <==> ModeValue(renderMode) == 0
    {
      renderMode == SingleGraph
    }

    function RenderModeSlug(): (slug: string)
      reads this
      ensures RenderModeForSlug(slug) == Some(renderMode)
    {
      SlugRoundTrip(renderMode);
      SlugForRenderMode(renderMode)
    }

    /** Takes the lock off, whatever value is passed. */
    method SetLocked(value: bool)
      modifies this
      ensures State() == Apply(old(State()), Request.SetLocked)
      ensures !locked
    {
      var isNowLocked := false;
      locked := isNowLocked;
    }

    method SetRenderMode(mode: RenderMode)
      modifies this
      ensures State() == Apply(old(State()), Request.SetRenderMode(mode))
      ensures renderMode == if old(locked) then SingleGraph else mode
    {
      if !locked && renderMode == mode {
        return;
      }
      renderMode := if locked then SingleGraph else mode;
    }

    method SetMidiProgram(program: int)
      modifies this
      ensures State() == Apply(old(State()), Request.SetMidiProgram(program))
      ensures midiProgram == program
    {
      if program == midiProgram {
        return;
      }
      midiProgram := program;
    }
  }
}
