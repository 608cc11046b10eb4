/** The per-frame decisions of the motion recorder in src/motion_trigger_generic.cpp, as one function
    per phase of an iteration, and what every run of them guarantees: frame ownership, the pre-roll,
    and the timing of starts and stops. */
module MotionSpec {

  import opened Options

  /** A frame is known by the number of its allocation. */
  type Frame = nat

  /** The parameters and attached objects one iteration looks at. */
  datatype Config = Config(
    plugin: bool,        // an external trigger decides
    gray: bool,          // the gray-difference detector is used, which needs no previous frame
    filtered: bool,      // filters replace the fetched frame by a new one
    hasTarget: bool,
    remember: bool,      // a copy of the trigger frame goes to the metadata store
    minFrames: int,
    minDuration: int,
    muteDuration: int,
    preDuration: nat)

  /** What one turn of the loop gets from its surroundings. `detected` is the detector's verdict,
      `dbEvent` the number the database would give to a new event. */
  datatype Input =
    | NoFrame
    | Resized
    | Picture(cfg: Config, detected: bool, audio: bool, allowed: bool, dbEvent: int)

  datatype Event = Start(event: int, preroll: seq<Frame>) | Stop(event: int)

  /** The counters and flags that time a recording. `hits` is `count_frames_changed`. */
  datatype Control = Control(stopping: int, mute: int, hits: int, recording: bool, eventNr: int)

  datatype Action = Nothing | Begins | Ends

  datatype State = State(
    ctl: Control,
    prev: Option<Frame>,
    prerecord: seq<Frame>,
    aborted: bool,
    log: seq<Event>,
    next: nat,               // frames allocated so far
    freed: seq<Frame>,       // every delete, in order
    handed: seq<Frame>,      // given to the first target
    remembered: seq<Frame>)  // given to the metadata store

  const INITIAL := State(Control(0, 0, 0, false, -1), None, [], false, [], 0, [], [], [])

  // ---------- one iteration, phase by phase ----------

  /** The frame this iteration works on: the fetched one, or the filtered one that replaces it. */
  function Current(st: State, cfg: Config): Frame {
    if cfg.filtered then st.next + 1 else st.next
  }

  function Fetch(st: State, cfg: Config): State {
    if cfg.filtered then st.(next := st.next + 2, freed := st.freed + [st.next]) else st.(next := st.next + 1)
  }

  /** The plugin path replaces the previous frame by a copy of the current one. */
  function Detect(st: State, cfg: Config): State {
    if cfg.plugin
    then st.(freed := st.freed + Held(st.prev), prev := Some(st.next), next := st.next + 1)
    else st
  }

  /** Whether the frame counts as a trigger: with neither plugin nor gray detector a previous frame is needed. */
  function Trigger(hasPrev: bool, i: Input): bool
    requires i.Picture?
  {
    ((i.detected && (hasPrev || (i.cfg.gray && !i.cfg.plugin))) || i.audio) && i.allowed
  }

  /** Mute, count, start or stop. */
  function Decide(c: Control, cfg: Config, trigger: bool, dbEvent: int): (Control, Action) {
    if c.mute != 0 then (c.(mute := c.mute - 1), Nothing)
    else if trigger then
      if (c.hits + 1 >= cfg.minFrames || cfg.plugin) && !c.recording
      then (Control(0, c.mute, c.hits + 1, true, dbEvent), Begins)
      else (c.(hits := c.hits + 1, stopping := 0), Nothing)
    else if c.recording then
      if c.stopping + 1 > cfg.minDuration
      then (Control(c.stopping + 1, cfg.muteDuration, 0, false, c.eventNr), Ends)
      else (c.(hits := 0, stopping := c.stopping + 1), Nothing)
    else (c, Nothing)
  }

  /** The pre-roll goes to the first target, or is deleted when there is none. */
  function HandOver(st: State, cfg: Config): State {
    var st1 := st.(prerecord := [],
                   freed := if cfg.hasTarget then st.freed else st.freed + st.prerecord,
                   handed := if cfg.hasTarget then st.handed + st.prerecord else st.handed);
    if cfg.remember then st1.(remembered := st.remembered + [st.next], next := st.next + 1) else st1
  }

  function Act(st: State, cfg: Config, decision: (Control, Action)): State {
    match decision.1
    case Nothing => st.(ctl := decision.0)
    case Begins => HandOver(st, cfg).(ctl := decision.0, log := st.log + [Start(decision.0.eventNr, st.prerecord)])
    case Ends => st.(ctl := decision.0, log := st.log + [Stop(st.ctl.eventNr)])
  }

  function Keep(st: State, cfg: Config, current: Frame): State {
    var st1 := st.(freed := st.freed + Held(st.prev), prev := None);
    if cfg.preDuration == 0 then st1.(prev := Some(current))
    else
      var st2 := if |st1.prerecord| >= cfg.preDuration
                 then st1.(freed := st1.freed + [st1.prerecord[0]], prerecord := st1.prerecord[1..])
                 else st1;
      st2.(prerecord := st2.prerecord + [current], prev := Some(st2.next), next := st2.next + 1)
  }

  function Step(st: State, i: Input): State {
    match i
    case NoFrame => st
    case Resized => st.(next := st.next + 1, freed := st.freed + [st.next], aborted := true)
    case Picture(cfg, _, _, _, dbEvent) =>
      var fetched := Fetch(st, cfg);
      var decision := Decide(st.ctl, cfg, Trigger(st.prev.Some?, i), dbEvent);
      Keep(Act(Detect(fetched, cfg), cfg, decision), cfg, Current(st, cfg))
  }

  function Run(inputs: seq<Input>): State {
    if inputs == [] then INITIAL
    else
      var st := Run(inputs[..|inputs| - 1]);
      if st.aborted then st else Step(st, inputs[|inputs| - 1])
  }

  /** The clean-up after the loop. */
  function Finish(st: State): State {
    st.(freed := st.freed + Held(st.prev) + st.prerecord, prev := None, prerecord := [])
  }

  lemma RunSnoc(inputs: seq<Input>, i: Input)
    ensures Run(inputs + [i]) == if Run(inputs).aborted then Run(inputs) else Step(Run(inputs), i)
  {
    assert (inputs + [i])[..|inputs|] == inputs;
  }

  /** What one iteration does to everything but the bookkeeping of allocations. */
  lemma StepShape(st: State, i: Input)
    requires i.Picture?
    ensures var (ctl, action) := Decide(st.ctl, i.cfg, Trigger(st.prev.Some?, i), i.dbEvent);
            var kept := if action == Begins then [] else st.prerecord;
            var st' := Step(st, i);
            && st'.ctl == ctl && st'.aborted == st.aborted
            && st'.log == st.log + (match action
                                    case Nothing => []
                                    case Begins => [Start(ctl.eventNr, st.prerecord)]
                                    case Ends => [Stop(st.ctl.eventNr)])
            && st'.handed == st.handed + (if action == Begins && i.cfg.hasTarget then st.prerecord else [])
            && st'.prerecord == if i.cfg.preDuration == 0 then kept
                                else (if |kept| >= i.cfg.preDuration then kept[1..] else kept) + [Current(st, i.cfg)]
  {
    hide Decide, Trigger;
    var st1 := Detect(Fetch(st, i.cfg), i.cfg);
    var decision := Decide(st.ctl, i.cfg, Trigger(st.prev.Some?, i), i.dbEvent);
    ActShape(st1, i.cfg, decision);
    KeepShape(Act(st1, i.cfg, decision), i.cfg, Current(st, i.cfg));
  }

  lemma ActShape(st: State, cfg: Config, decision: (Control, Action))
    ensures var st' := Act(st, cfg, decision);
            && st'.ctl == decision.0 && st'.aborted == st.aborted
            && st'.log == st.log + (match decision.1
                                    case Nothing => []
                                    case Begins => [Start(decision.0.eventNr, st.prerecord)]
                                    case Ends => [Stop(st.ctl.eventNr)])
            && st'.handed == st.handed + (if decision.1 == Begins && cfg.hasTarget then st.prerecord else [])
            && st'.prerecord == if decision.1 == Begins then [] else st.prerecord
  {
  }

  lemma KeepShape(st: State, cfg: Config, current: Frame)
    ensures var st' := Keep(st, cfg, current);
            && st'.ctl == st.ctl && st'.aborted == st.aborted && st'.log == st.log && st'.handed == st.handed
            && st'.prerecord == if cfg.preDuration == 0 then st.prerecord
                                else (if |st.prerecord| >= cfg.preDuration
                                      then st.prerecord[1..] else st.prerecord) + [current]
  {
  }

  /** The allocations of one iteration: the fetched frame and, as configured, the filtered one, the copy for the
      plugin, the copy of a trigger frame for the metadata store, and the copy for the next comparison. Only
      a start remembers a frame, and afterwards there is always a previous frame. */
  lemma StepBooks(st: State, i: Input)
    requires i.Picture?
    ensures var begins := Decide(st.ctl, i.cfg, Trigger(st.prev.Some?, i), i.dbEvent).1 == Begins;
            var remembers := begins && i.cfg.remember;
            var first := st.next + (if i.cfg.filtered then 2 else 1) + (if i.cfg.plugin then 1 else 0);
            var st' := Step(st, i);
            && st'.remembered == st.remembered + (if remembers then [first] else [])
            && st'.next == first + (if remembers then 1 else 0) + (if i.cfg.preDuration > 0 then 1 else 0)
            && st'.prev == Some(if i.cfg.preDuration > 0 then st'.next - 1 else Current(st, i.cfg))
            && (begins && !i.cfg.hasTarget ==> forall f :: f in st.prerecord ==> f in st'.freed)
            && st.freed <= st'.freed
            && (i.cfg.filtered ==> st.next in st'.freed && Current(st, i.cfg) == st.next + 1)
            && (!i.cfg.filtered ==> Current(st, i.cfg) == st.next)
  {
    hide Decide, Trigger, Fetch, Detect, Act, Keep;
    var st1 := Detect(Fetch(st, i.cfg), i.cfg);
    var decision := Decide(st.ctl, i.cfg, Trigger(st.prev.Some?, i), i.dbEvent);
    var st2 := Act(st1, i.cfg, decision);
    FetchBooks(st, i.cfg);
    ActBooks(st1, i.cfg, decision);
    KeepBooks(st2, i.cfg, Current(st, i.cfg));
    PrefixKeeps(st1.freed, st2.freed);
    PrefixKeeps(st2.freed, Step(st, i).freed);
  }

  lemma PrefixKeeps(a: seq<Frame>, b: seq<Frame>)
    requires a <= b
    ensures forall f :: f in a ==> f in b
  {
    assert forall k :: 0 <= k < |a| ==> a[k] == b[k];
  }

  lemma FetchBooks(st: State, cfg: Config)
    ensures var st' := Detect(Fetch(st, cfg), cfg);
            && st'.remembered == st.remembered && st'.prerecord == st.prerecord && st.freed <= st'.freed
            && st'.next == st.next + (if cfg.filtered then 2 else 1) + (if cfg.plugin then 1 else 0)
            && (cfg.filtered ==> st.next in st'.freed)
  {
    assert cfg.filtered ==> (st.freed + [st.next])[|st.freed|] == st.next;
  }

  lemma ActBooks(st: State, cfg: Config, decision: (Control, Action))
    ensures var st' := Act(st, cfg, decision);
            var remembers := decision.1 == Begins && cfg.remember;
            && st'.remembered == st.remembered + (if remembers then [st.next] else [])
            && st'.next == st.next + (if remembers then 1 else 0) && st'.prev == st.prev
            && st.freed <= st'.freed
            && (decision.1 == Begins && !cfg.hasTarget ==> st'.freed == st.freed + st.prerecord)
  {
  }

  lemma KeepBooks(st: State, cfg: Config, current: Frame)
    ensures var st' := Keep(st, cfg, current);
            && st'.remembered == st.remembered && st.freed <= st'.freed
            && st'.next == st.next + (if cfg.preDuration > 0 then 1 else 0)
            && st'.prev == Some(if cfg.preDuration > 0 then st.next else current)
  {
  }

  // ---------- ownership: no frame is lost, freed twice, or used after it was given away ----------

  /** How often a frame occurs in a list. */
  function Count(s: seq<Frame>, f: Frame): nat {
    if s == [] then 0 else Count(s[..|s| - 1], f) + (if s[|s| - 1] == f then 1 else 0)
  }

  lemma {:induction false} CountAppend(a: seq<Frame>, b: seq<Frame>, f: Frame)
    ensures Count(a + b, f) == Count(a, f) + Count(b, f)
  {
    if b == [] {
      assert a + b == a;
    } else {
      assert (a + b)[..|a + b| - 1] == a + b[..|b| - 1];
      CountAppend(a, b[..|b| - 1], f);
    }
  }

  lemma CountOne(g: Frame, f: Frame)
    ensures Count([g], f) == if g == f then 1 else 0
  {
    assert [g][..0] == [];
  }

  lemma {:induction false} CountMember(s: seq<Frame>, f: Frame)
    ensures f in s <==> Count(s, f) > 0
  {
    if s != [] {
      CountMember(s[..|s| - 1], f);
      assert s == s[..|s| - 1] + [s[|s| - 1]];
    }
  }

  /** How often a frame occurs in all the places a frame can be in, together. */
  function Places(st: State, f: Frame): nat {
    Count(st.freed, f) + Count(st.handed, f) + Count(st.remembered, f) + Count(st.prerecord, f)
      + Count(Held(st.prev), f)
  }

  function Once(b: bool): nat { if b then 1 else 0 }

  lemma FetchAccounted(st: State, cfg: Config, f: Frame)
    requires Places(st, f) == Once(f < st.next)
    ensures Places(Fetch(st, cfg), f) + Once(f == Current(st, cfg)) == Once(f < Fetch(st, cfg).next)
  {
    CountAppend(st.freed, [st.next], f);
    CountOne(st.next, f);
  }

  lemma DetectAccounted(st: State, cfg: Config, current: Frame, f: Frame)
    requires Places(st, f) + Once(f == current) == Once(f < st.next)
    ensures Places(Detect(st, cfg), f) + Once(f == current) == Once(f < Detect(st, cfg).next)
  {
    CountAppend(st.freed, Held(st.prev), f);
    CountOne(st.next, f);
  }

  lemma HandOverAccounted(st: State, cfg: Config, current: Frame, f: Frame)
    requires Places(st, f) + Once(f == current) == Once(f < st.next)
    ensures Places(HandOver(st, cfg), f) + Once(f == current) == Once(f < HandOver(st, cfg).next)
  {
    CountAppend(st.freed, st.prerecord, f);
    CountAppend(st.handed, st.prerecord, f);
    CountAppend(st.remembered, [st.next], f);
    CountOne(st.next, f);
  }

  lemma ActAccounted(st: State, cfg: Config, decision: (Control, Action), current: Frame, f: Frame)
    requires Places(st, f) + Once(f == current) == Once(f < st.next)
    ensures Places(Act(st, cfg, decision), f) + Once(f == current) == Once(f < Act(st, cfg, decision).next)
  {
    hide HandOver, Count;
    HandOverAccounted(st, cfg, current, f);
  }

  lemma KeepAccounted(st: State, cfg: Config, current: Frame, f: Frame)
    requires Places(st, f) + Once(f == current) == Once(f < st.next)
    ensures Places(Keep(st, cfg, current), f) == Once(f < Keep(st, cfg, current).next)
  {
    hide Count;
    CountEmpty(f);
    CountAppend(st.freed, Held(st.prev), f);
    CountOne(current, f);
    CountOne(st.next, f);
    if cfg.preDuration > 0 {
      if |st.prerecord| >= cfg.preDuration {
        var oldest, rest := st.prerecord[0], st.prerecord[1..];
        assert st.prerecord == [oldest] + rest;
        CountAppend([oldest], rest, f);
        CountOne(oldest, f);
        CountAppend(st.freed + Held(st.prev), [oldest], f);
        CountAppend(rest, [current], f);
      } else {
        CountAppend(st.prerecord, [current], f);
      }
    }
  }

  lemma CountEmpty(f: Frame)
    ensures Count([], f) == 0
  {
  }

  lemma StepAccounted(st: State, i: Input, f: Frame)
    requires Places(st, f) == Once(f < st.next)
    ensures Places(Step(st, i), f) == Once(f < Step(st, i).next)
  {
    hide Places, Fetch, Detect, Decide, Act, Keep;
    match i
    case NoFrame =>
    case Resized =>
      AbortAccounted(st, f);
    case Picture(cfg, _, _, _, dbEvent) =>
      var current, fetched := Current(st, cfg), Fetch(st, cfg);
      var detected := Detect(fetched, cfg);
      var decision := Decide(st.ctl, cfg, Trigger(st.prev.Some?, i), dbEvent);
      FetchAccounted(st, cfg, f);
      DetectAccounted(fetched, cfg, current, f);
      ActAccounted(detected, cfg, decision, current, f);
      KeepAccounted(Act(detected, cfg, decision), cfg, current, f);
  }

  lemma AbortAccounted(st: State, f: Frame)
    requires Places(st, f) == Once(f < st.next)
    ensures Places(Step(st, Resized), f) == Once(f < st.next + 1)
  {
    CountAppend(st.freed, [st.next], f);
    CountOne(st.next, f);
  }

  /** Whatever the inputs, and even if the parameters change from frame to frame, at every moment each
      allocated frame is in exactly one place, once. */
  lemma {:induction false} EachFrameInOnePlace(inputs: seq<Input>, f: Frame)
    ensures Places(Run(inputs), f) == if f < Run(inputs).next then 1 else 0
  {
    if inputs != [] {
      EachFrameInOnePlace(inputs[..|inputs| - 1], f);
      StepAccounted(Run(inputs[..|inputs| - 1]), inputs[|inputs| - 1], f);
    }
  }

  /** At exit nothing is leaked: every frame was freed once or given away once. */
  lemma NothingLeaked(inputs: seq<Input>, f: Frame)
    requires f < Run(inputs).next
    ensures var st := Finish(Run(inputs));
            Count(st.freed, f) + Count(st.handed, f) + Count(st.remembered, f) == 1
  {
    var st := Run(inputs);
    EachFrameInOnePlace(inputs, f);
    CountAppend(st.freed, Held(st.prev), f);
    CountAppend(st.freed + Held(st.prev), st.prerecord, f);
  }
}
