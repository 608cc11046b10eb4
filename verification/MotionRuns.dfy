/** Whole-run facts about the motion recorder: pairing of starts and stops, the pre-roll, and when
    recordings stop and may start again. */
module MotionRuns {

  import opened MotionSpec
  import opened Options

  // ---------- starts and stops pair up, for all inputs and parameters ----------

  /** The event a log leaves open. */
  function OpenEvent(log: seq<Event>): Option<int> {
    if log == [] then None
    else match log[|log| - 1] case Start(e, _) => Some(e) case Stop(_) => None
  }

  /** Starts and stops alternate, and every stop names the event of the start before it. */
  predicate Paired(log: seq<Event>) {
    log != [] ==>
      var front := log[..|log| - 1];
      Paired(front) && OpenEvent(front) == match log[|log| - 1] case Start(_, _) => None case Stop(e) => Some(e)
  }

  ghost predicate Consistent(st: State) {
    && Paired(st.log)
    && OpenEvent(st.log) == (if st.ctl.recording then Some(st.ctl.eventNr) else None)
    && (st.ctl.mute != 0 ==> !st.ctl.recording && st.ctl.hits == 0)
  }

  lemma PairedSnoc(log: seq<Event>, e: Event)
    requires Paired(log)
    requires OpenEvent(log) == match e case Start(_, _) => None case Stop(n) => Some(n)
    ensures Paired(log + [e])
    ensures OpenEvent(log + [e]) == match e case Start(n, _) => Some(n) case Stop(_) => None
  {
    assert (log + [e])[..|log|] == log;
  }

  lemma StepConsistent(st: State, i: Input)
    requires Consistent(st)
    ensures Consistent(Step(st, i))
  {
    if i.Picture? {
      hide Step, Trigger, Paired, OpenEvent;
      StepShape(st, i);
      var (ctl, action) := Decide(st.ctl, i.cfg, Trigger(st.prev.Some?, i), i.dbEvent);
      match action
      case Nothing => assert st.log + [] == st.log;
      case Begins => PairedSnoc(st.log, Start(ctl.eventNr, st.prerecord));
      case Ends => PairedSnoc(st.log, Stop(st.ctl.eventNr));
    }
  }

  lemma {:induction false} RunConsistent(inputs: seq<Input>)
    ensures Consistent(Run(inputs))
  {
    if inputs != [] {
      RunConsistent(inputs[..|inputs| - 1]);
      StepConsistent(Run(inputs[..|inputs| - 1]), inputs[|inputs| - 1]);
    }
  }

  // ---------- the pre-roll ----------

  predicate Starts(st: State, i: Input) {
    i.Picture? && !st.ctl.recording && Step(st, i).ctl.recording
  }

  /** The frames worked on since the last hand-over, the one that triggered it first. */
  function Since(inputs: seq<Input>): seq<Frame> {
    if inputs == [] then []
    else
      var front, i := inputs[..|inputs| - 1], inputs[|inputs| - 1];
      var st := Run(front);
      if st.aborted || !i.Picture? then Since(front)
      else if Starts(st, i) then [Current(st, i.cfg)]
      else Since(front) + [Current(st, i.cfg)]
  }

  function Last(n: nat, s: seq<Frame>): seq<Frame> {
    if |s| <= n then s else s[|s| - n..]
  }

  ghost predicate FixedPreroll(n: nat, inputs: seq<Input>) {
    forall k :: 0 <= k < |inputs| && inputs[k].Picture? ==> inputs[k].cfg.preDuration == n
  }

  lemma LastSnoc(n: nat, s: seq<Frame>, f: Frame)
    requires n > 0
    ensures Last(n, s + [f]) == (if |Last(n, s)| >= n then Last(n, s)[1..] else Last(n, s)) + [f]
  {
  }

  /** With a fixed pre-roll length the queue is always the latest frames since the last hand-over. */
  lemma {:induction false} PrerollIsLatest(n: nat, inputs: seq<Input>)
    requires FixedPreroll(n, inputs)
    ensures Run(inputs).prerecord == Last(n, Since(inputs))
  {
    if inputs != [] {
      var front, i := inputs[..|inputs| - 1], inputs[|inputs| - 1];
      var st := Run(front);
      PrerollIsLatest(n, front);
      if !st.aborted && i.Picture? {
        hide Step;
        StepShape(st, i);
        if n > 0 {
          LastSnoc(n, Since(front), Current(st, i.cfg));
        }
      }
    }
  }

  /** What a start records and hands over is exactly the last frames before the trigger frame, in
      arrival order: as many as the pre-roll length allows, none from before the previous hand-over, and
      not the trigger frame, which begins the next list. Without a target they are freed. */
  lemma HandedPreroll(n: nat, inputs: seq<Input>, i: Input)
    requires FixedPreroll(n, inputs) && !Run(inputs).aborted && Starts(Run(inputs), i)
    ensures Run(inputs + [i]).log == Run(inputs).log + [Start(i.dbEvent, Last(n, Since(inputs)))]
    ensures var handed := if i.cfg.hasTarget then Last(n, Since(inputs)) else [];
            Run(inputs + [i]).handed == Run(inputs).handed + handed
    ensures !i.cfg.hasTarget ==> forall f :: f in Last(n, Since(inputs)) ==> f in Run(inputs + [i]).freed
    ensures Current(Run(inputs), i.cfg) !in Last(n, Since(inputs))
    ensures Since(inputs + [i]) == [Current(Run(inputs), i.cfg)]
  {
    hide Step;
    var current := Current(Run(inputs), i.cfg);
    EachFrameInOnePlace(inputs, current);
    CountMember(Run(inputs).prerecord, current);
    RunSnoc(inputs, i);
    PrerollIsLatest(n, inputs);
    StepShape(Run(inputs), i);
    StepBooks(Run(inputs), i);
    assert (inputs + [i])[..|inputs|] == inputs;
  }

  // ---------- timing: the loop's four variables are a three-phase machine ----------

  datatype Phase = Idle(hits: int) | Recording(quiet: int, hits: int) | Muted(left: int)

  function Rest(mute: int): Phase { if mute == 0 then Idle(0) else Muted(mute) }

  function PhaseStep(cfg: Config, p: Phase, trigger: bool): (Phase, Action) {
    match p
    case Muted(left) => (Rest(left - 1), Nothing)
    case Idle(hits) =>
      if !trigger then (p, Nothing)
      else if hits + 1 >= cfg.minFrames || cfg.plugin then (Recording(0, hits + 1), Begins)
      else (Idle(hits + 1), Nothing)
    case Recording(quiet, hits) =>
      if trigger then (Recording(0, hits + 1), Nothing)
      else if quiet + 1 > cfg.minDuration then (Rest(cfg.muteDuration), Ends)
      else (Recording(quiet + 1, 0), Nothing)
  }

  function PhaseRun(cfg: Config, triggers: seq<bool>): Phase {
    if triggers == [] then Idle(0)
    else PhaseStep(cfg, PhaseRun(cfg, triggers[..|triggers| - 1]), triggers[|triggers| - 1]).0
  }

  /** What the machine does on `trigger` after `triggers`. */
  function ActionAfter(cfg: Config, triggers: seq<bool>, trigger: bool): Action {
    PhaseStep(cfg, PhaseRun(cfg, triggers), trigger).1
  }

  function PhaseOf(st: State): Phase {
    var c := st.ctl;
    if c.mute != 0 then Muted(c.mute)
    else if c.recording then Recording(c.stopping, c.hits)
    else Idle(c.hits)
  }

  ghost predicate Fixed(cfg: Config, inputs: seq<Input>) {
    forall k :: 0 <= k < |inputs| && inputs[k].Picture? ==> inputs[k].cfg == cfg
  }

  /** The trigger decisions taken in a run, one for each frame worked on. */
  function Triggers(inputs: seq<Input>): seq<bool> {
    if inputs == [] then []
    else
      var front, i := inputs[..|inputs| - 1], inputs[|inputs| - 1];
      if Run(front).aborted || !i.Picture? then Triggers(front)
      else Triggers(front) + [Trigger(Run(front).prev.Some?, i)]
  }

  lemma StepPhase(st: State, i: Input)
    requires Consistent(st) && i.Picture?
    ensures var trigger := Trigger(st.prev.Some?, i);
            && PhaseOf(Step(st, i)) == PhaseStep(i.cfg, PhaseOf(st), trigger).0
            && Decide(st.ctl, i.cfg, trigger, i.dbEvent).1 == PhaseStep(i.cfg, PhaseOf(st), trigger).1
  {
    hide Step, Trigger;
    StepShape(st, i);
  }

  lemma PhaseRunSnoc(cfg: Config, triggers: seq<bool>, t: bool)
    ensures PhaseRun(cfg, triggers + [t]) == PhaseStep(cfg, PhaseRun(cfg, triggers), t).0
  {
    assert (triggers + [t])[..|triggers|] == triggers;
  }

  /** With fixed parameters the loop refines the three-phase machine over its trigger decisions. */
  lemma {:induction false} RunRefinesPhases(cfg: Config, inputs: seq<Input>)
    requires Fixed(cfg, inputs)
    ensures PhaseOf(Run(inputs)) == PhaseRun(cfg, Triggers(inputs))
  {
    if inputs != [] {
      var front, i := inputs[..|inputs| - 1], inputs[|inputs| - 1];
      var st := Run(front);
      RunRefinesPhases(cfg, front);
      RunConsistent(front);
      if !st.aborted && i.Picture? {
        hide Step;
        StepPhase(st, i);
        PhaseRunSnoc(cfg, Triggers(front), Trigger(st.prev.Some?, i));
      }
    }
  }

  /** Starting and stopping in the loop are the machine's beginnings and endings. */
  lemma RunFollowsActions(cfg: Config, inputs: seq<Input>, i: Input)
    requires Fixed(cfg, inputs) && i.Picture? && i.cfg == cfg && !Run(inputs).aborted
    ensures var st := Run(inputs);
            Run(inputs + [i]).log == st.log +
            match ActionAfter(cfg, Triggers(inputs), Trigger(st.prev.Some?, i))
            case Nothing => []
            case Begins => [Start(i.dbEvent, st.prerecord)]
            case Ends => [Stop(st.ctl.eventNr)]
  {
    RunConsistent(inputs);
    RunRefinesPhases(cfg, inputs);
    RunSnoc(inputs, i);
    hide Step, Run, Trigger;
    StepPhase(Run(inputs), i);
    StepShape(Run(inputs), i);
  }

  /** A frame starts a recording exactly when nothing is recorded or muted, the schedule allows it, there was a
      sound or a detection, and a plugin decides or enough triggering frames came before. A detection takes
      a previous frame, except with the gray detector. */
  lemma StartsExactly(st: State, i: Input)
    requires i.Picture?
    ensures Starts(st, i) <==>
            && !st.ctl.recording && st.ctl.mute == 0 && i.allowed
            && (i.audio || (i.detected && (st.prev.Some? || (i.cfg.gray && !i.cfg.plugin))))
            && (i.cfg.plugin || st.ctl.hits + 1 >= i.cfg.minFrames)
  {
    hide Step;
    StepShape(st, i);
  }

  ghost predicate HadPicture(inputs: seq<Input>) {
    exists k :: 0 <= k < |inputs| && inputs[k].Picture?
  }

  /** There is a previous frame from the first frame on. */
  lemma {:induction false} PreviousExactly(inputs: seq<Input>)
    requires !Run(inputs).aborted
    ensures Run(inputs).prev.Some? <==> HadPicture(inputs)
  {
    if inputs != [] {
      var front, i := inputs[..|inputs| - 1], inputs[|inputs| - 1];
      assert inputs == front + [i];
      RunSnoc(front, i);
      if Run(front).aborted {
        assert false;
      }
      PreviousExactly(front);
      if i.Picture? {
        hide Step, Run;
        StepBooks(Run(front), i);
        assert inputs[|front|].Picture?;
      } else {
        hide Run;
        assert forall k :: 0 <= k < |front| ==> front[k] == inputs[k];
      }
    }
  }

  /** The decisions that all timing theorems speak of, in terms of what the loop got from outside: a frame
      triggers if the schedule allows it and there was a sound, or a detection by the gray detector, or one
      by another detector with an earlier frame to compare with. */
  lemma TriggersByInputs(inputs: seq<Input>, i: Input)
    requires i.Picture? && !Run(inputs).aborted
    ensures Triggers(inputs + [i]) == Triggers(inputs) +
            [i.allowed && (i.audio || (i.detected && (HadPicture(inputs) || (i.cfg.gray && !i.cfg.plugin))))]
  {
    hide Run;
    TriggersSnoc(inputs, i);
    PreviousExactly(inputs);
  }

  // ---------- when a recording stops ----------

  function TrailingQuiet(triggers: seq<bool>): nat {
    if triggers == [] || triggers[|triggers| - 1] then 0 else 1 + TrailingQuiet(triggers[..|triggers| - 1])
  }

  lemma {:induction false} QuietIsTrailing(cfg: Config, triggers: seq<bool>)
    ensures var p := PhaseRun(cfg, triggers);
            p.Recording? ==> p.quiet == TrailingQuiet(triggers) && (p.quiet == 0 || p.quiet <= cfg.minDuration)
  {
    if triggers != [] {
      QuietIsTrailing(cfg, triggers[..|triggers| - 1]);
    }
  }

  /** A recording ends exactly with the frame that makes more than `minDuration` frames in a row without
      a trigger, counted over the trigger decisions alone; until then the loop's counter agrees with that count. */
  lemma StopExactly(cfg: Config, inputs: seq<Input>, i: Input)
    requires Fixed(cfg, inputs) && i.Picture? && i.cfg == cfg && !Run(inputs).aborted
    requires Run(inputs).ctl.recording
    ensures Run(inputs).ctl.stopping == TrailingQuiet(Triggers(inputs))
    ensures TrailingQuiet(Triggers(inputs)) == 0 || TrailingQuiet(Triggers(inputs)) <= cfg.minDuration
    ensures var quiet := TrailingQuiet(Triggers(inputs + [i]));
            Run(inputs + [i]).log ==
            if quiet > 0 && quiet > cfg.minDuration then Run(inputs).log + [Stop(Run(inputs).ctl.eventNr)]
            else Run(inputs).log
  {
    var st := Run(inputs);
    var t := Trigger(st.prev.Some?, i);
    RecordingPhase(cfg, inputs);
    RunSnoc(inputs, i);
    QuietIsTrailing(cfg, Triggers(inputs));
    TriggersSnoc(inputs, i);
    assert (Triggers(inputs) + [t])[..|Triggers(inputs)|] == Triggers(inputs);
    hide Step, Trigger, Run;
    StepShape(st, i);
  }

  lemma RecordingPhase(cfg: Config, inputs: seq<Input>)
    requires Fixed(cfg, inputs)
    ensures Run(inputs).ctl.recording ==>
              Run(inputs).ctl.mute == 0 &&
              PhaseRun(cfg, Triggers(inputs)) == Recording(Run(inputs).ctl.stopping, Run(inputs).ctl.hits)
  {
    RunConsistent(inputs);
    RunRefinesPhases(cfg, inputs);
  }

  lemma TriggersSnoc(inputs: seq<Input>, i: Input)
    requires i.Picture? && !Run(inputs).aborted
    ensures Triggers(inputs + [i]) == Triggers(inputs) + [Trigger(Run(inputs).prev.Some?, i)]
  {
    assert (inputs + [i])[..|inputs|] == inputs;
  }

  // ---------- when the next recording starts ----------

  function CountTrue(triggers: seq<bool>): nat {
    if triggers == [] then 0
    else CountTrue(triggers[..|triggers| - 1]) + (if triggers[|triggers| - 1] then 1 else 0)
  }

  /** The frames the machine must still ignore when it comes to rest after `triggers`. */
  ghost predicate AtRest(cfg: Config, triggers: seq<bool>, mute: int) {
    || (triggers == [] && mute == 0)
    || (triggers != [] && mute == cfg.muteDuration
        && ActionAfter(cfg, triggers[..|triggers| - 1], triggers[|triggers| - 1]) == Ends)
  }

  ghost predicate NoStart(cfg: Config, triggers: seq<bool>, t: seq<bool>) {
    forall k :: 0 <= k < |t| ==> ActionAfter(cfg, triggers + t[..k], t[k]) != Begins
  }

  function Resting(mute: nat, t: seq<bool>): Phase {
    if |t| < mute then Muted(mute - |t|) else Idle(CountTrue(t[mute..]))
  }

  lemma RestingSnoc(cfg: Config, mute: nat, t: seq<bool>, b: bool)
    requires PhaseStep(cfg, Resting(mute, t), b).1 != Begins
    ensures Resting(mute, t + [b]) == PhaseStep(cfg, Resting(mute, t), b).0
  {
    if |t| >= mute {
      assert (t + [b])[mute..] == t[mute..] + [b];
      assert (t[mute..] + [b])[..|t| - mute] == t[mute..];
    } else if |t| + 1 == mute {
      assert (t + [b])[mute..] == [];
    }
  }

  lemma NoStartSnoc(cfg: Config, triggers: seq<bool>, t: seq<bool>, b: bool)
    requires NoStart(cfg, triggers, t + [b])
    ensures NoStart(cfg, triggers, t) && ActionAfter(cfg, triggers + t, b) != Begins
  {
    hide ActionAfter;
    forall k | 0 <= k < |t|
      ensures ActionAfter(cfg, triggers + t[..k], t[k]) != Begins
    {
      assert (t + [b])[..k] == t[..k] && (t + [b])[k] == t[k];
    }
    assert (t + [b])[..|t|] == t && (t + [b])[|t|] == b;
  }

  lemma {:induction false} RestingPhase(cfg: Config, triggers: seq<bool>, mute: nat, t: seq<bool>)
    requires AtRest(cfg, triggers, mute) && NoStart(cfg, triggers, t)
    ensures PhaseRun(cfg, triggers + t) == Resting(mute, t)
    decreases |t|
  {
    if t == [] {
      assert triggers + t == triggers;
    } else {
      hide PhaseStep, Resting;
      var front, last := t[..|t| - 1], t[|t| - 1];
      assert t == front + [last];
      NoStartSnoc(cfg, triggers, front, last);
      RestingPhase(cfg, triggers, mute, front);
      assert triggers + t == triggers + front + [last];
      PhaseRunSnoc(cfg, triggers + front, last);
      RestingSnoc(cfg, mute, front, last);
    }
  }

  /** From rest, with no start so far during `t`, the next frame starts a recording exactly when it
      triggers, the mute period has passed, and the triggers since then reach `minFrames`. */
  lemma StartExactly(cfg: Config, triggers: seq<bool>, mute: nat, t: seq<bool>, next: bool)
    requires AtRest(cfg, triggers, mute) && NoStart(cfg, triggers, t)
    ensures ActionAfter(cfg, triggers + t, next) == Begins <==>
            next && |t| >= mute && (cfg.plugin || CountTrue(t[mute..]) + 1 >= cfg.minFrames)
  {
    RestingPhase(cfg, triggers, mute, t);
  }

  lemma {:induction false} CountTrueBound(t: seq<bool>)
    ensures CountTrue(t) <= |t|
  {
    if t != [] {
      CountTrueBound(t[..|t| - 1]);
    }
  }

  /** A negative mute duration never counts down to zero: the first stop ends all recording. */
  lemma {:induction false} NegativeMuteIsForEver(cfg: Config, triggers: seq<bool>, t: seq<bool>)
    requires cfg.muteDuration < 0
    requires triggers != [] && AtRest(cfg, triggers, cfg.muteDuration)
    ensures PhaseRun(cfg, triggers + t) == Muted(cfg.muteDuration - |t|)
    decreases |t|
  {
    if t == [] {
      assert triggers + t == triggers;
    } else {
      var front, last := t[..|t| - 1], t[|t| - 1];
      NegativeMuteIsForEver(cfg, triggers, front);
      assert triggers + t == triggers + front + [last];
      PhaseRunSnoc(cfg, triggers + front, last);
    }
  }

  /** So between a stop and the next start lie at least the mute period and, without a plugin, after it enough
      triggers to reach `minFrames`. */
  lemma GapBetweenRecordings(cfg: Config, triggers: seq<bool>, t: seq<bool>)
    requires triggers != [] && AtRest(cfg, triggers, cfg.muteDuration) && NoStart(cfg, triggers, t)
    requires ActionAfter(cfg, triggers + t, true) == Begins
    ensures 0 <= cfg.muteDuration <= |t|
    ensures !cfg.plugin ==> CountTrue(t[cfg.muteDuration..]) + 1 >= cfg.minFrames
    ensures !cfg.plugin ==> |t| + 1 >= cfg.muteDuration + cfg.minFrames
  {
    if cfg.muteDuration < 0 {
      NegativeMuteIsForEver(cfg, triggers, t);
      assert false;
    }
    StartExactly(cfg, triggers, cfg.muteDuration, t, true);
    CountTrueBound(t[cfg.muteDuration..]);
  }

  function Waiting(mute: nat, n: nat): seq<bool> {
    seq(mute + n, k => k >= mute)
  }

  lemma {:induction false} WaitingStartsNothing(cfg: Config, triggers: seq<bool>, n: nat, k: nat)
    requires cfg.muteDuration >= 0 && triggers != [] && AtRest(cfg, triggers, cfg.muteDuration)
    requires k <= cfg.muteDuration + n && (n == 0 || (!cfg.plugin && n < cfg.minFrames))
    ensures NoStart(cfg, triggers, Waiting(cfg.muteDuration, n)[..k])
    decreases k
  {
    var mute: nat := cfg.muteDuration;
    var t := Waiting(mute, n);
    if k > 0 {
      var before := t[..k - 1];
      WaitingStartsNothing(cfg, triggers, n, k - 1);
      StartExactly(cfg, triggers, mute, before, t[k - 1]);
      if k - 1 >= mute {
        CountTrueBound(before[mute..]);
      }
      forall j | 0 <= j < k
        ensures ActionAfter(cfg, triggers + t[..k][..j], t[..k][j]) != Begins
      {
        if j < k - 1 {
          assert t[..k][..j] == before[..j] && t[..k][j] == before[j];
        } else {
          assert t[..k][..j] == before;
        }
      }
    }
  }

  lemma {:induction false} AllTrue(t: seq<bool>)
    requires forall k :: 0 <= k < |t| ==> t[k]
    ensures CountTrue(t) == |t|
  {
    if t != [] {
      AllTrue(t[..|t| - 1]);
    }
  }

  /** After a stop, some continuation starts a new recording if and only if the mute duration is not negative. */
  lemma RestartsIffMuteNotNegative(cfg: Config, triggers: seq<bool>)
    requires triggers != [] && AtRest(cfg, triggers, cfg.muteDuration)
    ensures (exists t :: ActionAfter(cfg, triggers + t, true) == Begins) <==> cfg.muteDuration >= 0
  {
    if cfg.muteDuration >= 0 {
      var n := if cfg.plugin || cfg.minFrames <= 1 then 0 else cfg.minFrames - 1;
      var t := Waiting(cfg.muteDuration, n);
      WaitingStartsNothing(cfg, triggers, n, |t|);
      assert t[..|t|] == t;
      AllTrue(t[cfg.muteDuration..]);
      StartExactly(cfg, triggers, cfg.muteDuration, t, true);
    } else {
      forall t
        ensures ActionAfter(cfg, triggers + t, true) != Begins
      {
        NegativeMuteIsForEver(cfg, triggers, t);
      }
    }
  }

  // ---------- the same for runs of the loop ----------

  /** Which of the frames worked on during `b`, after `a`, were triggers. */
  function During(a: seq<Input>, b: seq<Input>): seq<bool> {
    if |Triggers(a)| <= |Triggers(a + b)| then Triggers(a + b)[|Triggers(a)|..] else []
  }

  lemma FixedPart(cfg: Config, a: seq<Input>, b: seq<Input>)
    requires Fixed(cfg, a + b)
    ensures Fixed(cfg, a) && (b != [] ==> Fixed(cfg, a + b[..|b| - 1]))
    ensures b != [] ==> a + b == a + b[..|b| - 1] + [b[|b| - 1]] && (b[|b| - 1].Picture? ==> b[|b| - 1].cfg == cfg)
  {
    forall k | 0 <= k < |a| && a[k].Picture?
      ensures a[k].cfg == cfg
    {
      assert (a + b)[k] == a[k];
    }
    if b != [] {
      var front := b[..|b| - 1];
      forall k | 0 <= k < |a + front| && (a + front)[k].Picture?
        ensures (a + front)[k].cfg == cfg
      {
        assert (a + b)[k] == (a + front)[k];
      }
      assert (a + b)[|a + b| - 1] == b[|b| - 1];
    }
  }

  lemma {:induction false} LogGrows(a: seq<Input>, b: seq<Input>)
    ensures Run(a).log <= Run(a + b).log
    ensures !Run(a + b).aborted ==> !Run(a).aborted
    decreases |b|
  {
    if b == [] {
      assert a + b == a;
    } else {
      var front, i := b[..|b| - 1], b[|b| - 1];
      assert a + b == a + front + [i];
      LogGrows(a, front);
      RunSnoc(a + front, i);
      if i.Picture? {
        hide Step, Run;
        StepShape(Run(a + front), i);
      }
    }
  }

  /** While the log stands still nothing starts. */
  lemma {:induction false} QuietLogMeansNoStart(cfg: Config, a: seq<Input>, b: seq<Input>)
    requires Fixed(cfg, a + b) && !Run(a + b).aborted && Run(a + b).log == Run(a).log
    ensures Triggers(a) <= Triggers(a + b) && NoStart(cfg, Triggers(a), Triggers(a + b)[|Triggers(a)|..])
    decreases |b|
  {
    hide Step, Run, Triggers, Fixed, NoStart, ActionAfter;
    if b == [] {
      assert a + b == a;
      NothingStarts(cfg, Triggers(a));
    } else {
      var front, i := b[..|b| - 1], b[|b| - 1];
      FixedPart(cfg, a, b);
      LogStands(a, front, i);
      QuietLogMeansNoStart(cfg, a, front);
      QuietInput(cfg, a + front, i);
      var before := Triggers(a + front)[|Triggers(a)|..];
      assert Triggers(a) + before == Triggers(a + front);
      if i.Picture? {
        var t := Trigger(Run(a + front).prev.Some?, i);
        assert Triggers(a + b)[|Triggers(a)|..] == before + [t];
        NoStartExtend(cfg, Triggers(a), before, t);
      }
    }
  }

  lemma LogStands(a: seq<Input>, front: seq<Input>, i: Input)
    requires !Run(a + front + [i]).aborted && Run(a + front + [i]).log == Run(a).log
    ensures !Run(a + front).aborted && Run(a + front).log == Run(a).log == Run(a + front + [i]).log
  {
    hide Step, Run;
    LogGrows(a, front);
    LogGrows(a + front, [i]);
  }

  /** An input that logs nothing adds at most a trigger decision that starts nothing. */
  lemma QuietInput(cfg: Config, a: seq<Input>, i: Input)
    requires Fixed(cfg, a) && (i.Picture? ==> i.cfg == cfg)
    requires !Run(a).aborted && !Run(a + [i]).aborted && Run(a + [i]).log == Run(a).log
    ensures if i.Picture?
            then var t := Trigger(Run(a).prev.Some?, i);
                 Triggers(a + [i]) == Triggers(a) + [t] && ActionAfter(cfg, Triggers(a), t) != Begins
            else Triggers(a + [i]) == Triggers(a)
  {
    hide Step, Run, ActionAfter;
    if i.Picture? {
      RunFollowsActions(cfg, a, i);
      TriggersSnoc(a, i);
    } else {
      SkippedInput(a, i);
    }
  }

  lemma NothingStarts(cfg: Config, triggers: seq<bool>)
    ensures NoStart(cfg, triggers, triggers[|triggers|..])
  {
  }

  lemma SkippedInput(a: seq<Input>, i: Input)
    requires !i.Picture? && !Run(a + [i]).aborted
    ensures Triggers(a + [i]) == Triggers(a) && Run(a + [i]).log == Run(a).log && !Run(a).aborted
  {
    assert (a + [i])[..|a|] == a;
  }

  lemma NoStartExtend(cfg: Config, triggers: seq<bool>, t: seq<bool>, b: bool)
    requires NoStart(cfg, triggers, t) && ActionAfter(cfg, triggers + t, b) != Begins
    ensures NoStart(cfg, triggers, t + [b])
  {
    hide ActionAfter;
    forall k | 0 <= k < |t + [b]|
      ensures ActionAfter(cfg, triggers + (t + [b])[..k], (t + [b])[k]) != Begins
    {
      if k < |t| {
        assert (t + [b])[..k] == t[..k];
      } else {
        assert (t + [b])[..k] == t;
      }
    }
  }

  /** In every run: if `stop` ended a recording, nothing was logged during `b`, and `start` begins the next
      recording, then at least the mute period lies between them, and without a plugin the frames after that
      period, `start` included, hold at least `minFrames` triggers. */
  lemma GapInEveryRun(cfg: Config, a: seq<Input>, stop: Input, b: seq<Input>, start: Input)
    requires stop.Picture? && start.Picture? && start.cfg == cfg
    requires Fixed(cfg, a + [stop] + b) && !Run(a + [stop] + b).aborted
    requires Run(a).ctl.recording && !Run(a + [stop]).ctl.recording
    requires Run(a + [stop] + b).log == Run(a + [stop]).log
    requires Starts(Run(a + [stop] + b), start)
    ensures 0 <= cfg.muteDuration <= |During(a + [stop], b)|
    ensures !cfg.plugin ==> CountTrue(During(a + [stop], b)[cfg.muteDuration..]) + 1 >= cfg.minFrames
    ensures !cfg.plugin ==> |During(a + [stop], b)| + 1 >= cfg.muteDuration + cfg.minFrames
  {
    hide Step;
    var s := a + [stop];
    FixedPart(cfg, s, b);
    FixedPart(cfg, a, [stop]);
    LogGrows(s, b);
    LogGrows(a, [stop]);
    assert [stop][..0] == [] && a + [] == a;
    StopComesToRest(cfg, a, stop);
    QuietLogMeansNoStart(cfg, s, b);
    var t := During(s, b);
    assert Triggers(s) + t == Triggers(s + b);
    StartIsBeginning(cfg, s + b, start);
    GapBetweenRecordings(cfg, Triggers(s), t);
  }

  lemma StopComesToRest(cfg: Config, a: seq<Input>, stop: Input)
    requires Fixed(cfg, a) && stop.Picture? && stop.cfg == cfg && !Run(a).aborted
    requires Run(a).ctl.recording && !Run(a + [stop]).ctl.recording
    ensures Triggers(a + [stop]) != [] && AtRest(cfg, Triggers(a + [stop]), cfg.muteDuration)
  {
    hide Step, Run, Trigger;
    RunConsistent(a);
    RunRefinesPhases(cfg, a);
    RunSnoc(a, stop);
    StepPhase(Run(a), stop);
    StepShape(Run(a), stop);
    TriggersSnoc(a, stop);
    var t := Trigger(Run(a).prev.Some?, stop);
    assert (Triggers(a) + [t])[..|Triggers(a)|] == Triggers(a);
  }

  lemma StartIsBeginning(cfg: Config, a: seq<Input>, start: Input)
    requires Fixed(cfg, a) && start.Picture? && start.cfg == cfg && !Run(a).aborted
    requires Starts(Run(a), start)
    ensures ActionAfter(cfg, Triggers(a), true) == Begins
  {
    hide Step, Run, Trigger;
    RunConsistent(a);
    RunRefinesPhases(cfg, a);
    StepPhase(Run(a), start);
    StepShape(Run(a), start);
  }
}
