/** The frame loop of src/motion_trigger_generic.cpp as it is written: fields updated in place,
    every allocation and delete recorded. Each method does to the fields what its specification
    function in MotionSpec says. */
module MotionLoop {

  import opened MotionSpec
  import opened Options

  lemma StepAborts(st: State, i: Input)
    requires !st.aborted
    ensures Step(st, i).aborted == i.Resized?
  {
    if i.Picture? {
      hide Decide;
      StepShape(st, i);
    }
  }

  lemma {:induction false} AbortedRunStays(inputs: seq<Input>, k: nat)
    requires k <= |inputs| && (k == |inputs| || Run(inputs[..k]).aborted)
    ensures Run(inputs) == Run(inputs[..k])
  {
    if k == |inputs| {
      assert inputs[..k] == inputs;
    } else {
      assert inputs[..|inputs| - 1][..k] == inputs[..k];
      AbortedRunStays(inputs[..|inputs| - 1], k);
    }
  }

  class MotionTrigger {
    var prevFrame: Option<Frame>
    var prerecord: seq<Frame>
    var stopping: int
    var mute: int
    var countFramesChanged: int
    var motionTriggered: bool
    var eventNr: int
    var resized: bool

    ghost var log: seq<Event>
    ghost var freed: seq<Frame>
    ghost var handed: seq<Frame>
    ghost var remembered: seq<Frame>
    var frameCount: nat

    ghost function Now(): State
      reads this
    {
      State(Control(stopping, mute, countFramesChanged, motionTriggered, eventNr),
            prevFrame, prerecord, resized, log, frameCount, freed, handed, remembered)
    }

    constructor ()
      ensures Now() == INITIAL
    {
      prevFrame, prerecord := None, [];
      stopping, mute, countFramesChanged, motionTriggered, eventNr := 0, 0, 0, false, -1;
      resized := false;
      log, freed, handed, remembered := [], [], [], [];
      frameCount := 0;
    }

    method NewFrame() returns (f: Frame)
      modifies this`frameCount
      ensures f == old(frameCount) && frameCount == old(frameCount) + 1
    {
      f := frameCount;
      frameCount := frameCount + 1;
    }

    method Delete(f: Option<Frame>)
      modifies this`freed
      ensures freed == old(freed) + Held(f)
    {
      freed := freed + Held(f);
    }

    /** Fetch a frame and let the filters replace it. */
    method GetFrame(cfg: Config) returns (pvf: Frame)
      modifies this
      ensures Now() == Fetch(old(Now()), cfg) && pvf == Current(old(Now()), cfg)
    {
      pvf := NewFrame();
      if cfg.filtered {
        var temp := NewFrame();
        Delete(Some(pvf));
        pvf := temp;
      }
    }

    /** The detectors, of which only the use of the previous frame is modelled. */
    method DetectMotion(i: Input) returns (triggered: bool)
      requires i.Picture?
      modifies this
      ensures Now() == Detect(old(Now()), i.cfg)
      ensures triggered == (i.detected && (old(prevFrame).Some? || (i.cfg.gray && !i.cfg.plugin)))
    {
      triggered := false;
      if i.cfg.plugin {
        if prevFrame.Some? {
          triggered := i.detected;
          Delete(prevFrame);
        }
        var duplicate := NewFrame();
        prevFrame := Some(duplicate);
      } else if i.cfg.gray {
        triggered := i.detected;
      } else {
        if prevFrame.Some? {
          triggered := i.detected;
        }
      }
    }

    /** Announce a new event and hand the pre-roll to the targets. */
    method StartRecording(cfg: Config, dbEvent: int)
      modifies this
      ensures Now() == HandOver(old(Now()), cfg).(ctl := old(Now()).ctl.(recording := true, eventNr := dbEvent),
                                                  log := old(log) + [Start(dbEvent, old(prerecord))])
    {
      motionTriggered := true;
      eventNr := dbEvent;
      log := log + [Start(eventNr, prerecord)];
      if !cfg.hasTarget {
        freed := freed + prerecord;
      } else {
        handed := handed + prerecord;
      }
      prerecord := [];
      if cfg.remember {
        var copy := NewFrame();
        remembered := remembered + [copy];
      }
    }

    method StopRecording(cfg: Config)
      modifies this
      ensures Now() == old(Now()).(log := old(log) + [Stop(old(eventNr))],
                                   ctl := old(Now()).ctl.(recording := false, mute := cfg.muteDuration))
    {
      log := log + [Stop(eventNr)];
      motionTriggered := false;
      mute := cfg.muteDuration;
    }

    /** The mute, trigger and quiet branches. */
    method React(cfg: Config, trigger: bool, dbEvent: int)
      modifies this
      ensures Now() == Act(old(Now()), cfg, Decide(old(Now()).ctl, cfg, trigger, dbEvent))
    {
      if mute != 0 {
        mute := mute - 1;
      } else if trigger {
        countFramesChanged := countFramesChanged + 1;
        if countFramesChanged >= cfg.minFrames || cfg.plugin {
          if !motionTriggered {
            StartRecording(cfg, dbEvent);
          }
        }
        stopping := 0;
      } else if motionTriggered {
        countFramesChanged := 0;
        stopping := stopping + 1;
        if stopping > cfg.minDuration {
          StopRecording(cfg);
        }
      }
    }

    /** Queue the frame and remember it, or a copy of it, as the previous one. */
    method KeepFrame(cfg: Config, pvf: Frame)
      modifies this
      ensures Now() == Keep(old(Now()), cfg, pvf)
    {
      Delete(prevFrame);
      if cfg.preDuration > 0 {
        if |prerecord| >= cfg.preDuration {
          Delete(Some(prerecord[0]));
          prerecord := prerecord[1..];
        }
        prerecord := prerecord + [pvf];
        var duplicate := NewFrame();
        prevFrame := Some(duplicate);
      } else {
        prevFrame := Some(pvf);
      }
    }

    /** One turn of the loop. */
    method Iterate(i: Input) returns (goOn: bool)
      modifies this
      ensures Now() == Step(old(Now()), i)
      ensures goOn == !i.Resized?
    {
      goOn := true;
      match i
      case NoFrame =>
      case Resized =>
        var pvf := NewFrame();
        Delete(Some(pvf));
        resized := true;
        goOn := false;
      case Picture(cfg, detected, audio, allowed, dbEvent) =>
        var pvf := GetFrame(cfg);
        var triggered := DetectMotion(i);
        React(cfg, (triggered || audio) && allowed, dbEvent);
        KeepFrame(cfg, pvf);
    }

    /** `operator()` from the first frame to the clean-up. */
    method Loop(inputs: seq<Input>)
      requires Now() == INITIAL
      modifies this
      ensures Now() == Finish(Run(inputs))
    {
      hide Step, Finish;
      var k, goOn := 0, true;
      while k < |inputs| && goOn
        invariant 0 <= k <= |inputs|
        invariant Now() == Run(inputs[..k]) && goOn == !resized
      {
        RunSnoc(inputs[..k], inputs[k]);
        assert inputs[..k + 1] == inputs[..k] + [inputs[k]];
        goOn := Iterate(inputs[k]);
        StepAborts(Run(inputs[..k]), inputs[k]);
        k := k + 1;
      }
      AbortedRunStays(inputs, k);
      CleanUp();
    }

    /** After the loop: delete the previous frame and whatever is still queued. */
    method CleanUp()
      modifies this
      ensures Now() == Finish(old(Now()))
    {
      Delete(prevFrame);
      prevFrame := None;
      DeleteQueue();
    }

    method DeleteQueue()
      modifies this`freed, this`prerecord
      ensures prerecord == [] && freed == old(freed + prerecord)
    {
      while prerecord != []
        invariant freed + prerecord == old(freed + prerecord)
        decreases |prerecord|
      {
        ghost var queue := prerecord;
        Delete(Some(prerecord[0]));
        prerecord := prerecord[1..];
        assert queue == [queue[0]] + queue[1..];
      }
    }
  }
}
