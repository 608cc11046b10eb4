/** The reference-counted thread lifecycle of src/interface.cpp, shared by sources, targets and triggers,
    and the watchdog of src/source.cpp that restarts a stuck source. A schedule is a sequence of whole
    operations, because their bodies run under one lock. Setting on-demand is a single assignment without
    it, and announcing a stop is two, on-demand first. A body under the lock reads on-demand at most once
    and does not read the stop flag, so each of the two takes effect as if before or after that body; with
    other bodies between them they are `SetOnDemand(true)` followed, later, by `AnnounceStop`. */
module Lifecycle {

  datatype Op = Start | Stop | Restart | SetOnDemand(v: bool) | AnnounceStop

  /** `thread` says whether a thread object exists; `spawned` and `joined` count them over time;
      `failed` records that an assertion of the program did not hold. */
  datatype Life = Life(thread: bool, users: int, running: bool, onDemand: bool, stopFlag: bool,
                       spawned: nat, joined: nat, failed: bool)

  const IDLE := Life(false, 0, false, false, false, 0, 0, false)

  function Spawn(l: Life): Life {
    l.(thread := true, running := true, spawned := l.spawned + 1)
  }

  function Tell(l: Life): Life { l.(running := false, stopFlag := true) }

  /** Waits for the thread, which leaves its loop only when it is told to. */
  function Join(l: Life): Life
    requires l.thread && l.stopFlag
  {
    l.(thread := false, joined := l.joined + 1)
  }

  function Apply(l: Life, op: Op): Life {
    match op
    case Start =>
      var l1 := if l.users != 0 then l
                else if l.thread then l.(stopFlag := false)
                else Spawn(l.(stopFlag := false));
      l1.(users := l.users + 1)
    case Restart =>
      if !l.thread then l.(failed := l.failed || l.users != 0)
      else Spawn(Join(Tell(l)).(stopFlag := false))
    case Stop =>
      if !l.thread then l
      else
        var l1 := l.(users := l.users - 1, failed := l.failed || l.users - 1 < 0);
        if l1.users == 0 && l.onDemand then Join(Tell(l1)) else l1
    case SetOnDemand(v) => l.(onDemand := v)
    case AnnounceStop => l.(onDemand := true, stopFlag := true)
  }

  function Run(ops: seq<Op>): Life {
    if ops == [] then IDLE else Apply(Run(ops[..|ops| - 1]), ops[|ops| - 1])
  }

  lemma RunSnoc(ops: seq<Op>, op: Op)
    ensures Run(ops + [op]) == Apply(Run(ops), op)
  {
    assert (ops + [op])[..|ops|] == ops;
  }

  // ---------- schedules in which nobody stops more often than it started ----------

  function Outstanding(ops: seq<Op>): int {
    if ops == [] then 0
    else Outstanding(ops[..|ops| - 1]) + match ops[|ops| - 1] case Start => 1 case Stop => -1 case _ => 0
  }

  ghost predicate Balanced(ops: seq<Op>) {
    forall k :: 0 <= k <= |ops| ==> Outstanding(ops[..k]) >= 0
  }

  ghost predicate Healthy(l: Life) {
    && !l.failed && l.users >= 0
    && l.running == l.thread
    && (!l.thread ==> l.users == 0)
    && l.spawned == l.joined + if l.thread then 1 else 0
  }

  /** Every operation keeps a healthy life healthy, unless it is a stop too many. */
  lemma ApplyHealthy(l: Life, op: Op)
    requires Healthy(l) && !(op.Stop? && l.users == 0 && l.thread)
    ensures Healthy(Apply(l, op))
    ensures !op.Start? && !op.Stop? ==> Apply(l, op).users == l.users
  {
  }

  /** Precisely a stop too many makes an assertion fail. */
  lemma FailsExactlyOnExcessStop(l: Life, op: Op)
    requires Healthy(l)
    ensures Apply(l, op).failed <==> op.Stop? && l.users == 0 && l.thread
  {
  }

  lemma BalancedFront(ops: seq<Op>)
    requires Balanced(ops) && ops != []
    ensures Balanced(ops[..|ops| - 1]) && Outstanding(ops) >= 0
  {
    var front := ops[..|ops| - 1];
    forall k | 0 <= k <= |front|
      ensures Outstanding(front[..k]) >= 0
    {
      assert front[..k] == ops[..k];
    }
    assert ops[..|ops|] == ops;
  }

  /** For every interleaving: no assertion fails, the user count is the number of outstanding starts, the
      running flag says whether there is a thread, every thread but the live one has been joined, and as
      long as anyone is using the interface the thread exists. */
  lemma {:induction false} EveryScheduleHealthy(ops: seq<Op>)
    requires Balanced(ops)
    ensures Healthy(Run(ops)) && Run(ops).users == Outstanding(ops)
    ensures Outstanding(ops) > 0 ==> Run(ops).thread
  {
    if ops != [] {
      BalancedFront(ops);
      EveryScheduleHealthy(ops[..|ops| - 1]);
      ApplyHealthy(Run(ops[..|ops| - 1]), ops[|ops| - 1]);
    }
  }

  // ---------- when a thread is joined, in terms of the schedule alone ----------

  /** What the last operation that sets on-demand left. */
  function Demanded(ops: seq<Op>): bool {
    if ops == [] then false
    else
      match ops[|ops| - 1]
      case SetOnDemand(v) => v
      case AnnounceStop => true
      case _ => Demanded(ops[..|ops| - 1])
  }

  lemma {:induction false} OnDemandIsDemanded(ops: seq<Op>)
    ensures Run(ops).onDemand == Demanded(ops)
  {
    if ops != [] {
      OnDemandIsDemanded(ops[..|ops| - 1]);
    }
  }

  /** A stop joins the thread exactly when it gives back the last use of an interface on demand, and then the
      thread has been told to stop. No other stop touches it, and a start makes sure that there is one. */
  lemma StopJoinsExactly(ops: seq<Op>)
    requires Balanced(ops)
    ensures var (l, s) := (Run(ops), Run(ops + [Stop]));
            var joins := Outstanding(ops) == 1 && Demanded(ops);
            && s.joined == l.joined + (if joins then 1 else 0)
            && s.thread == (l.thread && !joins) && s.running == s.thread
            && (joins ==> s.stopFlag) && (!joins ==> s.stopFlag == l.stopFlag)
    ensures var (l, s) := (Run(ops), Run(ops + [Start]));
            && s.thread && s.running && s.joined == l.joined
            && s.spawned == l.spawned + (if l.thread then 0 else 1)
  {
    EveryScheduleHealthy(ops);
    OnDemandIsDemanded(ops);
    RunSnoc(ops, Stop);
    RunSnoc(ops, Start);
  }

  /** A thread that was joined had been told to stop, and stays told until the next start. */
  lemma {:induction false} JoinedWasTold(ops: seq<Op>)
    requires Balanced(ops)
    ensures !Run(ops).thread && Run(ops).joined > 0 ==> Run(ops).stopFlag
  {
    if ops != [] {
      BalancedFront(ops);
      JoinedWasTold(ops[..|ops| - 1]);
      EveryScheduleHealthy(ops[..|ops| - 1]);
    }
  }

  // ---------- any schedule at all, surplus stops included ----------

  /** Until an assertion fails, every schedule is healthy. */
  lemma {:induction false} HealthyUntilFailure(ops: seq<Op>)
    ensures !Run(ops).failed ==> Healthy(Run(ops))
  {
    if ops != [] {
      var front, op := ops[..|ops| - 1], ops[|ops| - 1];
      HealthyUntilFailure(front);
      if !Run(front).failed {
        FailsExactlyOnExcessStop(Run(front), op);
        if !Run(ops).failed {
          ApplyHealthy(Run(front), op);
        }
      }
    }
  }

  predicate ExcessStopAt(ops: seq<Op>, k: nat)
    requires k < |ops|
  {
    ops[k].Stop? && Run(ops[..k]).thread && Run(ops[..k]).users == 0
  }

  /** With no condition on the schedule: an assertion fails if and only if at some point somebody stops an
      interface that has a thread and no users. */
  lemma {:induction false} FailureExactly(ops: seq<Op>)
    ensures Run(ops).failed <==> exists k :: 0 <= k < |ops| && ExcessStopAt(ops, k)
  {
    if ops != [] {
      var front, op := ops[..|ops| - 1], ops[|ops| - 1];
      FailureExactly(front);
      HealthyUntilFailure(front);
      if !Run(front).failed {
        FailsExactlyOnExcessStop(Run(front), op);
      }
      forall k | 0 <= k < |front|
        ensures ExcessStopAt(front, k) == ExcessStopAt(ops, k)
      {
        assert front[..k] == ops[..k];
      }
      assert ExcessStopAt(ops, |ops| - 1) == (op.Stop? && Run(front).thread && Run(front).users == 0);
    }
  }

  ghost predicate StaysOnDemand(ops: seq<Op>) {
    SetOnDemand(false) !in ops
  }

  /** Whoever is on demand and has no users has no thread. */
  predicate ReleasedWhenUnused(l: Life) { l.onDemand && (l.users == 0 ==> !l.thread) }

  lemma ApplyReleases(l: Life, op: Op)
    requires Healthy(l) && ReleasedWhenUnused(l) && op != SetOnDemand(false)
    ensures Healthy(Apply(l, op)) && ReleasedWhenUnused(Apply(l, op))
  {
  }

  /** The shutdown of the program stops every interface, also on-demand ones that nobody started. An interface
      that is on demand from the beginning bears any number of surplus stops. */
  lemma {:induction false} OnDemandBearsSurplusStops(ops: seq<Op>)
    requires ops != [] && ops[0] == SetOnDemand(true) && StaysOnDemand(ops)
    ensures Healthy(Run(ops)) && ReleasedWhenUnused(Run(ops))
  {
    if |ops| == 1 {
      assert ops[..0] == [];
    } else {
      var front, op := ops[..|ops| - 1], ops[|ops| - 1];
      OnDemandBearsSurplusStops(front);
      assert op in ops;
      ApplyReleases(Run(front), op);
    }
  }

  // ---------- the announced stop ----------

  /** The steps that clear the stop flag. */
  predicate Clears(l: Life, op: Op) {
    (op.Restart? && l.thread) || (op.Start? && l.users == 0)
  }

  lemma ClearsExactly(l: Life, op: Op)
    requires l.stopFlag
    ensures Apply(l, op).stopFlag <==> !Clears(l, op)
  {
  }

  predicate FlagThroughout(l: Life, ops: seq<Op>)
    decreases |ops|
  {
    l.stopFlag && (ops != [] ==> FlagThroughout(Apply(l, ops[0]), ops[1..]))
  }

  predicate NeverCleared(l: Life, ops: seq<Op>)
    decreases |ops|
  {
    ops != [] ==> !Clears(l, ops[0]) && NeverCleared(Apply(l, ops[0]), ops[1..])
  }

  /** For every schedule after an announcement: the stop stays announced throughout if and only if no step
      restarts a thread or starts an interface without users. */
  lemma AnnouncementStaysExactly(ops: seq<Op>, later: seq<Op>)
    ensures FlagThroughout(Run(ops + [AnnounceStop]), later) <==> NeverCleared(Run(ops + [AnnounceStop]), later)
  {
    RunSnoc(ops, AnnounceStop);
    FlagStaysExactly(Run(ops + [AnnounceStop]), later);
  }

  lemma {:induction false} FlagStaysExactly(l: Life, ops: seq<Op>)
    requires l.stopFlag
    ensures FlagThroughout(l, ops) <==> NeverCleared(l, ops)
    decreases |ops|
  {
    if ops != [] {
      hide Apply, Clears;
      ClearsExactly(l, ops[0]);
      if Apply(l, ops[0]).stopFlag {
        FlagStaysExactly(Apply(l, ops[0]), ops[1..]);
      }
    }
  }

  // ---------- the watchdog as a process ----------

  /** Where the watchdog is: not started, about to look at the stop flag, asleep before its check, decided
      to restart, about to give its use back, or finished. */
  datatype Dog = Unborn | Looking | Dozing | Deciding | Leaving | Gone

  /** `others` counts the uses of everybody else. */
  datatype System = System(life: Life, dog: Dog, others: int)

  /** Either somebody else operates on the interface, or the watchdog takes its next step; `due` says whether
      the source has been without a new frame for too long. */
  datatype Event = Other(op: Op) | Step(due: bool)

  const BEGINNING := System(IDLE, Unborn, 0)

  function DogStep(s: System, due: bool): System {
    match s.dog
    case Unborn => s.(life := Apply(s.life, Start), dog := Looking)
    case Looking => s.(dog := if s.life.stopFlag then Leaving else Dozing)
    case Dozing => s.(dog := if due && s.life.running && s.life.thread then Deciding else Looking)
    case Deciding => s.(life := Apply(s.life, Restart), dog := Looking)
    case Leaving => s.(life := Apply(s.life, Stop), dog := Gone)
    case Gone => s
  }

  function React(s: System, e: Event): System {
    match e
    case Step(due) => DogStep(s, due)
    case Other(op) =>
      System(Apply(s.life, op), s.dog, s.others + if op.Start? then 1 else if op.Stop? then -1 else 0)
  }

  function Play(s: System, events: seq<Event>): System
    decreases |events|
  {
    if events == [] then s else Play(React(s, events[0]), events[1..])
  }

  /** Everybody else gives back only what it took. */
  predicate Fair(s: System, events: seq<Event>)
    decreases |events|
  {
    s.others >= 0 && (events != [] ==> Fair(React(s, events[0]), events[1..]))
  }

  predicate Uses(d: Dog) { d.Looking? || d.Dozing? || d.Deciding? || d.Leaving? }

  ghost predicate Sound(s: System) {
    Healthy(s.life) && s.others >= 0 && s.life.users == s.others + if Uses(s.dog) then 1 else 0
  }

  lemma ReactSound(s: System, e: Event)
    requires Sound(s) && React(s, e).others >= 0
    ensures Sound(React(s, e))
  {
    match e
    case Step(_) =>
    case Other(op) => ApplyHealthy(s.life, op);
  }

  lemma {:induction false} PlaySound(s: System, events: seq<Event>)
    requires Sound(s) && Fair(s, events)
    ensures Sound(Play(s, events))
    decreases |events|
  {
    if events != [] {
      ReactSound(s, events[0]);
      PlaySound(React(s, events[0]), events[1..]);
    }
  }

  /** Over every run of the watchdog among others: no assertion fails, every use is counted, and from its
      start until it gives its use back the thread exists, so also when it comes to restart it. */
  lemma WatchdogNeverFails(events: seq<Event>)
    requires Fair(BEGINNING, events)
    ensures var s := Play(BEGINNING, events);
            && Sound(s) && (Uses(s.dog) ==> s.life.thread)
            && (s.dog.Deciding? ==>
                  var r := DogStep(s, false).life;
                  r.thread && r.running && !r.failed && r.users == s.life.users
                  && r.spawned == s.life.spawned + 1 && r.joined == s.life.joined + 1)
  {
    PlaySound(BEGINNING, events);
  }

  lemma {:induction false} PlaySplit(s: System, a: seq<Event>, b: seq<Event>)
    ensures Play(s, a + b) == Play(Play(s, a), b)
    ensures Fair(s, a + b) <==> Fair(s, a) && Fair(Play(s, a), b)
    decreases |a|
  {
    if a == [] {
      assert a + b == b;
    } else {
      assert (a + b)[1..] == a[1..] + b;
      PlaySplit(React(s, a[0]), a[1..], b);
    }
  }

  // ---------- without fairness: an on-demand source bears surplus stops under its watchdog too ----------

  lemma {:induction false} PlayReleases(s: System, events: seq<Event>)
    requires Healthy(s.life) && ReleasedWhenUnused(s.life) && Other(SetOnDemand(false)) !in events
    ensures Healthy(Play(s, events).life) && ReleasedWhenUnused(Play(s, events).life)
    decreases |events|
  {
    if events != [] {
      assert events[0] in events;
      match events[0] {
        case Other(op) => ApplyReleases(s.life, op);
        case Step(_) => DogReleases(s);
      }
      PlayReleases(React(s, events[0]), events[1..]);
    }
  }

  lemma DogReleases(s: System)
    requires Healthy(s.life) && ReleasedWhenUnused(s.life)
    ensures forall due :: Healthy(DogStep(s, due).life) && ReleasedWhenUnused(DogStep(s, due).life)
  {
    hide Apply, Healthy, ReleasedWhenUnused;
    ApplyReleases(s.life, Start);
    ApplyReleases(s.life, Restart);
    ApplyReleases(s.life, Stop);
  }

  /** Over every run of a watched source that is set on demand before anybody but its watchdog uses it: no
      assertion ever fails, however many surplus stops there are and whoever restarts it, and without users
      it has no thread. */
  lemma WatchedOnDemandNeverFails(due: seq<bool>, events: seq<Event>)
    requires Other(SetOnDemand(false)) !in events
    ensures var l := Play(BEGINNING, Steps(due) + [Other(SetOnDemand(true))] + events).life;
            Healthy(l) && ReleasedWhenUnused(l)
  {
    var start, demand := Steps(due), [Other(SetOnDemand(true))];
    WatchdogAlone(BEGINNING, due);
    PlaySplit(BEGINNING, start + demand, events);
    PlaySplit(BEGINNING, start, demand);
    assert demand[1..] == [];
    PlayReleases(Play(BEGINNING, start + demand), events);
  }

  function Steps(due: seq<bool>): seq<Event> {
    if due == [] then [] else [Step(due[0])] + Steps(due[1..])
  }

  lemma {:induction false} WatchdogAlone(s: System, due: seq<bool>)
    requires Sound(s) && s.others == 0 && !s.life.stopFlag && !s.dog.Leaving? && !s.dog.Gone?
    requires s.dog.Unborn? ==> !s.life.thread
    ensures var r := Play(s, Steps(due)).life; Healthy(r) && (r.users == 0 ==> !r.thread)
    decreases |due|
  {
    if due != [] {
      ReactSound(s, Step(due[0]));
      assert Steps(due)[1..] == Steps(due[1..]);
      WatchdogAlone(React(s, Step(due[0])), due[1..]);
    }
  }

  // ---------- shutting down under a watchdog ----------

  /** No further announcement, and the interface stays on demand. */
  predicate Quiet(events: seq<Event>) {
    Other(AnnounceStop) !in events && Other(SetOnDemand(false)) !in events
  }

  predicate Looks(s: System, e: Event) { e.Step? && s.dog.Looking? }

  predicate EverLooks(s: System, events: seq<Event>)
    decreases |events|
  {
    events != [] && (Looks(s, events[0]) || EverLooks(React(s, events[0]), events[1..]))
  }

  predicate EverCleared(s: System, events: seq<Event>)
    decreases |events|
  {
    events != [] && ((s.life.stopFlag && !React(s, events[0]).life.stopFlag)
      || EverCleared(React(s, events[0]), events[1..]))
  }

  predicate Watching(d: Dog) { d.Looking? || d.Dozing? || d.Deciding? }

  /** The announcement has been made, the interface is in use and the watchdog has not seen the flag yet. */
  ghost predicate Announced(s: System) {
    Sound(s) && s.life.onDemand && s.life.stopFlag && Watching(s.dog)
  }

  /** While the watchdog watches, only a restart, its own or another, clears the flag. */
  lemma OnlyRestartsClear(s: System, e: Event)
    requires Announced(s)
    ensures !React(s, e).life.stopFlag <==> e == Other(Restart) || (e.Step? && s.dog.Deciding?)
  {
  }

  /** What the watchdog finds at its next check, if it makes one. */
  predicate FirstDue(events: seq<Event>)
    decreases |events|
  {
    events != [] && if events[0].Step? then events[0].due else FirstDue(events[1..])
  }

  /** Somebody restarts the interface, or the watchdog has decided or will decide to. */
  predicate RestartComes(d: Dog, events: seq<Event>) {
    Other(Restart) in events || d.Deciding? || (d.Dozing? && FirstDue(events))
  }

  /** Before the watchdog's next look the flag is cleared exactly if a restart comes. */
  lemma {:induction false} ClearedExactly(s: System, pre: seq<Event>)
    requires Announced(s) && Fair(s, pre) && Quiet(pre) && !EverLooks(s, pre) && Play(s, pre).dog.Looking?
    ensures EverCleared(s, pre) <==> RestartComes(s.dog, pre)
    decreases |pre|
  {
    if pre != [] {
      var e, rest := pre[0], pre[1..];
      var s1 := React(s, e);
      assert e in pre && pre == [e] + rest;
      ReactSound(s, e);
      OnlyRestartsClear(s, e);
      if s1.life.stopFlag {
        ClearedExactly(s1, rest);
      }
    }
  }

  /** The watchdog has missed the announcement. */
  ghost predicate Missed(s: System) {
    Sound(s) && !s.life.stopFlag && Watching(s.dog)
  }

  lemma {:induction false} MissedForEver(s: System, events: seq<Event>)
    requires Missed(s) && Fair(s, events) && Quiet(events)
    ensures Missed(Play(s, events)) && Play(s, events).life.thread
    decreases |events|
  {
    if events != [] {
      ReactSound(s, events[0]);
      MissedForEver(React(s, events[0]), events[1..]);
    }
  }

  /** Up to its next look the watchdog can only go on watching, and the flag is what the clearing steps leave. */
  lemma {:induction false} UntilTheLook(s: System, pre: seq<Event>)
    requires Announced(s) && Fair(s, pre) && Quiet(pre) && !EverLooks(s, pre)
    ensures if EverCleared(s, pre) then Missed(Play(s, pre)) else Announced(Play(s, pre))
    decreases |pre|
  {
    if pre != [] {
      var s1 := React(s, pre[0]);
      ReactSound(s, pre[0]);
      assert pre[0] in pre;
      if s1.life.stopFlag {
        UntilTheLook(s1, pre[1..]);
      } else {
        MissedForEver(s1, pre[1..]);
      }
    }
  }

  lemma {:induction false} ReleasedAfter(s: System, events: seq<Event>)
    requires Sound(s) && ReleasedWhenUnused(s.life) && Fair(s, events) && Quiet(events)
    ensures Sound(Play(s, events)) && ReleasedWhenUnused(Play(s, events).life)
    decreases |events|
  {
    if events != [] {
      ReactSound(s, events[0]);
      assert events[0] in events;
      match events[0] {
        case Other(op) => ApplyReleases(s.life, op);
        case Step(_) =>
      }
      ReleasedAfter(React(s, events[0]), events[1..]);
    }
  }

  function Stops(n: nat): seq<Event> {
    if n == 0 then [] else [Other(Stop)] + Stops(n - 1)
  }

  /** When the watchdog is gone and everybody else gives back what it holds, nothing is left. */
  lemma {:induction false} AllGiveBack(s: System)
    requires Sound(s) && ReleasedWhenUnused(s.life) && s.dog.Gone?
    ensures Quiet(Stops(s.others)) && Fair(s, Stops(s.others)) && !Play(s, Stops(s.others)).life.thread
    decreases s.others
  {
    if s.others > 0 {
      var s1 := React(s, Other(Stop));
      ReactSound(s, Other(Stop));
      ApplyReleases(s.life, Stop);
      AllGiveBack(s1);
      assert Stops(s.others)[1..] == Stops(s1.others);
    }
  }

  /** From the announcement through `pre` to the watchdog's next look, and then any `post`: if no restart
      comes the watchdog leaves, and once it and everybody else have given back their uses every thread is
      joined; if one comes, the watchdog never leaves and the thread stays for ever. */
  lemma AfterTheLook(s: System, pre: seq<Event>, due: bool, post: seq<Event>)
    requires Announced(s) && Fair(s, pre + [Step(due)] + post) && Quiet(pre) && Quiet(post)
    requires !EverLooks(s, pre) && Play(s, pre).dog.Looking?
    ensures var r := Play(s, pre + [Step(due)] + post);
            if RestartComes(s.dog, pre) then Watching(r.dog) && r.life.thread
            else
              && !Watching(r.dog)
              && (r.dog.Gone? && r.others == 0 ==> !r.life.thread && r.life.spawned == r.life.joined)
  {
    PlaySplit(s, pre + [Step(due)], post);
    PlaySplit(s, pre, [Step(due)]);
    UntilTheLook(s, pre);
    ClearedExactly(s, pre);
    var look := Play(s, pre + [Step(due)]);
    assert look == React(Play(s, pre), Step(due)) by {
      assert [Step(due)][1..] == [];
    }
    ReactSound(Play(s, pre), Step(due));
    if EverCleared(s, pre) {
      MissedForEver(look, post);
    } else {
      StaysAway(look, post);
      ReleasedAfter(look, post);
    }
  }

  lemma {:induction false} StaysAway(s: System, events: seq<Event>)
    requires s.dog.Leaving? || s.dog.Gone?
    ensures Play(s, events).dog.Leaving? || Play(s, events).dog.Gone?
    decreases |events|
  {
    if events != [] {
      StaysAway(React(s, events[0]), events[1..]);
    }
  }

  /** After `first` some continuation leaves no thread. */
  ghost predicate CanEnd(s: System, first: seq<Event>) {
    exists post :: Quiet(post) && Fair(s, first + post) && !Play(s, first + post).life.thread
  }

  /** A watchdog that sees the flag leaves with its next step, and everybody else can give back what it holds. */
  lemma SeenMeansEnd(t: System, due: bool) returns (post: seq<Event>)
    requires Announced(t) && t.dog.Looking?
    ensures Quiet(post) && Fair(t, [Step(due)] + post) && !Play(t, [Step(due)] + post).life.thread
  {
    var leaving := React(t, Step(due));
    var left := React(leaving, Step(due));
    ReactSound(t, Step(due));
    ReactSound(leaving, Step(due));
    AllGiveBack(left);
    var stops := Stops(left.others);
    post := [Step(due)] + stops;
    assert post[1..] == stops && ([Step(due)] + post)[1..] == post;
  }

  /** So shutdown can join the thread if and only if no restart comes between the announcement and the
      watchdog's next look at the flag. */
  lemma ShutdownExactly(s: System, pre: seq<Event>, due: bool)
    requires Announced(s) && Fair(s, pre) && Quiet(pre) && !EverLooks(s, pre) && Play(s, pre).dog.Looking?
    ensures CanEnd(s, pre + [Step(due)]) <==> !RestartComes(s.dog, pre)
  {
    hide Play, Fair, Announced, Quiet, RestartComes, EverLooks, EverCleared;
    ClearedExactly(s, pre);
    if EverCleared(s, pre) {
      forall post | Quiet(post) && Fair(s, pre + [Step(due)] + post)
        ensures Play(s, pre + [Step(due)] + post).life.thread
      {
        AfterTheLook(s, pre, due, post);
      }
    } else {
      UntilTheLook(s, pre);
      var post := SeenMeansEnd(Play(s, pre), due);
      PlaySplit(s, pre, [Step(due)] + post);
      assert pre + ([Step(due)] + post) == pre + [Step(due)] + post;
    }
  }

  /** Every announcement made while the watchdog watches, in any run, is a case of the above. */
  lemma AnnouncementsHappen(events: seq<Event>)
    requires Fair(BEGINNING, events) && Watching(Play(BEGINNING, events).dog)
    ensures Announced(React(Play(BEGINNING, events), Other(AnnounceStop)))
  {
    PlaySound(BEGINNING, events);
    ReactSound(Play(BEGINNING, events), Other(AnnounceStop));
  }

  /** The same for every run from the beginning: `events`, an announcement while the watchdog watches, and
      `pre` up to its next look. */
  lemma ShutdownOfRun(events: seq<Event>, pre: seq<Event>, due: bool)
    requires Fair(BEGINNING, events) && Watching(Play(BEGINNING, events).dog)
    requires var s := React(Play(BEGINNING, events), Other(AnnounceStop));
             Fair(s, pre) && Quiet(pre) && !EverLooks(s, pre) && Play(s, pre).dog.Looking?
    ensures var s := React(Play(BEGINNING, events), Other(AnnounceStop));
            CanEnd(s, pre + [Step(due)]) <==> !RestartComes(Play(BEGINNING, events).dog, pre)
  {
    AnnouncementsHappen(events);
    ShutdownExactly(React(Play(BEGINNING, events), Other(AnnounceStop)), pre, due);
  }

  /** The watchdog misses an announcement that comes between its check and its restart. */
  lemma AnnouncementCanBeMissed()
    ensures var s := Play(BEGINNING, [Step(true), Step(true), Step(true), Other(AnnounceStop)]);
            Announced(s) && RestartComes(s.dog, [Step(true)]) && EverCleared(s, [Step(true)])
  {
    var s1 := React(BEGINNING, Step(true));
    var s2 := React(s1, Step(true));
    var s3 := React(s2, Step(true));
    var s := React(s3, Other(AnnounceStop));
    assert Play(s3, [Other(AnnounceStop)]) == s by { assert [Other(AnnounceStop)][1..] == []; }
    assert [Step(true), Other(AnnounceStop)][1..] == [Other(AnnounceStop)];
    assert [Step(true), Step(true), Other(AnnounceStop)][1..] == [Step(true), Other(AnnounceStop)];
    assert [Step(true), Step(true), Step(true), Other(AnnounceStop)][1..] ==
      [Step(true), Step(true), Other(AnnounceStop)];
  }

  // ---------- shutting down without a watchdog ----------

  lemma {:induction false} LastStopJoins(ops: seq<Op>, later: seq<Op>)
    requires Balanced(ops + [AnnounceStop] + later) && Outstanding(ops) > 0 && StaysOnDemand(later)
    ensures ReleasedWhenUnused(Run(ops + [AnnounceStop] + later))
    decreases |later|
  {
    var all := ops + [AnnounceStop] + later;
    if later == [] {
      assert all == ops + [AnnounceStop];
      RunSnoc(ops, AnnounceStop);
      BalancedFront(all);
      assert all[..|all| - 1] == ops;
      EveryScheduleHealthy(ops);
    } else {
      var front, op := later[..|later| - 1], later[|later| - 1];
      assert all[..|all| - 1] == ops + [AnnounceStop] + front;
      BalancedFront(all);
      LastStopJoins(ops, front);
      EveryScheduleHealthy(ops + [AnnounceStop] + front);
      assert op in later;
      ApplyReleases(Run(ops + [AnnounceStop] + front), op);
      hide Apply;
      RunSnoc(ops + [AnnounceStop] + front, op);
      assert all == ops + [AnnounceStop] + front + [op];
    }
  }

  /** Once a stop is announced while the interface is in use, the stop that gives back the last use leaves
      no thread behind: everything spawned has been joined. */
  lemma ShutdownJoinsEveryThread(ops: seq<Op>, later: seq<Op>)
    requires Balanced(ops + [AnnounceStop] + later) && Outstanding(ops) > 0 && StaysOnDemand(later)
    requires Outstanding(ops + [AnnounceStop] + later) == 0
    ensures var l := Run(ops + [AnnounceStop] + later); !l.thread && !l.running && l.spawned == l.joined
  {
    LastStopJoins(ops, later);
    EveryScheduleHealthy(ops + [AnnounceStop] + later);
  }

  /** The shortest way to lose an announcement. */
  lemma RestartUndoesAnnouncedStop(ops: seq<Op>)
    requires Balanced(ops) && Outstanding(ops) > 0
    ensures Run(ops + [AnnounceStop]).stopFlag && !Run(ops + [AnnounceStop] + [Restart]).stopFlag
  {
    EveryScheduleHealthy(ops);
    RunSnoc(ops, AnnounceStop);
    RunSnoc(ops + [AnnounceStop], Restart);
  }

  // ---------- the class ----------

  class Interface {
    var th: bool
    var userCount: int
    var running: bool
    var onDemand: bool
    var localStopFlag: bool
    ghost var spawned: nat
    ghost var joined: nat

    ghost function Now(): Life
      reads this
    {
      Life(th, userCount, running, onDemand, localStopFlag, spawned, joined, false)
    }

    constructor ()
      ensures Now() == IDLE
    {
      th, userCount, running, onDemand, localStopFlag := false, 0, false, false, false;
      spawned, joined := 0, 0;
    }

    method NewThread()
      modifies this
      ensures Now() == old(Now()).(thread := true, spawned := old(spawned) + 1)
    {
      th := true;
      spawned := spawned + 1;
    }

    /** `join_thread`, which would hang if the thread had not been told to stop. */
    method JoinThread()
      requires th && localStopFlag
      modifies this
      ensures Now() == old(Now()).(thread := false, joined := old(joined) + 1)
    {
      th := false;
      joined := joined + 1;
    }

    method Begin()
      modifies this
      ensures Now() == Apply(old(Now()), Start)
    {
      if userCount == 0 {
        localStopFlag := false;
        if !th {
          NewThread();
          running := true;
        }
      }
      userCount := userCount + 1;
    }

    method Again()
      requires Healthy(Now())
      modifies this
      ensures Now() == Apply(old(Now()), Restart) && Healthy(Now())
    {
      if !th {
        assert userCount == 0;
        return;
      }
      var oldUserCount := userCount;
      userCount := 0;
      running := false;
      localStopFlag := true;
      JoinThread();
      localStopFlag := false;
      NewThread();
      running := true;
      userCount := oldUserCount;
    }

    /** Whoever stops must have started. */
    method End()
      requires Healthy(Now()) && (th ==> userCount > 0)
      modifies this
      ensures Now() == Apply(old(Now()), Stop) && Healthy(Now())
    {
      if th {
        userCount := userCount - 1;
        assert userCount >= 0;
        if userCount == 0 && onDemand {
          running := false;
          localStopFlag := true;
          JoinThread();
        }
      }
    }

    method DemandOnly(v: bool)
      modifies this
      ensures Now() == Apply(old(Now()), SetOnDemand(v))
    {
      onDemand := v;
    }

    method Announce()
      modifies this
      ensures Now() == Apply(old(Now()), AnnounceStop)
    {
      onDemand := true;
      localStopFlag := true;
    }
  }
}
