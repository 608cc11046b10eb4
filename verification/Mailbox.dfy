/** The frame mailbox of src/source.cpp: one producer replaces the current frame under a lock, any number
    of consumers wait for a frame newer than the last one they saw. The parts of `set_frame` and
    `get_frame` between lock operations are the steps of a state machine; schedules interleave them freely. */
module Mailbox {

  import opened Options

  type Time = nat

  type Id = nat

  /** What one turn of the waiting loop in `get_frame` does. */
  datatype Outcome = Got(ts: Time) | Failed | Sleeps

  function Look(vf: Option<Time>, after: Time, stopAt: Time, now: Time): Outcome {
    if vf.Some? && vf.value > after then Got(vf.value)
    else if stopAt <= now then Failed
    else Sleeps
  }

  /** `last` is the time stamp of the frame the consumer received last, which it passes as `after`. */
  datatype Consumer = Ready(last: Time) | Asleep(last: Time, stopAt: Time)

  datatype Producer = Resting | Stamped(ts: Time)

  datatype State = State(
    vf: Option<Time>,               // time stamp of the current frame
    clock: Time,
    producer: Producer,
    consumers: map<Id, Consumer>,
    published: seq<Time>,           // every frame made current, in order
    returned: seq<(Id, Time)>)      // every frame given to a consumer, in order

  datatype Event =
    | Tick(now: Time)
    | Stamp                          // the producer reads the clock, before taking the lock
    | Publish                        // the producer replaces the frame and notifies
    | Refresh                        // fake_frame: the producer renews the time stamp of the current frame
    | Call(c: Id, timeout: Time)     // a consumer enters get_frame
    | Wake(c: Id, timedOut: bool)    // its wait ends: by notification, spuriously, or by timeout

  predicate Enabled(s: State, e: Event) {
    match e
    case Tick(now) => now >= s.clock
    case Stamp => s.producer.Resting?
    case Publish => s.producer.Stamped?
    case Refresh => s.producer.Resting?
    case Call(c, _) => c in s.consumers && s.consumers[c].Ready?
    case Wake(c, _) => c in s.consumers && s.consumers[c].Asleep?
  }

  function Resume(s: State, c: Id, last: Time, stopAt: Time, outcome: Outcome): State {
    match outcome
    case Got(ts) => s.(consumers := s.consumers[c := Ready(ts)], returned := s.returned + [(c, ts)])
    case Failed => s.(consumers := s.consumers[c := Ready(last)])
    case Sleeps => s.(consumers := s.consumers[c := Asleep(last, stopAt)])
  }

  function Apply(s: State, e: Event): State
    requires Enabled(s, e)
  {
    match e
    case Tick(now) => s.(clock := now)
    case Stamp => s.(producer := Stamped(s.clock))
    case Publish => s.(producer := Resting, vf := Some(s.producer.ts), published := s.published + [s.producer.ts])
    case Refresh => if s.vf.Some? then s.(vf := Some(s.clock), published := s.published + [s.clock]) else s
    case Call(c, timeout) =>
      var last := s.consumers[c].last;
      Resume(s, c, last, s.clock + timeout, Look(s.vf, last, s.clock + timeout, s.clock))
    case Wake(c, timedOut) =>
      var k := s.consumers[c];
      Resume(s, c, k.last, k.stopAt, if timedOut then Failed else Look(s.vf, k.last, k.stopAt, s.clock))
  }

  predicate Initial(s: State) {
    && s.vf == None && s.producer == Resting && s.published == [] && s.returned == []
    && forall c :: c in s.consumers ==> s.consumers[c] == Ready(0)
  }

  /** A schedule: every event is enabled when it happens. */
  ghost predicate Schedule(start: State, events: seq<Event>)
    decreases |events|, 0
  {
    events != [] ==>
      var front := events[..|events| - 1];
      Schedule(start, front) && Enabled(After(start, front), events[|events| - 1])
  }

  ghost function After(start: State, events: seq<Event>): State
    requires Schedule(start, events)
    decreases |events|, 1
  {
    if events == [] then start else Apply(After(start, events[..|events| - 1]), events[|events| - 1])
  }

  // ---------- what every schedule keeps ----------

  function Latest(published: seq<Time>): Option<Time> {
    if published == [] then None else Some(published[|published| - 1])
  }

  ghost predicate Ascending(ts: seq<Time>) {
    forall i, j :: 0 <= i < j < |ts| ==> ts[i] <= ts[j]
  }

  /** The frames a consumer received, in order. */
  function Received(returned: seq<(Id, Time)>, c: Id): seq<Time> {
    if returned == [] then []
    else
      var (who, ts) := returned[|returned| - 1];
      Received(returned[..|returned| - 1], c) + if who == c then [ts] else []
  }

  ghost predicate StrictlyAscending(ts: seq<Time>) {
    forall i, j :: 0 <= i < j < |ts| ==> ts[i] < ts[j]
  }

  /** Nothing published or stamped lies in the future, publications never go back in time, and what any
      consumer received is no newer than the current frame. */
  ghost predicate Consistent(s: State) {
    && s.vf == Latest(s.published) && Ascending(s.published)
    && (s.vf.Some? ==> s.vf.value <= s.clock)
    && (s.producer.Stamped? ==> s.producer.ts <= s.clock && (s.vf.Some? ==> s.vf.value <= s.producer.ts))
    && ReturnsUpTo(s.returned, s.vf)
  }

  ghost predicate ReturnsUpTo(returned: seq<(Id, Time)>, vf: Option<Time>) {
    && (forall i :: 0 <= i < |returned| ==> vf.Some? && returned[i].1 <= vf.value)
    && (forall i, j :: 0 <= i < j < |returned| ==> returned[i].1 <= returned[j].1)
  }

  /** A consumer's own frames get strictly newer, and it remembers the last one. */
  ghost predicate InOrder(s: State, c: Id) {
    c in s.consumers ==>
      var r := Received(s.returned, c);
      && StrictlyAscending(r) && s.consumers[c].last == (if r == [] then 0 else r[|r| - 1])
  }

  lemma ReceivedSnoc(returned: seq<(Id, Time)>, c: Id, who: Id, ts: Time)
    ensures Received(returned + [(who, ts)], c) == Received(returned, c) + (if who == c then [ts] else [])
  {
    assert (returned + [(who, ts)])[..|returned|] == returned;
  }

  /** Resuming with what `Look` says, or with a failure, is the only way consumers change the state. */
  predicate Honest(s: State, last: Time, outcome: Outcome) {
    outcome.Got? ==> s.vf == Some(outcome.ts) && outcome.ts > last
  }

  lemma ResumeConsistent(s: State, c: Id, last: Time, stopAt: Time, outcome: Outcome)
    requires Consistent(s) && Honest(s, last, outcome)
    ensures Consistent(Resume(s, c, last, stopAt, outcome))
  {
  }

  lemma PublishConsistent(s: State, ts: Time, producer: Producer)
    requires Consistent(s) && ts <= s.clock && (s.vf.Some? ==> s.vf.value <= ts) && producer.Resting?
    ensures Consistent(s.(vf := Some(ts), published := s.published + [ts], producer := producer))
  {
    var published := s.published + [ts];
    forall i, j | 0 <= i < j < |published|
      ensures published[i] <= published[j]
    {
      if j == |s.published| && i < |s.published| - 1 {
        assert s.published[i] <= s.published[|s.published| - 1];
      }
    }
    assert ReturnsUpTo(s.returned, Some(ts));
  }

  lemma ApplyConsistent(s: State, e: Event)
    requires Enabled(s, e) && Consistent(s)
    ensures Consistent(Apply(s, e))
  {
    hide Ascending, ReturnsUpTo, Latest;
    match e {
      case Publish => PublishConsistent(s, s.producer.ts, Resting);
      case Refresh =>
        if s.vf.Some? {
          PublishConsistent(s, s.clock, s.producer);
        }
      case Call(c, timeout) =>
        var last := s.consumers[c].last;
        ResumeConsistent(s, c, last, s.clock + timeout, Look(s.vf, last, s.clock + timeout, s.clock));
      case Wake(c, timedOut) =>
        var k := s.consumers[c];
        ResumeConsistent(s, c, k.last, k.stopAt, if timedOut then Failed else Look(s.vf, k.last, k.stopAt, s.clock));
      case _ =>
    }
  }

  lemma ResumeInOrder(s: State, who: Id, last: Time, stopAt: Time, outcome: Outcome, c: Id)
    requires InOrder(s, c) && Honest(s, last, outcome) && who in s.consumers && s.consumers[who].last == last
    ensures InOrder(Resume(s, who, last, stopAt, outcome), c)
  {
    if outcome.Got? {
      ReceivedSnoc(s.returned, c, who, outcome.ts);
    }
  }

  lemma ApplyInOrder(s: State, e: Event, c: Id)
    requires Enabled(s, e) && InOrder(s, c)
    ensures InOrder(Apply(s, e), c)
  {
    match e {
      case Call(who, timeout) =>
        hide InOrder;
        var last := s.consumers[who].last;
        ResumeInOrder(s, who, last, s.clock + timeout, Look(s.vf, last, s.clock + timeout, s.clock), c);
      case Wake(who, timedOut) =>
        hide InOrder;
        var k := s.consumers[who];
        ResumeInOrder(s, who, k.last, k.stopAt, if timedOut then Failed else Look(s.vf, k.last, k.stopAt, s.clock), c);
      case _ =>
    }
  }

  lemma {:induction false} EveryScheduleKeeps(start: State, events: seq<Event>, c: Id)
    requires Initial(start) && Schedule(start, events)
    ensures Consistent(After(start, events)) && InOrder(After(start, events), c)
    decreases |events|
  {
    if events != [] {
      var front, e := events[..|events| - 1], events[|events| - 1];
      EveryScheduleKeeps(start, front, c);
      ApplyConsistent(After(start, front), e);
      ApplyInOrder(After(start, front), e, c);
    }
  }

  /** Over every schedule, with spurious wake-ups and timeouts, each consumer's frames carry strictly
      increasing time stamps. */
  lemma ConsumersSeeTimeAdvance(start: State, events: seq<Event>, c: Id)
    requires Initial(start) && Schedule(start, events) && c in After(start, events).consumers
    ensures StrictlyAscending(Received(After(start, events).returned, c))
  {
    EveryScheduleKeeps(start, events, c);
  }

  lemma ReturnStep(s: State, e: Event)
    requires Enabled(s, e) && s.returned != Apply(s, e).returned
    ensures var s' := Apply(s, e);
            && |s'.returned| == |s.returned| + 1
            && var (c, ts) := s'.returned[|s.returned|];
               s'.returned == s.returned + [(c, ts)] && s.vf == Some(ts) && c in s.consumers && s.consumers[c].last < ts
  {
  }

  /** A successful call returns the frame that is current at that moment. It is newer than anything this
      consumer received, no older than anything any consumer received, and the newest frame ever published. */
  lemma SuccessIsCurrent(start: State, events: seq<Event>, e: Event)
    requires Initial(start) && Schedule(start, events) && Enabled(After(start, events), e)
    requires After(start, events).returned != Apply(After(start, events), e).returned
    ensures var s := After(start, events);
            var s' := Apply(s, e);
            && |s'.returned| == |s.returned| + 1
            && var (c, ts) := s'.returned[|s.returned|];
            && s'.returned == s.returned + [(c, ts)]
            && s.vf == Some(ts) && c in s.consumers && s.consumers[c].last < ts
            && (forall t :: t in s.published ==> t <= ts)
            && (forall i :: 0 <= i < |s.returned| ==>
              s.returned[i].1 <= ts && (s.returned[i].0 == c ==> s.returned[i].1 < ts))
  {
    var s := After(start, events);
    ReturnStep(s, e);
    var (c, ts) := Apply(s, e).returned[|s.returned|];
    EveryScheduleKeeps(start, events, c);
    hide Apply, After, Schedule, Enabled;
    NewestOfAll(s, c, ts);
  }

  lemma NewestOfAll(s: State, c: Id, ts: Time)
    requires Consistent(s) && InOrder(s, c) && s.vf == Some(ts) && c in s.consumers && s.consumers[c].last < ts
    ensures forall t :: t in s.published ==> t <= ts
    ensures forall i :: 0 <= i < |s.returned| ==>
            s.returned[i].1 <= ts && (s.returned[i].0 == c ==> s.returned[i].1 < ts)
  {
    hide Received;
    assert forall i :: 0 <= i < |s.published| ==> s.published[i] <= ts;
    forall i | 0 <= i < |s.returned| && s.returned[i].0 == c
      ensures s.returned[i].1 < ts
    {
      var k := PositionOf(s.returned, c, i);
    }
  }

  /** Each return to a consumer is in its list. */
  lemma {:induction false} PositionOf(returned: seq<(Id, Time)>, c: Id, i: nat) returns (k: nat)
    requires i < |returned| && returned[i].0 == c
    ensures k < |Received(returned, c)| && Received(returned, c)[k] == returned[i].1
  {
    if i == |returned| - 1 {
      k := |Received(returned, c)| - 1;
    } else {
      k := PositionOf(returned[..|returned| - 1], c, i);
    }
  }

  // ---------- when a call misses a frame ----------

  /** The current frame is newer than the last one this consumer received. */
  predicate NewFrameFor(s: State, c: Id) {
    c in s.consumers && s.vf.Some? && s.vf.value > s.consumers[c].last
  }

  /** With a newer frame there, a wait that ends returns it, unless and only unless it ends by timeout. */
  lemma MissedIffTimedOut(s: State, c: Id, timedOut: bool)
    requires Enabled(s, Wake(c, timedOut)) && NewFrameFor(s, c)
    ensures var s' := Apply(s, Wake(c, timedOut));
            && (s'.returned == s.returned <==> timedOut)
            && (timedOut ==> s'.consumers[c] == Ready(s.consumers[c].last) && NewFrameFor(s', c))
            && (!timedOut ==> s'.returned == s.returned + [(c, s.vf.value)])
  {
  }

  /** A call made while a newer frame is there returns it at once, and only such a call does. Any other sleeps
      until its timeout from now, or fails if that is zero. */
  lemma CallReturnsIffNewFrame(s: State, c: Id, timeout: Time)
    requires Enabled(s, Call(c, timeout))
    ensures var s' := Apply(s, Call(c, timeout));
            && (s'.returned != s.returned <==> NewFrameFor(s, c))
            && (NewFrameFor(s, c) ==> s'.returned == s.returned + [(c, s.vf.value)])
            && (!NewFrameFor(s, c) ==>
                  s'.consumers[c] == if timeout > 0 then Asleep(s.consumers[c].last, s.clock + timeout)
                                     else Ready(s.consumers[c].last))
  {
  }

  lemma FrameNeverOlder(s: State, e: Event)
    requires Consistent(s) && Enabled(s, e) && s.vf.Some?
    ensures Apply(s, e).vf.Some? && Apply(s, e).vf.value >= s.vf.value
  {
    hide Ascending, ReturnsUpTo, Latest;
  }

  /** A consumer's time stamp changes only with a frame it receives. */
  lemma LastKept(s: State, e: Event, c: Id)
    requires Enabled(s, e) && c in s.consumers
    ensures var s' := Apply(s, e);
            && c in s'.consumers
            && (s'.consumers[c].last == s.consumers[c].last || s'.returned == s.returned + [(c, s'.consumers[c].last)])
  {
  }

  /** A frame that is new for a consumer is never replaced by one that is not, until it receives one. */
  lemma NewFrameStays(s: State, e: Event, c: Id)
    requires Consistent(s) && Enabled(s, e) && NewFrameFor(s, c)
    requires Received(Apply(s, e).returned, c) == Received(s.returned, c)
    ensures NewFrameFor(Apply(s, e), c)
  {
    FrameNeverOlder(s, e);
    LastKept(s, e, c);
    hide Apply, Received, Enabled, Consistent;
    ReceivedSnoc(s.returned, c, c, Apply(s, e).consumers[c].last);
  }

  lemma ScheduleSnoc(start: State, events: seq<Event>, e: Event)
    requires Schedule(start, events) && Enabled(After(start, events), e)
    ensures Schedule(start, events + [e]) && After(start, events + [e]) == Apply(After(start, events), e)
  {
    assert (events + [e])[..|events|] == events;
  }

  lemma ReceivedGrows(s: State, e: Event, c: Id)
    requires Enabled(s, e)
    ensures |Received(Apply(s, e).returned, c)| >= |Received(s.returned, c)|
    ensures |Received(Apply(s, e).returned, c)| == |Received(s.returned, c)| ==>
            Received(Apply(s, e).returned, c) == Received(s.returned, c)
  {
    var s' := Apply(s, e);
    if s'.returned != s.returned {
      ReturnStep(s, e);
      ReceivedSnoc(s.returned, c, s'.returned[|s.returned|].0, s'.returned[|s.returned|].1);
    }
  }

  /** A sleeping consumer keeps the deadline of its call. */
  lemma {:induction false} DeadlineKept(start: State, before: seq<Event>, c: Id, timeout: Time, later: seq<Event>)
    requires Schedule(start, before) && Enabled(After(start, before), Call(c, timeout))
    requires Schedule(start, before + [Call(c, timeout)] + later) && forall t :: Call(c, t) !in later
    ensures var s := After(start, before + [Call(c, timeout)] + later);
            && c in s.consumers && s.clock >= After(start, before).clock
            && (s.consumers[c].Asleep? ==> s.consumers[c].stopAt == After(start, before).clock + timeout)
    decreases |later|
  {
    var called := before + [Call(c, timeout)];
    if later == [] {
      assert called + [] == called;
      ScheduleSnoc(start, before, Call(c, timeout));
    } else {
      var front, e := later[..|later| - 1], later[|later| - 1];
      var all := called + later;
      assert all[..|all| - 1] == called + front && all[|all| - 1] == e;
      assert e in later;
      DeadlineKept(start, before, c, timeout, front);
      StepKeepsDeadline(After(start, called + front), e, c);
    }
  }

  lemma StepKeepsDeadline(s: State, e: Event, c: Id)
    requires Enabled(s, e) && c in s.consumers && !(e.Call? && e.c == c)
    ensures var s' := Apply(s, e);
            && c in s'.consumers && s'.clock >= s.clock
            && (s'.consumers[c].Asleep? ==> s.consumers[c].Asleep? && s'.consumers[c].stopAt == s.consumers[c].stopAt)
  {
  }

  /** Over every schedule: a wait that was not ended by timeout and still fails comes no earlier than the
      timeout of the call, and it fails exactly if that has passed without a newer frame. */
  lemma FailureComesLate(start: State, before: seq<Event>, c: Id, timeout: Time, later: seq<Event>)
    requires Schedule(start, before) && Enabled(After(start, before), Call(c, timeout))
    requires Schedule(start, before + [Call(c, timeout)] + later) && forall t :: Call(c, t) !in later
    requires Enabled(After(start, before + [Call(c, timeout)] + later), Wake(c, false))
    ensures var s := After(start, before + [Call(c, timeout)] + later);
            var s' := Apply(s, Wake(c, false));
            (s'.consumers[c].Ready? && s'.returned == s.returned <==>
             !NewFrameFor(s, c) && s.clock >= After(start, before).clock + timeout)
  {
    DeadlineKept(start, before, c, timeout, later);
    hide Schedule, After;
  }

  /** A frame is current from its publication on with the time its producer read before taking the lock. */
  lemma {:induction false} PublishedAsStamped(start: State, before: seq<Event>, between: seq<Event>)
    requires Schedule(start, before) && Schedule(start, before + [Stamp] + between)
    requires Enabled(After(start, before), Stamp) && Publish !in between
    ensures After(start, before + [Stamp] + between).producer == Stamped(After(start, before).clock)
    ensures var s := After(start, before + [Stamp] + between);
            var s' := Apply(s, Publish);
            s'.vf == Some(After(start, before).clock) && s'.published == s.published + [After(start, before).clock]
    decreases |between|
  {
    if between == [] {
      assert before + [Stamp] + [] == before + [Stamp];
      ScheduleSnoc(start, before, Stamp);
    } else {
      var front, e := between[..|between| - 1], between[|between| - 1];
      var all := before + [Stamp] + between;
      assert all[..|all| - 1] == before + [Stamp] + front && all[|all| - 1] == e;
      assert e in between;
      PublishedAsStamped(start, before, front);
      StampStays(After(start, before + [Stamp] + front), e);
    }
  }

  lemma StampStays(s: State, e: Event)
    requires Enabled(s, e) && s.producer.Stamped? && e != Publish
    ensures Apply(s, e).producer == s.producer
  {
  }

  /** A missed frame is only late: once there is a new frame for a consumer, whatever happens in between,
      its next call or wait that does not time out returns one, if none was returned before. */
  lemma {:induction false} NewFrameIsDelivered(start: State, events: seq<Event>, later: seq<Event>, c: Id)
    requires Initial(start) && Schedule(start, events) && NewFrameFor(After(start, events), c)
    requires Schedule(start, events + later)
    ensures |Received(After(start, events + later).returned, c)| >= |Received(After(start, events).returned, c)|
    ensures |Received(After(start, events + later).returned, c)| == |Received(After(start, events).returned, c)| ==>
              NewFrameFor(After(start, events + later), c)
    decreases |later|
  {
    if later == [] {
      assert events + later == events;
    } else {
      var front, e := later[..|later| - 1], later[|later| - 1];
      assert (events + later)[..|events + later| - 1] == events + front;
      assert (events + later)[|events + later| - 1] == e;
      NewFrameIsDelivered(start, events, front, c);
      var s := After(start, events + front);
      EveryScheduleKeeps(start, events + front, c);
      ReceivedGrows(s, e, c);
      if |Received(After(start, events + later).returned, c)| == |Received(After(start, events).returned, c)| {
        NewFrameStays(s, e, c);
      }
    }
  }

  /** The failure happens: a consumer goes to sleep, a frame is published, and the wait still times out. */
  lemma TimeoutBeatsNewFrame(start: State)
    requires Initial(start) && start.clock == 0 && start.consumers == map[0 := Ready(0)]
    ensures var before := [Call(0, 5), Tick(1), Stamp, Publish];
            && Schedule(start, before) && NewFrameFor(After(start, before), 0)
            && Schedule(start, before + [Wake(0, true)]) && After(start, before + [Wake(0, true)]).returned == []
  {
    var s1, s2, s3, s4 := [Call(0, 5)], [Call(0, 5), Tick(1)], [Call(0, 5), Tick(1), Stamp],
      [Call(0, 5), Tick(1), Stamp, Publish];
    assert Schedule(start, []) && After(start, []) == start;
    ScheduleSnoc(start, [], Call(0, 5));
    assert [] + [Call(0, 5)] == s1 && s1 + [Tick(1)] == s2 && s2 + [Stamp] == s3 && s3 + [Publish] == s4;
    ScheduleSnoc(start, s1, Tick(1));
    ScheduleSnoc(start, s2, Stamp);
    ScheduleSnoc(start, s3, Publish);
    ScheduleSnoc(start, s4, Wake(0, true));
    hide Schedule, After;
  }

  // ---------- the class ----------

  /** The shared part of a source; `clock` values are what `get_us` returned to the caller. */
  class Source {
    var vf: Option<Time>

    constructor ()
      ensures vf == None
    {
      vf := None;
    }

    /** `set_frame`, from the lock on. */
    method SetFrame(useTs: Time)
      modifies this
      ensures vf == Some(useTs)
    {
      vf := Some(useTs);
    }

    method FakeFrame(now: Time)
      modifies this
      ensures vf == if old(vf).Some? then Some(now) else None
    {
      if vf.Some? {
        vf := Some(now);
      }
    }

    /** The loop of `get_frame` under the lock. The k-th wait lets others run: it ends with the current
        frame `frames[k]` at time `times[k]`, by timeout if `timedOut[k]`. When the given waits are used up
        the call is still asleep. */
    method GetFrame(after: Time, stopAt: Time, now: Time, frames: seq<Option<Time>>, times: seq<Time>,
        timedOut: seq<bool>)
        returns (outcome: Outcome, waits: nat)
      requires |frames| == |times| == |timedOut|
      modifies this
      ensures waits <= |frames|
      ensures outcome == if waits == 0 then Look(old(vf), after, stopAt, now)
                         else if timedOut[waits - 1] then Failed
                         else Look(frames[waits - 1], after, stopAt, times[waits - 1])
      ensures outcome.Sleeps? ==> waits == |frames|
      ensures vf == if waits == 0 then old(vf) else frames[waits - 1]
      ensures outcome.Got? ==> vf == Some(outcome.ts) && outcome.ts > after
      ensures forall k :: 0 <= k < waits - 1 ==> !timedOut[k] && Look(frames[k], after, stopAt, times[k]) == Sleeps
    {
      waits := 0;
      var clock, err := now, false;
      while !vf.Some? || vf.value <= after
        invariant 0 <= waits <= |frames| && !err
        invariant vf == if waits == 0 then old(vf) else frames[waits - 1]
        invariant clock == if waits == 0 then now else times[waits - 1]
        invariant waits > 0 ==> !timedOut[waits - 1]
        invariant forall k :: 0 <= k < waits - 1 ==> !timedOut[k] && Look(frames[k], after, stopAt, times[k]) == Sleeps
        invariant waits > 0 ==> Look(old(vf), after, stopAt, now) == Sleeps
        decreases |frames| - waits
      {
        if stopAt <= clock {
          err := true;
          break;
        }
        if waits == |frames| {
          return Sleeps, waits;
        }
        vf, clock := frames[waits], times[waits];
        waits := waits + 1;
        if timedOut[waits - 1] {
          err := true;
          break;
        }
      }
      if err {
        return Failed, waits;
      }
      outcome := Got(vf.value);
    }
  }
}
