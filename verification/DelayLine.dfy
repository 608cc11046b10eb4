/** The frame queue of src/source_delay.cpp: frames are served `nFrames` arrivals late. */
module DelayLine {

  import opened Options

  /** A frame is known by the number of its arrival. */
  type Frame = nat

  /** Frames lo..hi-1 in order of arrival. */
  function Arrivals(lo: nat, hi: nat): seq<Frame>
    requires lo <= hi
  {
    seq(hi - lo, i requires 0 <= i < hi - lo => lo + i)
  }

  function Oldest(received: nat, n: nat): nat { if received <= n then 0 else received - n }

  /** The frame just before the queue, if any was there long enough to leave it. */
  function Before(received: nat, n: nat): Option<Frame> {
    if received <= n then None else Some(received - n - 1)
  }

  class SourceDelay {
    const nFrames: nat
    var frames: seq<Frame>
    var prev: Option<Frame>
    var lastTs: int
    ghost var received: nat
    ghost var freed: seq<Frame>

    /** What holds between any two turns of the loop. */
    ghost predicate Valid()
      reads this
    {
      && nFrames >= 1
      && frames == Arrivals(Oldest(received, nFrames), received)
      && prev == Before(received, nFrames)
      && freed == Arrivals(0, if prev.Some? then prev.value else 0)
    }

    constructor (n: nat)
      requires n >= 1
      ensures Valid() && nFrames == n && received == 0
    {
      nFrames := n;
      frames, prev, lastTs := [], None, 0;
      received, freed := 0, [];
    }

    method Delete(f: Option<Frame>)
      modifies this`freed
      ensures freed == old(freed) + Held(f)
    {
      freed := freed + Held(f);
    }

    /** One turn of the loop with the next frame. Whatever the number of arrivals, the queue holds the last
        `nFrames` of them in order, `prev` is the frame before those, and every older one was freed once. */
    method Arrive(f: Frame, ts: int)
      requires Valid() && f == received
      modifies this
      ensures Valid() && received == old(received) + 1
      ensures lastTs == ts
    {
      ghost var k := 0;
      while |frames| >= nFrames
        invariant k <= 1 && |frames| == old(|frames|) - k
        invariant k == 0 ==> frames == old(frames) && prev == old(prev) && freed == old(freed)
        invariant k == 1 ==> |old(frames)| >= nFrames && frames == old(frames)[1..]
        invariant k == 1 ==> prev == Some(old(frames)[0]) && freed == old(freed) + Held(old(prev))
        invariant received == old(received)
        decreases |frames|
      {
        Delete(prev);
        prev := Some(frames[0]);
        frames := frames[1..];
        k := k + 1;
      }
      frames := frames + [f];
      received := received + 1;
      lastTs := ts;
    }

    /** The oldest queued frame with the time stamp of the newest; nothing before the first arrival. */
    method GetFrame() returns (served: Option<(Frame, int)>)
      requires Valid()
      ensures served.None? <==> received == 0
      ensures served.Some? ==> served.value == (if received <= nFrames then 0 else received - nFrames, lastTs)
    {
      if frames == [] {
        return None;
      }
      served := Some((frames[0], lastTs));
    }

    /** After the loop: every arrival has now been freed exactly once, in order except that `prev` is last. */
    method CleanUp()
      requires Valid()
      modifies this
      ensures freed == Arrivals(0, if old(prev).Some? then old(prev).value else 0) + old(frames) + Held(old(prev))
      ensures prev == None && frames == old(frames) && received == old(received)
      ensures forall f :: 0 <= f < received ==> multiset(freed)[f] == 1
    {
      ghost var before := freed;
      for i := 0 to |frames|
        invariant frames == old(frames) && prev == old(prev) && received == old(received)
        invariant i <= |frames| && freed == before + frames[..i]
      {
        Delete(Some(frames[i]));
      }
      Delete(prev);
      prev := None;
      ghost var lo := Oldest(received, nFrames);
      assert frames[..|frames|] == frames;
      EachOnce(if old(prev).Some? then old(prev).value else 0, lo, received, old(prev), freed);
    }
  }

  lemma {:induction false} CountArrivals(lo: nat, hi: nat, f: Frame)
    requires lo <= hi
    ensures multiset(Arrivals(lo, hi))[f] == if lo <= f < hi then 1 else 0
    decreases hi
  {
    if lo < hi {
      CountArrivals(lo, hi - 1, f);
      assert Arrivals(lo, hi) == Arrivals(lo, hi - 1) + [hi - 1];
    }
  }

  lemma EachOnce(a: nat, lo: nat, received: nat, prev: Option<Frame>, freed: seq<Frame>)
    requires a <= lo <= received && (if prev.Some? then lo == a + 1 && prev == Some(a) else lo == a == 0)
    requires freed == Arrivals(0, a) + Arrivals(lo, received) + Held(prev)
    ensures forall f :: 0 <= f < received ==> multiset(freed)[f] == 1
  {
    forall f | 0 <= f < received
      ensures multiset(freed)[f] == 1
    {
      CountArrivals(0, a, f);
      CountArrivals(lo, received, f);
    }
  }

  lemma ArrivalsBetween(lo: nat, hi: nat)
    requires lo <= hi
    ensures forall f: Frame :: f in Arrivals(lo, hi) <==> lo <= f < hi
  {
    forall f | lo <= f < hi
      ensures f in Arrivals(lo, hi)
    {
      assert Arrivals(lo, hi)[f - lo] == f;
    }
  }

  /** Between any two turns, with nothing but the number of arrivals: which frames are queued and in which order,
      which one was served last, and which are gone. */
  lemma QueueExactly(d: SourceDelay)
    requires d.Valid()
    ensures |d.frames| == if d.received < d.nFrames then d.received else d.nFrames
    ensures forall k :: 0 <= k < |d.frames| ==> d.frames[k] == d.received - |d.frames| + k
    ensures d.prev == if d.received > d.nFrames then Some(d.received - d.nFrames - 1) else None
    ensures forall f :: f in d.freed <==> 0 <= f < d.received - d.nFrames - 1
  {
    ArrivalsBetween(0, if d.prev.Some? then d.prev.value else 0);
  }

  /** The queue is not emptied at exit: as soon as anything had arrived it keeps pointing to frames that
      were freed, and starting the loop again on the same object would serve and free them again. */
  method QueueDanglesAfterCleanUp(d: SourceDelay) returns (dangles: bool)
    requires d.Valid()
    modifies d
    ensures dangles <==> old(d.received) > 0
    ensures dangles ==> d.frames != [] && forall f :: f in d.frames ==> multiset(d.freed)[f] == 1
  {
    d.CleanUp();
    dangles := d.frames != [];
  }
}
