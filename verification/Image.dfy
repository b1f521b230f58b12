/** The clock of animated images (src/messages/Image.cpp). */
module ImageFrames {
  import opened Arithmetic

  /** Milliseconds between two ticks. */
  const GIF_FRAME_LENGTH := 20

  // ----- Durations ----------------------------------------------------------------------------------------

  /** The duration that is used for a frame: fast frames are slowed down as browsers do. */
  function FrameDuration(delay: int): (d: int)
    ensures d >= 20
    ensures delay >= 20 ==> d == delay
    ensures 10 < delay < 20 ==> d == 20
    ensures delay <= 10 ==> d == 100
  {
    var duration := if delay <= 10 then 100 else delay;
    if duration < 20 then 20 else duration
  }

  /** How many of the first `k` images can be read. */
  function CountReadable(readable: seq<bool>, k: nat): (n: nat)
    requires k <= |readable|
    ensures n <= k
  {
    if k == 0 then 0 else CountReadable(readable, k - 1) + if readable[k - 1] then 1 else 0
  }

  /** The durations for the delays of the images that can be read, in their order. */
  method ReadFrames(delays: seq<int>, readable: seq<bool>) returns (frames: seq<int>)
    requires |delays| == |readable|
    ensures Playable(frames) && |frames| == CountReadable(readable, |delays|)
    ensures forall i :: 0 <= i < |delays| && readable[i] ==>
      CountReadable(readable, i) < |frames| && frames[CountReadable(readable, i)] == FrameDuration(delays[i])
  {
    frames := [];
    for index := 0 to |delays|
      invariant Playable(frames) && |frames| == CountReadable(readable, index)
      invariant forall i :: 0 <= i < index && readable[i] ==>
        CountReadable(readable, i) < |frames| && frames[CountReadable(readable, i)] == FrameDuration(delays[i])
    {
      if readable[index] {
        frames := frames + [FrameDuration(delays[index])];
      }
    }
  }

  ghost predicate Playable(durations: seq<int>) {
    forall i :: 0 <= i < |durations| ==> durations[i] >= 20
  }

  /** The time at which frame `i` starts. */
  function StartOf(durations: seq<int>, i: nat): int
    requires i <= |durations|
  {
    if i == 0 then 0 else StartOf(durations, i - 1) + durations[i - 1]
  }

  function Total(durations: seq<int>): int {
    StartOf(durations, |durations|)
  }

  lemma {:induction false} StartsGrow(durations: seq<int>, i: nat, j: nat)
    requires Playable(durations) && i <= j <= |durations|
    ensures StartOf(durations, i) + 20 * (j - i) <= StartOf(durations, j)
  {
    if i < j {
      StartsGrow(durations, i, j - 1);
    }
  }

  // ----- The closed form -----------------------------------------------------------------------------------

  /** The frame that is shown at a time from 1 to the length of the animation. */
  function FrameAt(durations: seq<int>, t: nat, i: nat): (index: nat)
    requires Playable(durations) && i < |durations| && StartOf(durations, i) < t <= Total(durations)
    ensures i <= index < |durations| && StartOf(durations, index) < t <= StartOf(durations, index + 1)
    decreases |durations| - i
  {
    if t <= StartOf(durations, i + 1) then i else FrameAt(durations, t, i + 1)
  }

  /** `index` and `offset` are those of time `t`. */
  ghost predicate ShownAt(durations: seq<int>, t: nat, index: nat, offset: int)
    requires t > 0 && Playable(durations) && durations != []
  {
    StartsGrow(durations, 0, |durations|);
    var r := Within(t, Total(durations));
    index == FrameAt(durations, r, 0) && offset == r - StartOf(durations, index)
  }

  lemma {:induction false} FrameAtIs(durations: seq<int>, t: nat, i: nat, index: nat)
    requires Playable(durations) && i <= index < |durations|
    requires StartOf(durations, i) < t <= Total(durations)
    requires StartOf(durations, index) < t <= StartOf(durations, index + 1)
    ensures FrameAt(durations, t, i) == index
  {
    var found := FrameAt(durations, t, i);
    if found < index {
      StartsGrow(durations, found + 1, index);
    } else if index < found {
      StartsGrow(durations, index + 1, found);
    }
  }

  /** A frame and an offset of more than zero and at most its duration belong to exactly one time. */
  lemma {:induction false} ShownIfFits(durations: seq<int>, index: nat, offset: int)
    requires Playable(durations) && index < |durations| && 0 < offset <= durations[index]
    ensures StartOf(durations, index) >= 0
    ensures ShownAt(durations, StartOf(durations, index) + offset, index, offset)
  {
    StartsGrow(durations, 0, index);
    StartsGrow(durations, index + 1, |durations|);
    var t := StartOf(durations, index) + offset;
    WithinOfSmall(t, Total(durations));
    FrameAtIs(durations, t, 0, index);
  }

  // ----- The incremental clock -------------------------------------------------------------------------------

  class Frames {
    const durations: seq<int>
    var index: nat
    var durationOffset: int
    ghost var elapsed: nat // since frame 0 started

    /** What is shown is what the closed form says about the elapsed time. */
    ghost predicate Valid()
      reads this
    {
      Playable(durations)
      && (durations != [] ==>
          if elapsed == 0 then index == 0 && durationOffset == 0
          else ShownAt(durations, elapsed, index, durationOffset))
    }

    /**
     * Frames join the animation where the global clock is, but at most a minute into it.  A single
     * frame has no clock.
     */
    constructor (frames: seq<int>, position: nat)
      requires Playable(frames)
      ensures Valid() && durations == frames
      ensures |frames| > 1 ==> Total(frames) > 0 && elapsed == Min(position % Total(frames), 60000)
      ensures |frames| <= 1 ==> elapsed == 0
    {
      durations := frames;
      index, durationOffset, elapsed := 0, 0, 0;
      new;
      if |durations| > 1 {
        StartsGrow(durations, 0, |durations|);
        durationOffset := Min(position % Total(durations), 60000);
        elapsed := durationOffset;
        ProcessOffset(elapsed);
      }
    }

    /** One tick of the clock. */
    method Advance()
      requires Valid() && durations != []
      modifies this
      ensures Valid() && elapsed == old(elapsed) + GIF_FRAME_LENGTH
      ensures 0 < durationOffset && index < |durations| && durationOffset <= durations[index]
    {
      StartsGrow(durations, 0, |durations|);
      ghost var t := if elapsed == 0 then GIF_FRAME_LENGTH else Within(elapsed, Total(durations)) + GIF_FRAME_LENGTH;
      if elapsed > 0 {
        WithinAdds(elapsed, GIF_FRAME_LENGTH, Total(durations));
      }
      durationOffset := durationOffset + GIF_FRAME_LENGTH;
      elapsed := elapsed + GIF_FRAME_LENGTH;
      ProcessOffset(t);
    }

    /** Terminates because no frame has a duration of zero. */
    method ProcessOffset(ghost t: nat)
      requires Playable(durations) && index < |durations| && durationOffset >= 0
      requires t == StartOf(durations, index) + durationOffset
      modifies `index, `durationOffset
      ensures t == 0 ==> index == old(index) && durationOffset == 0
      ensures old(durationOffset) > 0 ==>
        t > 0 && forall e: nat :: e > 0 && SameTime(durations, e, t) ==> ShownAt(durations, e, index, durationOffset)
    {
      ghost var total := Total(durations);
      ghost var now := t;
      StartsGrow(durations, 0, |durations|);
      StartsGrow(durations, 0, index);
      while durationOffset > durations[index]
        invariant index < |durations| && now == StartOf(durations, index) + durationOffset
        invariant old(durationOffset) > 0 ==> durationOffset > 0
        invariant old(durationOffset) > 0 ==> now > 0 && Within(now, total) == Within(t, total)
        invariant old(durationOffset) == 0 ==> index == old(index) && durationOffset == 0
        decreases durationOffset
      {
        durationOffset := durationOffset - durations[index];
        if index + 1 == |durations| {
          now := now - total;
          WithinPeriodic(now, total);
        }
        index := NextIndex(index, |durations|);
        StartsGrow(durations, 0, index);
      }
      if durationOffset > 0 {
        ShownIfFits(durations, index, durationOffset);
      }
    }
  }

  function NextIndex(index: nat, size: nat): (next: nat)
    requires index < size
    ensures next == if index + 1 == size then 0 else index + 1
  {
    if index + 1 < size then RemainderOfSmall(index + 1, size); (index + 1) % size
    else RemainderIs(index + 1, size, 1, 0); (index + 1) % size
  }

  /** Two times at the same point of the animation. */
  ghost predicate SameTime(durations: seq<int>, a: nat, b: nat)
    requires Playable(durations) && durations != [] && a > 0 && b > 0
  {
    StartsGrow(durations, 0, |durations|);
    Within(a, Total(durations)) == Within(b, Total(durations))
  }

  // ----- Images that were loaded at different times ----------------------------------------------------------

  /** The time in an animation that was loaded when the global clock was at `position`, after `ticks` ticks. */
  function Elapsed(position: nat, total: nat, ticks: nat): nat
    requires total > 0
  {
    Min(position % total, 60000) + ticks * GIF_FRAME_LENGTH
  }

  /**
   * An animation is where the global clock is, whenever it was loaded, exactly if it was loaded at
   * most a minute into its length.
   */
  lemma {:induction false} FollowsGlobalClock(position: nat, total: nat, ticks: nat)
    requires total > 0 && Elapsed(position, total, ticks) > 0
    ensures var now := position + ticks * GIF_FRAME_LENGTH;
      Within(Elapsed(position, total, ticks), total) == Within(now, total) <==> position % total <= 60000
  {
    var q, m, passed := position / total, position % total, ticks * GIF_FRAME_LENGTH;
    assert position == q * total + m;
    RemainderOfMultiples(m + passed - 1, total, q);
    if m > 60000 {
      RemaindersDiffer(60000 + passed - 1, total, m - 60000);
    }
  }

  /** Two copies of an animation show the same frame, however far apart they were loaded. */
  lemma {:induction false} CopiesShowTheSame(durations: seq<int>, position1: nat, ticks1: nat, position2: nat,
      ticks2: nat,
                          index1: nat, offset1: int, index2: nat, offset2: int)
    requires Playable(durations) && Total(durations) > 0
    requires position1 + ticks1 * GIF_FRAME_LENGTH == position2 + ticks2 * GIF_FRAME_LENGTH
    requires position1 % Total(durations) <= 60000 && position2 % Total(durations) <= 60000
    requires ticks1 > 0 && ticks2 > 0 && durations != []
    requires ShownAt(durations, Elapsed(position1, Total(durations), ticks1), index1, offset1)
    requires ShownAt(durations, Elapsed(position2, Total(durations), ticks2), index2, offset2)
    ensures index1 == index2 && offset1 == offset2
  {
    FollowsGlobalClock(position1, Total(durations), ticks1);
    FollowsGlobalClock(position2, Total(durations), ticks2);
  }

  /** An animation of a little over a minute, loaded at its end, is a millisecond behind the global clock. */
  lemma {:induction false} LateAnimationLagsBehind()
    ensures var position, total := 60001, 60002;
      Within(Elapsed(position, total, 0), total) == 60000 && Within(position, total) == 60001
  {
    RemainderOfSmall(60001, 60002);
    WithinOfSmall(60000, 60002);
    WithinOfSmall(60001, 60002);
  }
}
