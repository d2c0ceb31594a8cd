/**
 * The frame timer of Animation/Controller.cs: while playing, elapsed time accumulates until
 * a frame's duration has passed, and then the controller moves on by one frame, reporting the
 * new frame through its `OnFrameChanged` callback; a controller that does not loop stops at
 * its last frame. The callbacks are modelled as a record of the frames reported and a count
 * of the stops; single-precision floats are modelled as reals.
 */
module Animations {

  /** The fields `Update` reads and writes, and the frames reported so far. */
  datatype Playback = Playback(
    currentFrame: int,
    frameCount: int,
    isPlaying: bool,
    isLooping: bool,
    subFrame: real,
    frameDuration: real,
    reported: seq<int>)

  /** Whether an update of `deltaTime` moves `s` on by a frame. */
  predicate Advances(s: Playback, deltaTime: real)
  {
    s.isPlaying && s.subFrame + deltaTime >= s.frameDuration && (s.isLooping || s.currentFrame != s.frameCount - 1)
  }

  /**
   * `Update(deltaTime)`: nothing happens unless playing; otherwise the time is accumulated,
   * and once a frame's duration has built up it is used up, and the controller either stops
   * (at the last frame of a non-looping animation) or moves on one frame and reports it.
   */
  function Advance(s: Playback, deltaTime: real): (r: Playback)
    ensures !s.isPlaying ==> r == s
    ensures r.frameCount == s.frameCount && r.isLooping == s.isLooping && r.frameDuration == s.frameDuration
    ensures r.currentFrame == if Advances(s, deltaTime) then s.currentFrame + 1 else s.currentFrame
    ensures r.reported == if Advances(s, deltaTime) then s.reported + [s.currentFrame + 1] else s.reported
    ensures s.isPlaying && s.subFrame + deltaTime < s.frameDuration ==> r.subFrame == s.subFrame + deltaTime && r.isPlaying
    ensures s.isPlaying && s.subFrame + deltaTime >= s.frameDuration ==> r.subFrame == s.subFrame + deltaTime - s.frameDuration
    ensures s.isPlaying ==> (r.isPlaying <==> s.isLooping || s.subFrame + deltaTime < s.frameDuration || s.currentFrame != s.frameCount - 1)
  {
    if !s.isPlaying then s
    else
      var sub := s.subFrame + deltaTime;
      if sub < s.frameDuration then s.(subFrame := sub)
      else
        var left := sub - s.frameDuration;
        if !s.isLooping && s.currentFrame == s.frameCount - 1 then s.(subFrame := left, isPlaying := false)
        else s.(subFrame := left, currentFrame := s.currentFrame + 1, reported := s.reported + [s.currentFrame + 1])
  }

  /** The state after a series of updates. */
  function Run(s: Playback, deltas: seq<real>): Playback
    decreases |deltas|
  {
    if deltas == [] then s else Run(Advance(s, deltas[0]), deltas[1..])
  }

  /** The frames lo, lo + 1, ..., hi - 1. */
  function Frames(lo: int, hi: int): (r: seq<int>)
    ensures |r| == if lo <= hi then hi - lo else 0
    decreases hi - lo
  {
    if hi <= lo then [] else Frames(lo, hi - 1) + [hi - 1]
  }

  /** A non-looping animation that starts within its frames stays within them, whatever time passes. */
  lemma {:induction false} NonLoopingStaysInRange(s: Playback, deltas: seq<real>)
    requires !s.isLooping && 0 <= s.currentFrame <= s.frameCount - 1
    ensures var r := Run(s, deltas);
      r.frameCount == s.frameCount && 0 <= r.currentFrame <= s.frameCount - 1
    decreases |deltas|
  {
    if deltas != [] {
      NonLoopingStaysInRange(Advance(s, deltas[0]), deltas[1..]);
    }
  }

  /** A looping animation does not wrap: from its last frame it moves on to frame `frameCount`. */
  lemma LoopingRunsPastTheEnd(s: Playback, deltaTime: real)
    requires s.isLooping && s.isPlaying && s.currentFrame == s.frameCount - 1
    requires s.subFrame + deltaTime >= s.frameDuration
    ensures Advance(s, deltaTime).currentFrame == s.frameCount
    ensures Advance(s, deltaTime).isPlaying
  {
  }

  /**
   * Updates never take the animation back: the frame only goes up, one at a time, and each
   * new frame is reported once, in order.
   */
  lemma {:induction false} FramesReportedInOrder(s: Playback, deltas: seq<real>)
    ensures var r := Run(s, deltas);
      && s.currentFrame <= r.currentFrame
      && r.reported == s.reported + Frames(s.currentFrame + 1, r.currentFrame + 1)
    decreases |deltas|
  {
    if deltas != [] {
      var next := Advance(s, deltas[0]);
      var r := Run(next, deltas[1..]);
      FramesReportedInOrder(next, deltas[1..]);
      if Advances(s, deltas[0]) {
        FramesPrepend(s.currentFrame + 1, r.currentFrame + 1);
      }
    }
  }

  /** Frames from `lo` are `lo` followed by the frames from `lo + 1`. */
  lemma {:induction false} FramesPrepend(lo: int, hi: int)
    requires lo < hi
    ensures Frames(lo, hi) == [lo] + Frames(lo + 1, hi)
    decreases hi - lo
  {
    if lo + 1 < hi {
      FramesPrepend(lo, hi - 1);
    }
  }

  class Controller {
    var currentFrame: int
    var frameCount: int
    var isPlaying: bool
    var isLooping: bool
    var framesPerSecond: real
    var subFrame: real
    var frameDuration: real
    /** The frames passed to `OnFrameChanged`, in order. */
    var reported: seq<int>
    /** How many times `OnStopped` has been invoked. */
    var stops: nat

    function State(): Playback
      reads this
    {
      Playback(currentFrame, frameCount, isPlaying, isLooping, subFrame, frameDuration, reported)
    }

    /** `Controller(frameCount, isLooping = true, framesPerSecond = 30)`: at frame 0, not playing. */
    constructor (frameCount: int, isLooping: bool := true, framesPerSecond: real := 30.0)
      requires framesPerSecond != 0.0
      ensures State() == Playback(0, frameCount, false, isLooping, 0.0, 1.0 / framesPerSecond, [])
      ensures this.framesPerSecond == framesPerSecond && stops == 0
    {
      currentFrame := 0;
      this.frameCount := frameCount;
      isPlaying := false;
      this.isLooping := isLooping;
      this.framesPerSecond := framesPerSecond;
      subFrame := 0.0;
      frameDuration := 1.0 / framesPerSecond;
      reported := [];
      stops := 0;
    }

    /** The `FramesPerSecond` setter: the frame duration follows. */
    method SetFramesPerSecond(value: real)
      requires value != 0.0
      modifies this
      ensures framesPerSecond == value && State() == old(State()).(frameDuration := 1.0 / value)
      ensures stops == old(stops)
    {
      framesPerSecond := value;
      frameDuration := 1.0 / value;
    }

    /** The `FrameCount` setter. */
    method SetFrameCount(value: int)
      modifies this
      ensures State() == old(State()).(frameCount := value)
      ensures framesPerSecond == old(framesPerSecond) && stops == old(stops)
    {
      frameCount := value;
    }

    /** The `IsLooping` setter. */
    method SetLooping(value: bool)
      modifies this
      ensures State() == old(State()).(isLooping := value)
      ensures framesPerSecond == old(framesPerSecond) && stops == old(stops)
    {
      isLooping := value;
    }

    method Play()
      modifies this
      ensures State() == old(State()).(isPlaying := true)
      ensures framesPerSecond == old(framesPerSecond) && stops == old(stops)
    {
      isPlaying := true;
    }

    /** `Stop`: back to frame 0 with no time accumulated, and `OnStopped` fires. */
    method Stop()
      modifies this
      ensures State() == old(State()).(isPlaying := false, currentFrame := 0, subFrame := 0.0)
      ensures framesPerSecond == old(framesPerSecond) && stops == old(stops) + 1
    {
      isPlaying := false;
      currentFrame := 0;
      subFrame := 0.0;
      stops := stops + 1;
    }

    /** `Pause`: the frame and the accumulated time are kept. */
    method Pause()
      modifies this
      ensures State() == old(State()).(isPlaying := false)
      ensures framesPerSecond == old(framesPerSecond) && stops == old(stops)
    {
      isPlaying := false;
    }

    method Update(deltaTime: real)
      modifies this
      ensures State() == Advance(old(State()), deltaTime)
      ensures framesPerSecond == old(framesPerSecond) && stops == old(stops)
    {
      if !isPlaying {
        return;
      }
      subFrame := subFrame + deltaTime;
      if subFrame < frameDuration {
        return;
      }
      subFrame := subFrame - frameDuration;
      if !isLooping && currentFrame == frameCount - 1 {
        isPlaying := false;
        return;
      }
      currentFrame := currentFrame + 1;
      reported := reported + [currentFrame];
    }
  }
}
