/**
 * The interval timer of Entity/Thinker.cs. Each `Update` is told how much time has passed;
 * once the time until the next think runs out the thinker thinks, that is it invokes its
 * `OnThink` callback, which the model counts. Single-precision floats are modelled as reals.
 */
module Thinkers {

  /** The thinker's fields: the interval, the time until the next think, and how often it has thought. */
  datatype Timing = Timing(interval: real, untilNextThink: real, thinks: nat)

  /** `Update` as the source has it: after a think the remaining time is added to itself. */
  function StepAsWritten(s: Timing, deltaTime: real): (r: Timing)
    ensures r.interval == s.interval
    ensures s.interval <= 0.0 ==> r == s
    ensures s.interval > 0.0 && s.untilNextThink - deltaTime > 0.0 ==> r == s.(untilNextThink := s.untilNextThink - deltaTime)
    ensures s.interval > 0.0 && s.untilNextThink - deltaTime <= 0.0 ==> r.thinks == s.thinks + 1 && r.untilNextThink <= 0.0
  {
    if s.interval <= 0.0 then s
    else
      var left := s.untilNextThink - deltaTime;
      if left > 0.0 then s.(untilNextThink := left)
      else Timing(s.interval, left + left, s.thinks + 1)
  }

  /** `Update` as its documentation describes it: after a think the next one is an interval away. */
  function Step(s: Timing, deltaTime: real): (r: Timing)
    ensures r.interval == s.interval
    ensures s.interval <= 0.0 ==> r == s
    ensures s.interval > 0.0 && s.untilNextThink - deltaTime > 0.0 ==> r == s.(untilNextThink := s.untilNextThink - deltaTime)
    ensures s.interval > 0.0 && s.untilNextThink - deltaTime <= 0.0
      ==> r.thinks == s.thinks + 1 && r.untilNextThink == s.untilNextThink - deltaTime + s.interval
  {
    if s.interval <= 0.0 then s
    else
      var left := s.untilNextThink - deltaTime;
      if left > 0.0 then s.(untilNextThink := left)
      else Timing(s.interval, left + s.interval, s.thinks + 1)
  }

  /** The state after a series of updates with the source's `Update`. */
  function RunAsWritten(s: Timing, deltas: seq<real>): Timing
    decreases |deltas|
  {
    if deltas == [] then s else RunAsWritten(StepAsWritten(s, deltas[0]), deltas[1..])
  }

  /** The state after a series of updates with the corrected `Update`. */
  function Run(s: Timing, deltas: seq<real>): Timing
    decreases |deltas|
  {
    if deltas == [] then s else Run(Step(s, deltas[0]), deltas[1..])
  }

  function Sum(deltas: seq<real>): real
  {
    if deltas == [] then 0.0 else deltas[0] + Sum(deltas[1..])
  }

  /** With an interval of zero or less the thinker never thinks and never changes, whatever time passes. */
  lemma {:induction false} NoIntervalNeverThinks(s: Timing, deltas: seq<real>)
    requires s.interval <= 0.0
    ensures RunAsWritten(s, deltas) == s && Run(s, deltas) == s
  {
    if deltas != [] {
      NoIntervalNeverThinks(s, deltas[1..]);
    }
  }

  /**
   * As written, once the thinker has thought it thinks again on every later update in which
   * time does not run backwards, however little time passes: the doubled remainder stays at
   * or below zero.
   */
  lemma {:induction false} ThinksOnEveryUpdate(s: Timing, deltas: seq<real>)
    requires s.interval > 0.0 && s.untilNextThink <= 0.0
    requires forall i :: 0 <= i < |deltas| ==> deltas[i] >= 0.0
    ensures RunAsWritten(s, deltas).thinks == s.thinks + |deltas|
    ensures RunAsWritten(s, deltas).untilNextThink <= 0.0
    decreases |deltas|
  {
    if deltas != [] {
      var next := StepAsWritten(s, deltas[0]);
      ThinksOnEveryUpdate(next, deltas[1..]);
    }
  }

  /** An interval of 1 and updates of 1 and then 0.5: the source thinks twice in 1.5 units of time, the corrected thinker once. */
  lemma TwiceInOneAndAHalfIntervals()
    ensures RunAsWritten(Timing(1.0, 1.0, 0), [1.0, 0.5]).thinks == 2
    ensures Run(Timing(1.0, 1.0, 0), [1.0, 0.5]).thinks == 1
  {
    assert [1.0, 0.5][1..] == [0.5];
  }

  /** `n` intervals of time, n * interval, added up one interval at a time. */
  function Intervals(n: nat, interval: real): real
  {
    if n == 0 then 0.0 else Intervals(n - 1, interval) + interval
  }

  lemma {:induction false} IntervalsIsProduct(n: nat, interval: real)
    ensures Intervals(n, interval) == n as real * interval
  {
    if n > 0 {
      IntervalsIsProduct(n - 1, interval);
      assert n as real * interval == (n - 1) as real * interval + interval;
    }
  }

  /**
   * The corrected thinker accounts for every unit of time: each think buys one interval, so
   * the time until the next think less the intervals thought goes down by exactly the time
   * that has passed.
   */
  lemma {:induction false} TimeIsAccountedFor(s: Timing, deltas: seq<real>)
    requires s.interval > 0.0
    ensures var r := Run(s, deltas);
      r.untilNextThink - Intervals(r.thinks, s.interval) == s.untilNextThink - Intervals(s.thinks, s.interval) - Sum(deltas)
    decreases |deltas|
  {
    if deltas != [] {
      var next := Step(s, deltas[0]);
      TimeIsAccountedFor(next, deltas[1..]);
      assert Run(s, deltas) == Run(next, deltas[1..]);
      assert Sum(deltas) == deltas[0] + Sum(deltas[1..]);
    }
  }

  /**
   * When no update is longer than the interval, the corrected thinker keeps the time until its
   * next think within (0, interval], so it never falls behind.
   */
  lemma {:induction false} NeverFallsBehind(s: Timing, deltas: seq<real>)
    requires 0.0 < s.untilNextThink <= s.interval
    requires forall i :: 0 <= i < |deltas| ==> 0.0 <= deltas[i] <= s.interval
    ensures 0.0 < Run(s, deltas).untilNextThink <= s.interval
    decreases |deltas|
  {
    if deltas != [] {
      NeverFallsBehind(Step(s, deltas[0]), deltas[1..]);
    }
  }

  class Thinker {
    var interval: real
    var untilNextThink: real
    /** How many times `OnThink` has been invoked. */
    var thinks: nat

    function State(): Timing
      reads this
    {
      Timing(interval, untilNextThink, thinks)
    }

    /** `Thinker(interval)`: the first think is one interval away. */
    constructor (interval: real)
      ensures State() == Timing(interval, interval, 0)
    {
      this.interval := interval;
      untilNextThink := interval;
      thinks := 0;
    }

    /** `Update` as the source has it. */
    method UpdateAsWritten(deltaTime: real)
      modifies this
      ensures State() == StepAsWritten(old(State()), deltaTime)
    {
      if interval <= 0.0 {
        return;
      }
      untilNextThink := untilNextThink - deltaTime;
      if untilNextThink > 0.0 {
        return;
      }
      untilNextThink := untilNextThink + untilNextThink;
      thinks := thinks + 1;
    }

    /** `Update` with the interval added after a think. */
    method Update(deltaTime: real)
      modifies this
      ensures State() == Step(old(State()), deltaTime)
    {
      if interval <= 0.0 {
        return;
      }
      untilNextThink := untilNextThink - deltaTime;
      if untilNextThink > 0.0 {
        return;
      }
      untilNextThink := untilNextThink + interval;
      thinks := thinks + 1;
    }

    /** `Reset()`: the next think is one interval away again. */
    method Reset()
      modifies this
      ensures State() == old(State()).(untilNextThink := old(interval))
    {
      untilNextThink := interval;
    }

    /** `Reset(nextThink)`: both the interval and the time until the next think become `nextThink`. */
    method ResetTo(nextThink: real)
      modifies this
      ensures State() == old(State()).(interval := nextThink, untilNextThink := nextThink)
    {
      untilNextThink := nextThink;
      interval := nextThink;
    }

    /** `Reset(nextThink, thinkTime)`: the two are set independently. */
    method ResetBoth(nextThink: real, thinkTime: real)
      modifies this
      ensures State() == old(State()).(interval := thinkTime, untilNextThink := nextThink)
    {
      untilNextThink := nextThink;
      interval := thinkTime;
    }

    /** `Wait(time)`: the next think moves `time` further away; the interval stays. */
    method Wait(time: real)
      modifies this
      ensures State() == old(State()).(untilNextThink := old(untilNextThink) + time)
    {
      untilNextThink := untilNextThink + time;
    }
  }
}
