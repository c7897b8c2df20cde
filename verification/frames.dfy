/** Time bucketing: which frame of the buffer a timestamp falls into.

    A timestamp is a whole number of microseconds (the resolution of Python's
    datetime); frame f covers the half-open interval
    [start + f·step, start + (f+1)·step) when the step is positive. */
module Frames {
  import opened Errors

  const MicrosPerSecond: int := 1_000_000
  const SecondsPerMinute: int := 60

  /** Length of one frame in microseconds (`step_minutes * 60` seconds). */
  function StepMicros(stepMinutes: int): int {
    stepMinutes * SecondsPerMinute * MicrosPerSecond
  }

  /** Python's `a // b` on integers: the quotient rounded toward minus
      infinity, whatever the signs. */
  function FloorDiv(a: int, b: int): (q: int)
    requires b != 0
    ensures b > 0 ==> b * q <= a < b * q + b
    ensures b < 0 ==> b * q + b < a <= b * q
  {
    if b > 0 then a / b else (-a) / (-b)
  }

  /** The quotient of a floor division is the only integer bracketing the
      dividend in that way. */
  lemma {:induction false} FloorDivUnique(a: int, b: int, q: int)
    requires b != 0
    requires b > 0 ==> b * q <= a < b * q + b
    requires b < 0 ==> b * q + b < a <= b * q
    ensures FloorDiv(a, b) == q
  {
    var p := FloorDiv(a, b);
    var m := if b > 0 then b else -b;
    if p < q {
      MulMono(m, p + 1, q);
      assert false;
    } else if p > q {
      MulMono(m, q + 1, p);
      assert false;
    }
  }

  lemma MulMono(b: int, x: int, y: int)
    requires b > 0 && x <= y
    ensures b * x <= b * y
  {
  }

  /** The instant at which frame f begins. */
  function FrameStart(startTime: int, stepMinutes: int, f: int): int {
    startTime + f * StepMicros(stepMinutes)
  }

  /** t lies in the interval of frame f: [start(f), start(f+1)) for a positive
      step, and the mirror image (start(f+1), start(f)] for a negative one. */
  ghost predicate InFrame(startTime: int, stepMinutes: int, f: int, t: int) {
    if stepMinutes > 0 then
      FrameStart(startTime, stepMinutes, f) <= t < FrameStart(startTime, stepMinutes, f + 1)
    else
      FrameStart(startTime, stepMinutes, f + 1) < t <= FrameStart(startTime, stepMinutes, f)
  }

  /** `get_frame_index`: the elapsed time floor-divided by the step length. A
      zero step makes the floor division raise. */
  function FrameIndex(startTime: int, stepMinutes: int, t: int): (r: Result<int>)
    ensures r.Failure? <==> stepMinutes == 0
    ensures r.Failure? ==> r.error == ZeroDivision
    ensures r.Success? ==> InFrame(startTime, stepMinutes, r.value, t)
  {
    if stepMinutes == 0 then Failure(ZeroDivision)
    else Success(FloorDiv(t - startTime, StepMicros(stepMinutes)))
  }

  /** A timestamp belongs to frame f exactly when it lies in f's interval. */
  lemma FrameIndexIff(startTime: int, stepMinutes: int, t: int, f: int)
    requires stepMinutes != 0
    ensures FrameIndex(startTime, stepMinutes, t) == Success(f) <==> InFrame(startTime, stepMinutes, f, t)
  {
    if InFrame(startTime, stepMinutes, f, t) {
      var b := StepMicros(stepMinutes);
      assert stepMinutes > 0 <==> b > 0;
      FloorDivUnique(t - startTime, b, f);
    }
  }

  /** The start time itself is in frame 0. */
  lemma FrameIndexAtStart(startTime: int, stepMinutes: int)
    requires stepMinutes != 0
    ensures FrameIndex(startTime, stepMinutes, startTime) == Success(0)
  {
    FrameIndexIff(startTime, stepMinutes, startTime, 0);
  }

  /** The instant one step after the start begins frame 1. */
  lemma FrameIndexOneStepLater(startTime: int, stepMinutes: int)
    requires stepMinutes != 0
    ensures FrameIndex(startTime, stepMinutes, startTime + StepMicros(stepMinutes)) == Success(1)
  {
    FrameIndexIff(startTime, stepMinutes, startTime + StepMicros(stepMinutes), 1);
  }

  /** Timestamps earlier than the start get a negative frame index: the
      division floors rather than truncating toward zero. */
  lemma FrameIndexBeforeStart(startTime: int, stepMinutes: int, t: int)
    requires stepMinutes > 0 && t < startTime
    ensures FrameIndex(startTime, stepMinutes, t).Success?
    ensures FrameIndex(startTime, stepMinutes, t).value < 0
  {
    var f := FrameIndex(startTime, stepMinutes, t).value;
    if f >= 0 {
      MulMono(StepMicros(stepMinutes), 0, f);
      assert false;
    }
  }

  /** With a positive step, later timestamps never land in earlier frames. */
  lemma FrameIndexMonotone(startTime: int, stepMinutes: int, t1: int, t2: int)
    requires stepMinutes > 0 && t1 <= t2
    ensures FrameIndex(startTime, stepMinutes, t1).value <= FrameIndex(startTime, stepMinutes, t2).value
  {
    var f1 := FrameIndex(startTime, stepMinutes, t1).value;
    var f2 := FrameIndex(startTime, stepMinutes, t2).value;
    if f1 > f2 {
      MulMono(StepMicros(stepMinutes), f2 + 1, f1);
      assert false;
    }
  }
}
