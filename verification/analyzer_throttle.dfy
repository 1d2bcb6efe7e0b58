/** The frame-rate throttle of the camera screen's image analyzer: a frame arriving less than
    `FrameInterval` ms after the last accepted one is closed and not forwarded. The clock
    reading is a parameter. */
module AnalyzerThrottle {

  /** `frameInterval`, in milliseconds. */
  const FrameInterval := 200

  /** The analyzer's `lastFrameTime`. */
  datatype Throttle = Throttle(lastFrameTime: int)

  /** `lastFrameTime` starts at 0. */
  const Initial := Throttle(0)

  /** What became of one frame. */
  datatype Verdict =
    | Dropped          // closed at once, never forwarded
    | Forwarded        // handed to the consumer, which owns it from then on
    | FailedAndClosed  // handed to the consumer, which threw; the analyzer closed it

  /** One camera frame: its clock reading and whether the consumer throws on it. */
  datatype Frame = Frame(time: int, consumerThrows: bool)

  /** `analyze`: a frame less than `FrameInterval` after `lastFrameTime` is dropped and the
      throttle is unchanged. Any other frame moves `lastFrameTime` to its time BEFORE it is
      handed on, so a frame whose processing throws still counts as accepted. */
  function Analyze(t: Throttle, f: Frame): (r: (Throttle, Verdict))
    ensures r.1 == Dropped <==> f.time - t.lastFrameTime < FrameInterval
    ensures r.1 == Dropped ==> r.0 == t
    ensures r.1 != Dropped ==> r.0.lastFrameTime == f.time
    ensures r.1 != Dropped ==> (r.1 == FailedAndClosed <==> f.consumerThrows)
  {
    if f.time - t.lastFrameTime < FrameInterval then
      (t, Dropped)
    else
      (Throttle(f.time), if f.consumerThrows then FailedAndClosed else Forwarded)
  }

  /** The throttle after a run of frames. */
  function Feed(t: Throttle, frames: seq<Frame>): Throttle
    decreases |frames|
  {
    if |frames| == 0 then t else Feed(Analyze(t, frames[0]).0, frames[1..])
  }

  /** The times of the frames that got past the throttle, in arrival order. */
  function Accepted(t: Throttle, frames: seq<Frame>): seq<int>
    decreases |frames|
  {
    if |frames| == 0 then []
    else
      var (t', verdict) := Analyze(t, frames[0]);
      (if verdict == Dropped then [] else [frames[0].time]) + Accepted(t', frames[1..])
  }

  /** Accepted frames are at least `FrameInterval` apart, the first one at least that long
      after the starting `lastFrameTime`, and the throttle ends on the last accepted time. No
      monotonic clock is needed: each accepted time is compared with the previous one. */
  lemma {:induction false} AcceptedFramesSpaced(t: Throttle, frames: seq<Frame>)
    ensures var acc := Accepted(t, frames);
      && (|acc| > 0 ==> acc[0] - t.lastFrameTime >= FrameInterval)
      && (forall i :: 0 < i < |acc| ==> acc[i] - acc[i - 1] >= FrameInterval)
      && Feed(t, frames).lastFrameTime == (if |acc| == 0 then t.lastFrameTime else acc[|acc| - 1])
    decreases |frames|
  {
    if |frames| > 0 {
      var (t', verdict) := Analyze(t, frames[0]);
      AcceptedFramesSpaced(t', frames[1..]);
      var rest := Accepted(t', frames[1..]);
      if verdict != Dropped {
        var acc := [frames[0].time] + rest;
        assert forall i :: 0 < i < |acc| ==> acc[i] == rest[i - 1];
      }
    }
  }

  /** From the start state every frame stamped before `FrameInterval` is dropped and the
      first frame stamped at or after it is accepted. */
  lemma {:induction false} FirstFrameAfterWarmup(frames: seq<Frame>, i: nat)
    requires i < |frames| && frames[i].time >= FrameInterval
    requires forall k :: 0 <= k < i ==> frames[k].time < FrameInterval
    ensures |Accepted(Initial, frames)| > 0 && Accepted(Initial, frames)[0] == frames[i].time
    decreases i
  {
    if i > 0 {
      FirstFrameAfterWarmup(frames[1..], i - 1);
    }
  }

  /** A burst: when the first frame is accepted and every frame of the run comes less than
      `FrameInterval` after it, exactly one frame is accepted. */
  lemma BurstYieldsOne(t: Throttle, frames: seq<Frame>)
    requires |frames| > 0
    requires frames[0].time - t.lastFrameTime >= FrameInterval
    requires forall k :: 0 <= k < |frames| ==> frames[k].time < frames[0].time + FrameInterval
    ensures Accepted(t, frames) == [frames[0].time]
  {
    AllDropped(Throttle(frames[0].time), frames[1..]);
  }

  lemma {:induction false} AllDropped(t: Throttle, frames: seq<Frame>)
    requires forall k :: 0 <= k < |frames| ==> frames[k].time - t.lastFrameTime < FrameInterval
    ensures Accepted(t, frames) == []
    decreases |frames|
  {
    if |frames| > 0 {
      AllDropped(t, frames[1..]);
    }
  }
}
