/** `PerformanceTracker.logFrame`: a frame counter that reports and restarts once more than
    `LogInterval` ms have passed since the last report. The clock reading is a parameter. */
module PerformanceTracker {
  import opened Wrappers

  /** Milliseconds that must be strictly exceeded before the counter is reported. */
  const LogInterval := 1000

  datatype Counter = Counter(frameCount: int, lastLogTime: int)

  /** A new tracker: no frames, the clock reading at construction as the last report time. */
  function New(createdAt: int): (c: Counter)
    ensures c.frameCount == 0
    ensures forall now :: now - createdAt <= LogInterval ==> LogFrame(c, now) == (Counter(1, createdAt), None)
    ensures forall now :: now - createdAt > LogInterval ==> LogFrame(c, now) == (Counter(0, now), Some(1))
  {
    Counter(0, createdAt)
  }

  /** `logFrame`: the frame is counted first; if more than `LogInterval` ms passed since the
      last report, the count (this frame included) is reported as the FPS figure and the
      counter restarts from 0 at the current time. Otherwise the report time stays put. */
  function LogFrame(c: Counter, now: int): (r: (Counter, Option<int>))
    ensures r.1.Some? <==> now - c.lastLogTime > LogInterval
    ensures r.1.Some? ==> r.1.value == c.frameCount + 1 && r.0 == Counter(0, now)
    ensures r.1.None? ==> r.0 == Counter(c.frameCount + 1, c.lastLogTime)
  {
    var count := c.frameCount + 1;
    if now - c.lastLogTime > LogInterval then (Counter(0, now), Some(count)) else (Counter(count, c.lastLogTime), None)
  }

  /** The counter after one `logFrame` call per clock reading. */
  function Replay(c: Counter, times: seq<int>): Counter
    decreases |times|
  {
    if |times| == 0 then c else Replay(LogFrame(c, times[0]).0, times[1..])
  }

  /** The position in `times` of the last call that reported and restarted the counter. */
  function LastReset(c: Counter, times: seq<int>): Option<nat>
    decreases |times|
  {
    if |times| == 0 then None
    else
      var (c', report) := LogFrame(c, times[0]);
      match LastReset(c', times[1..])
      case Some(k) => Some(k + 1)
      case None => if report.Some? then Some(0) else None
  }

  /** `frameCount` is the number of calls since the last restart, the restarting call itself
      not included, and `lastLogTime` is that call's clock reading; with no restart the calls
      simply add to the starting count. */
  lemma {:induction false} CountsCallsSinceReset(c: Counter, times: seq<int>)
    ensures LastReset(c, times).None? ==>
              Replay(c, times) == Counter(c.frameCount + |times|, c.lastLogTime)
    ensures LastReset(c, times).Some? ==>
              var k := LastReset(c, times).value;
              k < |times| && Replay(c, times) == Counter(|times| - 1 - k, times[k])
    decreases |times|
  {
    if |times| > 0 {
      var (c', report) := LogFrame(c, times[0]);
      CountsCallsSinceReset(c', times[1..]);
    }
  }
}
