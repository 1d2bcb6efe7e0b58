/** The `isProcessing` gate of `processYUVImage`: at most one frame is processed at a time and
    frames arriving meanwhile are closed, not queued. The launched job is split into its
    arrival and its completion, which are separate events. */
module ProcessingGate {
  import opened Wrappers

  /** `busy` is the `isProcessing` flag; `job` is the frame in flight, recording whether it
      converts to a YUV buffer (`toYUVByteArray` returns null for any other format). */
  datatype Gate = Gate(busy: bool, job: Option<bool>)

  const Idle := Gate(false, None)

  datatype Arrival = Started | Dropped

  /** Arrival: `isProcessing.getAndSet(true)`; a frame that finds the flag already set is
      closed at once, otherwise its job is launched. */
  function Arrive(g: Gate, isYuv: bool): (r: (Gate, Arrival))
    ensures r.0.busy
    ensures r.1 == Started <==> !g.busy
    ensures r.1 == Dropped ==> r.0 == g
    ensures r.1 == Started ==> r.0.job == Some(isYuv)
  {
    if g.busy then (g, Dropped) else (Gate(true, Some(isYuv)), Started)
  }

  /** Completion as written: `isProcessing.set(false)` sits in the `finally` INSIDE
      `yuvData?.let`, so it only runs for a frame that converted to YUV. */
  function Complete(g: Gate): (r: Gate)
    ensures r.job == None
    ensures r.busy <==> g.busy && !(g.job == Some(true))
  {
    match g.job
    case None => g
    case Some(converted) => Gate(if converted then false else g.busy, None)
  }

  /** Completion as evidently intended: the flag is cleared however the job ended. */
  function CompleteCorrected(g: Gate): (r: Gate)
    ensures r.job == None
    ensures g.job.Some? ==> !r.busy
    ensures g.job.None? ==> r == g
  {
    if g.job.Some? then Gate(false, None) else g
  }

  datatype Event = FrameArrives(isYuv: bool) | JobDone

  function Step(g: Gate, e: Event, corrected: bool): Gate {
    match e
    case FrameArrives(isYuv) => Arrive(g, isYuv).0
    case JobDone => if corrected then CompleteCorrected(g) else Complete(g)
  }

  function Run(g: Gate, events: seq<Event>, corrected: bool): Gate
    decreases |events|
  {
    if |events| == 0 then g else Run(Step(g, events[0], corrected), events[1..], corrected)
  }

  /** How many arrivals in the run started a job. */
  function StartedCount(g: Gate, events: seq<Event>, corrected: bool): nat
    decreases |events|
  {
    if |events| == 0 then 0
    else
      var started := if events[0].FrameArrives? && Arrive(g, events[0].isYuv).1 == Started then 1 else 0;
      started + StartedCount(Step(g, events[0], corrected), events[1..], corrected)
  }

  /** A job in flight always holds the flag, so a frame arriving while one is processed is
      dropped: at most one job runs at a time, with either completion rule. */
  lemma {:induction false} AtMostOneInFlight(g: Gate, events: seq<Event>, corrected: bool)
    requires g.job.Some? ==> g.busy
    ensures Run(g, events, corrected).job.Some? ==> Run(g, events, corrected).busy
    ensures forall isYuv :: Run(g, events, corrected).job.Some? ==>
              Arrive(Run(g, events, corrected), isYuv).1 == Dropped
    decreases |events|
  {
    if |events| > 0 {
      AtMostOneInFlight(Step(g, events[0], corrected), events[1..], corrected);
    }
  }

  /** As written, one frame that is not YUV leaves the gate set with no job to clear it:
      from then on every frame is dropped, whatever arrives. */
  lemma {:induction false} NonYuvFrameWedgesGate(events: seq<Event>)
    ensures Complete(Arrive(Idle, false).0) == Gate(true, None)
    ensures Run(Gate(true, None), events, false) == Gate(true, None)
    ensures StartedCount(Gate(true, None), events, false) == 0
    decreases |events|
  {
    if |events| > 0 {
      NonYuvFrameWedgesGate(events[1..]);
    }
  }

  /** With the corrected completion the flag is set exactly while a job is in flight, so
      after any job finishes the next frame is started, whatever the formats seen. */
  lemma {:induction false} CorrectedGateNeverWedges(g: Gate, events: seq<Event>)
    requires g.busy <==> g.job.Some?
    ensures Run(g, events, true).busy <==> Run(g, events, true).job.Some?
    decreases |events|
  {
    if |events| > 0 {
      CorrectedGateNeverWedges(Step(g, events[0], true), events[1..]);
    }
  }
}
