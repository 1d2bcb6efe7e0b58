/** The view model's tracking state machine: `updateDetectedObjects`, one pass of the
    `startTrackingCycle` loop, `getObjectToTrack` and `updateCameraPosition`. The coroutine
    timer is an explicit `Tick` event, one per elapsed `delay(5000)`. */
module Tracker {
  import opened Wrappers
  import opened Detection
  import opened Ranking

  /** The view model's observable fields, plus whether the cycling job is running. */
  datatype TrackerState = TrackerState(
    objects: seq<DetectedObject>,
    index: int,
    position: Option<(real, real)>,
    jobActive: bool,
    shouldFollow: bool)

  /** A new view model: no objects, index 0, no tracked position, no job, following on. */
  function Initial(): (s: TrackerState)
    ensures Valid(s)
    ensures Lookup(s) == None && s.position == None
    ensures !s.jobActive && s.index == 0 && s.shouldFollow
  {
    TrackerState([], 0, None, false, true)
  }

  /** What every reachable state satisfies. The index stays below the cap but NOT always
      below the number of objects: a shrinking update leaves it as it was. */
  ghost predicate Valid(s: TrackerState) {
    && |s.objects| <= TrackLimit
    && SortedByArea(s.objects)
    && s.jobActive == (|s.objects| > 0)
    && 0 <= s.index < TrackLimit
    && (|s.objects| == 0 ==> s.index == 0)
  }

  /** `updateDetectedObjects`: store the two smallest objects; start the cycle job if none runs
      and there is something to track; on an empty result cancel the job and reset the index
      and the tracked position. A non-empty result leaves index and position alone. */
  function Update(s: TrackerState, newObjects: seq<DetectedObject>): (r: TrackerState)
    ensures r.objects == TakeSmallest(newObjects)
    ensures |newObjects| == 0 ==> r.index == 0 && r.position == None && !r.jobActive
    ensures |newObjects| > 0 ==> r.index == s.index && r.position == s.position && r.jobActive
    ensures r.shouldFollow == s.shouldFollow
    ensures 0 <= s.index < TrackLimit ==> Valid(r)
  {
    var objects := TakeSmallest(newObjects);
    if !s.jobActive && |objects| > 0 then
      s.(objects := objects, jobActive := true)
    else if |objects| == 0 then
      s.(objects := objects, jobActive := false, index := 0, position := None)
    else
      s.(objects := objects)
  }

  /** Kotlin's `%` on `Int`: the remainder takes the sign of the dividend. */
  function KotlinRem(a: int, b: int): (r: int)
    requires b > 0
    ensures a >= 0 ==> 0 <= r < b
    ensures a < 0 ==> -b < r <= 0
    ensures (a - r) % b == 0
  {
    if a >= 0 then
      DividesDifference(a, b);
      a % b
    else
      DividesDifference(-a, b);
      -((-a) % b)
  }

  /** A multiple of `b` leaves no remainder. */
  lemma MultipleHasNoRemainder(b: int, k: int)
    requires b > 0
    ensures (b * k) % b == 0
  {
    var d, m := (b * k) / b, (b * k) % b;
    assert b * (k - d) == m;
    ScaleLeavesUnitRange(b, k - d);
  }

  lemma ScaleLeavesUnitRange(b: int, t: int)
    requires b > 0
    ensures t >= 1 ==> b * t >= b
    ensures t <= -1 ==> b * t <= -b
  {
  }

  /** `n` and `n % b` differ by a multiple of `b`, and so do their negations. */
  lemma DividesDifference(n: int, b: int)
    requires b > 0
    ensures (n - n % b) % b == 0 && (-n + n % b) % b == 0
  {
    var q := n / b;
    assert n - n % b == b * q;
    assert -n + n % b == b * (-q);
    MultipleHasNoRemainder(b, q);
    MultipleHasNoRemainder(b, -q);
  }

  /** One pass of the cycle job after its `delay(5000)`: move to the next object, wrapping
      around. Without a running job (or with nothing to track) nothing happens. */
  function Tick(s: TrackerState): (r: TrackerState)
    ensures !(s.jobActive && |s.objects| > 0) ==> r == s
    ensures s.jobActive && |s.objects| > 0 && s.index >= -1 ==>
              0 <= r.index < |s.objects| && r.index == (s.index + 1) % |s.objects|
    ensures r.objects == s.objects && r.position == s.position
    ensures r.jobActive == s.jobActive && r.shouldFollow == s.shouldFollow
    ensures Valid(s) ==> Valid(r)
  {
    if s.jobActive && |s.objects| > 0 then
      s.(index := KotlinRem(s.index + 1, |s.objects|))
    else
      s
  }

  /** `getObjectToTrack`: `getOrNull(currentTrackingIndex)`, null when the index is out of range. */
  function Lookup(s: TrackerState): (r: Option<DetectedObject>)
    ensures r.Some? <==> 0 <= s.index < |s.objects|
    ensures r.Some? ==> r.value == s.objects[s.index] && r.value in s.objects
  {
    if 0 <= s.index < |s.objects| then Some(s.objects[s.index]) else None
  }

  /** The camera does not move while `|norm| <= Deadzone` on both axes. */
  const Deadzone: real := 0.3

  function RealAbs(r: real): real {
    if r < 0.0 then -r else r
  }

  /** A centre coordinate mapped to `[-1, 1]` across a screen dimension. */
  function Normalized(c: real, dim: int): real
    requires dim > 0
  {
    (c / dim as real) * 2.0 - 1.0
  }

  /** The deadzone stated in pixels: the centre lies within the middle 30% of the screen
      on both axes, from 35% to 65% of each dimension. */
  predicate NearCentre(target: DetectedObject, screenWidth: int, screenHeight: int) {
    && 0.35 * screenWidth as real <= target.centerX <= 0.65 * screenWidth as real
    && 0.35 * screenHeight as real <= target.centerY <= 0.65 * screenHeight as real
  }

  lemma NormalizedWithinDeadzone(c: real, dim: int)
    requires dim > 0
    ensures RealAbs(Normalized(c, dim)) <= Deadzone <==> 0.35 * dim as real <= c <= 0.65 * dim as real
  {
    var d := dim as real;
    assert c / d * d == c;
    if 0.35 * d <= c <= 0.65 * d {
      assert 0.35 <= c / d <= 0.65;
    }
    if RealAbs(Normalized(c, dim)) <= Deadzone {
      assert 0.35 <= c / d <= 0.65;
      assert 0.35 * d <= c / d * d <= 0.65 * d;
    }
  }

  /** `updateCameraPosition`: when following, the tracked position is cleared while the
      target sits in the central deadzone and is otherwise the centre as a fraction of the
      screen size (the `[0, 1]` value, not the normalised one); when not following, nothing
      changes. */
  function UpdateCameraPosition(s: TrackerState, target: DetectedObject, screenWidth: int, screenHeight: int)
    : (r: TrackerState)
    requires screenWidth > 0 && screenHeight > 0
    ensures !s.shouldFollow ==> r == s
    ensures s.shouldFollow ==> r == s.(position := r.position)
    ensures s.shouldFollow ==> (r.position == None <==> NearCentre(target, screenWidth, screenHeight))
    ensures s.shouldFollow && r.position.Some? ==>
              r.position.value == (target.centerX / screenWidth as real, target.centerY / screenHeight as real)
  {
    if !s.shouldFollow then s
    else
      var normX := Normalized(target.centerX, screenWidth);
      var normY := Normalized(target.centerY, screenHeight);
      NormalizedWithinDeadzone(target.centerX, screenWidth);
      NormalizedWithinDeadzone(target.centerY, screenHeight);
      if RealAbs(normX) > Deadzone || RealAbs(normY) > Deadzone then
        s.(position := Some((target.centerX / screenWidth as real, target.centerY / screenHeight as real)))
      else
        s.(position := None)
  }

  /** With one object every tick lands on index 0; with two the index alternates. */
  lemma TickCycles(s: TrackerState)
    requires Valid(s) && s.jobActive
    ensures |s.objects| == 1 ==> Tick(s).index == 0 && Tick(s).jobActive
    ensures |s.objects| == 2 ==> Tick(s).index == 1 - s.index && Tick(Tick(s)).index == s.index
  {
  }

  /** After a tick of a running job the lookup always finds an object. */
  lemma TickRestoresTarget(s: TrackerState)
    requires Valid(s) && s.jobActive
    ensures Lookup(Tick(s)).Some?
  {
  }

  /** Shrinking from two objects to one while the second is tracked leaves the index at 1,
      so there is nothing to track until the next tick, which returns to the single object. */
  lemma ShrinkLosesTarget(s: TrackerState, xs: seq<DetectedObject>)
    requires Valid(s) && |s.objects| == 2 && s.index == 1
    requires |xs| == 1
    ensures Update(s, xs).index == 1
    ensures Lookup(Update(s, xs)) == None
    ensures Lookup(Tick(Update(s, xs))) == Some(xs[0])
  {
    var objects := TakeSmallest(xs);
    assert multiset(objects) <= multiset(xs);
    assert objects[0] in multiset(xs);
  }

  /** The events the view model reacts to. */
  datatype Event =
    | Detected(newObjects: seq<DetectedObject>)
    | TimerFired
    | Follow(target: DetectedObject, screenWidth: int, screenHeight: int)
    | SetFollow(follow: bool)

  predicate WellFormed(e: Event) {
    e.Follow? ==> e.screenWidth > 0 && e.screenHeight > 0
  }

  function Apply(s: TrackerState, e: Event): TrackerState
    requires WellFormed(e)
  {
    match e
    case Detected(xs) => Update(s, xs)
    case TimerFired => Tick(s)
    case Follow(t, w, h) => UpdateCameraPosition(s, t, w, h)
    case SetFollow(b) => s.(shouldFollow := b)
  }

  function Run(s: TrackerState, events: seq<Event>): TrackerState
    requires forall e :: e in events ==> WellFormed(e)
    decreases |events|
  {
    if |events| == 0 then s else Run(Apply(s, events[0]), events[1..])
  }

  /** Every state reached from a new view model is `Valid`: at most two objects in ascending
      area order, the job running exactly when there are objects, and the index 0 or 1
      (0 when there are no objects). */
  lemma {:induction false} RunKeepsValid(s: TrackerState, events: seq<Event>)
    requires Valid(s)
    requires forall e :: e in events ==> WellFormed(e)
    ensures Valid(Run(s, events))
    decreases |events|
  {
    if |events| > 0 {
      assert events[0] in events;
      assert forall e :: e in events[1..] ==> e in events;
      RunKeepsValid(Apply(s, events[0]), events[1..]);
    }
  }
}
