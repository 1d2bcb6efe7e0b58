# MosquitoTracker detection and tracking core, in Dafny

This project models the logic of the MosquitoTracker Android app and proves properties of it. It covers four pieces:

- **Detection** (`MainViewModel.kt`). The luma sampler reads every 8th pixel of every 8th row of the Y plane. It reports the points whose unsigned luma is below 50. This is a one-frame dark-pixel test; no previous frame is used. The clusterer is a breadth-first flood fill over those points, where two points are neighbours at Chebyshev distance 1 or 2. It drops groups of fewer than 20 points and turns each surviving group into a bounding box. Each box becomes a `DetectedObject`.
- **Tracking** (`MainViewModel.kt`). A state record holds the objects, the tracking index, the tracked position, whether the cycling job runs, and the follow flag. Its steps are explicit: `Update` (keep the two smallest objects by area), `Tick` (one pass of the 5-second cycling loop), `Lookup` (`getObjectToTrack`) and `UpdateCameraPosition` (the deadzone rule).
- **The processing gate** (`MainViewModel.kt`). The `isProcessing` flag drops frames while a frame is being processed.
- **Frame-rate gates.** The image analyzer drops a frame less than 200 ms after the last one it accepted (`CameraScreen.kt`). `PerformanceTracker.logFrame` counts frames and reports and restarts the count once more than 1000 ms have passed (`MainActivity.kt`).

Every clock reading is a parameter. Everything is sequential: coroutines become explicit events.

Modules, one per file:

- `Wrappers`: `Option`.
- `Geometry`: points, rects, neighbours and bounding boxes.
- `LumaSampler`, `Clustering`, `Detection`, `Ranking` and `Tracker`: the view model.
- `ProcessingGate`: the busy flag.
- `AnalyzerThrottle`: the camera screen's throttle.
- `PerformanceTracker`: the FPS counter.

Points worth knowing about the code, which the model follows:

- Despite the names `detectMovingObjectsYUVParallel` and `diffPoints`, detection compares nothing between frames. It tests one frame's luma against a fixed bound of 50. The `threshold` parameter (default 25) is never read.
- `updateCameraPosition` computes a centred offset in `[-1, 1]` only for the deadzone test. The position it stores is the object's centre as a `[0, 1]` fraction of the screen size.
- `isProcessing` is cleared only in the `finally` block inside `yuvData?.let`, so only frames that converted to YUV clear it (see Findings).
- The image analyzer drops frames less than 200 ms apart.
- The cycling job starts for any non-empty object list, including a single object. With one object each tick computes `(0 + 1) % 1 = 0`, so the index stays 0 while the job keeps running (`Tracker.TickCycles`).

One consequence is proved: **as written, detection never reports an object.** Sampled points lie on an 8-pixel grid. Neighbours must be within 2 pixels. So no two sampled points are neighbours, every group has a single point, and the 20-point minimum removes all of them. `Detection.DetectMovingObjects` ensures its result is empty.

## Model

| member | source | states |
|---|---|---|
| `Geometry.BoundingBox` | app/src/main/java/com/example/mosquitotracker/MainViewModel.kt:151-157 | The box of a non-empty group has left ≤ right and top ≤ bottom. It contains every point of the group, and each of its four sides is reached by some point, so it is exactly (min x, min y, max x, max y). |
| `LumaSampler.Unsigned` | app/src/main/java/com/example/mosquitotracker/MainViewModel.kt:95 | `toInt() and 0xFF` yields the value in 0..255 that is congruent to the signed byte modulo 256. |
| `LumaSampler.Luma` | app/src/main/java/com/example/mosquitotracker/MainViewModel.kt:85 | `take(width*height)` is a prefix of the buffer whose length is `width*height`, or the whole buffer when that is shorter. |
| `LumaSampler.SampleRow` | app/src/main/java/com/example/mosquitotracker/MainViewModel.kt:89-101 | One row's `async` body: it reports exactly the points of row y that the sampler's condition admits, left to right. |
| `LumaSampler.SampleDarkPoints` | app/src/main/java/com/example/mosquitotracker/MainViewModel.kt:85-99 | A point is reported exactly when x and y are multiples of 8, 0 ≤ x < width, 0 ≤ y < height, `y*width+x` is inside the luma prefix, and the unsigned byte there is < 50. Each point is reported once. |
| `LumaSampler.ToYuvBytes` | app/src/main/java/com/example/mosquitotracker/MainViewModel.kt:201-217 | Non-YUV_420_888 images yield no buffer. Otherwise the buffer is the Y plane, then the V plane, then the U plane, each at its own offset. |
| `LumaSampler.SamplingReadsLumaPlane` | app/src/main/java/com/example/mosquitotracker/MainViewModel.kt:85-99 | If the Y plane holds at least `width*height` bytes, sampling the Y‖V‖U buffer reports the same points as sampling the Y plane alone. |
| `Clustering.VisitNeighbours` | app/src/main/java/com/example/mosquitotracker/MainViewModel.kt:134-143 | After the offset loops for point x, every input neighbour of x is visited. Only previously unvisited input neighbours of x are queued, each once, behind the existing queue. |
| `Clustering.GrowComponent` | app/src/main/java/com/example/mosquitotracker/MainViewModel.kt:125-144 | The BFS from a seed returns a group that starts at the seed and holds distinct, previously unvisited input points. In the group's order each point has an earlier neighbour, so the group is connected. Every input neighbour of a member ends up visited. |
| `Clustering.GroupComponents` | app/src/main/java/com/example/mosquitotracker/MainViewModel.kt:119-149 | The BFS groups partition the input. Every input point is in exactly one group. Each group is connected and closed under radius-2 adjacency among the input points. |
| `Clustering.KeepLarge` | app/src/main/java/com/example/mosquitotracker/MainViewModel.kt:146-148 | A group is kept exactly when it has at least `minArea` points. |
| `Clustering.KeepLargeKeepsOrder` | app/src/main/java/com/example/mosquitotracker/MainViewModel.kt:122-148 | Dropping the small groups keeps the survivors in discovery order. |
| `Clustering.Boxes` | app/src/main/java/com/example/mosquitotracker/MainViewModel.kt:151-158 | `groups.map { Rect(...) }`: one box per group, in the same order, each the group's bounding box. |
| `Clustering.GroupDiffPoints` | app/src/main/java/com/example/mosquitotracker/MainViewModel.kt:115-159 | The components found partition the input and come in discovery order: each starts with its member that occurs first in the input, and their first points occur in the input in increasing order. The returned rects are the bounding boxes of exactly those components with at least `minArea` points, in that same order. |
| `Clustering.IsolatedPointsFormSingletons` | app/src/main/java/com/example/mosquitotracker/MainViewModel.kt:130-144 | If no two input points are neighbours, every component has exactly one point. |
| `Detection.ToDetectedObject` | app/src/main/java/com/example/mosquitotracker/MainViewModel.kt:105-111 | Width is right−left and height is bottom−top (`Rect.width()`/`height()`). The centre is the midpoint rounded down (`centerX()` is `(left + right) >> 1`), so it lies inside a well-formed rect. The area is (right−left)·(bottom−top). The id is the given hash. |
| `Detection.Centre` | app/src/main/java/com/example/mosquitotracker/MainViewModel.kt:106-107 | The centre coordinate is the midpoint rounded down: twice it is at most left+right and more than left+right−2, and it lies between the two sides of a well-formed rect. |
| `Detection.ToDetectedObjectRoundTrip` | app/src/main/java/com/example/mosquitotracker/MainViewModel.kt:104-112 | The mapping loses nothing about the box: the rect can be rebuilt from the object's centre and extents. |
| `Detection.ToDetectedObjects` | app/src/main/java/com/example/mosquitotracker/MainViewModel.kt:104-112 | The `.map` over the boxes: one object per box, in order, each the mapping of its box with the box's hash as id. |
| `Detection.DetectedObject.Area` | app/src/main/java/com/example/mosquitotracker/MainViewModel.kt:34 | `area()` is non-negative for non-negative extents, and zero exactly when the width or the height is zero. |
| `Detection.GridPointsNotAdjacent` | app/src/main/java/com/example/mosquitotracker/MainViewModel.kt:87-137 | Two points on the step-8 grid are never neighbours within radius 2. |
| `Detection.GridInputYieldsNoBoxes` | app/src/main/java/com/example/mosquitotracker/MainViewModel.kt:146-148 | For grid-aligned input and any minimum size above 1, no group survives the size filter. |
| `Detection.DetectMovingObjects` | app/src/main/java/com/example/mosquitotracker/MainViewModel.kt:79-113 | As written, the detector returns an empty list for every buffer and size. |
| `Ranking.SortByArea` | app/src/main/java/com/example/mosquitotracker/MainViewModel.kt:162 | `sortedBy { area() }` returns a permutation of its input in non-decreasing area order. |
| `Ranking.SortByAreaIsStable` | app/src/main/java/com/example/mosquitotracker/MainViewModel.kt:162 | For every area, the objects with that area keep their input order (a stable sort). |
| `Ranking.TakeSmallest` | app/src/main/java/com/example/mosquitotracker/MainViewModel.kt:162 | `take(2)` after the sort keeps min(2, \|xs\|) elements of the input in ascending area order. None of them is larger than any element left out. |
| `Ranking.TakeSmallestKeepsEarliestTies` | app/src/main/java/com/example/mosquitotracker/MainViewModel.kt:162 | Among objects of equal area, the kept ones are the earliest in the input. |
| `Tracker.Update` | app/src/main/java/com/example/mosquitotracker/MainViewModel.kt:161-171 | The stored list is the two smallest objects. An empty update cancels the job and resets the index to 0 and the position to null. A non-empty update leaves the index and position unchanged and leaves the job running. |
| `Tracker.Initial` | app/src/main/java/com/example/mosquitotracker/MainViewModel.kt:38-48 | A new view model has no objects, index 0, no tracked position, no job and following on; it is a valid state whose lookup is null. |
| `Tracker.Tick` | app/src/main/java/com/example/mosquitotracker/MainViewModel.kt:176-178 | A tick of a running job with objects sets the index to (index+1) mod size, which is within range. Otherwise nothing changes. Reachable-state validity is preserved. |
| `Tracker.KotlinRem` | app/src/main/java/com/example/mosquitotracker/MainViewModel.kt:178 | Kotlin's `%`: the remainder has the sign of the dividend, is smaller in magnitude than the divisor, and differs from the dividend by a multiple of the divisor. |
| `Tracker.Lookup` | app/src/main/java/com/example/mosquitotracker/MainViewModel.kt:183-185 | `getOrNull(currentTrackingIndex)` yields an object exactly when the index is within range, and that object is `objects[index]`. |
| `Tracker.UpdateCameraPosition` | app/src/main/java/com/example/mosquitotracker/MainViewModel.kt:187-198 | When not following, nothing changes. Otherwise only the position changes. It becomes null exactly when the centre lies within 35–65% of the screen on both axes. If not null, it is (cx/w, cy/h). |
| `Tracker.TickCycles` | app/src/main/java/com/example/mosquitotracker/MainViewModel.kt:176-178 | With one object a tick lands on index 0 and the job stays active. With two objects the index alternates between 0 and 1. |
| `Tracker.TickRestoresTarget` | app/src/main/java/com/example/mosquitotracker/MainViewModel.kt:173-185 | After a tick of a running job, `getObjectToTrack` finds an object. |
| `Tracker.ShrinkLosesTarget` | app/src/main/java/com/example/mosquitotracker/MainViewModel.kt:161-185 | Shrinking from two objects to one while index 1 is tracked keeps the index at 1, so the lookup is null. The next tick returns to the single object. |
| `Tracker.RunKeepsValid` | app/src/main/java/com/example/mosquitotracker/MainViewModel.kt:161-198 | Over any sequence of updates, ticks and follow calls, these stay true: at most two objects in ascending area order, the job running exactly when there are objects, and the index 0 or 1 (0 when there are no objects). |
| `ProcessingGate.Arrive` | app/src/main/java/com/example/mosquitotracker/MainViewModel.kt:52-56 | `getAndSet(true)`: a frame starts a job exactly when the flag was clear. A frame that finds it set is dropped, and the gate is unchanged. |
| `ProcessingGate.Complete` | app/src/main/java/com/example/mosquitotracker/MainViewModel.kt:58-76 | As written, completing a job clears the flag only when its frame converted to YUV. |
| `ProcessingGate.AtMostOneInFlight` | app/src/main/java/com/example/mosquitotracker/MainViewModel.kt:49-76 | A job in flight always holds the flag, so a frame arriving meanwhile is dropped. |
| `ProcessingGate.NonYuvFrameWedgesGate` | app/src/main/java/com/example/mosquitotracker/MainViewModel.kt:59-74 | As written, after one non-YUV frame the flag stays set with no job in flight. Every later frame is dropped and none starts. |
| `ProcessingGate.CompleteCorrected` | app/src/main/java/com/example/mosquitotracker/MainViewModel.kt:61-73 | The corrected completion clears the flag whenever a job ends. |
| `ProcessingGate.CorrectedGateNeverWedges` | app/src/main/java/com/example/mosquitotracker/MainViewModel.kt:52-76 | With the corrected completion, the flag is set exactly while a job is in flight. |
| `AnalyzerThrottle.Analyze` | app/src/main/java/com/example/mosquitotracker/CameraScreen.kt:79-93 | A frame with `now − lastFrameTime < 200` is dropped and leaves the throttle unchanged. Any other frame sets `lastFrameTime := now` before it is handed on, so a frame whose consumer throws is still counted. |
| `AnalyzerThrottle.AcceptedFramesSpaced` | app/src/main/java/com/example/mosquitotracker/CameraScreen.kt:76-85 | Consecutively accepted frames are at least 200 ms apart, and the first is at least 200 ms after the initial `lastFrameTime`. The throttle ends on the last accepted time. |
| `AnalyzerThrottle.FirstFrameAfterWarmup` | app/src/main/java/com/example/mosquitotracker/CameraScreen.kt:76-85 | Starting from `lastFrameTime = 0`, frames stamped before 200 are dropped, and the first frame stamped at 200 or later is accepted. |
| `AnalyzerThrottle.BurstYieldsOne` | app/src/main/java/com/example/mosquitotracker/CameraScreen.kt:80-85 | If the first frame is accepted and all frames arrive within 200 ms of it, exactly one frame is accepted. |
| `PerformanceTracker.LogFrame` | app/src/main/java/com/example/mosquitotracker/MainActivity.kt:77-85 | Each call counts one frame. When more than 1000 ms have passed (strictly), the count is reported and restarts at 0 from the current time. Otherwise the count grows and the report time stays. |
| `PerformanceTracker.New` | app/src/main/java/com/example/mosquitotracker/MainActivity.kt:74-75 | A new tracker has counted no frames. Its first `logFrame` reports 1 exactly when more than 1000 ms have passed since construction. |
| `PerformanceTracker.CountsCallsSinceReset` | app/src/main/java/com/example/mosquitotracker/MainActivity.kt:73-85 | `frameCount` is the number of calls since the last restart, not counting the restarting call. `lastLogTime` is that call's clock reading. With no restart the calls add to the starting count. |

## Left out

- Coroutines, `Dispatchers`, `withContext`, and the per-row `async`/`awaitAll` with a synchronized list. The sampler runs row after row. The order in which rows are merged is not modelled; the clustering results hold for any input order.
- `LumaSampler.SampleDarkPoints`: the result is in row-major order, which is only one of the orders the concurrent merge can produce.
- 32-bit and 64-bit overflow: `width*height`, `y*width+x`, the `Long` timestamp differences and `frameCount` are unbounded integers here.
- `Rect.hashCode()` is Android library code that is not part of this model; the id comes from a `hash` function the caller supplies. `Rect.centerX()`/`centerY()` are modelled as `(left + right) >> 1` rounded down, without its 32-bit overflow.
- IEEE float arithmetic: areas are exact integers and the deadzone test is over reals.
- `Tracker.UpdateCameraPosition`: requires positive screen sizes. With a zero size the float division yields infinities or NaN, which are not modelled.
- `ByteBuffer` plumbing in `toYUVByteArray`: the planes arrive as their remaining bytes. Row-stride padding of the Y plane is not modelled.
- `toOptimizedBitmap` (NV21 → JPEG → Bitmap), the CameraX and Compose wiring, `CameraPreview.kt`, the permission flow, `System.loadLibrary` and all logging. These are platform and UI code.
- The analyzer forwards frames to `viewModel.processImage`, which the view model does not define. That consumer is abstracted as the frame's `consumerThrows` flag.
- `processYUVImage` is modelled in pieces rather than as one method. The gate is `ProcessingGate`, the detection pipeline is `Detection.DetectMovingObjects`, and the hand-off is `Tracker.Update`.
- `delay(5000)` is the `Tick` event. The job's own exit when the list is empty never happens here, because the only step that empties the list also cancels the job.

## Findings

| source | as written | input that shows it | evidently intended | confidence | as-written member | corrected member |
|---|---|---|---|---|---|---|
| app/src/main/java/com/example/mosquitotracker/MainViewModel.kt:61-73 | `isProcessing.set(false)` is in the `finally` inside `yuvData?.let`, so it never runs when `toYUVByteArray` returns null | one frame whose format is not YUV_420_888 | clear the flag at the end of every job, whether or not the frame converted | medium; not executed | `ProcessingGate.NonYuvFrameWedgesGate` | `ProcessingGate.CompleteCorrected` |
