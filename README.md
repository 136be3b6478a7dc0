# Face detector: stabilise-and-capture, modelled in Dafny

This project models the core of the `FaceDetector` component, which runs once per video frame (a "tick"). Each tick does five things:

- It looks at the first face prediction and keeps it when it is large enough and centred.
- It smooths the face centre with an exponential moving average (EMA).
- It compares the smoothed centre with the current centre.
- It moves a stability counter with asymmetric steps: +1 when still, -2 when moving, -1 when no face is accepted.
- When the counter reaches 20 it fires one capture of the face, padded by 40 px and clamped to the frame, then resets the counter to 0.

A separate projection turns the counter, the detection flag and the model state into the status line.

Modules, in dependency order:

- `Wrappers`: `Option`.
- `Geometry`:
  - predictions, boxes and crop rectangles;
  - the acceptance test (area strictly above 12% of the frame, centre strictly inside the 25%..75% window);
  - the padded and clamped crop.
- `Smoothing`:
  - the EMA with alpha 0.3;
  - the movement test "distance > 2% of the frame width", written on squared distances.
- `Stability`: the counter step and its fold over a sequence of tick outcomes (`CounterRun`).
- `StatusDisplay`: the status text, JavaScript rounding (`Math.round`) of the progress percentage, and its decimal printing.
- `Tick`:
  - the state one iteration of the loop reads and writes;
  - one iteration as a pure function, `StepTick`.
- `Runs`:
  - `Run`, a sequence of ticks as a left fold;
  - the captures it fires and the statuses shown after each tick;
  - what such sequences guarantee.
- `Detector`:
  - the component as a class whose fields the loop updates in place;
  - `DetectFrame`, one loop iteration, proved equal to `StepTick`;
  - `RefreshStatus`, the status effect;
  - `Session`, which drives one detector over a sequence of frames and is proved equal to `Run`.
- `Scenarios`: worked runs on a 1280x720 frame.

Numbers are Dafny `real`s, so the arithmetic is exact. Frame sizes are `nat`. JavaScript's `Math.round` is `floor(x + 0.5)`.

Some consequences of the code that the model keeps:

- **The movement test uses the current box.** The code stores the current box as the last detection (`FaceDetector.jsx:97`) before the movement test reads it (`:128`). So the test compares the smoothed centre with the centre of the current box, not of the box accepted on an earlier tick, and a capture crops the current box. `StepTick` and `DetectFrame` do this.
- **The counter never holds 20 between ticks.** It lies in `[0, 20)`, because it is reset to 0 on the tick that reaches 20 (`Tick.TickContract`, `Runs.RunKeepsCounterInRange`).
- **The 280x200 face is rejected.** A 280x200 face at (500, 260) in a 1280x720 frame covers 56000 pixels, and 12% of the frame is 110592, so it is never accepted and holding it never captures. Its padded crop would be (460, 220, 360, 280) (`Scenarios.ScenarioA`). The capture runs use a 400x400 face.
- **A hold-gap-hold run captures once, on tick 30.** The run is 10 still ticks, 5 ticks without a face, then 20 still ticks. The counter climbs to 10, drains to 5, then takes 15 ticks to climb from 5 to 20 (`Scenarios.ScenarioB`).
- **Swapped corners pass the acceptance test.** Nothing checks that a prediction's corners are in order. With swapped corners both sides are negative, their product is positive, and such a box can be accepted. Its crop then has negative width and height (`Geometry.SwappedCornersGiveNegativeCrop`). `Geometry.AcceptedCropIsNonEmpty` holds for boxes of positive size.

## Model

| member | source | states |
|---|---|---|
| Geometry.BestFace | src/components/FaceDetector.jsx:61-91 | a kept face is the box spanned by the first prediction |
| Geometry.BoxOf | src/components/FaceDetector.jsx:67-71 | the box spanned by a prediction's corners; `Geometry.BestFaceIffCorners` states it on the corners |
| Geometry.Center | src/components/FaceDetector.jsx:76-77 | the box centre; `Geometry.BestFaceIffCorners` states it as the corner midpoint |
| Geometry.LargeEnough | src/components/FaceDetector.jsx:73-79 | area strictly above 12% of the frame; its contract is given by `Geometry.BestFaceIffCorners` and `Geometry.ExactMinimumAreaRejected` |
| Geometry.Centered | src/components/FaceDetector.jsx:81-85 | centre strictly inside 25%..75% of both sides; its contract is given by `Geometry.BestFaceIffCorners` and `Geometry.WindowEdgeRejected` |
| Geometry.Accepted | src/components/FaceDetector.jsx:87-90 | both tests hold; its contract is given by `Geometry.BestFaceIffCorners` |
| Geometry.BestFaceIffCorners | src/components/FaceDetector.jsx:64-91 | a face is kept iff there is a first prediction whose corner-spanned area is strictly above 12% of the frame and whose corner midpoint lies strictly inside 25%..75% of both sides; the kept box runs from the top-left to the bottom-right corner |
| Geometry.OnlyFirstPredictionCounts | src/components/FaceDetector.jsx:64-65 | predictions after the first never change the result |
| Geometry.ExactMinimumAreaRejected | src/components/FaceDetector.jsx:73-79 | an area of exactly 12% of the frame is rejected (the comparison is strict) |
| Geometry.WindowEdgeRejected | src/components/FaceDetector.jsx:76-85 | a centre exactly on a 25% or 75% line is rejected (the window is open) |
| Geometry.CropWithinFrame | src/components/FaceDetector.jsx:146-151 | the crop starts at or after the origin, ends at or before the right and bottom edges, is at most 80 px larger than the box, and still covers the part of the box inside the frame |
| Geometry.CropOf | src/components/FaceDetector.jsx:146-151 | the padded and clamped crop; its contract is given by `Geometry.CropWithinFrame`, `Geometry.CropIsPaddedBoxWhenInside` and `Geometry.AcceptedCropIsNonEmpty` |
| Geometry.CropIsPaddedBoxWhenInside | src/components/FaceDetector.jsx:146-151 | when the padded box fits, the crop is the box grown by 40 px on every side |
| Geometry.AcceptedCropIsNonEmpty | src/components/FaceDetector.jsx:146-151 | an accepted box of positive size always gives a crop of positive width and height |
| Geometry.SwappedCornersGiveNegativeCrop | src/components/FaceDetector.jsx:67-90 | a prediction with swapped corners is accepted, and its crop has negative width and height |
| Smoothing.Smooth | src/components/FaceDetector.jsx:104-115 | with no smoothed centre yet, the new one is the current centre |
| Smoothing.SmoothContracts | src/components/FaceDetector.jsx:107-114 | an EMA step lands between the old average and the current centre on each axis, and multiplies the squared distance to the current centre by 0.49 |
| Smoothing.SmoothFixedPoint | src/components/FaceDetector.jsx:107-114 | a centre that stays put is a fixed point of the average |
| Smoothing.MoveLimit | src/components/FaceDetector.jsx:126 | the movement limit is never negative |
| Smoothing.MovedIffDistanceAboveLimit | src/components/FaceDetector.jsx:126-136 | the squared comparison holds iff the Euclidean distance (any non-negative root of the squared distance) is above the limit |
| Smoothing.Moved | src/components/FaceDetector.jsx:126-136 | the movement test on squared distances; its contract is given by `Smoothing.MovedIffDistanceAboveLimit` |
| Smoothing.FirstSampleNeverMoves | src/components/FaceDetector.jsx:104-136 | the first accepted tick after a reset never counts as movement |
| Smoothing.MovedAfterSmoothing | src/components/FaceDetector.jsx:107-136 | after smoothing, movement holds iff 0.49 times the old squared distance exceeds the squared limit |
| Stability.CounterStep | src/components/FaceDetector.jsx:135-168 | keeps the counter in `[0, 20)`; fires iff the tick is still and the increment reaches 20 (from 19); after firing the counter is 0; a tick that is not still never raises the counter |
| Stability.MovementDecaysFasterThanDropout | src/components/FaceDetector.jsx:135-168 | moving never leaves more progress than losing the face, which never leaves more than before; -2 and -1 exactly above the floor |
| Stability.CounterRunInRange | src/components/FaceDetector.jsx:135-168 | over any outcome sequence from `[0, 20)` the counter stays in `[0, 20)` |
| Stability.CounterRun | src/components/FaceDetector.jsx:135-168 | the counter and capture ticks over a sequence of outcomes; its contract is given by `Stability.CounterRunInRange`, `Stability.FireTicksIncreasing`, `Stability.StillRunFiresOncePerCrossing` and `Stability.OddMovesNeverFire` |
| Stability.FireTicksIncreasing | src/components/FaceDetector.jsx:143-162 | capture ticks lie inside the run and strictly increase: at most one capture per tick |
| Stability.StillRunFiresOncePerCrossing | src/components/FaceDetector.jsx:140-165 | n still ticks from c fire `(c+n)/20` times, exactly on the ticks t where `c+t` is a multiple of 20 (every fire tick is such a t, and every such t in 1..n fires), and end at `(c+n)%20` |
| Stability.OddMovesNeverFire | src/components/FaceDetector.jsx:136-165 | with movement on every odd tick, no capture ever fires and the counter stays at most 2 |
| StatusDisplay.Round | src/components/FaceDetector.jsx:187-189 | the result is the integer within half a unit, halves going up |
| StatusDisplay.Progress | src/components/FaceDetector.jsx:187-189 | the percentage is non-negative for a non-negative counter |
| StatusDisplay.ProgressIsFivePerTick | src/components/FaceDetector.jsx:187-190 | the percentage is exactly 5 times the counter, so 5..95 during a hold |
| StatusDisplay.NatToString | src/components/FaceDetector.jsx:190 | the printed number is non-empty decimal digits with no leading zero |
| StatusDisplay.ParseNatToString | src/components/FaceDetector.jsx:190 | reading the printed digits back gives the number |
| StatusDisplay.Status | src/components/FaceDetector.jsx:185-196 | with no condition holding the status stays; with a positive counter it is the progress prefix followed by `%` |
| StatusDisplay.StatusIdempotent | src/components/FaceDetector.jsx:185-196 | re-running the effect with the same inputs changes nothing |
| StatusDisplay.StatusIgnoresPreviousWhenLoaded | src/components/FaceDetector.jsx:185-196 | once the model is loaded the status does not depend on the previous one |
| StatusDisplay.StatusReflectsState | src/components/FaceDetector.jsx:185-196 | once loaded: a progress message iff counter > 0; the hold prompt iff counter is 0 and a face is accepted; the align prompt iff counter is 0 and none is |
| StatusDisplay.LoadedStatusIsNeverLoading | src/components/FaceDetector.jsx:185-196 | once loaded the loading message never returns |
| StatusDisplay.HoldStatusShowsFivePerTick | src/components/FaceDetector.jsx:185-196 | during a hold the text is `Hold steady... <5*counter>%`, the number reads back as 5*counter and is at most 95 |
| Tick.TickContract | src/components/FaceDetector.jsx:61-170 | an early return changes nothing; the counter stays in `[0, 20)`; flag and smoothed centre are set iff a face is accepted; the last box is then that face and is otherwise kept; a capture fires iff a still tick brings the counter to 20, resets it, and crops the current face |
| Tick.StepTick | src/components/FaceDetector.jsx:61-170 | one loop iteration on values; its contract is given by `Tick.TickContract`, `Tick.SmoothedCentreUpdate` and `Tick.CounterUpdate` |
| Tick.SmoothedCentreUpdate | src/components/FaceDetector.jsx:94-170 | an accepted tick sets the smoothed centre to the current centre when unset, else to 0.7*old + 0.3*current; a tick with no accepted face clears it and keeps the last box |
| Tick.CounterUpdate | src/components/FaceDetector.jsx:125-168 | no face gives -1 (floor 0); squared distance above (0.02*width)^2 gives -2 (floor 0); otherwise +1, or a capture of the current box and a reset on reaching 20 |
| Tick.FirstAcceptedTickIsStill | src/components/FaceDetector.jsx:104-140 | the first accepted tick after a reset is still and raises the counter by one |
| Tick.StillFaceTick | src/components/FaceDetector.jsx:94-166 | holding a face whose centre is already the smoothed one is a still tick that keeps that centre and crops that face |
| Tick.NoFaceTick | src/components/FaceDetector.jsx:167-170 | a tick with no accepted face never captures or raises the counter; a ready one decrements it and clears flag and centre |
| Runs.Run | src/components/FaceDetector.jsx:40-173 | one tick outcome per frame |
| Runs.RunFollowsCounter | src/components/FaceDetector.jsx:135-168 | the run's final counter and capture ticks are those of the counter fold over its outcomes |
| Runs.RunKeepsCounterInRange | src/components/FaceDetector.jsx:135-168 | over any run the counter stays in `[0, 20)`, and capture ticks lie in the run and strictly increase |
| Runs.HoldIsStill | src/components/FaceDetector.jsx:94-166 | holding one accepted face makes every tick still, and every capture crops that face |
| Runs.HoldTrace | src/components/FaceDetector.jsx:140-165 | a still trace that follows the counter ends at `(c+n)%20` and has `(c+n)/20` captures, exactly on the crossing ticks |
| Runs.HoldCapturesOncePerCrossing | src/components/FaceDetector.jsx:140-165 | holding one face n ticks from counter c ends at `(c+n)%20` with `(c+n)/20` captures, exactly on the crossing ticks (every capture on one, every one in 1..n captured), all cropping that face |
| Runs.FreshHoldCaptures | src/components/FaceDetector.jsx:140-165 | from a fresh detector, n still ticks give n/20 captures and counter n%20 |
| Runs.MovingEveryOtherTickNeverCaptures | src/components/FaceDetector.jsx:135-166 | a run that moves on every odd tick, from counter 0 or 1, never captures and ends at counter at most 2 |
| Runs.NoFaceNeverCaptures | src/components/FaceDetector.jsx:167-170 | with no accepted face: no capture, the counter never grows, the flag never turns on; on ready frames the counter drops one per tick to 0 and the centre is cleared |
| Runs.RunAppend | src/components/FaceDetector.jsx:40-173 | running two frame sequences in turn is running their concatenation, with the second part's captures renumbered after the first |
| Runs.StatusTrace | src/components/FaceDetector.jsx:185-196 | one status per tick |
| Runs.StatusTraceAt | src/components/FaceDetector.jsx:185-196 | the status after tick k is the status of the state reached after k+1 frames |
| Detector.FaceDetector.constructor | src/components/FaceDetector.jsx:11-17 | a fresh component: no centre, no box, counter 0, no detection, loading message |
| Detector.FaceDetector.DetectFrame | src/components/FaceDetector.jsx:40-170 | one loop iteration updates the fields in place to exactly `StepTick`'s new state, returns its capture, leaves the status alone, and keeps the counter in `[0, 20)` |
| Detector.FaceDetector.RefreshStatus | src/components/FaceDetector.jsx:185-196 | the status effect sets the status to `Status` of the previous status, counter, flag and model state |
| Detector.SessionStep | src/components/FaceDetector.jsx:172 | one more iteration extends the run, its captures and its statuses by one tick |
| Detector.Session | src/components/FaceDetector.jsx:40-175 | a fresh detector driven frame by frame fires exactly the captures of `Run` from the initial state and shows exactly `StatusTrace` |
| Scenarios.ScenarioA | src/components/FaceDetector.jsx:64-91 | the 280x200 face is rejected and never captured; its padded crop would be (460, 220, 360, 280) |
| Scenarios.ScenarioALargeFace | src/components/FaceDetector.jsx:140-162 | a 400x400 face held 20 ticks is captured once, on tick 20, as (400, 120, 480, 480) |
| Scenarios.ScenarioBFirstHold | src/components/FaceDetector.jsx:140-165 | ten still ticks reach counter 10 without a capture |
| Scenarios.ScenarioBGap | src/components/FaceDetector.jsx:167-170 | five ticks without a face drain 10 to 5 and clear the centre |
| Scenarios.ScenarioBSecondHold | src/components/FaceDetector.jsx:140-165 | from counter 5, twenty still ticks capture once, on their 15th, and end at 5 |
| Scenarios.ScenarioB | src/components/FaceDetector.jsx:135-168 | hold 10, gap 5, hold 20: exactly one capture, on tick 30, ending at counter 5 |
| Scenarios.ScenarioC | src/components/FaceDetector.jsx:135-166 | still and moving ticks alternating never fire and keep the counter at most 2 |
| Scenarios.NoFaceStaysIdle | src/components/FaceDetector.jsx:167-170 | with no accepted face a fresh detector stays at counter 0 with nothing detected |
| Scenarios.IdleShowsAlign | src/components/FaceDetector.jsx:191-195 | an idle detector with a loaded model shows the align prompt |
| Scenarios.NoFaceStatusTrace | src/components/FaceDetector.jsx:185-196 | with no accepted face every status of a session is the align prompt |
| Scenarios.ScenarioD | src/components/FaceDetector.jsx:167-196 | when the model never returns an accepted face nothing is captured and the align prompt shows after every tick |

## Left out

- Model loading (`FaceDetector.jsx:20-33`) is I/O. `Session` assumes the model is loaded. The "Model loading failed" status is only covered by `Status` keeping the previous status when no condition holds.
- The face model's inference (`estimateFaces`, `:59`) is outside the model. Its predictions are an input of each `Frame`.
- Tick.Frame, Detector.Session: a failed inference is not modelled. In the source, a rejected `estimateFaces` call (`:59`, with no `try`/`catch`) leaves `detectFrame` before the next frame is requested (`:172`). Detection then stops for good, and the counter and flag stay as they were. `Frame` has no case for this, and `Session` always goes on to the next frame. A session that stopped this way yields the captures and statuses of some prefix of `frames`.
- The early returns while the model, video or canvas is not ready (`:41-49`) are the `NotReady` frame. A `NotReady` frame changes no state.
- Scheduling is left out: `requestAnimationFrame`, `await`, the `mounted` flag and effect cleanup (`:36-49`, `:172-181`). The model runs one tick per frame, strictly in order. The `mounted` guard on the detection flag is always taken as true.
- React's state batching, and the updater running more than once, are left out. The status effect is modelled as running once after each tick. `StatusIdempotent` shows that an extra run with unchanged inputs changes nothing.
- Canvas drawing, the capture canvas, `drawImage`, and JPEG encoding by `toDataURL` (`:51-56`, `:117-119`, `:144-160`) are left out. A capture is its crop rectangle. The integer truncation of `captureCanvas.width/height` is not modelled.
- IEEE floating point, and `Math.sqrt`/`Math.round` rounding on floats, are left out. The arithmetic is exact over reals, and the square root is replaced by an equivalent squared comparison.
- The JSX overlay (`:198-212`) is rendering only.
- `CameraFeed.jsx`, `App.jsx` and `vite.config.js` are not part of this model. They cover camera acquisition, the application shell and the build config.
- Scenarios.ScenarioC: states the counter-level property over tick outcomes. Which geometric sequences of boxes produce alternating movement is not fixed.
