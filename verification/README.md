# Hand-gesture navigation: recognizer and command consumer

This project models the gesture core of a browser solar-system viewer that
is driven by hand tracking. A hand-pose estimator delivers zero or one hand
per video frame. The recognizer (`onResults` in the hand tracker component)
turns the change in thumb/index pinch distance into zoom deltas. It turns the
horizontal movement of the pinch centre into left/right swipes, with a 500 ms
cooldown, and it keeps an on-screen mode ('NONE', 'ZOOM', 'SWIPE'). The page
component consumes these commands. A swipe steps the selected planet through
the list with wrap-around. A zoom delta moves a zoom level clamped to [0, 1].
The detail panel is shown above zoom 0.8.

Modules:

- `Options`: the nullable baseline value.
- `Gesture`: constants, frames, events, the detector state and the pure step
  `Step(state, now, frame) -> (state', events)`.
- `GestureFacts`: the per-frame properties of `Step`.
- `GestureRun`: the step folded over a stream of timestamped frames, and the
  cooldown spacing of swipes over any stream.
- `App`: the page state, the three handlers with JavaScript's truncating `%`,
  and the detail-panel predicate.
- `Session`: the recognizer wired to the handlers, from mount.

Modelling choices:

- Coordinates and distances are exact `real`s, not IEEE doubles.
- The frame carries its pinch distance already computed. That distance is
  `Math.sqrt` of the squared tip differences in the component, and it is
  never negative. The frame also carries the two tip x-coordinates, which
  give the pinch centre.
- `Date.now()` becomes the integer parameter `now`.
- The three callbacks and `setGestureMode` become the returned event list and
  the returned state.
- The planet list is represented only by its length: `PlanetCount` = 9, or
  any `n > 0` in the handler functions.

The swipe cooldown test follows the code: a swipe can fire only when
`now > swipeCooldown`, which is strict (src/components/HandTracker.tsx:159). With the strict
test, a frame exactly at the cooldown instant is still suppressed.

## Model

| member | source | states |
|---|---|---|
| Gesture.CenterX | src/components/HandTracker.tsx:132 | the pinch centre lies between the two tip x-coordinates and is equidistant from both |
| Gesture.ZoomOutput | src/components/HandTracker.tsx:134-146 | a zoom is produced only when a previous distance exists, and its magnitude then exceeds jitter floor times sensitivity |
| Gesture.SwipeOutput | src/components/HandTracker.tsx:150-172 | a swipe is produced only with a previous centre, strictly after the cooldown, for a centre move larger than 0.08 in magnitude |
| Gesture.Step | src/components/HandTracker.tsx:83-182 | one frame fires nothing, a zoom, a swipe, or a zoom then a swipe; both baselines are set exactly when a hand is present; mode is 'NONE' only after an empty frame or when it already was and nothing fired; the cooldown never decreases, changes exactly when a swipe fires, and is then `now + 500` with `now` past the old cooldown |
| GestureFacts.NoHandResets | src/components/HandTracker.tsx:175-179 | an empty frame clears both baselines, sets 'NONE', fires nothing and keeps the cooldown |
| GestureFacts.FirstHandFrameOnlyRecords | src/components/HandTracker.tsx:135-173 | with no baselines, a hand frame fires nothing and records this frame's distance and centre, keeping cooldown and mode |
| GestureFacts.BaselinesFollowHand | src/components/HandTracker.tsx:147-173 | with a hand present, the stored distance and centre become this frame's, whatever fired |
| GestureFacts.ZoomIffAboveJitter | src/components/HandTracker.tsx:135-146 | with a previous distance, the zoom event `(d - prev) * 3.0` fires if and only if the distance moved strictly more than 0.002; any zoom event carries exactly that unclamped value |
| GestureFacts.SwipeDirection | src/components/HandTracker.tsx:153-171 | past the cooldown with a previous centre: SwipeLeft fires iff the centre moved by more than +0.08, SwipeRight iff by less than -0.08, never both, and none for a move of at most 0.08 in magnitude |
| GestureFacts.NoSwipeDuringCooldown | src/components/HandTracker.tsx:159-171 | at or before the cooldown instant no swipe fires and the cooldown is unchanged |
| GestureFacts.CooldownMovesOnlyOnSwipe | src/components/HandTracker.tsx:159-170 | without a swipe the cooldown is kept; with one it becomes `now + 500` |
| GestureFacts.ModeFollowsLastDetector | src/components/HandTracker.tsx:139-169 | with a hand present: a swipe leaves 'SWIPE', a zoom without a swipe leaves 'ZOOM', a quiet frame keeps the previous mode |
| GestureFacts.ZoomAndSwipeInOneFrame | src/components/HandTracker.tsx:125-173 | a frame with two events fires the zoom first and the swipe second, and ends in 'SWIPE' |
| GestureFacts.StepExamples | src/components/HandTracker.tsx:135-171 | distances 0.05 to 0.06 zoom by 0.03; 0.05 to 0.0505 fire nothing and rebase to 0.0505; a centre move from 0.5 to 0.6 is one SwipeLeft |
| GestureRun.Trace | src/components/HandTracker.tsx:83-84 | one result per frame, the first computed from the starting memory |
| GestureRun.TraceStep | src/components/HandTracker.tsx:83-84 | every later frame is processed from the memory the previous frame left |
| GestureRun.SwipesSpaced | src/components/HandTracker.tsx:159-170 | over any frame stream, every swipe comes after the starting cooldown, and of any two swipes the later one is more than 500 ms after the earlier, with no assumption that timestamps increase |
| App.JsRem | src/App.tsx:14-18 | the remainder lies strictly between -n and n, differs from the dividend by a multiple of n, agrees with the Euclidean remainder on non-negative dividends, and is non-positive for non-positive ones, which fixes it for every dividend |
| App.NextIndex | src/App.tsx:13-15 | an in-range index stays in range, moves to the next index, and the last index wraps to 0; for any index from -1 up it equals `(i + 1) mod n` |
| App.PrevIndex | src/App.tsx:17-19 | an in-range index stays in range, moves to the previous index, and index 0 wraps to the last; for any index from `1 - n` up it equals `(i - 1 + n) mod n` |
| App.ApplyZoom | src/App.tsx:21-23 | the result is in [0, 1]; it equals `z + d` when that is in range, 0 below the range and 1 above it |
| App.Apply | src/App.tsx:13-23 | SwipeLeft takes an in-range index i to `(i + 1) mod n`, SwipeRight to `(i - 1 + n) mod n`, a zoom delta d sets the zoom to the clamp of `zoom + d`; a swipe leaves the zoom alone, a zoom leaves the index alone, and an in-range page state stays in range |
| App.InitialInRange | src/App.tsx:10-11 | the page starts at index 2 with zoom 0, in range for any list longer than 2, with the panel hidden |
| App.NextPrevInverse | src/App.tsx:14-18 | a left swipe then a right swipe, or the reverse, restores any in-range index |
| App.NextIndexTimesRotates | src/App.tsx:14 | k left swipes take index i to (i + k) mod n, so n of them return to the start |
| App.ZoomEdgeCases | src/App.tsx:22 | a zero delta keeps an in-range zoom level; any delta of at least 1 saturates it at 1 |
| App.DetailAfterEvent | src/App.tsx:26 | after a zoom by d the panel shows iff the unclamped sum `zoom + d` exceeds 0.8; a swipe never changes whether it shows |
| App.ApplyAll | src/App.tsx:13-23 | no callback leaves the page state as it was; swipes alone never move the zoom and zooms alone never move the selection |
| App.ApplyAllSnoc | src/App.tsx:13-23 | one more callback runs its handler on the state all earlier callbacks produced |
| App.ApplyAllConcat | src/App.tsx:13-23 | two batches of callbacks applied one after the other equal the concatenated batch applied in order |
| App.ShowDetail | src/App.tsx:26 | the panel is hidden at any zoom up to and including 0.8 (strict threshold) and shown at full zoom |
| App.ShowDetailMonotone | src/App.tsx:44 | zooming in never hides the detail panel and zooming out never shows it |
| App.ApplyAllInRange | src/App.tsx:13-23 | any sequence of commands keeps an in-range page state in range |
| GestureRun.FirstFrameAfterGapQuiet | src/components/HandTracker.tsx:135-179 | from a memory without baselines (as at mount), the first frame, and every frame right after an empty one, fires nothing |
| GestureRun.TracePrefix | src/components/HandTracker.tsx:83-84 | the results of a stream's prefix are the prefix of the stream's results: later frames never change earlier results |
| GestureRun.TraceSnoc | src/components/HandTracker.tsx:83-84 | appending a frame appends exactly the step of that frame from the memory the stream left |
| GestureRun.Emitted | src/components/HandTracker.tsx:143-167 | the first frame's callbacks open the stream's callback list, and a stream whose frames fire nothing fires nothing |
| GestureRun.EmittedSnoc | src/components/HandTracker.tsx:143-167 | one more frame appends exactly its callbacks after all earlier ones, so callbacks reach the page in arrival order |
| GestureRun.NoHandNoEvents | src/components/HandTracker.tsx:175-179 | a stream in which no hand ever appears fires nothing |
| Session.Navigate | src/App.tsx:10-35 | until a hand appears the page stays in its initial state (index 2, zoom 0) |
| Session.NavigateSnoc | src/App.tsx:10-35 | one more frame is stepped from the memory the earlier frames left, and its callbacks act, in order, on the page state they left |
| Session.ClampPerCallback | src/App.tsx:22 | each zoom delta is clamped as it arrives: distances 0.1, 0.6, 0.4 fire zooms of 1.5 then -0.6 and end at zoom 0.4, not at the clamp of the summed deltas |
| Session.NavigateInRange | src/App.tsx:31-35 | whatever frames arrive after mount, the selected index is a valid planet and the zoom is in [0, 1] |
| Session.CentreMoveSelectsPlanet | src/components/HandTracker.tsx:153-171 | with a recorded centre and the cooldown expired, a frame whose centre moves right by more than 0.08 selects the next planet (mod 9), one moving left by more than 0.08 the previous planet, and a move of at most 0.08 keeps the selection, whatever zoom the frame also fires |
| Session.ScenarioSteps | src/components/HandTracker.tsx:125-179 | in the five-frame scenario, the second hand frame zooms by 0.06 and swipes left; the third moves distance by 0.001 (under the jitter floor) and falls inside the swipe cooldown, so it fires nothing; the empty frames reset |
| Session.ScenarioTrace | src/components/HandTracker.tsx:83-182 | the scenario stream produces exactly those five per-frame results |
| Session.EndToEndScenario | src/App.tsx:13-23 | the scenario yields exactly a 0.06 zoom then a SwipeLeft, ends in 'NONE' with cooldown 700, and leaves the page at index 3, zoom 0.06 |

## Left out

- MediaPipe `Hands` configuration, camera permission, the `Camera` frame
  loop and the error alert (src/components/HandTracker.tsx:26-81): I/O and
  foreign libraries; the model starts at the per-frame callback.
- Canvas clearing, mirroring and landmark drawing
  (src/components/HandTracker.tsx:85-123, 181), and all JSX, including the
  mode colour: presentation only.
- `Math.sqrt` and the landmark y-coordinates: the pinch distance is an input
  of the frame. The wrist landmark is only drawn, so it is not modelled.
- Floating-point rounding and NaN: values are exact reals. For example, the
  centre move 0.52 to 0.60 is exactly 0.08 here, while doubles may round it
  to just below 0.08.
- React state batching, re-rendering and `useCallback` closures: the setters
  are synchronous pure updates applied in callback order.
- The scene, the detail panel contents and the planet data
  (src/components/SolarSystem.tsx, src/components/PlanetDetail.tsx,
  src/components/Experience.tsx, src/data/planets.ts): rendering and static
  content. Only the list length (9) is used.
