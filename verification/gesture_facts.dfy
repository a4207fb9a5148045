/**
 Properties of one recognizer step, each tied to the branch of `onResults`
 it comes from.
 */
module GestureFacts {
  import opened Options
  import opened Gesture

  /** A frame without a hand clears both baselines, shows 'NONE', fires
      nothing and leaves the swipe cooldown alone. */
  lemma NoHandResets(s: DetectorState, now: int)
    ensures Step(s, now, None).events == []
    ensures Step(s, now, None).state == DetectorState(None, None, s.swipeCooldown, Idle)
  {
  }

  /** The first hand frame after an absence fires nothing but records both
      baselines. */
  lemma FirstHandFrameOnlyRecords(s: DetectorState, now: int, f: HandFrame)
    requires s.lastPinchDist.None? && s.lastCenterX.None?
    ensures Step(s, now, Some(f)).events == []
    ensures Step(s, now, Some(f)).state
         == DetectorState(Some(f.pinchDistance), Some(f.CenterX()), s.swipeCooldown, s.mode)
  {
  }

  /** Whenever a hand is present both baselines become this frame's values,
      whether or not anything fired. */
  lemma BaselinesFollowHand(s: DetectorState, now: int, f: HandFrame)
    ensures Step(s, now, Some(f)).state.lastPinchDist == Some(f.pinchDistance)
    ensures Step(s, now, Some(f)).state.lastCenterX == Some(f.CenterX())
  {
  }

  /** With a recorded distance, a zoom fires exactly when the distance moved
      by more than the jitter floor, and it carries the raw change times the
      sensitivity, unclamped. */
  lemma ZoomIffAboveJitter(s: DetectorState, now: int, f: HandFrame, prev: real)
    requires s.lastPinchDist == Some(prev)
    ensures var evs := Step(s, now, Some(f)).events;
            var delta := f.pinchDistance - prev;
            && (ZoomDelta(delta * ZoomSensitivity) in evs <==> Abs(delta) > JitterFloor)
            && (Abs(delta) <= JitterFloor ==> NoZoom(evs))
            && (forall i :: 0 <= i < |evs| && evs[i].ZoomDelta? ==> evs[i].delta == delta * ZoomSensitivity)
  {
  }

  /** With a recorded centre and the cooldown expired, the sign of the centre
      movement alone picks the swipe; a movement within the threshold fires
      none. */
  lemma SwipeDirection(s: DetectorState, now: int, f: HandFrame, prev: real)
    requires s.lastCenterX == Some(prev)
    requires now > s.swipeCooldown
    ensures var evs := Step(s, now, Some(f)).events;
            var deltaX := f.CenterX() - prev;
            && (SwipeLeft in evs <==> deltaX > SwipeThreshold)
            && (SwipeRight in evs <==> deltaX < -SwipeThreshold)
            && !(SwipeLeft in evs && SwipeRight in evs)
            && (Abs(deltaX) <= SwipeThreshold ==> NoSwipe(evs))
  {
  }

  /** Up to and including the cooldown instant no swipe fires, however far
      the hand moved, and the cooldown stays where it was. */
  lemma NoSwipeDuringCooldown(s: DetectorState, now: int, f: HandFrame)
    requires now <= s.swipeCooldown
    ensures NoSwipe(Step(s, now, Some(f)).events)
    ensures Step(s, now, Some(f)).state.swipeCooldown == s.swipeCooldown
  {
  }

  /** A swipe at time `now` moves the cooldown to `now + 500`; nothing else
      moves it. These are the cooldown clauses of `Step`'s own contract,
      restated here as a named fact about one frame. */
  lemma CooldownMovesOnlyOnSwipe(s: DetectorState, now: int, frame: Option<HandFrame>)
    ensures var r := Step(s, now, frame);
            && (NoSwipe(r.events) ==> r.state.swipeCooldown == s.swipeCooldown)
            && (!NoSwipe(r.events) ==> r.state.swipeCooldown == now + SwipeCooldownMs)
  {
  }

  /** With a hand present the mode names the last detector that fired in this
      frame (the swipe branch runs after the zoom branch) and is otherwise
      kept, even when that is not 'NONE'. */
  lemma ModeFollowsLastDetector(s: DetectorState, now: int, f: HandFrame)
    ensures var r := Step(s, now, Some(f));
            && (!NoSwipe(r.events) ==> r.state.mode == Swipe)
            && (NoSwipe(r.events) && !NoZoom(r.events) ==> r.state.mode == Zoom)
            && (r.events == [] ==> r.state.mode == s.mode)
  {
  }

  /** A frame that both zooms and swipes fires the zoom first and ends in
      'SWIPE'. */
  lemma ZoomAndSwipeInOneFrame(s: DetectorState, now: int, f: HandFrame)
    requires |Step(s, now, Some(f)).events| == 2
    ensures Step(s, now, Some(f)).events[0].ZoomDelta?
    ensures Step(s, now, Some(f)).events[1].IsSwipe()
    ensures Step(s, now, Some(f)).state.mode == Swipe
  {
  }

  /** Distances 0.05 then 0.06 zoom by 0.03; 0.05 then 0.0505 fire nothing
      but move the baseline to 0.0505. A pinch-centre move from 0.5 to 0.6
      outside any cooldown is one `SwipeLeft`. */
  lemma StepExamples()
    ensures var s := DetectorState(Some(0.05), Some(0.5), 0, Idle);
            && Step(s, 100, Some(HandFrame(0.06, 0.5, 0.5))).events == [ZoomDelta(0.03)]
            && Step(s, 100, Some(HandFrame(0.0505, 0.5, 0.5))).events == []
            && Step(s, 100, Some(HandFrame(0.0505, 0.5, 0.5))).state.lastPinchDist == Some(0.0505)
            && Step(s, 100, Some(HandFrame(0.05, 0.6, 0.6))).events == [SwipeLeft]
  {
  }
}
