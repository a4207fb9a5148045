/**
 The per-frame gesture recognizer of the hand tracker component
 (src/components/HandTracker.tsx, `onResults`).

 Each call receives the current time and zero or one hand observation. The
 recognizer compares the thumb/index pinch distance and the x-coordinate of
 the pinch centre with the values recorded on the previous hand frame and
 emits zoom deltas and swipe commands. The React refs and the gesture-mode
 state become the immutable `DetectorState`; the three callbacks become the
 ordered list of `Event`s a step returns.
 */
module Gesture {
  import opened Options

  /** Minimum pinch-distance change that counts as zooming (strict). */
  const JitterFloor: real := 0.002
  /** Factor applied to the raw pinch-distance change. */
  const ZoomSensitivity: real := 3.0
  /** Minimum pinch-centre x change that counts as a swipe (strict). */
  const SwipeThreshold: real := 0.08
  /** Milliseconds during which a further swipe is suppressed. */
  const SwipeCooldownMs: int := 500

  /** The on-screen feedback mode: 'NONE', 'ZOOM' or 'SWIPE'. */
  datatype Mode = Idle | Zoom | Swipe

  /** What a frame hands to the command consumer: `onSwipeLeft`,
      `onSwipeRight` or `onZoomDelta(delta)`. */
  datatype Event = SwipeLeft | SwipeRight | ZoomDelta(delta: real)
  {
    predicate IsSwipe() { SwipeLeft? || SwipeRight? }
  }

  /** One detected hand. The pinch distance is the planar distance between the
      thumb tip and the index tip, supplied already computed; the two tip
      x-coordinates give the pinch centre. */
  datatype HandFrame = HandFrame(pinchDistance: real, thumbX: real, indexX: real)
  {
    /** Horizontal midpoint of the thumb tip and the index tip. */
    function CenterX(): (x: real)
      ensures thumbX <= indexX ==> thumbX <= x <= indexX
      ensures indexX <= thumbX ==> indexX <= x <= thumbX
      ensures x - thumbX == indexX - x
    {
      (thumbX + indexX) / 2.0
    }
  }

  /** The recognizer's memory between frames. `lastCenterX` is the ref the
      component calls `lastWristXRef`; it holds the pinch centre. */
  datatype DetectorState = DetectorState(
    lastPinchDist: Option<real>,
    lastCenterX: Option<real>,
    swipeCooldown: int,
    mode: Mode)

  /** The new memory and the callbacks fired, in firing order. */
  datatype StepResult = StepResult(state: DetectorState, events: seq<Event>)

  /** State when the component mounts: no baselines, cooldown 0, mode 'NONE'. */
  const Initial: DetectorState := DetectorState(None, None, 0, Idle)

  /** Both baselines are recorded or both are cleared. */
  predicate BaselinesPaired(s: DetectorState) {
    s.lastPinchDist.Some? <==> s.lastCenterX.Some?
  }

  function Abs(x: real): (r: real)
    ensures r >= 0.0
    ensures r == x || r == -x
  {
    if x < 0.0 then -x else x
  }

  predicate NoZoom(evs: seq<Event>) {
    forall i :: 0 <= i < |evs| ==> !evs[i].ZoomDelta?
  }

  predicate NoSwipe(evs: seq<Event>) {
    forall i :: 0 <= i < |evs| ==> !evs[i].IsSwipe()
  }

  /** The callbacks one frame can fire: nothing, a zoom, a swipe, or a zoom
      followed by a swipe. */
  predicate FrameShape(evs: seq<Event>) {
    && |evs| <= 2
    && (forall i :: 0 <= i < |evs| && evs[i].ZoomDelta? ==> i == 0)
    && (forall i :: 0 <= i < |evs| && evs[i].IsSwipe() ==> i == |evs| - 1)
    && (|evs| == 2 ==> evs[0].ZoomDelta? && evs[1].IsSwipe())
  }

  /** The zoom delta the pinch branch passes to `onZoomDelta`, if any. */
  function ZoomOutput(last: Option<real>, dist: real): (z: Option<real>)
    ensures z.Some? ==> last.Some? && Abs(z.value) > JitterFloor * ZoomSensitivity
  {
    match last
    case None => None
    case Some(prev) =>
      var delta := dist - prev;
      if Abs(delta) > JitterFloor then Some(delta * ZoomSensitivity) else None
  }

  /** The swipe the pinch-centre branch fires, if any: a rightward move in
      the image fires `SwipeLeft`, a leftward one `SwipeRight`. */
  function SwipeOutput(last: Option<real>, x: real, now: int, cooldown: int): (e: Option<Event>)
    ensures e.Some? ==> e.value.IsSwipe() && last.Some? && now > cooldown
    ensures e.Some? ==> Abs(x - last.value) > SwipeThreshold
  {
    match last
    case None => None
    case Some(prev) =>
      var deltaX := x - prev;
      if now > cooldown then
        if deltaX > SwipeThreshold then Some(SwipeLeft)
        else if deltaX < -SwipeThreshold then Some(SwipeRight)
        else None
      else None
  }

  /** One call of `onResults` at time `now` (milliseconds). */
  function Step(s: DetectorState, now: int, frame: Option<HandFrame>): (r: StepResult)
    ensures FrameShape(r.events)
    ensures BaselinesPaired(r.state)
    ensures r.state.lastPinchDist.Some? <==> frame.Some?
    ensures r.state.mode == Idle <==> (frame.None? || (s.mode == Idle && r.events == []))
    ensures r.state.swipeCooldown >= s.swipeCooldown
    ensures r.state.swipeCooldown != s.swipeCooldown <==> !NoSwipe(r.events)
    ensures !NoSwipe(r.events) ==> now > s.swipeCooldown && r.state.swipeCooldown == now + SwipeCooldownMs
  {
    match frame
    case None =>
      StepResult(s.(lastPinchDist := None, lastCenterX := None, mode := Idle), [])
    case Some(f) =>
      var x := f.CenterX();
      var zoom := ZoomOutput(s.lastPinchDist, f.pinchDistance);
      var swipe := SwipeOutput(s.lastCenterX, x, now, s.swipeCooldown);
      var zoomEvents := if zoom.Some? then [ZoomDelta(zoom.value)] else [];
      var swipeEvents := if swipe.Some? then [swipe.value] else [];
      // setGestureMode runs in the zoom branch first, then in the swipe branch
      var mode := if swipe.Some? then Swipe else if zoom.Some? then Zoom else s.mode;
      var cooldown := if swipe.Some? then now + SwipeCooldownMs else s.swipeCooldown;
      var events := zoomEvents + swipeEvents;
      assert swipe.Some? ==> events[|zoomEvents|].IsSwipe();
      StepResult(DetectorState(Some(f.pinchDistance), Some(x), cooldown, mode), events)
  }
}
