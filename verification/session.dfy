/**
 The recognizer wired to the page, as the page component mounts it: every
 frame goes through `onResults`, and the callbacks it fires are applied to
 the page state in firing order.
 */
module Session {
  import opened Options
  import opened Gesture
  import opened GestureRun
  import opened App

  /** The page state after a stream of frames, from mount. Until a hand
      appears the page stays as it was mounted. */
  function Navigate(ticks: seq<Tick>): (v: View)
    ensures (forall i :: 0 <= i < |ticks| ==> ticks[i].frame.None?) ==> v == App.Initial
  {
    QuietStreamEmitsNothing(ticks);
    ApplyAll(App.Initial, Emitted(Trace(Gesture.Initial, ticks)), PlanetCount)
  }

  /** From mount, a stream in which no hand ever appears fires no callback. */
  lemma QuietStreamEmitsNothing(ticks: seq<Tick>)
    ensures (forall i :: 0 <= i < |ticks| ==> ticks[i].frame.None?) ==>
            Emitted(Trace(Gesture.Initial, ticks)) == []
  {
    if forall i :: 0 <= i < |ticks| ==> ticks[i].frame.None? {
      NoHandNoEvents(Gesture.Initial, ticks);
    }
  }

  /** One more frame runs its callbacks, in order, on the page state the
      earlier frames left; the frame is stepped from the memory they left. */
  lemma NavigateSnoc(ticks: seq<Tick>, t: Tick)
    ensures Navigate(ticks + [t])
         == ApplyAll(Navigate(ticks), Trace(Gesture.Initial, ticks + [t])[|ticks|].events, PlanetCount)
    ensures Trace(Gesture.Initial, ticks + [t])[|ticks|]
         == Step(FinalState(Gesture.Initial, ticks), t.now, t.frame)
  {
    var tr := Trace(Gesture.Initial, ticks);
    var r := Step(FinalState(Gesture.Initial, ticks), t.now, t.frame);
    TraceSnoc(Gesture.Initial, ticks, t);
    EmittedSnoc(tr, r);
    ApplyAllConcat(App.Initial, Emitted(tr), r.events, PlanetCount);
  }

  /** Three hand frames 100 ms apart with pinch distances 0.1, 0.6, 0.4 and
      a still pinch centre at 0.5. */
  const ClampTicks: seq<Tick> :=
    [Tick(0, Some(HandFrame(0.1, 0.5, 0.5))),
     Tick(100, Some(HandFrame(0.6, 0.5, 0.5))),
     Tick(200, Some(HandFrame(0.4, 0.5, 0.5)))]

  const ClampResults: seq<StepResult> :=
    [StepResult(DetectorState(Some(0.1), Some(0.5), 0, Idle), []),
     StepResult(DetectorState(Some(0.6), Some(0.5), 0, Zoom), [ZoomDelta(1.5)]),
     StepResult(DetectorState(Some(0.4), Some(0.5), 0, Zoom), [ZoomDelta(-0.6)])]

  /** The second frame zooms by 1.5, the third by -0.6; the centre never
      moves, so nothing swipes. */
  lemma ClampTrace()
    ensures Trace(Gesture.Initial, ClampTicks) == ClampResults
  {
    var ticks, r := ClampTicks, ClampResults;
    assert ZoomOutput(Some(0.1), 0.6) == Some(1.5);
    assert ZoomOutput(Some(0.6), 0.4) == Some(-0.6);
    assert Step(r[1].state, 200, ticks[2].frame) == r[2];
    assert Step(r[0].state, 100, ticks[1].frame) == r[1];
    TraceCons(r[1].state, ticks[2..]);
    assert Trace(r[1].state, ticks[2..]) == r[2..];
    TraceCons(r[0].state, ticks[1..]);
    assert ticks[1..][1..] == ticks[2..];
    assert Trace(r[0].state, ticks[1..]) == r[1..];
    TraceCons(Gesture.Initial, ticks);
  }

  lemma ClampEmitted()
    ensures Emitted(ClampResults) == [ZoomDelta(1.5), ZoomDelta(-0.6)]
  {
    var tr := ClampResults;
    assert Emitted(tr[2..]) == [ZoomDelta(-0.6)];
    assert Emitted(tr[1..]) == [ZoomDelta(1.5), ZoomDelta(-0.6)];
  }

  /** Each zoom callback is clamped as it arrives: the zooms of 1.5 and then
      -0.6 saturate at 1 and then come back to 0.4 (clamping the sum instead
      would give 0.9). */
  lemma ClampPerCallback()
    ensures Navigate(ClampTicks) == View(2, 0.4)
  {
    ClampTrace();
    ClampEmitted();
    var evs := [ZoomDelta(1.5), ZoomDelta(-0.6)];
    assert ApplyAll(App.Initial, evs, PlanetCount) == View(2, 0.4) by {
      assert evs[1..] == [ZoomDelta(-0.6)];
      assert ApplyAll(View(2, 0.4), [], PlanetCount) == View(2, 0.4);
    }
  }

  /** Whatever the frames, the selected index stays a valid planet and the
      zoom level stays in [0, 1]. */
  lemma NavigateInRange(ticks: seq<Tick>)
    ensures InRange(Navigate(ticks), PlanetCount)
  {
    InitialInRange(PlanetCount);
    ApplyAllInRange(App.Initial, Emitted(Trace(Gesture.Initial, ticks)), PlanetCount);
  }

  /** A hand moving its pinch centre right by more than 0.08 in the image,
      past the cooldown and with a recorded centre, selects the next planet;
      moving it left by more than 0.08 selects the previous one. Any zoom
      fired by the same frame leaves the selection alone. */
  lemma CentreMoveSelectsPlanet(s: DetectorState, now: int, f: HandFrame, prev: real, v: View)
    requires s.lastCenterX == Some(prev) && now > s.swipeCooldown
    requires 0 <= v.planetIndex < PlanetCount
    ensures var w := ApplyAll(v, Step(s, now, Some(f)).events, PlanetCount);
            && (f.CenterX() - prev > SwipeThreshold ==>
                  w.planetIndex == (v.planetIndex + 1) % PlanetCount)
            && (f.CenterX() - prev < -SwipeThreshold ==>
                  w.planetIndex == (v.planetIndex - 1 + PlanetCount) % PlanetCount)
            && (Abs(f.CenterX() - prev) <= SwipeThreshold ==> w.planetIndex == v.planetIndex)
  {
    var evs := Step(s, now, Some(f)).events;
    var n := PlanetCount;
    if |evs| == 2 {
      var v1 := Apply(v, evs[0], n);
      assert ApplyAll(v, evs, n) == ApplyAll(v1, evs[1..], n);
      assert evs[1..] == [evs[1]];
      assert ApplyAll(v1, [evs[1]], n) == Apply(v1, evs[1], n);
    } else if |evs| == 1 {
      assert ApplyAll(v, evs, n) == ApplyAll(Apply(v, evs[0], n), [], n);
    }
  }

  /** Frames: none, then pinch distance / centre 0.05 / 0.40, 0.07 / 0.52,
      0.071 / 0.60, then none, 100 ms apart from t = 0. */
  const ScenarioTicks: seq<Tick> :=
    [Tick(0, None), Tick(100, Some(HandFrame(0.05, 0.40, 0.40))),
     Tick(200, Some(HandFrame(0.07, 0.52, 0.52))),
     Tick(300, Some(HandFrame(0.071, 0.60, 0.60))), Tick(400, None)]

  /** The recognizer's memory after each scenario frame. */
  const ScenarioStates: seq<DetectorState> :=
    [DetectorState(None, None, 0, Idle),
     DetectorState(Some(0.05), Some(0.40), 0, Idle),
     DetectorState(Some(0.07), Some(0.52), 700, Swipe),
     DetectorState(Some(0.071), Some(0.60), 700, Swipe),
     DetectorState(None, None, 700, Idle)]

  /** The second hand frame moves the distance by 0.02 and the centre by
      0.12, so it zooms by 0.06 and swipes left; the third moves them by
      0.001 and exactly 0.08, and fires nothing: the distance change is
      under the jitter floor, and at t = 300 the swipe cooldown (700) has
      not expired, so no centre move could swipe. */
  lemma ScenarioSteps()
    ensures Step(Gesture.Initial, 0, None) == StepResult(ScenarioStates[0], [])
    ensures Step(ScenarioStates[0], 100, ScenarioTicks[1].frame) == StepResult(ScenarioStates[1], [])
    ensures Step(ScenarioStates[1], 200, ScenarioTicks[2].frame)
         == StepResult(ScenarioStates[2], [ZoomDelta(0.06), SwipeLeft])
    ensures Step(ScenarioStates[2], 300, ScenarioTicks[3].frame) == StepResult(ScenarioStates[3], [])
    ensures Step(ScenarioStates[3], 400, None) == StepResult(ScenarioStates[4], [])
  {
    assert ZoomOutput(Some(0.05), 0.07) == Some(0.06);
    assert SwipeOutput(Some(0.40), 0.52, 200, 0) == Some(SwipeLeft);
  }

  /** The per-frame results of the scenario. */
  const ScenarioResults: seq<StepResult> :=
    [StepResult(ScenarioStates[0], []), StepResult(ScenarioStates[1], []),
     StepResult(ScenarioStates[2], [ZoomDelta(0.06), SwipeLeft]),
     StepResult(ScenarioStates[3], []), StepResult(ScenarioStates[4], [])]

  lemma ScenarioTraceTail()
    ensures Trace(ScenarioStates[2], ScenarioTicks[3..]) == ScenarioResults[3..]
  {
    ScenarioSteps();
    var ticks, st, r := ScenarioTicks, ScenarioStates, ScenarioResults;
    TraceCons(st[3], ticks[4..]);
    assert Trace(st[3], ticks[4..]) == r[4..];
    TraceCons(st[2], ticks[3..]);
    assert ticks[3..][1..] == ticks[4..];
  }

  lemma ScenarioTrace()
    ensures Trace(Gesture.Initial, ScenarioTicks) == ScenarioResults
  {
    ScenarioSteps();
    ScenarioTraceTail();
    var ticks, st, r := ScenarioTicks, ScenarioStates, ScenarioResults;
    TraceCons(st[1], ticks[2..]);
    assert ticks[2..][1..] == ticks[3..];
    assert Trace(st[1], ticks[2..]) == r[2..];
    TraceCons(st[0], ticks[1..]);
    assert ticks[1..][1..] == ticks[2..];
    assert Trace(st[0], ticks[1..]) == r[1..];
    TraceCons(Gesture.Initial, ticks);
  }

  /** The callbacks of the five scenario results, collected frame by frame. */
  lemma ScenarioEmitted()
    ensures Emitted(ScenarioResults) == [ZoomDelta(0.06), SwipeLeft]
  {
    var tr := ScenarioResults;
    assert Emitted(tr[4..]) == [];
    assert Emitted(tr[3..]) == [];
    assert Emitted(tr[2..]) == [ZoomDelta(0.06), SwipeLeft];
    assert Emitted(tr[1..]) == [ZoomDelta(0.06), SwipeLeft];
  }

  /** The scenario fires exactly a 0.06 zoom and then a left swipe, ends in
      'NONE' with the cooldown at 700 ms, and leaves Mars (index 3)
      selected at zoom 0.06. */
  lemma EndToEndScenario()
    ensures Emitted(Trace(Gesture.Initial, ScenarioTicks)) == [ZoomDelta(0.06), SwipeLeft]
    ensures FinalState(Gesture.Initial, ScenarioTicks) == DetectorState(None, None, 700, Idle)
    ensures Navigate(ScenarioTicks) == View(3, 0.06)
  {
    ScenarioTrace();
    ScenarioEmitted();
    var evs := [ZoomDelta(0.06), SwipeLeft];
    assert evs[1..] == [SwipeLeft];
    assert ApplyAll(View(3, 0.06), [], PlanetCount) == View(3, 0.06);
    assert ApplyAll(App.Initial, evs, PlanetCount) == View(3, 0.06);
  }
}
