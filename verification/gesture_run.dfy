/**
 The recognizer over a stream of frames: `onResults` is called once per
 frame, in arrival order, and each call sees the memory the previous one
 left behind.
 */
module GestureRun {
  import opened Options
  import opened Gesture

  /** One call of `onResults`: the `Date.now()` it read and the hand, if any. */
  datatype Tick = Tick(now: int, frame: Option<HandFrame>)

  /** The result of every call, in order, starting from memory `s`. */
  function Trace(s: DetectorState, ticks: seq<Tick>): (tr: seq<StepResult>)
    ensures |tr| == |ticks|
    ensures |ticks| > 0 ==> tr[0] == Step(s, ticks[0].now, ticks[0].frame)
    decreases |ticks|
  {
    if |ticks| == 0 then []
    else
      var r := Step(s, ticks[0].now, ticks[0].frame);
      [r] + Trace(r.state, ticks[1..])
  }

  /** A non-empty stream is its first step followed by the rest of the
      stream from the memory that step left. */
  lemma TraceCons(s: DetectorState, ticks: seq<Tick>)
    requires |ticks| > 0
    ensures var r := Step(s, ticks[0].now, ticks[0].frame);
            Trace(s, ticks) == [r] + Trace(r.state, ticks[1..])
  {
  }

  /** Frame `i` of a stream is processed from the memory frame `i - 1` left
      behind. */
  lemma {:induction false} TraceStep(s: DetectorState, ticks: seq<Tick>, i: int)
    requires 0 < i < |ticks|
    ensures var tr := Trace(s, ticks);
            tr[i] == Step(tr[i - 1].state, ticks[i].now, ticks[i].frame)
    decreases |ticks|
  {
    var r := Step(s, ticks[0].now, ticks[0].frame);
    var tr' := Trace(r.state, ticks[1..]);
    assert Trace(s, ticks) == [r] + tr';
    if i > 1 {
      TraceStep(r.state, ticks[1..], i - 1);
    }
  }

  /** The memory after the whole stream. */
  function FinalState(s: DetectorState, ticks: seq<Tick>): DetectorState {
    var tr := Trace(s, ticks);
    if |tr| == 0 then s else tr[|tr| - 1].state
  }

  /** Every callback fired over the stream, in firing order. */
  function Emitted(tr: seq<StepResult>): (evs: seq<Event>)
    ensures |tr| > 0 ==> |tr[0].events| <= |evs| && evs[..|tr[0].events|] == tr[0].events
    ensures (forall i :: 0 <= i < |tr| ==> tr[i].events == []) ==> evs == []
    decreases |tr|
  {
    if |tr| == 0 then [] else tr[0].events + Emitted(tr[1..])
  }

  /** The callbacks of a stream with one more frame are the earlier
      callbacks followed by that frame's. */
  lemma {:induction false} EmittedSnoc(tr: seq<StepResult>, r: StepResult)
    ensures Emitted(tr + [r]) == Emitted(tr) + r.events
    decreases |tr|
  {
    if |tr| == 0 {
      assert Emitted([r]) == r.events + Emitted([]);
    } else {
      assert (tr + [r])[1..] == tr[1..] + [r];
      EmittedSnoc(tr[1..], r);
    }
  }

  /** A stream in which no hand ever appears fires nothing. */
  lemma {:induction false} NoHandNoEvents(s: DetectorState, ticks: seq<Tick>)
    requires forall i :: 0 <= i < |ticks| ==> ticks[i].frame.None?
    ensures Emitted(Trace(s, ticks)) == []
    decreases |ticks|
  {
    if |ticks| > 0 {
      var r := Step(s, ticks[0].now, ticks[0].frame);
      TraceCons(s, ticks);
      assert forall i :: 0 <= i < |ticks[1..]| ==> ticks[1..][i] == ticks[i + 1];
      NoHandNoEvents(r.state, ticks[1..]);
      assert Emitted(Trace(s, ticks)) == r.events + Emitted(Trace(r.state, ticks[1..]));
    }
  }

  /** A prefix of a stream yields the prefix of its results. */
  lemma {:induction false} TracePrefix(s: DetectorState, ticks: seq<Tick>, k: int)
    requires 0 <= k <= |ticks|
    ensures Trace(s, ticks)[..k] == Trace(s, ticks[..k])
    decreases |ticks|
  {
    if k > 0 {
      var r := Step(s, ticks[0].now, ticks[0].frame);
      assert Trace(s, ticks) == [r] + Trace(r.state, ticks[1..]);
      assert ticks[..k][1..] == ticks[1..][..k - 1];
      assert Trace(s, ticks[..k]) == [r] + Trace(r.state, ticks[..k][1..]);
      TracePrefix(r.state, ticks[1..], k - 1);
    }
  }

  /** Appending a frame to a stream appends the step of that frame, taken
      from the memory the stream left. */
  lemma TraceSnoc(s: DetectorState, ticks: seq<Tick>, t: Tick)
    ensures Trace(s, ticks + [t])
         == Trace(s, ticks) + [Step(FinalState(s, ticks), t.now, t.frame)]
  {
    var all := ticks + [t];
    var tr := Trace(s, all);
    TracePrefix(s, all, |ticks|);
    assert all[..|ticks|] == ticks;
    if |ticks| > 0 {
      TraceStep(s, all, |ticks|);
    }
    assert tr == tr[..|ticks|] + [tr[|ticks|]];
  }

  predicate Swiped(r: StepResult) {
    !NoSwipe(r.events)
  }

  /** Every swipe of a stream comes after the cooldown the stream started
      with, and any two swipes are more than 500 ms apart, later one after
      earlier one. No ordering of the timestamps is assumed. */
  lemma {:induction false} SwipesSpaced(s: DetectorState, ticks: seq<Tick>)
    ensures var tr := Trace(s, ticks);
            forall i :: 0 <= i < |tr| && Swiped(tr[i]) ==> ticks[i].now > s.swipeCooldown
    ensures var tr := Trace(s, ticks);
            forall i, j :: 0 <= i < j < |tr| && Swiped(tr[i]) && Swiped(tr[j]) ==>
              ticks[j].now > ticks[i].now + SwipeCooldownMs
    decreases |ticks|
  {
    if |ticks| > 0 {
      var tr := Trace(s, ticks);
      var r := tr[0];
      var rest := ticks[1..];
      var tr' := Trace(r.state, rest);
      assert tr == [r] + tr';
      SwipesSpaced(r.state, rest);
      assert forall i :: 0 < i < |tr| ==> tr[i] == tr'[i - 1] && ticks[i] == rest[i - 1];
      if Swiped(r) {
        assert r.state.swipeCooldown == ticks[0].now + SwipeCooldownMs;
      }
    }
  }

  /** From a memory without baselines (as at mount), the first frame fires
      nothing; after an absence the first hand frame fires nothing, wherever
      it falls in the stream. */
  lemma FirstFrameAfterGapQuiet(s: DetectorState, ticks: seq<Tick>)
    requires s.lastPinchDist.None? && s.lastCenterX.None?
    ensures var tr := Trace(s, ticks);
            && (|tr| > 0 ==> tr[0].events == [])
            && forall i :: 0 < i < |tr| && ticks[i - 1].frame.None? ==> tr[i].events == []
  {
    var tr := Trace(s, ticks);
    forall i | 0 < i < |tr| && ticks[i - 1].frame.None?
      ensures tr[i].events == []
    {
      TraceStep(s, ticks, i);
      if i > 1 {
        TraceStep(s, ticks, i - 1);
      }
    }
  }
}
