/**
 The command consumer of the page component (src/App.tsx): swipes step the
 selected planet through the list with wrap-around, zoom deltas move a zoom
 level clamped to [0, 1], and the detail panel shows above zoom 0.8.
 The React setters are taken as synchronous updates of a `View` value.
 */
module App {
  import opened Gesture

  /** The number of entries in the planet list (src/data/planets.ts). */
  const PlanetCount: int := 9

  /** The two pieces of page state the gestures drive. */
  datatype View = View(planetIndex: int, zoomLevel: real)

  /** Earth (index 2) selected, fully zoomed out. */
  const Initial: View := View(2, 0.0)

  /** JavaScript's `%` on integers: the remainder takes the sign of the
      dividend, unlike Dafny's Euclidean `%`. */
  function JsRem(a: int, n: int): (r: int)
    requires n > 0
    ensures -n < r < n
    ensures (a - r) % n == 0
    ensures a >= 0 ==> r == a % n
    ensures a <= 0 ==> r <= 0
  {
    if a >= 0 then
      ModUnique(a - a % n, n, a / n, 0);
      a % n
    else
      ModUnique(a + (-a) % n, n, -((-a) / n), 0);
      -((-a) % n)
  }

  /** `handleSwipeLeft`: the next planet, wrapping from the last to the first. */
  function NextIndex(i: int, n: int): (r: int)
    requires n > 0
    ensures 0 <= i < n ==> 0 <= r < n
    ensures 0 <= i < n - 1 ==> r == i + 1
    ensures i == n - 1 ==> r == 0
    ensures i >= -1 ==> r == (i + 1) % n
  {
    ModOfSmall(i + 1, n);
    ModOfSmall(0, n);
    JsRem(i + 1, n)
  }

  /** `handleSwipeRight`: the previous planet, wrapping from the first to the
      last. */
  function PrevIndex(i: int, n: int): (r: int)
    requires n > 0
    ensures 0 <= i < n ==> 0 <= r < n
    ensures 0 < i < n ==> r == i - 1
    ensures i == 0 ==> r == n - 1
    ensures i >= 1 - n ==> r == (i - 1 + n) % n
  {
    ModOfSmall(i - 1, n);
    ModOfSmall(n - 1, n);
    JsRem(i - 1 + n, n)
  }

  function Max(a: real, b: real): (r: real)
    ensures r >= a && r >= b && (r == a || r == b)
  {
    if a >= b then a else b
  }

  function Min(a: real, b: real): (r: real)
    ensures r <= a && r <= b && (r == a || r == b)
  {
    if a <= b then a else b
  }

  /** `handleZoomDelta`: add the delta and clamp into [0, 1]. */
  function ApplyZoom(z: real, delta: real): (r: real)
    ensures 0.0 <= r <= 1.0
    ensures 0.0 <= z + delta <= 1.0 ==> r == z + delta
    ensures z + delta < 0.0 ==> r == 0.0
    ensures z + delta > 1.0 ==> r == 1.0
  {
    Max(0.0, Min(1.0, z + delta))
  }

  /** Whether the planet detail panel (and the 'Detail View' label) is on
      screen. The threshold is strict: at exactly 0.8 the orbit view stays. */
  function ShowDetail(v: View): (shown: bool)
    ensures v.zoomLevel <= 0.8 ==> !shown
    ensures v.zoomLevel >= 1.0 ==> shown
  {
    v.zoomLevel > 0.8
  }

  /** The page state a view can reach: a valid list index and a zoom level
      in [0, 1]. */
  predicate InRange(v: View, n: int) {
    0 <= v.planetIndex < n && 0.0 <= v.zoomLevel <= 1.0
  }

  /** The handler the recognizer's callback invokes. */
  function Apply(v: View, e: Event, n: int): (w: View)
    requires n > 0
    ensures e.IsSwipe() ==> w.zoomLevel == v.zoomLevel
    ensures e.ZoomDelta? ==> w.planetIndex == v.planetIndex
    ensures 0 <= v.planetIndex < n ==> 0 <= w.planetIndex < n
    ensures e.ZoomDelta? ==> w.zoomLevel == ApplyZoom(v.zoomLevel, e.delta)
    ensures e == SwipeLeft && 0 <= v.planetIndex < n ==> w.planetIndex == (v.planetIndex + 1) % n
    ensures e == SwipeRight && 0 <= v.planetIndex < n ==> w.planetIndex == (v.planetIndex - 1 + n) % n
    ensures InRange(v, n) ==> InRange(w, n)
  {
    match e
    case SwipeLeft => v.(planetIndex := NextIndex(v.planetIndex, n))
    case SwipeRight => v.(planetIndex := PrevIndex(v.planetIndex, n))
    case ZoomDelta(d) => v.(zoomLevel := ApplyZoom(v.zoomLevel, d))
  }

  /** The handlers invoked in callback order. Swipes alone never move the
      zoom, zooms alone never move the selection. */
  function ApplyAll(v: View, evs: seq<Event>, n: int): (w: View)
    requires n > 0
    ensures |evs| == 0 ==> w == v
    ensures (forall i :: 0 <= i < |evs| ==> evs[i].IsSwipe()) ==> w.zoomLevel == v.zoomLevel
    ensures (forall i :: 0 <= i < |evs| ==> evs[i].ZoomDelta?) ==> w.planetIndex == v.planetIndex
    decreases |evs|
  {
    if |evs| == 0 then v else ApplyAll(Apply(v, evs[0], n), evs[1..], n)
  }

  /** Two batches of callbacks applied one after the other are the
      concatenated batch applied in order. */
  lemma {:induction false} ApplyAllConcat(v: View, a: seq<Event>, b: seq<Event>, n: int)
    requires n > 0
    ensures ApplyAll(v, a + b, n) == ApplyAll(ApplyAll(v, a, n), b, n)
    decreases |a|
  {
    if |a| == 0 {
      assert a + b == b;
    } else {
      assert (a + b)[1..] == a[1..] + b;
      ApplyAllConcat(Apply(v, a[0], n), a[1..], b, n);
    }
  }

  /** `k` left swipes in a row. */
  function NextIndexTimes(i: int, n: int, k: nat): int
    requires n > 0
    decreases k
  {
    if k == 0 then i else NextIndex(NextIndexTimes(i, n, k - 1), n)
  }

  /** The initial page state is in range whenever the list holds Earth. */
  lemma InitialInRange(n: int)
    requires n > 2
    ensures InRange(Initial, n)
    ensures Initial.planetIndex == 2 && Initial.zoomLevel == 0.0
    ensures !ShowDetail(Initial)
  {
  }

  /** A left swipe then a right swipe, or the reverse, returns to the same
      planet. */
  lemma NextPrevInverse(i: int, n: int)
    requires 0 <= i < n
    ensures PrevIndex(NextIndex(i, n), n) == i
    ensures NextIndex(PrevIndex(i, n), n) == i
  {
  }

  lemma MulAtLeast(k: int, n: int)
    requires k >= 1 && n > 0
    ensures k * n >= n
  {
  }

  /** Euclidean division has one remainder: `q * n + r` with `r` in [0, n)
      leaves remainder `r`. */
  lemma ModUnique(a: int, n: int, q: int, r: int)
    requires n > 0 && 0 <= r < n && a == q * n + r
    ensures a % n == r
  {
    var q0, r0 := a / n, a % n;
    assert (q - q0) * n == r0 - r;
    if q > q0 {
      MulAtLeast(q - q0, n);
      assert false;
    } else if q < q0 {
      MulAtLeast(q0 - q, n);
      assert false;
    }
  }

  /** Adding one list length to, or subtracting it from, an in-range index
      has no effect modulo the length. */
  lemma ModOfSmall(r: int, n: int)
    requires n > 0
    ensures 0 <= r < n ==> r % n == r && (r + n) % n == r
  {
    if 0 <= r < n {
      ModUnique(r, n, 0, r);
      ModUnique(r + n, n, 1, r);
    }
  }

  /** One more step of `a` modulo `n` is one more left swipe. */
  lemma ModSucc(a: int, n: int)
    requires a >= 0 && n > 0
    ensures NextIndex(a % n, n) == (a + 1) % n
  {
    var q, r := a / n, a % n;
    if r + 1 < n {
      ModUnique(a + 1, n, q, r + 1);
    } else {
      ModUnique(a + 1, n, q + 1, 0);
    }
  }

  /** `k` left swipes rotate an in-range index by `k` modulo the list length;
      in particular `n` of them come back to the start. */
  lemma {:induction false} NextIndexTimesRotates(i: int, n: int, k: nat)
    requires 0 <= i < n
    ensures NextIndexTimes(i, n, k) == (i + k) % n
    ensures k == n ==> NextIndexTimes(i, n, k) == i
    decreases k
  {
    if k > 0 {
      NextIndexTimesRotates(i, n, k - 1);
      ModSucc(i + k - 1, n);
    }
    if k == n {
      ModOfSmall(i, n);
    }
  }

  /** A zero delta keeps an in-range zoom level; a delta of at least 1
      saturates it. */
  lemma ZoomEdgeCases(z: real, d: real)
    requires 0.0 <= z <= 1.0
    ensures ApplyZoom(z, 0.0) == z
    ensures d >= 1.0 ==> ApplyZoom(z, d) == 1.0
  {
  }

  /** One more callback runs its handler on the state all earlier callbacks
      produced. */
  lemma ApplyAllSnoc(v: View, evs: seq<Event>, e: Event, n: int)
    requires n > 0
    ensures ApplyAll(v, evs + [e], n) == Apply(ApplyAll(v, evs, n), e, n)
  {
    ApplyAllConcat(v, evs, [e], n);
  }

  /** Zooming in never hides the panel, zooming out never shows it. */
  lemma ShowDetailMonotone(v: View, w: View)
    requires v.zoomLevel <= w.zoomLevel
    ensures ShowDetail(v) ==> ShowDetail(w)
    ensures !ShowDetail(w) ==> !ShowDetail(v)
  {
  }

  /** After a zoom of `d` the panel shows exactly when the unclamped sum
      exceeds 0.8; a swipe never changes whether it shows. */
  lemma DetailAfterEvent(v: View, e: Event, n: int)
    requires n > 0
    ensures e.ZoomDelta? ==> (ShowDetail(Apply(v, e, n)) <==> v.zoomLevel + e.delta > 0.8)
    ensures e.IsSwipe() ==> (ShowDetail(Apply(v, e, n)) <==> ShowDetail(v))
  {
  }

  /** Any sequence of callbacks keeps an in-range page state in range. */
  lemma {:induction false} ApplyAllInRange(v: View, evs: seq<Event>, n: int)
    requires n > 0
    requires InRange(v, n)
    ensures InRange(ApplyAll(v, evs, n), n)
    decreases |evs|
  {
    if |evs| > 0 {
      ApplyAllInRange(Apply(v, evs[0], n), evs[1..], n);
    }
  }
}
