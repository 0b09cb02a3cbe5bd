/**
 * The timing of a zoom animation (src/visualization/mod.rs): the quadratic
 * ease-in-out curve, the progress of an animation from the elapsed time, and
 * one step of the zoom factor towards its target.
 */
module Animation {
  import opened RealArith

  /** `animation_duration`, in seconds. */
  const AnimationDuration: real := 0.3

  /** `ease_in_out_quad`. */
  function Ease(t: real): real {
    if t < 0.5 then 2.0 * t * t
    else 1.0 - (-2.0 * t + 2.0) * (-2.0 * t + 2.0) / 2.0
  }

  /** The values the unit test of the easing function checks. */
  lemma EaseExamples()
    ensures Ease(0.0) == 0.0 && Ease(0.5) == 0.5 && Ease(1.0) == 1.0
    ensures Ease(0.25) == 0.125 < 0.25
    ensures Ease(0.75) == 0.875 > 0.75
  {
  }

  /** The curve maps the unit interval onto itself. */
  lemma EaseInUnit(t: real)
    requires 0.0 <= t <= 1.0
    ensures 0.0 <= Ease(t) <= 1.0
  {
    if t >= 0.5 {
      var d := -2.0 * t + 2.0;
      ScaleBetween(d, d);
    } else {
      MulNonneg(t, t);
      MulMono(t, 0.5, t);
    }
  }

  /** The curve is point-symmetric about (0.5, 0.5). */
  lemma EaseSymmetric(t: real)
    ensures Ease(1.0 - t) == 1.0 - Ease(t)
  {
  }

  /** The curve never decreases on the unit interval. */
  lemma EaseMonotonic(s: real, t: real)
    requires 0.0 <= s <= t <= 1.0
    ensures Ease(s) <= Ease(t)
  {
    if t < 0.5 {
      EaseMonotonicLow(s, t);
    } else if s >= 0.5 {
      EaseMonotonicHigh(s, t);
    } else {
      EaseMonotonicAcross(s, t);
    }
  }

  /** Below the branch point the curve is 2t², which grows with t. */
  lemma EaseMonotonicLow(s: real, t: real)
    requires 0.0 <= s <= t < 0.5
    ensures Ease(s) <= Ease(t)
  {
    MulMono(s, t, s);
    MulMono(s, t, t);
    assert s * s <= t * t;
    assert Ease(s) == 2.0 * (s * s) && Ease(t) == 2.0 * (t * t);
  }

  /** From the branch point on the curve is 1 - (2 - 2t)²/2, which grows with t. */
  lemma EaseMonotonicHigh(s: real, t: real)
    requires 0.5 <= s <= t <= 1.0
    ensures Ease(s) <= Ease(t)
  {
    var ds, dt := -2.0 * s + 2.0, -2.0 * t + 2.0;
    assert 0.0 <= dt <= ds;
    MulMono(dt, ds, dt);
    MulMono(dt, ds, ds);
    assert dt * dt <= ds * ds;
    assert Ease(s) == 1.0 - (ds * ds) / 2.0 && Ease(t) == 1.0 - (dt * dt) / 2.0;
  }

  /** Across the branch point the lower value is at most 0.5 and the upper one at least 0.5. */
  lemma EaseMonotonicAcross(s: real, t: real)
    requires 0.0 <= s < 0.5 <= t <= 1.0
    ensures Ease(s) <= Ease(t)
  {
    MulMono(s, 0.5, s);
    MulMono(s, 0.5, 0.5);
    assert s * s <= 0.25;
    assert Ease(s) == 2.0 * (s * s);
    var dt := -2.0 * t + 2.0;
    ScaleBetween(dt, dt);
    assert dt * dt <= 1.0;
    assert Ease(t) == 1.0 - (dt * dt) / 2.0;
  }

  function MinReal(a: real, b: real): real { if a <= b then a else b }

  /** The progress of `update_animation` as written: capped at 1 from above only. */
  function RawProgress(elapsed: real): real {
    MinReal(elapsed / AnimationDuration, 1.0)
  }

  /** The progress an animation has made after `elapsed` seconds, kept within [0, 1]. */
  function Progress(elapsed: real): (p: real)
    ensures 0.0 <= p <= 1.0
    ensures p == 1.0 <==> elapsed >= AnimationDuration
    ensures 0.0 <= elapsed <= AnimationDuration ==> p * AnimationDuration == elapsed
  {
    if elapsed <= 0.0 then 0.0 else MinReal(elapsed / AnimationDuration, 1.0)
  }

  /** The zoom factor after one tick moves a fraction `e` of the way to the target. */
  function ZoomStep(zoom: real, target: real, e: real): real {
    zoom + (target - zoom) * e
  }

  /** For a fraction in [0, 1] the step lands between the current zoom and the target. */
  lemma ZoomStepBetween(zoom: real, target: real, e: real)
    requires 0.0 <= e <= 1.0
    ensures zoom <= target ==> zoom <= ZoomStep(zoom, target, e) <= target
    ensures target <= zoom ==> target <= ZoomStep(zoom, target, e) <= zoom
  {
    var d := target - zoom;
    var p := d * e;
    assert ZoomStep(zoom, target, e) == zoom + p;
    ScaleBetween(d, e);
  }

  /** With the corrected progress, every tick keeps the zoom between where it was and the target. */
  lemma TickStaysBetween(zoom: real, target: real, elapsed: real)
    ensures var z := ZoomStep(zoom, target, Ease(Progress(elapsed)));
      (zoom <= target ==> zoom <= z <= target) && (target <= zoom ==> target <= z <= zoom)
  {
    EaseInUnit(Progress(elapsed));
    ZoomStepBetween(zoom, target, Ease(Progress(elapsed)));
  }

  /**
   * As written, a time earlier than the start of the animation gives a
   * negative progress, whose ease exceeds 1: from 3.9 towards 4.0 the zoom
   * jumps to 4.7, past the target and out of the range [1, 4].
   */
  lemma RawProgressOvershoots()
    ensures RawProgress(-0.6) == -2.0
    ensures Ease(RawProgress(-0.6)) == 8.0
    ensures ZoomStep(3.9, 4.0, Ease(RawProgress(-0.6))) == 4.7
  {
  }

  /** Where time does not run backwards the two progress definitions agree. */
  lemma ProgressAgrees(elapsed: real)
    requires elapsed >= 0.0
    ensures Progress(elapsed) == RawProgress(elapsed)
  {
  }
}
