/**
 * The part of egui's geometry the visualizer relies on: points, axis-aligned
 * rectangles given by two corners, inclusive hit-testing, and the linear
 * interpolation of rectangles drawn during a zoom animation
 * (src/visualization/mod.rs). Coordinates are reals; f32 rounding is not
 * modelled.
 */
module Geometry {
  import RealArith

  datatype Pos = Pos(x: real, y: real)

  /** A rectangle from its minimum corner to its maximum corner. */
  datatype Rect = Rect(min: Pos, max: Pos) {
    function Width(): real { max.x - min.x }

    function Height(): real { max.y - min.y }

    /** `Rect::contains`: inclusive on both edges of both axes. */
    predicate Contains(p: Pos) {
      min.x <= p.x <= max.x && min.y <= p.y <= max.y
    }
  }

  /** `Rect::from_min_size`. */
  function FromMinSize(min: Pos, width: real, height: real): (r: Rect)
    ensures r.min == min && r.Width() == width && r.Height() == height
  {
    Rect(min, Pos(min.x + width, min.y + height))
  }

  /** `a + t * (b - a)`, the interpolation used for each coordinate. */
  function Mix(a: real, b: real, t: real): real {
    a + (b - a) * t
  }

  /**
   * The rectangle drawn for a square while a zoom animates: each corner
   * coordinate moves linearly from the previous rectangle to the current one.
   */
  function LerpRect(prev: Rect, cur: Rect, t: real): Rect {
    Rect(Pos(Mix(prev.min.x, cur.min.x, t), Mix(prev.min.y, cur.min.y, t)),
         Pos(Mix(prev.max.x, cur.max.x, t), Mix(prev.max.y, cur.max.y, t)))
  }

  /** A value between `a` and `b`, in either order. */
  predicate Between(a: real, v: real, b: real) {
    (a <= v <= b) || (b <= v <= a)
  }

  lemma MixBetween(a: real, b: real, t: real)
    requires 0.0 <= t <= 1.0
    ensures Between(a, Mix(a, b, t), b)
  {
    var d := b - a;
    var p := d * t;
    assert Mix(a, b, t) == a + p;
    RealArith.ScaleBetween(d, t);
    if d >= 0.0 {
      assert a <= a + p <= b;
    } else {
      assert b <= a + p <= a;
    }
  }

  /** The interpolation starts at the previous rectangle, ends at the current one, and stays between them. */
  lemma LerpRectEnds(prev: Rect, cur: Rect, t: real)
    ensures LerpRect(prev, cur, 0.0) == prev
    ensures LerpRect(prev, cur, 1.0) == cur
    ensures 0.0 <= t <= 1.0 ==>
      var r := LerpRect(prev, cur, t);
      && Between(prev.min.x, r.min.x, cur.min.x) && Between(prev.min.y, r.min.y, cur.min.y)
      && Between(prev.max.x, r.max.x, cur.max.x) && Between(prev.max.y, r.max.y, cur.max.y)
  {
    if 0.0 <= t <= 1.0 {
      MixBetween(prev.min.x, cur.min.x, t);
      MixBetween(prev.min.y, cur.min.y, t);
      MixBetween(prev.max.x, cur.max.x, t);
      MixBetween(prev.max.y, cur.max.y, t);
    }
  }

  /** Interpolating a rectangle with itself leaves it where it is. */
  lemma LerpRectSame(r: Rect, t: real)
    ensures LerpRect(r, r, t) == r
  {
  }
}
