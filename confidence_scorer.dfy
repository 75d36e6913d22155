/** The confidence score of a validated candidate
    (utils/vision_processing/confidence_scorer.py): a shape score blended with
    how densely the mask fills the candidate's bounding box. Reals are exact
    here; floating-point rounding is not modelled. */
module ConfidenceScorer {
  import opened Geometry
  import FeatureValidator

  function Max(a: real, b: real): real { if a >= b then a else b }
  function Abs(a: real): real { if a >= 0.0 then a else -a }

  /** `w / h if h != 0 else 0` */
  function AspectRatio(w: nat, h: nat): (r: real)
    ensures r >= 0.0
    ensures h > 0 ==> r * h as real == w as real
  {
    if h != 0 then w as real / h as real else 0.0
  }

  /** max(0, 1 - |1 - w/h|) for a Square, 1.0 or 0.5 for a Triangle with
      or without exactly 3 vertices, 0.3 for any other shape name. */
  function ShapeScore(c: Contour, shape: string): (s: real)
    ensures 0.0 <= s <= 1.0
  {
    if shape == Square then Max(0.0, 1.0 - Abs(1.0 - AspectRatio(c.w, c.h)))
    else if shape == Triangle then (if c.vertices == 3 then 1.0 else 0.5)
    else 0.3
  }

  /** Set pixels in the w-by-h crop over `w * h + 1`. */
  function Density(c: Contour): (d: real)
    ensures 0.0 <= d
    ensures WellFormed(c) ==> d < 1.0
  {
    var d := c.onPixels as real / (c.w * c.h + 1) as real;
    assert WellFormed(c) ==> d < 1.0 by {
      FeatureValidator.DivLess(c.onPixels as real, (c.w * c.h + 1) as real, 1.0);
    }
    d
  }

  /** `compute_confidence(cnt, approx, hsv_mask, shape)`: 0 below the area
      floor, otherwise 0.6 * shape score + 0.4 * density; it never reaches 1. */
  function ComputeConfidence(c: Contour, shape: string): (r: real)
    ensures c.area < 1000.0 ==> r == 0.0
    ensures WellFormed(c) ==> 0.0 <= r < 1.0
  {
    if c.area < 1000.0 then 0.0
    else 0.6 * ShapeScore(c, shape) + 0.4 * Density(c)
  }

  /** A Square's shape score peaks at 1 exactly when the box is square. */
  lemma SquareScorePeak(c: Contour)
    requires c.h > 0
    ensures ShapeScore(c, Square) == 1.0 <==> c.w == c.h
  {
    FeatureValidator.DivLess(c.w as real, c.h as real, 1.0);
  }

  /** With a zero height the aspect ratio is taken as 0, so a Square scores 0. */
  lemma ZeroHeightSquare(c: Contour)
    requires c.h == 0
    ensures ShapeScore(c, Square) == 0.0
  {
  }

  /** More set pixels in the box never lower the score. */
  lemma ConfidenceMonotone(c: Contour, more: nat, shape: string)
    requires c.onPixels <= more
    ensures ComputeConfidence(c, shape) <= ComputeConfidence(c.(onPixels := more), shape)
  {
    var d := (c.w * c.h + 1) as real;
    FeatureValidator.DivLess(c.onPixels as real, d, more as real / d);
    assert Density(c) <= Density(c.(onPixels := more));
  }
}
