/** The geometric acceptance test applied to each shape candidate
    (utils/vision_processing/feature_validator.py). */
module FeatureValidator {
  import opened Geometry

  const AreaFloor: real := 1000.0
  const TriangleAreaFloor: real := 1500.0

  /** `validate_shape` computes `w / h` as soon as the area floor is cleared,
      so a candidate with height 0 and area at least 1000 raises
      ZeroDivisionError. Callers must not pass one. */
  predicate Divisible(c: Contour)
  {
    c.area < AreaFloor || c.h > 0
  }

  /** x / y < k exactly when x < k * y, for a positive divisor. */
  lemma DivLess(x: real, y: real, k: real)
    requires y > 0.0
    ensures x / y < k <==> x < k * y
    ensures x / y > k <==> x > k * y
  {
    var r := x / y;
    assert r * y == x;
    assert (k - r) * y == k * y - x;
    assert k - r > 0.0 ==> (k - r) * y > 0.0;
    assert k - r < 0.0 ==> (r - k) * y > 0.0;
    assert k - r == 0.0 ==> (k - r) * y == 0.0;
  }

  /** For a positive height, the float comparisons of the aspect ratio with
      0.8 and 1.2 are the integer comparisons 5w < 4h and 5w > 6h. */
  lemma AspectBand(w: nat, h: nat)
    requires h > 0
    ensures (w as real / h as real < 0.8) <==> 5 * w < 4 * h
    ensures (w as real / h as real > 1.2) <==> 5 * w > 6 * h
  {
    DivLess(w as real, h as real, 0.8);
    DivLess(w as real, h as real, 1.2);
  }

  /** `validate_shape(cnt, approx, shape_name)`: the area floor of 1000 for
      every shape, the aspect band [0.8, 1.2] (both ends included) for a
      Square, exactly 3 vertices and area at least 1500 for a Triangle; any
      other shape name is judged by the area floor alone. */
  function ValidateShape(c: Contour, shapeName: string): (ok: bool)
    requires Divisible(c)
    ensures ok <==>
              && c.area >= 1000.0
              && (shapeName == Square ==> 4 * c.h <= 5 * c.w <= 6 * c.h)
              && (shapeName == Triangle ==> c.vertices == 3 && c.area >= 1500.0)
  {
    if c.area < AreaFloor then false
    else
      AspectBand(c.w, c.h);
      var aspectRatio := c.w as real / c.h as real;
      if shapeName == Square && (aspectRatio < 0.8 || aspectRatio > 1.2) then false
      else if shapeName == Triangle && c.vertices != 3 then false
      else if shapeName == Triangle && c.area < TriangleAreaFloor then false
      else true
  }

  /** A triangle between the generic floor and the triangle floor is refused
      although it clears the generic one. */
  lemma SmallTriangleRejected(c: Contour)
    requires 1000.0 <= c.area < 1500.0 && c.h > 0
    ensures !ValidateShape(c, Triangle)
    ensures c.vertices == 3 ==> ValidateShape(c, "Circle")
  {
  }
}
