/** `detect_valid_contours` of core/object_detector.py: keep, in order, the
    contours of a mask whose area reaches the threshold (3000 by default) and
    whose polygon approximation is a convex quadrilateral. `findContours`
    and the approximation are OpenCV's; their results are the `Contour`
    values. */
module ObjectDetector {
  import opened Geometry

  const DefaultAreaThreshold: real := 3000.0

  /** The per-contour test: `area < area_threshold` drops it, then it needs
      exactly 4 vertices and a convex approximation. */
  predicate Keep(c: Contour, areaThreshold: real)
  {
    !(c.area < areaThreshold) && c.vertices == 4 && c.convex
  }

  /** The kept contours, in input order. */
  function Filtered(cs: seq<Contour>, areaThreshold: real): seq<Contour>
  {
    if cs == [] then []
    else
      var c := cs[|cs| - 1];
      Filtered(cs[..|cs| - 1], areaThreshold) + (if Keep(c, areaThreshold) then [c] else [])
  }

  method DetectValidContours(contours: seq<Contour>, areaThreshold: real) returns (validContours: seq<Contour>)
    ensures validContours == Filtered(contours, areaThreshold)
  {
    validContours := [];
    var k := 0;
    while k < |contours|
      invariant 0 <= k <= |contours|
      invariant validContours == Filtered(contours[..k], areaThreshold)
    {
      var cnt := contours[k];
      assert contours[..k + 1][..k] == contours[..k];
      if cnt.area < areaThreshold {
        k := k + 1;
        continue;
      }
      if cnt.vertices == 4 && cnt.convex {
        validContours := validContours + [cnt];
      }
      k := k + 1;
    }
    assert contours[..k] == contours;
  }

  /** `xs` can be obtained from `ys` by deleting elements. */
  predicate Subsequence(xs: seq<Contour>, ys: seq<Contour>)
    decreases |ys|
  {
    if xs == [] then true
    else if ys == [] then false
    else (xs[|xs| - 1] == ys[|ys| - 1] && Subsequence(xs[..|xs| - 1], ys[..|ys| - 1]))
         || Subsequence(xs, ys[..|ys| - 1])
  }

  /** The result is an order-preserving subsequence of the input. */
  lemma {:induction false} FilteredIsSubsequence(cs: seq<Contour>, t: real)
    ensures Subsequence(Filtered(cs, t), cs)
  {
    if cs != [] {
      var init := cs[..|cs| - 1];
      FilteredIsSubsequence(init, t);
      var r := Filtered(cs, t);
      if Keep(cs[|cs| - 1], t) {
        assert r[..|r| - 1] == Filtered(init, t);
      } else {
        assert r == Filtered(init, t);
        assert r != [] ==> Subsequence(r, cs[..|cs| - 1]);
      }
    }
  }

  /** Exactly the contours passing the test are returned, each as often as
      it occurs in the input. */
  lemma {:induction false} FilteredExactly(cs: seq<Contour>, t: real)
    ensures forall c | c in Filtered(cs, t) :: Keep(c, t)
    ensures forall c | c in cs && Keep(c, t) :: c in Filtered(cs, t)
    ensures forall c :: multiset(Filtered(cs, t))[c] == if Keep(c, t) then multiset(cs)[c] else 0
  {
    if cs != [] {
      var init := cs[..|cs| - 1];
      FilteredExactly(init, t);
      assert cs == init + [cs[|cs| - 1]];
    }
  }

  /** The area test is `area < area_threshold`: a convex quadrilateral of area
      exactly the threshold is kept, one just under it is dropped. */
  lemma ThresholdBoundary(c: Contour)
    requires c.vertices == 4 && c.convex
    ensures c.area == DefaultAreaThreshold ==> Filtered([c], DefaultAreaThreshold) == [c]
    ensures c.area < DefaultAreaThreshold ==> Filtered([c], DefaultAreaThreshold) == []
  {
    assert [c][..0] == [];
  }
}
