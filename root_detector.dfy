/** `detect_target` of the top-level detector.py: walk the colour table of the
    top-level config.py in order, and each colour's contours in order; skip
    contours under 500 in area, classify the rest by vertex count, and return
    at once with the action of the first (colour, shape) the action table
    maps. The top-level action table is the same as the vision one, so
    `VisionConfig.ActionMap` stands for it. Drawing on the result frame is
    not modelled. */
module RootDetector {
  import opened Common
  import opened PyDict
  import opened Geometry
  import opened VisionConfig

  /** `color_ranges` of the top-level config.py, in file order. */
  const ColorRanges: ColorTable := [
    ("Red", Bounds(Hsv(0, 6, 185), Hsv(18, 255, 255))),
    ("Blue", Bounds(Hsv(90, 85, 196), Hsv(116, 217, 255)))]

  const MinArea: real := 500.0

  /** What one contour of colour `color` would make the detector return. */
  function ContourAction(color: string, c: Contour): (a: Option<string>)
    ensures a.Some? <==> c.area >= MinArea && ShapeOf(c.vertices).Some? && (color, ShapeOf(c.vertices).value) in ActionMap
    ensures a.Some? ==> a.value == ActionMap[(color, ShapeOf(c.vertices).value)]
  {
    if c.area < MinArea then None
    else
      match ShapeOf(c.vertices)
      case None => None
      case Some(shape) =>
        if (color, shape) in ActionMap then Some(ActionMap[(color, shape)]) else None
  }

  /** The label `detect_target` returns for the frame whose two colour
      entries yield `scans`. */
  method DetectTarget(scans: seq<Scan>) returns (found: Option<string>)
    requires |scans| == |ColorRanges|
    ensures found == FirstFrom(ColorRanges, scans, ContourAction, 0)
  {
    var i := 0;
    while i < |scans|
      invariant 0 <= i <= |scans|
      invariant FirstFrom(ColorRanges, scans, ContourAction, i) == FirstFrom(ColorRanges, scans, ContourAction, 0)
    {
      var colorName := ColorRanges[i].0;
      var contours := scans[i].contours;
      var j := 0;
      while j < |contours|
        invariant 0 <= j <= |contours|
        invariant FirstIn(colorName, contours[j..], ContourAction) == FirstIn(colorName, contours, ContourAction)
      {
        var cnt := contours[j];
        assert contours[j..][1..] == contours[j + 1..];
        if cnt.area < 500.0 {
          j := j + 1;
          continue;
        }
        var shape := ShapeOf(cnt.vertices);
        if shape.Some? {
          var actionKey := (colorName, shape.value);
          if actionKey in ActionMap {
            found := Some(ActionMap[actionKey]);
            return;
          }
        }
        j := j + 1;
      }
      i := i + 1;
    }
    found := None;
  }

  /** A returned label is always one of the action table's commands. */
  lemma ResultIsAction(scans: seq<Scan>)
    requires |scans| == |ColorRanges|
    ensures FirstFrom(ColorRanges, scans, ContourAction, 0).Some? ==>
              FirstFrom(ColorRanges, scans, ContourAction, 0).value in ActionMap.Values
  {
    FirstMatchSpec(ColorRanges, scans, ContourAction);
  }

  /** None is returned exactly when no contour of area at least 500 has a
      mapped (colour, shape). */
  lemma NoneIffNothingMapped(scans: seq<Scan>)
    requires |scans| == |ColorRanges|
    ensures FirstFrom(ColorRanges, scans, ContourAction, 0).None? <==>
              forall i, c | 0 <= i < |scans| && c in scans[i].contours ::
                !(c.area >= 500.0 && ShapeOf(c.vertices).Some? && (ColorRanges[i].0, ShapeOf(c.vertices).value) in ActionMap)
  {
    FirstMatchSpec(ColorRanges, scans, ContourAction);
  }

  /** The answer is the action of the first qualifying contour in
      colour-then-contour order: nothing earlier qualifies. */
  lemma FirstQualifyingWins(scans: seq<Scan>, i: nat, j: nat)
    requires |scans| == |ColorRanges| && i < |scans| && j < |scans[i].contours|
    requires ContourAction(ColorRanges[i].0, scans[i].contours[j]).Some?
    requires NoneBefore(ColorRanges, scans, ContourAction, i, j)
    ensures FirstFrom(ColorRanges, scans, ContourAction, 0) ==
              Some(ActionMap[(ColorRanges[i].0, ShapeOf(scans[i].contours[j].vertices).value)])
  {
    FirstMatchAt(ColorRanges, scans, ContourAction, i, j);
  }

  /** The area test is `area < 500`: a red triangle of area exactly 500 is
      reported as "A", one of smaller area is skipped. */
  lemma AreaFloorBoundary(c: Contour)
    requires c.vertices == 3
    ensures c.area == 500.0 ==> ContourAction("Red", c) == Some("A")
    ensures c.area < 500.0 ==> ContourAction("Red", c) == None
  {
  }
}
