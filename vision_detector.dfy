/** `detect_target` of utils/vision_processing/detector.py: for each colour
    of the table (in table order) and each contour of its mask (in contour
    order), classify by vertex count, validate, score, and append the mapped
    action when the score reaches 0.7; the returned mask is the union of the
    per-colour masks.

    `scans[i]` stands for what OpenCV yields for `colorRanges[i]` on the
    frame: the mask after `inRange`, `dilate` and `erode`, and the contours
    found in it. Drawing on the result frame is not modelled. */
module VisionDetector {
  import opened Common
  import opened PyDict
  import opened Geometry
  import opened FeatureValidator
  import opened ConfidenceScorer
  import opened VisionConfig

  const ScoreThreshold: real := 0.7

  /** `validate_shape`, the only division by the box height, is reached
      only for a contour that has a shape (`shape and validate_shape(...)`
      short-circuits), so only shaped contours need a usable height. */
  predicate Classifiable(c: Contour)
  {
    ShapeOf(c.vertices).Some? ==> Divisible(c)
  }

  /** The label one contour of colour `color` contributes, if any. */
  function ContourLabel(color: string, c: Contour): (l: Option<string>)
    requires Classifiable(c)
    ensures l.Some? ==> l.value in ActionMap.Values
    ensures l.Some? ==> ShapeOf(c.vertices).Some? && (color, ShapeOf(c.vertices).value) in ActionMap
  {
    match ShapeOf(c.vertices)
    case None => None
    case Some(shape) =>
      if ValidateShape(c, shape) && ComputeConfidence(c, shape) >= ScoreThreshold then
        var mapped := if (color, shape) in ActionMap then Some(ActionMap[(color, shape)]) else None;
        if Truthy(mapped) then mapped else None
      else None
  }

  /** Every shaped contour the table produces can be validated without
      dividing by zero. */
  predicate NoZeroDivision(scans: seq<Scan>)
  {
    forall i, c | 0 <= i < |scans| && c in scans[i].contours :: Classifiable(c)
  }

  /** The inner loop of `detect_target`: the labels one colour's contours
      append, in contour order. */
  method ColorLabels(colorName: string, contours: seq<Contour>) returns (found: seq<string>)
    requires forall c | c in contours :: Classifiable(c)
    ensures found == ContourLabels(colorName, contours, ContourLabel)
  {
    found := [];
    var j := 0;
    while j < |contours|
      invariant 0 <= j <= |contours|
      invariant found == ContourLabels(colorName, contours[..j], ContourLabel)
    {
      var cnt := contours[j];
      assert Classifiable(cnt);
      var shape := ShapeOf(cnt.vertices);
      if shape.Some? && ValidateShape(cnt, shape.value) {
        var score := ComputeConfidence(cnt, shape.value);
        if score >= ScoreThreshold {
          var mapped := if (colorName, shape.value) in ActionMap then Some(ActionMap[(colorName, shape.value)]) else None;
          if Truthy(mapped) {
            found := found + [mapped.value];
          }
        }
      }
      ContourLabelsStep(colorName, contours, j, ContourLabel);
      j := j + 1;
    }
    assert contours[..j] == contours;
  }

  method DetectTarget(colorRanges: ColorTable, scans: seq<Scan>) returns (labels: seq<string>, maskTotal: set<Pixel>)
    requires |scans| == |colorRanges|
    requires NoZeroDivision(scans)
    ensures labels == TableLabels(colorRanges, scans, ContourLabel)
    ensures maskTotal == MaskUnion(scans)
  {
    labels := [];
    maskTotal := {};
    var i := 0;
    while i < |scans|
      invariant 0 <= i <= |scans|
      invariant labels == TableLabels(colorRanges[..i], scans[..i], ContourLabel)
      invariant maskTotal == MaskUnion(scans[..i])
    {
      var colorName := colorRanges[i].0;
      var mask := scans[i].mask;
      maskTotal := maskTotal + mask;
      var found := ColorLabels(colorName, scans[i].contours);
      labels := labels + found;
      TableLabelsStep(colorRanges, scans, i, ContourLabel);
      MaskUnionStep(scans, i);
      i := i + 1;
    }
    assert colorRanges[..i] == colorRanges;
    assert scans[..i] == scans;
  }

  /** Every returned label is one of the action table's commands. */
  lemma LabelsAreActions(colorRanges: ColorTable, scans: seq<Scan>)
    requires |scans| == |colorRanges| && NoZeroDivision(scans)
    ensures forall l | l in TableLabels(colorRanges, scans, ContourLabel) :: l in ActionMap.Values
  {
    forall l | l in TableLabels(colorRanges, scans, ContourLabel)
      ensures l in ActionMap.Values
    {
      TableLabelsMember(colorRanges, scans, ContourLabel, l);
    }
  }

  /** A label is reported exactly when some contour has a shape, passes the
      validator, scores at least 0.7 and has its (colour, shape) mapped. */
  lemma DetectedIff(colorRanges: ColorTable, scans: seq<Scan>, l: string)
    requires |scans| == |colorRanges| && NoZeroDivision(scans)
    ensures l in TableLabels(colorRanges, scans, ContourLabel) <==>
              exists i, c :: 0 <= i < |scans| && c in scans[i].contours &&
                ShapeOf(c.vertices).Some? &&
                ValidateShape(c, ShapeOf(c.vertices).value) &&
                ComputeConfidence(c, ShapeOf(c.vertices).value) >= 0.7 &&
                (colorRanges[i].0, ShapeOf(c.vertices).value) in ActionMap &&
                ActionMap[(colorRanges[i].0, ShapeOf(c.vertices).value)] == l
  {
    TableLabelsMember(colorRanges, scans, ContourLabel, l);
  }

  /** Appending contours appends their labels: labels follow contour order and
      repeated detections are all kept. */
  lemma LabelsFollowContourOrder(color: string, xs: seq<Contour>, ys: seq<Contour>)
    requires forall c | c in xs + ys :: Classifiable(c)
    ensures ContourLabels(color, xs + ys, ContourLabel) ==
              ContourLabels(color, xs, ContourLabel) + ContourLabels(color, ys, ContourLabel)
  {
    ContourLabelsAppend(color, xs, ys, ContourLabel);
  }

  /** An empty colour table yields no labels and an all-zero mask. */
  lemma EmptyTable(colorRanges: ColorTable, scans: seq<Scan>)
    requires colorRanges == [] && scans == []
    ensures TableLabels(colorRanges, scans, ContourLabel) == [] && MaskUnion(scans) == {}
  {
  }

  /** A contour with no shape gives no label, whatever its height: the
      validator is never reached for it. */
  lemma UnshapedGivesNoLabel(color: string, c: Contour)
    requires ShapeOf(c.vertices).None?
    ensures ContourLabel(color, c) == None
  {
  }

  /** The threshold is inclusive: a mapped, validated candidate scoring
      exactly 0.7 is labelled. */
  lemma ThresholdInclusive(color: string, c: Contour)
    requires ShapeOf(c.vertices).Some? && Divisible(c)
    requires ValidateShape(c, ShapeOf(c.vertices).value)
    requires ComputeConfidence(c, ShapeOf(c.vertices).value) == 0.7
    requires (color, ShapeOf(c.vertices).value) in ActionMap
    ensures ContourLabel(color, c) == Some(ActionMap[(color, ShapeOf(c.vertices).value)])
  {
    ActionMapInjective();
  }

  /** A red quadrilateral with a square box, clearing the area floor, whose
      mask fills at least a quarter of `w * h + 1`, is reported as "B". */
  lemma RedSquareIsB(c: Contour)
    requires c.vertices == 4 && c.area >= 1000.0 && c.w == c.h > 0
    requires 4 * c.onPixels >= c.w * c.h + 1
    ensures ContourLabel("Red", c) == Some("B")
  {
    SquareScorePeak(c);
    var d := (c.w * c.h + 1) as real;
    DivLess(c.onPixels as real, d, 0.25);
    assert Density(c) >= 0.25;
    assert ComputeConfidence(c, Square) >= 0.7;
  }
}
