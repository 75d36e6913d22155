/** `detect_target` of OpenCV2Arduino/detector.py: the same walk over colours
    and contours as the vision detector, on raw `inRange` masks (no
    morphology), with a strict `score > 0.7` threshold.

    Its colour table, action table, validator and scorer come from modules
    that are not part of this model, so they are parameters here: any table,
    and any validation and scoring functions. */
module ArduinoDetector {
  import opened Common
  import opened PyDict
  import opened Geometry

  /** The label one contour contributes under the given collaborators. */
  function Decide(actionMap: map<(string, string), string>, validate: (Contour, string) -> bool,
                  score: (Contour, string) -> real, color: string, c: Contour): (l: Option<string>)
    ensures l.Some? ==> l.value in actionMap.Values
    ensures l.Some? ==> ShapeOf(c.vertices).Some? && validate(c, ShapeOf(c.vertices).value) &&
                        score(c, ShapeOf(c.vertices).value) > 0.7
  {
    match ShapeOf(c.vertices)
    case None => None
    case Some(shape) =>
      if validate(c, shape) && score(c, shape) > 0.7 then
        var mapped := if (color, shape) in actionMap then Some(actionMap[(color, shape)]) else None;
        if Truthy(mapped) then mapped else None
      else None
  }

  function Decider(actionMap: map<(string, string), string>, validate: (Contour, string) -> bool,
                   score: (Contour, string) -> real): (string, Contour) -> Option<string>
  {
    (color, c) => Decide(actionMap, validate, score, color, c)
  }

  /** The inner loop of `detect_target`: the labels one colour's contours
      append, in contour order. */
  method ColorLabels(colorName: string, contours: seq<Contour>, actionMap: map<(string, string), string>,
                     validate: (Contour, string) -> bool, score: (Contour, string) -> real)
    returns (found: seq<string>)
    ensures found == ContourLabels(colorName, contours, Decider(actionMap, validate, score))
  {
    var decide := Decider(actionMap, validate, score);
    found := [];
    var j := 0;
    while j < |contours|
      invariant 0 <= j <= |contours|
      invariant found == ContourLabels(colorName, contours[..j], decide)
    {
      var cnt := contours[j];
      var shape := ShapeOf(cnt.vertices);
      if shape.Some? && validate(cnt, shape.value) {
        var s := score(cnt, shape.value);
        if s > 0.7 {
          var mapped := if (colorName, shape.value) in actionMap then Some(actionMap[(colorName, shape.value)]) else None;
          if Truthy(mapped) {
            found := found + [mapped.value];
          }
        }
      }
      ContourLabelsStep(colorName, contours, j, decide);
      j := j + 1;
    }
    assert contours[..j] == contours;
  }

  method DetectTarget<V>(colorRanges: Dict<V>, scans: seq<Scan>, actionMap: map<(string, string), string>,
                         validate: (Contour, string) -> bool, score: (Contour, string) -> real)
    returns (labels: seq<string>, maskTotal: set<Pixel>)
    requires |scans| == |colorRanges|
    ensures labels == TableLabels(colorRanges, scans, Decider(actionMap, validate, score))
    ensures maskTotal == MaskUnion(scans)
  {
    var decide := Decider(actionMap, validate, score);
    labels := [];
    maskTotal := {};
    var i := 0;
    while i < |scans|
      invariant 0 <= i <= |scans|
      invariant labels == TableLabels(colorRanges[..i], scans[..i], decide)
      invariant maskTotal == MaskUnion(scans[..i])
    {
      var colorName := colorRanges[i].0;
      maskTotal := maskTotal + scans[i].mask;
      var found := ColorLabels(colorName, scans[i].contours, actionMap, validate, score);
      labels := labels + found;
      TableLabelsStep(colorRanges, scans, i, decide);
      MaskUnionStep(scans, i);
      i := i + 1;
    }
    assert colorRanges[..i] == colorRanges;
    assert scans[..i] == scans;
  }

  /** The threshold is strict: a candidate scoring exactly 0.7 is never labelled. */
  lemma ThresholdStrict(actionMap: map<(string, string), string>, validate: (Contour, string) -> bool,
                        score: (Contour, string) -> real, color: string, c: Contour)
    requires ShapeOf(c.vertices).Some? && score(c, ShapeOf(c.vertices).value) == 0.7
    ensures Decide(actionMap, validate, score, color, c) == None
  {
  }

  /** Contour `c` of colour `color` has a shape, passes the validator, scores
      above 0.7, and its (colour, shape) is mapped to `l`. */
  predicate Qualifies(actionMap: map<(string, string), string>, validate: (Contour, string) -> bool,
                      score: (Contour, string) -> real, color: string, c: Contour, l: string)
  {
    && ShapeOf(c.vertices).Some?
    && validate(c, ShapeOf(c.vertices).value)
    && score(c, ShapeOf(c.vertices).value) > 0.7
    && (color, ShapeOf(c.vertices).value) in actionMap
    && actionMap[(color, ShapeOf(c.vertices).value)] == l
  }

  /** Labels are values of the action table, each produced by a validated
      contour scoring above 0.7 whose (colour, shape) is mapped. */
  lemma LabelsAreActions<V>(colorRanges: Dict<V>, scans: seq<Scan>, actionMap: map<(string, string), string>,
                            validate: (Contour, string) -> bool, score: (Contour, string) -> real)
    requires |scans| == |colorRanges|
    ensures forall l | l in TableLabels(colorRanges, scans, Decider(actionMap, validate, score)) ::
              l in actionMap.Values &&
              exists i, c :: 0 <= i < |scans| && c in scans[i].contours &&
                Qualifies(actionMap, validate, score, colorRanges[i].0, c, l)
  {
    var decide := Decider(actionMap, validate, score);
    forall l | l in TableLabels(colorRanges, scans, decide)
      ensures l in actionMap.Values
      ensures exists i, c :: 0 <= i < |scans| && c in scans[i].contours &&
                Qualifies(actionMap, validate, score, colorRanges[i].0, c, l)
    {
      TableLabelsMember(colorRanges, scans, decide, l);
      var i, c :| 0 <= i < |scans| && c in scans[i].contours && decide(colorRanges[i].0, c) == Some(l);
      assert Decide(actionMap, validate, score, colorRanges[i].0, c) == Some(l);
    }
  }

  /** An empty colour table yields no labels and an all-zero mask. */
  lemma EmptyTable<V>(colorRanges: Dict<V>, scans: seq<Scan>, decide: (string, Contour) -> Option<string>)
    requires colorRanges == [] && scans == []
    ensures TableLabels(colorRanges, scans, decide) == [] && MaskUnion(scans) == {}
  {
  }
}
