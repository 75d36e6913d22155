/** OpenCV2Arduino/pySerial.py: `find_shapes` picks the first mapped action of
    a frame (area strictly above 1000, vertex-count shape, then the action
    table), and the main loop writes an action to the serial port when it
    differs from the last one written. The `last_action` reset is commented
    out in the source, so an action is never written twice in a row, even
    with frames of nothing in between.

    The port is an output log of written actions; the start-up test byte
    `'t'`, the sleeps, drawing and the 'q' key are not modelled. */
module PySerial {
  import opened Common
  import opened PyDict
  import opened Geometry

  const ThresholdArea: real := 1000.0

  /** The script's own colour table, in insertion order. */
  const ColorRanges: Dict<Bounds> := [
    ("Red", Bounds(Hsv(0, 82, 192), Hsv(27, 203, 255))),
    ("Green", Bounds(Hsv(84, 64, 146), Hsv(135, 247, 200)))]

  const ActionMap: map<(string, string), string> := map[
    ("Red", "Triangle") := "A",
    ("Red", "Square") := "B",
    ("Green", "Triangle") := "C",
    ("Green", "Square") := "D"]

  /** The four (colour, shape) keys name four distinct commands. */
  lemma ActionMapInjective()
    ensures ActionMap.Values == {"A", "B", "C", "D"}
    ensures forall k1, k2 | k1 in ActionMap && k2 in ActionMap && k1 != k2 :: ActionMap[k1] != ActionMap[k2]
  {
    assert ActionMap[("Red", "Triangle")] == "A";
    assert ActionMap[("Red", "Square")] == "B";
    assert ActionMap[("Green", "Triangle")] == "C";
    assert ActionMap[("Green", "Square")] == "D";
  }

  /** The action one contour of colour `color` offers `find_shapes`. */
  function ContourAction(color: string, c: Contour): (a: Option<string>)
    ensures a.Some? <==> c.area > ThresholdArea && ShapeOf(c.vertices).Some? && (color, ShapeOf(c.vertices).value) in ActionMap
    ensures a.Some? ==> a.value == ActionMap[(color, ShapeOf(c.vertices).value)] && a.value != ""
  {
    if c.area > ThresholdArea then
      match ShapeOf(c.vertices)
      case None => None
      case Some(shape) =>
        var action := if (color, shape) in ActionMap then Some(ActionMap[(color, shape)]) else None;
        ActionMapInjective();
        if Truthy(action) then action else None
    else None
  }

  /** `find_shapes`: every contour is visited, but the first action found is
      kept and later ones never overwrite it. */
  method FindShapes(scans: seq<Scan>) returns (resultAction: Option<string>)
    requires |scans| == |ColorRanges|
    ensures resultAction == FirstFrom(ColorRanges, scans, ContourAction, 0)
  {
    resultAction := None;
    var i := 0;
    while i < |scans|
      invariant 0 <= i <= |scans|
      invariant resultAction.None? ==>
                  forall i', c | 0 <= i' < i && c in scans[i'].contours :: ContourAction(ColorRanges[i'].0, c).None?
      invariant resultAction.Some? ==> resultAction == FirstFrom(ColorRanges, scans, ContourAction, 0)
      invariant resultAction.Some? ==> resultAction.value != ""
    {
      var colorName := ColorRanges[i].0;
      var contours := scans[i].contours;
      var j := 0;
      while j < |contours|
        invariant 0 <= j <= |contours|
        invariant resultAction.None? ==> NoneBefore(ColorRanges, scans, ContourAction, i, j)
        invariant resultAction.Some? ==> resultAction == FirstFrom(ColorRanges, scans, ContourAction, 0)
        invariant resultAction.Some? ==> resultAction.value != ""
      {
        var cnt := contours[j];
        if cnt.area > ThresholdArea {
          var shape := ShapeOf(cnt.vertices);
          if shape.None? {
            j := j + 1;
            continue;
          }
          var action := if (colorName, shape.value) in ActionMap then Some(ActionMap[(colorName, shape.value)]) else None;
          if Truthy(action) && !Truthy(resultAction) {
            FirstMatchAt(ColorRanges, scans, ContourAction, i, j);
            resultAction := action;
          }
        }
        j := j + 1;
      }
      assert resultAction.None? ==> forall c | c in contours :: ContourAction(colorName, c).None? by {
        if resultAction.None? {
          forall c | c in contours ensures ContourAction(colorName, c).None? {
            var k :| 0 <= k < |contours| && contours[k] == c;
          }
        }
      }
      i := i + 1;
    }
    if resultAction.None? {
      FirstMatchSpec(ColorRanges, scans, ContourAction);
    }
  }

  /** The strict test `area > threshold_area`: a contour of area exactly 1000
      offers nothing, whatever its shape. */
  lemma AreaThresholdStrict(color: string, c: Contour)
    requires c.area == 1000.0
    ensures ContourAction(color, c) == None
  {
  }

  /** `find_shapes` answers None exactly when no contour above the area
      threshold has a mapped (colour, shape); otherwise its answer is an
      action of the table. */
  lemma FindShapesSpec(scans: seq<Scan>)
    requires |scans| == |ColorRanges|
    ensures FirstFrom(ColorRanges, scans, ContourAction, 0).None? <==>
              forall i, c | 0 <= i < |scans| && c in scans[i].contours ::
                !(c.area > 1000.0 && ShapeOf(c.vertices).Some? && (ColorRanges[i].0, ShapeOf(c.vertices).value) in ActionMap)
    ensures FirstFrom(ColorRanges, scans, ContourAction, 0).Some? ==>
              FirstFrom(ColorRanges, scans, ContourAction, 0).value in ActionMap.Values
  {
    FirstMatchSpec(ColorRanges, scans, ContourAction);
  }

  /** A later detection never overwrites the first: the answer is the action
      of the first qualifying contour in colour-then-contour order. */
  lemma FirstDetectionKept(scans: seq<Scan>, i: nat, j: nat)
    requires |scans| == |ColorRanges| && i < |scans| && j < |scans[i].contours|
    requires ContourAction(ColorRanges[i].0, scans[i].contours[j]).Some?
    requires NoneBefore(ColorRanges, scans, ContourAction, i, j)
    ensures FirstFrom(ColorRanges, scans, ContourAction, 0) ==
              Some(ActionMap[(ColorRanges[i].0, ShapeOf(scans[i].contours[j].vertices).value)])
  {
    FirstMatchAt(ColorRanges, scans, ContourAction, i, j);
  }

  // ---------------------------------------------------------------------
  // The main loop's send gate

  /** The non-empty actions of a run of frames, in frame order. */
  function Truthies(actions: seq<Option<string>>): (xs: seq<string>)
    ensures forall x | x in xs :: x != ""
  {
    if actions == [] then []
    else
      var a := actions[|actions| - 1];
      Truthies(actions[..|actions| - 1]) + (if Truthy(a) then [a.value] else [])
  }

  /** A sequence with each run of equal neighbours collapsed to one element. */
  function Compress(xs: seq<string>): (ys: seq<string>)
  {
    if xs == [] then []
    else
      var r := Compress(xs[..|xs| - 1]);
      if r != [] && r[|r| - 1] == xs[|xs| - 1] then r else r + [xs[|xs| - 1]]
  }

  predicate NoAdjacentRepeats(xs: seq<string>)
  {
    forall k | 0 <= k < |xs| - 1 :: xs[k] != xs[k + 1]
  }

  /** The actions written to the port (in order) and `last_action` after the
      main loop has seen `actions`, one per frame. */
  function SerialRun(actions: seq<Option<string>>): (seq<string>, Option<string>)
  {
    if actions == [] then ([], None)
    else
      var (sent, last) := SerialRun(actions[..|actions| - 1]);
      var action := actions[|actions| - 1];
      if Truthy(action) && action != last then (sent + [action.value], action)
      else (sent, last)
  }

  /** `find_shapes` on every frame, in frame order. */
  function FrameActions(frames: seq<seq<Scan>>): (actions: seq<Option<string>>)
    requires forall k | 0 <= k < |frames| :: |frames[k]| == |ColorRanges|
    ensures |actions| == |frames|
  {
    seq(|frames|, k requires 0 <= k < |frames| => FirstFrom(ColorRanges, frames[k], ContourAction, 0))
  }

  /** The main loop over a finite run of frames (the capture stops). */
  method MainLoop(frames: seq<seq<Scan>>) returns (written: seq<string>, lastAction: Option<string>)
    requires forall k | 0 <= k < |frames| :: |frames[k]| == |ColorRanges|
    ensures (written, lastAction) == SerialRun(FrameActions(frames))
  {
    ghost var actions := FrameActions(frames);
    written := [];
    lastAction := None;
    var k := 0;
    while k < |frames|
      invariant 0 <= k <= |frames|
      invariant (written, lastAction) == SerialRun(actions[..k])
    {
      var action := FindShapes(frames[k]);
      if Truthy(action) && action != lastAction {
        written := written + [action.value];
        lastAction := action;
      }
      assert actions[..k + 1][..k] == actions[..k];
      k := k + 1;
    }
    assert actions[..k] == actions;
  }

  lemma CompressLast(xs: seq<string>)
    requires xs != []
    ensures Compress(xs) != [] && Compress(xs)[|Compress(xs)| - 1] == xs[|xs| - 1]
  {
  }

  /** What is written is the detected actions with repeats collapsed, and
      `last_action` is the last action ever detected. */
  lemma {:induction false} SerialRunIsCompress(actions: seq<Option<string>>)
    ensures SerialRun(actions).0 == Compress(Truthies(actions))
    ensures SerialRun(actions).1 == if Truthies(actions) == [] then None else Some(Truthies(actions)[|Truthies(actions)| - 1])
  {
    if actions != [] {
      var init := actions[..|actions| - 1];
      SerialRunIsCompress(init);
      var t := Truthies(init);
      var a := actions[|actions| - 1];
      if t != [] {
        CompressLast(t);
      }
      if Truthy(a) {
        var ta := Truthies(actions);
        assert ta == t + [a.value];
        assert ta[..|ta| - 1] == t;
        var r := Compress(t);
        assert Compress(ta) == if r != [] && r[|r| - 1] == a.value then r else r + [a.value];
        assert t == [] ==> r == [];
      } else {
        assert Truthies(actions) == t;
      }
    }
  }

  lemma {:induction false} CompressNoRepeats(xs: seq<string>)
    ensures NoAdjacentRepeats(Compress(xs))
  {
    if xs != [] {
      CompressNoRepeats(xs[..|xs| - 1]);
    }
  }

  /** The same action is never written twice in a row. */
  lemma NeverTwiceInARow(actions: seq<Option<string>>)
    ensures NoAdjacentRepeats(SerialRun(actions).0)
  {
    SerialRunIsCompress(actions);
    CompressNoRepeats(Truthies(actions));
  }

  /** Nothing is reset when a frame detects nothing: "A", nothing, "A" writes
      "A" only once. */
  lemma NoResetOnAbsence()
    ensures SerialRun([Some("A"), None, Some("A")]).0 == ["A"]
  {
    var s := [Some("A"), None, Some("A")];
    assert s[..2] == [Some("A"), None];
    assert s[..2][..1] == [Some("A")];
    assert [Some("A")][..0] == [];
  }
}
