/** What the detectors get back from OpenCV, as plain values, and the two ways
    they walk a colour table: collect every label, or stop at the first one.

    `cv2.inRange`, `findContours`, `approxPolyDP`, `contourArea`,
    `boundingRect`, `countNonZero` and `isContourConvex` are library calls;
    the model takes their results as inputs. */
module Geometry {
  import opened Common
  import opened PyDict

  type Pixel = (int, int)

  /** One contour as the detectors see it. */
  datatype Contour = Contour(
    area: real,      // cv2.contourArea(cnt)
    w: nat,          // width of cv2.boundingRect(approx)
    h: nat,          // height of cv2.boundingRect(approx)
    vertices: nat,   // len(approx)
    convex: bool,    // cv2.isContourConvex(approx)
    onPixels: nat)   // cv2.countNonZero of the mask inside the bounding box

  /** Facts OpenCV guarantees: areas are non-negative and a w-by-h crop
      holds at most w * h set pixels. */
  predicate WellFormed(c: Contour)
  {
    c.area >= 0.0 && c.onPixels <= c.w * c.h
  }

  /** What one colour entry yields on the current frame: its binary mask (the
      set of pixels that are on) and the external contours found in it. */
  datatype Scan = Scan(mask: set<Pixel>, contours: seq<Contour>)

  const Triangle: string := "Triangle"
  const Square: string := "Square"

  /** Vertex-count classification shared by every detector:
      3 vertices is a Triangle, 4 a Square, anything else no shape. */
  function ShapeOf(vertices: nat): (s: Option<string>)
    ensures s == Some(Triangle) <==> vertices == 3
    ensures s == Some(Square) <==> vertices == 4
    ensures s.None? <==> vertices != 3 && vertices != 4
  {
    if vertices == 3 then Some(Triangle)
    else if vertices == 4 then Some(Square)
    else None
  }

  /** `cv2.bitwise_or` of all masks, starting from an all-zero mask. */
  function MaskUnion(scans: seq<Scan>): (m: set<Pixel>)
    ensures forall p :: p in m <==> exists i :: 0 <= i < |scans| && p in scans[i].mask
  {
    if scans == [] then {}
    else
      var m := MaskUnion(scans[..|scans| - 1]) + scans[|scans| - 1].mask;
      assert forall i | 0 <= i < |scans| - 1 :: scans[..|scans| - 1][i] == scans[i];
      m
  }

  function Emit(o: Option<string>): seq<string>
  {
    if o.Some? then [o.value] else []
  }

  // ---------------------------------------------------------------------
  // Collecting every label (the detectors that return a label list)

  /** `decide` can be applied to every contour the table produces. */
  ghost predicate Decidable<V>(table: Dict<V>, scans: seq<Scan>, decide: (string, Contour) --> Option<string>)
    requires |scans| == |table|
  {
    forall i, c | 0 <= i < |scans| && c in scans[i].contours :: decide.requires(table[i].0, c)
  }

  /** Labels of one colour's contours, in contour order, duplicates kept. */
  function ContourLabels(color: string, cs: seq<Contour>, decide: (string, Contour) --> Option<string>): seq<string>
    requires forall c | c in cs :: decide.requires(color, c)
  {
    if cs == [] then []
    else ContourLabels(color, cs[..|cs| - 1], decide) + Emit(decide(color, cs[|cs| - 1]))
  }

  /** Labels of the whole table: colour order first, then contour order. */
  function TableLabels<V>(table: Dict<V>, scans: seq<Scan>, decide: (string, Contour) --> Option<string>): seq<string>
    requires |scans| == |table| && Decidable(table, scans, decide)
  {
    if scans == [] then []
    else
      var n := |scans| - 1;
      TableLabels(table[..n], scans[..n], decide) + ContourLabels(table[n].0, scans[n].contours, decide)
  }

  /** One more contour of a colour adds its label, if any, at the end. */
  lemma ContourLabelsStep(color: string, cs: seq<Contour>, j: nat, decide: (string, Contour) --> Option<string>)
    requires j < |cs| && forall c | c in cs :: decide.requires(color, c)
    ensures ContourLabels(color, cs[..j + 1], decide) == ContourLabels(color, cs[..j], decide) + Emit(decide(color, cs[j]))
  {
    assert cs[..j + 1][..j] == cs[..j];
  }

  /** One more colour adds its contours' labels at the end. */
  lemma TableLabelsStep<V>(table: Dict<V>, scans: seq<Scan>, i: nat, decide: (string, Contour) --> Option<string>)
    requires |scans| == |table| && i < |scans| && Decidable(table, scans, decide)
    ensures Decidable(table[..i], scans[..i], decide) && Decidable(table[..i + 1], scans[..i + 1], decide)
    ensures TableLabels(table[..i + 1], scans[..i + 1], decide) ==
              TableLabels(table[..i], scans[..i], decide) + ContourLabels(table[i].0, scans[i].contours, decide)
  {
    assert table[..i + 1][..i] == table[..i];
    assert scans[..i + 1][..i] == scans[..i];
  }

  /** One more colour adds its mask to the union. */
  lemma MaskUnionStep(scans: seq<Scan>, i: nat)
    requires i < |scans|
    ensures MaskUnion(scans[..i + 1]) == MaskUnion(scans[..i]) + scans[i].mask
  {
    assert scans[..i + 1][..i] == scans[..i];
  }

  lemma {:induction false} ContourLabelsAppend(color: string, xs: seq<Contour>, ys: seq<Contour>, decide: (string, Contour) --> Option<string>)
    requires forall c | c in xs + ys :: decide.requires(color, c)
    ensures ContourLabels(color, xs + ys, decide) == ContourLabels(color, xs, decide) + ContourLabels(color, ys, decide)
    decreases |ys|
  {
    if ys == [] {
      assert xs + ys == xs;
    } else {
      var zs := xs + ys;
      var init := ys[..|ys| - 1];
      var last := ys[|ys| - 1];
      assert zs[..|zs| - 1] == xs + init;
      assert zs[|zs| - 1] == last;
      assert forall c | c in xs + init :: c in xs + ys;
      ContourLabelsAppend(color, xs, init, decide);
      assert ContourLabels(color, zs, decide) == ContourLabels(color, xs + init, decide) + Emit(decide(color, last));
      assert ContourLabels(color, ys, decide) == ContourLabels(color, init, decide) + Emit(decide(color, last));
    }
  }

  lemma {:induction false} ContourLabelsMember(color: string, cs: seq<Contour>, decide: (string, Contour) --> Option<string>, l: string)
    requires forall c | c in cs :: decide.requires(color, c)
    ensures l in ContourLabels(color, cs, decide) <==> exists c :: c in cs && decide(color, c) == Some(l)
  {
    if cs != [] {
      var init := cs[..|cs| - 1];
      assert cs == init + [cs[|cs| - 1]];
      ContourLabelsMember(color, init, decide, l);
      if exists c :: c in cs && decide(color, c) == Some(l) {
        var c :| c in cs && decide(color, c) == Some(l);
        if c != cs[|cs| - 1] { assert c in init; }
      }
    }
  }

  /** A label is in the list exactly when some contour of some colour
      produced it. */
  lemma {:induction false} TableLabelsMember<V>(table: Dict<V>, scans: seq<Scan>, decide: (string, Contour) --> Option<string>, l: string)
    requires |scans| == |table| && Decidable(table, scans, decide)
    ensures l in TableLabels(table, scans, decide) <==>
              exists i, c :: 0 <= i < |scans| && c in scans[i].contours && decide(table[i].0, c) == Some(l)
  {
    if scans != [] {
      var n := |scans| - 1;
      var t, s := table[..n], scans[..n];
      assert forall i | 0 <= i < n :: s[i] == scans[i] && t[i] == table[i];
      TableLabelsMember(t, s, decide, l);
      ContourLabelsMember(table[n].0, scans[n].contours, decide, l);
      if l in TableLabels(t, s, decide) {
        var i, c :| 0 <= i < n && c in s[i].contours && decide(t[i].0, c) == Some(l);
        assert c in scans[i].contours && decide(table[i].0, c) == Some(l);
      }
      if exists i, c :: 0 <= i < |scans| && c in scans[i].contours && decide(table[i].0, c) == Some(l) {
        var i, c :| 0 <= i < |scans| && c in scans[i].contours && decide(table[i].0, c) == Some(l);
        if i < n {
          assert c in s[i].contours && decide(t[i].0, c) == Some(l);
        }
      }
    }
  }

  // ---------------------------------------------------------------------
  // Stopping at the first label (the detectors that return one action)

  /** First label among one colour's contours, in contour order. */
  function FirstIn(color: string, cs: seq<Contour>, f: (string, Contour) -> Option<string>): Option<string>
  {
    if cs == [] then None
    else if f(color, cs[0]).Some? then f(color, cs[0])
    else FirstIn(color, cs[1..], f)
  }

  /** First label of the table from colour index `i` on. */
  function FirstFrom<V>(table: Dict<V>, scans: seq<Scan>, f: (string, Contour) -> Option<string>, i: nat): Option<string>
    requires |scans| == |table| && i <= |scans|
    decreases |scans| - i
  {
    if i == |scans| then None
    else if FirstIn(table[i].0, scans[i].contours, f).Some? then FirstIn(table[i].0, scans[i].contours, f)
    else FirstFrom(table, scans, f, i + 1)
  }

  /** Nothing before contour j of colour i (in table-then-contour order) has a label. */
  ghost predicate NoneBefore<V>(table: Dict<V>, scans: seq<Scan>, f: (string, Contour) -> Option<string>, i: nat, j: nat)
    requires |scans| == |table| && i < |scans| && j <= |scans[i].contours|
  {
    && (forall i', c | 0 <= i' < i && c in scans[i'].contours :: f(table[i'].0, c).None?)
    && (forall j' | 0 <= j' < j :: f(table[i].0, scans[i].contours[j']).None?)
  }

  lemma {:induction false} FirstInSpec(color: string, cs: seq<Contour>, f: (string, Contour) -> Option<string>)
    ensures FirstIn(color, cs, f).None? <==> forall c | c in cs :: f(color, c).None?
    ensures FirstIn(color, cs, f).Some? ==>
              exists j :: 0 <= j < |cs| && f(color, cs[j]) == FirstIn(color, cs, f) &&
                          forall j' | 0 <= j' < j :: f(color, cs[j']).None?
  {
    if cs != [] {
      FirstInSpec(color, cs[1..], f);
      assert cs == [cs[0]] + cs[1..];
      if f(color, cs[0]).None? && FirstIn(color, cs, f).Some? {
        var j :| 0 <= j < |cs[1..]| && f(color, cs[1..][j]) == FirstIn(color, cs, f) &&
                 forall j' | 0 <= j' < j :: f(color, cs[1..][j']).None?;
        assert forall j' | 1 <= j' < j + 1 :: cs[j'] == cs[1..][j' - 1];
        assert f(color, cs[j + 1]) == FirstIn(color, cs, f);
      }
    }
  }

  lemma {:induction false} FirstFromSpec<V>(table: Dict<V>, scans: seq<Scan>, f: (string, Contour) -> Option<string>, i: nat)
    requires |scans| == |table| && i <= |scans|
    ensures FirstFrom(table, scans, f, i).None? <==>
              forall k, c | i <= k < |scans| && c in scans[k].contours :: f(table[k].0, c).None?
    ensures FirstFrom(table, scans, f, i).Some? ==>
              exists k, j :: i <= k < |scans| && 0 <= j < |scans[k].contours| &&
                             f(table[k].0, scans[k].contours[j]) == FirstFrom(table, scans, f, i) &&
                             (forall k', c | i <= k' < k && c in scans[k'].contours :: f(table[k'].0, c).None?) &&
                             (forall j' | 0 <= j' < j :: f(table[k].0, scans[k].contours[j']).None?)
    decreases |scans| - i
  {
    if i < |scans| {
      FirstInSpec(table[i].0, scans[i].contours, f);
      FirstFromSpec(table, scans, f, i + 1);
    }
  }

  /** The first-match search returns None exactly when no contour has a
      label, and otherwise the label of the first contour that has one. */
  lemma FirstMatchSpec<V>(table: Dict<V>, scans: seq<Scan>, f: (string, Contour) -> Option<string>)
    requires |scans| == |table|
    ensures FirstFrom(table, scans, f, 0).None? <==>
              forall k, c | 0 <= k < |scans| && c in scans[k].contours :: f(table[k].0, c).None?
    ensures FirstFrom(table, scans, f, 0).Some? ==>
              exists k, j :: 0 <= k < |scans| && 0 <= j < |scans[k].contours| &&
                             f(table[k].0, scans[k].contours[j]) == FirstFrom(table, scans, f, 0) &&
                             NoneBefore(table, scans, f, k, j)
  {
    FirstFromSpec(table, scans, f, 0);
  }

  /** The first labelled contour of a colour, when nothing before it is labelled. */
  lemma {:induction false} FirstInAt(color: string, cs: seq<Contour>, f: (string, Contour) -> Option<string>, j: nat)
    requires j < |cs| && f(color, cs[j]).Some?
    requires forall j' | 0 <= j' < j :: f(color, cs[j']).None?
    ensures FirstIn(color, cs, f) == f(color, cs[j])
  {
    if j > 0 {
      assert forall j' | 0 <= j' < j - 1 :: cs[1..][j'] == cs[j' + 1];
      FirstInAt(color, cs[1..], f, j - 1);
    }
  }

  /** The first labelled contour of the table, when nothing before it (in
      colour-then-contour order) is labelled. */
  lemma {:induction false} FirstFromAt<V>(table: Dict<V>, scans: seq<Scan>, f: (string, Contour) -> Option<string>,
                                          start: nat, i: nat, j: nat)
    requires |scans| == |table| && start <= i < |scans| && j < |scans[i].contours|
    requires f(table[i].0, scans[i].contours[j]).Some?
    requires forall k, c | start <= k < i && c in scans[k].contours :: f(table[k].0, c).None?
    requires forall j' | 0 <= j' < j :: f(table[i].0, scans[i].contours[j']).None?
    ensures FirstFrom(table, scans, f, start) == f(table[i].0, scans[i].contours[j])
    decreases i - start
  {
    if start == i {
      FirstInAt(table[i].0, scans[i].contours, f, j);
    } else {
      FirstInSpec(table[start].0, scans[start].contours, f);
      FirstFromAt(table, scans, f, start + 1, i, j);
    }
  }

  /** The table's first label is that of any labelled contour with nothing
      labelled before it. */
  lemma FirstMatchAt<V>(table: Dict<V>, scans: seq<Scan>, f: (string, Contour) -> Option<string>, i: nat, j: nat)
    requires |scans| == |table| && i < |scans| && j < |scans[i].contours|
    requires f(table[i].0, scans[i].contours[j]).Some?
    requires NoneBefore(table, scans, f, i, j)
    ensures FirstFrom(table, scans, f, 0) == f(table[i].0, scans[i].contours[j])
  {
    FirstFromAt(table, scans, f, 0, i, j);
  }
}
