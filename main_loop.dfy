/** The frame loop of main.py: each frame goes through the top-level
    `detect_target`, and a label is sent when it is non-empty and differs
    from `last_action`; a frame with no label resets `last_action`, so a
    label is sent again after an absence.

    `SignalSender.send_async` is an append to the log of sent labels; the
    camera, the window and the quit key are not modelled (a run of frames
    is finite). */
module MainLoop {
  import opened Common
  import opened Geometry
  import RootDetector

  /** The labels sent (in order) and `last_action` after the loop has seen
      `labels`, one per frame. */
  function MainRun(labels: seq<Option<string>>): (seq<string>, Option<string>)
  {
    if labels == [] then ([], None)
    else
      var (sent, last) := MainRun(labels[..|labels| - 1]);
      var l := labels[|labels| - 1];
      if Truthy(l) && l != last then (sent + [l.value], l)
      else if !Truthy(l) then (sent, None)
      else (sent, last)
  }

  /** Reference definition: a label is sent at frame k exactly when it is
      non-empty and the frame before (if any) had a different label. */
  function ChangePoints(labels: seq<Option<string>>): seq<string>
  {
    if labels == [] then []
    else
      var n := |labels| - 1;
      var l := labels[n];
      ChangePoints(labels[..n]) + (if Truthy(l) && (n == 0 || labels[n - 1] != l) then [l.value] else [])
  }

  /** The top-level detector's answer on every frame, in frame order. */
  function FrameLabels(frames: seq<seq<Scan>>): (labels: seq<Option<string>>)
    requires forall k | 0 <= k < |frames| :: |frames[k]| == |RootDetector.ColorRanges|
    ensures |labels| == |frames|
  {
    seq(|frames|, k requires 0 <= k < |frames| =>
      FirstFrom(RootDetector.ColorRanges, frames[k], RootDetector.ContourAction, 0))
  }

  method Run(frames: seq<seq<Scan>>) returns (sent: seq<string>, lastAction: Option<string>)
    requires forall k | 0 <= k < |frames| :: |frames[k]| == |RootDetector.ColorRanges|
    ensures (sent, lastAction) == MainRun(FrameLabels(frames))
  {
    ghost var labels := FrameLabels(frames);
    sent := [];
    lastAction := None;
    var k := 0;
    while k < |frames|
      invariant 0 <= k <= |frames|
      invariant (sent, lastAction) == MainRun(labels[..k])
    {
      var detected := RootDetector.DetectTarget(frames[k]);
      if Truthy(detected) && detected != lastAction {
        sent := sent + [detected.value];
        lastAction := detected;
      } else if !Truthy(detected) {
        lastAction := None;
      }
      assert labels[..k + 1][..k] == labels[..k];
      k := k + 1;
    }
    assert labels[..k] == labels;
  }

  /** `last_action` is the latest label when that label is non-empty, and
      None otherwise. */
  lemma LastActionIsLatest(labels: seq<Option<string>>)
    ensures MainRun(labels).1 == if labels != [] && Truthy(labels[|labels| - 1]) then labels[|labels| - 1] else None
  {
  }

  /** Over any run, the labels sent are exactly the non-empty labels whose
      predecessor frame had a different label. */
  lemma {:induction false} SendsAreChangePoints(labels: seq<Option<string>>)
    ensures MainRun(labels).0 == ChangePoints(labels)
  {
    if labels != [] {
      var n := |labels| - 1;
      SendsAreChangePoints(labels[..n]);
      if n > 0 {
        assert labels[..n][n - 1] == labels[n - 1];
      }
      LastActionIsLatest(labels[..n]);
    }
  }

  /** A repeated identical label sends nothing and keeps `last_action`. */
  lemma RepeatSendsNothing(labels: seq<Option<string>>, l: Option<string>)
    requires labels != [] && labels[|labels| - 1] == l && Truthy(l)
    ensures MainRun(labels + [l]) == MainRun(labels)
  {
    assert (labels + [l])[..|labels|] == labels;
    LastActionIsLatest(labels);
  }

  /** The reset: "A", nothing, "A" sends "A" twice. */
  lemma ResendAfterAbsence()
    ensures MainRun([Some("A"), None, Some("A")]).0 == ["A", "A"]
  {
    var s := [Some("A"), None, Some("A")];
    assert s[..2] == [Some("A"), None];
    assert s[..2][..1] == [Some("A")];
    assert [Some("A")][..0] == [];
  }
}
