/**
 * The face locator: among the boxes a face detector reports, keep the one
 * with the largest pixel area. The detector itself is a parameter: `None`
 * stands for "no detector could be loaded", `Some(boxes)` for the boxes one
 * detection call returned.
 */
module FaceLocator {
  import opened Wrappers

  /** A detected face: origin and size in source-image pixels. */
  datatype Box = Box(x: int, y: int, width: int, height: int)

  function Area(b: Box): int { b.width * b.height }

  /** The running `best_area` accumulator for a running `best`. */
  function BestArea(best: Option<Box>): int {
    match best
    case None => 0
    case Some(b) => Area(b)
  }

  /**
   * `k` is the first index of a box of strictly positive, maximal area:
   * what the strict `>` comparison against an accumulator starting at 0 keeps.
   */
  ghost predicate IsFirstLargest(boxes: seq<Box>, k: int) {
    && 0 <= k < |boxes|
    && Area(boxes[k]) > 0
    && (forall j :: 0 <= j < |boxes| ==> Area(boxes[j]) <= Area(boxes[k]))
    && (forall j :: 0 <= j < k ==> Area(boxes[j]) < Area(boxes[k]))
  }

  /**
   * The value `best` holds after the scan has looked at every box of `boxes`,
   * in order: the last box replaces the running best exactly when its area is
   * strictly greater than the running best area.
   */
  function LargestFace(boxes: seq<Box>): (r: Option<Box>)
    ensures r.Some? ==> r.value in boxes && Area(r.value) > 0
    decreases |boxes|
  {
    if boxes == [] then None
    else
      var prev := LargestFace(boxes[..|boxes| - 1]);
      var last := boxes[|boxes| - 1];
      if Area(last) > BestArea(prev) then Some(last) else prev
  }

  /** The scan returns None exactly when no box has positive area. */
  lemma {:induction false} LargestFaceNoneIff(boxes: seq<Box>)
    ensures LargestFace(boxes).None? <==> forall i :: 0 <= i < |boxes| ==> Area(boxes[i]) <= 0
  {
    if boxes != [] {
      var init := boxes[..|boxes| - 1];
      LargestFaceNoneIff(init);
      LargestFaceBound(init);
      assert forall i :: 0 <= i < |init| ==> boxes[i] == init[i];
    }
  }

  /** The area of the box kept, 0 if none, is at least every candidate's area. */
  lemma {:induction false} LargestFaceBound(boxes: seq<Box>)
    ensures 0 <= BestArea(LargestFace(boxes))
    ensures forall i :: 0 <= i < |boxes| ==> Area(boxes[i]) <= BestArea(LargestFace(boxes))
  {
    if boxes != [] {
      var init := boxes[..|boxes| - 1];
      LargestFaceBound(init);
      assert forall i :: 0 <= i < |init| ==> boxes[i] == init[i];
    }
  }

  /** A box is kept only when it is the first one of maximal, positive area. */
  lemma {:induction false} LargestFaceIsFirstLargest(boxes: seq<Box>)
    ensures LargestFace(boxes).Some? ==>
      exists k :: IsFirstLargest(boxes, k) && boxes[k] == LargestFace(boxes).value
  {
    if boxes != [] {
      var init := boxes[..|boxes| - 1];
      var last := boxes[|boxes| - 1];
      LargestFaceIsFirstLargest(init);
      LargestFaceBound(init);
      assert forall i :: 0 <= i < |init| ==> boxes[i] == init[i];
      var prev := LargestFace(init);
      if Area(last) > BestArea(prev) {
        var k := |boxes| - 1;
        assert forall j :: 0 <= j < k ==> Area(boxes[j]) <= BestArea(prev);
        assert IsFirstLargest(boxes, k);
      } else if prev.Some? {
        var k :| IsFirstLargest(init, k) && init[k] == prev.value;
        assert IsFirstLargest(boxes, k);
      }
    }
  }

  /** Conversely, when some box is the first of maximal, positive area, the scan keeps it. */
  lemma LargestFaceFindsFirstLargest(boxes: seq<Box>, k: int)
    requires IsFirstLargest(boxes, k)
    ensures LargestFace(boxes) == Some(boxes[k])
  {
    LargestFaceNoneIff(boxes);
    LargestFaceIsFirstLargest(boxes);
    var k' :| IsFirstLargest(boxes, k') && boxes[k'] == LargestFace(boxes).value;
    FirstLargestUnique(boxes, k, k');
  }

  /** The first-largest index is unique, so the scan's result is fully determined. */
  lemma FirstLargestUnique(boxes: seq<Box>, k1: int, k2: int)
    requires IsFirstLargest(boxes, k1) && IsFirstLargest(boxes, k2)
    ensures k1 == k2
  {
  }

  /**
   * `detect_face_bbox` after detection: no detector gives None, an empty list
   * gives None, otherwise a linear scan keeps the box of largest area, the
   * first one on a tie and never one of area 0.
   */
  method DetectFaceBbox(detections: Option<seq<Box>>) returns (best: Option<Box>)
    ensures detections.None? ==> best.None?
    ensures detections.Some? ==> best == LargestFace(detections.value)
    ensures detections.Some? ==>
      (best.None? <==> forall i :: 0 <= i < |detections.value| ==> Area(detections.value[i]) <= 0)
    ensures best.Some? ==>
      && detections.Some?
      && exists k :: IsFirstLargest(detections.value, k) && detections.value[k] == best.value
  {
    if detections.None? {
      return None;
    }
    var boxes := detections.value;
    if |boxes| == 0 {
      return None;
    }
    best := None;
    var bestArea := 0;
    for i := 0 to |boxes|
      invariant best == LargestFace(boxes[..i])
      invariant bestArea == BestArea(best)
    {
      var b := boxes[i];
      var area := b.width * b.height;
      assert boxes[..i + 1][..i] == boxes[..i];
      if area > bestArea {
        best := Some(Box(b.x, b.y, b.width, b.height));
        bestArea := area;
      }
    }
    assert boxes[..|boxes|] == boxes;
    LargestFaceNoneIff(boxes);
    LargestFaceIsFirstLargest(boxes);
  }
}
