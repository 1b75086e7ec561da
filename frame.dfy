/**
 * One pass of the capture loop of vision.py, without the camera and the
 * window: mask the frame, find its contours, select the largest one and
 * report the centre of its bounding rectangle.
 */
module Frame {
  import opened Wrappers
  import opened Segmentation
  import opened Target
  import opened Coordinates

  /**
   * Processes one frame, already converted to HSV. `findContours` stands
   * for OpenCV's blur, edge detection and contour extraction on the mask.
   * The reported point is the centre of the first largest contour, and the
   * origin when no contour has a positive area.
   */
  method ProcessFrame(pixels: seq<Hsv>, findContours: seq<u8> -> seq<Contour>)
    returns (mask: seq<u8>, target: Option<Contour>, p: Point)
    ensures mask == Threshold(pixels)
    ensures target == Largest(findContours(mask))
    ensures target.Some? ==> target.value in findContours(mask)
    ensures p == FindCoordinates(target)
    ensures (forall i | 0 <= i < |findContours(mask)| :: findContours(mask)[i].area <= 0.0) ==> p == Origin
  {
    mask := Threshold(pixels);
    var contours := findContours(mask);
    target := FindTarget(contours);
    p := FindCoordinates(target);
  }
}
