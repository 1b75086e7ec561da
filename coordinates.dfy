/**
 * The image position of the target (`find_coordinates` in vision.py): the
 * centre of the target's bounding rectangle, or the origin when there is no
 * target. The division by 2 is Python 3's true division, so the coordinates
 * are reals.
 */
module Coordinates {
  import opened Wrappers
  import opened Target

  /** A point of the image plane. */
  datatype Point = Point(x: real, y: real)

  /** The point reported when a frame has no target. */
  const Origin: Point := Point(0.0, 0.0)

  /**
   * The centre of the target's bounding rectangle: it lies as far from the
   * left edge as from the right one, and as far from the top edge as from
   * the bottom one. Without a target the result is the origin.
   */
  function FindCoordinates(target: Option<Contour>): (p: Point)
    ensures target.None? ==> p == Origin
    ensures target.Some? ==>
      var b := target.value.box;
      && p.x - b.x as real == (b.x + b.w) as real - p.x
      && p.y - b.y as real == (b.y + b.h) as real - p.y
  {
    match target
    case None => Origin
    case Some(c) =>
      var rect := c.box;
      Point(rect.x as real + rect.w as real / 2.0, rect.y as real + rect.h as real / 2.0)
  }

  /** The centre of a rectangle with non-negative sides lies inside the closed rectangle. */
  lemma CentreInsideBox(c: Contour)
    requires c.box.w >= 0 && c.box.h >= 0
    ensures c.box.x as real <= FindCoordinates(Some(c)).x <= (c.box.x + c.box.w) as real
    ensures c.box.y as real <= FindCoordinates(Some(c)).y <= (c.box.y + c.box.h) as real
  {
  }

  /**
   * A rectangle that `cv2.boundingRect` can return for a contour in the
   * image (non-negative corner, sides of at least one pixel) never has its
   * centre at the origin, so the origin reported for "no target" cannot be
   * mistaken for a target.
   */
  lemma OriginIsNoTarget(target: Option<Contour>)
    requires target.Some? ==> target.value.box.x >= 0 && target.value.box.y >= 0
    requires target.Some? ==> target.value.box.w >= 1 && target.value.box.h >= 1
    ensures FindCoordinates(target) == Origin <==> target.None?
  {
  }
}
