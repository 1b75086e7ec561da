/**
 * Colour segmentation of one frame (`threshold` in vision.py).
 *
 * The conversion to HSV is done by OpenCV and is not part of this model:
 * the frame arrives here already converted, as a flat row-major sequence of
 * pixels. What is modelled is the inclusive range test `cv2.inRange` applies
 * with the two constant bounds, which sets a mask byte to 255 for a pixel
 * inside the range and to 0 otherwise.
 */
module Segmentation {

  /** One 8-bit channel value, as in a `np.uint8` image. */
  newtype u8 = x: int | 0 <= x < 256

  /** A pixel in hue/saturation/value form. */
  datatype Hsv = Hsv(h: u8, s: u8, v: u8)

  /** The lower and upper bounds of the green the robot looks for. */
  const ThreshMin: Hsv := Hsv(50, 50, 0)
  const ThreshMax: Hsv := Hsv(80, 255, 255)

  /** The mask byte of a selected pixel, and of a rejected one. */
  const Set: u8 := 255
  const Clear: u8 := 0

  /** Every channel of `p` lies between those of `lo` and `hi`, both ends included. */
  predicate InRange(p: Hsv, lo: Hsv, hi: Hsv)
  {
    && lo.h <= p.h <= hi.h
    && lo.s <= p.s <= hi.s
    && lo.v <= p.v <= hi.v
  }

  /**
   * The mask of a frame: one byte per pixel, 255 exactly where the pixel's
   * hue is in [50, 80], its saturation in [50, 255] and its value in [0, 255].
   */
  function Threshold(pixels: seq<Hsv>): (mask: seq<u8>)
    ensures |mask| == |pixels|
    ensures forall i | 0 <= i < |pixels| ::
      mask[i] == (if 50 <= pixels[i].h <= 80 && 50 <= pixels[i].s <= 255 && 0 <= pixels[i].v <= 255
                  then 255 else 0)
  {
    seq(|pixels|, i requires 0 <= i < |pixels| =>
      if InRange(pixels[i], ThreshMin, ThreshMax) then Set else Clear)
  }

  /**
   * On 8-bit channels the upper saturation bound and both value bounds
   * exclude nothing: a pixel is selected exactly when its hue is in [50, 80]
   * and its saturation is at least 50.
   */
  lemma SelectedIffGreen(pixels: seq<Hsv>, i: int)
    requires 0 <= i < |pixels|
    ensures Threshold(pixels)[i] == Set <==> 50 <= pixels[i].h <= 80 && 50 <= pixels[i].s
    ensures Threshold(pixels)[i] == Clear <==> !(50 <= pixels[i].h <= 80 && 50 <= pixels[i].s)
  {
  }

  /** Brightness never changes the mask: frames that agree on hue and saturation get the same mask. */
  lemma ThresholdIgnoresValue(a: seq<Hsv>, b: seq<Hsv>)
    requires |a| == |b|
    requires forall i | 0 <= i < |a| :: a[i].h == b[i].h && a[i].s == b[i].s
    ensures Threshold(a) == Threshold(b)
  {
    var ma, mb := Threshold(a), Threshold(b);
    assert forall i | 0 <= i < |ma| :: ma[i] == mb[i];
  }

  /**
   * The mask byte of a pixel is the outcome of the range test on that pixel
   * alone: the bridge from the literal bounds in `Threshold`'s contract to
   * the named constants `ThreshMin` and `ThreshMax`.
   */
  lemma MaskAt(pixels: seq<Hsv>, i: int)
    requires 0 <= i < |pixels|
    ensures Threshold(pixels)[i] == if InRange(pixels[i], ThreshMin, ThreshMax) then Set else Clear
  {
  }

  /**
   * The mask is blank (the target colour is absent from the frame) exactly
   * when no pixel lies in the range; a blank mask is an ordinary result.
   */
  lemma BlankIffNoPixelInRange(pixels: seq<Hsv>)
    ensures (forall i | 0 <= i < |pixels| :: Threshold(pixels)[i] == Clear)
        <==> (forall i | 0 <= i < |pixels| :: !InRange(pixels[i], ThreshMin, ThreshMax))
  {
    var mask := Threshold(pixels);
    forall i | 0 <= i < |pixels|
      ensures mask[i] == Clear <==> !InRange(pixels[i], ThreshMin, ThreshMax)
    {
      MaskAt(pixels, i);
    }
  }

  /** The mask is computed pixel by pixel: masking two parts of a frame and joining them masks the whole. */
  lemma {:induction false} ThresholdAppend(a: seq<Hsv>, b: seq<Hsv>)
    ensures Threshold(a + b) == Threshold(a) + Threshold(b)
  {
    var m, ma, mb := Threshold(a + b), Threshold(a), Threshold(b);
    forall i | 0 <= i < |m|
      ensures m[i] == (ma + mb)[i]
    {
      if i < |a| {
        assert (a + b)[i] == a[i];
      } else {
        assert (a + b)[i] == b[i - |a|];
      }
    }
  }
}
