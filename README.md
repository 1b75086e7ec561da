# GeoffersreyVision target finder, in Dafny

A model of `vision.py`, the per-frame vision code of a robot's camera
coprocessor. Each frame is masked down to green pixels. The contours of the
mask are found, and the largest contour is selected as the target. The
program reports the centre of the target's bounding rectangle, or the origin
when the frame has no target.

Modules:

- `Wrappers` (`wrappers.dfy`): `Option`. It stands for the `None` that
  `find_target` returns when it finds no target.
- `Segmentation` (`segmentation.dfy`): the inclusive HSV range test of
  `threshold`, with its bounds H in [50, 80], S in [50, 255] and V in [0, 255],
  applied to each pixel. Selected pixels get mask byte 255 and the others get 0.
- `Target` (`target.dfy`): `find_target`'s selection loop as the method
  `FindTarget`. It is proved equal to a two-pass reference definition,
  `Largest`: first the largest area (at least 0), then the first contour that
  has it. The lemmas state what that selection means.
- `Coordinates` (`coordinates.dfy`): `find_coordinates`, the centre of the
  bounding rectangle, or the origin when there is no target.
- `Frame` (`frame.dfy`): the body of one pass of the capture loop. It chains
  the three stages. OpenCV's contour extraction is a function parameter.

OpenCV's results become inputs. A contour is `Contour(id, area, box)`. Its
`area` is what `cv2.contourArea` returns and its `box` is what
`cv2.boundingRect` returns. A frame is a flat, row-major sequence of pixels
that are already in HSV form.

## Model

| member | source | states |
|---|---|---|
| `Segmentation.Threshold` | vision.py:6-15 | the mask has one byte per pixel; a byte is 255 exactly when H is in [50, 80], S is in [50, 255] and V is in [0, 255], every bound inclusive, and 0 otherwise |
| `Segmentation.SelectedIffGreen` | vision.py:8-9 | on 8-bit channels, a pixel is selected iff 50 <= H <= 80 and S >= 50, and rejected iff not; the S upper bound and both V bounds exclude nothing |
| `Segmentation.MaskAt` | vision.py:15 | each mask byte depends only on its own pixel: 255 if that pixel passes the inclusive range test with the two constant bounds, 0 otherwise |
| `Segmentation.ThresholdIgnoresValue` | vision.py:8-15 | two frames that agree on hue and saturation get the same mask, whatever their brightness |
| `Segmentation.BlankIffNoPixelInRange` | vision.py:15 | the mask is all zeros exactly when no pixel lies in the range, so a frame without the colour gives a blank mask and no error |
| `Segmentation.ThresholdAppend` | vision.py:15 | the mask is computed pixel by pixel: the mask of a joined frame is the join of the masks |
| `Target.Max` | vision.py:29-30 | the larger of two areas: no smaller than either, and equal to one of them |
| `Target.MaxArea` | vision.py:26-31 | the value of the running maximum `largestArea` after a prefix: at least 0, no smaller than any area seen, and either 0 or the area of some contour seen |
| `Target.MaxAreaSnoc` | vision.py:29-30 | after one more contour, the running maximum is the larger of its old value and that contour's area |
| `Target.LargestIndexIsFirstLargest` | vision.py:26-31 | the selected index is k iff contour k has a positive area, no contour has a larger one, and every earlier contour has a strictly smaller one (the first of equal largest contours wins) |
| `Target.NoTargetIffNoPositiveArea` | vision.py:26-38 | there is no target (`None`) exactly when the list is empty or every area is at most 0 |
| `Target.TargetIsLargest` | vision.py:26-36 | a returned target is an element of the input, its area equals the final `largestArea` and is positive, and no contour has a larger area |
| `Target.LargestIndexSnoc` | vision.py:29-31 | one more contour becomes the target iff its area is strictly larger than the running maximum; on a tie or a smaller area the earlier target stays; the running maximum becomes the larger of the two |
| `Target.LargestSnoc` | vision.py:27-31 | one loop iteration: a contour strictly larger than the running maximum becomes the target and the new maximum; otherwise, ties included, both stay as they were |
| `Target.FindTarget` | vision.py:19-38 | the one-pass loop returns exactly the two-pass reference selection `Largest`: `None` iff no area is positive, otherwise a contour of the input whose area no contour exceeds |
| `Coordinates.FindCoordinates` | vision.py:42-55 | with a target, the point is as far from the rectangle's left edge as from its right edge, and as far from its top edge as from its bottom edge; without a target it is (0, 0) |
| `Coordinates.CentreInsideBox` | vision.py:45-48 | for a rectangle with w, h >= 0 the centre lies inside the closed rectangle |
| `Coordinates.OriginIsNoTarget` | vision.py:51-55 | for rectangles that `cv2.boundingRect` can return (x, y >= 0 and w, h >= 1), the result is (0, 0) iff there is no target |
| `Frame.ProcessFrame` | vision.py:64-69 | one pass gives the mask of the frame, the first largest contour of that mask, and that contour's centre; when no contour has a positive area the point is (0, 0) |

## Left out

- Camera capture (`cv2.VideoCapture`, `cap.read`), the endless `while True` loop, and the preview window (`imshow`, `waitKey`) at vision.py:58-73. These are I/O and an unbounded driver loop; one pass of the loop body is `Frame.ProcessFrame`.
- `cv2.cvtColor`, `cv2.medianBlur`, `cv2.Canny`, `cv2.findContours`, `cv2.contourArea` and `cv2.boundingRect` are OpenCV library calls. The model takes their results as inputs: HSV pixels, a contour-extraction function, and per-contour areas and rectangles.
- The drawing calls `cv2.drawContours` (vision.py:35) and `cv2.circle` (vision.py:50) only change the displayed image, so they are left out.
- `Coordinates.FindCoordinates`: the `try` at vision.py:44-53 also wraps `cv2.circle`. A drawing error there would also produce (0, 0). The model takes the fallback to mean "no contour" only and does not model OpenCV's errors.
- `find_target` reaches `None` through an `UnboundLocalError` on `largestContour`. The model uses an explicit `Option` instead.
- The global images `img` and `threshed` are explicit parameters and results.
- Images are two-dimensional in the source. The model flattens them to a sequence of pixels, because the range test treats each pixel on its own.
- The division `rect[2] / 2` is modelled as Python 3 true division, on reals. Under Python 2 it would round down to an integer. Under Python 3 these non-integer coordinates reach `cv2.circle` (vision.py:50), which may reject them, so a Python 3 run might report (0, 0) for every target or raise an error. The modelled centre is the intent stated at vision.py:43, not necessarily what such a run returns.
