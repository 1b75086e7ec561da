/**
 * Selection of the largest contour of a frame (`find_target` in vision.py).
 *
 * Finding the contours (median blur, Canny edges, `cv2.findContours`) is
 * done by OpenCV, and so are `cv2.contourArea` and `cv2.boundingRect`: a
 * contour is therefore modelled by an identity together with the two
 * values those calls give for it.
 */
module Target {
  import opened Wrappers

  /** The axis-aligned bounding rectangle `(x, y, w, h)` that `cv2.boundingRect` gives. */
  datatype Rect = Rect(x: int, y: int, w: int, h: int)

  /** A contour: an opaque identity, its enclosed area and its bounding rectangle. */
  datatype Contour = Contour(id: nat, area: real, box: Rect)

  /** The larger of two areas. */
  function Max(a: real, b: real): (m: real)
    ensures m >= a && m >= b
    ensures m == a || m == b
  {
    if a < b then b else a
  }

  /**
   * The largest area among `cs`, or 0 when none is positive: the value the
   * running maximum `largestArea` holds once it has seen `cs`.
   */
  function MaxArea(cs: seq<Contour>): (m: real)
    ensures m >= 0.0
    ensures forall i | 0 <= i < |cs| :: cs[i].area <= m
    ensures m == 0.0 || exists i | 0 <= i < |cs| :: cs[i].area == m
  {
    if cs == [] then 0.0 else Max(MaxArea(cs[..|cs| - 1]), cs[|cs| - 1].area)
  }

  /** The index of the first contour of `cs` whose area is `a`, or `|cs|` when there is none. */
  function FirstWithArea(cs: seq<Contour>, a: real): (k: nat)
    ensures k <= |cs|
    ensures k < |cs| ==> cs[k].area == a
    ensures forall j | 0 <= j < k :: cs[j].area != a
    ensures (exists j | 0 <= j < |cs| :: cs[j].area == a) ==> k < |cs|
  {
    if cs == [] then 0
    else if cs[0].area == a then 0
    else 1 + FirstWithArea(cs[1..], a)
  }

  /**
   * The index of the target of `cs`, computed in two passes: first the
   * largest area, then the first contour that has it. There is no target
   * when no area is positive.
   */
  function LargestIndex(cs: seq<Contour>): (r: Option<nat>)
    ensures r.Some? ==> r.value < |cs|
  {
    var m := MaxArea(cs);
    if m == 0.0 then None else Some(FirstWithArea(cs, m))
  }

  /** The target contour of `cs`, if there is one. */
  function Largest(cs: seq<Contour>): (t: Option<Contour>)
    ensures t.Some? ==> t.value in cs
  {
    match LargestIndex(cs)
    case None => None
    case Some(k) => Some(cs[k])
  }

  /**
   * `cs[k]` is the contour `find_target` settles on: its area is positive,
   * no contour has a larger one, and every contour before it has a smaller
   * one (the first of several equal largest contours wins).
   */
  ghost predicate IsFirstLargest(cs: seq<Contour>, k: int)
  {
    && 0 <= k < |cs|
    && cs[k].area > 0.0
    && (forall j | 0 <= j < |cs| :: cs[j].area <= cs[k].area)
    && (forall j | 0 <= j < k :: cs[j].area < cs[k].area)
  }

  /** The reference selection picks exactly the first largest contour, and no other index. */
  lemma LargestIndexIsFirstLargest(cs: seq<Contour>, k: int)
    ensures LargestIndex(cs) == Some(k) <==> IsFirstLargest(cs, k)
  {
    var m := MaxArea(cs);
    if LargestIndex(cs) == Some(k) {
      assert m > 0.0 && cs[k].area == m;
    }
    if IsFirstLargest(cs, k) {
      assert cs[k].area == m by {
        assert cs[k].area <= m;
        assert m == 0.0 || exists i | 0 <= i < |cs| :: cs[i].area == m;
      }
      var f := FirstWithArea(cs, m);
      assert f == k;
    }
  }

  /** There is no target exactly when the sequence is empty or no area is positive. */
  lemma NoTargetIffNoPositiveArea(cs: seq<Contour>)
    ensures Largest(cs).None? <==> forall i | 0 <= i < |cs| :: cs[i].area <= 0.0
  {
    if Largest(cs).None? {
      assert MaxArea(cs) == 0.0;
    } else {
      var k := LargestIndex(cs).value;
      LargestIndexIsFirstLargest(cs, k);
    }
  }

  /**
   * A target is one of the contours given, no contour has a larger area,
   * and its area is the final running maximum.
   */
  lemma TargetIsLargest(cs: seq<Contour>)
    requires Largest(cs).Some?
    ensures Largest(cs).value in cs
    ensures Largest(cs).value.area == MaxArea(cs) > 0.0
    ensures forall i | 0 <= i < |cs| :: cs[i].area <= Largest(cs).value.area
  {
    LargestIndexIsFirstLargest(cs, LargestIndex(cs).value);
  }

  /** Seeing one more contour raises the running maximum to that contour's area, if it is larger. */
  lemma MaxAreaSnoc(cs: seq<Contour>, c: Contour)
    ensures MaxArea(cs + [c]) == Max(MaxArea(cs), c.area)
  {
    assert (cs + [c])[..|cs|] == cs;
  }

  /** A contour strictly larger than every one before it is the first largest of the extended sequence. */
  lemma NewLargest(cs: seq<Contour>, c: Contour)
    requires c.area > MaxArea(cs)
    ensures IsFirstLargest(cs + [c], |cs|)
  {
    var ds := cs + [c];
    forall j | 0 <= j < |cs|
      ensures ds[j].area < c.area
    {
      assert ds[j] == cs[j];
    }
  }

  /** A contour no larger than the first largest one leaves it the first largest. */
  lemma OldLargest(cs: seq<Contour>, c: Contour, k: int)
    requires IsFirstLargest(cs, k)
    requires c.area <= cs[k].area
    ensures IsFirstLargest(cs + [c], k)
  {
    var ds := cs + [c];
    forall j | 0 <= j < |cs|
      ensures ds[j] == cs[j]
    {
    }
  }

  /**
   * One more contour `c` becomes the target exactly when its area is
   * strictly larger than the largest seen so far; otherwise, in particular
   * when it only ties, the target stays the one already chosen.
   */
  lemma LargestIndexSnoc(cs: seq<Contour>, c: Contour)
    ensures MaxArea(cs + [c]) == Max(MaxArea(cs), c.area)
    ensures LargestIndex(cs + [c]) == if c.area > MaxArea(cs) then Some(|cs|) else LargestIndex(cs)
  {
    MaxAreaSnoc(cs, c);
    var m := MaxArea(cs);
    if c.area > m {
      NewLargest(cs, c);
      LargestIndexIsFirstLargest(cs + [c], |cs|);
    } else if m > 0.0 {
      var k := LargestIndex(cs).value;
      LargestIndexIsFirstLargest(cs, k);
      OldLargest(cs, c, k);
      LargestIndexIsFirstLargest(cs + [c], k);
    }
  }

  /**
   * One step of the selection loop: the running maximum and the target after
   * one more contour `c`, in terms of those before it.
   */
  lemma LargestSnoc(cs: seq<Contour>, c: Contour)
    ensures MaxArea(cs + [c]) == if c.area > MaxArea(cs) then c.area else MaxArea(cs)
    ensures Largest(cs + [c]) == if c.area > MaxArea(cs) then Some(c) else Largest(cs)
  {
    LargestIndexSnoc(cs, c);
    if c.area > MaxArea(cs) {
      assert (cs + [c])[|cs|] == c;
    } else if LargestIndex(cs).Some? {
      assert (cs + [c])[LargestIndex(cs).value] == cs[LargestIndex(cs).value];
    }
  }

  /**
   * The selection loop of `find_target`: one pass that keeps the running
   * maximum `largestArea`, starting at 0, and the contour that reached it,
   * replacing both only on a strictly larger area.
   */
  method FindTarget(contours: seq<Contour>) returns (target: Option<Contour>)
    ensures target == Largest(contours)
    ensures target.None? <==> forall i | 0 <= i < |contours| :: contours[i].area <= 0.0
    ensures target.Some? ==> target.value in contours
    ensures target.Some? ==> forall i | 0 <= i < |contours| :: contours[i].area <= target.value.area
  {
    var largestArea := 0.0;
    target := None;
    for i := 0 to |contours|
      invariant largestArea == MaxArea(contours[..i])
      invariant target == Largest(contours[..i])
    {
      ghost var seen := contours[..i];
      LargestSnoc(seen, contours[i]);
      assert contours[..i + 1] == seen + [contours[i]];
      var area := contours[i].area;
      if area > largestArea {
        largestArea := area;
        target := Some(contours[i]);
      }
    }
    assert contours[..|contours|] == contours;
    NoTargetIffNoPositiveArea(contours);
    if target.Some? {
      TargetIsLargest(contours);
    }
  }
}
