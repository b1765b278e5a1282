/** The geometry of dvgutils/vis.py: where `put_text` puts its background box and its text, and which
    pixels `rectangle_overlay` changes. Measuring the text (`cv2.getTextSize`), rendering it
    (`cv2.putText`) and the colour arithmetic of the blend are outside the model: the text size and
    baseline are inputs, and the blend is a per-pixel function. */
module Vis {
  import opened Wrappers
  import opened Points
  import opened Misc

  /** The background box (pt1 top-left, pt2 bottom-right) and the text origin of `put_text`, for a
      text `textW` wide and `textH` tall above a `baseline`, placed with the corner `orgPos` of the box
      at `org`. A corner name other than "tl", "tr", "bl" and "br" leaves the box unassigned, which
      fails with UnboundLocalError. */
  function TextBox(org: Point, textW: int, textH: int, baseline: int, padding: int, orgPos: string)
    : (r: Result<(Point, Point, Point)>)
    ensures r.Err? <==> orgPos != "tl" && orgPos != "tr" && orgPos != "bl" && orgPos != "br"
    ensures r.Err? ==> r.error == UnboundLocalError
  {
    var (x, y) := (org.x, org.y);
    if orgPos == "tl" then
      Ok((Point(x, y),
          Point(x + textW + 2 * padding, y + textH + baseline + 2 * padding),
          Point(x + padding, y + textH + padding)))
    else if orgPos == "tr" then
      Ok((Point(x - textW - 2 * padding, y),
          Point(x, y + textH + baseline + 2 * padding),
          Point(x - textW - padding, y + textH + padding)))
    else if orgPos == "bl" then
      Ok((Point(x, y - textH - baseline - 2 * padding),
          Point(x + textW + 2 * padding, y),
          Point(x + padding, y - padding - baseline)))
    else if orgPos == "br" then
      Ok((Point(x - textW - 2 * padding, y - textH - baseline - 2 * padding),
          Point(x, y),
          Point(x - textW - padding, y - baseline - padding)))
    else
      Err(UnboundLocalError)
  }

  /** For every corner name: the box is textW + 2 padding wide and textH + baseline + 2 padding tall;
      `org` is the named corner of it; the text starts `padding` in from the left edge with its
      baseline textH + padding below the top edge; and with non-negative sizes pt1 is above and to
      the left of pt2. */
  lemma TextBoxGeometry(org: Point, textW: int, textH: int, baseline: int, padding: int, orgPos: string)
    requires TextBox(org, textW, textH, baseline, padding, orgPos).Ok?
    ensures var (pt1, pt2, textOrg) := TextBox(org, textW, textH, baseline, padding, orgPos).value;
      && pt2.x - pt1.x == textW + 2 * padding
      && pt2.y - pt1.y == textH + baseline + 2 * padding
      && textOrg == Point(pt1.x + padding, pt1.y + textH + padding)
      && (orgPos == "tl" ==> pt1 == org)
      && (orgPos == "br" ==> pt2 == org)
      && (orgPos == "tr" ==> Point(pt2.x, pt1.y) == org)
      && (orgPos == "bl" ==> Point(pt1.x, pt2.y) == org)
      && (textW >= 0 && textH >= 0 && baseline >= 0 && padding >= 0 ==> pt1.x <= pt2.x && pt1.y <= pt2.y)
  {
  }

  /** The rows [top, bottom) and columns [left, right) of `image[pt1.y:pt2.y, pt1.x:pt2.x]` once both
      points are clipped to a `width` x `height` image (empty when a start passes its end). */
  ghost predicate InOverlay(row: int, col: int, pt1: Point, pt2: Point, width: int, height: int)
  {
    var clipped := ClipPoints([pt1, pt2], width, height).value;
    clipped[0].y <= row < clipped[1].y && clipped[0].x <= col < clipped[1].x
  }

  /** `rectangle_overlay(image, pt1, pt2, color, alpha)`: every pixel of the clipped rectangle is
      replaced by its blend with the colour, and no other pixel changes. Rows of `image` are y,
      columns are x. */
  method RectangleOverlay<P>(image: array2<P>, pt1: Point, pt2: Point, blend: P -> P)
    modifies image
    ensures forall r, c :: 0 <= r < image.Length0 && 0 <= c < image.Length1 ==>
              image[r, c] == if InOverlay(r, c, pt1, pt2, image.Length1, image.Length0)
                             then blend(old(image[r, c])) else old(image[r, c])
  {
    var h, w := image.Length0, image.Length1;
    var clipped := ClipPoints([pt1, pt2], w, h);
    var top, bottom := clipped.value[0].y, clipped.value[1].y;
    var left, right := clipped.value[0].x, clipped.value[1].x;
    assert 0 <= top <= h && 0 <= bottom <= h && 0 <= left <= w && 0 <= right <= w;
    var i := top;
    while i < bottom
      invariant top <= i <= h && (i <= bottom || i == top)
      invariant forall r, c :: 0 <= r < h && 0 <= c < w ==>
                  image[r, c] == if top <= r < i && left <= c < right then blend(old(image[r, c])) else old(image[r, c])
    {
      var j := left;
      while j < right
        invariant left <= j <= w && (j <= right || j == left)
        invariant forall r, c :: 0 <= r < h && 0 <= c < w ==>
                    image[r, c] == if (top <= r < i && left <= c < right) || (r == i && left <= c < j)
                                   then blend(old(image[r, c])) else old(image[r, c])
      {
        image[i, j] := blend(image[i, j]);
        j := j + 1;
      }
      i := i + 1;
    }
    assert forall r, c :: InOverlay(r, c, pt1, pt2, w, h) <==> top <= r < bottom && left <= c < right;
  }

  /** `put_text` without the rendering: the box of `TextBox`, with the overlay of `RectangleOverlay`
      drawn over it exactly when a background colour is given (`bgBlend`, the blend with that colour
      at the background alpha); the image is left alone otherwise and on a bad corner name. */
  method PutText<P>(image: array2<P>, org: Point, textW: int, textH: int, baseline: int, padding: int,
                    orgPos: string, bgBlend: Option<P -> P>)
    returns (r: Result<(Point, Point)>)
    modifies image
    ensures var box := TextBox(org, textW, textH, baseline, padding, orgPos);
      && (box.Err? ==> r == Err(box.error))
      && (box.Ok? ==> r == Ok((box.value.0, box.value.1)))
    ensures r.Err? || bgBlend.None? ==> forall i, j :: 0 <= i < image.Length0 && 0 <= j < image.Length1 ==>
              image[i, j] == old(image[i, j])
    ensures r.Ok? && bgBlend.Some? ==> forall i, j :: 0 <= i < image.Length0 && 0 <= j < image.Length1 ==>
              image[i, j] == if InOverlay(i, j, r.value.0, r.value.1, image.Length1, image.Length0)
                             then bgBlend.value(old(image[i, j])) else old(image[i, j])
  {
    var box := TextBox(org, textW, textH, baseline, padding, orgPos);
    if box.Err? {
      return Err(box.error);
    }
    var (pt1, pt2, _) := box.value;
    if bgBlend.Some? {
      RectangleOverlay(image, pt1, pt2, bgBlend.value);
    }
    r := Ok((pt1, pt2));
  }
}
