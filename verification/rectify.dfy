/** The geometry of straightening and cropping the chosen plate: the size of
    the rectified image, where its corners go, and the rectangle of the white
    centre that holds the characters. */
module Rectify {
  import opened Geometry

  /** Share of the plate's height kept for the characters. */
  const WhiteHeightRatio: real := 0.65

  /** Share of the height cut off above, where BRASIL is printed. */
  const TopMarginRatio: real := 0.25

  /** Share of the width kept for the characters. */
  const WhiteWidthRatio: real := 0.9

  /** Share of the width cut off on the left, where BR is printed. */
  const LeftMarginRatio: real := 0.05

  /** The size of the rectified plate image. */
  datatype PlateSize = PlateSize(width: real, height: real)

  /** The long side of the rotated rectangle becomes the width, and the
      height is forced to a third of it whatever the short side measured. */
  function RectifiedSize(width: NonNegReal, height: NonNegReal): (s: PlateSize)
    ensures s.width >= width && s.width >= height
    ensures s.width == width || s.width == height
    ensures s.height * PlateAspectRatio == s.width
  {
    var plateWidth := if width > height then width else height;
    PlateSize(plateWidth, plateWidth / PlateAspectRatio)
  }

  /** The measured short side plays no part. */
  lemma ShortSideIgnored(long: NonNegReal, short1: NonNegReal, short2: NonNegReal)
    requires short1 <= long && short2 <= long
    ensures RectifiedSize(long, short1) == RectifiedSize(long, short2)
    ensures RectifiedSize(short1, long) == RectifiedSize(long, short1)
  {
  }

  /** The order of the two sides does not matter. */
  lemma RectifiedSizeSymmetric(width: NonNegReal, height: NonNegReal)
    ensures RectifiedSize(width, height) == RectifiedSize(height, width)
  {
  }

  /** Where the sorted corners are sent: top-left, top-right, bottom-right,
      bottom-left of a `W` by `H` image, in pixel coordinates `0 .. W - 1`. */
  function DestinationCorners(s: PlateSize): (d: Quad)
    ensures d[0] == Point(0.0, 0.0)
    ensures d[0].y == d[1].y && d[2].y == d[3].y && d[0].x == d[3].x && d[1].x == d[2].x
    ensures d[1].x == s.width - 1.0 && d[3].y == s.height - 1.0
  {
    [Point(0.0, 0.0), Point(s.width - 1.0, 0.0), Point(s.width - 1.0, s.height - 1.0), Point(0.0, s.height - 1.0)]
  }

  /** Once the image is at least a pixel each way, the first destination
      corner has the least `x + y`, the same corner the corner orderer puts
      first, and the corners run clockwise on screen. */
  lemma DestinationStartsTopLeft(s: PlateSize)
    requires s.width >= 1.0 && s.height >= 1.0
    ensures var d := DestinationCorners(s);
      forall i :: 0 <= i < 4 ==> CoordSum(d[0]) <= CoordSum(d[i])
    ensures var d := DestinationCorners(s);
      d[0].x <= d[1].x && d[1].y <= d[2].y && d[3].x <= d[2].x && d[0].y <= d[3].y
  {
  }

  /** The white centre of the plate, each side rounded with `Math.round`. */
  function CropRect(s: PlateSize): (r: Rect)
    ensures IsNearest(r.x, s.width * LeftMarginRatio)
    ensures IsNearest(r.y, s.height * TopMarginRatio)
    ensures IsNearest(r.width, s.width * WhiteWidthRatio)
    ensures IsNearest(r.height, s.height * WhiteHeightRatio)
  {
    var leftMargin := s.width * LeftMarginRatio;
    var topMargin := s.height * TopMarginRatio;
    var whiteAreaWidth := s.width * WhiteWidthRatio;
    var whiteAreaHeight := s.height * WhiteHeightRatio;
    Rect(Round(leftMargin), Round(topMargin), Round(whiteAreaWidth), Round(whiteAreaHeight))
  }

  /** The crop stays inside the rectified image across once the image is at
      least 20 pixels wide; below that, rounding can push it past the right
      edge. The bound is against the real size, so it holds for any
      whole-pixel size at least the truncated one. */
  lemma CropWithinWidth(s: PlateSize)
    requires s.width >= 20.0
    ensures var r := CropRect(s);
      0 <= r.x && 0 < r.width && (r.x + r.width) as real <= s.width
  {
  }

  /** Likewise down the image, once it is at least 10 pixels high. */
  lemma CropWithinHeight(s: PlateSize)
    requires s.height >= 10.0
    ensures var r := CropRect(s);
      0 <= r.y && 0 < r.height && (r.y + r.height) as real <= s.height
  {
  }

  /** Below that width the bound can fail: an image 10.9 pixels wide gets
      a crop from 1 to 11, past its right edge. */
  lemma NarrowCropOverflows()
    ensures var r := CropRect(PlateSize(10.9, 10.0));
      r.x == 1 && r.width == 10 && (r.x + r.width) as real > 10.9
  {
    var r := CropRect(PlateSize(10.9, 10.0));
    assert IsNearest(r.x, 10.9 * LeftMarginRatio);
    assert IsNearest(r.width, 10.9 * WhiteWidthRatio);
  }

  /** For a plate the detector actually sizes, both bounds hold as soon as
      the long side reaches 30. */
  lemma CropWithinRectifiedPlate(width: NonNegReal, height: NonNegReal)
    requires width >= 30.0 || height >= 30.0
    ensures var s := RectifiedSize(width, height);
      var r := CropRect(s);
      && 0 <= r.x && 0 <= r.y && 0 < r.width && 0 < r.height
      && (r.x + r.width) as real <= s.width
      && (r.y + r.height) as real <= s.height
  {
    CropWithinWidth(RectifiedSize(width, height));
    CropWithinHeight(RectifiedSize(width, height));
  }

  /** A 300 by 100 plate is cropped to the 270 by 65 rectangle at (15, 25). */
  lemma CropExample()
    ensures CropRect(PlateSize(300.0, 100.0)) == Rect(15, 25, 270, 65)
  {
  }
}
