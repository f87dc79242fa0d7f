/** `detectLicensePlate` with the image operations taken out: from the
    contours of a frame to the plate's corners, the rectified size, the
    destination corners and the crop of the white centre. */
module Detection {
  import opened Wrappers
  import opened Geometry
  import opened Candidates
  import opened Corners
  import opened Rectify

  /** What the detector hands on for a found plate. */
  datatype PlateRegion = PlateRegion(corners: Quad, size: PlateSize, destination: Quad, crop: Rect)

  /** The rotated rectangle of least area encloses its contour, so its area
      is at least the contour's. The image library guarantees this; the model
      states it as a precondition where it is used. */
  predicate Encloses(c: Candidate) {
    c.rect.width * c.rect.height >= c.area
  }

  /** The region of candidate `c`, with the corners found for it. */
  predicate IsRegionOf(reg: PlateRegion, c: Candidate, atan2: (real, real) -> real) {
    && multiset(reg.corners) == multiset(c.rect.vertices)
    && (forall i :: 0 <= i < 4 ==> CoordSum(reg.corners[0]) <= CoordSum(reg.corners[i]))
    && (exists k: nat | k < 4 :: IsFirstMinSum(AngleOrder(c.rect.vertices, atan2), k)
                 && reg.corners == Rotate(AngleOrder(c.rect.vertices, atan2), k))
    && reg.size == RectifiedSize(c.rect.width, c.rect.height)
    && reg.destination == DestinationCorners(reg.size)
    && reg.crop == CropRect(reg.size)
  }

  method DetectLicensePlate(cs: seq<Candidate>, atan2: (real, real) -> real) returns (r: Option<PlateRegion>)
    ensures r.None? <==> forall i :: 0 <= i < |cs| ==> !Eligible(cs[i])
    ensures r.Some? ==> exists k: nat | k < |cs| :: IsSelection(cs, Some(k)) && IsRegionOf(r.value, cs[k], atan2)
  {
    var chosen := SelectPlate(cs);
    if chosen.None? {
      return None;
    }
    var k := chosen.value;
    var rect := cs[k].rect;
    var corners := SortRectPoints(rect.vertices, atan2);
    var size := RectifiedSize(rect.width, rect.height);
    var region := PlateRegion(corners, size, DestinationCorners(size), CropRect(size));
    r := Some(region);
    assert IsRegionOf(region, cs[k], atan2);
  }

  /** The crop of a found plate is non-empty and lies inside the rectified
      image, as `roi` requires, once the chosen rectangle encloses its
      contour. */
  lemma CropOfRegionFits(reg: PlateRegion, c: Candidate, atan2: (real, real) -> real)
    requires IsRegionOf(reg, c, atan2) && Eligible(c) && Encloses(c)
    ensures var crop := reg.crop;
      && 0 <= crop.x && 0 <= crop.y && 0 < crop.width && 0 < crop.height
      && (crop.x + crop.width) as real <= reg.size.width
      && (crop.y + crop.height) as real <= reg.size.height
  {
    EnclosingRectIsLarge(c);
    CropWithinRectifiedPlate(c.rect.width, c.rect.height);
  }

  /** A contour that passes the area gate has area at least 1000, so an
      enclosing rectangle has a side of at least 30 (since 30 * 30 < 1000). */
  lemma EnclosingRectIsLarge(c: Candidate)
    requires c.area >= MinArea && Encloses(c)
    ensures c.rect.width >= 30.0 || c.rect.height >= 30.0
  {
    LargeRectHasLongSide(c.rect.width, c.rect.height);
  }

  lemma LargeRectHasLongSide(w: NonNegReal, h: NonNegReal)
    requires w * h >= 1000.0
    ensures w >= 30.0 || h >= 30.0
  {
    if w < 30.0 {
      NonNegProduct(30.0 - w, h);
      assert (30.0 - w) * h == 30.0 * h - w * h;
    }
  }

  lemma NonNegProduct(a: real, b: real)
    requires 0.0 <= a && 0.0 <= b
    ensures 0.0 <= a * b
  {
  }
}
