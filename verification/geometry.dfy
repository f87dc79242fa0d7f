/** Plane geometry shared by the detector, the corner orderer and the cropper. */
module Geometry {

  /** Sizes and areas reported by the image library are never negative. */
  type NonNegReal = r: real | 0.0 <= r

  /** A point in image coordinates: x grows to the right, y grows downwards. */
  datatype Point = Point(x: real, y: real)

  /** The four corners of a rotated rectangle. */
  type Quad = s: seq<Point> | |s| == 4
    witness [Point(0.0, 0.0), Point(0.0, 0.0), Point(0.0, 0.0), Point(0.0, 0.0)]

  /** An integer pixel rectangle, as `cv.Rect(x, y, width, height)`. */
  datatype Rect = Rect(x: int, y: int, width: int, height: int)

  /** Width over height of a licence plate (`PLATE_ASPECT_RATIO`). */
  const PlateAspectRatio: real := 3.0

  /** The corner-ordering key `x + y`: smallest at the top-left. */
  function CoordSum(p: Point): (sum: real) {
    p.x + p.y
  }

  /** `n` is the integer nearest to `x`, a half going up. */
  predicate IsNearest(n: int, x: real) {
    x - 0.5 < n as real <= x + 0.5
  }

  /** `Math.round`: the nearest integer, halves rounded up. */
  function Round(x: real): (r: int)
    ensures IsNearest(r, x)
  {
    (x + 0.5).Floor
  }
}
