/**
 * Pixel buffers as the page splitter sees them: a rectangular grid of
 * pixels indexed `rows[y][x]`, the shape `(height, width)` of a NumPy
 * image array, and half-open rectangles of it.
 */
module Raster {

  /** The channel values of one pixel; their meaning is opaque here. */
  type Pixel = seq<int>

  datatype Grid = Grid(height: nat, width: nat, rows: seq<seq<Pixel>>)

  /** A NumPy image array: `height` rows of `width` pixels each. */
  type Image = g: Grid | |g.rows| == g.height && forall y :: 0 <= y < |g.rows| ==> |g.rows[y]| == g.width
    witness Grid(0, 0, [])

  /** The half-open rectangle `[x1, x2) × [y1, y2)`. */
  datatype Rect = Rect(x1: int, y1: int, x2: int, y2: int) {

    predicate Within(width: nat, height: nat) {
      0 <= x1 <= x2 <= width && 0 <= y1 <= y2 <= height
    }

    function Width(): int { x2 - x1 }

    function Height(): int { y2 - y1 }
  }

  /**
   * `image[y1:y2, x1:x2].copy()` for a rectangle inside the image: the
   * crop has the rectangle's size and pixel `(y, x)` of the crop is pixel
   * `(y1 + y, x1 + x)` of the image.
   */
  function Crop(img: Image, r: Rect): (c: Image)
    requires r.Within(img.width, img.height)
    ensures c.height == r.Height() && c.width == r.Width()
    ensures forall y, x :: 0 <= y < c.height && 0 <= x < c.width ==> c.rows[y][x] == img.rows[r.y1 + y][r.x1 + x]
  {
    Grid(r.Height(), r.Width(),
         seq(r.Height(), y requires 0 <= y < r.Height() => img.rows[r.y1 + y][r.x1 .. r.x2]))
  }
}
