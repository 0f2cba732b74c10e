/** Pixels, rasters, numpy's slicing rules and the error values shared by the cropper and the
    grid composer.

    A decoded image is a height x width grid of 3-channel, 8-bit pixels, origin at the
    top-left, stored row-major (the layout OpenCV's decoder hands back).
 */
module Images {

  /** One 8-bit channel sample. */
  type Byte = x: int | 0 <= x < 256

  /** A colour sample in OpenCV's channel order (blue, green, red). */
  datatype Pixel = Pixel(b: Byte, g: Byte, r: Byte)

  /** The background colour of a fresh composite canvas. */
  const White: Pixel := Pixel(255, 255, 255)

  /** A decoded image: its shape and its rows of pixels. The shape is kept beside the rows
      because an image with no rows still has a width (a numpy array of shape (0, w, 3)). */
  datatype Raster = Raster(height: nat, width: nat, px: seq<seq<Pixel>>)

  /** The rows agree with the shape: `height` rows of `width` pixels each. */
  predicate WellFormed(img: Raster) {
    |img.px| == img.height && forall r :: 0 <= r < |img.px| ==> |img.px[r]| == img.width
  }

  /** The errors the two scripts raise. */
  datatype Error =
    | LoadError(message: string)   // the decoder returned nothing for a path
    | ShapeMismatch                // numpy refused a slice assignment of the wrong shape

  /** Python's `min` and `max` on two integers. */
  function Min(a: int, b: int): int { if a <= b then a else b }

  function Max(a: int, b: int): int { if a >= b then a else b }

  /** Python's normalisation of one slice index against a length `n` (step 1): a negative index
      counts from the end, and the result is cut to `[0, n]`. */
  function AdjustIndex(i: int, n: nat): (r: int)
    ensures 0 <= r <= n
    ensures 0 <= i <= n ==> r == i
    ensures i < 0 && i + n >= 0 ==> r == i + n
    ensures i + n < 0 ==> r == 0
    ensures i > n ==> r == n
  {
    if i < 0 then Max(i + n, 0) else Min(i, n)
  }

  /** The half-open range `[lo, hi)` that `seq[start:stop]` selects from a sequence of length `n`;
      a stop before the start selects nothing. */
  function SliceBounds(n: nat, start: int, stop: int): (r: (nat, nat))
    ensures r.0 <= r.1 <= n
    ensures 0 <= start <= stop <= n ==> r == (start, stop)
    ensures 0 <= stop <= start ==> r.0 == r.1
  {
    var lo := AdjustIndex(start, n);
    var hi := AdjustIndex(stop, n);
    (lo, Max(lo, hi))
  }

  /** `image[rowStart:rowStop, colStart:colStop]` on a numpy image. */
  function Slice2D(img: Raster, rowStart: int, rowStop: int, colStart: int, colStop: int): (r: Raster)
    requires WellFormed(img)
    ensures WellFormed(r)
    ensures r.height == SliceBounds(img.height, rowStart, rowStop).1 - SliceBounds(img.height, rowStart, rowStop).0
    ensures r.width == SliceBounds(img.width, colStart, colStop).1 - SliceBounds(img.width, colStart, colStop).0
    ensures forall i, j :: 0 <= i < r.height && 0 <= j < r.width ==>
              r.px[i][j] == img.px[SliceBounds(img.height, rowStart, rowStop).0 + i][SliceBounds(img.width, colStart, colStop).0 + j]
  {
    var (rlo, rhi) := SliceBounds(img.height, rowStart, rowStop);
    var (clo, chi) := SliceBounds(img.width, colStart, colStop);
    Raster(rhi - rlo, chi - clo, seq(rhi - rlo, i requires 0 <= i < rhi - rlo => img.px[rlo + i][clo..chi]))
  }

  datatype Option<T> = None | Some(value: T)

  datatype Result<T> = Ok(value: T) | Err(error: Error)
}
