/** The bounding-box cropper: clamp a requested box to the image, cut that rectangle out with
    numpy's slicing rules, and name the result after the input with `_cropped` before the extension.
 */
module Crop {
  import opened Images
  import opened PathNames

  /** A requested box: top-left corner and size, in pixels; any integers may be asked for. */
  datatype Box = Box(x: int, y: int, width: int, height: int)

  /** What a successful crop yields: the path and the pixels the code passes to the write. */
  datatype Cropped = Cropped(outputPath: string, image: Raster)

  /** The box lies inside a `width` x `height` image and has a non-negative size. */
  predicate Inside(b: Box, width: nat, height: nat) {
    && 0 <= b.x && 0 <= b.width && b.x + b.width <= width
    && 0 <= b.y && 0 <= b.height && b.y + b.height <= height
  }

  /** `max(0, min(v, limit))`: a coordinate pulled to the nearest bound of `[0, limit]`. */
  function ClampCoord(v: int, limit: nat): (r: int)
    ensures 0 <= r <= limit
    ensures 0 <= v <= limit ==> r == v
    ensures v < 0 ==> r == 0
    ensures v > limit ==> r == limit
  {
    Max(0, Min(v, limit))
  }

  /** The clamp of script.py lines 25-30: the corner is clamped first, then the size is cut back so that the
      box stops at the right and bottom edges. */
  function ClampBox(b: Box, imgWidth: nat, imgHeight: nat): (r: Box)
    ensures 0 <= r.x <= imgWidth && 0 <= r.y <= imgHeight
    ensures r.x + r.width <= imgWidth && r.y + r.height <= imgHeight
    ensures r.width <= b.width && r.height <= b.height
    ensures r.width == b.width || r.x + r.width == imgWidth
    ensures r.height == b.height || r.y + r.height == imgHeight
    ensures r.width < 0 <==> b.width < 0
    ensures r.height < 0 <==> b.height < 0
    ensures b.width >= 0 && b.height >= 0 ==> Inside(r, imgWidth, imgHeight)
    ensures Inside(b, imgWidth, imgHeight) ==> r == b
  {
    var x := ClampCoord(b.x, imgWidth);
    var y := ClampCoord(b.y, imgHeight);
    Box(x, y, Min(b.width, imgWidth - x), Min(b.height, imgHeight - y))
  }

  /** The clamp moves a box that starts left of or above the image instead of cutting it: a box
      at x = -50 of width 30, on an image at least 30 wide, becomes columns 0 to 29. */
  lemma ClampShiftsRatherThanIntersects(b: Box, imgWidth: nat, imgHeight: nat)
    ensures b.x < 0 && 0 <= b.width <= imgWidth ==>
              ClampBox(b, imgWidth, imgHeight).x == 0 && ClampBox(b, imgWidth, imgHeight).width == b.width
    ensures b.y < 0 && 0 <= b.height <= imgHeight ==>
              ClampBox(b, imgWidth, imgHeight).y == 0 && ClampBox(b, imgWidth, imgHeight).height == b.height
  {
  }

  /** Clamping a box that was already clamped changes nothing. */
  lemma ClampBoxIdempotent(b: Box, imgWidth: nat, imgHeight: nat)
    ensures ClampBox(ClampBox(b, imgWidth, imgHeight), imgWidth, imgHeight) == ClampBox(b, imgWidth, imgHeight)
  {
  }

  /** The error `crop_bounding_box` raises when the image cannot be decoded. */
  const CouldNotLoad: Error := LoadError("Could not load image")

  /** Lines 22-33 of `crop_bounding_box` in script.py: clamp the requested box to the image and
      slice it out. The crop always starts at the clamped corner; its size is the range numpy's
      slicing selects, which for a negative size counts the stop from the far edge. For a box of
      non-negative size the result is exactly the clamped box's pixels. */
  function CropImage(img: Raster, x: int, y: int, width: int, height: int): (r: Raster)
    requires WellFormed(img)
    ensures WellFormed(r)
    ensures var b := ClampBox(Box(x, y, width, height), img.width, img.height);
            var rows := SliceBounds(img.height, b.y, b.y + b.height);
            var cols := SliceBounds(img.width, b.x, b.x + b.width);
            && rows.0 == b.y && cols.0 == b.x
            && r.height == rows.1 - rows.0 && r.width == cols.1 - cols.0
            && forall i, j :: 0 <= i < r.height && 0 <= j < r.width ==> r.px[i][j] == img.px[b.y + i][b.x + j]
    ensures width >= 0 && height >= 0 ==>
              var b := ClampBox(Box(x, y, width, height), img.width, img.height);
              && r.width == b.width && r.height == b.height
              && forall i, j :: 0 <= i < b.height && 0 <= j < b.width ==> r.px[i][j] == img.px[b.y + i][b.x + j]
  {
    var b := ClampBox(Box(x, y, width, height), img.width, img.height);
    SliceOfInsideBox(img, b);
    Slice2D(img, b.y, b.y + b.height, b.x, b.x + b.width)
  }

  /** `crop_bounding_box(image_path, x, y, width, height)`. `decoded` is what the decoder returned
      for `image_path` (None when it could not load it). On success the result carries the path
      and the pixels the code passes to the write. */
  function CropBoundingBox(imagePath: string, decoded: Option<Raster>, x: int, y: int, width: int, height: int)
    : (r: Result<Cropped>)
    requires decoded.Some? ==> WellFormed(decoded.value)
    ensures decoded.None? <==> r.Err?
    ensures r.Err? ==> r.error == CouldNotLoad
    ensures r.Ok? ==> r.value.outputPath == CroppedPath(imagePath) && WellFormed(r.value.image)
    ensures r.Ok? ==> r.value.image == CropImage(decoded.value, x, y, width, height)
  {
    match decoded
    case None => Err(CouldNotLoad)
    case Some(img) => Ok(Cropped(CroppedPath(imagePath), CropImage(img, x, y, width, height)))
  }

  /** Slicing out a box that lies inside the image takes exactly the box's pixels. */
  lemma SliceOfInsideBox(img: Raster, b: Box)
    requires WellFormed(img)
    ensures Inside(b, img.width, img.height) ==>
              var s := Slice2D(img, b.y, b.y + b.height, b.x, b.x + b.width);
              && s.width == b.width && s.height == b.height
              && forall i, j :: 0 <= i < b.height && 0 <= j < b.width ==> s.px[i][j] == img.px[b.y + i][b.x + j]
  {
    if Inside(b, img.width, img.height) {
      assert SliceBounds(img.height, b.y, b.y + b.height) == (b.y, b.y + b.height);
      assert SliceBounds(img.width, b.x, b.x + b.width) == (b.x, b.x + b.width);
    }
  }

  /** A box that lies inside the image is cut out exactly: `width` columns and `height` rows
      starting at its corner. */
  lemma CropInsideIsExact(imagePath: string, img: Raster, b: Box)
    requires WellFormed(img) && Inside(b, img.width, img.height)
    ensures var r := CropBoundingBox(imagePath, Some(img), b.x, b.y, b.width, b.height);
            && r.Ok?
            && r.value.image.width == b.width && r.value.image.height == b.height
            && forall i, j :: 0 <= i < b.height && 0 <= j < b.width ==>
                 r.value.image.px[i][j] == img.px[b.y + i][b.x + j]
  {
  }

  /** A box that starts at or before the top-left corner and is at least as large as the image
      yields the whole image (for example a box at (-50, -50) of size 300 x 300 on a 200 x 200 image). */
  lemma {:induction false} CropCoveringBoxIsWhole(imagePath: string, img: Raster, b: Box)
    requires WellFormed(img)
    requires b.x <= 0 && b.y <= 0 && b.width >= img.width && b.height >= img.height
    ensures CropBoundingBox(imagePath, Some(img), b.x, b.y, b.width, b.height) == Ok(Cropped(CroppedPath(imagePath), img))
  {
    var c := ClampBox(b, img.width, img.height);
    assert c == Box(0, 0, img.width, img.height);
    var s := Slice2D(img, 0, img.height, 0, img.width);
    assert forall i :: 0 <= i < img.height ==> s.px[i] == img.px[i] by {
      forall i | 0 <= i < img.height ensures s.px[i] == img.px[i] {
        assert |s.px[i]| == |img.px[i]|;
      }
    }
    assert s.px == img.px;
  }

  /** A box whose corner is at or past the right edge, or at or past the bottom edge, yields an
      empty crop (no columns, or no rows) rather than an error. */
  lemma BoxPastEdgeGivesEmptyCrop(imagePath: string, img: Raster, b: Box)
    requires WellFormed(img) && b.width >= 0 && b.height >= 0
    requires b.x >= img.width || b.y >= img.height
    ensures var r := CropBoundingBox(imagePath, Some(img), b.x, b.y, b.width, b.height);
            r.Ok? && (r.value.image.width == 0 || r.value.image.height == 0)
  {
  }

  /** A negative width is not rejected: after the clamp it becomes a negative slice stop, which numpy
      counts from the right edge. On a 10-pixel-wide image, a box at x = 2 of width -3 selects the
      7 columns 2..8. */
  lemma NegativeWidthCountsFromRightEdge(imagePath: string, img: Raster)
    requires WellFormed(img) && img.width == 10 && img.height >= 1
    ensures var r := CropBoundingBox(imagePath, Some(img), 2, 0, -3, 1);
            && r.Ok? && r.value.image.width == 7
            && forall j :: 0 <= j < 7 ==> r.value.image.px[0][j] == img.px[0][2 + j]
  {
  }

  /** A box entirely left of the image (it ends at or before column 0) whose width fits the image
      is not emptied: it is moved to x = 0, so the crop is its first `width` columns. For example
      the box (-500, 0, 30, 10) on a 200 x 200 image gives columns 0..29 of rows 0..9. */
  lemma BoxLeftOfImageIsShifted(imagePath: string, img: Raster, b: Box)
    requires WellFormed(img) && Inside(Box(0, b.y, b.width, b.height), img.width, img.height)
    requires b.x + b.width <= 0
    ensures var r := CropBoundingBox(imagePath, Some(img), b.x, b.y, b.width, b.height);
            && r.Ok?
            && r.value.image.width == b.width && r.value.image.height == b.height
            && forall i, j :: 0 <= i < b.height && 0 <= j < b.width ==> r.value.image.px[i][j] == img.px[b.y + i][j]
  {
    assert ClampBox(b, img.width, img.height) == Box(0, b.y, b.width, b.height);
  }
}
