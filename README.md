# Bounding-box cropper and 2 x 2 grid composer, modelled in Dafny

Two small image utilities, each a thin layer of library calls around exact integer logic:

- `crop_bounding_box` (script.py) clamps a requested box `(x, y, width, height)` to the image,
  slices that rectangle out of the decoded pixel buffer, and names the output after the input
  with `_cropped` inserted before the extension (`photo.png` becomes `photo_cropped.png`).
- `create_composite_image` (grid.py) allocates a white 410 x 270 canvas and, for each
  (path, caption) pair in turn, loads the image, stretches it to 200 x 100 and assigns it into
  the canvas at the offset of its grid cell (row `i // 2`, column `i % 2`).

The project has four modules:

- `Images` (images.dfy): pixels, decoded images (`Raster`), the errors the two scripts raise,
  Python's `min`/`max`, and numpy's slicing rules (negative indices count from the end, then the
  indices are cut to the length).
- `PathNames` (pathnames.dfy): `os.path.splitext` as POSIX Python computes it, a reference
  definition of "the extension" it is proved against, and the `_cropped` naming rule.
- `Crop` (crop.dfy): the clamp, the crop and `crop_bounding_box` as pure functions.
- `Grid` (grid.dfy): the layout constants and cell geometry, the canvas as a class owning an
  `array2<Pixel>` that the blit methods change in place, and the driver loop. The loop is proved
  against `Painted`, a function that paints the cells one after another onto white.

Decoding is an input. The cropper takes `decoded: Option<Raster>`. The composer takes
`resized: seq<Option<Raster>>`, the decoded-and-resized image for each path. `None` stands for
a file the decoder could not load.

The model follows the code on three points where a reader might expect something else:

- The canvas is 410 wide and 270 high, not 280: `(100 + 10 + 30) * 2 - 10 = 270`.
- A box entirely to the right of or below the image never clamps to a negative width or
  height. In the code `x` is clamped to at most `img_width` before the width is cut, so
  `img_width - x >= 0`. The clamped width is negative exactly when the requested width is
  negative (`Crop.ClampBox`), and the same holds for the height. What such a box does give is an
  empty crop: a corner at or past the right or bottom edge leaves zero columns or zero rows
  (`Crop.BoxPastEdgeGivesEmptyCrop`), and so does a size of zero. The code does not reject this,
  but the write that follows fails on an empty image, so the call raises there; see
  `Crop.CropBoundingBox` under "## Left out".
- The clamp moves a box that starts left of or above the image rather than intersecting it with
  the image (`Crop.ClampShiftsRatherThanIntersects`). So a box entirely left of or above the
  image, of positive size that fits the image, gives a non-empty crop at x = 0 or y = 0: the box
  (-500, 0, 30, 10) on a 200 x 200 image gives columns 0..29 of rows 0..9
  (`Crop.BoxLeftOfImageIsShifted`).

## Model

| member | source | states |
|---|---|---|
| PathNames.SplitExt | script.py:36 | `stem + ext` is the path; the extension is non-empty exactly when the path has one by the reference definition (a last dot in the final component, preceded there by something other than dots), and then it starts at that dot |
| PathNames.LastDotIsExtension | script.py:36 | splitext's test on the last separator and the last dot holds exactly when some position starts an extension, and then the last dot is that position |
| PathNames.CroppedPath | script.py:36-37 | the output name is 8 characters longer than the input, begins with the stem and ends with the extension |
| PathNames.CroppedPathSplit | script.py:36-37 | splitting the output name gives the input's stem plus `_cropped`, and the input's extension, so the extension is kept and the suffix sits right before it |
| Crop.ClampCoord | script.py:25-26 | a clamped coordinate lies in `[0, limit]`, is unchanged when already there, and is pulled to the nearest bound otherwise, for any integer input |
| Crop.ClampBox | script.py:25-30 | after clamping, `0 <= x <= img_width` and `0 <= y <= img_height`; the box stops at the right and bottom edges; the size never grows and is either the requested size or reaches the edge; it is negative only when the request was; a box already inside the image is returned unchanged |
| Crop.ClampShiftsRatherThanIntersects | script.py:25-30 | a box that starts left of the image, with a width that fits, keeps its full width and moves to `x = 0`; likewise a box above the image keeps its full height and moves to `y = 0` |
| Crop.ClampBoxIdempotent | script.py:25-30 | clamping an already clamped box gives the same box |
| Images.AdjustIndex | script.py:33 | a slice index ends in `[0, n]`: unchanged if already there, counted from the end if negative, cut to the nearest bound otherwise |
| Images.SliceBounds | script.py:33 | a slice selects a range inside `[0, n]`; for `0 <= start <= stop <= n` it is exactly `[start, stop)`; a non-negative stop before the start selects nothing |
| Images.Slice2D | script.py:33 | a two-axis slice is a well-formed image whose size is the two selected ranges, with pixel `(i, j)` taken from the source at the ranges' starts plus `(i, j)` |
| Crop.CropImage | script.py:22-33 | the crop starts at the clamped corner and spans the row and column ranges numpy's slicing selects for the clamped box, for any sizes including negative ones; pixel `(i, j)` is the image's pixel `(y + i, x + j)`; for a non-negative requested size it has exactly the clamped box's size |
| Crop.BoxPastEdgeGivesEmptyCrop | script.py:25-33 | a box of non-negative size whose corner is at or past the right or bottom edge gives a crop with no columns or no rows, not an error |
| Crop.CropBoundingBox | script.py:16-41 | an unloadable image yields the error "Could not load image" and nothing else does; on success the output path is the `_cropped` name of the input and the image is the crop |
| Crop.CropInsideIsExact | script.py:25-33 | a box inside the image is cut out exactly: `width` columns and `height` rows from its corner |
| Crop.CropCoveringBoxIsWhole | script.py:25-33 | a box at or before the top-left corner and at least as large as the image gives back the whole image |
| Crop.BoxLeftOfImageIsShifted | script.py:25-33 | a box entirely left of the image whose size fits is not emptied: the crop is its full `width` x `height`, taken from column 0 at its own rows |
| Crop.NegativeWidthCountsFromRightEdge | script.py:29-33 | a negative width is not rejected: on a 10-wide image, a box at x = 2 of width -3 selects the 7 columns 2..8 |
| Grid.CanvasSize | grid.py:15-22 | the canvas is 410 pixels wide and 270 high |
| Grid.CellOrigins | grid.py:28-34 | cells 0..3 have their image corners at (0, 0), (210, 0), (0, 140) and (210, 140), filling the grid row by row |
| Grid.SliceFitsExactlyGridCells | grid.py:28-43 | the slice `composite[y:y+100, x:x+200]` has the shape of a resized image exactly for cells 0..3, whose rectangles lie inside the canvas; a fifth index gets an empty slice |
| Grid.CellsDisjoint | grid.py:33-34 | the image rectangles of two distinct cells share no pixel |
| Grid.CaptionAnchorInBand | grid.py:56 | each caption anchor `(x + 5, y + 105)` lies inside the canvas, in the caption band under its own image, and in no image rectangle |
| Grid.PaintedLookup | grid.py:28-43 | after painting the cells in order, each pixel of a cell's rectangle shows that cell's image and every other pixel is white, so no later cell overwrites an earlier one |
| Grid.CouldNotLoad | grid.py:38-39 | the load error ends with the offending path |
| Grid.Composite.constructor | grid.py:25 | the new canvas is 270 x 410 and every pixel is white (255, 255, 255) |
| Grid.Composite.PaintRow | grid.py:43 | one canvas row inside the cell takes the image row, and every other pixel is unchanged |
| Grid.Composite.PaintCell | grid.py:43 | inside the cell's rectangle the canvas equals the image, and every pixel outside it is unchanged |
| Grid.CreateCompositeImage | grid.py:5-64 | success exactly when there are at most four (path, caption) pairs and all their images load; then the output path is returned, each cell's rectangle shows its image and the rest of the canvas is white; otherwise the error belongs to the first input that stopped the loop: a load error naming its path, or a shape error for a fifth image |

## Left out

- File I/O (`cv2.imread`, `cv2.imwrite`): decoded images are inputs, `None` for a file that does
  not load, and writing is not modelled. A successful result carries the path and pixels that
  the code passes to the write.
- Crop.CropBoundingBox: returns `Ok` in two cases where the write on script.py line 40 raises,
  because the model does not include the encoder. (a) The crop is empty: zero columns or zero
  rows, as for a box at or past the right or bottom edge, or a zero size. OpenCV's encoder
  refuses an empty image. (b) The output name has no extension the encoder recognises, for
  example `photo` becoming `photo_cropped`.
- `cv2.resize` interpolation: this is floating-point resampling in a foreign library. Its result
  is an input required to be 200 x 100 (`Grid.IsCellImage`).
- Caption drawing with PIL, the font lookup and its fallback: glyph rendering is foreign code.
  The numpy-to-PIL round trip is taken as the identity. The only claim about captions is where
  their anchors fall (`Grid.CaptionAnchorInBand`). Captions otherwise matter only through the
  pairing with paths.
- Grid.CreateCompositeImage: "the rest of the canvas is white" holds for the model, which draws
  no glyphs. In the real output the caption bands also hold the caption text.
- `os.path.splitext` on Windows paths (backslash separators, drive letters): only the POSIX rule
  is modelled.
- The wording of numpy's broadcasting error: it is the single value `ShapeMismatch`.
- The `__main__` blocks, hardcoded example paths, and the print-and-swallow error handling.
