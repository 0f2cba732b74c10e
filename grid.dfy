/** The 2 x 2 grid composer: four images, each already stretched to 200 x 100, are painted into a
    white canvas at fixed offsets, with a band under each one reserved for its caption.
 */
module Grid {
  import opened Images

  /** Size of one cell's image, the gap between cells and the caption band below each image. */
  const SingleWidth: nat := 200
  const SingleHeight: nat := 100
  const Padding: nat := 10
  const CaptionHeight: nat := 30

  /** The grid has two columns and two rows. */
  const GridColumns: nat := 2
  const GridRows: nat := 2
  const CellCount: nat := GridColumns * GridRows

  /** `(single_width + padding) * 2 - padding` and `(single_height + padding + caption_height) * 2 - padding`. */
  const TotalWidth: nat := (SingleWidth + Padding) * GridColumns - Padding
  const TotalHeight: nat := (SingleHeight + Padding + CaptionHeight) * GridRows - Padding

  /** The canvas is 410 pixels wide and 270 high, whatever images are given. */
  lemma CanvasSize()
    ensures TotalWidth == 410 && TotalHeight == 270
  {
  }

  /** Cell `i` sits in row `i // 2` and column `i % 2`; its image's top-left pixel is at (x, y). */
  function CellRow(i: nat): nat { i / GridColumns }

  function CellCol(i: nat): nat { i % GridColumns }

  function CellX(i: nat): nat { CellCol(i) * (SingleWidth + Padding) }

  function CellY(i: nat): nat { CellRow(i) * (SingleHeight + Padding + CaptionHeight) }

  /** The cells fill the grid row by row: top-left, top-right, bottom-left, bottom-right. */
  lemma CellOrigins()
    ensures CellX(0) == 0 && CellY(0) == 0
    ensures CellX(1) == 210 && CellY(1) == 0
    ensures CellX(2) == 0 && CellY(2) == 140
    ensures CellX(3) == 210 && CellY(3) == 140
  {
  }

  /** Pixel (row r, column c) lies in the image rectangle `[y, y+100) x [x, x+200)` of cell `i`. */
  predicate InCell(i: nat, r: int, c: int) {
    CellY(i) <= r < CellY(i) + SingleHeight && CellX(i) <= c < CellX(i) + SingleWidth
  }

  /** `composite[y:y+100, x:x+200]` has the shape of a resized image, so numpy accepts the
      assignment of grid.py line 43; otherwise it raises. */
  predicate SliceFits(i: nat) {
    var rows := SliceBounds(TotalHeight, CellY(i), CellY(i) + SingleHeight);
    var cols := SliceBounds(TotalWidth, CellX(i), CellX(i) + SingleWidth);
    rows.1 - rows.0 == SingleHeight && cols.1 - cols.0 == SingleWidth
  }

  /** Exactly the four cells of the grid can be painted, and each lies inside the canvas. */
  lemma SliceFitsExactlyGridCells(i: nat)
    ensures SliceFits(i) <==> i < CellCount
    ensures i < CellCount ==> CellY(i) + SingleHeight <= TotalHeight && CellX(i) + SingleWidth <= TotalWidth
    ensures i >= CellCount ==>
              SliceBounds(TotalHeight, CellY(i), CellY(i) + SingleHeight).0
              == SliceBounds(TotalHeight, CellY(i), CellY(i) + SingleHeight).1
  {
    if i >= CellCount {
      assert CellRow(i) >= 2;
      assert CellY(i) >= 280;
      assert SliceBounds(TotalHeight, CellY(i), CellY(i) + SingleHeight).0 == TotalHeight;
    } else {
      assert i == 0 || i == 1 || i == 2 || i == 3;
    }
  }

  /** Distinct cells have disjoint image rectangles, so painting one never touches another. */
  lemma CellsDisjoint(i: nat, j: nat, r: int, c: int)
    requires i < CellCount && j < CellCount && i != j
    ensures !(InCell(i, r, c) && InCell(j, r, c))
  {
    assert i == 0 || i == 1 || i == 2 || i == 3;
    assert j == 0 || j == 1 || j == 2 || j == 3;
  }

  /** Where the caption of cell `i` is drawn: 5 pixels right of the cell's left edge and 5 below its image. */
  function CaptionAnchor(i: nat): (nat, nat) {
    (CellX(i) + 5, CellY(i) + SingleHeight + 5)
  }

  /** The caption anchor is inside the canvas, in the band below its own image and in no image rectangle. */
  lemma CaptionAnchorInBand(i: nat)
    requires i < CellCount
    ensures var (ax, ay) := CaptionAnchor(i);
            && ax < TotalWidth && ay < TotalHeight
            && CellX(i) <= ax < CellX(i) + SingleWidth
            && CellY(i) + SingleHeight <= ay < CellY(i) + SingleHeight + CaptionHeight
            && forall j: nat :: j < CellCount ==> !InCell(j, ay, ax)
  {
    assert i == 0 || i == 1 || i == 2 || i == 3;
  }

  /** A resized image as `cv2.resize(img, (200, 100))` returns it. */
  predicate IsCellImage(img: Raster) {
    WellFormed(img) && img.height == SingleHeight && img.width == SingleWidth
  }

  /** Images already stretched to cell size, one per cell, at most one per grid cell. */
  predicate CellImages(cells: seq<Raster>) {
    |cells| <= CellCount && forall k :: 0 <= k < |cells| ==> IsCellImage(cells[k])
  }

  /** The canvas pixel at (r, c) after the cells are painted one after the other onto white:
      the last cell that covers the pixel decides it. */
  function Painted(cells: seq<Raster>, r: int, c: int): Pixel
    requires CellImages(cells)
  {
    if |cells| == 0 then White
    else
      var i := |cells| - 1;
      if InCell(i, r, c) then cells[i].px[r - CellY(i)][c - CellX(i)]
      else Painted(cells[..i], r, c)
  }

  /** Order does not matter: each pixel of a cell's rectangle shows that cell's image, and every
      pixel outside all rectangles stays white. */
  lemma {:induction false} PaintedLookup(cells: seq<Raster>, r: int, c: int)
    requires CellImages(cells)
    ensures forall i :: 0 <= i < |cells| && InCell(i, r, c) ==>
              Painted(cells, r, c) == cells[i].px[r - CellY(i)][c - CellX(i)]
    ensures OutsideCells(|cells|, r, c) ==> Painted(cells, r, c) == White
  {
    if |cells| > 0 {
      var last := |cells| - 1;
      var prefix := cells[..last];
      PaintedLookup(prefix, r, c);
      forall i | 0 <= i < last && InCell(i, r, c)
        ensures Painted(cells, r, c) == cells[i].px[r - CellY(i)][c - CellX(i)]
      {
        CellsDisjoint(i, last, r, c);
        assert prefix[i] == cells[i];
      }
    }
  }

  /** Pixel (r, c) lies in none of the image rectangles of the first `n` cells. */
  predicate OutsideCells(n: nat, r: int, c: int) {
    forall i :: 0 <= i < n ==> !InCell(i, r, c)
  }

  /** The error raised for an input the decoder cannot load; it names the path. */
  function CouldNotLoad(path: string): (e: Error)
    ensures e.LoadError? && |path| <= |e.message| && e.message[|e.message| - |path|..] == path
  {
    LoadError("Could not load image: " + path)
  }

  /** The decoded and resized inputs, when every one of them loaded. */
  function Loaded(resized: seq<Option<Raster>>): (cells: seq<Raster>)
    requires forall k :: 0 <= k < |resized| ==> resized[k].Some?
    ensures |cells| == |resized|
    ensures forall k :: 0 <= k < |resized| ==> resized[k] == Some(cells[k])
  {
    seq(|resized|, k requires 0 <= k < |resized| => resized[k].value)
  }

  /** Index `k` is where the loop of `create_composite_image` stops: input `k` does not load, or it
      is a fifth image with no cell to go to, and every earlier input was painted. */
  ghost predicate FirstFailure(resized: seq<Option<Raster>>, k: int) {
    && 0 <= k < |resized|
    && (resized[k].None? || k >= CellCount)
    && forall j :: 0 <= j < k ==> resized[j].Some? && j < CellCount
  }

  /** The composite canvas, owned by one call of `create_composite_image`. */
  class Composite {
    const canvas: array2<Pixel>

    ghost predicate Valid() {
      canvas.Length0 == TotalHeight && canvas.Length1 == TotalWidth
    }

    /** `np.ones((total_height, total_width, 3), dtype=np.uint8) * 255`: a white canvas. */
    constructor ()
      ensures Valid() && fresh(canvas)
      ensures forall r, c :: 0 <= r < TotalHeight && 0 <= c < TotalWidth ==> canvas[r, c] == White
    {
      canvas := new Pixel[TotalHeight, TotalWidth]((r, c) => White);
    }

    /** One row of `composite[y:y+100, x:x+200] = img`: row `dr` of the image goes to canvas row `y + dr`. */
    method PaintRow(i: nat, img: Raster, dr: nat)
      requires Valid() && i < CellCount && IsCellImage(img) && dr < SingleHeight
      modifies canvas
      ensures forall r, c :: 0 <= r < TotalHeight && 0 <= c < TotalWidth ==>
                canvas[r, c] == if r == CellY(i) + dr && InCell(i, r, c) then img.px[dr][c - CellX(i)] else old(canvas[r, c])
    {
      SliceFitsExactlyGridCells(i);
      var x, y := CellX(i), CellY(i);
      var dc := 0;
      while dc < SingleWidth
        invariant 0 <= dc <= SingleWidth
        invariant forall r, c :: 0 <= r < TotalHeight && 0 <= c < TotalWidth ==>
                    canvas[r, c] == if r == y + dr && x <= c < x + dc then img.px[dr][c - x] else old(canvas[r, c])
      {
        canvas[y + dr, x + dc] := img.px[dr][dc];
        dc := dc + 1;
      }
    }

    /** `composite[y:y+100, x:x+200] = img` for cell `i`: the cell's rectangle shows the image and
        every other pixel keeps its value. */
    method PaintCell(i: nat, img: Raster)
      requires Valid() && i < CellCount && IsCellImage(img)
      modifies canvas
      ensures forall r, c :: 0 <= r < TotalHeight && 0 <= c < TotalWidth ==>
                canvas[r, c] == if InCell(i, r, c) then img.px[r - CellY(i)][c - CellX(i)] else old(canvas[r, c])
    {
      var x, y := CellX(i), CellY(i);
      var dr := 0;
      while dr < SingleHeight
        invariant 0 <= dr <= SingleHeight
        invariant forall r, c :: 0 <= r < TotalHeight && 0 <= c < TotalWidth ==>
                    canvas[r, c] == if InCell(i, r, c) && r < y + dr then img.px[r - y][c - x] else old(canvas[r, c])
      {
        PaintRow(i, img, dr);
        dr := dr + 1;
      }
    }
  }

  /** `create_composite_image(image_paths, captions, output_path)`. `resized[k]` is what loading
      `imagePaths[k]` and stretching it to 200 x 100 gave (None when it could not be loaded). The
      loop runs over the pairs of `zip(image_paths, captions)`. On success the output path is
      returned and the canvas holds the painted cells; on failure the error names the first input
      that stopped the loop, and no output path is produced. */
  method CreateCompositeImage(imagePaths: seq<string>, captions: seq<string>, resized: seq<Option<Raster>>,
                              outputPath: string)
    returns (res: Result<string>, comp: Composite)
    requires |resized| == |imagePaths|
    requires forall k :: 0 <= k < |resized| && resized[k].Some? ==> IsCellImage(resized[k].value)
    ensures fresh(comp) && fresh(comp.canvas) && comp.Valid()
    ensures var n := Min(|imagePaths|, |captions|);
            res.Ok? <==> n <= CellCount && forall k :: 0 <= k < n ==> resized[k].Some?
    ensures res.Ok? ==>
              var n := Min(|imagePaths|, |captions|);
              && res.value == outputPath
              && forall r, c :: 0 <= r < TotalHeight && 0 <= c < TotalWidth ==>
                   comp.canvas[r, c] == Painted(Loaded(resized[..n]), r, c)
    ensures res.Ok? ==>
              forall i, r, c :: 0 <= i < Min(|imagePaths|, |captions|) && InCell(i, r, c) && 0 <= r < TotalHeight && 0 <= c < TotalWidth ==>
                IsCellImage(resized[i].value) &&
                comp.canvas[r, c] == resized[i].value.px[r - CellY(i)][c - CellX(i)]
    ensures res.Ok? ==>
              forall r, c :: 0 <= r < TotalHeight && 0 <= c < TotalWidth && OutsideCells(Min(|imagePaths|, |captions|), r, c) ==>
                comp.canvas[r, c] == White
    ensures res.Err? ==>
              exists k :: && FirstFailure(resized[..Min(|imagePaths|, |captions|)], k)
                          && res.error == if resized[k].None? then CouldNotLoad(imagePaths[k]) else ShapeMismatch
  {
    var n := Min(|imagePaths|, |captions|);
    comp := new Composite();
    var idx := 0;
    while idx < n
      invariant 0 <= idx <= n && idx <= CellCount
      invariant forall k :: 0 <= k < idx ==> resized[k].Some?
      invariant comp.Valid() && fresh(comp.canvas)
      invariant forall r, c :: 0 <= r < TotalHeight && 0 <= c < TotalWidth ==>
                  comp.canvas[r, c] == Painted(Loaded(resized[..idx]), r, c)
    {
      if resized[idx].None? {
        assert FirstFailure(resized[..n], idx);
        return Err(CouldNotLoad(imagePaths[idx])), comp;
      }
      SliceFitsExactlyGridCells(idx);
      if !SliceFits(idx) {
        assert FirstFailure(resized[..n], idx);
        return Err(ShapeMismatch), comp;
      }
      var img := resized[idx].value;
      ghost var before := Loaded(resized[..idx]);
      ghost var after := Loaded(resized[..idx + 1]);
      assert after[..idx] == before && after[idx] == img;
      comp.PaintCell(idx, img);
      idx := idx + 1;
    }
    forall r, c | 0 <= r < TotalHeight && 0 <= c < TotalWidth {
      PaintedLookup(Loaded(resized[..n]), r, c);
    }
    return Ok(outputPath), comp;
  }
}
