/** img2img_color: one glyph per cell of a color image, each drawn in the
    cell's average color on a canvas of the background color. */
module Img2ImgColor {
  import opened Raster
  import opened CellSampler
  import opened BrightnessMapper
  import opened GlyphGrid
  import opened CanvasRenderer
  import opened FrameCropper

  /** `handle_excessive_cells`: the 6x12 cell counts when too many columns or
      rows are asked for, the counts given otherwise. Only the counts come back. */
  function HandleExcessiveCells(width: nat, height: nat, numCols: nat, numRows: nat): (r: (nat, nat))
    ensures Excessive(width, height, numCols, numRows) ==>
              r.0 * FallbackCellWidth <= width < (r.0 + 1) * FallbackCellWidth &&
              r.1 * FallbackCellHeight <= height < (r.1 + 1) * FallbackCellHeight
    ensures !Excessive(width, height, numCols, numRows) ==> r == (numCols, numRows)
    ensures r.0 <= width && r.1 <= height
  {
    if Excessive(width, height, numCols, numRows) then (width / 6, height / 12) else (numCols, numRows)
  }

  /** Its counts are those of the whole-grid fallback. */
  lemma CountsMatchFallback(g: Layout, width: nat, height: nat)
    ensures HandleExcessiveCells(width, height, g.cols, g.rows) ==
            (WithFallback(g, width, height).cols, WithFallback(g, width, height).rows)
  {}

  /** The grid `main` passes to `draw_ascii_image` as written: the cell sizes
      of `calculate_cell_size` with the counts of `handle_excessive_cells`. */
  function AsWrittenLayout(width: nat, height: nat, numCols: nat, scale: nat): (g: Layout)
    requires width >= 1 && numCols >= 1 && scale >= 1
    ensures g.cellWidth == Derive(width, height, numCols, scale as real).cellWidth
    ensures g.cellHeight == Derive(width, height, numCols, scale as real).cellHeight
    ensures numCols <= width ==> g == Derive(width, height, numCols, scale as real)
  {
    var d := Derive(width, height, numCols, scale as real);
    FallbackIffTooManyColumns(width, height, numCols, scale as real);
    var counts := HandleExcessiveCells(width, height, d.cols, d.rows);
    Layout(d.cellWidth, d.cellHeight, counts.0, counts.1)
  }

  /** As written, asking for more columns than pixels on an image of at least
      6 x 12 pixels keeps cells narrower than a pixel over at least one row and
      column: column 0 is the empty slice `[0, 0)`, whose `np.mean` is NaN, and
      `int()` of it raises. */
  lemma {:induction false} AsWrittenFallbackEmptyColumn(width: nat, height: nat, numCols: nat, scale: nat)
    requires numCols > width >= 6 && height >= 12 && scale >= 1
    ensures var g := AsWrittenLayout(width, height, numCols, scale);
            g.Sized() && g.rows >= 1 && g.cols >= 1 && !CellSpan(0, g.cellWidth, width).NonEmpty() &&
            !CellsNonEmpty(g, width, height)
  {
    var g := AsWrittenLayout(width, height, numCols, scale);
    var d := Derive(width, height, numCols, scale as real);
    FallbackIffTooManyColumns(width, height, numCols, scale as real);
    assert g.cols == width / 6 && g.rows == height / 12;
    assert d.cellWidth < 1.0;
    FirstSpanOfThinCellsEmpty(g.cellWidth, width);
  }

  /** The smallest such input: a 6 x 12 image with 7 columns requested. */
  lemma AsWrittenCrashExample()
    ensures var g := AsWrittenLayout(6, 12, 7, 2);
            g.Sized() && g.cols == 1 && g.rows == 1 && !CellsNonEmpty(g, 6, 12)
  {
    AsWrittenFallbackEmptyColumn(6, 12, 7, 2);
  }

  /** The evidently intended grid: the fallback replaces the cell sizes too,
      as img2img and video2video_color do, and no cell is empty. */
  function ColorLayout(width: nat, height: nat, numCols: nat, scale: nat): (g: Layout)
    requires width >= 1 && numCols >= 1 && scale >= 1
    ensures Regular(g, width, height) && Positive(g) && g.Sized() && CellsNonEmpty(g, width, height)
    ensures (g.cols, g.rows) == (AsWrittenLayout(width, height, numCols, scale).cols,
                                 AsWrittenLayout(width, height, numCols, scale).rows)
    ensures numCols <= width ==> g == AsWrittenLayout(width, height, numCols, scale)
    ensures numCols > width ==> g.cellWidth == 6.0 && g.cellHeight == 12.0
  {
    CountsMatchFallback(Derive(width, height, numCols, scale as real), width, height);
    FittedLayout(width, height, numCols, scale as real)
  }

  /** With the intended grid, too many columns give 6x12 cells that tile the
      image, so on an image of one color `c` every glyph is drawn in `c`. */
  lemma FallbackUniformFill(img: seq<seq<Rgb>>, ramp: string, numCols: nat, scale: nat, c: Rgb, i: nat, j: nat)
    requires IsColor(img) && |ramp| >= 1 && numCols > Width(img) && scale >= 1
    requires forall y, x :: 0 <= y < |img| && 0 <= x < Width(img) ==> img[y][x] == c
    requires i < ColorLayout(Width(img), |img|, numCols, scale).rows
    requires j < ColorLayout(Width(img), |img|, numCols, scale).cols
    ensures var g := ColorLayout(Width(img), |img|, numCols, scale);
            Sampleable(img, ramp, g) && ColorFill(img, ramp, g, i, j) == c
  {
    var g := ColorLayout(Width(img), |img|, numCols, scale);
    UniformCellFill(img, ramp, g, i, j, 6, 12, c);
  }

  /** As written, `main` can sample its grid exactly unless more columns than
      pixels are asked for on an image of at least 6 x 12 pixels. */
  lemma {:induction false} AsWrittenSampleableIff(img: seq<seq<Rgb>>, ramp: string, numCols: nat, scale: nat)
    requires IsColor(img) && |ramp| >= 1 && numCols >= 1 && scale >= 1
    ensures Sampleable(img, ramp, AsWrittenLayout(Width(img), |img|, numCols, scale)) <==>
            !(numCols > Width(img) >= 6 && |img| >= 12)
  {
    var width, height := Width(img), |img|;
    var g := AsWrittenLayout(width, height, numCols, scale);
    if numCols <= width {
      ColorSampleable(img, ramp, numCols, scale);
    } else if width >= 6 && height >= 12 {
      AsWrittenFallbackEmptyColumn(width, height, numCols, scale);
    } else {
      FallbackIffTooManyColumns(width, height, numCols, scale as real);
      assert g.cols == 0 || g.rows == 0;
    }
  }

  /** The canvas `main` draws as written, wherever its grid can be sampled:
      the cell sizes of `calculate_cell_size` with the counts of
      `handle_excessive_cells`. */
  function AsWrittenCanvas(img: seq<seq<Rgb>>, ramp: string, numCols: nat, scale: nat,
                           charWidth: nat, charHeight: nat, background: string): Canvas<Rgb>
    requires IsColor(img) && |ramp| >= 1 && numCols >= 1 && scale >= 1
    requires Sampleable(img, ramp, AsWrittenLayout(Width(img), |img|, numCols, scale))
  {
    var g := AsWrittenLayout(Width(img), |img|, numCols, scale);
    Canvas(charWidth * g.cols, scale * charHeight * g.rows, BackgroundColor(background),
           CellDraws(img, ramp, g, charWidth, charHeight, g.rows))
  }

  /** The corrected canvas differs from the as-written one only where the
      script raises: wherever the as-written grid can be sampled, the two
      canvases are the same. Past the width on an image narrower than 6 or
      lower than 12 pixels both grids have no column or no row, so neither
      draws anything. */
  lemma {:induction false} CorrectedAgreesWithAsWritten(img: seq<seq<Rgb>>, ramp: string, numCols: nat, scale: nat,
                                                        charWidth: nat, charHeight: nat, background: string)
    requires IsColor(img) && |ramp| >= 1 && numCols >= 1 && scale >= 1
    requires Sampleable(img, ramp, AsWrittenLayout(Width(img), |img|, numCols, scale))
    ensures AsWrittenCanvas(img, ramp, numCols, scale, charWidth, charHeight, background) ==
            ColorCanvas(img, ramp, numCols, scale, charWidth, charHeight, background)
  {
    var width, height := Width(img), |img|;
    var a := AsWrittenLayout(width, height, numCols, scale);
    var c := ColorLayout(width, height, numCols, scale);
    ColorSampleable(img, ramp, numCols, scale);
    if numCols > width {
      AsWrittenSampleableIff(img, ramp, numCols, scale);
      FallbackIffTooManyColumns(width, height, numCols, scale as real);
      assert a.cols == c.cols && a.rows == c.rows;
      assert a.cols == 0 || a.rows == 0;
      if a.cols == 0 {
        NoColumnsNoDraws(img, ramp, a, charWidth, charHeight, a.rows);
        NoColumnsNoDraws(img, ramp, c, charWidth, charHeight, c.rows);
      }
    }
  }

  /** The canvas of `main` after `draw_ascii_image`: `char_width * num_cols`
      by `scale * char_height * num_rows` in the background color, one draw
      per cell. */
  function ColorCanvas(img: seq<seq<Rgb>>, ramp: string, numCols: nat, scale: nat,
                       charWidth: nat, charHeight: nat, background: string): Canvas<Rgb>
    requires IsColor(img) && |ramp| >= 1 && numCols >= 1 && scale >= 1
  {
    var g := ColorLayout(Width(img), |img|, numCols, scale);
    FittedSampleable(img, ramp, numCols, scale as real);
    Canvas(charWidth * g.cols, scale * charHeight * g.rows, BackgroundColor(background),
           CellDraws(img, ramp, g, charWidth, charHeight, g.rows))
  }

  /** `main` up to the crop, with the intended grid. */
  method ConvertColorImage(img: seq<seq<Rgb>>, ramp: string, numCols: nat, scale: nat,
                           charWidth: nat, charHeight: nat, background: string)
    returns (canvas: Canvas<Rgb>, boxSource: BoxSource)
    requires IsColor(img) && |ramp| >= 1 && numCols >= 1 && scale >= 1
    ensures canvas == ColorCanvas(img, ramp, numCols, scale, charWidth, charHeight, background)
    ensures boxSource == CropSource(background)
  {
    var bgCode := BackgroundColor(background);
    var g := ColorLayout(Width(img), |img|, numCols, scale);
    FittedSampleable(img, ramp, numCols, scale as real);
    canvas := Canvas(charWidth * g.cols, scale * charHeight * g.rows, bgCode, []);
    canvas := DrawCells(canvas, img, ramp, g, charWidth, charHeight);
    boxSource := CropSource(background);
  }

  /** With the intended grid the nested loops can sample the image. */
  lemma ColorSampleable(img: seq<seq<Rgb>>, ramp: string, numCols: nat, scale: nat)
    requires IsColor(img) && |ramp| >= 1 && numCols >= 1 && scale >= 1
    ensures Sampleable(img, ramp, ColorLayout(Width(img), |img|, numCols, scale))
  {}

  /** Exactly one draw per cell: draw `i * num_cols + j` is the one of cell (i, j). */
  lemma ColorCanvasDraws(img: seq<seq<Rgb>>, ramp: string, numCols: nat, scale: nat,
                         charWidth: nat, charHeight: nat, background: string, i: nat, j: nat)
    requires IsColor(img) && |ramp| >= 1 && numCols >= 1 && scale >= 1
    requires i < ColorLayout(Width(img), |img|, numCols, scale).rows
    requires j < ColorLayout(Width(img), |img|, numCols, scale).cols
    ensures var g := ColorLayout(Width(img), |img|, numCols, scale);
            var d := ColorCanvas(img, ramp, numCols, scale, charWidth, charHeight, background).draws;
            Sampleable(img, ramp, g) && |d| == g.rows * g.cols && i * g.cols + j < |d| &&
            d[i * g.cols + j] == CellDraw(img, ramp, g, charWidth, charHeight, i, j)
  {
    var g := ColorLayout(Width(img), |img|, numCols, scale);
    ColorSampleable(img, ramp, numCols, scale);
    CellDrawAt(img, ramp, g, charWidth, charHeight, g.rows, i, j);
  }

  /** The glyph of cell (i, j) is one glyph at `(j * char_width, i * char_height)`,
      and that origin lies on the `scale * char_height * num_rows` high canvas. */
  lemma ColorDrawOnCanvas(img: seq<seq<Rgb>>, ramp: string, numCols: nat, scale: nat,
                          charWidth: nat, charHeight: nat, background: string, i: nat, j: nat)
    requires IsColor(img) && |ramp| >= 1 && numCols >= 1 && scale >= 1 && charWidth >= 1 && charHeight >= 1
    requires i < ColorLayout(Width(img), |img|, numCols, scale).rows
    requires j < ColorLayout(Width(img), |img|, numCols, scale).cols
    ensures var g := ColorLayout(Width(img), |img|, numCols, scale);
            var c := ColorCanvas(img, ramp, numCols, scale, charWidth, charHeight, background);
            Sampleable(img, ramp, g) &&
            var d := CellDraw(img, ramp, g, charWidth, charHeight, i, j);
            d.x == j * charWidth && d.y == i * charHeight && |d.text| == 1 &&
            0 <= d.x < c.width && 0 <= d.y < c.height
  {
    var g := ColorLayout(Width(img), |img|, numCols, scale);
    ColorSampleable(img, ramp, numCols, scale);
    var c := ColorCanvas(img, ramp, numCols, scale, charWidth, charHeight, background);
    assert c.width == charWidth * g.cols && c.height == scale * charHeight * g.rows;
    CellDrawShape(img, ramp, g, charWidth, charHeight, i, j);
    MulStrictNat(j, g.cols, charWidth);
    BelowScaledHeight(i, g.rows, charHeight, scale);
  }

  /** Every glyph row starts above `scale * char_height * num_rows`. */
  lemma BelowScaledHeight(i: nat, rows: nat, charHeight: nat, scale: nat)
    requires i < rows && charHeight >= 1 && scale >= 1
    ensures i * charHeight < scale * charHeight * rows
  {
    MulStrictNat(i, rows, charHeight);
    MulNatMonotone(1, scale, charHeight);
    MulNatMonotone(charHeight, scale * charHeight, rows);
    assert charHeight * rows == rows * charHeight;
  }
}
