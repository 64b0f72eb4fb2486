/** img2img: a grayscale image drawn as lines of glyphs on a canvas of the
    background's level, then cropped to the drawn text. */
module Img2Img {
  import opened Raster
  import opened CellSampler
  import opened BrightnessMapper
  import opened GlyphGrid
  import opened CanvasRenderer
  import opened FrameCropper

  /** `calculate_num_rows`: the cell height for the font's aspect `scale`, and
      the most whole rows of that height that fit the image. */
  function CalculateNumRows(height: nat, cellWidth: real, scale: nat): (r: (nat, real))
    requires cellWidth > 0.0 && scale >= 1
    ensures r.1 >= cellWidth
    ensures r.0 as real * r.1 <= height as real < r.0 as real * r.1 + r.1
  {
    var cellHeight := scale as real * cellWidth;
    MulMonotone(1.0, scale as real, cellWidth);
    (NumRows(height, cellHeight), cellHeight)
  }

  /** `preprocess_image` and `calculate_num_rows` give exactly the requested grid. */
  lemma RequestedGridIsDerived(width: nat, height: nat, numCols: nat, scale: nat)
    requires width >= 1 && numCols >= 1 && scale >= 1
    ensures var cw := CellWidth(width, numCols);
            var r := CalculateNumRows(height, cw, scale);
            Derive(width, height, numCols, scale as real) == Layout(cw, r.1, numCols, r.0)
  {}

  /** The grid `main` hands to `create_output_image`, after the check at
      lines 95-99: the requested grid or, for too many columns, 6x12 cells
      whatever the scale. */
  function ImageLayout(width: nat, height: nat, numCols: nat, scale: nat): (g: Layout)
    requires width >= 1 && numCols >= 1 && scale >= 1
    ensures g == FittedLayout(width, height, numCols, scale as real)
    ensures numCols > width ==> g.cellWidth == 6.0 && g.cellHeight == 12.0 && g.cols == width / 6 && g.rows == height / 12
    ensures numCols <= width ==> g.cols == numCols && g.cellHeight == scale as real * g.cellWidth
  {
    FittedLayout(width, height, numCols, scale as real)
  }

  /** The canvas `create_output_image` returns. */
  function OutputCanvas(img: seq<seq<int>>, ramp: string, numCols: nat, scale: nat,
                        charWidth: nat, charHeight: nat, background: string): Canvas<int>
    requires IsGray(img) && |ramp| >= 1 && numCols >= 1 && scale >= 1
  {
    FittedSampleable(img, ramp, numCols, scale as real);
    LineCanvas(img, ramp, ImageLayout(Width(img), |img|, numCols, scale), Fractional,
               charWidth, charHeight, BackgroundLevel(background))
  }

  /** `main` up to the crop: the background code, the grid with its fallback,
      the drawn canvas, and the image the crop box is taken on. */
  method ConvertImage(img: seq<seq<int>>, ramp: string, numCols: nat, scale: nat,
                      charWidth: nat, charHeight: nat, background: string)
    returns (canvas: Canvas<int>, boxSource: BoxSource)
    requires IsGray(img) && |ramp| >= 1 && numCols >= 1 && scale >= 1
    ensures canvas == OutputCanvas(img, ramp, numCols, scale, charWidth, charHeight, background)
    ensures boxSource == CropSource(background)
  {
    var bgCode := BackgroundLevel(background);
    var g := ImageLayout(Width(img), |img|, numCols, scale);
    FittedSampleable(img, ramp, numCols, scale as real);
    canvas := DrawLines(img, ramp, g, Fractional, charWidth, charHeight, bgCode);
    boxSource := CropSource(background);
  }

  /** The canvas is `char_width * num_cols` by `char_height * num_rows` in
      `bg_code`; row i is one line of `num_cols` glyphs at `(0, i * char_height)`
      in `255 - bg_code`; and the crop box counts exactly the pixels in the
      text's level, never the background. */
  lemma {:induction false} OutputCanvasLayout(img: seq<seq<int>>, ramp: string, numCols: nat, scale: nat,
                                              charWidth: nat, charHeight: nat, background: string, i: nat)
    requires IsGray(img) && |ramp| >= 1 && numCols >= 1 && scale >= 1 && charHeight >= 1
    requires i < ImageLayout(Width(img), |img|, numCols, scale).rows
    ensures var g := ImageLayout(Width(img), |img|, numCols, scale);
            var c := OutputCanvas(img, ramp, numCols, scale, charWidth, charHeight, background);
            var bg := BackgroundLevel(background);
            c.width == charWidth * g.cols && c.height == charHeight * g.rows && c.background == bg &&
            |c.draws| == g.rows && c.draws[i].x == 0 && c.draws[i].y == i * charHeight &&
            |c.draws[i].text| == g.cols && c.draws[i].fill == 255 - bg &&
            Marked(CropSource(background), c.draws[i].fill) && !Marked(CropSource(background), c.background)
  {
    var g := ImageLayout(Width(img), |img|, numCols, scale);
    FittedSampleable(img, ramp, numCols, scale as real);
    LineCanvasDraws(img, ramp, g, Fractional, charWidth, charHeight, BackgroundLevel(background), i);
    TextLevelOpposite(background);
    MarkedIffNotBackground(background, 255 - BackgroundLevel(background));
    MarkedIffNotBackground(background, BackgroundLevel(background));
  }
}
