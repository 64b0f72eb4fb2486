/** The glyph chosen for every cell of a grayscale image: the text grid that
    img2txt writes and that img2img and video2video draw line by line. */
module GlyphGrid {
  import opened Raster
  import opened CellSampler
  import opened BrightnessMapper

  /** A grid whose cells have positive size. */
  predicate Positive(g: Layout) { g.cellWidth > 0.0 && g.cellHeight > 0.0 }

  /** What the nested cell loops of the scripts need: an image, a ramp with at
      least one glyph, and a grid none of whose cells is an empty slice
      (`np.mean` of an empty slice is NaN, on which `int()` raises). */
  predicate Sampleable<T>(img: seq<seq<T>>, ramp: string, g: Layout) {
    |img| >= 1 && Width(img) >= 1 && Rectangular(img) && |ramp| >= 1 && Positive(g) &&
    CellsNonEmpty(g, Width(img), |img|)
  }

  /** The grid the scripts with a fallback sample: the requested grid, or the
      6x12 grid exactly when more columns than pixels are asked for. Either
      way every cell is at least a pixel on each side, inside the image, and
      never an empty slice. */
  function FittedLayout(width: nat, height: nat, numCols: nat, scale: real): (g: Layout)
    requires width >= 1 && numCols >= 1 && scale >= 1.0
    ensures Regular(g, width, height) && Positive(g) && g.Sized()
    ensures CellsNonEmpty(g, width, height)
    ensures g.cols <= width && g.rows <= height
    ensures numCols <= width ==> g == Derive(width, height, numCols, scale)
    ensures numCols > width ==> g == Fallback(width, height)
  {
    FallbackIffTooManyColumns(width, height, numCols, scale);
    FallbackGridRegular(width, height, numCols, scale);
    var g := WithFallback(Derive(width, height, numCols, scale), width, height);
    RegularCellsNonEmpty(g, width, height);
    g
  }

  /** With that grid the nested loops can sample any image. */
  lemma FittedSampleable<T>(img: seq<seq<T>>, ramp: string, numCols: nat, scale: real)
    requires |img| >= 1 && Width(img) >= 1 && Rectangular(img) && |ramp| >= 1 && numCols >= 1 && scale >= 1.0
    ensures Sampleable(img, ramp, FittedLayout(Width(img), |img|, numCols, scale))
  {}

  /** Rows `[int(i * cell_height), min(int((i + 1) * cell_height), height))`. */
  function RowSpan<T>(img: seq<seq<T>>, g: Layout, i: nat): Span
    requires g.Sized()
  {
    CellSpan(i, g.cellHeight, |img|)
  }

  /** Columns `[int(j * cell_width), min(int((j + 1) * cell_width), width))`. */
  function ColSpan<T>(img: seq<seq<T>>, g: Layout, j: nat): Span
    requires g.Sized()
  {
    CellSpan(j, g.cellWidth, Width(img))
  }

  /** Every cell of the loops `for i in range(num_rows): for j in range(num_cols)`
      is a non-empty block inside the image. */
  lemma CellInside<T>(img: seq<seq<T>>, ramp: string, g: Layout, i: nat, j: nat)
    requires Sampleable(img, ramp, g) && i < g.rows && j < g.cols
    ensures SampleCell(img, RowSpan(img, g, i), ColSpan(img, g, j))
  {
    assert CellSpan(i, g.cellHeight, |img|).NonEmpty();
    assert CellSpan(j, g.cellWidth, Width(img)).NonEmpty();
  }

  /** `np.mean` of cell (i, j) of a grayscale image. */
  function MeanAt(img: seq<seq<int>>, ramp: string, g: Layout, i: nat, j: nat): (m: real)
    requires IsGray(img) && Sampleable(img, ramp, g) && i < g.rows && j < g.cols
    ensures 0.0 <= m <= 255.0
  {
    CellInside(img, ramp, g, i, j);
    CellMean(img, RowSpan(img, g, i), ColSpan(img, g, j))
  }

  /** The ramp index of cell (i, j) of a grayscale image. */
  function CellIndex(img: seq<seq<int>>, ramp: string, g: Layout, rule: IndexRule, i: nat, j: nat): (k: nat)
    requires IsGray(img) && Sampleable(img, ramp, g) && i < g.rows && j < g.cols
    ensures k < |ramp|
  {
    GlyphIndex(MeanAt(img, ramp, g, i, j), |ramp|, rule)
  }

  /** Row i of the text grid: one glyph per column. */
  function TextRow(img: seq<seq<int>>, ramp: string, g: Layout, rule: IndexRule, i: nat): (row: string)
    requires IsGray(img) && Sampleable(img, ramp, g) && i < g.rows
    ensures |row| == g.cols
    ensures forall j :: 0 <= j < g.cols ==> row[j] == ramp[CellIndex(img, ramp, g, rule, i, j)]
  {
    seq(g.cols, j requires 0 <= j < g.cols => ramp[CellIndex(img, ramp, g, rule, i, j)])
  }

  /** The whole text grid: `num_rows` rows of `num_cols` glyphs. */
  function TextGrid(img: seq<seq<int>>, ramp: string, g: Layout, rule: IndexRule): (rows: seq<string>)
    requires IsGray(img) && Sampleable(img, ramp, g)
    ensures |rows| == g.rows
    ensures forall i :: 0 <= i < g.rows ==> rows[i] == TextRow(img, ramp, g, rule, i)
  {
    seq(g.rows, i requires 0 <= i < g.rows => TextRow(img, ramp, g, rule, i))
  }

  /** The inner loop of the scripts: `line += char_list[char_index]` for each column. */
  method BuildLine(img: seq<seq<int>>, ramp: string, g: Layout, rule: IndexRule, i: nat) returns (line: string)
    requires IsGray(img) && Sampleable(img, ramp, g) && i < g.rows
    ensures line == TextRow(img, ramp, g, rule, i)
  {
    line := "";
    var j := 0;
    while j < g.cols
      invariant 0 <= j <= g.cols
      invariant line == TextRow(img, ramp, g, rule, i)[..j]
    {
      line := line + [ramp[CellIndex(img, ramp, g, rule, i, j)]];
      j := j + 1;
    }
  }

  /** An image of uniform level `v` gives one glyph everywhere: the one the
      index rule assigns to `v`. */
  lemma {:induction false} UniformTextGrid(img: seq<seq<int>>, ramp: string, g: Layout, rule: IndexRule, v: int)
    requires IsGray(img) && Sampleable(img, ramp, g) && IsLevel(v)
    requires UniformBlock(img, 0, |img|, 0, Width(img), v)
    ensures forall i, j :: 0 <= i < g.rows && 0 <= j < g.cols ==>
              TextGrid(img, ramp, g, rule)[i][j] == ramp[GlyphIndex(v as real, |ramp|, rule)]
  {
    forall i, j | 0 <= i < g.rows && 0 <= j < g.cols
      ensures TextGrid(img, ramp, g, rule)[i][j] == ramp[GlyphIndex(v as real, |ramp|, rule)]
    {
      CellInside(img, ramp, g, i, j);
      var rs, cs := RowSpan(img, g, i), ColSpan(img, g, j);
      UniformCellMean(img, rs, cs, v);
    }
  }

  /** A brighter cell never gets a denser glyph than a darker one. */
  lemma CellIndexMonotone(img: seq<seq<int>>, ramp: string, g: Layout, rule: IndexRule, i: nat, j: nat, i': nat, j': nat)
    requires IsGray(img) && Sampleable(img, ramp, g)
    requires i < g.rows && j < g.cols && i' < g.rows && j' < g.cols
    requires MeanAt(img, ramp, g, i, j) <= MeanAt(img, ramp, g, i', j')
    ensures CellIndex(img, ramp, g, rule, i, j) <= CellIndex(img, ramp, g, rule, i', j')
  {
    GlyphIndexMonotone(MeanAt(img, ramp, g, i, j), MeanAt(img, ramp, g, i', j'), |ramp|, rule);
  }
}
