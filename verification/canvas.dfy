/** Output canvases as a size, a background and the list of text draws issued
    on them; rasterising the glyphs is left to the font engine. */
module CanvasRenderer {
  import opened Raster
  import opened CellSampler
  import opened BrightnessMapper
  import opened GlyphGrid

  /** One `draw.text((x, y), text, fill=fill)` call. */
  datatype Draw<Ink> = Text(x: int, y: int, text: string, fill: Ink)

  /** `Image.new(mode, (width, height), background)` and the draws made on it, in order. */
  datatype Canvas<Ink> = Canvas(width: int, height: int, background: Ink, draws: seq<Draw<Ink>>)

  /** `bg_code = 255 if background == "white" else 0`: one of the two extreme levels. */
  function BackgroundLevel(background: string): (v: int)
    ensures v == 0 || v == 255
    ensures v == 255 <==> background == "white"
  {
    if background == "white" then 255 else 0
  }

  /** `get_background_code` / `get_background_color`: the same extreme, on all three channels. */
  function BackgroundColor(background: string): (c: Rgb)
    ensures var v := BackgroundLevel(background); c == (v, v, v)
  {
    if background == "white" then (255, 255, 255) else (0, 0, 0)
  }

  /** The mono scripts draw text in `255 - bg_code`: the extreme the background is not. */
  lemma TextLevelOpposite(background: string)
    ensures var bg := BackgroundLevel(background);
            IsLevel(255 - bg) && 255 - bg != bg && (255 - bg == 0 <==> background == "white")
  {}

  /** Row i of a text grid drawn as one line at `(0, i * char_height)`. */
  function LineDraws(lines: seq<string>, charHeight: nat, fill: int): (d: seq<Draw<int>>)
    ensures |d| == |lines|
  {
    seq(|lines|, i requires 0 <= i < |lines| => Text(0, i * charHeight, lines[i], fill))
  }

  /** The grayscale canvas: `char_width * num_cols` by `char_height * num_rows`,
      filled with `bg_code`, one line per row of the text grid. */
  function LineCanvas(img: seq<seq<int>>, ramp: string, g: Layout, rule: IndexRule,
                      charWidth: nat, charHeight: nat, bg: int): Canvas<int>
    requires IsGray(img) && Sampleable(img, ramp, g)
  {
    Canvas(charWidth * g.cols, charHeight * g.rows, bg,
           LineDraws(TextGrid(img, ramp, g, rule), charHeight, 255 - bg))
  }

  /** The draw of row i is the i-th line of the text grid, `num_cols` glyphs
      long, drawn at the left edge `i * char_height` below the top, and its
      origin lies on the canvas. */
  lemma LineCanvasDraws(img: seq<seq<int>>, ramp: string, g: Layout, rule: IndexRule,
                        charWidth: nat, charHeight: nat, bg: int, i: nat)
    requires IsGray(img) && Sampleable(img, ramp, g) && i < g.rows && charHeight >= 1
    ensures var c := LineCanvas(img, ramp, g, rule, charWidth, charHeight, bg);
            |c.draws| == g.rows && c.draws[i].x == 0 && c.draws[i].y == i * charHeight &&
            c.draws[i].text == TextRow(img, ramp, g, rule, i) && |c.draws[i].text| == g.cols &&
            c.draws[i].fill == 255 - bg && 0 <= c.draws[i].y < c.height
  {
    assert i * charHeight < charHeight * g.rows by { MulStrictNat(i, g.rows, charHeight); }
  }

  lemma MulStrictNat(a: nat, b: nat, c: nat)
    requires a < b && c >= 1
    ensures a * c < c * b
  {
    MulNatMonotone(a + 1, b, c);
  }

  /** `create_output_image` / `create_ascii_image`: for each row, build the
      line glyph by glyph, then draw it. */
  method DrawLines(img: seq<seq<int>>, ramp: string, g: Layout, rule: IndexRule,
                   charWidth: nat, charHeight: nat, bg: int) returns (c: Canvas<int>)
    requires IsGray(img) && Sampleable(img, ramp, g)
    ensures c == LineCanvas(img, ramp, g, rule, charWidth, charHeight, bg)
  {
    c := Canvas(charWidth * g.cols, charHeight * g.rows, bg, []);
    ghost var lines := TextGrid(img, ramp, g, rule);
    var i := 0;
    while i < g.rows
      invariant 0 <= i <= g.rows
      invariant c == Canvas(charWidth * g.cols, charHeight * g.rows, bg, LineDraws(lines[..i], charHeight, 255 - bg))
    {
      var line := BuildLine(img, ramp, g, rule, i);
      assert LineDraws(lines[..i + 1], charHeight, 255 - bg) ==
             LineDraws(lines[..i], charHeight, 255 - bg) + [Text(0, i * charHeight, line, 255 - bg)];
      c := c.(draws := c.draws + [Text(0, i * charHeight, line, 255 - bg)]);
      i := i + 1;
    }
    assert lines[..g.rows] == lines;
  }

  /** The glyph index of a color cell: the mean over all pixels and channels,
      `min(int(np.mean(cell) * N / 255), N - 1)`. */
  function ColorIndex(img: seq<seq<Rgb>>, ramp: string, g: Layout, i: nat, j: nat): (k: nat)
    requires IsColor(img) && Sampleable(img, ramp, g) && i < g.rows && j < g.cols
    ensures k < |ramp|
  {
    CellInside(img, ramp, g, i, j);
    RealIndex(ColorMean(img, RowSpan(img, g, i), ColSpan(img, g, j)), |ramp|)
  }

  /** The nominal cell area `cell_height * cell_width` the fill divides by. */
  function NominalArea(g: Layout): (a: real)
    requires Positive(g)
    ensures a > 0.0
  {
    MulStrict(0.0, g.cellHeight, g.cellWidth);
    g.cellHeight * g.cellWidth
  }

  /** The fill of a color cell: its channel sums over `cell_height * cell_width`. */
  function ColorFill(img: seq<seq<Rgb>>, ramp: string, g: Layout, i: nat, j: nat): (f: Rgb)
    requires IsColor(img) && Sampleable(img, ramp, g) && i < g.rows && j < g.cols
  {
    CellInside(img, ramp, g, i, j);
    NominalFill(ChannelSums(img, RowSpan(img, g, i), ColSpan(img, g, j)), NominalArea(g))
  }

  /** With integral cell sizes that tile the image, a cell of uniform color
      `c` is filled with exactly `c`: its pixel count is the nominal area. */
  lemma {:induction false} UniformCellFill(img: seq<seq<Rgb>>, ramp: string, g: Layout, i: nat, j: nat,
                                           cw: nat, ch: nat, c: Rgb)
    requires IsColor(img) && Sampleable(img, ramp, g) && i < g.rows && j < g.cols
    requires g.cellWidth == cw as real && g.cellHeight == ch as real
    requires g.cols * cw <= Width(img) && g.rows * ch <= |img|
    requires forall y, x :: 0 <= y < |img| && 0 <= x < Width(img) ==> img[y][x] == c
    ensures ColorFill(img, ramp, g, i, j) == c
  {
    CellInside(img, ramp, g, i, j);
    var rs, cs := RowSpan(img, g, i), ColSpan(img, g, j);
    IntegralCellArea(img, g, i, j, cw, ch);
    UniformOnCell(img, rs, cs, c);
    UniformFill(img, rs, cs, c);
  }

  /** A cell of an integral grid that tiles the image has `ch * cw` pixels,
      its nominal area. */
  lemma IntegralCellArea(img: seq<seq<Rgb>>, g: Layout, i: nat, j: nat, cw: nat, ch: nat)
    requires g.cellWidth == cw as real && g.cellHeight == ch as real && i < g.rows && j < g.cols
    requires g.cols * cw <= Width(img) && g.rows * ch <= |img|
    requires Positive(g)
    ensures Area(RowSpan(img, g, i), ColSpan(img, g, j)) as real == NominalArea(g)
  {
    IntegralSpanLength(i, ch, g.rows, |img|);
    IntegralSpanLength(j, cw, g.cols, Width(img));
    assert Area(RowSpan(img, g, i), ColSpan(img, g, j)) == ch * cw;
  }

  lemma UniformOnCell(img: seq<seq<Rgb>>, rs: Span, cs: Span, c: Rgb)
    requires Rectangular(img) && rs.Within(|img|) && cs.Within(Width(img))
    requires forall y, x :: 0 <= y < |img| && 0 <= x < Width(img) ==> img[y][x] == c
    ensures forall y, x :: rs.lo <= y < rs.hi && cs.lo <= x < cs.hi ==> img[y][x] == c
  {}

  /** The draw for color cell (i, j): its one glyph at `(j * char_width, i * char_height)`. */
  function CellDraw(img: seq<seq<Rgb>>, ramp: string, g: Layout, charWidth: nat, charHeight: nat,
                    i: nat, j: nat): Draw<Rgb>
    requires IsColor(img) && Sampleable(img, ramp, g) && i < g.rows && j < g.cols
  {
    Text(j * charWidth, i * charHeight, [ramp[ColorIndex(img, ramp, g, i, j)]], ColorFill(img, ramp, g, i, j))
  }

  /** The draws of row i, left to right. */
  function RowDraws(img: seq<seq<Rgb>>, ramp: string, g: Layout, charWidth: nat, charHeight: nat,
                    i: nat): (d: seq<Draw<Rgb>>)
    requires IsColor(img) && Sampleable(img, ramp, g) && i < g.rows
    ensures |d| == g.cols
  {
    seq(g.cols, j requires 0 <= j < g.cols => CellDraw(img, ramp, g, charWidth, charHeight, i, j))
  }

  /** The draws of the first `k` rows, row after row. */
  function CellDraws(img: seq<seq<Rgb>>, ramp: string, g: Layout, charWidth: nat, charHeight: nat,
                     k: nat): seq<Draw<Rgb>>
    requires IsColor(img) && Sampleable(img, ramp, g) && k <= g.rows
  {
    if k == 0 then [] else CellDraws(img, ramp, g, charWidth, charHeight, k - 1) + RowDraws(img, ramp, g, charWidth, charHeight, k - 1)
  }

  /** A grid without columns issues no draw, whatever its cell sizes. */
  lemma {:induction false} NoColumnsNoDraws(img: seq<seq<Rgb>>, ramp: string, g: Layout, charWidth: nat, charHeight: nat,
                                            k: nat)
    requires IsColor(img) && Sampleable(img, ramp, g) && k <= g.rows && g.cols == 0
    ensures CellDraws(img, ramp, g, charWidth, charHeight, k) == []
  {
    if k > 0 {
      NoColumnsNoDraws(img, ramp, g, charWidth, charHeight, k - 1);
    }
  }

  /** Exactly one draw per cell: the first `k` rows give `k * num_cols` draws,
      and draw `i * num_cols + j` is the one of cell (i, j). */
  lemma {:induction false} CellDrawAt(img: seq<seq<Rgb>>, ramp: string, g: Layout, charWidth: nat, charHeight: nat,
                                      k: nat, i: nat, j: nat)
    requires IsColor(img) && Sampleable(img, ramp, g) && k <= g.rows
    ensures |CellDraws(img, ramp, g, charWidth, charHeight, k)| == k * g.cols
    ensures i < k && j < g.cols ==>
              i * g.cols + j < k * g.cols &&
              CellDraws(img, ramp, g, charWidth, charHeight, k)[i * g.cols + j] == CellDraw(img, ramp, g, charWidth, charHeight, i, j)
  {
    if k > 0 {
      CellDrawAt(img, ramp, g, charWidth, charHeight, k - 1, i, j);
      var prev := CellDraws(img, ramp, g, charWidth, charHeight, k - 1);
      assert (k - 1) * g.cols + g.cols == k * g.cols;
      if i < k && j < g.cols {
        if i < k - 1 {
          MulNatMonotone(i + 1, k - 1, g.cols);
          assert i * g.cols + j < (k - 1) * g.cols;
        } else {
          assert i * g.cols == (k - 1) * g.cols;
        }
      }
    }
  }

  /** The inner loop of `draw_ascii_image`: the draws of row i, left to right. */
  method DrawRow(canvas: Canvas<Rgb>, img: seq<seq<Rgb>>, ramp: string, g: Layout,
                 charWidth: nat, charHeight: nat, i: nat) returns (c: Canvas<Rgb>)
    requires IsColor(img) && Sampleable(img, ramp, g) && i < g.rows
    ensures c == canvas.(draws := canvas.draws + RowDraws(img, ramp, g, charWidth, charHeight, i))
  {
    c := canvas;
    ghost var row := RowDraws(img, ramp, g, charWidth, charHeight, i);
    var j := 0;
    while j < g.cols
      invariant 0 <= j <= g.cols
      invariant c == canvas.(draws := canvas.draws + row[..j])
    {
      c := c.(draws := c.draws + [CellDraw(img, ramp, g, charWidth, charHeight, i, j)]);
      assert row[..j + 1] == row[..j] + [row[j]];
      j := j + 1;
    }
    assert row[..g.cols] == row;
  }

  /** `draw_ascii_image` and the loop of `process_frame`: one draw per cell,
      row after row, onto a given canvas. */
  method DrawCells(canvas: Canvas<Rgb>, img: seq<seq<Rgb>>, ramp: string, g: Layout,
                   charWidth: nat, charHeight: nat) returns (c: Canvas<Rgb>)
    requires IsColor(img) && Sampleable(img, ramp, g)
    ensures c == canvas.(draws := canvas.draws + CellDraws(img, ramp, g, charWidth, charHeight, g.rows))
  {
    c := canvas;
    var i := 0;
    while i < g.rows
      invariant 0 <= i <= g.rows
      invariant c == canvas.(draws := canvas.draws + CellDraws(img, ramp, g, charWidth, charHeight, i))
    {
      c := DrawRow(c, img, ramp, g, charWidth, charHeight, i);
      assert CellDraws(img, ramp, g, charWidth, charHeight, i + 1) ==
             CellDraws(img, ramp, g, charWidth, charHeight, i) + RowDraws(img, ramp, g, charWidth, charHeight, i);
      i := i + 1;
    }
  }

  /** Every color draw is one glyph of the ramp at the cell's grid position. */
  lemma CellDrawShape(img: seq<seq<Rgb>>, ramp: string, g: Layout, charWidth: nat, charHeight: nat, i: nat, j: nat)
    requires IsColor(img) && Sampleable(img, ramp, g) && i < g.rows && j < g.cols
    ensures var d := CellDraw(img, ramp, g, charWidth, charHeight, i, j);
            d.x == j * charWidth && d.y == i * charHeight && |d.text| == 1 && d.text[0] in ramp
  {}
}
