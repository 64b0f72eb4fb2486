/** video2video_color: every frame drawn as one glyph per cell in the cell's
    average color, cropped with the polarity of the background, given the
    source frame as an overlay and written to the video. */
module Video2VideoColor {
  import opened Raster
  import opened CellSampler
  import opened BrightnessMapper
  import opened GlyphGrid
  import opened CanvasRenderer
  import opened FrameCropper
  import opened VideoPipeline

  /** The canvas `process_frame` returns: `char_width * num_cols` by
      `2 * char_height * num_rows` in the background color, one draw per cell
      of the grid with its 6x12 fallback. */
  function FrameCanvas(frame: seq<seq<Rgb>>, ramp: string, numCols: nat,
                       charWidth: nat, charHeight: nat, background: string): Canvas<Rgb>
    requires IsColor(frame) && |ramp| >= 1 && numCols >= 1
  {
    var g := FittedLayout(Width(frame), |frame|, numCols, 2.0);
    FittedSampleable(frame, ramp, numCols, 2.0);
    Canvas(charWidth * g.cols, 2 * charHeight * g.rows, BackgroundColor(background),
           CellDraws(frame, ramp, g, charWidth, charHeight, g.rows))
  }

  /** `process_frame`: the requested grid, reassigned to 6x12 when excessive,
      then the nested draw loop. */
  method ProcessFrame(frame: seq<seq<Rgb>>, numCols: nat, ramp: string,
                      charWidth: nat, charHeight: nat, background: string) returns (c: Canvas<Rgb>)
    requires IsColor(frame) && |ramp| >= 1 && numCols >= 1
    ensures c == FrameCanvas(frame, ramp, numCols, charWidth, charHeight, background)
  {
    var height, width := |frame|, Width(frame);
    var g := Derive(width, height, numCols, 2.0);
    if Excessive(width, height, g.cols, g.rows) {
      g := Fallback(width, height);
    }
    assert g == FittedLayout(width, height, numCols, 2.0);
    FittedSampleable(frame, ramp, numCols, 2.0);
    c := Canvas(charWidth * g.cols, 2 * charHeight * g.rows, BackgroundColor(background), []);
    c := DrawCells(c, frame, ramp, g, charWidth, charHeight);
  }

  /** One draw per cell, and since the canvas is twice as high as the glyph
      rows, every glyph of cell (i, j), drawn at `(j * char_width,
      i * char_height)`, lies in the top half of the canvas. */
  lemma {:induction false} DrawsInTopHalf(frame: seq<seq<Rgb>>, ramp: string, numCols: nat,
                                          charWidth: nat, charHeight: nat, background: string, i: nat, j: nat)
    requires IsColor(frame) && |ramp| >= 1 && numCols >= 1 && charWidth >= 1 && charHeight >= 1
    requires i < FittedLayout(Width(frame), |frame|, numCols, 2.0).rows
    requires j < FittedLayout(Width(frame), |frame|, numCols, 2.0).cols
    ensures var g := FittedLayout(Width(frame), |frame|, numCols, 2.0);
            var c := FrameCanvas(frame, ramp, numCols, charWidth, charHeight, background);
            Sampleable(frame, ramp, g) &&
            var d := CellDraw(frame, ramp, g, charWidth, charHeight, i, j);
            d.x == j * charWidth && d.y == i * charHeight && |d.text| == 1 &&
            0 <= d.x < c.width && 2 * (d.y + charHeight) <= c.height
  {
    var g := FittedLayout(Width(frame), |frame|, numCols, 2.0);
    FittedSampleable(frame, ramp, numCols, 2.0);
    MulStrictNat(j, g.cols, charWidth);
    RowInTopHalf(i, g.rows, charHeight);
  }

  /** Every glyph row ends within `char_height * num_rows`. */
  lemma RowInTopHalf(i: nat, rows: nat, charHeight: nat)
    requires i < rows
    ensures 2 * (i * charHeight + charHeight) <= 2 * charHeight * rows
  {
    MulNatMonotone(i + 1, rows, charHeight);
    assert (i + 1) * charHeight == i * charHeight + charHeight;
    assert rows * charHeight == charHeight * rows;
  }

  /** Too many columns give 6x12 cells that tile the frame, so on a frame of
      one color `c` every glyph is drawn in `c`. */
  lemma FallbackUniformFill(frame: seq<seq<Rgb>>, ramp: string, numCols: nat, c: Rgb, i: nat, j: nat)
    requires IsColor(frame) && |ramp| >= 1 && numCols > Width(frame)
    requires forall y, x :: 0 <= y < |frame| && 0 <= x < Width(frame) ==> frame[y][x] == c
    requires i < FittedLayout(Width(frame), |frame|, numCols, 2.0).rows
    requires j < FittedLayout(Width(frame), |frame|, numCols, 2.0).cols
    ensures var g := FittedLayout(Width(frame), |frame|, numCols, 2.0);
            Sampleable(frame, ramp, g) && ColorFill(frame, ramp, g, i, j) == c
  {
    var g := FittedLayout(Width(frame), |frame|, numCols, 2.0);
    UniformCellFill(frame, ramp, g, i, j, 6, 12, c);
  }

  /** The fill is not an average and can leave the 8-bit range: a 3 x 3 white
      frame asked for 2 columns gets 1.5 x 3 cells, and cell (0, 1) holds
      3 x 2 white pixels over the nominal area 4.5, so its fill channel is
      `int(1530 / 4.5) = 340`. */
  lemma WhiteFrameFillExceedsRange()
    ensures var w: Rgb := (255, 255, 255);
            var frame := [[w, w, w], [w, w, w], [w, w, w]];
            var g := FittedLayout(3, 3, 2, 2.0);
            IsColor(frame) && Sampleable(frame, "@ ", g) && g.rows == 1 && g.cols == 2 &&
            ColorFill(frame, "@ ", g, 0, 1).0 == 340
  {
    var w: Rgb := (255, 255, 255);
    var frame := [[w, w, w], [w, w, w], [w, w, w]];
    assert IsColor(frame);
    var g := FittedLayout(3, 3, 2, 2.0);
    FittedSampleable(frame, "@ ", 2, 2.0);
    ThreeByThreeGrid();
    var rs, cs := RowSpan(frame, g, 0), ColSpan(frame, g, 1);
    assert rs == Span(0, 3) && cs == Span(1, 3);
    UniformChannelSum(frame, rs, cs, w, 0);
    assert ChannelSums(frame, rs, cs).0 == 1530;
    assert NominalArea(g) == 4.5;
    assert (1530 as real / 4.5).Floor == 340;
  }

  /** The grid of a 3 x 3 frame asked for 2 columns: cells 1.5 x 3, one row. */
  lemma ThreeByThreeGrid()
    ensures FittedLayout(3, 3, 2, 2.0) == Layout(1.5, 3.0, 2, 1)
  {
    assert NumRows(3, 3.0) == 1;
  }

  /** One frame as the script renders it: the canvas, rasterised and cropped
      on the inverted canvas for a white background and on the canvas itself
      otherwise. */
  function RenderColorFrame(frame: seq<seq<Rgb>>, ramp: string, numCols: nat, charWidth: nat, charHeight: nat,
                            background: string, paint: (Canvas<Rgb>, BoxSource) -> seq<seq<Rgb>>): Option<seq<seq<Rgb>>>
  {
    if IsColor(frame) && |ramp| >= 1 && numCols >= 1 then
      Some(paint(FrameCanvas(frame, ramp, numCols, charWidth, charHeight, background), CropSource(background)))
    else None
  }

  /** The per-frame step handed to the frame loop. */
  function ColorRenderer(ramp: string, numCols: nat, charWidth: nat, charHeight: nat, background: string,
                         paint: (Canvas<Rgb>, BoxSource) -> seq<seq<Rgb>>)
    : (render: seq<seq<Rgb>> -> Option<seq<seq<Rgb>>>)
    ensures forall f :: render(f) == RenderColorFrame(f, ramp, numCols, charWidth, charHeight, background, paint)
    ensures (forall c, s :: Rectangular(paint(c, s))) ==> forall f :: render(f).Some? ==> Rectangular(render(f).value)
  {
    f => RenderColorFrame(f, ramp, numCols, charWidth, charHeight, background, paint)
  }

  /** `main`: the fps of `calculate_fps`, the frame loop, and the release
      guarded by `if out:`. */
  method ProcessColorVideo(grabs: seq<Read<seq<seq<Rgb>>>>, requestedFps: int, sourceFps: real,
                           ramp: string, numCols: nat, charWidth: nat, charHeight: nat, background: string,
                           paint: (Canvas<Rgb>, BoxSource) -> seq<seq<Rgb>>,
                           ratio: real, resize: (seq<seq<Rgb>>, nat, nat) -> seq<seq<Rgb>>)
    returns (outcome: Outcome<Rgb>)
    requires forall c, s :: Rectangular(paint(c, s))
    requires ResizeShapes(resize)
    ensures outcome == Finish(Run(FramesRead(grabs), ResolveFps(requestedFps, sourceFps),
                                  ColorRenderer(ramp, numCols, charWidth, charHeight, background, paint), ratio, resize), true)
  {
    var fps := ResolveFps(requestedFps, sourceFps);
    var render := ColorRenderer(ramp, numCols, charWidth, charHeight, background, paint);
    outcome := ProcessVideo(grabs, fps, render, ratio, resize, true);
  }

  /** With the fallback no frame raises, so without an overlay the run ends
      without output exactly when no frame was read, and otherwise the video
      holds every frame read, each the rendered canvas, at the requested rate. */
  lemma {:induction false} EveryFrameEncoded(grabs: seq<Read<seq<seq<Rgb>>>>, fps: int,
                                             ramp: string, numCols: nat, charWidth: nat, charHeight: nat,
                                             background: string, paint: (Canvas<Rgb>, BoxSource) -> seq<seq<Rgb>>,
                                             resize: (seq<seq<Rgb>>, nat, nat) -> seq<seq<Rgb>>)
    requires forall c, s :: Rectangular(paint(c, s))
    requires ResizeShapes(resize)
    requires |ramp| >= 1 && numCols >= 1
    requires forall i :: 0 <= i < |grabs| && grabs[i].Frame? ==> IsColor(grabs[i].frame)
    ensures var fs := FramesRead(grabs);
            var render := ColorRenderer(ramp, numCols, charWidth, charHeight, background, paint);
            var outcome := Finish(Run(fs, fps, render, 0.0, resize), true);
            (|fs| == 0 <==> outcome == NoVideo) &&
            (|fs| >= 1 ==>
               (outcome.Encoded? && outcome.writer.fps == fps && |outcome.writer.frames| == |fs| &&
                forall i :: 0 <= i < |fs| ==>
                  Some(outcome.writer.frames[i]) == RenderColorFrame(fs[i], ramp, numCols, charWidth, charHeight, background, paint)))
  {
    var fs := FramesRead(grabs);
    var render := ColorRenderer(ramp, numCols, charWidth, charHeight, background, paint);
    FramesReadIsPrefix(grabs);
    assert forall i :: 0 <= i < |fs| ==> render(fs[i]).Some? by {
      forall i | 0 <= i < |fs| ensures render(fs[i]).Some? {
        assert grabs[i] == Frame(fs[i]);
      }
    }
    NoFailureKeepsRunning(fs, fps, render, resize);
    WriterFixedByFirstFrame(fs, fps, render, 0.0, resize);
  }
}
