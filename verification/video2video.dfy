/** video2video: every frame converted to gray, drawn as lines of glyphs with
    the integer index rule, cropped without inversion, given the source frame
    as an overlay and written to the video. */
module Video2Video {
  import opened Raster
  import opened CellSampler
  import opened BrightnessMapper
  import opened GlyphGrid
  import opened CanvasRenderer
  import opened FrameCropper
  import opened OverlayCompositor
  import opened VideoPipeline

  /** `calculate_cells`: cells twice as tall as wide, with no fallback. */
  function CalculateCells(width: nat, height: nat, numCols: nat): (g: Layout)
    requires width >= 1 && numCols >= 1
    ensures g.cols == numCols && g.cellHeight == 2.0 * g.cellWidth
    ensures g.cellWidth * numCols as real == width as real
    ensures g.rows as real * g.cellHeight <= height as real < g.rows as real * g.cellHeight + g.cellHeight
    ensures Positive(g) && g.Sized()
  {
    Derive(width, height, numCols, 2.0)
  }

  /** Without a fallback, no cell is empty exactly when the columns fit the
      width or no row fits the height. */
  lemma {:induction false} CellsNonEmptyIff(width: nat, height: nat, numCols: nat)
    requires width >= 1 && numCols >= 1
    ensures var g := CalculateCells(width, height, numCols);
            CellsNonEmpty(g, width, height) <==> numCols <= width || g.rows == 0
  {
    var g := CalculateCells(width, height, numCols);
    if numCols <= width {
      MulMonotone(1.0, 2.0, g.cellWidth);
      assert Regular(g, width, height);
      RegularCellsNonEmpty(g, width, height);
    } else if g.rows > 0 {
      FirstSpanOfThinCellsEmpty(g.cellWidth, width);
      assert !AllNonEmpty(g.cellWidth, g.cols, width);
    }
  }

  /** The canvas of `create_ascii_image` before the crop, or `None` where one
      of its cells is an empty slice and `int(np.mean(...))` raises. */
  function AsciiCanvas(gray: seq<seq<int>>, ramp: string, numCols: nat,
                       charWidth: nat, charHeight: nat, bgCode: int): (c: Option<Canvas<int>>)
    requires IsGray(gray) && |ramp| >= 1 && numCols >= 1
    ensures c.Some? <==> numCols <= Width(gray) || CalculateCells(Width(gray), |gray|, numCols).rows == 0
    ensures c.Some? ==> c.value.width == charWidth * numCols &&
                        c.value.height == charHeight * CalculateCells(Width(gray), |gray|, numCols).rows
  {
    var g := CalculateCells(Width(gray), |gray|, numCols);
    CellsNonEmptyIff(Width(gray), |gray|, numCols);
    if CellsNonEmpty(g, Width(gray), |gray|) then Some(LineCanvas(gray, ramp, g, Truncated, charWidth, charHeight, bgCode))
    else None
  }

  /** `create_ascii_image` up to the crop: the nested loops with
      `min(int(mean) * N // 255, N - 1)`. */
  method CreateAsciiImage(gray: seq<seq<int>>, ramp: string, numCols: nat,
                          charWidth: nat, charHeight: nat, bgCode: int) returns (c: Option<Canvas<int>>)
    requires IsGray(gray) && |ramp| >= 1 && numCols >= 1
    ensures c == AsciiCanvas(gray, ramp, numCols, charWidth, charHeight, bgCode)
  {
    var g := CalculateCells(Width(gray), |gray|, numCols);
    if !CellsNonEmpty(g, Width(gray), |gray|) {
      return None;
    }
    var canvas := DrawLines(gray, ramp, g, Truncated, charWidth, charHeight, bgCode);
    return Some(canvas);
  }

  /** Whenever the canvas exists, row i of the text is drawn at
      `(0, i * char_height)` in `255 - bg_code`, and each glyph is the one the
      integer rule picks for its cell's mean. */
  lemma AsciiCanvasRow(gray: seq<seq<int>>, ramp: string, numCols: nat,
                       charWidth: nat, charHeight: nat, bgCode: int, i: nat, j: nat)
    requires IsGray(gray) && |ramp| >= 1 && numCols >= 1 && charHeight >= 1 && numCols <= Width(gray)
    requires i < CalculateCells(Width(gray), |gray|, numCols).rows && j < numCols
    ensures var g := CalculateCells(Width(gray), |gray|, numCols);
            var c := AsciiCanvas(gray, ramp, numCols, charWidth, charHeight, bgCode);
            c.Some? && Sampleable(gray, ramp, g) && |c.value.draws| == g.rows &&
            c.value.draws[i].x == 0 && c.value.draws[i].y == i * charHeight && c.value.draws[i].fill == 255 - bgCode &&
            |c.value.draws[i].text| == numCols &&
            c.value.draws[i].text[j] == ramp[IntIndex(MeanAt(gray, ramp, g, i, j).Floor, |ramp|)]
  {
    var g := CalculateCells(Width(gray), |gray|, numCols);
    CellsNonEmptyIff(Width(gray), |gray|, numCols);
    LineCanvasDraws(gray, ramp, g, Truncated, charWidth, charHeight, bgCode, i);
  }

  /** One frame as video2video renders it: gray conversion, the canvas, and
      rasterising and cropping it on the canvas as drawn, never inverted;
      `None` where the script raises. A canvas without a pixel row or column
      stays empty through the crop, and `cv2.cvtColor` rejects the empty
      array, so a frame renders exactly when its columns fit, one row fits and
      the glyphs have a size. */
  function RenderFrame<F>(f: F, toGray: F -> seq<seq<int>>, ramp: string, numCols: nat, charWidth: nat,
                          charHeight: nat, bgCode: int, paint: (Canvas<int>, BoxSource) -> seq<seq<Rgb>>)
    : (r: Option<seq<seq<Rgb>>>)
    ensures r.Some? <==> IsGray(toGray(f)) && |ramp| >= 1 && numCols >= 1 && numCols <= Width(toGray(f)) &&
                         CalculateCells(Width(toGray(f)), |toGray(f)|, numCols).rows >= 1 &&
                         charWidth >= 1 && charHeight >= 1
  {
    var gray := toGray(f);
    if IsGray(gray) && |ramp| >= 1 && numCols >= 1 then
      match AsciiCanvas(gray, ramp, numCols, charWidth, charHeight, bgCode)
      case None => None
      case Some(c) =>
        ProductPositive(charWidth, numCols);
        ProductPositive(charHeight, CalculateCells(Width(gray), |gray|, numCols).rows);
        if c.width == 0 || c.height == 0 then None else Some(paint(c, AsDrawn))
    else None
  }

  /** A product of naturals is positive exactly when both factors are. */
  lemma ProductPositive(a: nat, b: nat)
    ensures a * b >= 1 <==> a >= 1 && b >= 1
  {
    if a >= 1 && b >= 1 {
      MulNatMonotone(1, a, b);
    }
  }

  /** The per-frame step handed to the frame loop. */
  function Renderer<F(!new)>(toGray: F -> seq<seq<int>>, ramp: string, numCols: nat, charWidth: nat,
                       charHeight: nat, bgCode: int, paint: (Canvas<int>, BoxSource) -> seq<seq<Rgb>>)
    : (render: F -> Option<seq<seq<Rgb>>>)
    ensures forall f :: render(f) == RenderFrame(f, toGray, ramp, numCols, charWidth, charHeight, bgCode, paint)
    ensures (forall c, s :: Rectangular(paint(c, s))) ==> forall f :: render(f).Some? ==> Rectangular(render(f).value)
  {
    f => RenderFrame(f, toGray, ramp, numCols, charWidth, charHeight, bgCode, paint)
  }

  /** `process_video`: the fps resolved by `get_video_properties`, the frame
      loop, and the unguarded `out.release()`. */
  method ProcessVideo2Video<F(!new)>(grabs: seq<Read<F>>, requestedFps: int, sourceFps: real,
                                     toGray: F -> seq<seq<int>>, ramp: string, numCols: nat,
                                     charWidth: nat, charHeight: nat, bgCode: int,
                                     paint: (Canvas<int>, BoxSource) -> seq<seq<Rgb>>,
                                     ratio: real, resize: (F, nat, nat) -> seq<seq<Rgb>>)
    returns (outcome: Outcome<Rgb>)
    requires forall c, s :: Rectangular(paint(c, s))
    requires ResizeShapes(resize)
    ensures outcome == Finish(Run(FramesRead(grabs), ResolveFps(requestedFps, sourceFps),
                                  Renderer(toGray, ramp, numCols, charWidth, charHeight, bgCode, paint), ratio, resize), false)
  {
    var fps := ResolveFps(requestedFps, sourceFps);
    var render := Renderer(toGray, ramp, numCols, charWidth, charHeight, bgCode, paint);
    outcome := ProcessVideo(grabs, fps, render, ratio, resize, false);
  }

  /** A first frame that raises stops the run before a writer exists, and
      nothing is written. */
  lemma {:induction false} FirstFrameRaisesAbortsAtOnce<F(!new)>(grabs: seq<Read<F>>, fps: int,
                                                                render: F -> Option<seq<seq<Rgb>>>,
                                                                ratio: real, resize: (F, nat, nat) -> seq<seq<Rgb>>)
    requires ResizeShapes(resize)
    requires forall f :: render(f).Some? ==> Rectangular(render(f).value)
    requires |grabs| >= 1 && grabs[0].Frame? && render(grabs[0].frame).None?
    ensures Finish(Run(FramesRead(grabs), fps, render, ratio, resize), false) == Aborted(0)
  {
    var fs := FramesRead(grabs);
    FramesReadIsPrefix(grabs);
    assert fs[0] == grabs[0].frame;
    assert fs[..1][..0] == [];
    assert Run(fs[..1], fps, render, ratio, resize) == Crashed(0);
    CrashIsFinal(fs, 1, fps, render, ratio, resize);
  }

  /** Asking for more columns than the first frame has pixels makes the first
      frame raise: the run stops before a writer exists and nothing is
      written. */
  lemma TooManyColumnsAbortsAtOnce<F(!new)>(grabs: seq<Read<F>>, fps: int,
                                            toGray: F -> seq<seq<int>>, ramp: string, numCols: nat,
                                            charWidth: nat, charHeight: nat, bgCode: int,
                                            paint: (Canvas<int>, BoxSource) -> seq<seq<Rgb>>,
                                            ratio: real, resize: (F, nat, nat) -> seq<seq<Rgb>>)
    requires forall c, s :: Rectangular(paint(c, s))
    requires ResizeShapes(resize)
    requires |grabs| >= 1 && grabs[0].Frame? && numCols > Width(toGray(grabs[0].frame))
    ensures Finish(Run(FramesRead(grabs), fps, Renderer(toGray, ramp, numCols, charWidth, charHeight, bgCode, paint),
                       ratio, resize), false) == Aborted(0)
  {
    var render := Renderer(toGray, ramp, numCols, charWidth, charHeight, bgCode, paint);
    assert render(grabs[0].frame).None?;
    FirstFrameRaisesAbortsAtOnce(grabs, fps, render, ratio, resize);
  }

  /** A first frame too short for one row of cells (a 640 x 480 frame with
      one column has cells 640 x 1280) gives a canvas 0 pixels high, which
      raises as well: nothing is written. */
  lemma NoRowAbortsAtOnce<F(!new)>(grabs: seq<Read<F>>, fps: int,
                                   toGray: F -> seq<seq<int>>, ramp: string, numCols: nat,
                                   charWidth: nat, charHeight: nat, bgCode: int,
                                   paint: (Canvas<int>, BoxSource) -> seq<seq<Rgb>>,
                                   ratio: real, resize: (F, nat, nat) -> seq<seq<Rgb>>)
    requires forall c, s :: Rectangular(paint(c, s))
    requires ResizeShapes(resize)
    requires |grabs| >= 1 && grabs[0].Frame? && IsGray(toGray(grabs[0].frame)) && numCols >= 1
    requires CalculateCells(Width(toGray(grabs[0].frame)), |toGray(grabs[0].frame)|, numCols).rows == 0
    ensures Finish(Run(FramesRead(grabs), fps, Renderer(toGray, ramp, numCols, charWidth, charHeight, bgCode, paint),
                       ratio, resize), false) == Aborted(0)
  {
    var render := Renderer(toGray, ramp, numCols, charWidth, charHeight, bgCode, paint);
    assert render(grabs[0].frame).None?;
    FirstFrameRaisesAbortsAtOnce(grabs, fps, render, ratio, resize);
  }

  /** The frame of that example has no row of cells. */
  lemma LandscapeOneColumnHasNoRow()
    ensures CalculateCells(640, 480, 1).rows == 0
  {
    assert CalculateCells(640, 480, 1).cellHeight == 1280.0;
  }
}
