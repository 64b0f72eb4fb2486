# ASCII-art converters: a verified model of the shared core

The repository has five Python scripts. Each turns an image or a video into ASCII art:

- `img2txt.py` writes a text file.
- `img2img.py` draws a grayscale picture of glyphs.
- `img2img_color.py` draws one glyph per cell in the cell's average colour.
- `video2video.py` and `video2video_color.py` do the same for every frame of a video. They paste a shrunken copy of the source frame into the corner and write the frames to a video file.

All five share one piece of logic, copied from script to script:

1. Lay a grid of cells over the picture: `cell_width = width / num_cols`, `cell_height = scale * cell_width`, `num_rows = int(height / cell_height)`.
2. If too many columns or rows are asked for, fall back to 6x12-pixel cells.
3. Cut each cell out as the half-open range `[int(i * size), min(int((i + 1) * size), dim))`.
4. Reduce the cell to a mean brightness and map that to an index into a glyph ramp.
5. In colour mode, divide each channel sum by the nominal cell area.
6. Emit the glyphs: as lines of text, as line draws, or as one draw per cell.
7. Choose the polarity of the crop box.
8. For videos, run the frame loop, which creates the writer lazily and pastes the overlay.

This project models that logic in Dafny and proves what the scripts promise about it.

## How the model is built

- **Numbers.** Images are `seq<seq<int>>` (gray) or `seq<seq<(int, int, int)>>` (RGB). Cell sizes are exact reals, and Python's `int()` on a non-negative value is `.Floor`.
- **Grid and sampling.** The grid is the `Layout` datatype in `CellSampler`. Sampling a cell, taking its mean and mapping it to a ramp index are pure functions: `BrightnessMapper`, `GlyphGrid`.
- **Drawing.** The scripts' nested loops are methods proved against those functions: `GlyphGrid.BuildLine`, `CanvasRenderer.DrawLines`, `DrawRow`, `DrawCells`, `Img2Txt.ConvertImageToAscii`, `Img2Txt.SaveAsciiArt`. A canvas is its size, its background and the list of `draw.text` calls made on it (`CanvasRenderer`).
- **Overlay.** The in-place slice assignment of the overlay is a method on an `array2` (`OverlayCompositor.OverlayInPlace`), tied to the pure `Overlaid`.
- **Video loop.** The loop of both video scripts is a `while` loop over the frame reads (`VideoPipeline.ProcessVideo`), proved equal to a state machine, `Run`/`Step`. A frame's rendering is a parameter of that loop, and so is `cv2.resize`.
- **Empty cells.** `np.mean` of an empty slice is NaN, and `int()` of NaN raises. So every cell-level reduction requires a non-empty cell (`GlyphGrid.Sampleable`). The model proves:
  - which grids meet this: every grid after the fallback;
  - where a grid fails it: video2video with too many columns, and img2img_color's fallback (see Findings).
- **Glyph aspect.** The aspect `scale` comes from a helper module that is not part of this model. It is modelled as an integer of at least 1, because img2img_color uses `scale * char_height * num_rows` as an image size. img2txt and both video scripts use 2; img2img also takes `scale` from `get_data`.

Behaviour of the code that the model keeps:

- **Cell upper bounds.** They use `int()`, which rounds down, clipped by `min`.
- **Cell count after the fallback.** The fallback gives `int(width / 6)` columns, which is 0 below 6 pixels. The loops then draw nothing.
- **Empty bounding box.** The `getbbox()` result goes to `crop` unchanged. The model gives the box only an abstract specification and claims no fallback for an empty one.
- **Writer release.** The writer is released only after the loop ends normally. video2video releases it unguarded, which raises when no frame was read.
- **video2video fallback.** video2video has no 6x12 fallback. With more columns than pixels its first frame raises.
- **img2img_color fallback.** It replaces only the cell counts, not the cell sizes. This is the finding below.

## Model

| member | source | states |
|---|---|---|
| GlyphRamp.GetCharList | img2txt.py:17-24 | "simple" gives the 10-glyph ramp starting with '@', whose glyph 5 is '='; any other mode gives the 70-glyph ramp starting with '$'; both end in the blank and contain no line break; the same code is at video2video.py:23-30 and video2video_color.py:21-25 |
| CellSampler.CellWidth | img2img.py:30 | the columns split the width exactly (`cw * num_cols == width`), and cells are at least one pixel wide exactly when `num_cols <= width` |
| CellSampler.NumRows | img2txt.py:37 | `num_rows` is the largest count of whole rows that fit: `rows * ch <= height < (rows + 1) * ch` |
| CellSampler.Derive | img2txt.py:35-37 | the requested grid has `num_cols` columns that split the width exactly, cells `scale` times as tall as wide, and the most rows that fit the height; the same code is at img2img_color.py:26-30 and video2video_color.py:39-42 |
| CellSampler.Fallback | img2txt.py:42-45 | the degraded grid has cells of exactly 6 by 12 pixels and `int(width / 6)` x `int(height / 12)` of them: the most that fit |
| CellSampler.WithFallback | img2txt.py:40-45 | the grid after the check is the requested one or the 6x12 one, and its counts never exceed the image's pixel counts |
| CellSampler.CellSpan | img2txt.py:54-55 | a cell's range starts at or after 0 and ends at or before the image edge |
| CellSampler.SpanInsideGrid | img2txt.py:54-55 | inside the grid the `min` clip never bites, the range lies in the image, and consecutive cells abut |
| CellSampler.WideSpanNonEmpty | img2txt.py:54-55 | cells at least one pixel wide are never empty |
| CellSampler.IntegralSpanExact | img2img_color.py:46-47 | with integral cell sizes cell k is exactly `[k * size, (k + 1) * size)` |
| CellSampler.IntegralSpanLength | img2img_color.py:46-47 | with integral cell sizes every cell has exactly `size` pixels along the axis |
| CellSampler.FirstSpanOfThinCellsEmpty | img2img_color.py:46-47 | a cell narrower than a pixel makes column 0 the empty range `[0, 0)` |
| CellSampler.RegularAxisNonEmpty | img2txt.py:54-55 | along an axis whose cells are at least a pixel and fit the image, no cell is empty |
| CellSampler.RegularCellsNonEmpty | img2txt.py:54-56 | a grid whose cells are at least a pixel and fit the image has no empty cell |
| CellSampler.FallbackGridRegular | img2txt.py:35-45 | for an aspect of at least 1, the grid after the fallback has cells of at least a pixel that fit inside the image |
| CellSampler.FallbackIffTooManyColumns | img2txt.py:35-40 | for an aspect of at least 1 the check fires exactly when `num_cols > width`; the row test never decides |
| CellSampler.ColumnOverflowSelectsFallback | img2txt.py:40-45 | asking for `width + 1` columns always selects the 6x12 grid, for any aspect |
| BrightnessMapper.RealIndex | img2txt.py:57 | `min(int(avg * N / 255), N - 1)` is a valid ramp index; the same code is at img2img.py:60 and img2img_color.py:50 |
| BrightnessMapper.IntIndex | video2video.py:77 | `min(avg * N // 255, N - 1)` on an integer mean is a valid ramp index |
| BrightnessMapper.GlyphIndex | video2video.py:76-77 | either rule, the integer one applied to `int(mean)`, gives a valid ramp index |
| BrightnessMapper.RealIndexMonotone | img2txt.py:57 | a brighter mean never gets a denser glyph; the same code is at img2img.py:60 |
| BrightnessMapper.IntIndexMonotone | video2video.py:77 | the integer rule is monotone in the integer mean |
| BrightnessMapper.GlyphIndexMonotone | video2video.py:76-77 | both rules are monotone in the real mean, truncation included |
| BrightnessMapper.IntIndexIsRealIndex | video2video.py:77 | on an integer mean the integer rule equals the fractional rule |
| BrightnessMapper.TruncatedNeverAbove | video2video.py:76-77 | truncating the mean first never selects a lighter glyph than the other scripts |
| BrightnessMapper.TruncationCanLowerIndex | video2video.py:76-77 | truncating can select a denser glyph: mean 25.9 on 10 glyphs gives 0 instead of 1 |
| BrightnessMapper.ClampOnlyAtWhite | img2txt.py:57 | the `min` clamps only at 255, where the floor is N and the result is N - 1 |
| BrightnessMapper.EveryIndexReachable | img2txt.py:57 | every glyph of the ramp is selected by some brightness in [0, 255) |
| BrightnessMapper.MidGrayIndex | img2txt.py:56-57 | brightness 128 on the 10-glyph ramp gives index 5 |
| BrightnessMapper.CellMean | img2txt.py:56 | `np.mean` of a non-empty gray cell lies in [0, 255] |
| BrightnessMapper.UniformCellMean | img2txt.py:56 | a cell of one level v has mean v |
| BrightnessMapper.ChannelSums | img2img_color.py:48 | each channel sum of a cell lies between 0 and 255 times the cell's pixel count |
| BrightnessMapper.ColorMean | img2img_color.py:50 | the mean over all pixels and channels of a non-empty colour cell lies in [0, 255] |
| BrightnessMapper.NominalFill | img2img_color.py:48-49 | each fill channel, the truncated quotient of the channel sum by the nominal area, is non-negative |
| BrightnessMapper.UniformChannelSum | img2img_color.py:48 | a cell of one colour c has channel sum `c_k` times its pixel count |
| BrightnessMapper.UniformFill | img2img_color.py:48-49 | when the nominal area equals the pixel count, a cell of one colour c is filled with exactly c |
| BrightnessMapper.FillWithinRange | img2img_color.py:48-49 | a nominal area at least the cell's pixel count keeps every fill channel in [0, 255] |
| GlyphGrid.FittedLayout | img2txt.py:35-45 | the grid after the fallback is the requested grid when `num_cols <= width` and the 6x12 grid otherwise; either way its cells are at least a pixel, lie inside the image and are never empty; the same code is at img2img.py:89-99 and video2video_color.py:39-49 |
| GlyphGrid.FittedSampleable | img2txt.py:48-56 | with that grid every cell of the nested loops can be sampled on any non-empty image |
| GlyphGrid.CellInside | img2txt.py:54-55 | every cell visited by the loops is a non-empty block inside the image |
| GlyphGrid.MeanAt | img2txt.py:54-56 | the mean of every visited cell lies in [0, 255] |
| GlyphGrid.CellIndex | img2txt.py:56-57 | every visited cell's glyph index is valid for the ramp |
| GlyphGrid.TextRow | img2txt.py:51-58 | row i has exactly `num_cols` glyphs, glyph j being the ramp glyph of cell (i, j) |
| GlyphGrid.TextGrid | img2txt.py:48-59 | the grid has exactly `num_rows` rows, row i being `TextRow` i |
| GlyphGrid.BuildLine | img2txt.py:51-58 | the inner loop's `row += char_list[char_index]` builds exactly row i of the text grid; the same code is at img2img.py:55-61 and video2video.py:72-78 |
| GlyphGrid.UniformTextGrid | img2txt.py:48-59 | an image of one level v gives the glyph of v in every cell |
| GlyphGrid.CellIndexMonotone | img2txt.py:56-57 | of two cells, the one with the brighter mean never gets the denser glyph |
| CanvasRenderer.BackgroundLevel | img2img.py:83 | `bg_code` is 255 exactly for "white" and 0 otherwise; the same code is at video2video.py:130 |
| CanvasRenderer.BackgroundColor | img2img_color.py:20-23 | the background is (255, 255, 255) for "white" and (0, 0, 0) otherwise; the same code is at video2video_color.py:27-31 |
| CanvasRenderer.TextLevelOpposite | img2img.py:62 | the text level `255 - bg_code` is a level other than the background's: 0 on white, 255 on black; the same code is at video2video.py:79 |
| CanvasRenderer.LineCanvas | img2img.py:49-62 | defines the canvas of `create_output_image`: `char_width * num_cols` by `char_height * num_rows` in `bg_code`, with one line draw per row of the text grid in `255 - bg_code`; the same code is at video2video.py:66-79 |
| CanvasRenderer.LineDraws | img2img.py:62 | one line draw per row of text |
| CanvasRenderer.LineCanvasDraws | img2img.py:49-62 | the canvas has one draw per row: row i's line of `num_cols` glyphs, at `(0, i * char_height)`, in `255 - bg_code`, starting on the canvas; the same code is at video2video.py:66-79 |
| CanvasRenderer.DrawLines | img2img.py:49-62 | the nested loops of `create_output_image` issue exactly the draws of `LineCanvas` on a canvas of `char_width * num_cols` by `char_height * num_rows` in `bg_code`; the same code is at video2video.py:66-79 |
| CanvasRenderer.ColorIndex | img2img_color.py:50 | a colour cell's glyph index is valid for the ramp; the same code is at video2video_color.py:64 |
| CanvasRenderer.NominalArea | img2img_color.py:48 | the divisor `cell_height * cell_width` is positive |
| CanvasRenderer.ColorFill | img2img_color.py:48-49 | defines a cell's fill: each channel sum over the cell, divided by the nominal area `cell_height * cell_width` and truncated to an integer; the same code is at video2video_color.py:62-63 |
| CanvasRenderer.IntegralCellArea | img2img_color.py:46-48 | with integral cell sizes that tile the image, a cell's pixel count equals its nominal area |
| CanvasRenderer.UniformCellFill | img2img_color.py:48-49 | with integral cell sizes that tile the image, every glyph on an image of one colour c is filled with exactly c |
| CanvasRenderer.RowDraws | img2img_color.py:45-51 | row i issues one draw per column |
| CanvasRenderer.CellDraw | img2img_color.py:50-51 | defines the draw of cell (i, j): the ramp glyph of its colour mean, at `(j * char_width, i * char_height)`, filled with its `ColorFill` |
| CanvasRenderer.CellDraws | img2img_color.py:44-51 | defines the draws of the first k rows: the draws of row 0, then row 1, and so on, each row left to right |
| CanvasRenderer.CellDrawAt | img2img_color.py:44-51 | the first k rows issue exactly `k * num_cols` draws, draw `i * num_cols + j` being the one of cell (i, j) |
| CanvasRenderer.DrawRow | img2img_color.py:45-51 | the inner loop appends exactly the draws of row i, left to right |
| CanvasRenderer.DrawCells | img2img_color.py:44-51 | the nested loops append exactly one draw per cell, row after row, and change nothing else on the canvas; the same code is at video2video_color.py:58-65 |
| CanvasRenderer.CellDrawShape | img2img_color.py:50-51 | each colour draw is one ramp glyph at `(j * char_width, i * char_height)` |
| FrameCropper.CropSource | img2img.py:71-74 | the box is taken on the inverted canvas exactly for a white background; the same code is at img2img_color.py:87-90 and video2video_color.py:85-88 |
| FrameCropper.MarkedIffNotBackground | img2img.py:71-75 | with that polarity exactly the gray levels other than the background count for the box |
| FrameCropper.MarkedColorIffNotBackground | video2video_color.py:85-90 | with that polarity exactly the pixels other than the background colour count for the box |
| FrameCropper.AsDrawnOnWhiteMarksBackground | video2video.py:81-82 | video2video never inverts, so on white the background counts and the black text does not |
| FrameCropper.Mask | video2video.py:81 | the mask marks exactly the pixels `getbbox` counts on the chosen gray image |
| FrameCropper.ColorMask | video2video_color.py:86-88 | the mask marks exactly the colour pixels with a counted channel |
| FrameCropper.CornersFixWholeBox | video2video.py:81-82 | when two opposite corners count, the bounding box is the whole raster |
| FrameCropper.WhiteCanvasNotTrimmed | video2video.py:81-82 | on white, with background in two opposite corners, video2video's box is the whole canvas and nothing is trimmed |
| FrameCropper.Crop | img2img.py:75 | the crop has the box's size and holds the pixels of the box at their offsets |
| FrameCropper.CropWholeIsIdentity | img2img.py:75 | cropping to the whole raster gives it back |
| FrameCropper.CropKeepsMarked | img2img.py:72-75 | every counted pixel survives the crop to the bounding box |
| OverlayCompositor.Trunc | video2video.py:89 | `int(x)` truncates toward zero: the floor for non-negative x |
| OverlayCompositor.PlanOverlay | video2video.py:88-90 | a zero ratio skips the overlay; otherwise a block of `int(h * r)` by `int(w * r)`, each at least 1 and at most the side, is pasted flush with the bottom-right corner, and any other block raises; the same code is at video2video_color.py:97-100 |
| OverlayCompositor.Overlaid | video2video.py:90 | defines the frame after `frame[top:, left:] = patch`: the patch pixel inside the block, the frame pixel elsewhere; the same code is at video2video_color.py:100 |
| OverlayCompositor.BlockSideFits | video2video.py:89 | for `0 < r <= 1` and `n * r >= 1`, `1 <= int(n * r) <= n` |
| OverlayCompositor.UnitRatioPastes | video2video.py:89-90 | a ratio in (0, 1] that keeps a pixel on each side always pastes |
| OverlayCompositor.DefaultRatioPastes | video2video.py:89-90 | the default ratio 0.2 pastes on any frame of at least 5x5 pixels |
| OverlayCompositor.OversizedRatioFails | video2video.py:89-90 | a ratio of 1.5 on a 10x10 frame raises |
| OverlayCompositor.OverlaidExactlyBlock | video2video.py:90 | the overlay keeps the frame's shape, overwrites exactly the bottom-right block with the resized frame, and leaves every other pixel unchanged; the same code is at video2video_color.py:100 |
| OverlayCompositor.OverlayInPlace | video2video.py:90 | the in-place slice assignment sets every pixel of the block to the patch and leaves every other pixel as it was |
| OverlayCompositor.InPlaceIsOverlaid | video2video.py:90 | the array after the in-place overlay holds exactly `Overlaid` of its old contents |
| VideoPipeline.FramesRead | video2video.py:100-103 | the loop never processes more frames than there are reads |
| VideoPipeline.FramesReadIsPrefix | video2video.py:100-103 | the processed frames are the good reads before the first failed read, in order; the same code is at video2video_color.py:78-81 |
| VideoPipeline.ReadsAfterFailureIgnored | video2video.py:100-103 | nothing after the first failed read is ever processed |
| VideoPipeline.ResolveFps | video2video.py:43-44 | fps 0 means the source rate truncated to an integer; any other value is kept; the same code is at video2video_color.py:33-36 |
| VideoPipeline.Composite | video2video.py:115-116 | without an overlay the written frame is the rendered frame unchanged |
| VideoPipeline.Step | video2video.py:100-118 | one pass of the loop body: after an exception nothing changes; a frame that renders and composites creates the writer if none exists and adds exactly one frame to it; a frame that raises stops the run with the frames written so far; the same code is at video2video_color.py:78-102 |
| VideoPipeline.Run | video2video.py:100-118 | the loop over the frames read: a running loop has a writer exactly when a frame was read, and then it holds one frame per frame read; a stopped loop wrote fewer frames than were read; the same code is at video2video_color.py:78-102 |
| VideoPipeline.Finish | video2video.py:120-121 | after the loop, an unguarded release with no writer raises and a guarded one ends without video; a run stopped by an exception keeps its count of frames written; the same code is at video2video_color.py:104-106 |
| VideoPipeline.CrashIsFinal | video2video.py:100-118 | an exception ends the run: later frames change nothing |
| VideoPipeline.WriterFixedByFirstFrame | video2video.py:111-118 | the writer is created once, from the first frame's size after the crop and before the overlay, at the resolved rate, and holds one composited frame per processed frame, in order; the same code is at video2video_color.py:93-102 |
| VideoPipeline.NoFailureKeepsRunning | video2video_color.py:78-102 | when no frame raises and there is no overlay, the loop keeps running and has a writer exactly when a frame was read |
| VideoPipeline.ProcessVideo | video2video.py:97-121 | the `while` loop with its lazily created writer ends exactly as the state machine `Run` does, followed by the release; the same code is at video2video_color.py:77-106 |
| VideoPipeline.NoFramesOutcome | video2video.py:120-121 | with no frame read, the unguarded `out.release()` raises, while the guarded release ends without output |
| Img2Txt.TextLayout | img2txt.py:34-45 | without the fallback the grid has `num_cols` columns, cells twice as tall as wide, and the most rows that fit; with it, `int(w / 6)` x `int(h / 12)` cells of 6x12 |
| Img2Txt.TextLayoutSampleable | img2txt.py:48-56 | every cell of img2txt's loops can be sampled on any non-empty image |
| Img2Txt.ConvertImageToAscii | img2txt.py:26-61 | the nested loops return exactly the text grid of the fitted grid: `num_rows` strings of `num_cols` ramp glyphs |
| Img2Txt.SerializedAppend | img2txt.py:68-69 | writing one more row appends it and its line break to the text |
| Img2Txt.Serialized | img2txt.py:67-69 | defines the file contents: each row followed by "\n", in order, so the text is at least as long as the number of rows |
| Img2Txt.SaveAsciiArt | img2txt.py:63-69 | the loop writes exactly the rows in order, each followed by "\n" |
| Img2Txt.SerializedRoundTrip | img2txt.py:67-69 | reading the written text back line by line gives the rows written, when no row holds a line break |
| Img2Txt.GridGlyphsFromRamp | img2txt.py:58 | every glyph of the text grid comes from the ramp |
| Img2Txt.TextFileRoundTrip | img2txt.py:48-69 | for either mode the text file reads back as exactly the computed grid of `num_rows` rows of `num_cols` glyphs |
| Img2Txt.UniformMidGraySimple | img2txt.py:56-58 | an image of uniform brightness 128 in simple mode is '=' everywhere |
| Img2Img.CalculateNumRows | img2img.py:34-40 | the cell height is at least the cell width, and the row count is the largest that fits the height |
| Img2Img.RequestedGridIsDerived | img2img.py:23-40 | `preprocess_image` and `calculate_num_rows` together give exactly the requested grid |
| Img2Img.ImageLayout | img2img.py:95-99 | the fallback sets 6x12 cells whatever the scale, with `int(w / 6)` x `int(h / 12)` cells; otherwise `num_cols` columns with `cell_height = scale * cell_width` |
| Img2Img.OutputCanvas | img2img.py:83-103 | defines the canvas of `main`: the `LineCanvas` of the fitted grid with the fractional index rule, in the background's `bg_code` |
| Img2Img.ConvertImage | img2img.py:78-106 | `main` draws exactly `OutputCanvas` and takes the crop box with the background's polarity |
| Img2Img.OutputCanvasLayout | img2img.py:49-62 | the canvas is `char_width * num_cols` by `char_height * num_rows` in `bg_code`; row i is one line of `num_cols` glyphs at `(0, i * char_height)` in `255 - bg_code`; the text counts for the box and the background does not |
| Img2ImgColor.HandleExcessiveCells | img2img_color.py:33-40 | on too many columns or rows the counts become `int(w / 6)` and `int(h / 12)`; otherwise they are returned unchanged; either way they stay within the pixel counts |
| Img2ImgColor.CountsMatchFallback | img2img_color.py:33-40 | those counts are exactly the 6x12 fallback grid's |
| Img2ImgColor.AsWrittenLayout | img2img_color.py:70-74 | as written, the loop uses `calculate_cell_size`'s cell sizes even after the fallback, and the requested grid when there is no fallback |
| Img2ImgColor.AsWrittenFallbackEmptyColumn | img2img_color.py:70-84 | as written, more columns than pixels on an image of at least 6x12 leaves cells narrower than a pixel: column 0 is empty and `int(np.mean(...))` raises |
| Img2ImgColor.AsWrittenCrashExample | img2img_color.py:70-84 | a 6x12 image with 7 columns gives a 1x1 grid whose cell is empty |
| Img2ImgColor.ColorLayout | img2img_color.py:70-74 | the corrected grid has the as-written counts, equals the as-written grid without a fallback, uses 6x12 cells with it, and never has an empty cell |
| Img2ImgColor.AsWrittenSampleableIff | img2img_color.py:70-84 | as written, every cell of the loops can be sampled exactly unless `num_cols > width` on an image of at least 6x12 pixels |
| Img2ImgColor.CorrectedAgreesWithAsWritten | img2img_color.py:59-84 | wherever the as-written grid can be sampled, the as-written canvas equals the corrected `ColorCanvas`: the same grid without a fallback, and no column or no row, hence no draw, with one |
| Img2ImgColor.AsWrittenCanvas | img2img_color.py:70-84 | defines the canvas `main` draws as written: the cell sizes of `calculate_cell_size`, the counts of `handle_excessive_cells`, and one draw per cell on a `char_width * num_cols` by `scale * char_height * num_rows` canvas |
| CanvasRenderer.NoColumnsNoDraws | img2img_color.py:44-51 | a grid without columns issues no draw |
| Img2ImgColor.FallbackUniformFill | img2img_color.py:48-49 | with the corrected fallback, every glyph on an image of one colour c is filled with c |
| Img2ImgColor.ColorCanvas | img2img_color.py:76-84 | defines the corrected canvas: the corrected grid, the background colour, and one draw per cell on a `char_width * num_cols` by `scale * char_height * num_rows` canvas |
| Img2ImgColor.ConvertColorImage | img2img_color.py:59-90 | the corrected `main` of the Findings row draws exactly `ColorCanvas` on a canvas of the background colour and takes the crop box with the background's polarity |
| Img2ImgColor.ColorSampleable | img2img_color.py:44-47 | with the corrected grid every cell of the loops can be sampled |
| Img2ImgColor.ColorCanvasDraws | img2img_color.py:44-51 | exactly one draw per cell: `num_rows * num_cols` draws, draw `i * num_cols + j` being cell (i, j)'s |
| Img2ImgColor.ColorDrawOnCanvas | img2img_color.py:77-84 | cell (i, j)'s glyph is one glyph at `(j * char_width, i * char_height)`, on the `char_width * num_cols` by `scale * char_height * num_rows` canvas |
| Img2ImgColor.BelowScaledHeight | img2img_color.py:79 | every glyph row starts above `scale * char_height * num_rows` |
| Video2Video.CalculateCells | video2video.py:47-55 | with no fallback the grid has `num_cols` columns, cells twice as tall as wide, and the most rows that fit |
| Video2Video.CellsNonEmptyIff | video2video.py:71-76 | no cell is empty exactly when `num_cols <= width` or no row fits |
| Video2Video.AsciiCanvas | video2video.py:57-80 | a frame gets a canvas exactly when `num_cols <= width` or no row fits; otherwise the mean of an empty cell raises; the canvas is `char_width * num_cols` by `char_height * num_rows` |
| Video2Video.CreateAsciiImage | video2video.py:57-80 | `create_ascii_image` up to the crop returns exactly `AsciiCanvas` |
| Video2Video.AsciiCanvasRow | video2video.py:71-79 | row i is drawn at `(0, i * char_height)` in `255 - bg_code`, with `num_cols` glyphs, each chosen by the integer rule from `int(mean)` |
| Video2Video.RenderFrame | video2video.py:57-109 | a frame renders exactly when it is gray, its columns fit its width, one row of cells fits its height and the glyphs have a size; otherwise its canvas has no pixel row or column, or an empty cell raises; an empty canvas stays empty through the crop, and `cv2.cvtColor` rejects it |
| Video2Video.Renderer | video2video.py:105-109 | the per-frame step is the rendering of each frame, and its outputs are rectangular whenever the rasteriser's are |
| Video2Video.ProcessVideo2Video | video2video.py:93-121 | `process_video` ends as the frame loop over the good reads does, at the resolved rate, with the unguarded release |
| Video2Video.FirstFrameRaisesAbortsAtOnce | video2video.py:100-109 | a first frame that raises stops the run before any writer exists, and nothing is written |
| Video2Video.TooManyColumnsAbortsAtOnce | video2video.py:100-109 | more columns than the first frame has pixels raises before any writer exists |
| Video2Video.NoRowAbortsAtOnce | video2video.py:62-109 | a first frame too short for one row of cells gives a canvas 0 pixels high, which raises before any writer exists |
| Video2Video.LandscapeOneColumnHasNoRow | video2video.py:47-55 | a 640x480 frame with one column has no row of cells |
| Video2VideoColor.ProcessFrame | video2video_color.py:38-67 | `process_frame` draws exactly `FrameCanvas`: the fitted grid and one draw per cell on a `char_width * num_cols` by `2 * char_height * num_rows` canvas |
| Video2VideoColor.FrameCanvas | video2video_color.py:38-67 | defines the canvas of `process_frame`: the fitted grid with aspect 2, the background colour, and one draw per cell on a `char_width * num_cols` by `2 * char_height * num_rows` canvas |
| Video2VideoColor.DrawsInTopHalf | video2video_color.py:51-65 | every glyph sits at `(j * char_width, i * char_height)` within the canvas width and ends in the top half of the canvas |
| Video2VideoColor.RowInTopHalf | video2video_color.py:53 | every glyph row ends within `char_height * num_rows`, half the canvas height |
| Video2VideoColor.WhiteFrameFillExceedsRange | video2video_color.py:39-63 | on a 3x3 white frame with 2 columns the script's own grid has one row of 1.5x3 cells, and cell (0, 1) holds 3x2 white pixels over the nominal area 4.5: its fill channel is 340, so the fill is not an average and can leave the 8-bit range |
| Video2VideoColor.FallbackUniformFill | video2video_color.py:44-63 | with too many columns, every glyph on a frame of one colour c is filled with c |
| Video2VideoColor.ColorRenderer | video2video_color.py:83-90 | the per-frame step is the rendering and crop of each frame, and its outputs are rectangular whenever the rasteriser's are |
| Video2VideoColor.RenderColorFrame | video2video_color.py:83-91 | defines one frame's rendering: the `FrameCanvas`, rasterised and cropped on the inverted canvas for a white background and on the canvas itself otherwise |
| Video2VideoColor.ProcessColorVideo | video2video_color.py:69-106 | `main` ends as the frame loop over the good reads does, at the resolved rate, with the guarded release |
| Video2VideoColor.EveryFrameEncoded | video2video_color.py:77-102 | without an overlay the run ends without output exactly when no frame was read; otherwise it encodes every frame read, in order, each the rendered canvas, at the resolved rate |

## Left out

- Argument parsing (`get_args`), image and video I/O (`cv2.imread`, `cv2.VideoCapture`, `cv2.VideoWriter`, `Image.save`) and the file write of `save_ascii_art`. These are interfaces to the outside. The model takes the image as a value, the reads as a sequence and the text as a string.
- `cv2.cvtColor`. Colour-to-gray conversion uses floating-point weights. The gray image is an input; video2video takes the conversion as a parameter `toGray`.
- PIL rasterising: `draw.text`, `font.getsize`, `ImageFont.truetype`, `initialize_font`. Glyph sizes are parameters, a canvas is its list of draw commands, and turning a canvas into pixels (with the crop) is the parameter `paint`.
- `getbbox`, `ImageOps.invert` and `crop`. These are library semantics. The model covers:
  - which image the box is taken on;
  - which pixels count;
  - an abstract specification of a non-empty bounding box (`FrameCropper.IsBoundingBox`);
  - the crop of a raster to a box.

  What happens when the box is empty is not modelled.
- Resampling inside `cv2.resize`. Only the target size is modelled (`VideoPipeline.ResizeShapes`), together with the block it overwrites.
- Helper modules that are not part of this model: the helper module behind `get_data` and `alphabets.py`. The ramp and glyph sizes are parameters, and the aspect `scale` is an integer of at least 1.
- Binary floating-point rounding at floor boundaries. Cell sizes are exact reals.
- `num_cols <= 0`. Zero raises `ZeroDivisionError`. A negative count writes an empty text file (img2txt) or gives a negative canvas size that PIL rejects. Every member requires `num_cols >= 1`.
- The "Too many columns or rows" console messages. They are output only.
- PIL's clamping of fill values above 255. `Video2VideoColor.WhiteFrameFillExceedsRange` shows that such values occur. The canvas keeps the unclamped value.
- Frames of different sizes handed to a fixed-size writer. `cv2.VideoWriter` silently drops them. The model records every frame written.
- Release of the writer and the capture when an exception leaves the loop. The model ends such a run as `Aborted` with the number of frames written.
- `FrameCropper.IsBoundingBox`: states what a non-empty `getbbox` result satisfies, not how PIL computes it.
- `Video2VideoColor.RenderColorFrame`: a frame too small for one row of cells gives a canvas 0 pixels high. In the script, an overlay then raises in `cv2.resize`. Without an overlay, what `cv2.VideoWriter` does with the empty frame is library behaviour. The model hands the empty canvas to the rasteriser parameter and decides neither case.
- `VideoPipeline.ResolveFps`: for a negative source rate the model states only the truncation bounds that hold for a non-negative one.

## Findings

| source | as written | input that shows it | evidently intended | confidence | as-written member | corrected member |
|---|---|---|---|---|---|---|
| img2img_color.py:33-40 | `handle_excessive_cells` returns only the new counts. `main` (lines 70-74, 84) keeps the cell sizes of `calculate_cell_size`, which are below one pixel whenever `num_cols > width`. Column 0 is then the empty slice `[0, 0)`, its `np.mean` is NaN, and `int()` raises. | a 6x12 image with `--num_cols 7` (any scale of at least 1) | the fallback also sets the cells to 6x12, as img2txt, img2img and video2video_color do | not executed | Img2ImgColor.AsWrittenFallbackEmptyColumn | Img2ImgColor.ColorLayout |
