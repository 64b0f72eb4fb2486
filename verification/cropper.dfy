/** Which image the crop box of a rendered canvas is computed on, the pixels
    that box must enclose, and the crop itself. */
module FrameCropper {
  import opened Raster
  import opened CanvasRenderer

  /** `getbbox()` is taken either on the canvas as drawn or on
      `ImageOps.invert(canvas)`. */
  datatype BoxSource = AsDrawn | Inverted

  /** img2img and both color scripts: the inverted canvas for a white
      background, the canvas itself otherwise. */
  function CropSource(background: string): (s: BoxSource)
    ensures s == Inverted <==> background == "white"
  {
    if background == "white" then Inverted else AsDrawn
  }

  /** One 8-bit level as seen by `getbbox()` on the chosen image: inversion
      maps `v` to `255 - v`, and a level counts when it is not zero. */
  predicate Marked(src: BoxSource, v: int) {
    (if src == Inverted then 255 - v else v) != 0
  }

  /** A color pixel counts when any of its channels counts. */
  predicate MarkedColor(src: BoxSource, p: Rgb) {
    Marked(src, p.0) || Marked(src, p.1) || Marked(src, p.2)
  }

  /** With the polarity chosen from the background, exactly the pixels that
      differ from the background count. */
  lemma MarkedIffNotBackground(background: string, v: int)
    requires IsLevel(v)
    ensures Marked(CropSource(background), v) <==> v != BackgroundLevel(background)
  {}

  lemma MarkedColorIffNotBackground(background: string, p: Rgb)
    requires IsPixel(p)
    ensures MarkedColor(CropSource(background), p) <==> p != BackgroundColor(background)
  {}

  /** video2video always takes the box on the canvas as drawn: on a white
      background the background itself counts and the black glyphs do not. */
  lemma AsDrawnOnWhiteMarksBackground()
    ensures Marked(AsDrawn, BackgroundLevel("white"))
    ensures !Marked(AsDrawn, 255 - BackgroundLevel("white"))
  {}

  /** The pixels of a grayscale raster that count for the box. */
  function Mask(img: seq<seq<int>>, src: BoxSource): (m: seq<seq<bool>>)
    ensures |m| == |img| && Width(m) == Width(img)
    ensures forall y :: 0 <= y < |img| ==> |m[y]| == |img[y]|
    ensures forall y, x :: 0 <= y < |img| && 0 <= x < |img[y]| ==> m[y][x] == Marked(src, img[y][x])
  {
    seq(|img|, y requires 0 <= y < |img| => seq(|img[y]|, x requires 0 <= x < |img[y]| => Marked(src, img[y][x])))
  }

  /** The pixels of a color raster that count for the box. */
  function ColorMask(img: seq<seq<Rgb>>, src: BoxSource): (m: seq<seq<bool>>)
    ensures |m| == |img| && Width(m) == Width(img)
    ensures forall y :: 0 <= y < |img| ==> |m[y]| == |img[y]|
    ensures forall y, x :: 0 <= y < |img| && 0 <= x < |img[y]| ==> m[y][x] == MarkedColor(src, img[y][x])
  {
    seq(|img|, y requires 0 <= y < |img| => seq(|img[y]|, x requires 0 <= x < |img[y]| => MarkedColor(src, img[y][x])))
  }

  /** A PIL box `(left, upper, right, lower)`, right and lower exclusive. */
  datatype Box = Box(left: int, upper: int, right: int, lower: int) {
    /** The last row inside the box. */
    function LastRow(): int { lower - 1 }
  }

  /** What `getbbox()` promises of a non-empty result: a box inside the raster
      that contains every counted pixel, each of whose four edges touches one. */
  predicate IsBoundingBox(m: seq<seq<bool>>, b: Box) {
    Rectangular(m) &&
    0 <= b.left < b.right <= Width(m) && 0 <= b.upper < b.lower <= |m| &&
    (forall y, x :: 0 <= y < |m| && 0 <= x < Width(m) && m[y][x] ==>
       b.upper <= y < b.lower && b.left <= x < b.right) &&
    (exists x :: b.left <= x < b.right && m[b.upper][x]) &&
    (exists x :: b.left <= x < b.right && m[b.LastRow()][x]) &&
    (exists y :: b.upper <= y < b.lower && m[y][b.left]) &&
    (exists y :: b.upper <= y < b.lower && m[y][b.right - 1])
  }

  /** When two opposite corners count, the box is the whole raster and the
      crop removes nothing. */
  lemma CornersFixWholeBox(m: seq<seq<bool>>, b: Box)
    requires IsBoundingBox(m, b) && |m| >= 1 && Width(m) >= 1
    requires m[0][0] && m[|m| - 1][Width(m) - 1]
    ensures b == Box(0, 0, Width(m), |m|)
  {
    assert 0 <= 0 < |m| && 0 <= 0 < Width(m) && m[0][0];
    assert 0 <= |m| - 1 < |m| && 0 <= Width(m) - 1 < Width(m) && m[|m| - 1][Width(m) - 1];
  }

  /** So video2video, on a white background whose canvas keeps background in
      its top-left and bottom-right corners, never trims the margins: the box
      is the whole canvas. */
  lemma WhiteCanvasNotTrimmed(img: seq<seq<int>>, b: Box)
    requires IsGray(img)
    requires img[0][0] == BackgroundLevel("white") && img[|img| - 1][Width(img) - 1] == BackgroundLevel("white")
    requires IsBoundingBox(Mask(img, AsDrawn), b)
    ensures b == Box(0, 0, Width(img), |img|)
  {
    CornersFixWholeBox(Mask(img, AsDrawn), b);
  }

  /** `image.crop(box)`: rows `[upper, lower)` and columns `[left, right)`. */
  function Crop<T>(img: seq<seq<T>>, b: Box): (c: seq<seq<T>>)
    requires Rectangular(img) && 0 <= b.left <= b.right <= Width(img) && 0 <= b.upper <= b.lower <= |img|
    ensures |c| == b.lower - b.upper
    ensures forall y :: 0 <= y < |c| ==> |c[y]| == b.right - b.left
    ensures forall y, x :: 0 <= y < |c| && 0 <= x < b.right - b.left ==> c[y][x] == img[b.upper + y][b.left + x]
  {
    seq(b.lower - b.upper, y requires 0 <= y < b.lower - b.upper => img[b.upper + y][b.left..b.right])
  }

  /** Cropping to the whole raster gives the raster back. */
  lemma CropWholeIsIdentity<T>(img: seq<seq<T>>)
    requires Rectangular(img)
    ensures Crop(img, Box(0, 0, Width(img), |img|)) == img
  {
    var c := Crop(img, Box(0, 0, Width(img), |img|));
    forall y | 0 <= y < |img| ensures c[y] == img[y] {
      assert img[y][0..Width(img)] == img[y];
    }
  }

  /** Every counted pixel survives the crop to a bounding box, at its offset. */
  lemma CropKeepsMarked(m: seq<seq<bool>>, b: Box, y: int, x: int)
    requires IsBoundingBox(m, b) && 0 <= y < |m| && 0 <= x < Width(m) && m[y][x]
    ensures var c := Crop(m, b);
            0 <= y - b.upper < |c| && 0 <= x - b.left < b.right - b.left && c[y - b.upper][x - b.left]
  {}
}
