/** Source rasters as rows of pixels, and the pixel sums taken over a
    rectangular block of them. */
module Raster {

  /** One color pixel, three 8-bit channels (BGR or RGB alike). */
  type Rgb = (int, int, int)

  /** Number of pixels per row, taken from the first row like `image.shape[1]`. */
  function Width<T>(img: seq<seq<T>>): nat {
    if |img| == 0 then 0 else |img[0]|
  }

  /** Every row has the same number of pixels, as in a numpy array. */
  predicate Rectangular<T>(img: seq<seq<T>>) {
    forall y :: 0 <= y < |img| ==> |img[y]| == Width(img)
  }

  predicate IsLevel(v: int) { 0 <= v <= 255 }

  predicate IsPixel(p: Rgb) { IsLevel(p.0) && IsLevel(p.1) && IsLevel(p.2) }

  /** A decoded 8-bit grayscale image with at least one pixel. */
  predicate IsGray(img: seq<seq<int>>) {
    |img| >= 1 && Width(img) >= 1 && Rectangular(img) &&
    forall y, x :: 0 <= y < |img| && 0 <= x < |img[y]| ==> IsLevel(img[y][x])
  }

  /** A decoded 8-bit three-channel image with at least one pixel. */
  predicate IsColor(img: seq<seq<Rgb>>) {
    |img| >= 1 && Width(img) >= 1 && Rectangular(img) &&
    forall y, x :: 0 <= y < |img| && 0 <= x < |img[y]| ==> IsPixel(img[y][x])
  }

  function Pick(p: Rgb, c: nat): int
    requires c < 3
  {
    if c == 0 then p.0 else if c == 1 then p.1 else p.2
  }

  /** One channel of a color image, as a grayscale image (`image[:, :, c]`). */
  function Channel(img: seq<seq<Rgb>>, c: nat): (g: seq<seq<int>>)
    requires c < 3
    ensures |g| == |img| && Width(g) == Width(img)
    ensures forall y :: 0 <= y < |img| ==> |g[y]| == |img[y]|
    ensures forall y, x :: 0 <= y < |img| && 0 <= x < |img[y]| ==> g[y][x] == Pick(img[y][x], c)
  {
    seq(|img|, y requires 0 <= y < |img| => seq(|img[y]|, x requires 0 <= x < |img[y]| => Pick(img[y][x], c)))
  }

  lemma ChannelIsGray(img: seq<seq<Rgb>>, c: nat)
    requires IsColor(img) && c < 3
    ensures IsGray(Channel(img, c))
  {
    var g := Channel(img, c);
    forall y | 0 <= y < |g| ensures |g[y]| == Width(g) {
      assert |img[y]| == Width(img);
    }
    forall y, x | 0 <= y < |g| && 0 <= x < |g[y]| ensures IsLevel(g[y][x]) {
      assert IsPixel(img[y][x]);
    }
  }

  /** A block of uniform color `p` is, in channel `c`, a block of uniform level. */
  lemma ChannelOfUniform(img: seq<seq<Rgb>>, y1: int, y2: int, x1: int, x2: int, p: Rgb, c: nat)
    requires InBlock(img, y1, y2, x1, x2) && c < 3
    requires forall y, x :: y1 <= y < y2 && x1 <= x < x2 ==> img[y][x] == p
    ensures InBlock(Channel(img, c), y1, y2, x1, x2)
    ensures UniformBlock(Channel(img, c), y1, y2, x1, x2, Pick(p, c))
  {
    var g := Channel(img, c);
    forall y | 0 <= y < |g| ensures |g[y]| == Width(g) {
      assert |img[y]| == Width(img);
    }
    forall y, x | y1 <= y < y2 && x1 <= x < x2 ensures g[y][x] == Pick(p, c) {
      assert img[y][x] == p;
    }
  }

  /** A block `[y1, y2) x [x1, x2)` that lies inside the image. */
  predicate InBlock<T>(img: seq<seq<T>>, y1: int, y2: int, x1: int, x2: int) {
    Rectangular(img) && 0 <= y1 <= y2 <= |img| && 0 <= x1 <= x2 <= Width(img)
  }

  /** Sum of `row[lo:hi]`. */
  function RowSum(row: seq<int>, lo: int, hi: int): int
    requires 0 <= lo <= hi <= |row|
    decreases hi - lo
  {
    if lo == hi then 0 else RowSum(row, lo, hi - 1) + row[hi - 1]
  }

  /** Sum of `img[y1:y2, x1:x2]`. */
  function BlockSum(img: seq<seq<int>>, y1: int, y2: int, x1: int, x2: int): int
    requires InBlock(img, y1, y2, x1, x2)
    decreases y2 - y1
  {
    if y1 == y2 then 0 else BlockSum(img, y1, y2 - 1, x1, x2) + RowSum(img[y2 - 1], x1, x2)
  }

  /** Every pixel of the block has level `v`. */
  predicate UniformBlock(img: seq<seq<int>>, y1: int, y2: int, x1: int, x2: int, v: int)
    requires InBlock(img, y1, y2, x1, x2)
  {
    forall y, x :: y1 <= y < y2 && x1 <= x < x2 ==> img[y][x] == v
  }

  lemma {:induction false} RowSumBounds(row: seq<int>, lo: int, hi: int)
    requires 0 <= lo <= hi <= |row|
    requires forall x :: lo <= x < hi ==> IsLevel(row[x])
    ensures 0 <= RowSum(row, lo, hi) <= 255 * (hi - lo)
    decreases hi - lo
  {
    if lo < hi { RowSumBounds(row, lo, hi - 1); }
  }

  lemma {:induction false} UniformRowSum(row: seq<int>, lo: int, hi: int, v: int)
    requires 0 <= lo <= hi <= |row|
    requires forall x :: lo <= x < hi ==> row[x] == v
    ensures RowSum(row, lo, hi) == v * (hi - lo)
    decreases hi - lo
  {
    if lo < hi { UniformRowSum(row, lo, hi - 1, v); }
  }

  /** An 8-bit block sums to between 0 and 255 per pixel. */
  lemma {:induction false} BlockSumBounds(img: seq<seq<int>>, y1: int, y2: int, x1: int, x2: int)
    requires IsGray(img) && InBlock(img, y1, y2, x1, x2)
    ensures 0 <= BlockSum(img, y1, y2, x1, x2) <= 255 * Pixels(y1, y2, x1, x2)
    decreases y2 - y1
  {
    if y1 < y2 {
      BlockSumBounds(img, y1, y2 - 1, x1, x2);
      RowSumBounds(img[y2 - 1], x1, x2);
      AddRow(255, y1, y2, x1, x2);
    }
  }

  /** The number of pixels of the block `[y1, y2) x [x1, x2)`. */
  function Pixels(y1: int, y2: int, x1: int, x2: int): int {
    (y2 - y1) * (x2 - x1)
  }

  /** One more row of `x2 - x1` pixels adds `v * (x2 - x1)` to `v` times the pixel count. */
  lemma AddRow(v: int, y1: int, y2: int, x1: int, x2: int)
    ensures v * Pixels(y1, y2, x1, x2) == v * Pixels(y1, y2 - 1, x1, x2) + v * (x2 - x1)
  {
    assert (y2 - y1) * (x2 - x1) == (y2 - 1 - y1) * (x2 - x1) + (x2 - x1);
  }

  /** A block of uniform level `v` sums to `v` times its pixel count. */
  lemma {:induction false} UniformBlockSum(img: seq<seq<int>>, y1: int, y2: int, x1: int, x2: int, v: int)
    requires InBlock(img, y1, y2, x1, x2) && UniformBlock(img, y1, y2, x1, x2, v)
    ensures BlockSum(img, y1, y2, x1, x2) == v * Pixels(y1, y2, x1, x2)
    decreases y2 - y1
  {
    if y1 < y2 {
      UniformBlockSum(img, y1, y2 - 1, x1, x2, v);
      UniformRowSum(img[y2 - 1], x1, x2, v);
      AddRow(v, y1, y2, x1, x2);
    }
  }
}
