/** The picture-in-picture step of the video scripts: the source frame, shrunk
    by `overlay_ratio`, is pasted over the bottom-right corner of the ASCII frame. */
module OverlayCompositor {
  import opened Raster

  /** Python `int(x)`: truncation toward zero. */
  function Trunc(x: real): (n: int)
    ensures x >= 0.0 ==> n == x.Floor
    ensures x >= 0.0 ==> 0.0 <= n as real <= x < n as real + 1.0
    ensures x < 0.0 ==> x <= n as real <= 0.0
  {
    if x >= 0.0 then x.Floor else -((-x).Floor)
  }

  /** What the overlay step does to a frame of `height` x `width` pixels. */
  datatype Plan =
    | Skip                                        // `if overlay_ratio:` is false
    | Paste(top: nat, left: nat, rows: nat, cols: nat)  // overwrite `[top:, left:]`
    | Fails                                       // cv2.resize or the slice assignment raises

  /** `oh = int(h * r)`, `ow = int(w * r)`; `cv2.resize` to an empty size raises,
      and a block larger than the frame does not fit the slice `[h - oh:, w - ow:]`. */
  function PlanOverlay(height: nat, width: nat, ratio: real): (p: Plan)
    ensures p.Skip? <==> ratio == 0.0
    ensures p.Paste? ==> p.rows >= 1 && p.cols >= 1 &&
                         p.top + p.rows == height && p.left + p.cols == width &&
                         p.rows == Trunc(height as real * ratio) && p.cols == Trunc(width as real * ratio)
    ensures p.Fails? <==> ratio != 0.0 &&
                          !(1 <= Trunc(height as real * ratio) <= height && 1 <= Trunc(width as real * ratio) <= width)
  {
    if ratio == 0.0 then Skip
    else
      var oh, ow := Trunc(height as real * ratio), Trunc(width as real * ratio);
      if 1 <= oh <= height && 1 <= ow <= width then Paste(height - oh, width - ow, oh, ow) else Fails
  }

  lemma MulMonotoneReal(a: real, b: real, c: real)
    requires a <= b && c >= 0.0
    ensures a * c <= b * c
  {}

  /** A ratio in `(0, 1]` that leaves at least one pixel on each side always
      pastes; the default 0.2 pastes on any frame of at least 5 x 5 pixels. */
  lemma {:induction false} UnitRatioPastes(height: nat, width: nat, ratio: real)
    requires 0.0 < ratio <= 1.0
    requires height as real * ratio >= 1.0 && width as real * ratio >= 1.0
    ensures PlanOverlay(height, width, ratio).Paste?
  {
    BlockSideFits(height, ratio);
    BlockSideFits(width, ratio);
  }

  /** `1 <= int(n * r) <= n` for `0 < r <= 1` and `n * r >= 1`. */
  lemma BlockSideFits(n: nat, ratio: real)
    requires 0.0 < ratio <= 1.0 && n as real * ratio >= 1.0
    ensures 1 <= Trunc(n as real * ratio) <= n
  {
    MulMonotoneReal(ratio, 1.0, n as real);
    assert n as real * ratio <= n as real;
  }

  lemma DefaultRatioPastes(height: nat, width: nat)
    requires height >= 5 && width >= 5
    ensures PlanOverlay(height, width, 0.2).Paste?
  {
    MulMonotoneReal(5.0, height as real, 0.2);
    MulMonotoneReal(5.0, width as real, 0.2);
    UnitRatioPastes(height, width, 0.2);
  }

  /** A ratio above 1 whose block is larger than the frame fails. */
  lemma OversizedRatioFails()
    ensures PlanOverlay(10, 10, 1.5).Fails?
  {
    assert Trunc(10.0 * 1.5) == 15;
  }

  /** Pixel (y, x) lies in the pasted block. */
  predicate InPatch(top: int, left: int, y: int, x: int) {
    top <= y && left <= x
  }

  /** The frame after `frame[top:, left:] = patch`. */
  function Overlaid<T>(frame: seq<seq<T>>, top: nat, left: nat, patch: seq<seq<T>>): (r: seq<seq<T>>)
    requires Rectangular(frame) && top <= |frame| && left <= Width(frame)
    requires |patch| == |frame| - top && forall y :: 0 <= y < |patch| ==> |patch[y]| == Width(frame) - left
  {
    seq(|frame|, y requires 0 <= y < |frame| =>
      seq(Width(frame), x requires 0 <= x < Width(frame) =>
        if InPatch(top, left, y, x) then patch[y - top][x - left] else frame[y][x]))
  }

  /** The overlay keeps the frame's shape, overwrites exactly the bottom-right
      block with the patch and leaves every other pixel as it was. */
  lemma OverlaidExactlyBlock<T>(frame: seq<seq<T>>, top: nat, left: nat, patch: seq<seq<T>>)
    requires Rectangular(frame) && top <= |frame| && left <= Width(frame)
    requires |patch| == |frame| - top && forall y :: 0 <= y < |patch| ==> |patch[y]| == Width(frame) - left
    ensures var r := Overlaid(frame, top, left, patch);
            |r| == |frame| && Width(r) == Width(frame) && Rectangular(r) &&
            (forall y, x :: top <= y < |frame| && left <= x < Width(frame) ==> r[y][x] == patch[y - top][x - left]) &&
            (forall y, x :: 0 <= y < |frame| && 0 <= x < Width(frame) && !InPatch(top, left, y, x) ==> r[y][x] == frame[y][x])
  {}

  /** The rows of a 2-D array as a raster. */
  function Rows<T>(a: array2<T>): (r: seq<seq<T>>)
    reads a
    ensures |r| == a.Length0 && Rectangular(r) && (|r| >= 1 ==> Width(r) == a.Length1)
    ensures forall y, x :: 0 <= y < a.Length0 && 0 <= x < a.Length1 ==> r[y][x] == a[y, x]
  {
    seq(a.Length0, y requires 0 <= y < a.Length0 reads a =>
      seq(a.Length1, x requires 0 <= x < a.Length1 reads a => a[y, x]))
  }

  /** `overlay_original_frame`: the slice assignment
      `ascii_frame[top:, left:, :] = overlay`, done in place, element by element. */
  method OverlayInPlace<T>(frame: array2<T>, top: nat, left: nat, patch: seq<seq<T>>)
    requires top <= frame.Length0 && left <= frame.Length1
    requires |patch| == frame.Length0 - top && forall y :: 0 <= y < |patch| ==> |patch[y]| == frame.Length1 - left
    modifies frame
    ensures forall y, x :: 0 <= y < frame.Length0 && 0 <= x < frame.Length1 ==>
              frame[y, x] == if InPatch(top, left, y, x) then patch[y - top][x - left] else old(frame[y, x])
  {
    var y := top;
    while y < frame.Length0
      invariant top <= y <= frame.Length0
      invariant forall r, x :: 0 <= r < frame.Length0 && 0 <= x < frame.Length1 ==>
                  frame[r, x] == if InPatch(top, left, r, x) && r < y then patch[r - top][x - left] else old(frame[r, x])
    {
      var x := left;
      while x < frame.Length1
        invariant left <= x <= frame.Length1
        invariant forall r, c :: 0 <= r < frame.Length0 && 0 <= c < frame.Length1 ==>
                    frame[r, c] == if InPatch(top, left, r, c) && (r < y || (r == y && c < x))
                                   then patch[r - top][c - left] else old(frame[r, c])
      {
        frame[y, x] := patch[y - top][x - left];
        x := x + 1;
      }
      y := y + 1;
    }
  }

  /** The in-place overlay leaves the array holding exactly `Overlaid` of its
      old contents. */
  lemma InPlaceIsOverlaid<T>(before: seq<seq<T>>, after: seq<seq<T>>, top: nat, left: nat, patch: seq<seq<T>>)
    requires Rectangular(before) && Rectangular(after) && |after| == |before| && Width(after) == Width(before)
    requires top <= |before| && left <= Width(before)
    requires |patch| == |before| - top && forall y :: 0 <= y < |patch| ==> |patch[y]| == Width(before) - left
    requires forall y, x :: 0 <= y < |before| && 0 <= x < Width(before) ==>
               after[y][x] == if InPatch(top, left, y, x) then patch[y - top][x - left] else before[y][x]
    ensures after == Overlaid(before, top, left, patch)
  {
    var r := Overlaid(before, top, left, patch);
    forall y | 0 <= y < |before| ensures after[y] == r[y] {}
  }
}
