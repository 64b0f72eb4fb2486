/** Reduction of one cell to a ramp index and, in color mode, to a fill color. */
module BrightnessMapper {
  import opened Raster
  import opened CellSampler

  /** The two ways the scripts turn a cell's mean into a ramp index. */
  datatype IndexRule =
    | Fractional  // min(int(avg * N / 255), N - 1): img2txt, img2img and both color scripts
    | Truncated   // min(int(avg) * N // 255, N - 1): video2video

  lemma MulNonNegative(a: real, b: real)
    requires a >= 0.0 && b >= 0.0
    ensures a * b >= 0.0
  {}

  /** `min(int(avg * N / 255), N - 1)`. img2img writes `avg / 255 * N`, the
      same value in exact arithmetic. */
  function RealIndex(avg: real, n: nat): (k: nat)
    requires n >= 1 && avg >= 0.0
    ensures k < n
  {
    MulNonNegative(avg, n as real);
    Min((avg * n as real / 255.0).Floor, n - 1)
  }

  /** `min(avg * N // 255, N - 1)` on an integer average. */
  function IntIndex(avg: int, n: nat): (k: nat)
    requires n >= 1 && avg >= 0
    ensures k < n
  {
    Min(avg * n / 255, n - 1)
  }

  /** The ramp index a cell of mean brightness `mean` gets under `rule`;
      video2video first truncates the mean, `int(np.mean(...))`. */
  function GlyphIndex(mean: real, n: nat, rule: IndexRule): (k: nat)
    requires n >= 1 && mean >= 0.0
    ensures k < n
  {
    match rule
    case Fractional => RealIndex(mean, n)
    case Truncated => IntIndex(mean.Floor, n)
  }

  /** A brighter cell never gets a denser glyph. */
  lemma RealIndexMonotone(a: real, b: real, n: nat)
    requires n >= 1 && 0.0 <= a <= b
    ensures RealIndex(a, n) <= RealIndex(b, n)
  {
    MulMonotone(a, b, n as real);
    FloorMonotone(a * n as real / 255.0, b * n as real / 255.0);
  }

  lemma IntIndexMonotone(a: int, b: int, n: nat)
    requires n >= 1 && 0 <= a <= b
    ensures IntIndex(a, n) <= IntIndex(b, n)
  {
    MulNatMonotone(a, b, n);
    DivMonotone(a * n, b * n, 255);
  }

  lemma DivMonotone(a: int, b: int, d: int)
    requires 0 <= a <= b && d > 0
    ensures a / d <= b / d
  {
    MulOrder(b / d, a / d, d);
  }

  lemma MulOrder(x: int, y: int, d: int)
    requires d > 0
    ensures x < y ==> x * d + d <= y * d
  {
    if x < y {
      MulNatMonotone(1, y - x, d);
      assert (y - x) * d == y * d - x * d;
    }
  }

  /** Both rules are monotone in the mean. */
  lemma {:induction false} GlyphIndexMonotone(a: real, b: real, n: nat, rule: IndexRule)
    requires n >= 1 && 0.0 <= a <= b
    ensures GlyphIndex(a, n, rule) <= GlyphIndex(b, n, rule)
  {
    match rule
    case Fractional => RealIndexMonotone(a, b, n);
    case Truncated =>
      FloorMonotone(a, b);
      IntIndexMonotone(a.Floor, b.Floor, n);
  }

  /** On an integer average the integer rule and the fractional rule agree. */
  lemma {:induction false} IntIndexIsRealIndex(a: int, n: nat)
    requires n >= 1 && a >= 0
    ensures IntIndex(a, n) == RealIndex(a as real, n)
  {
    var p := a * n;
    assert (a as real) * (n as real) == p as real;
    var q := p / 255;
    assert q * 255 <= p < q * 255 + 255;
    assert (q as real) <= p as real / 255.0 < q as real + 1.0;
    assert (p as real / 255.0).Floor == q;
  }

  /** Truncating the mean first (video2video) never selects a lighter glyph
      than the fractional rule does. */
  lemma {:induction false} TruncatedNeverAbove(mean: real, n: nat)
    requires n >= 1 && mean >= 0.0
    ensures GlyphIndex(mean, n, Truncated) <= GlyphIndex(mean, n, Fractional)
  {
    IntIndexIsRealIndex(mean.Floor, n);
    RealIndexMonotone(mean.Floor as real, mean, n);
  }

  /** ...and sometimes a denser one: a mean of 25.9 on the 10-glyph ramp. */
  lemma TruncationCanLowerIndex()
    ensures GlyphIndex(25.9, 10, Fractional) == 1
    ensures GlyphIndex(25.9, 10, Truncated) == 0
  {
    assert (25.9 * 10.0 / 255.0).Floor == 1;
    assert (25.9).Floor == 25;
  }

  /** The `min` only ever clamps full white: below 255 the floor is already
      a valid index, and 255 maps to the last glyph. */
  lemma {:induction false} ClampOnlyAtWhite(avg: real, n: nat)
    requires n >= 1 && 0.0 <= avg <= 255.0
    ensures avg < 255.0 ==> RealIndex(avg, n) == (avg * n as real / 255.0).Floor
    ensures avg == 255.0 ==> RealIndex(avg, n) == n - 1 && (avg * n as real / 255.0).Floor == n
  {
    if avg < 255.0 {
      MulStrict(avg, 255.0, n as real);
      assert avg * n as real / 255.0 < n as real;
    }
  }

  /** Every glyph of the ramp is selected by some brightness in [0, 255]: the
      index `k` starts at `255 k / N`. */
  lemma {:induction false} EveryIndexReachable(k: nat, n: nat)
    requires k < n
    ensures var avg := 255.0 * k as real / n as real;
            0.0 <= avg < 255.0 && RealIndex(avg, n) == k
  {
    var avg := 255.0 * k as real / n as real;
    assert avg * n as real == 255.0 * k as real;
    assert avg * n as real / 255.0 == k as real;
    MulStrict(k as real, n as real, 255.0);
    assert avg * (n as real) < 255.0 * (n as real);
  }

  /** Mid gray on the 10-glyph ramp: index `int(128 * 10 / 255) = 5`. */
  lemma MidGrayIndex()
    ensures RealIndex(128.0, 10) == 5
  {
    assert (128.0 * 10.0 / 255.0).Floor == 5;
  }

  lemma QuotientBounds(s: int, a: int, top: int)
    requires a > 0 && 0 <= s <= top * a
    ensures 0.0 <= s as real / a as real <= top as real
  {
    assert (s as real / a as real) * a as real == s as real;
    if s as real / a as real > top as real {
      MulStrict(top as real, s as real / a as real, a as real);
    }
  }

  /** A cell `rows` x `cols` that lies in the image and has at least one pixel. */
  predicate SampleCell<T>(img: seq<seq<T>>, rows: Span, cols: Span) {
    Rectangular(img) && rows.Within(|img|) && cols.Within(Width(img)) && rows.NonEmpty() && cols.NonEmpty()
  }

  /** The number of pixels in a cell. */
  function Area(rows: Span, cols: Span): (a: int)
    ensures rows.NonEmpty() && cols.NonEmpty() ==> a >= 1
  {
    ProductAtLeastOne(rows.Length(), cols.Length());
    Pixels(rows.lo, rows.hi, cols.lo, cols.hi)
  }

  lemma ProductAtLeastOne(a: int, b: int)
    ensures a >= 1 && b >= 1 ==> a * b >= 1
  {
    if a >= 1 && b >= 1 { MulNatMonotone(1, a, b); }
  }

  /** `np.mean(cell)` of a grayscale cell. */
  function CellMean(img: seq<seq<int>>, rows: Span, cols: Span): (m: real)
    requires IsGray(img) && SampleCell(img, rows, cols)
    ensures 0.0 <= m <= 255.0
  {
    MeanBounds(img, rows, cols);
    BlockSum(img, rows.lo, rows.hi, cols.lo, cols.hi) as real / Area(rows, cols) as real
  }

  lemma MeanBounds(img: seq<seq<int>>, rows: Span, cols: Span)
    requires IsGray(img) && SampleCell(img, rows, cols)
    ensures Area(rows, cols) >= 1
    ensures 0.0 <= BlockSum(img, rows.lo, rows.hi, cols.lo, cols.hi) as real / Area(rows, cols) as real <= 255.0
  {
    BlockSumBounds(img, rows.lo, rows.hi, cols.lo, cols.hi);
    QuotientBounds(BlockSum(img, rows.lo, rows.hi, cols.lo, cols.hi), Area(rows, cols), 255);
  }

  /** A cell of uniform level `v` has mean `v`. */
  lemma UniformCellMean(img: seq<seq<int>>, rows: Span, cols: Span, v: int)
    requires IsGray(img) && SampleCell(img, rows, cols)
    requires UniformBlock(img, rows.lo, rows.hi, cols.lo, cols.hi, v)
    ensures CellMean(img, rows, cols) == v as real
  {
    UniformBlockSum(img, rows.lo, rows.hi, cols.lo, cols.hi, v);
    ScaledQuotient(v, Area(rows, cols));
  }

  /** Per-channel sums of a color cell, `np.sum(np.sum(cell, axis=0), axis=0)`. */
  function ChannelSums(img: seq<seq<Rgb>>, rows: Span, cols: Span): (s: Rgb)
    requires IsColor(img) && rows.Within(|img|) && cols.Within(Width(img))
    ensures var area := Area(rows, cols);
            0 <= s.0 <= 255 * area && 0 <= s.1 <= 255 * area && 0 <= s.2 <= 255 * area
  {
    ChannelSumBounds(img, rows, cols, 0);
    ChannelSumBounds(img, rows, cols, 1);
    ChannelSumBounds(img, rows, cols, 2);
    (BlockSum(Channel(img, 0), rows.lo, rows.hi, cols.lo, cols.hi),
     BlockSum(Channel(img, 1), rows.lo, rows.hi, cols.lo, cols.hi),
     BlockSum(Channel(img, 2), rows.lo, rows.hi, cols.lo, cols.hi))
  }

  lemma ChannelSumBounds(img: seq<seq<Rgb>>, rows: Span, cols: Span, k: nat)
    requires IsColor(img) && rows.Within(|img|) && cols.Within(Width(img)) && k < 3
    ensures 0 <= BlockSum(Channel(img, k), rows.lo, rows.hi, cols.lo, cols.hi) <= 255 * Area(rows, cols)
  {
    ChannelIsGray(img, k);
    BlockSumBounds(Channel(img, k), rows.lo, rows.hi, cols.lo, cols.hi);
  }

  /** `np.mean(cell)` of a color cell: the mean over all pixels and channels,
      used only to pick the glyph. */
  function ColorMean(img: seq<seq<Rgb>>, rows: Span, cols: Span): (m: real)
    requires IsColor(img) && SampleCell(img, rows, cols)
    ensures 0.0 <= m <= 255.0
  {
    var s := ChannelSums(img, rows, cols);
    var area := Area(rows, cols);
    QuotientBounds(s.0 + s.1 + s.2, 3 * area, 255);
    (s.0 + s.1 + s.2) as real / (3 * area) as real
  }

  /** The glyph's fill: each channel sum divided by the NOMINAL cell area
      `cell_height * cell_width` and truncated (`astype(np.int32)`), not by
      the number of pixels actually in the cell. */
  function NominalFill(s: Rgb, nominalArea: real): (f: Rgb)
    requires nominalArea > 0.0 && s.0 >= 0 && s.1 >= 0 && s.2 >= 0
    ensures f.0 >= 0 && f.1 >= 0 && f.2 >= 0
  {
    QuotientNonNegative(s.0 as real, nominalArea);
    QuotientNonNegative(s.1 as real, nominalArea);
    QuotientNonNegative(s.2 as real, nominalArea);
    ((s.0 as real / nominalArea).Floor, (s.1 as real / nominalArea).Floor, (s.2 as real / nominalArea).Floor)
  }

  lemma QuotientNonNegative(a: real, b: real)
    requires a >= 0.0 && b > 0.0
    ensures a / b >= 0.0
  {
    assert (a / b) * b == a;
  }

  /** A uniformly colored cell whose pixel count equals its nominal area is
      filled with exactly its own color. */
  lemma {:induction false} UniformFill(img: seq<seq<Rgb>>, rows: Span, cols: Span, c: Rgb)
    requires IsColor(img) && rows.Within(|img|) && cols.Within(Width(img)) && rows.NonEmpty() && cols.NonEmpty()
    requires forall y, x :: rows.lo <= y < rows.hi && cols.lo <= x < cols.hi ==> img[y][x] == c
    ensures NominalFill(ChannelSums(img, rows, cols), Area(rows, cols) as real) == c
  {
    var area := Area(rows, cols);
    UniformChannelSum(img, rows, cols, c, 0);
    UniformChannelSum(img, rows, cols, c, 1);
    UniformChannelSum(img, rows, cols, c, 2);
    var s := ChannelSums(img, rows, cols);
    ExactQuotient(c.0, area);
    ExactQuotient(c.1, area);
    ExactQuotient(c.2, area);
  }

  lemma UniformChannelSum(img: seq<seq<Rgb>>, rows: Span, cols: Span, c: Rgb, k: nat)
    requires IsColor(img) && rows.Within(|img|) && cols.Within(Width(img)) && k < 3
    requires forall y, x :: rows.lo <= y < rows.hi && cols.lo <= x < cols.hi ==> img[y][x] == c
    ensures BlockSum(Channel(img, k), rows.lo, rows.hi, cols.lo, cols.hi) == Pick(c, k) * Area(rows, cols)
  {
    ChannelOfUniform(img, rows.lo, rows.hi, cols.lo, cols.hi, c, k);
    UniformBlockSum(Channel(img, k), rows.lo, rows.hi, cols.lo, cols.hi, Pick(c, k));
  }

  lemma ScaledQuotient(v: int, a: int)
    requires a > 0
    ensures (v * a) as real / a as real == v as real
  {
    assert (v * a) as real == v as real * a as real;
    assert (v as real * a as real) / a as real == v as real;
  }

  lemma ExactQuotient(v: int, a: int)
    requires a > 0
    ensures ((v * a) as real / a as real).Floor == v
  {
    ScaledQuotient(v, a);
  }

  /** The fill stays a valid 8-bit channel whenever the nominal area is at
      least the cell's pixel count. */
  lemma {:induction false} FillWithinRange(img: seq<seq<Rgb>>, rows: Span, cols: Span, nominalArea: real)
    requires IsColor(img) && rows.Within(|img|) && cols.Within(Width(img))
    requires nominalArea > 0.0 && Area(rows, cols) as real <= nominalArea
    ensures IsPixel(NominalFill(ChannelSums(img, rows, cols), nominalArea))
  {
    var s := ChannelSums(img, rows, cols);
    var area := Area(rows, cols) as real;
    SumOverNominal(s.0, area, nominalArea);
    SumOverNominal(s.1, area, nominalArea);
    SumOverNominal(s.2, area, nominalArea);
  }

  lemma SumOverNominal(s: int, area: real, nominal: real)
    requires 0 <= s && s as real <= 255.0 * area && 0.0 <= area <= nominal && nominal > 0.0
    ensures 0 <= (s as real / nominal).Floor <= 255
  {
    var q := s as real / nominal;
    assert q * nominal == s as real;
    if q > 255.0 {
      MulStrict(255.0, q, nominal);
      MulMonotone(area, nominal, 255.0);
    }
  }
}
