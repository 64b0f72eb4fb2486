/** The logical grid laid over a source raster: cell sizes, cell counts, the
    degraded 6x12 fallback, and the half-open pixel range of every cell. */
module CellSampler {

  /** A grid: cell sizes in (possibly fractional) source pixels, and the number
      of glyph columns and rows. */
  datatype Layout = Layout(cellWidth: real, cellHeight: real, cols: nat, rows: nat) {
    predicate Sized() { cellWidth >= 0.0 && cellHeight >= 0.0 }
  }

  /** A half-open pixel range [lo, hi) along one axis. */
  datatype Span = Span(lo: int, hi: int) {
    predicate NonEmpty() { lo < hi }
    function Length(): int { hi - lo }
    predicate Within(dim: nat) { 0 <= lo <= hi <= dim }
  }

  const FallbackCellWidth: nat := 6
  const FallbackCellHeight: nat := 12

  function Min(a: int, b: int): int { if a <= b then a else b }

  /** `cell_width = width / num_cols`: the columns split the width exactly. */
  function CellWidth(width: nat, numCols: nat): (cw: real)
    requires numCols >= 1
    ensures cw * numCols as real == width as real
    ensures cw >= 0.0
    ensures numCols <= width <==> cw >= 1.0
  {
    var cw := width as real / numCols as real;
    QuotientAtLeastOne(width as real, numCols as real);
    cw
  }

  lemma QuotientAtLeastOne(a: real, b: real)
    requires a >= 0.0 && b > 0.0
    ensures (a / b) * b == a && a / b >= 0.0
    ensures a / b >= 1.0 <==> a >= b
  {
    var q := a / b;
    if q >= 1.0 { MulMonotone(1.0, q, b); } else { MulStrict(q, 1.0, b); }
  }

  /** `num_rows = int(height / cell_height)`: the most whole rows that fit. */
  function NumRows(height: nat, cellHeight: real): (rows: nat)
    requires cellHeight > 0.0
    ensures rows as real * cellHeight <= height as real
    ensures height as real < rows as real * cellHeight + cellHeight
  {
    var q := height as real / cellHeight;
    FloorBelow(height as real, cellHeight, q);
    FloorAbove(height as real, cellHeight, q);
    q.Floor
  }

  /** For `q = a / c`: `int(q) * c <= a`. */
  lemma FloorBelow(a: real, c: real, q: real)
    requires c > 0.0 && q >= 0.0 && q * c == a
    ensures q.Floor as real * c <= a
  {
    MulMonotone(q.Floor as real, q, c);
  }

  /** For `q = a / c`: `a < int(q) * c + c`. */
  lemma FloorAbove(a: real, c: real, q: real)
    requires c > 0.0 && q >= 0.0 && q * c == a
    ensures a < q.Floor as real * c + c
  {
    var f := q.Floor as real;
    assert q < f + 1.0;
    MulStrict(q, f + 1.0, c);
    assert q * c < (f + 1.0) * c;
    assert a < (f + 1.0) * c;
    assert (f + 1.0) * c == f * c + 1.0 * c;
  }

  lemma MulMonotone(a: real, b: real, c: real)
    requires a <= b && c >= 0.0
    ensures a * c <= b * c
  {}

  lemma MulStrict(a: real, b: real, c: real)
    requires a < b && c > 0.0
    ensures a * c < b * c
  {}

  /** The grid requested by the caller, before any fallback:
      `cell_height = scale * cell_width`, `num_rows = int(height / cell_height)`. */
  function Derive(width: nat, height: nat, numCols: nat, scale: real): (g: Layout)
    requires width >= 1 && numCols >= 1 && scale > 0.0
    ensures g.Sized() && g.cellWidth > 0.0 && g.cellHeight > 0.0
    ensures g.cols == numCols
    ensures g.cellWidth * numCols as real == width as real
    ensures g.cellHeight == scale * g.cellWidth
    ensures g.rows as real * g.cellHeight <= height as real < g.rows as real * g.cellHeight + g.cellHeight
  {
    var cw := CellWidth(width, numCols);
    var ch := scale * cw;
    Layout(cw, ch, numCols, NumRows(height, ch))
  }

  /** The condition under which every script but video2video abandons the
      requested grid. */
  predicate Excessive(width: nat, height: nat, cols: nat, rows: nat) {
    cols > width || rows > height
  }

  /** The fixed 6x12 degraded grid. */
  function Fallback(width: nat, height: nat): (g: Layout)
    ensures g.cellWidth == FallbackCellWidth as real && g.cellHeight == FallbackCellHeight as real
    ensures g.cols * FallbackCellWidth <= width && g.rows * FallbackCellHeight <= height
    ensures width < (g.cols + 1) * FallbackCellWidth && height < (g.rows + 1) * FallbackCellHeight
  {
    Layout(FallbackCellWidth as real, FallbackCellHeight as real, width / FallbackCellWidth, height / FallbackCellHeight)
  }

  /** The requested grid, replaced whole (cell sizes and counts) by the 6x12
      grid when it is excessive. */
  function WithFallback(g: Layout, width: nat, height: nat): (r: Layout)
    ensures r.cols <= width && r.rows <= height
    ensures r == g || r == Fallback(width, height)
  {
    if Excessive(width, height, g.cols, g.rows) then Fallback(width, height) else g
  }

  /** Cell `k` along an axis of `dim` pixels with cells of `size` pixels:
      `[int(k * size), min(int((k + 1) * size), dim))`. */
  function CellSpan(k: nat, size: real, dim: nat): (s: Span)
    requires size >= 0.0
    ensures 0 <= s.lo && s.hi <= dim
  {
    assert k as real * size >= 0.0;
    Span((k as real * size).Floor, Min(((k + 1) as real * size).Floor, dim))
  }

  /** Every one of `count` cells of `size` along an axis of `dim` has a pixel. */
  predicate AllNonEmpty(size: real, count: nat, dim: nat)
    requires size >= 0.0
  {
    forall k :: 0 <= k < count ==> CellSpan(k, size, dim).NonEmpty()
  }

  /** No cell of the grid is an empty slice of a `width` x `height` raster. */
  predicate CellsNonEmpty(g: Layout, width: nat, height: nat)
    requires g.Sized()
  {
    g.rows == 0 || g.cols == 0 ||
    (AllNonEmpty(g.cellHeight, g.rows, height) && AllNonEmpty(g.cellWidth, g.cols, width))
  }

  /** A grid whose cells are at least one pixel on each side and whose cells fit
      inside the raster without clipping. */
  predicate Regular(g: Layout, width: nat, height: nat) {
    g.cellWidth >= 1.0 && g.cellHeight >= 1.0 &&
    g.cols as real * g.cellWidth <= width as real &&
    g.rows as real * g.cellHeight <= height as real
  }

  /** Inside the grid the `min(..., dim)` clip never bites, and the cell ranges
      abut: cell k ends where cell k + 1 starts. */
  lemma {:induction false} SpanInsideGrid(k: nat, size: real, count: nat, dim: nat)
    requires size >= 0.0 && k < count && count as real * size <= dim as real
    ensures CellSpan(k, size, dim).hi == ((k + 1) as real * size).Floor
    ensures CellSpan(k, size, dim).Within(dim)
    ensures k + 1 < count ==> CellSpan(k, size, dim).hi == CellSpan(k + 1, size, dim).lo
  {
    MulMonotone((k + 1) as real, count as real, size);
    MulMonotone(k as real, (k + 1) as real, size);
    FloorMonotone(k as real * size, (k + 1) as real * size);
    FloorMonotone((k + 1) as real * size, dim as real);
  }

  lemma FloorMonotone(a: real, b: real)
    requires a <= b
    ensures a.Floor <= b.Floor
  {}

  /** Cells of at least one pixel are never empty. */
  lemma {:induction false} WideSpanNonEmpty(k: nat, size: real, count: nat, dim: nat)
    requires size >= 1.0 && k < count && count as real * size <= dim as real
    ensures CellSpan(k, size, dim).NonEmpty()
  {
    SpanInsideGrid(k, size, count, dim);
    assert (k + 1) as real * size == k as real * size + size;
    FloorMonotone(k as real * size + 1.0, k as real * size + size);
  }

  /** With an integral cell size every cell is exactly `size` pixels. */
  lemma {:induction false} IntegralSpanExact(k: nat, size: nat, count: nat, dim: nat)
    requires k < count && count * size <= dim
    ensures CellSpan(k, size as real, dim) == Span(k * size, (k + 1) * size)
  {
    assert (k as real * size as real) == (k * size) as real;
    assert ((k + 1) as real * size as real) == ((k + 1) * size) as real;
    assert (k + 1) * size <= count * size by { MulNatMonotone(k + 1, count, size); }
  }

  /** With an integral cell size every cell inside the grid has exactly `size` pixels. */
  lemma IntegralSpanLength(k: nat, size: nat, count: nat, dim: nat)
    requires k < count && count * size <= dim
    ensures CellSpan(k, size as real, dim).Length() == size
  {
    IntegralSpanExact(k, size, count, dim);
    assert (k + 1) * size == k * size + size;
  }

  lemma MulNatMonotone(a: nat, b: nat, c: nat)
    requires a <= b
    ensures a * c <= b * c
  {}

  /** A cell narrower than a pixel starting at 0 is the empty range [0, 0). */
  lemma FirstSpanOfThinCellsEmpty(size: real, dim: nat)
    requires 0.0 <= size < 1.0
    ensures !CellSpan(0, size, dim).NonEmpty()
  {
    assert (1 as real * size).Floor == 0;
  }

  lemma {:induction false} RegularAxisNonEmpty(size: real, count: nat, dim: nat)
    requires size >= 1.0 && count as real * size <= dim as real
    ensures AllNonEmpty(size, count, dim)
  {
    forall k | 0 <= k < count ensures CellSpan(k, size, dim).NonEmpty() {
      WideSpanNonEmpty(k, size, count, dim);
    }
  }

  /** A regular grid has no empty cell. */
  lemma {:induction false} RegularCellsNonEmpty(g: Layout, width: nat, height: nat)
    requires Regular(g, width, height)
    ensures g.Sized() && CellsNonEmpty(g, width, height)
  {
    RegularAxisNonEmpty(g.cellHeight, g.rows, height);
    RegularAxisNonEmpty(g.cellWidth, g.cols, width);
  }

  /** The requested grid, once the fallback has been applied, is regular when
      the glyph aspect `scale` is at least 1: the sampled cells are never empty
      and never clipped. */
  lemma {:induction false} FallbackGridRegular(width: nat, height: nat, numCols: nat, scale: real)
    requires width >= 1 && numCols >= 1 && scale >= 1.0
    ensures Regular(WithFallback(Derive(width, height, numCols, scale), width, height), width, height)
  {
    var g := Derive(width, height, numCols, scale);
    if !Excessive(width, height, g.cols, g.rows) {
      assert g.cellWidth >= 1.0;
      MulMonotone(1.0, scale, g.cellWidth);
    } else {
      var f := Fallback(width, height);
      assert (f.cols * FallbackCellWidth) as real == f.cols as real * f.cellWidth;
      assert (f.rows * FallbackCellHeight) as real == f.rows as real * f.cellHeight;
    }
  }

  /** With cells at least as tall as wide (`scale >= 1`: every script, whose
      scale is 2 or a positive integer) the fallback fires exactly when more
      columns than pixels are asked for: the row test never decides. */
  lemma {:induction false} FallbackIffTooManyColumns(width: nat, height: nat, numCols: nat, scale: real)
    requires width >= 1 && numCols >= 1 && scale >= 1.0
    ensures var g := Derive(width, height, numCols, scale);
            Excessive(width, height, g.cols, g.rows) <==> numCols > width
  {
    var g := Derive(width, height, numCols, scale);
    if numCols <= width {
      MulMonotone(1.0, scale, g.cellWidth);
      assert g.cellHeight >= 1.0;
      MulMonotone(1.0, g.cellHeight, g.rows as real);
      assert g.rows as real <= height as real;
    }
  }

  /** Asking for one column more than the width always selects the 6x12 grid,
      without error, for every glyph aspect. */
  lemma ColumnOverflowSelectsFallback(width: nat, height: nat, scale: real)
    requires width >= 1 && scale > 0.0
    ensures WithFallback(Derive(width, height, width + 1, scale), width, height) == Fallback(width, height)
  {}
}
