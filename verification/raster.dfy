/** Row-major addressing of a flat pixel buffer: pixel (y, x) of a `width`-wide image sits at `y * width + x`. */
module Raster {

  /** The flat index of pixel (y, x). */
  function Idx(w: nat, y: nat, x: nat): nat
  {
    y * w + x
  }

  /** A pixel inside a `rows`-row image has its index inside the buffer. */
  lemma IdxInBuffer(w: nat, rows: nat, y: nat, x: nat)
    requires y < rows && x < w
    ensures Idx(w, y, x) < rows * w
    ensures Idx(w, y, x) + (w - x) == (y + 1) * w
  {
    assert (y + 1) * w <= rows * w by { MulMonotone(y + 1, rows, w); }
  }

  /** Row `y` of a `rows`-row image ends where row `y + 1` starts, inside the buffer. */
  lemma RowEnd(w: nat, rows: nat, y: nat)
    requires y < rows
    ensures Idx(w, y, w) == Idx(w, y + 1, 0) <= rows * w
  {
    MulMonotone(y + 1, rows, w);
  }

  /** Moving down `a` rows moves the index by `a` whole rows. */
  lemma IdxShift(w: nat, a: nat, y: nat, x: nat)
    ensures Idx(w, a + y, x) == a * w + Idx(w, y, x)
  {
  }

  /** Rows `[a, a + m)` take `m` whole rows of the buffer. */
  lemma Span(w: nat, a: nat, m: nat)
    ensures (a + m) * w == a * w + m * w
  {
  }

  lemma MulMonotone(a: nat, b: nat, w: nat)
    requires a <= b
    ensures a * w <= b * w
  {
  }

  /** A lower row starts at least a whole row earlier. */
  lemma RowStep(a: int, b: int, w: nat)
    ensures a < b ==> a * w + w <= b * w
  {
    if a < b {
      var d := b - a;
      assert b * w == a * w + d * w;
      MulMonotone(1, d, w);
    }
  }

  /** The row and column of index `Idx(w, y, x)` are `y` and `x` again. */
  lemma DivModIdx(w: nat, y: nat, x: nat)
    requires x < w
    ensures Idx(w, y, x) / w == y && Idx(w, y, x) % w == x
  {
    var k := y * w + x;
    var q, r := k / w, k % w;
    assert k == q * w + r && 0 <= r < w;
    RowStep(q, y, w);
    RowStep(y, q, w);
  }

  /** Every index of a `rows`-row buffer is `Idx(w, k / w, k % w)` with row `k / w < rows`. */
  lemma SplitIndex(w: nat, rows: nat, k: nat)
    requires k < rows * w
    ensures w > 0 && 0 <= k / w < rows && 0 <= k % w < w && k == Idx(w, k / w, k % w)
  {
    if k / w >= rows {
      MulMonotone(rows, k / w, w);
    }
  }
}
