/**
 * The row partition shared by the three operations: with `n` participants
 * (participant 0 is the coordinator), `rows_per_worker = height / n`, participant
 * `p` owns rows `[p * rows_per_worker, ...)` and the last participant also owns
 * the `height % n` remainder rows.
 */
module Partition {
  import opened Raster

  function RowsPerWorker(h: nat, n: nat): nat
    requires n >= 1
  {
    h / n
  }

  function RemainingRows(h: nat, n: nat): nat
    requires n >= 1
  {
    h % n
  }

  /** First row of participant `p`'s slice: inside the image, or at its end when the slice is empty. */
  function SliceStart(h: nat, n: nat, p: nat): (s: nat)
    requires p < n
    ensures s <= h
  {
    var rpw := RowsPerWorker(h, n);
    MulMonotone(p, n, rpw);
    p * rpw
  }

  /** Number of rows in participant `p`'s slice: the remainder goes to the last one. */
  function SliceRows(h: nat, n: nat, p: nat): nat
    requires p < n
  {
    if p == n - 1 then RowsPerWorker(h, n) + RemainingRows(h, n) else RowsPerWorker(h, n)
  }

  /**
   * Every slice has at least `height / n` rows, fewer than `n` more, and never
   * more than the image.
   */
  lemma SliceRowsBounds(h: nat, n: nat, p: nat)
    requires p < n
    ensures RowsPerWorker(h, n) <= SliceRows(h, n, p) < RowsPerWorker(h, n) + n
    ensures SliceRows(h, n, p) <= h
  {
    SliceInImage(h, n, p);
  }

  /** The coordinator's own rows are `[0, rows_per_worker)`. */
  function CoordinatorRows(h: nat, n: nat): nat
    requires n >= 1
  {
    RowsPerWorker(h, n)
  }

  predicate InSlice(h: nat, n: nat, p: nat, y: nat)
    requires p < n
  {
    SliceStart(h, n, p) <= y < SliceStart(h, n, p) + SliceRows(h, n, p)
  }

  /**
   * The slices are laid end to end: the first starts at row 0, each one ends
   * where the next begins, and the last one ends at the last row of the image.
   */
  lemma Contiguous(h: nat, n: nat, p: nat)
    requires p < n
    ensures SliceStart(h, n, 0) == 0
    ensures p == 0 ==> SliceRows(h, n, 0) == CoordinatorRows(h, n)
    ensures p < n - 1 ==> SliceStart(h, n, p) + SliceRows(h, n, p) == SliceStart(h, n, p + 1)
    ensures p == n - 1 ==> SliceStart(h, n, p) + SliceRows(h, n, p) == h
  {
    var rpw := RowsPerWorker(h, n);
    assert h == n * rpw + RemainingRows(h, n);
    assert (p + 1) * rpw == p * rpw + rpw;
  }

  /** A lower-numbered participant's slice ends before a higher-numbered one's starts. */
  lemma Ordered(h: nat, n: nat, p: nat, q: nat)
    requires p < q < n
    ensures SliceStart(h, n, p) + SliceRows(h, n, p) <= SliceStart(h, n, q)
  {
    Contiguous(h, n, p);
    MulMonotone(p + 1, q, RowsPerWorker(h, n));
    assert (p + 1) * RowsPerWorker(h, n) == p * RowsPerWorker(h, n) + RowsPerWorker(h, n);
  }

  /** Every slice lies inside the image. */
  lemma SliceInImage(h: nat, n: nat, p: nat)
    requires p < n
    ensures SliceStart(h, n, p) + SliceRows(h, n, p) <= h
  {
    Contiguous(h, n, p);
    if p < n - 1 {
      MulMonotone(p + 1, n - 1, RowsPerWorker(h, n));
      Contiguous(h, n, n - 1);
    }
  }

  /**
   * The participant that owns row `y`: the slices cover `[0, height)` without
   * gaps (some participant owns `y`) and without overlaps (no other one does).
   */
  function Owner(h: nat, n: nat, y: nat): (p: nat)
    requires n >= 1 && y < h
    ensures p < n && InSlice(h, n, p, y)
    ensures forall q: nat :: q < n && InSlice(h, n, q, y) ==> q == p
  {
    Contiguous(h, n, 0);
    var p := OwnerFrom(h, n, y, 0);
    forall q: nat | q < n && InSlice(h, n, q, y)
      ensures q == p
    {
      if q < p {
        Ordered(h, n, q, p);
      } else if p < q {
        Ordered(h, n, p, q);
      }
    }
    p
  }

  /** Search upward from participant `p` for the slice that holds `y`. */
  function OwnerFrom(h: nat, n: nat, y: nat, p: nat): (q: nat)
    requires p < n && SliceStart(h, n, p) <= y < h
    ensures p <= q < n && InSlice(h, n, q, y)
    decreases n - p
  {
    Contiguous(h, n, p);
    if y < SliceStart(h, n, p) + SliceRows(h, n, p) then p else OwnerFrom(h, n, y, p + 1)
  }

  /** Ten rows over three participants give [0,3), [3,6) and [6,10). */
  lemma TenRowsThreeWorkers()
    ensures SliceStart(10, 3, 0) == 0 && CoordinatorRows(10, 3) == 3
    ensures SliceStart(10, 3, 1) == 3 && SliceRows(10, 3, 1) == 3
    ensures SliceStart(10, 3, 2) == 6 && SliceRows(10, 3, 2) == 4
  {
  }
}
