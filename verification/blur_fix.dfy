/**
 * The row shift of the distributed blur, exhibited on a concrete image, and
 * the corrected protocol: one halo row above each worker slice (the kernel
 * radius, not its size), the worker's neighbour test bounded by its own
 * received rows, and exactly the slice's rows blurred and sent back. The
 * corrected assembly is the single-process blur whenever there is one process
 * or the image has at least as many rows as processes.
 */
module BlurFix {
  import opened Pixels
  import opened Raster
  import opened Partition
  import opened Exchange
  import opened BoxBlur
  import opened Blur

  // ---------------------------------------------------------------------------
  // As written: a one-column image on which two processes disagree with one

  const Black: Color := Color(0, 0, 0, 255)
  const DarkRed: Color := Color(90, 0, 0, 255)

  /** A 1 x 6 column, black except the bottom pixel. */
  function Column(): (img: seq<Color>)
    ensures |img| == 6 * 1
  {
    [Black, Black, Black, Black, Black, DarkRed]
  }

  /**
   * With two processes the bottom row receives the blur of row 3 (all black),
   * while the single-process blur of the bottom row averages rows 4 and 5.
   */
  lemma ShiftedBottomRow()
    ensures BlurSafe(6, 2)
    ensures DistributedBlur(Column(), 1, 6, 2)[5].r == 0
    ensures Blurred(Column(), 1, 6)[5].r == 45
    ensures DistributedBlur(Column(), 1, 6, 2) != DistributedBlur(Column(), 1, 6, 1)
  {
    var img := Column();
    DistributedAt(img, 1, 6, 2, 5, 0);
    BlurAt(img, 1, 6, 3, 0);
    BlurAt(img, 1, 6, 5, 0);
    BlackWindow();
    BottomWindow();
    OneProcess(img, 1, 6);
  }

  /** Row 3's window covers rows 2 to 4, all black. */
  lemma BlackWindow()
    ensures Window(Column(), 1, 6, 6, 3, 0) == Acc(0, 0, 0, 3)
  {
    var img := Column();
    assert WindowSum(img, 1, 6, 6, 3, 0, 0) == Acc(0, 0, 0, 1);
    assert WindowSum(img, 1, 6, 6, 3, 0, 1) == Acc(0, 0, 0, 2);
  }

  /** Row 5's window covers rows 4 and 5 only: one black and one dark red pixel. */
  lemma BottomWindow()
    ensures Window(Column(), 1, 6, 6, 5, 0) == Acc(90, 0, 0, 2)
  {
    var img := Column();
    assert WindowSum(img, 1, 6, 6, 5, 0, 0) == Acc(0, 0, 0, 1);
    assert WindowSum(img, 1, 6, 6, 5, 0, 1) == Acc(90, 0, 0, 2);
  }

  // ---------------------------------------------------------------------------
  // Corrected protocol

  /** The corrected send offsets stay inside the image. */
  predicate FixedSafe(h: nat, n: nat)
    requires n >= 1
  {
    n == 1 || RowsPerWorker(h, n) >= KernelRadius
  }

  /**
   * The corrected offsets need one process or at least one row per process:
   * with fewer rows than processes the halo of the last worker would start
   * at row -1.
   */
  lemma FixedSafeIff(h: nat, n: nat)
    requires n >= 1
    ensures FixedSafe(h, n) <==> n == 1 || h >= n
    ensures n >= 2 && h < n ==> FixedSendStart(h, n, n - 1) < 0
  {
    if n >= 2 && h >= n {
      MulMonotone(1, h / n, n);
    }
  }

  /** First row sent to worker `i`: one halo row above its slice. */
  function FixedSendStart(h: nat, n: nat, i: nat): int
    requires i < n
  {
    SliceStart(h, n, i) - KernelRadius
  }

  /** Rows sent to worker `i`: its slice with a halo row on each side, clamped to the image bottom. */
  function FixedSendRows(h: nat, n: nat, i: nat): (num: nat)
    requires i < n
    ensures SliceRows(h, n, i) + KernelRadius <= num <= SliceRows(h, n, i) + 2 * KernelRadius
  {
    SliceInImage(h, n, i);
    var num := SliceRows(h, n, i) + 2 * KernelRadius;
    if FixedSendStart(h, n, i) + num > h then h - FixedSendStart(h, n, i) else num
  }

  /** Under `FixedSafe` the rows sent lie inside the image. */
  lemma FixedSendRange(h: nat, n: nat, i: nat)
    requires 1 <= i < n && FixedSafe(h, n)
    ensures 0 <= FixedSendStart(h, n, i)
    ensures FixedSendStart(h, n, i) + FixedSendRows(h, n, i) <= h
  {
    MulMonotone(1, i, RowsPerWorker(h, n));
    SliceInImage(h, n, i);
  }

  /** The corrected worker's message. */
  function FixedHalo(img: seq<Color>, w: nat, h: nat, n: nat, i: nat): (m: seq<Color>)
    requires |img| == h * w && 1 <= i < n && FixedSafe(h, n)
    ensures |m| == FixedSendRows(h, n, i) * w
  {
    FixedSendRange(h, n, i);
    RowsOf(img, w, h, FixedSendStart(h, n, i), FixedSendRows(h, n, i))
  }

  /**
   * The corrected worker's reply: local rows `1 .. rows`, each blurred with
   * neighbours bounded by the received rows `num`.
   */
  function FixedWorkerBlur(msg: seq<Color>, w: nat, num: nat, rows: nat): (r: seq<Color>)
    requires |msg| == num * w && rows + KernelRadius <= num
    ensures |r| == rows * w
  {
    seq(rows * w, k requires 0 <= k < rows * w => FixedWorkerPixel(msg, w, num, rows, k))
  }

  function FixedWorkerPixel(msg: seq<Color>, w: nat, num: nat, rows: nat, k: nat): Color
    requires |msg| == num * w && rows + KernelRadius <= num && k < rows * w
  {
    SplitIndex(w, rows, k);
    BlurredPixel(msg, w, num, num, k / w + 1, k % w)
  }

  /** Pixel `k` of the corrected assembly: coordinator rows in place, every other row from its owner's reply. */
  function FixedPixel(img: seq<Color>, w: nat, h: nat, n: nat, k: nat): Color
    requires |img| == h * w && n >= 1 && FixedSafe(h, n) && k < h * w
  {
    SplitIndex(w, h, k);
    var p := Owner(h, n, k / w);
    if p == 0 then Blurred(img, w, h)[k]
    else
      var rows := SliceRows(h, n, p);
      var reply := FixedWorkerBlur(FixedHalo(img, w, h, n, p), w, FixedSendRows(h, n, p), rows);
      var yy := k / w - SliceStart(h, n, p);
      IdxInBuffer(w, rows, yy, k % w);
      reply[Idx(w, yy, k % w)]
  }

  /** The image the corrected coordinator assembles. */
  function FixedDistributedBlur(img: seq<Color>, w: nat, h: nat, n: nat): (r: seq<Color>)
    requires |img| == h * w && n >= 1 && FixedSafe(h, n)
    ensures |r| == |img|
  {
    seq(h * w, k requires 0 <= k < h * w => FixedPixel(img, w, h, n, k))
  }

  /** A corrected worker's row `yy` is the single-process blur of image row `start + yy`. */
  lemma FixedReplyAt(img: seq<Color>, w: nat, h: nat, n: nat, i: nat, yy: nat, x: nat)
    requires |img| == h * w && 1 <= i < n && FixedSafe(h, n) && yy < SliceRows(h, n, i) && x < w
    ensures Idx(w, yy, x) < SliceRows(h, n, i) * w
    ensures SliceStart(h, n, i) + yy < h
    ensures FixedWorkerBlur(FixedHalo(img, w, h, n, i), w, FixedSendRows(h, n, i), SliceRows(h, n, i))[Idx(w, yy, x)]
      == BlurredPixel(img, w, h, h, SliceStart(h, n, i) + yy, x)
  {
    FixedSendRange(h, n, i);
    SliceInImage(h, n, i);
    var s, num, rows := FixedSendStart(h, n, i), FixedSendRows(h, n, i), SliceRows(h, n, i);
    IdxInBuffer(w, rows, yy, x);
    DivModIdx(w, yy, x);
    assert Aligned(h, s, num, num, yy + 1);
    PixelShift(img, w, h, s, num, num, yy + 1, x);
  }

  /** Pixel (g, x) of the corrected assembly is pixel (g, x) of the single-process blur. */
  lemma FixedPixelAt(img: seq<Color>, w: nat, h: nat, n: nat, g: nat, x: nat)
    requires |img| == h * w && n >= 1 && FixedSafe(h, n) && g < h && x < w
    ensures Idx(w, g, x) < h * w
    ensures FixedDistributedBlur(img, w, h, n)[Idx(w, g, x)] == Blurred(img, w, h)[Idx(w, g, x)]
  {
    IdxInBuffer(w, h, g, x);
    DivModIdx(w, g, x);
    var p := Owner(h, n, g);
    if p != 0 {
      FixedReplyAt(img, w, h, n, p, g - SliceStart(h, n, p), x);
      BlurAt(img, w, h, g, x);
    }
  }

  /**
   * The corrected protocol computes the single-process blur for one process,
   * and for any number of processes up to the image height.
   */
  lemma FixedIsBlurred(img: seq<Color>, w: nat, h: nat, n: nat)
    requires |img| == h * w && n >= 1 && FixedSafe(h, n)
    ensures FixedDistributedBlur(img, w, h, n) == Blurred(img, w, h)
  {
    var fixed, blurred := FixedDistributedBlur(img, w, h, n), Blurred(img, w, h);
    forall k | 0 <= k < |img|
      ensures fixed[k] == blurred[k]
    {
      SplitIndex(w, h, k);
      FixedPixelAt(img, w, h, n, k / w, k % w);
    }
  }

  /** The bottom row of the column comes out right under the corrected protocol. */
  lemma FixedBottomRow()
    ensures FixedSafe(6, 2)
    ensures FixedDistributedBlur(Column(), 1, 6, 2)[5].r == 45
  {
    FixedIsBlurred(Column(), 1, 6, 2);
    ShiftedBottomRow();
  }
}
