/**
 * Distributed box blur. Worker `i` is sent the rows starting at
 * `i * rows_per_worker - kernel_size` (the kernel size, not its radius), blurs
 * local rows `1 .. num_rows - 2` against the image height as row bound, and
 * writes local row `y` to output row `y - 1`. The coordinator blurs its own
 * rows `[0, rows_per_worker)` and receives each worker's rows into the worker's
 * slice. Together these offsets move every worker row by two: the value
 * returned for image row `g` of a worker is the blur of row `g - 2`.
 */
module Blur {
  import opened Pixels
  import opened Raster
  import opened Partition
  import opened Transport
  import opened Exchange
  import opened BoxBlur

  /** How far down a worker's rows land from the window they were blurred with. */
  const WorkerRowShift: int := KernelSize - 1

  /**
   * The send offsets stay inside the image: with several processes every
   * worker's `i * rows_per_worker - kernel_size` must not be negative.
   */
  predicate BlurSafe(h: nat, n: nat)
    requires n >= 1
  {
    n == 1 || RowsPerWorker(h, n) >= KernelSize
  }

  /** First row sent to worker `i`: `kernel_size` rows above its slice (negative when `BlurSafe` fails). */
  function SendStart(h: nat, n: nat, i: nat): (s: int)
    requires i < n
    ensures s + KernelSize == SliceStart(h, n, i)
  {
    i * RowsPerWorker(h, n) - KernelSize
  }

  /**
   * Number of rows sent to worker `i`: its slice plus two halo rows, clamped to
   * the image bottom. For a worker the clamp never applies (`SendRange` shows
   * that the rows sent then stop one row short of the end of its slice).
   */
  function SendRows(h: nat, n: nat, i: nat): (num: nat)
    requires i < n
    ensures 1 <= i ==> num == SliceRows(h, n, i) + 2 * KernelRadius
  {
    SliceInImage(h, n, i);
    var num := RowsPerWorker(h, n) + KernelRadius * 2 + (if i == n - 1 then RemainingRows(h, n) else 0);
    ClampRows(SendStart(h, n, i), num, h)
  }

  /** The clamp both entry points apply: a range of `num` rows from `start` is cut at the image bottom. */
  function ClampRows(start: int, num: int, h: nat): int
  {
    if start + num > h then h - start else num
  }

  /** Rows worker `i` sends back, its received rows without the two halo rows: exactly its slice. */
  function EffectiveRows(h: nat, n: nat, i: nat): (e: int)
    requires i < n
    ensures 1 <= i ==> e == SliceRows(h, n, i)
  {
    SendRows(h, n, i) - 2 * KernelRadius
  }

  /** Rows the coordinator receives from worker `i`, clamped to the image bottom: exactly its slice. */
  function ReceiveRows(h: nat, n: nat, i: nat): (r: int)
    requires i < n
    ensures r == SliceRows(h, n, i)
  {
    SliceInImage(h, n, i);
    var start := i * RowsPerWorker(h, n);
    var num := RowsPerWorker(h, n) + (if i == n - 1 then RemainingRows(h, n) else 0);
    ClampRows(start, num, h)
  }

  /**
   * Send and receive counts agree in both directions: the coordinator sends
   * `SendRows` rows and the worker receives that many (both compute it with the
   * same formula), and the worker's `effective_rows` equal the rows the
   * coordinator receives, which are exactly the worker's slice. Neither clamp
   * ever shortens a range.
   */
  lemma CountsAgree(h: nat, n: nat, i: nat)
    requires 1 <= i < n
    ensures EffectiveRows(h, n, i) == ReceiveRows(h, n, i) == SliceRows(h, n, i)
    ensures SendRows(h, n, i) == SliceRows(h, n, i) + 2 * KernelRadius
  {
    SliceInImage(h, n, i);
  }

  /** The send offsets are non-negative for every worker exactly when `BlurSafe` holds. */
  lemma SafeIffStartsInImage(h: nat, n: nat)
    requires n >= 1
    ensures BlurSafe(h, n) <==> forall i :: 1 <= i < n ==> SendStart(h, n, i) >= 0
  {
    if n >= 2 && !BlurSafe(h, n) {
      assert SendStart(h, n, 1) < 0;
    }
    if BlurSafe(h, n) {
      forall i | 1 <= i < n
        ensures SendStart(h, n, i) >= 0
      {
        MulMonotone(1, i, RowsPerWorker(h, n));
      }
    }
  }

  /**
   * Under `BlurSafe` the rows sent to worker `i` lie inside the image and end
   * one row before its slice does, so the worker's `ny < height` test never
   * fails: every row it reads is a real image row.
   */
  lemma SendRange(h: nat, n: nat, i: nat)
    requires 1 <= i < n && BlurSafe(h, n)
    ensures 0 <= SendStart(h, n, i)
    ensures SendStart(h, n, i) + SendRows(h, n, i) == SliceStart(h, n, i) + SliceRows(h, n, i) - 1
    ensures 2 * KernelRadius <= SendRows(h, n, i) < h
  {
    SafeIffStartsInImage(h, n);
    SliceInImage(h, n, i);
  }

  // ---------------------------------------------------------------------------
  // What the coordinator assembles

  /** The image row whose window ends up in row `g` of the assembled output. */
  function SourceRow(h: nat, n: nat, g: nat): (s: nat)
    requires n >= 1 && BlurSafe(h, n) && g < h
    ensures s <= g
  {
    if g < RowsPerWorker(h, n) then g else g - WorkerRowShift
  }

  /** The image the coordinator assembles: coordinator rows blurred in place, worker rows shifted by two. */
  function DistributedBlur(img: seq<Color>, w: nat, h: nat, n: nat): (r: seq<Color>)
    requires |img| == h * w && n >= 1 && BlurSafe(h, n)
    ensures |r| == |img|
  {
    seq(h * w, k requires 0 <= k < h * w => ShiftedPixel(img, w, h, n, k))
  }

  function ShiftedPixel(img: seq<Color>, w: nat, h: nat, n: nat, k: nat): Color
    requires |img| == h * w && n >= 1 && BlurSafe(h, n) && k < h * w
  {
    SplitIndex(w, h, k);
    BlurredPixel(img, w, h, h, SourceRow(h, n, k / w), k % w)
  }

  /**
   * Row `g` of the assembled image is the single-process blur of row `g` for
   * the coordinator's rows, and of row `g - 2` for every worker row.
   */
  lemma DistributedAt(img: seq<Color>, w: nat, h: nat, n: nat, g: nat, x: nat)
    requires |img| == h * w && n >= 1 && BlurSafe(h, n) && g < h && x < w
    ensures Idx(w, g, x) < |img|
    ensures g < RowsPerWorker(h, n) ==> DistributedBlur(img, w, h, n)[Idx(w, g, x)] == Blurred(img, w, h)[Idx(w, g, x)]
    ensures g >= RowsPerWorker(h, n) ==>
      WorkerRowShift <= g && DistributedBlur(img, w, h, n)[Idx(w, g, x)] == Blurred(img, w, h)[Idx(w, g - WorkerRowShift, x)]
  {
    DistributedPixel(img, w, h, n, g, x);
    BlurAt(img, w, h, SourceRow(h, n, g), x);
  }

  /** Row `g` of the assembled image is the blur window of its source row. */
  lemma DistributedPixel(img: seq<Color>, w: nat, h: nat, n: nat, g: nat, x: nat)
    requires |img| == h * w && n >= 1 && BlurSafe(h, n) && g < h && x < w
    ensures Idx(w, g, x) < |img|
    ensures DistributedBlur(img, w, h, n)[Idx(w, g, x)] == BlurredPixel(img, w, h, h, SourceRow(h, n, g), x)
  {
    IdxInBuffer(w, h, g, x);
    DivModIdx(w, g, x);
  }

  /** With one process nothing is distributed and the result is the single-process blur. */
  lemma OneProcess(img: seq<Color>, w: nat, h: nat)
    requires |img| == h * w
    ensures DistributedBlur(img, w, h, 1) == Blurred(img, w, h)
  {
    forall k | 0 <= k < |img|
      ensures DistributedBlur(img, w, h, 1)[k] == Blurred(img, w, h)[k]
    {
      SplitIndex(w, h, k);
    }
  }

  // ---------------------------------------------------------------------------
  // The worker's local blur is the image's blur two rows up

  /**
   * Local row `y` of the rows `[s, s + num)`, under the local row bound `hb`,
   * sees the same neighbours as image row `s + y` under the image height:
   * either its whole window lies inside the slice and `hb` does not cut it,
   * or the slice ends at the image bottom and `hb` is the slice's own height.
   */
  predicate Aligned(h: nat, s: nat, num: nat, hb: int, y: int)
  {
    1 <= y && s + num <= h &&
    ((y + KernelRadius < num && num <= hb) || (hb == num && s + num == h && y < num))
  }

  lemma StepShift(a: Acc, img: seq<Color>, w: nat, h: nat, s: nat, num: nat, hb: int, ny: int, nx: int)
    requires |img| == h * w && s + num <= h && 0 <= ny
    requires (ny < num && num <= hb) || (hb == num && s + num == h)
    ensures Step(a, RowsOf(img, w, h, s, num), w, num, hb, ny, nx) == Step(a, img, w, h, h, s + ny, nx)
  {
    if Counted(w, hb, ny, nx) {
      IdxInBuffer(w, num, ny, nx);
      IdxShift(w, s, ny, nx);
    }
  }

  lemma {:induction false} RowSumShift(a: Acc, img: seq<Color>, w: nat, h: nat, s: nat, num: nat, hb: int, y: int, x: int, ky: int, kx: int)
    requires |img| == h * w && Aligned(h, s, num, hb, y)
    requires -KernelRadius <= ky <= KernelRadius && -KernelRadius <= kx <= KernelRadius + 1
    ensures RowSum(a, RowsOf(img, w, h, s, num), w, num, hb, y, x, ky, kx) == RowSum(a, img, w, h, h, s + y, x, ky, kx)
    decreases kx + KernelRadius
  {
    if kx != -KernelRadius {
      var local := RowsOf(img, w, h, s, num);
      var prev := RowSum(a, img, w, h, h, s + y, x, ky, kx - 1);
      RowSumShift(a, img, w, h, s, num, hb, y, x, ky, kx - 1);
      StepShift(prev, img, w, h, s, num, hb, y + ky, x + kx - 1);
      assert RowSum(a, local, w, num, hb, y, x, ky, kx) == Step(prev, local, w, num, hb, y + ky, x + kx - 1);
      assert RowSum(a, img, w, h, h, s + y, x, ky, kx) == Step(prev, img, w, h, h, s + y + ky, x + kx - 1);
    }
  }

  lemma {:induction false} WindowSumShift(img: seq<Color>, w: nat, h: nat, s: nat, num: nat, hb: int, y: int, x: int, ky: int)
    requires |img| == h * w && Aligned(h, s, num, hb, y)
    requires -KernelRadius <= ky <= KernelRadius + 1
    ensures WindowSum(RowsOf(img, w, h, s, num), w, num, hb, y, x, ky) == WindowSum(img, w, h, h, s + y, x, ky)
    decreases ky + KernelRadius
  {
    if ky != -KernelRadius {
      WindowSumShift(img, w, h, s, num, hb, y, x, ky - 1);
      RowSumShift(WindowSum(img, w, h, h, s + y, x, ky - 1), img, w, h, s, num, hb, y, x, ky - 1, KernelRadius + 1);
    }
  }

  /** Local row `y` of a slice starting at image row `s` blurs exactly like image row `s + y`. */
  lemma PixelShift(img: seq<Color>, w: nat, h: nat, s: nat, num: nat, hb: int, y: int, x: int)
    requires |img| == h * w && Aligned(h, s, num, hb, y) && 0 <= x < w
    ensures BlurredPixel(RowsOf(img, w, h, s, num), w, num, hb, y, x) == BlurredPixel(img, w, h, h, s + y, x)
  {
    WindowSumShift(img, w, h, s, num, hb, y, x, KernelRadius + 1);
  }

  // ---------------------------------------------------------------------------
  // Worker side

  /** What a worker sends back: local rows `1 .. num - 2`, written from output row 0. */
  function WorkerBlur(msg: seq<Color>, w: nat, h: nat, num: nat): (r: seq<Color>)
    requires |msg| == num * w && 2 * KernelRadius <= num <= h
    ensures |r| == (num - 2 * KernelRadius) * w
  {
    seq((num - 2 * KernelRadius) * w, k requires 0 <= k < (num - 2 * KernelRadius) * w => WorkerPixel(msg, w, h, num, k))
  }

  function WorkerPixel(msg: seq<Color>, w: nat, h: nat, num: nat, k: nat): Color
    requires |msg| == num * w && 2 * KernelRadius <= num <= h && k < (num - 2 * KernelRadius) * w
  {
    SplitIndex(w, num - 2 * KernelRadius, k);
    BlurredPixel(msg, w, num, h, k / w + 1, k % w)
  }

  lemma WorkerBlurAt(msg: seq<Color>, w: nat, h: nat, num: nat, y: nat, x: nat)
    requires |msg| == num * w && 2 * KernelRadius <= num <= h && 1 <= y && y + KernelRadius < num && x < w
    ensures Idx(w, y - 1, x) < (num - 2 * KernelRadius) * w
    ensures WorkerBlur(msg, w, h, num)[Idx(w, y - 1, x)] == BlurredPixel(msg, w, num, h, y, x)
  {
    IdxInBuffer(w, num - 2 * KernelRadius, y - 1, x);
    DivModIdx(w, y - 1, x);
  }

  /** The kernel at local row `y` of a worker's slice gives pixel (y - 1, x) of its reply. */
  method WorkerKernelPixel(src: array<Color>, w: nat, h: nat, num: nat, y: nat, x: nat) returns (c: Color)
    requires src.Length == num * w && 2 * KernelRadius <= num <= h && 1 <= y && y + KernelRadius < num && x < w
    ensures Idx(w, y - 1, x) < (num - 2 * KernelRadius) * w
    ensures c == WorkerBlur(src[..], w, h, num)[Idx(w, y - 1, x)]
  {
    c := KernelPixel(src, w, num, h, y, x);
    WorkerBlurAt(src[..], w, h, num, y, x);
  }

  /** The worker's nested loop: blur local rows `1 .. num - 2` of `src` into rows `0 .. num - 3` of `dst`. */
  method BlurInnerRows(src: array<Color>, w: nat, h: nat, num: nat, dst: array<Color>)
    requires src.Length == num * w && 2 * KernelRadius <= num <= h
    requires dst.Length == (num - 2 * KernelRadius) * w && src != dst
    modifies dst
    ensures dst[..] == WorkerBlur(src[..], w, h, num)
  {
    ghost var want := WorkerBlur(src[..], w, h, num);
    var effectiveRows := num - 2 * KernelRadius;
    for y := 1 to num - 1
      invariant Idx(w, y - 1, 0) <= effectiveRows * w
      invariant forall k :: 0 <= k < Idx(w, y - 1, 0) ==> dst[k] == want[k]
    {
      var row := y - 1;
      RowEnd(w, effectiveRows, row);
      for x := 0 to w
        invariant Idx(w, row, x) <= effectiveRows * w
        invariant forall k :: 0 <= k < Idx(w, row, x) ==> dst[k] == want[k]
      {
        var c := WorkerKernelPixel(src, w, h, num, y, x);
        dst[Idx(w, row, x)] := c;
      }
    }
  }

  /** Worker side: receive the widened slice, blur its inner rows, send them back. */
  method BlurWorker(msg: seq<Color>, w: nat, h: nat, rank: nat, n: nat) returns (reply: seq<Color>)
    requires 1 <= rank < n && BlurSafe(h, n)
    requires |msg| == SendRows(h, n, rank) * w
    ensures SendRows(h, n, rank) <= h && reply == WorkerBlur(msg, w, h, SendRows(h, n, rank))
  {
    var rowsPerWorker := h / n;
    var remainingRows := h % n;
    var startRow: int := rank * rowsPerWorker - KernelSize;
    var numRows: int := rowsPerWorker + KernelRadius * 2;
    if rank == n - 1 {
      numRows := numRows + remainingRows;
    }
    if startRow + numRows > h {
      numRows := h - startRow;
    }
    SendRange(h, n, rank);
    assert numRows == SendRows(h, n, rank);
    var effectiveRows := numRows - 2 * KernelRadius;
    var localImage := new Color[numRows * w];
    var localOutput := new Color[effectiveRows * w];
    Receive(localImage, 0, msg, numRows * w);
    assert localImage[..] == msg;
    BlurInnerRows(localImage, w, h, numRows, localOutput);
    reply := localOutput[..];
  }

  // ---------------------------------------------------------------------------
  // Coordinator side

  /** The rows the coordinator sends worker `i`. */
  function HaloSlice(img: seq<Color>, w: nat, h: nat, n: nat, i: nat): (m: seq<Color>)
    requires |img| == h * w && 1 <= i < n && BlurSafe(h, n)
    ensures |m| == SendRows(h, n, i) * w
  {
    SendRange(h, n, i);
    SliceInImage(h, n, i);
    RowsOf(img, w, h, SendStart(h, n, i), SendRows(h, n, i))
  }

  /** Sending worker `i`'s widened rows of the image sends exactly its halo slice. */
  lemma SendHalo(img: seq<Color>, w: nat, h: nat, n: nat, i: nat)
    requires |img| == h * w && 1 <= i < n && BlurSafe(h, n)
    ensures 0 <= SendStart(h, n, i)
    ensures SendStart(h, n, i) * w + SendRows(h, n, i) * w <= |img|
    ensures Send(img, SendStart(h, n, i) * w, SendRows(h, n, i) * w) == HaloSlice(img, w, h, n, i)
  {
    SendRange(h, n, i);
    var s, num := SendStart(h, n, i), SendRows(h, n, i);
    MulMonotone(s + num, h, w);
    Span(w, s, num);
  }

  /** Send every worker its widened slice; slot 0 (the coordinator) is left empty. */
  method SendHaloSlices(image: array<Color>, w: nat, h: nat, n: nat) returns (outbox: seq<seq<Color>>)
    requires n >= 1 && BlurSafe(h, n) && image.Length == h * w
    ensures |outbox| == n
    ensures forall i :: 1 <= i < n ==> outbox[i] == HaloSlice(image[..], w, h, n, i)
  {
    var rowsPerWorker := h / n;
    var remainingRows := h % n;
    outbox := [[]];
    for i := 1 to n
      invariant |outbox| == i
      invariant forall j :: 1 <= j < i ==> outbox[j] == HaloSlice(image[..], w, h, n, j)
    {
      var startRow: int := i * rowsPerWorker - KernelSize;
      var numRows: int := rowsPerWorker + KernelRadius * 2;
      if i == n - 1 {
        numRows := numRows + remainingRows;
      }
      if startRow + numRows > h {
        numRows := h - startRow;
      }
      CountsAgree(h, n, i);
      SendHalo(image[..], w, h, n, i);
      outbox := outbox + [Send(image[..], startRow * w, numRows * w)];
    }
  }

  /** The coordinator's kernel loop over rows `[0, rows)`, leaving the rest of `dst` as it was. */
  method BlurRowsInto(src: array<Color>, w: nat, h: nat, dst: array<Color>, rows: nat)
    requires src.Length == h * w && dst.Length == h * w && src != dst && rows <= h
    modifies dst
    ensures forall k :: 0 <= k < h * w ==>
      dst[k] == if k < rows * w then Blurred(src[..], w, h)[k] else old(dst[k])
  {
    ghost var want := Blurred(src[..], w, h);
    for y := 0 to rows
      invariant Idx(w, y, 0) <= h * w
      invariant forall k :: 0 <= k < h * w ==>
        dst[k] == if k < Idx(w, y, 0) then want[k] else old(dst[k])
    {
      RowEnd(w, h, y);
      for x := 0 to w
        invariant forall k :: 0 <= k < h * w ==>
          dst[k] == if k < Idx(w, y, x) then want[k] else old(dst[k])
      {
        var c := KernelPixel(src, w, h, h, y, x);
        BlurAt(src[..], w, h, y, x);
        dst[Idx(w, y, x)] := c;
      }
    }
  }

  /** The coordinator's rows of the assembled image are the single-process blur. */
  lemma TopRows(img: seq<Color>, w: nat, h: nat, n: nat)
    requires |img| == h * w && n >= 1 && BlurSafe(h, n)
    ensures RowsPerWorker(h, n) * w <= |img|
    ensures forall k :: 0 <= k < RowsPerWorker(h, n) * w ==> DistributedBlur(img, w, h, n)[k] == Blurred(img, w, h)[k]
  {
    SliceInImage(h, n, 0);
    MulMonotone(RowsPerWorker(h, n), h, w);
    forall k | 0 <= k < RowsPerWorker(h, n) * w
      ensures DistributedBlur(img, w, h, n)[k] == Blurred(img, w, h)[k]
    {
      SplitIndex(w, RowsPerWorker(h, n), k);
      DistributedAt(img, w, h, n, k / w, k % w);
    }
  }

  /** What worker `i` sends back is its slice of the assembled image. */
  lemma ReplyRows(img: seq<Color>, w: nat, h: nat, n: nat, i: nat)
    requires |img| == h * w && 1 <= i < n && BlurSafe(h, n)
    ensures SendRows(h, n, i) <= h && SliceStart(h, n, i) + SliceRows(h, n, i) <= h
    ensures WorkerBlur(HaloSlice(img, w, h, n, i), w, h, SendRows(h, n, i))
      == RowsOf(DistributedBlur(img, w, h, n), w, h, SliceStart(h, n, i), SliceRows(h, n, i))
  {
    HaloGeometry(h, n, i);
    var s, num := SendStart(h, n, i), SendRows(h, n, i);
    var start, rows := SliceStart(h, n, i), SliceRows(h, n, i);
    WorkerRows(img, w, h, s, num);
    ShiftedRows(img, w, h, n, start, rows);
  }

  /** Where worker `i`'s halo sits: its blurred rows start two rows above its slice and are as many. */
  lemma HaloGeometry(h: nat, n: nat, i: nat)
    requires 1 <= i < n && BlurSafe(h, n)
    ensures 0 <= SendStart(h, n, i) && SendStart(h, n, i) + SendRows(h, n, i) <= h
    ensures 2 * KernelRadius <= SendRows(h, n, i) <= h
    ensures SendStart(h, n, i) + 1 == SliceStart(h, n, i) - WorkerRowShift
    ensures SendRows(h, n, i) - 2 * KernelRadius == SliceRows(h, n, i)
    ensures RowsPerWorker(h, n) <= SliceStart(h, n, i) && SliceStart(h, n, i) + SliceRows(h, n, i) <= h
  {
    SendRange(h, n, i);
    CountsAgree(h, n, i);
    SliceInImage(h, n, i);
    MulMonotone(1, i, RowsPerWorker(h, n));
  }

  /** `ReplyRows` on the flat buffer: the reply is the pixels of worker `i`'s slice of the assembled image. */
  lemma ReplySlice(img: seq<Color>, w: nat, h: nat, n: nat, i: nat)
    requires |img| == h * w && 1 <= i < n && BlurSafe(h, n)
    ensures SendRows(h, n, i) <= h
    ensures 0 <= SliceStart(h, n, i) * w <= SliceStart(h, n, i) * w + SliceRows(h, n, i) * w <= h * w
    ensures WorkerBlur(HaloSlice(img, w, h, n, i), w, h, SendRows(h, n, i))
      == DistributedBlur(img, w, h, n)[SliceStart(h, n, i) * w..SliceStart(h, n, i) * w + SliceRows(h, n, i) * w]
  {
    var start, rows := SliceStart(h, n, i), SliceRows(h, n, i);
    ReplyRows(img, w, h, n, i);
    MulMonotone(0, start, w);
    RowsOfSlice(DistributedBlur(img, w, h, n), w, h, start, rows);
  }

  /**
   * A worker sent rows `[s, s + num)` of the image replies with rows
   * `[s + 1, s + num - 1)` of the single-process blur.
   */
  lemma WorkerRows(img: seq<Color>, w: nat, h: nat, s: nat, num: nat)
    requires |img| == h * w && s + num <= h && 2 * KernelRadius <= num
    ensures WorkerBlur(RowsOf(img, w, h, s, num), w, h, num) == RowsOf(Blurred(img, w, h), w, h, s + 1, num - 2 * KernelRadius)
  {
    var reply := WorkerBlur(RowsOf(img, w, h, s, num), w, h, num);
    var part := RowsOf(Blurred(img, w, h), w, h, s + 1, num - 2 * KernelRadius);
    forall j | 0 <= j < |part|
      ensures reply[j] == part[j]
    {
      SplitIndex(w, num - 2 * KernelRadius, j);
      WorkerRowsAt(img, w, h, s, num, j / w, j % w);
    }
  }

  lemma WorkerRowsAt(img: seq<Color>, w: nat, h: nat, s: nat, num: nat, yy: nat, x: nat)
    requires |img| == h * w && s + num <= h && 2 * KernelRadius <= num && yy < num - 2 * KernelRadius && x < w
    ensures Idx(w, yy, x) < (num - 2 * KernelRadius) * w
    ensures WorkerBlur(RowsOf(img, w, h, s, num), w, h, num)[Idx(w, yy, x)]
      == RowsOf(Blurred(img, w, h), w, h, s + 1, num - 2 * KernelRadius)[Idx(w, yy, x)]
  {
    WorkerShift(img, w, h, s, num, yy, x);
    RowsOfAt(Blurred(img, w, h), w, h, s + 1, num - 2 * KernelRadius, yy, x);
    BlurAt(img, w, h, s + 1 + yy, x);
  }

  /**
   * The worker's reply read back in image terms: output row `yy` of a worker
   * sent rows `[s, s + num)` is the whole-image blur window of row `s + yy + 1`.
   */
  lemma WorkerShift(img: seq<Color>, w: nat, h: nat, s: nat, num: nat, yy: nat, x: nat)
    requires |img| == h * w && s + num <= h && 2 * KernelRadius <= num && yy + 2 * KernelRadius < num && x < w
    ensures Idx(w, yy, x) < (num - 2 * KernelRadius) * w
    ensures WorkerBlur(RowsOf(img, w, h, s, num), w, h, num)[Idx(w, yy, x)] == BlurredPixel(img, w, h, h, s + yy + 1, x)
  {
    WorkerBlurAt(RowsOf(img, w, h, s, num), w, h, num, yy + 1, x);
    PixelShift(img, w, h, s, num, h, yy + 1, x);
  }

  /**
   * Worker rows `[start, start + rows)` of the assembled image, all below the
   * coordinator's rows, are rows `[start - 2, start + rows - 2)` of the
   * single-process blur.
   */
  lemma ShiftedRows(img: seq<Color>, w: nat, h: nat, n: nat, start: nat, rows: nat)
    requires |img| == h * w && n >= 2 && BlurSafe(h, n) && RowsPerWorker(h, n) <= start && start + rows <= h
    ensures WorkerRowShift <= start
    ensures RowsOf(DistributedBlur(img, w, h, n), w, h, start, rows)
      == RowsOf(Blurred(img, w, h), w, h, start - WorkerRowShift, rows)
  {
    var part := RowsOf(DistributedBlur(img, w, h, n), w, h, start, rows);
    var want := RowsOf(Blurred(img, w, h), w, h, start - WorkerRowShift, rows);
    forall j | 0 <= j < |part|
      ensures part[j] == want[j]
    {
      SplitIndex(w, rows, j);
      ShiftedRowsAt(img, w, h, n, start, rows, j / w, j % w);
    }
  }

  lemma ShiftedRowsAt(img: seq<Color>, w: nat, h: nat, n: nat, start: nat, rows: nat, yy: nat, x: nat)
    requires |img| == h * w && n >= 2 && BlurSafe(h, n) && RowsPerWorker(h, n) <= start && start + rows <= h
    requires yy < rows && x < w
    ensures WorkerRowShift <= start && Idx(w, yy, x) < rows * w
    ensures RowsOf(DistributedBlur(img, w, h, n), w, h, start, rows)[Idx(w, yy, x)]
      == RowsOf(Blurred(img, w, h), w, h, start - WorkerRowShift, rows)[Idx(w, yy, x)]
  {
    var src := start - WorkerRowShift;
    AssembledRowsAt(img, w, h, n, start, rows, yy, x);
    RowsOfAt(Blurred(img, w, h), w, h, src, rows, yy, x);
    BlurAt(img, w, h, src + yy, x);
  }

  lemma AssembledRowsAt(img: seq<Color>, w: nat, h: nat, n: nat, start: nat, rows: nat, yy: nat, x: nat)
    requires |img| == h * w && n >= 2 && BlurSafe(h, n) && RowsPerWorker(h, n) <= start && start + rows <= h
    requires yy < rows && x < w
    ensures WorkerRowShift <= start && Idx(w, yy, x) < rows * w
    ensures RowsOf(DistributedBlur(img, w, h, n), w, h, start, rows)[Idx(w, yy, x)]
      == BlurredPixel(img, w, h, h, start - WorkerRowShift + yy, x)
  {
    RowsOfAt(DistributedBlur(img, w, h, n), w, h, start, rows, yy, x);
    WorkerRowSource(h, n, start + yy);
    DistributedPixel(img, w, h, n, start + yy, x);
  }

  /** Below the coordinator's rows every assembled row comes from two rows up. */
  lemma WorkerRowSource(h: nat, n: nat, g: nat)
    requires n >= 2 && BlurSafe(h, n) && RowsPerWorker(h, n) <= g < h
    ensures SourceRow(h, n, g) == g - WorkerRowShift
  {
  }

  /**
   * One iteration of the coordinator's receive loop: receive worker `i`'s rows
   * into its slice of `output`, which extends the final prefix of `output` by
   * that slice and leaves the pixels after the slice as they were.
   */
  method ReceiveReply(image: array<Color>, w: nat, h: nat, n: nat, i: nat, msg: seq<Color>, output: array<Color>)
    requires 1 <= i < n && BlurSafe(h, n)
    requires image.Length == h * w && output.Length == h * w && image != output
    requires msg == HaloSlice(image[..], w, h, n, i)
    requires SliceStart(h, n, i) * w <= h * w
    requires output[..SliceStart(h, n, i) * w] == DistributedBlur(image[..], w, h, n)[..SliceStart(h, n, i) * w]
    modifies output
    ensures (SliceStart(h, n, i) + SliceRows(h, n, i)) * w <= h * w
    ensures output[..(SliceStart(h, n, i) + SliceRows(h, n, i)) * w]
      == DistributedBlur(image[..], w, h, n)[..(SliceStart(h, n, i) + SliceRows(h, n, i)) * w]
    ensures output[(SliceStart(h, n, i) + SliceRows(h, n, i)) * w..]
      == old(output[(SliceStart(h, n, i) + SliceRows(h, n, i)) * w..])
  {
    ghost var want := DistributedBlur(image[..], w, h, n);
    var rowsPerWorker := h / n;
    var remainingRows := h % n;
    var startRow := i * rowsPerWorker;
    var numRows: int := rowsPerWorker;
    if i == n - 1 {
      numRows := numRows + remainingRows;
    }
    if startRow + numRows > h {
      numRows := h - startRow;
    }
    ghost var start, rows := SliceStart(h, n, i), SliceRows(h, n, i);
    assert (SliceStart(h, n, i) + SliceRows(h, n, i)) * w <= h * w by {
      SliceInImage(h, n, i);
      MulMonotone(start + rows, h, w);
    }
    CountsAgree(h, n, i);
    assert startRow == start && numRows == rows by {
      assert numRows == ReceiveRows(h, n, i);
    }
    ReplySlice(image[..], w, h, n, i);
    var reply := BlurWorker(msg, w, h, i, n);
    assert reply == want[start * w..start * w + rows * w];
    ghost var before := output[..];
    Receive(output, startRow * w, reply, numRows * w);
    ReceivedPrefix(before, output[..], want, start * w, reply);
    Span(w, start, rows);
    assert start * w + |reply| == (start + rows) * w;
  }

  /**
   * The coordinator's receive loop: with its own rows already final, receive
   * every worker's rows into that worker's slice of `output`.
   */
  method GatherReplies(image: array<Color>, w: nat, h: nat, n: nat, outbox: seq<seq<Color>>, output: array<Color>)
    requires n >= 1 && BlurSafe(h, n)
    requires image.Length == h * w && output.Length == h * w && image != output
    requires |outbox| == n && forall i :: 1 <= i < n ==> outbox[i] == HaloSlice(image[..], w, h, n, i)
    requires RowsPerWorker(h, n) * w <= h * w
    requires output[..RowsPerWorker(h, n) * w] == DistributedBlur(image[..], w, h, n)[..RowsPerWorker(h, n) * w]
    modifies output
    ensures output[..] == DistributedBlur(image[..], w, h, n)
  {
    ghost var want := DistributedBlur(image[..], w, h, n);
    // The first `done` rows are final.
    ghost var done := RowsPerWorker(h, n);
    Contiguous(h, n, 0);
    for i := 1 to n
      invariant i < n ==> done == SliceStart(h, n, i)
      invariant i == n ==> done == h
      invariant done * w <= h * w
      invariant output[..done * w] == want[..done * w]
    {
      ReceiveReply(image, w, h, n, i, outbox[i], output);
      Contiguous(h, n, i);
      done := SliceStart(h, n, i) + SliceRows(h, n, i);
    }
    assert output[..] == output[..h * w];
  }

  /**
   * Coordinator side: send every worker its widened slice, blur rows
   * `[0, rows_per_worker)` itself, receive every worker's rows in place. The
   * result is the single-process blur on the coordinator's rows and the blur
   * two rows up on every worker row; the input image is only read.
   */
  method BlurMain(image: array<Color>, w: nat, h: nat, output: array<Color>, n: nat)
    requires n >= 1 && BlurSafe(h, n)
    requires image.Length == h * w && output.Length == h * w && image != output
    modifies output
    ensures output[..] == DistributedBlur(image[..], w, h, n)
  {
    var rowsPerWorker := h / n;
    var outbox := SendHaloSlices(image, w, h, n);
    // Blur the coordinator's own rows.
    SliceInImage(h, n, 0);
    BlurRowsInto(image, w, h, output, rowsPerWorker);
    TopRows(image[..], w, h, n);
    assert output[..rowsPerWorker * w] == DistributedBlur(image[..], w, h, n)[..rowsPerWorker * w];
    GatherReplies(image, w, h, n, outbox, output);
  }
}
