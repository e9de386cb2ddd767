/**
 * Horizontal flip: every row is mirrored, `output[y][x] = image[y][width - 1 - x]`.
 * The coordinator sends each worker its slice of rows, mirrors its own rows,
 * then receives each worker's mirrored slice into the same rows of the output.
 */
module Hflip {
  import opened Pixels
  import opened Raster
  import opened Partition
  import opened Transport
  import opened Exchange

  /** The whole-image flip of an `h`-row, `w`-column image. */
  function Flipped(img: seq<Color>, w: nat, h: nat): (r: seq<Color>)
    requires |img| == h * w
    ensures |r| == |img|
  {
    seq(h * w, k requires 0 <= k < h * w => MirroredPixel(img, w, h, k))
  }

  /** Pixel `k` of the flipped image: the same row, the mirrored column. */
  function MirroredPixel(img: seq<Color>, w: nat, h: nat, k: nat): Color
    requires |img| == h * w && k < h * w
  {
    SplitIndex(w, h, k);
    IdxInBuffer(w, h, k / w, w - 1 - k % w);
    img[Idx(w, k / w, w - 1 - k % w)]
  }

  /** Pixel (y, x) of the flip is pixel (y, width - 1 - x) of the input, a column inside the row. */
  lemma FlipAt(img: seq<Color>, w: nat, h: nat, y: nat, x: nat)
    requires |img| == h * w && y < h && x < w
    ensures Idx(w, y, x) < |img| && Idx(w, y, w - 1 - x) < |img|
    ensures 0 <= w - 1 - x < w
    ensures Flipped(img, w, h)[Idx(w, y, x)] == img[Idx(w, y, w - 1 - x)]
  {
    IdxInBuffer(w, h, y, x);
    IdxInBuffer(w, h, y, w - 1 - x);
    DivModIdx(w, y, x);
  }

  /** Flipping twice restores the image. */
  lemma FlipTwice(img: seq<Color>, w: nat, h: nat)
    requires |img| == h * w
    ensures Flipped(Flipped(img, w, h), w, h) == img
  {
    var once := Flipped(img, w, h);
    forall k | 0 <= k < |img|
      ensures Flipped(once, w, h)[k] == img[k]
    {
      SplitIndex(w, h, k);
      var y, x := k / w, k % w;
      FlipAt(once, w, h, y, x);
      FlipAt(img, w, h, y, w - 1 - x);
    }
  }

  /** Flipping the rows `[a, b)` alone gives rows `[a, b)` of the whole-image flip. */
  lemma FlipRows(img: seq<Color>, w: nat, h: nat, a: nat, b: nat)
    requires |img| == h * w && a <= b <= h
    ensures a * w <= b * w <= |img| && |img[a * w..b * w]| == (b - a) * w
    ensures Flipped(img[a * w..b * w], w, b - a) == Flipped(img, w, h)[a * w..b * w]
  {
    MulMonotone(a, b, w);
    MulMonotone(b, h, w);
    var part := img[a * w..b * w];
    assert |part| == (b - a) * w;
    var whole, flippedPart := Flipped(img, w, h), Flipped(part, w, b - a);
    forall k | 0 <= k < |part|
      ensures flippedPart[k] == whole[a * w + k]
    {
      SplitIndex(w, b - a, k);
      var y, x := k / w, k % w;
      FlipAt(part, w, b - a, y, x);
      FlipAt(img, w, h, a + y, x);
      IdxShift(w, a, y, x);
      IdxShift(w, a, y, w - 1 - x);
    }
  }

  /**
   * The nested row/column loop of both entry points: mirror rows `[0, rows)` of
   * `src` into `dst`, leaving the rest of `dst` as it was.
   */
  method MirrorRows(src: array<Color>, w: nat, h: nat, dst: array<Color>, rows: nat)
    requires src.Length == h * w && dst.Length == h * w && src != dst && rows <= h
    modifies dst
    ensures forall k :: 0 <= k < h * w ==>
      dst[k] == if k < rows * w then Flipped(src[..], w, h)[k] else old(dst[k])
  {
    ghost var want := Flipped(src[..], w, h);
    for y := 0 to rows
      invariant Idx(w, y, 0) <= h * w
      invariant forall k :: 0 <= k < h * w ==>
        dst[k] == if k < Idx(w, y, 0) then want[k] else old(dst[k])
    {
      RowEnd(w, h, y);
      for x := 0 to w
        invariant forall k :: 0 <= k < h * w ==>
          dst[k] == if k < Idx(w, y, x) then want[k] else old(dst[k])
      {
        FlipAt(src[..], w, h, y, x);
        dst[Idx(w, y, x)] := src[Idx(w, y, w - x - 1)];
      }
    }
  }

  /** Worker side: receive a slice, mirror every row of it, send it back. */
  method HflipWorker(msg: seq<Color>, w: nat, h: nat, rank: nat, n: nat) returns (reply: seq<Color>)
    requires 1 <= rank < n
    requires |msg| == SliceRows(h, n, rank) * w
    ensures reply == Flipped(msg, w, SliceRows(h, n, rank))
  {
    var rowsPerWorker := h / n;
    var remainingRows := h % n;
    var numRows := if rank == n - 1 then rowsPerWorker + remainingRows else rowsPerWorker;
    var localImage := new Color[numRows * w];
    var localOutput := new Color[numRows * w];
    Receive(localImage, 0, msg, numRows * w);
    assert localImage[..] == msg;
    MirrorRows(localImage, w, numRows, localOutput, numRows);
    reply := localOutput[..];
  }

  /**
   * One iteration of the coordinator's receive loop: receive worker `i`'s rows
   * into its slice of `output`, which extends the final prefix of `output` by
   * that slice and leaves the pixels after the slice as they were.
   */
  method ReceiveFlipped(image: array<Color>, w: nat, h: nat, n: nat, i: nat, msg: seq<Color>, output: array<Color>)
    requires 1 <= i < n
    requires image.Length == h * w && output.Length == h * w && image != output
    requires msg == SliceOf(image[..], w, h, n, i)
    requires SliceStart(h, n, i) * w <= h * w
    requires output[..SliceStart(h, n, i) * w] == Flipped(image[..], w, h)[..SliceStart(h, n, i) * w]
    modifies output
    ensures (SliceStart(h, n, i) + SliceRows(h, n, i)) * w <= h * w
    ensures output[..(SliceStart(h, n, i) + SliceRows(h, n, i)) * w]
      == Flipped(image[..], w, h)[..(SliceStart(h, n, i) + SliceRows(h, n, i)) * w]
    ensures output[(SliceStart(h, n, i) + SliceRows(h, n, i)) * w..]
      == old(output[(SliceStart(h, n, i) + SliceRows(h, n, i)) * w..])
  {
    ghost var img := image[..];
    ghost var want := Flipped(image[..], w, h);
    var rowsPerWorker := h / n;
    var remainingRows := h % n;
    var startRow := i * rowsPerWorker;
    var numRows := if i == n - 1 then rowsPerWorker + remainingRows else rowsPerWorker;
    SliceInImage(h, n, i);
    MulMonotone(startRow + numRows, h, w);
    Span(w, startRow, numRows);
    FlipRows(img, w, h, startRow, startRow + numRows);
    var reply := HflipWorker(msg, w, h, i, n);
    assert msg == img[startRow * w..(startRow + numRows) * w];
    assert reply == want[startRow * w..startRow * w + numRows * w];
    ghost var before := output[..];
    Receive(output, startRow * w, reply, numRows * w);
    ReceivedPrefix(before, output[..], want, startRow * w, reply);
  }

  /**
   * Coordinator side: send every worker its slice, mirror rows
   * `[0, rows_per_worker)` itself, receive every worker's result in place.
   * The input image is only read.
   */
  method HflipMain(image: array<Color>, w: nat, h: nat, output: array<Color>, n: nat)
    requires n >= 1
    requires image.Length == h * w && output.Length == h * w && image != output
    modifies output
    ensures output[..] == Flipped(image[..], w, h)
  {
    var rowsPerWorker := h / n;
    var outbox := SendSlices(image, w, h, n);

    // Mirror the coordinator's own rows.
    SliceInImage(h, n, 0);
    MirrorRows(image, w, h, output, rowsPerWorker);

    // Receive every worker's rows.
    MulMonotone(rowsPerWorker, h, w);
    assert output[..rowsPerWorker * w] == Flipped(image[..], w, h)[..rowsPerWorker * w];
    GatherFlipped(image, w, h, n, outbox, output);
  }

  /**
   * The coordinator's receive loop: with its own rows already final, receive
   * every worker's rows into that worker's slice of `output`.
   */
  method GatherFlipped(image: array<Color>, w: nat, h: nat, n: nat, outbox: seq<seq<Color>>, output: array<Color>)
    requires n >= 1
    requires image.Length == h * w && output.Length == h * w && image != output
    requires |outbox| == n && forall i :: 1 <= i < n ==> outbox[i] == SliceOf(image[..], w, h, n, i)
    requires RowsPerWorker(h, n) * w <= h * w
    requires output[..RowsPerWorker(h, n) * w] == Flipped(image[..], w, h)[..RowsPerWorker(h, n) * w]
    modifies output
    ensures output[..] == Flipped(image[..], w, h)
  {
    ghost var want := Flipped(image[..], w, h);
    // The first `filled` pixels are final.
    ghost var filled := RowsPerWorker(h, n) * w;
    Contiguous(h, n, 0);
    for i := 1 to n
      invariant i < n ==> filled == SliceStart(h, n, i) * w
      invariant i == n ==> filled == h * w
      invariant filled <= h * w
      invariant output[..filled] == want[..filled]
    {
      ReceiveFlipped(image, w, h, n, i, outbox[i], output);
      Contiguous(h, n, i);
      filled := (SliceStart(h, n, i) + SliceRows(h, n, i)) * w;
    }
    assert output[..] == output[..h * w];
  }
}
