/**
 * Colour inversion: every pixel becomes `(255 - r, 255 - g, 255 - b, a)`.
 * Distributed exactly like the flip: same slices, same send and receive counts.
 */
module Invert {
  import opened Pixels
  import opened Raster
  import opened Partition
  import opened Transport
  import opened Exchange

  /** The whole-image inversion. */
  function Inverted(img: seq<Color>): (r: seq<Color>)
    ensures |r| == |img|
    ensures forall k :: 0 <= k < |r| ==>
      r[k].a == img[k].a && forall ch :: ChannelOf(r[k], ch) == 255 - ChannelOf(img[k], ch)
  {
    seq(|img|, k requires 0 <= k < |img| => InvertPixel(img[k]))
  }

  /** Inverting twice restores the image; alpha is never touched. */
  lemma InvertTwice(img: seq<Color>)
    ensures Inverted(Inverted(img)) == img
  {
    forall k | 0 <= k < |img|
      ensures Inverted(Inverted(img))[k] == img[k]
    {
      InvertPixelTwice(img[k]);
    }
  }

  /** A solid image inverts to the solid image of the inverted colour. */
  lemma InvertSolid(img: seq<Color>, c: Color)
    requires forall k :: 0 <= k < |img| ==> img[k] == c
    ensures forall k :: 0 <= k < |img| ==> Inverted(img)[k] == InvertPixel(c)
  {
  }

  /** A 4x4 solid red image becomes solid cyan. */
  lemma RedBecomesCyan(img: seq<Color>)
    requires |img| == 4 * 4
    requires forall k :: 0 <= k < |img| ==> img[k] == Color(255, 0, 0, 255)
    ensures Inverted(img) == seq(4 * 4, _ => Color(0, 255, 255, 255))
  {
    InvertSolid(img, Color(255, 0, 0, 255));
  }

  /** Inverting a run of pixels alone gives that run of the whole-image inversion. */
  lemma InvertRange(img: seq<Color>, lo: nat, hi: nat)
    requires lo <= hi <= |img|
    ensures Inverted(img[lo..hi]) == Inverted(img)[lo..hi]
  {
  }

  /**
   * The nested row/column loop of both entry points: invert rows `[0, rows)` of
   * `src` into `dst`, leaving the rest of `dst` as it was.
   */
  method InvertRowsInto(src: array<Color>, w: nat, h: nat, dst: array<Color>, rows: nat)
    requires src.Length == h * w && dst.Length == h * w && src != dst && rows <= h
    modifies dst
    ensures forall k :: 0 <= k < h * w ==>
      dst[k] == if k < rows * w then Inverted(src[..])[k] else old(dst[k])
  {
    ghost var want := Inverted(src[..]);
    for y := 0 to rows
      invariant Idx(w, y, 0) <= h * w
      invariant forall k :: 0 <= k < h * w ==>
        dst[k] == if k < Idx(w, y, 0) then want[k] else old(dst[k])
    {
      RowEnd(w, h, y);
      for x := 0 to w
        invariant forall k :: 0 <= k < h * w ==>
          dst[k] == if k < Idx(w, y, x) then want[k] else old(dst[k])
      {
        var p := src[Idx(w, y, x)];
        dst[Idx(w, y, x)] := Color(255 - p.r, 255 - p.g, 255 - p.b, p.a);
      }
    }
  }

  /** Worker side: receive a slice, invert every pixel of it, send it back. */
  method InvertWorker(msg: seq<Color>, w: nat, h: nat, rank: nat, n: nat) returns (reply: seq<Color>)
    requires 1 <= rank < n
    requires |msg| == SliceRows(h, n, rank) * w
    ensures reply == Inverted(msg)
  {
    var rowsPerWorker := h / n;
    var remainingRows := h % n;
    var numRows := if rank == n - 1 then rowsPerWorker + remainingRows else rowsPerWorker;
    var localImage := new Color[numRows * w];
    var localOutput := new Color[numRows * w];
    Receive(localImage, 0, msg, numRows * w);
    assert localImage[..] == msg;
    InvertRowsInto(localImage, w, numRows, localOutput, numRows);
    reply := localOutput[..];
  }

  /**
   * One iteration of the coordinator's receive loop: receive worker `i`'s rows
   * into its slice of `output`, which extends the final prefix of `output` by
   * that slice and leaves the pixels after the slice as they were.
   */
  method ReceiveInverted(image: array<Color>, w: nat, h: nat, n: nat, i: nat, msg: seq<Color>, output: array<Color>)
    requires 1 <= i < n
    requires image.Length == h * w && output.Length == h * w && image != output
    requires msg == SliceOf(image[..], w, h, n, i)
    requires SliceStart(h, n, i) * w <= h * w
    requires output[..SliceStart(h, n, i) * w] == Inverted(image[..])[..SliceStart(h, n, i) * w]
    modifies output
    ensures (SliceStart(h, n, i) + SliceRows(h, n, i)) * w <= h * w
    ensures output[..(SliceStart(h, n, i) + SliceRows(h, n, i)) * w]
      == Inverted(image[..])[..(SliceStart(h, n, i) + SliceRows(h, n, i)) * w]
    ensures output[(SliceStart(h, n, i) + SliceRows(h, n, i)) * w..]
      == old(output[(SliceStart(h, n, i) + SliceRows(h, n, i)) * w..])
  {
    ghost var img := image[..];
    ghost var want := Inverted(image[..]);
    var rowsPerWorker := h / n;
    var remainingRows := h % n;
    var startRow := i * rowsPerWorker;
    var numRows := if i == n - 1 then rowsPerWorker + remainingRows else rowsPerWorker;
    SliceInImage(h, n, i);
    MulMonotone(startRow + numRows, h, w);
    Span(w, startRow, numRows);
    InvertRange(img, startRow * w, (startRow + numRows) * w);
    var reply := InvertWorker(msg, w, h, i, n);
    assert msg == img[startRow * w..(startRow + numRows) * w];
    assert reply == want[startRow * w..startRow * w + numRows * w];
    ghost var before := output[..];
    Receive(output, startRow * w, reply, numRows * w);
    ReceivedPrefix(before, output[..], want, startRow * w, reply);
  }

  /**
   * Coordinator side: send every worker its slice, invert rows
   * `[0, rows_per_worker)` itself, receive every worker's result in place.
   * The input image is only read.
   */
  method InvertMain(image: array<Color>, w: nat, h: nat, output: array<Color>, n: nat)
    requires n >= 1
    requires image.Length == h * w && output.Length == h * w && image != output
    modifies output
    ensures output[..] == Inverted(image[..])
  {
    var rowsPerWorker := h / n;
    var outbox := SendSlices(image, w, h, n);

    // Invert the coordinator's own rows.
    SliceInImage(h, n, 0);
    InvertRowsInto(image, w, h, output, rowsPerWorker);

    // Receive every worker's rows.
    MulMonotone(rowsPerWorker, h, w);
    assert output[..rowsPerWorker * w] == Inverted(image[..])[..rowsPerWorker * w];
    GatherInverted(image, w, h, n, outbox, output);
  }

  /**
   * The coordinator's receive loop: with its own rows already final, receive
   * every worker's rows into that worker's slice of `output`.
   */
  method GatherInverted(image: array<Color>, w: nat, h: nat, n: nat, outbox: seq<seq<Color>>, output: array<Color>)
    requires n >= 1
    requires image.Length == h * w && output.Length == h * w && image != output
    requires |outbox| == n && forall i :: 1 <= i < n ==> outbox[i] == SliceOf(image[..], w, h, n, i)
    requires RowsPerWorker(h, n) * w <= h * w
    requires output[..RowsPerWorker(h, n) * w] == Inverted(image[..])[..RowsPerWorker(h, n) * w]
    modifies output
    ensures output[..] == Inverted(image[..])
  {
    ghost var want := Inverted(image[..]);
    // The first `filled` pixels are final.
    ghost var filled := RowsPerWorker(h, n) * w;
    Contiguous(h, n, 0);
    for i := 1 to n
      invariant i < n ==> filled == SliceStart(h, n, i) * w
      invariant i == n ==> filled == h * w
      invariant filled <= h * w
      invariant output[..filled] == want[..filled]
    {
      ReceiveInverted(image, w, h, n, i, outbox[i], output);
      Contiguous(h, n, i);
      filled := (SliceStart(h, n, i) + SliceRows(h, n, i)) * w;
    }
    assert output[..] == output[..h * w];
  }
}
