/**
 * The coordinator's send loop shared by the flip and the invert: worker `i`
 * gets a copy of its own slice of rows, and nothing more.
 */
module Exchange {
  import opened Pixels
  import opened Raster
  import opened Partition
  import opened Transport

  /** Rows `[s, s + num)` of an `h`-row image: the pixels one send transfers. */
  function RowsOf(img: seq<Color>, w: nat, h: nat, s: nat, num: nat): (m: seq<Color>)
    requires |img| == h * w && s + num <= h
    ensures |m| == num * w
    ensures forall j {:trigger m[j]} :: 0 <= j < |m| ==> s * w + j < |img| && m[j] == img[s * w + j]
  {
    MulMonotone(s + num, h, w);
    Span(w, s, num);
    img[s * w..(s + num) * w]
  }

  /** Pixel (y, x) of rows `[s, s + num)` is pixel (s + y, x) of the image. */
  lemma RowsOfAt(img: seq<Color>, w: nat, h: nat, s: nat, num: nat, y: nat, x: nat)
    requires |img| == h * w && s + num <= h && y < num && x < w
    ensures Idx(w, y, x) < num * w && Idx(w, s + y, x) < |img|
    ensures RowsOf(img, w, h, s, num)[Idx(w, y, x)] == img[Idx(w, s + y, x)]
  {
    IdxInBuffer(w, num, y, x);
    IdxShift(w, s, y, x);
  }

  /** `RowsOf` is the slice of the flat buffer between the first and the last sent pixel. */
  lemma RowsOfSlice(img: seq<Color>, w: nat, h: nat, s: nat, num: nat)
    requires |img| == h * w && s + num <= h
    ensures s * w + num * w <= |img|
    ensures RowsOf(img, w, h, s, num) == img[s * w..s * w + num * w]
  {
    MulMonotone(s + num, h, w);
    Span(w, s, num);
  }

  /** The pixels of participant `p`'s slice of an `h`-row image. */
  function SliceOf(img: seq<Color>, w: nat, h: nat, n: nat, p: nat): (s: seq<Color>)
    requires |img| == h * w && p < n
    ensures |s| == SliceRows(h, n, p) * w
    ensures forall j {:trigger s[j]} :: 0 <= j < |s| ==>
      SliceStart(h, n, p) * w + j < |img| && s[j] == img[SliceStart(h, n, p) * w + j]
  {
    SliceInImage(h, n, p);
    RowsOf(img, w, h, SliceStart(h, n, p), SliceRows(h, n, p))
  }

  /** Sending participant `p`'s rows of the image sends exactly its slice. */
  lemma SendSlice(img: seq<Color>, w: nat, h: nat, n: nat, p: nat)
    requires |img| == h * w && p < n
    ensures SliceStart(h, n, p) * w + SliceRows(h, n, p) * w <= |img|
    ensures Send(img, SliceStart(h, n, p) * w, SliceRows(h, n, p) * w) == SliceOf(img, w, h, n, p)
  {
    var start, rows := SliceStart(h, n, p), SliceRows(h, n, p);
    SliceInImage(h, n, p);
    MulMonotone(start + rows, h, w);
    Span(w, start, rows);
  }

  /** Send every worker its slice; slot 0 (the coordinator) is left empty. */
  method SendSlices(image: array<Color>, w: nat, h: nat, n: nat) returns (outbox: seq<seq<Color>>)
    requires n >= 1 && image.Length == h * w
    ensures |outbox| == n
    ensures forall i :: 1 <= i < n ==> outbox[i] == SliceOf(image[..], w, h, n, i)
  {
    var rowsPerWorker := h / n;
    var remainingRows := h % n;
    outbox := [[]];
    for i := 1 to n
      invariant |outbox| == i
      invariant forall j :: 1 <= j < i ==> outbox[j] == SliceOf(image[..], w, h, n, j)
    {
      var startRow := i * rowsPerWorker;
      var numRows := if i == n - 1 then rowsPerWorker + remainingRows else rowsPerWorker;
      SendSlice(image[..], w, h, n, i);
      outbox := outbox + [Send(image[..], startRow * w, numRows * w)];
    }
  }
}
