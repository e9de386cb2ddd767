/**
 * The 3x3 box-blur kernel. For pixel (y, x) the kernel loop visits the
 * offsets (ky, kx) in [-radius, radius]^2, row by row, and adds the pixel at
 * (y + ky, x + kx) to the running sums when that position passes the bounds
 * test; the result is each colour sum divided by the number of pixels added,
 * with alpha forced to 255.
 *
 * The same loop runs over the coordinator's whole image and over a worker's
 * local slice, so the buffer read (`buf`, holding `rows` rows) and the row
 * bound the test uses (`hb`, always the image height in the program) are
 * separate parameters.
 */
module BoxBlur {
  import opened Pixels
  import opened Raster

  const KernelSize: int := 3
  const KernelRadius: int := KernelSize / 2

  /** The running sums of the kernel loop: three colour sums and the number of pixels added. */
  datatype Acc = Acc(r: nat, g: nat, b: nat, count: nat)

  function SumOf(a: Acc, ch: Channel): nat
  {
    match ch
    case R => a.r
    case G => a.g
    case B => a.b
  }

  /** The bounds test of the kernel loop. */
  predicate Counted(w: nat, hb: int, ny: int, nx: int)
  {
    0 <= ny < hb && 0 <= nx < w
  }

  /**
   * Every position the test lets through for centre row `y` lies inside `buf`:
   * either the test bound is within the buffer, or the window is.
   */
  predicate Readable(buf: seq<Color>, w: nat, rows: nat, hb: int, y: int)
  {
    |buf| == rows * w && (hb <= rows || y + KernelRadius < rows)
  }

  /** One iteration of the inner kernel loop at neighbour (ny, nx). */
  function Step(a: Acc, buf: seq<Color>, w: nat, rows: nat, hb: int, ny: int, nx: int): Acc
    requires |buf| == rows * w && (Counted(w, hb, ny, nx) ==> ny < rows)
  {
    if Counted(w, hb, ny, nx) then
      IdxInBuffer(w, rows, ny, nx);
      var p := buf[Idx(w, ny, nx)];
      Acc(a.r + p.r, a.g + p.g, a.b + p.b, a.count + 1)
    else
      a
  }

  /** The inner kernel loop, from `a`, after columns `x - radius .. x + kx - 1` of row `y + ky`. */
  function RowSum(a: Acc, buf: seq<Color>, w: nat, rows: nat, hb: int, y: int, x: int, ky: int, kx: int): Acc
    requires Readable(buf, w, rows, hb, y)
    requires -KernelRadius <= ky <= KernelRadius && -KernelRadius <= kx <= KernelRadius + 1
    decreases kx + KernelRadius
  {
    if kx == -KernelRadius then a
    else Step(RowSum(a, buf, w, rows, hb, y, x, ky, kx - 1), buf, w, rows, hb, y + ky, x + kx - 1)
  }

  /** The outer kernel loop, after the rows `y - radius .. y + ky - 1` of the window. */
  function WindowSum(buf: seq<Color>, w: nat, rows: nat, hb: int, y: int, x: int, ky: int): Acc
    requires Readable(buf, w, rows, hb, y)
    requires -KernelRadius <= ky <= KernelRadius + 1
    decreases ky + KernelRadius
  {
    if ky == -KernelRadius then Acc(0, 0, 0, 0)
    else RowSum(WindowSum(buf, w, rows, hb, y, x, ky - 1), buf, w, rows, hb, y, x, ky - 1, KernelRadius + 1)
  }

  /** The sums over the whole window of (y, x). */
  function Window(buf: seq<Color>, w: nat, rows: nat, hb: int, y: int, x: int): Acc
    requires Readable(buf, w, rows, hb, y)
  {
    WindowSum(buf, w, rows, hb, y, x, KernelRadius + 1)
  }

  // ---------------------------------------------------------------------------
  // How many positions the test lets through

  /** The number of offsets `d` in `[-radius, k)` with `0 <= c + d < bound`. */
  function InRange(c: int, bound: int, k: int): nat
    requires -KernelRadius <= k <= KernelRadius + 1
    decreases k + KernelRadius
  {
    if k == -KernelRadius then 0
    else InRange(c, bound, k - 1) + (if 0 <= c + k - 1 < bound then 1 else 0)
  }

  /** A row of the kernel loop adds one pixel per column that passes the test. */
  lemma {:induction false} RowSumCount(a: Acc, buf: seq<Color>, w: nat, rows: nat, hb: int, y: int, x: int, ky: int, kx: int)
    requires Readable(buf, w, rows, hb, y)
    requires -KernelRadius <= ky <= KernelRadius && -KernelRadius <= kx <= KernelRadius + 1
    ensures RowSum(a, buf, w, rows, hb, y, x, ky, kx).count
      == a.count + (if 0 <= y + ky < hb then InRange(x, w, kx) else 0)
    decreases kx + KernelRadius
  {
    if kx != -KernelRadius {
      RowSumCount(a, buf, w, rows, hb, y, x, ky, kx - 1);
    }
  }

  /** The window adds (rows that pass) x (columns that pass) pixels. */
  lemma {:induction false} WindowSumCount(buf: seq<Color>, w: nat, rows: nat, hb: int, y: int, x: int, ky: int)
    requires Readable(buf, w, rows, hb, y)
    requires -KernelRadius <= ky <= KernelRadius + 1
    ensures WindowSum(buf, w, rows, hb, y, x, ky).count == InRange(y, hb, ky) * InRange(x, w, KernelRadius + 1)
    decreases ky + KernelRadius
  {
    if ky == -KernelRadius {
      assert InRange(y, hb, ky) == 0;
    } else {
      var before := WindowSum(buf, w, rows, hb, y, x, ky - 1);
      WindowSumCount(buf, w, rows, hb, y, x, ky - 1);
      RowSumCount(before, buf, w, rows, hb, y, x, ky - 1, KernelRadius + 1);
      var added := if 0 <= y + ky - 1 < hb then 1 else 0;
      assert InRange(y, hb, ky) == InRange(y, hb, ky - 1) + added;
      AddRow(InRange(y, hb, ky - 1), added, InRange(x, w, KernelRadius + 1));
    }
  }

  /** One more row of `cols` counted positions. */
  lemma AddRow(above: nat, added: nat, cols: nat)
    requires added <= 1
    ensures (above + added) * cols == above * cols + (if added == 1 then cols else 0)
  {
  }

  /** With radius 1: a position has 2 in-range neighbours-or-self along an edge, 3 inside, 1 when the bound is 1. */
  lemma InRangeAround(c: int, bound: int)
    requires 0 <= c < bound
    ensures InRange(c, bound, KernelRadius + 1)
      == (if bound == 1 then 1 else if c == 0 || c == bound - 1 then 2 else 3)
  {
    assert InRange(c, bound, -1) == 0;
    assert InRange(c, bound, 0) == (if c >= 1 then 1 else 0);
    assert InRange(c, bound, 1) == InRange(c, bound, 0) + 1;
  }

  /** A pixel inside the image is always counted at least once (its own position). */
  lemma WindowCounted(buf: seq<Color>, w: nat, rows: nat, hb: int, y: int, x: int)
    requires Readable(buf, w, rows, hb, y) && 0 <= y < hb && 0 <= x < w
    ensures Window(buf, w, rows, hb, y, x).count >= 1
  {
    WindowSumCount(buf, w, rows, hb, y, x, KernelRadius + 1);
    InRangeAround(y, hb);
    InRangeAround(x, w);
    MulMonotone(1, InRange(y, hb, KernelRadius + 1), InRange(x, w, KernelRadius + 1));
  }

  // ---------------------------------------------------------------------------
  // The sums stay between the extremes of the pixels added

  /** `lo` and `hi` bound channel `ch` of every pixel the window of (y, x) adds. */
  ghost predicate WindowWithin(buf: seq<Color>, w: nat, rows: nat, hb: int, y: int, x: int, ch: Channel, lo: int, hi: int)
    requires Readable(buf, w, rows, hb, y)
  {
    forall ny, nx :: y - KernelRadius <= ny <= y + KernelRadius && x - KernelRadius <= nx <= x + KernelRadius ==>
      PixelWithin(buf, w, rows, hb, ny, nx, ch, lo, hi)
  }

  predicate PixelWithin(buf: seq<Color>, w: nat, rows: nat, hb: int, ny: int, nx: int, ch: Channel, lo: int, hi: int)
    requires |buf| == rows * w && (Counted(w, hb, ny, nx) ==> ny < rows)
  {
    Counted(w, hb, ny, nx) ==>
      (IdxInBuffer(w, rows, ny, nx);
       lo <= ChannelOf(buf[Idx(w, ny, nx)], ch) <= hi)
  }

  /** The average of the pixels added so far would lie in [lo, hi]. */
  predicate Between(a: Acc, ch: Channel, lo: int, hi: int)
  {
    lo * a.count <= SumOf(a, ch) <= hi * a.count
  }

  lemma StepBetween(a: Acc, buf: seq<Color>, w: nat, rows: nat, hb: int, ny: int, nx: int, ch: Channel, lo: int, hi: int)
    requires |buf| == rows * w && (Counted(w, hb, ny, nx) ==> ny < rows)
    requires Between(a, ch, lo, hi) && PixelWithin(buf, w, rows, hb, ny, nx, ch, lo, hi)
    ensures Between(Step(a, buf, w, rows, hb, ny, nx), ch, lo, hi)
  {
    assert lo * (a.count + 1) == lo * a.count + lo;
    assert hi * (a.count + 1) == hi * a.count + hi;
  }

  lemma {:induction false} RowSumBetween(a: Acc, buf: seq<Color>, w: nat, rows: nat, hb: int, y: int, x: int, ky: int, kx: int,
                                         ch: Channel, lo: int, hi: int)
    requires Readable(buf, w, rows, hb, y)
    requires -KernelRadius <= ky <= KernelRadius && -KernelRadius <= kx <= KernelRadius + 1
    requires Between(a, ch, lo, hi) && WindowWithin(buf, w, rows, hb, y, x, ch, lo, hi)
    ensures Between(RowSum(a, buf, w, rows, hb, y, x, ky, kx), ch, lo, hi)
    decreases kx + KernelRadius
  {
    if kx != -KernelRadius {
      RowSumBetween(a, buf, w, rows, hb, y, x, ky, kx - 1, ch, lo, hi);
      assert PixelWithin(buf, w, rows, hb, y + ky, x + kx - 1, ch, lo, hi);
      StepBetween(RowSum(a, buf, w, rows, hb, y, x, ky, kx - 1), buf, w, rows, hb, y + ky, x + kx - 1, ch, lo, hi);
    }
  }

  lemma {:induction false} WindowSumBetween(buf: seq<Color>, w: nat, rows: nat, hb: int, y: int, x: int, ky: int,
                                            ch: Channel, lo: int, hi: int)
    requires Readable(buf, w, rows, hb, y)
    requires -KernelRadius <= ky <= KernelRadius + 1
    requires WindowWithin(buf, w, rows, hb, y, x, ch, lo, hi)
    ensures Between(WindowSum(buf, w, rows, hb, y, x, ky), ch, lo, hi)
    decreases ky + KernelRadius
  {
    if ky != -KernelRadius {
      WindowSumBetween(buf, w, rows, hb, y, x, ky - 1, ch, lo, hi);
      RowSumBetween(WindowSum(buf, w, rows, hb, y, x, ky - 1), buf, w, rows, hb, y, x, ky - 1, KernelRadius + 1, ch, lo, hi);
    }
  }

  /** Truncating division of a sum between lo*count and hi*count lands in [lo, hi]. */
  lemma DivBetween(s: nat, count: nat, lo: int, hi: int)
    requires count >= 1 && lo * count <= s <= hi * count
    ensures lo <= s / count <= hi
  {
    var q := s / count;
    assert s == q * count + s % count;
    RowStep(q, lo, count);
    RowStep(hi, q, count);
  }

  // ---------------------------------------------------------------------------
  // The blurred pixel and the blurred image

  /** Every channel average of an in-image pixel's window is a byte. */
  lemma WindowAverages(buf: seq<Color>, w: nat, rows: nat, hb: int, y: int, x: int)
    requires Readable(buf, w, rows, hb, y) && 0 <= y < hb && 0 <= x < w
    ensures Window(buf, w, rows, hb, y, x).count >= 1
    ensures 0 <= Window(buf, w, rows, hb, y, x).r / Window(buf, w, rows, hb, y, x).count < 256
    ensures 0 <= Window(buf, w, rows, hb, y, x).g / Window(buf, w, rows, hb, y, x).count < 256
    ensures 0 <= Window(buf, w, rows, hb, y, x).b / Window(buf, w, rows, hb, y, x).count < 256
  {
    var acc := Window(buf, w, rows, hb, y, x);
    WindowCounted(buf, w, rows, hb, y, x);
    WindowSumBetween(buf, w, rows, hb, y, x, KernelRadius + 1, R, 0, 255);
    WindowSumBetween(buf, w, rows, hb, y, x, KernelRadius + 1, G, 0, 255);
    WindowSumBetween(buf, w, rows, hb, y, x, KernelRadius + 1, B, 0, 255);
    DivBetween(acc.r, acc.count, 0, 255);
    DivBetween(acc.g, acc.count, 0, 255);
    DivBetween(acc.b, acc.count, 0, 255);
  }

  /** Every channel average of the window lies between any bounds of that channel over the pixels it adds. */
  lemma WindowAverageBetween(buf: seq<Color>, w: nat, rows: nat, hb: int, y: int, x: int)
    requires Readable(buf, w, rows, hb, y) && 0 <= y < hb && 0 <= x < w
    ensures Window(buf, w, rows, hb, y, x).count >= 1
    ensures forall ch, lo, hi :: WindowWithin(buf, w, rows, hb, y, x, ch, lo, hi) ==>
      lo <= SumOf(Window(buf, w, rows, hb, y, x), ch) / Window(buf, w, rows, hb, y, x).count <= hi
  {
    var acc := Window(buf, w, rows, hb, y, x);
    WindowCounted(buf, w, rows, hb, y, x);
    forall ch, lo, hi | WindowWithin(buf, w, rows, hb, y, x, ch, lo, hi)
      ensures lo <= SumOf(acc, ch) / acc.count <= hi
    {
      WindowSumBetween(buf, w, rows, hb, y, x, KernelRadius + 1, ch, lo, hi);
      DivBetween(SumOf(acc, ch), acc.count, lo, hi);
    }
  }

  /**
   * The value the kernel writes for (y, x): each colour sum divided by the
   * count, truncated, alpha 255. Each channel is an average of the pixels
   * the window adds, so it stays within any bounds those pixels share.
   */
  function BlurredPixel(buf: seq<Color>, w: nat, rows: nat, hb: int, y: int, x: int): (c: Color)
    requires Readable(buf, w, rows, hb, y) && 0 <= y < hb && 0 <= x < w
    ensures c.a == 255
    ensures forall ch, lo, hi :: WindowWithin(buf, w, rows, hb, y, x, ch, lo, hi) ==> lo <= ChannelOf(c, ch) <= hi
  {
    var acc := Window(buf, w, rows, hb, y, x);
    WindowAverages(buf, w, rows, hb, y, x);
    WindowAverageBetween(buf, w, rows, hb, y, x);
    var c := Color(acc.r / acc.count, acc.g / acc.count, acc.b / acc.count, 255);
    assert forall ch :: ChannelOf(c, ch) == SumOf(acc, ch) / acc.count;
    c
  }

  /** The single-process blur of an `h`-row image: every pixel through the kernel, image bounds as the test. */
  function Blurred(img: seq<Color>, w: nat, h: nat): (r: seq<Color>)
    requires |img| == h * w
    ensures |r| == |img|
    ensures forall k :: 0 <= k < |r| ==> r[k].a == 255
  {
    seq(h * w, k requires 0 <= k < h * w => BlurredAtIndex(img, w, h, k))
  }

  function BlurredAtIndex(img: seq<Color>, w: nat, h: nat, k: nat): (c: Color)
    requires |img| == h * w && k < h * w
    ensures c.a == 255
  {
    SplitIndex(w, h, k);
    BlurredPixel(img, w, h, h, k / w, k % w)
  }

  /** Pixel (y, x) of the blurred image is the kernel's value for (y, x). */
  lemma BlurAt(img: seq<Color>, w: nat, h: nat, y: nat, x: nat)
    requires |img| == h * w && y < h && x < w
    ensures Idx(w, y, x) < |img|
    ensures Blurred(img, w, h)[Idx(w, y, x)] == BlurredPixel(img, w, h, h, y, x)
  {
    IdxInBuffer(w, h, y, x);
    DivModIdx(w, y, x);
  }

  /**
   * Each blurred channel lies between any bounds of that channel over the
   * in-image part of the window; alpha is always 255.
   */
  lemma BlurBetween(img: seq<Color>, w: nat, h: nat, y: nat, x: nat, ch: Channel, lo: int, hi: int)
    requires |img| == h * w && y < h && x < w
    requires WindowWithin(img, w, h, h, y, x, ch, lo, hi)
    ensures Idx(w, y, x) < |img|
    ensures lo <= ChannelOf(Blurred(img, w, h)[Idx(w, y, x)], ch) <= hi
    ensures Blurred(img, w, h)[Idx(w, y, x)].a == 255
  {
    BlurAt(img, w, h, y, x);
    var acc := Window(img, w, h, h, y, x);
    WindowCounted(img, w, h, h, y, x);
    WindowSumBetween(img, w, h, h, y, x, KernelRadius + 1, ch, lo, hi);
    DivBetween(SumOf(acc, ch), acc.count, lo, hi);
  }

  /** In a single-colour image every window is bounded by that colour's channel value. */
  lemma UniformWithin(img: seq<Color>, w: nat, h: nat, y: nat, x: nat, c: Color, ch: Channel)
    requires |img| == h * w
    requires forall k :: 0 <= k < |img| ==> img[k] == c
    ensures WindowWithin(img, w, h, h, y, x, ch, ChannelOf(c, ch), ChannelOf(c, ch))
  {
    forall ny, nx | y - KernelRadius <= ny <= y + KernelRadius && x - KernelRadius <= nx <= x + KernelRadius
      ensures PixelWithin(img, w, h, h, ny, nx, ch, ChannelOf(c, ch), ChannelOf(c, ch))
    {
      if Counted(w, h, ny, nx) {
        IdxInBuffer(w, h, ny, nx);
      }
    }
  }

  /** A single-colour image blurs to the same colour everywhere, with alpha 255. */
  lemma BlurUniform(img: seq<Color>, w: nat, h: nat, c: Color)
    requires |img| == h * w
    requires forall k :: 0 <= k < |img| ==> img[k] == c
    ensures forall k :: 0 <= k < |img| ==> Blurred(img, w, h)[k] == Color(c.r, c.g, c.b, 255)
  {
    forall k | 0 <= k < |img|
      ensures Blurred(img, w, h)[k] == Color(c.r, c.g, c.b, 255)
    {
      SplitIndex(w, h, k);
      var y, x := k / w, k % w;
      UniformWithin(img, w, h, y, x, c, R);
      UniformWithin(img, w, h, y, x, c, G);
      UniformWithin(img, w, h, y, x, c, B);
      BlurBetween(img, w, h, y, x, R, c.r, c.r);
      BlurBetween(img, w, h, y, x, G, c.g, c.g);
      BlurBetween(img, w, h, y, x, B, c.b, c.b);
    }
  }

  /**
   * The number of pixels averaged for (y, x) of an image at least 2x2: 4 at a
   * corner, 6 on any other edge pixel, 9 inside.
   */
  lemma NeighbourCount(img: seq<Color>, w: nat, h: nat, y: nat, x: nat)
    requires |img| == h * w && 2 <= h && 2 <= w && y < h && x < w
    ensures var count := Window(img, w, h, h, y, x).count;
      var rowEdge, colEdge := y == 0 || y == h - 1, x == 0 || x == w - 1;
      && (rowEdge && colEdge ==> count == 4)
      && (rowEdge != colEdge ==> count == 6)
      && (!rowEdge && !colEdge ==> count == 9)
  {
    WindowSumCount(img, w, h, h, y, x, KernelRadius + 1);
    InRangeAround(y, h);
    InRangeAround(x, w);
  }

  /**
   * The kernel loop of both entry points: accumulate the window of (y, x) in
   * `rsum`, `gsum`, `bsum` and `count`, row by row, then divide.
   */
  method KernelPixel(src: array<Color>, w: nat, rows: nat, hb: int, y: int, x: int) returns (c: Color)
    requires Readable(src[..], w, rows, hb, y) && 0 <= y < hb && 0 <= x < w
    ensures c == BlurredPixel(src[..], w, rows, hb, y, x)
  {
    var rsum: nat, gsum: nat, bsum: nat, count: nat := 0, 0, 0, 0;
    for ky := -KernelRadius to KernelRadius + 1
      invariant Acc(rsum, gsum, bsum, count) == WindowSum(src[..], w, rows, hb, y, x, ky)
    {
      rsum, gsum, bsum, count := KernelRow(src, w, rows, hb, y, x, ky, rsum, gsum, bsum, count);
    }
    WindowAverages(src[..], w, rows, hb, y, x);
    c := Color(rsum / count, gsum / count, bsum / count, 255);
  }

  /** The inner kernel loop: add the counted pixels of row `y + ky` of the window to the sums. */
  method KernelRow(src: array<Color>, w: nat, rows: nat, hb: int, y: int, x: int, ky: int,
                   r0: nat, g0: nat, b0: nat, count0: nat)
    returns (rsum: nat, gsum: nat, bsum: nat, count: nat)
    requires Readable(src[..], w, rows, hb, y) && -KernelRadius <= ky <= KernelRadius
    ensures Acc(rsum, gsum, bsum, count) == RowSum(Acc(r0, g0, b0, count0), src[..], w, rows, hb, y, x, ky, KernelRadius + 1)
  {
    rsum, gsum, bsum, count := r0, g0, b0, count0;
    for kx := -KernelRadius to KernelRadius + 1
      invariant Acc(rsum, gsum, bsum, count) == RowSum(Acc(r0, g0, b0, count0), src[..], w, rows, hb, y, x, ky, kx)
    {
      var ny := y + ky;
      var nx := x + kx;
      if ny >= 0 && ny < hb && nx >= 0 && nx < w {
        IdxInBuffer(w, rows, ny, nx);
        var pixel := src[Idx(w, ny, nx)];
        rsum := rsum + pixel.r;
        gsum := gsum + pixel.g;
        bsum := bsum + pixel.b;
        count := count + 1;
      }
    }
  }
}
