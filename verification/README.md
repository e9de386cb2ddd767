# Distributed image pipeline — a verified Dafny model

The program applies a pipeline of image operations to an RGBA image across several
MPI processes. Rank 0, the coordinator, reads the pipeline file. Each line of that
file is `hflip`, `invert`, `blur` or a `#` comment. The coordinator then broadcasts
the operation list and the image size, and runs every stage. Each stage divides
the rows among the processes:

- Every process gets `height / processes` rows.
- The last worker also takes the `height % processes` remainder rows.
- The coordinator sends each worker its rows and processes its own top slice.
- It then receives each worker's result into the same rows of the output buffer.

The 3×3 box blur needs neighbour rows, so the blur's coordinator sends each worker a
wider band. As written, the band starts `kernel_size` (3) rows above the worker's
slice and is `2 * kernel_radius` (2) rows longer than the slice, so it ends one row
before the slice does (Blur.SendRange). The worker blurs the band's inner rows and
sends back exactly as many rows as its slice has. Findings explains why this puts
each worker row's result two rows too low.

This model covers the following:

- **Pixels** (`pixels.dfy`): the `Color` record and inverting one pixel.
- **Raster** (`raster.dfy`): row-major indexing helpers.
- **Partition** (`partition.dfy`): the row split that every operation uses, proved
  gap-free and overlap-free.
- **Transport** (`transport.dfy`): a point-to-point send as a value, and a receive
  as a copy into an array.
- **Exchange** (`exchange.dfy`): the coordinator's send loop, shared by flip and
  invert.
- **Hflip** and **Invert** (`hflip.dfy`, `invert.dfy`): coordinator and worker
  entry points. Their pixel loops run over arrays. Each coordinator entry is
  proved to produce exactly the whole-image flip or inversion, whatever the
  number of processes.
- **BoxBlur** (`blur_kernel.dfy`): the 3×3 neighbourhood average, clipped at
  the image border. It covers the kernel loops as methods and the properties
  of the average.
- **Blur** (`blur.dfy`): the distributed blur as the code is written. This
  includes the halo arithmetic, the worker's inner-row loop and the
  coordinator's receive loop. The result is characterised pixel by pixel.
- **BlurFix** (`blur_fix.dfy`): a concrete image on which two processes disagree
  with one. It also holds the corrected halo protocol, which is proved equal
  to the single-process blur (see Findings).
- **Operations** (`operations.dfy`): the operation enumeration, its integer tags
  and the table that maps each operation to its entry points and name.
- **Pipeline** (`pipeline.dfy`): parsing the pipeline lines and the broadcast of
  the metadata, which is proved to round-trip. It also covers the coordinator's
  stage loop with its buffer swap and final copy, the worker's stage loop, and the
  whole run.

Message passing is modelled as a rendezvous. Where the coordinator receives from
worker `i`, the model runs worker `i`'s entry point on the message the coordinator
sent it, and receives the reply that entry point returns. The worker's receive
count is checked against what was sent: a receive requires a message of exactly
the size it expects. Byte counts (`rows * width * sizeof(Color)`) are modelled as
pixel counts. `kernel_radius` is `KernelSize / 2`, as in the source.

## Model

| member | source | states |
|---|---|---|
| Pixels.InvertPixel | src/invert.cpp:22-27 | each of r, g, b of the result plus the same channel of the input is 255; alpha is unchanged |
| Pixels.InvertPixelTwice | src/invert.cpp:22-27 | inverting a pixel twice gives the pixel back |
| Partition.SliceStart | src/hflip.cpp:15 | a slice starts inside the image or at its end |
| Partition.SliceRowsBounds | src/hflip.cpp:10-16 | every slice has at least `height / processes` rows, fewer than `processes` more, and never more than the image |
| Partition.Contiguous | src/hflip.cpp:10-16 | the coordinator's slice starts at row 0 with `rows_per_worker` rows; each slice ends where the next begins; the last ends at the image height |
| Partition.Ordered | src/hflip.cpp:14-16 | an earlier process's slice ends before a later process's slice begins |
| Partition.SliceInImage | src/hflip.cpp:14-17 | every slice lies inside the image, so the send pointer and count stay in the buffer |
| Partition.Owner | src/hflip.cpp:10-16 | every row belongs to some process's slice, and to exactly one |
| Partition.TenRowsThreeWorkers | src/hflip.cpp:10-16 | ten rows over three processes split 3, 3, 4, the remainder going to the last worker |
| Transport.Send | src/hflip.cpp:17 | the message holds exactly `count` pixels, those starting at the given offset |
| Transport.Receive | src/hflip.cpp:32 | the array afterwards is the old prefix, then the message, then the old suffix; nothing else changes |
| Transport.ReceivedPrefix | src/hflip.cpp:29-33 | receiving the next slice of a wanted result after a finished prefix extends the finished prefix by that slice and leaves everything after the slice unchanged |
| Exchange.RowsOf | src/hflip.cpp:17 | a band of rows has `rows * width` pixels, pixel `j` being image pixel `start * width + j` |
| Exchange.SliceOf | src/hflip.cpp:15-17 | a process's slice has `rows * width` pixels, and pixel `j` of it is image pixel `start_row * width + j` |
| Exchange.SendSlice | src/hflip.cpp:17 | the send from `start_row * width` of `num_rows * width` pixels stays in the image and equals that slice |
| Exchange.SendSlices | src/hflip.cpp:13-18 | the coordinator's send loop sends each worker `i >= 1` exactly its own slice |
| Hflip.Flipped | src/hflip.cpp:21-26 | the whole-image flip has the image's size; its pixels are given by Hflip.FlipAt |
| Hflip.FlipAt | src/hflip.cpp:24 | pixel (y, x) of the flip is pixel (y, width - 1 - x) of the input, and that column is inside the row |
| Hflip.FlipTwice | src/hflip.cpp:22-26 | flipping twice restores the image |
| Hflip.FlipRows | src/hflip.cpp:51-55 | flipping a band of rows on its own gives the same band of the whole-image flip, which is why workers need no neighbour rows |
| Hflip.MirrorRows | src/hflip.cpp:22-26 | after the nested loop, the first `rows` rows of the output are the flip of the input and the other pixels are unchanged |
| Hflip.HflipWorker | src/hflip.cpp:36-59 | the worker replies with the flip of exactly the rows it received |
| Hflip.ReceiveFlipped | src/hflip.cpp:30-32 | receiving worker `i` extends the finished prefix of the output to the end of worker `i`'s slice; the pixels after that slice are unchanged |
| Hflip.GatherFlipped | src/hflip.cpp:28-33 | after the receive loop the whole output is the flip of the input |
| Hflip.HflipMain | src/hflip.cpp:8-34 | for any number of processes, the output is the whole-image flip of the input; the input is not written |
| Invert.Inverted | src/invert.cpp:20-29 | the inversion has the image's size, and each pixel is the inverted input pixel at the same index |
| Invert.InvertTwice | src/invert.cpp:22-27 | inverting twice restores the image |
| Invert.InvertSolid | src/invert.cpp:22-27 | a one-colour image inverts to a one-colour image of the inverted colour |
| Invert.RedBecomesCyan | src/invert.cpp:22-27 | an opaque red 4×4 image inverts to an opaque cyan one |
| Invert.InvertRange | src/invert.cpp:54-63 | inverting a range of pixels on its own gives the same range of the whole inversion |
| Invert.InvertRowsInto | src/invert.cpp:20-29 | after the nested loop, the first `rows` rows of the output are inverted and the other pixels are unchanged |
| Invert.InvertWorker | src/invert.cpp:39-66 | the worker replies with the inversion of exactly the rows it received |
| Invert.ReceiveInverted | src/invert.cpp:33-35 | receiving worker `i` extends the finished prefix of the output to the end of worker `i`'s slice; the pixels after that slice are unchanged |
| Invert.GatherInverted | src/invert.cpp:31-36 | after the receive loop the whole output is the inversion of the input |
| Invert.InvertMain | src/invert.cpp:6-37 | for any number of processes, the output is the inversion of the input; the input is not written |
| Operations.Tag | src/operations.hpp:5-10 | every operation's integer value is below `COUNT` |
| Operations.FromTag | src/operations.hpp:5-10 | an integer names an operation exactly when it lies in `[0, COUNT)`, and then that operation's tag is the integer |
| Operations.TagRoundTrip | src/operations.hpp:5-10 | reading back an operation's tag gives the operation |
| Operations.TagInjective | src/operations.hpp:5-10 | two operations have the same tag exactly when they are the same operation |
| Operations.Lookup | src/operations.hpp:33-36 | the table entry for an operation has that operation as its type, and its main and worker entry points belong to that operation |
| Operations.TableIndexed | src/operations.hpp:33-36 | the table has `COUNT` entries, and entry `i` is the one for the operation whose tag is `i` |
| Operations.NamesDistinct | src/operations.hpp:34-36 | no two table entries share a name, so a pipeline line names at most one operation |
| Pipeline.ClassifyLine | src/main.cpp:35-50 | a line is a comment exactly when it starts with `#`; otherwise it names the operation whose table name it equals, and it is invalid exactly when it equals no table name |
| Pipeline.MatchFrom | src/main.cpp:36-45 | scanning the table from entry `i` finds an entry with the line's name, or reports invalid exactly when no later entry has that name |
| Pipeline.Kept | src/main.cpp:34-51 | at most one operation is read per line, and each operation read is named by a line of the file |
| Pipeline.KeptCount | src/main.cpp:34-51 | in a file with no invalid line, the number of operations read equals the number of non-comment lines |
| Pipeline.KeptConcat | src/main.cpp:34-51 | the operations read from two concatenated files are those of the first followed by those of the second |
| Pipeline.KeptNamed | src/main.cpp:41-42 | every operation read comes from a line that is exactly its name |
| Pipeline.ParsePipeline | src/main.cpp:23-54 | the parse succeeds exactly when no line is invalid, and then yields the named operations in line order; on failure it reports the first invalid line and its index |
| Pipeline.ApplyOp | src/main.cpp:61 | one stage keeps the image size |
| Pipeline.ApplyAll | src/main.cpp:60-63 | a sequence of stages keeps the image size |
| Pipeline.ApplyStep | src/main.cpp:60-63 | the result after `s + 1` stages is stage `s` applied to the result after `s` stages |
| Pipeline.Sequential | src/main.cpp:60-63 | the one-process pipeline keeps the image size |
| Pipeline.ApplyConcat | src/main.cpp:60-63 | running two pipelines back to back is running their concatenation |
| Pipeline.OneProcessPipeline | src/main.cpp:56-66 | with one process every pipeline can run, and its result is the one-process reference result |
| Pipeline.WithoutBlur | src/main.cpp:56-66 | a pipeline without `blur` gives the same result for any number of processes as for one |
| Pipeline.TwiceIsIdentity | src/main.cpp:60-63 | `hflip, hflip` and `invert, invert` leave the image unchanged |
| Pipeline.RunMain | src/main.cpp:61 | calling a table entry's coordinator function writes that operation's result into the output buffer |
| Pipeline.RunOperationsMain | src/main.cpp:56-66 | after the swapping stage loop and the final copy, the caller's buffer holds all stages applied in order, and the entry points called are those of the operations, in order |
| Pipeline.CopyPixels | src/main.cpp:65 | the destination becomes equal to the source |
| Pipeline.RunOperationsWorker | src/main.cpp:68-72 | a worker calls the worker entry point of each operation, in order |
| Pipeline.Tags | src/main.cpp:98 | the broadcast list has one integer per operation, each a valid tag that reads back as that operation |
| Pipeline.ReadTags | src/main.cpp:119-120 | a received integer list reads as operations exactly when every integer is a valid tag, and then each operation's tag is the integer received |
| Pipeline.Broadcasts | src/main.cpp:96-102 | the coordinator broadcasts four messages: the operation count (equal to the operations message's length), one valid tag per operation that reads back as that operation, the width and the height |
| Pipeline.ReceiveBroadcasts | src/main.cpp:115-125 | a decoded result agrees with the four messages: the count, the width and the height |
| Pipeline.BroadcastRoundTrip | src/main.cpp:96-102 | the worker decodes the coordinator's four broadcasts back to exactly the operations, width and height sent |
| Pipeline.RunPipeline | src/main.cpp:76-129 | the run is fatal exactly when some line is invalid, and then it reports the first invalid line and its index, the image is untouched and no entry point is called; otherwise the image holds the parsed stages applied in order, and stage `s` calls the coordinator and worker entry points of the `s`-th parsed operation |
| BoxBlur.RowSumCount | src/blur.cpp:44-54 | one kernel row counts as many pixels as there are kernel columns inside the image, times whether the kernel row is inside the image |
| BoxBlur.WindowSumCount | src/blur.cpp:43-55 | the kernel counts (rows in range) × (columns in range) neighbours |
| BoxBlur.InRangeAround | src/blur.cpp:43-47 | around a pixel inside the image, at least one kernel offset lands inside the image |
| BoxBlur.WindowCounted | src/blur.cpp:43-55 | every pixel's neighbourhood has at least one pixel, so the division by `count` is defined |
| BoxBlur.StepBetween | src/blur.cpp:47-53 | adding a neighbour whose channel lies in `[lo, hi]` keeps the channel sum between `lo * count` and `hi * count` |
| BoxBlur.RowSumBetween | src/blur.cpp:44-54 | the sum over one kernel row stays between `lo * count` and `hi * count` when every neighbour lies in `[lo, hi]` |
| BoxBlur.WindowSumBetween | src/blur.cpp:43-55 | the sum over the whole kernel stays between `lo * count` and `hi * count` when every neighbour lies in `[lo, hi]` |
| BoxBlur.WindowAverages | src/blur.cpp:56-61 | every channel average fits a byte, so the cast to `uint8_t` loses nothing |
| BoxBlur.WindowAverageBetween | src/blur.cpp:43-61 | the window counts at least one pixel, and each channel's average lies between any bounds of that channel over the pixels the window adds |
| BoxBlur.BlurredPixel | src/blur.cpp:43-61 | the kernel's pixel is opaque, and each channel lies between any bounds of that channel over the neighbours inside the bounds test |
| BoxBlur.Blurred | src/blur.cpp:34-63 | the single-process blur has the image's size, and every pixel is opaque |
| BoxBlur.BlurAt | src/blur.cpp:56-61 | pixel (y, x) of the blur is the kernel average around (y, x) |
| BoxBlur.BlurBetween | src/blur.cpp:43-61 | when every neighbour's channel lies in `[lo, hi]`, so does the blurred pixel's, and it is opaque |
| BoxBlur.BlurUniform | src/blur.cpp:43-61 | a one-colour image blurs to that colour, made opaque |
| BoxBlur.NeighbourCount | src/blur.cpp:43-55 | on an image at least 2×2, a corner pixel averages 4 neighbours, another border pixel 6, an interior pixel 9 |
| BoxBlur.KernelPixel | src/blur.cpp:36-61 | the per-pixel loop computes the kernel average of that pixel |
| BoxBlur.KernelRow | src/blur.cpp:44-54 | the inner kernel loop adds exactly one kernel row's sums and count to the running totals |
| Blur.SendStart | src/blur.cpp:19 | the halo sent to worker `i` starts `kernel_size` rows above worker `i`'s slice |
| Blur.SendRows | src/blur.cpp:19-28 | a worker is sent its slice's rows plus `2 * kernel_radius`; the clamp at the image bottom never shortens it |
| Blur.EffectiveRows | src/blur.cpp:97 | the number of rows a worker blurs and sends back is exactly its slice's row count |
| Blur.ReceiveRows | src/blur.cpp:67-76 | the number of rows the coordinator receives from worker `i` is exactly worker `i`'s slice's row count |
| Blur.CountsAgree | src/blur.cpp:83-97 | the worker's reply count, the coordinator's receive count and the worker's slice size agree, and a worker receives its slice plus `2 * kernel_radius` rows |
| Blur.SafeIffStartsInImage | src/blur.cpp:19 | every worker's halo starts at row 0 or later (a non-negative row) exactly when there is one process or `height / processes >= kernel_size` |
| Blur.SendRange | src/blur.cpp:19-30 | under that condition the halo starts inside the image and ends one row above the end of the worker's slice |
| Blur.DistributedBlur | src/blur.cpp:11-80 | the assembled output has the image's size; its pixels are given by Blur.DistributedAt |
| Blur.DistributedAt | src/blur.cpp:67-78 | on the coordinator's rows the assembled output equals the one-process blur; on a worker's row `g` it equals the one-process blur of row `g - 2` |
| Blur.OneProcess | src/blur.cpp:34-63 | with one process the assembled output is the blur of the whole image |
| Blur.RowSumShift | src/blur.cpp:116-127 | one kernel row over a received band equals that kernel row over the image, shifted by the band's start row |
| Blur.WindowSumShift | src/blur.cpp:116-128 | the whole kernel over a received band equals the kernel over the image, shifted by the band's start row |
| Blur.PixelShift | src/blur.cpp:116-134 | blurring local row `y` of a band, with the image height as bound, gives the blur of image row `start + y` |
| Blur.WorkerBlur | src/blur.cpp:108-136 | the worker's output has `num_rows - 2 * kernel_radius` rows |
| Blur.WorkerBlurAt | src/blur.cpp:129-134 | local output row `y - 1` holds the kernel average of received row `y` |
| Blur.WorkerKernelPixel | src/blur.cpp:113-134 | the kernel at the worker's local row `y` gives pixel (y - 1, x) of the worker blur, which lies in the reply |
| Blur.BlurInnerRows | src/blur.cpp:108-136 | the worker's loop over rows `1 .. num_rows - 2` fills its output with the worker blur of what it received |
| Blur.BlurWorker | src/blur.cpp:82-140 | the worker replies with the worker blur of the rows it received |
| Blur.HaloSlice | src/blur.cpp:30 | the halo message has `num_rows * width` pixels |
| Blur.SendHalo | src/blur.cpp:18-30 | the send starts inside the image, stays inside it, and sends exactly the halo band |
| Blur.SendHaloSlices | src/blur.cpp:17-31 | the coordinator's send loop sends each worker exactly its halo band |
| Blur.BlurRowsInto | src/blur.cpp:34-63 | after the coordinator's loop, its rows of the output are the blur of the image and the other pixels are unchanged |
| Blur.TopRows | src/blur.cpp:34-63 | the coordinator's own rows of the assembled output are those of the one-process blur |
| Blur.HaloGeometry | src/blur.cpp:19-30 | under `BlurSafe` the halo lies in the image; the worker's first blurred row is two rows above its slice, and it blurs as many rows as its slice has |
| Blur.ReplyRows | src/blur.cpp:86-139 | the reply of worker `i` to its halo band is exactly the assembled output's rows for worker `i`'s slice |
| Blur.ReplySlice | src/blur.cpp:78 | the receive range lies in the output buffer, and the reply equals the assembled output's pixels in that range |
| Blur.WorkerRows | src/blur.cpp:105-139 | the worker blur of image rows `[s, s + num)` is the one-process blur of rows `[s + 1, s + num - 1)` |
| Blur.WorkerShift | src/blur.cpp:129 | pixel (yy, x) of the worker's reply is the one-process blur at image row `s + yy + 1` |
| Blur.ShiftedRows | src/blur.cpp:67-78 | with two or more processes, a band of worker rows in the assembled output equals the one-process blur of the band two rows higher |
| Blur.ReceiveReply | src/blur.cpp:67-78 | receiving worker `i` extends the finished prefix of the output to the end of worker `i`'s slice; the pixels after that slice are unchanged |
| Blur.GatherReplies | src/blur.cpp:65-79 | after the receive loop the whole output is the assembled distributed blur |
| Blur.BlurMain | src/blur.cpp:11-80 | the output is the assembled distributed blur of the input; the input is not written |
| BlurFix.ShiftedBottomRow | src/blur.cpp:86 | on a 1×6 black column with a dark-red bottom pixel, two processes give red 0 at the bottom where one process gives 45 |
| BlurFix.FixedSendRows | src/blur.cpp:86-95 | with the halo starting `kernel_radius` rows above the slice, a worker receives between its slice plus one radius and its slice plus two radii |
| BlurFix.FixedSendRange | src/blur.cpp:86-95 | the corrected halo lies inside the image |
| BlurFix.FixedWorkerBlur | src/blur.cpp:108-139 | a corrected worker replies with exactly `rows * width` pixels, its slice's rows |
| BlurFix.FixedReplyAt | src/blur.cpp:108-134 | pixel (yy, x) of a corrected worker's reply is the one-process blur of its slice row `yy` |
| BlurFix.FixedPixelAt | src/blur.cpp:67-78 | every pixel of the corrected assembly equals the one-process blur |
| BlurFix.FixedDistributedBlur | src/blur.cpp:11-80 | the corrected assembly has the image's size; its pixels are given by BlurFix.FixedPixelAt |
| BlurFix.FixedSafeIff | src/blur.cpp:86 | the corrected halo starts inside the image exactly when there is one process or the image has at least as many rows as processes; with fewer rows the last worker's halo would start at row -1 |
| BlurFix.FixedIsBlurred | src/blur.cpp:11-140 | with the three corrections (halo start, worker row bound, rows sent back), the distributed blur equals the one-process blur for every image, with one process or with at most as many processes as rows |
| BlurFix.FixedBottomRow | src/blur.cpp:86 | on the column that shows the discrepancy, the corrected protocol gives the bottom pixel red 45, as one process does |

## Left out

- Concurrency is not modelled. MPI processes run as a sequential rendezvous, and
  OpenMP `parallel for` loops run sequentially. Each loop iteration writes a
  distinct pixel, so the order does not change the result. Message tags and
  `MPI_STATUS_IGNORE` are dropped, and byte counts are pixel counts.
- Image loading and writing, opening the pipeline file, the argument-count check,
  the timing and its `printf` are left out. They are I/O. The pipeline file
  arrives as its list of lines.
- `std::terminate` on an invalid line is the `Fatal` outcome. A file that cannot
  be opened, and an image that cannot be loaded, are I/O failures and are not
  part of this model.
- Memory management (`new[]`, `delete[]`, `Defer`) is left out. The only effect
  kept is that each buffer has the size it is allocated with.
- Pipeline.ApplyOp, Pipeline.RunPipeline, every Pipeline member that runs a
  blur stage (Pipeline.RunMain, Pipeline.RunOperationsMain, Pipeline.ApplyAll,
  Pipeline.ApplyStep, Pipeline.ApplyConcat, through `Runnable` or
  `op == BLUR ==> BlurSafe`), and every Blur member that sends, receives or
  assembles: these require `BlurSafe` (one process, or
  `height / processes >= 3`). Pipeline.RunPipeline requires it only when the
  file is valid and names `blur`. Otherwise the coordinator's send pointer
  starts before the image, which is undefined behaviour in the source and has
  no model.
- BlurFix.FixedIsBlurred: the corrected protocol is proved only under
  `FixedSafe`, that is one process or `height >= processes`. With two or more
  processes and fewer rows than processes, the corrected halo start (slice
  start minus `kernel_radius`) is row -1 for the last worker (BlurFix.FixedSafeIff);
  clamping it at row 0 would also need a different local row offset, which the
  corrected model does not have.
- BoxBlur.KernelPixel: the division `float(sum) / count` followed by the cast to
  `uint8_t` is modelled as integer division. Sums are at most 255 × 9, so the
  single-precision quotient truncates to the same value.
- Pipeline.RunPipeline: does not model 32-bit overflow of `width * height` and
  of the row offsets. Integers are unbounded here.
- Pipeline.RunOperationsWorker: records which worker entry points are called.
  Their effect is modelled in the coordinator's receive loops through the
  rendezvous, not as separate processes.
- Pipeline.ReadTags: a broadcast integer outside `[0, COUNT)` is undefined in the
  source, where it indexes past the operation table. Here it makes the decode fail.
- The `this_worker` argument of the coordinator entry points is unused in the
  source and is not a parameter here.
- The as-written blur is what the pipeline runs. The corrected halo protocol
  (see Findings) is proved separately; there is no imperative coordinator for it.

## Findings

| source | as written | input that shows it | evidently intended | confidence | as-written member | corrected member |
|---|---|---|---|---|---|---|
| src/blur.cpp:86 | the halo starts `kernel_size` (3) rows above the worker's slice. The worker blurs from local row 1 and sends its rows back to the slice start, so each worker row receives the blur of the image row two rows higher (also line 19) | a 1-pixel-wide, 6-row image, black except a dark-red (90, 0, 0) bottom pixel, with 2 processes: the bottom pixel's red is 0, where one process gives 45 | three corrections together: (1) the halo starts `kernel_radius` rows above the slice (line 19 and line 86), so local row 1 is the slice's first row; (2) the worker's neighbour test bounds `ny` by its received row count `num_rows` instead of `height` (line 120); (3) the worker blurs and sends back exactly its slice's rows (lines 97, 108, 139, matching the receive at line 78). Moving the start alone is not enough: the last worker would then get `num_rows` = slice + 1, `effective_rows` = slice − 1, and the image's last row would never be written | not executed | BlurFix.ShiftedBottomRow | BlurFix.FixedIsBlurred |
