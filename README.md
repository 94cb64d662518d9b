# Pixel blit and box-downsample engine

This project models the pixel copier in `image_utils.c`, the native half of the
image library. `copy_pixels` copies a rectangle of 32-bit colour cells from a
source buffer into a destination canvas. It can shrink the rectangle by an
integer `ratio`, averaging each `ratio x ratio` block of source cells into one
destination cell. With `fill_blank` set, it also paints the canvas cells it does
not copy with a fill colour, after reordering that colour's bytes into the
platform's native order.

The model has six modules. `Wrappers` holds only the `Option` type; the other five follow the layers of the C code:

- `Rounding`: C's truncating `/` and `%` (`CDiv`, `CRem`) and the `floor` / `ceil` helpers that round to a multiple.
- `Pixels`: a cell is four bytes in memory order. `convert_color` (`ConvertColor`) is a byte permutation chosen by the platform's `Endian`.
- `BoxAverage`:
  - `average_step` is a step function on a quotient/remainder pair of `unsigned char` accumulators, with explicit wrap-around mod 256.
  - `bilinear_color` is a method with the source's two nested loops. The inner loop is `AccumulateRun`.
  - Both are specified by `Fold`, the accumulator after a sequence of samples, and by `BlockAverage`.
- `Geometry`: the clamper (the first half of `copy_pixels_internal`) is the pure function `Clamp`. It returns `None` when the C code returns `false`. Otherwise it returns the clipped `Region`. The C code repeats the same steps for the x and y axes; the model writes them once per `Axis`.
- `Blit`: the imperative part, over a destination `array<Cell>`.
  - `memset_int`, `copy_color_internal`, `copy_color`, the copying half of `copy_pixels_internal` (`CopyRegion`, with one loop pass in `NextRow`) and `copy_pixels`.
  - Each is proved against specification functions. `Fill` and `Overlay` describe one memset and one row copy. `PaintedSeq` is the canvas after some rows. `Blitted` is the whole result of `copy_pixels`.
  - Lemmas state `Blitted` cell by cell (`BlitGrid`, `RatioOneBlit`, `DownsampledCell`).

What the code does, as modelled:

- Clamping either rejects the request or yields a non-empty rectangle that is a whole number of blocks and lies in both buffers. Clamping keeps the source/destination correspondence `src_x - ratio * dst_x`.
- A rejected request leaves the canvas unchanged. With fill, it paints the whole canvas.
- Inside the rectangle, each destination cell is:
  - the matching source cell, for ratio 1;
  - otherwise, the average of its source block. The average is exactly the truncated mean when `ratio * ratio <= 128`.
- The destination cursor of `copy_pixels_internal` advances by `width` per row (image_utils.c lines 249 and 260), where `width` is in source units. Between rows it then advances by `dst_w - width`, a length computed at line 253 and added at line 258.
  - Rows still start `dst_w` cells apart.
  - With a ratio above 1, only `width / ratio` cells of each row are written. The fill between rows starts `width` cells after the row start.
  - So with fill, the `width - width / ratio` cells that follow each written row's last copied cell, in memory order, keep their old contents (`GapKeepsOldCells`, `GapNonEmpty`).
  - When `dst_x + width > dst_w`, those cells continue into the first columns of the next grid row. For the last row, that is the grid row below the rectangle. `WrappedGapExample` shows such a case that meets `FillFits`.
  - For fill to reach every cell outside the rectangle, the cursor would have to advance by `width / ratio` per row. The code advances by `width`, and the model follows the code. Full coverage is proved only for ratio 1 (`RatioOneBlit`).
  - Without fill none of this matters: every cell outside the rectangle is unchanged, whatever `width` is (`BlitGrid`).
- With a ratio above 1 and fill on, the lengths at lines 253 and 266 are computed as `size_t`. When `width > dst_w`, or when the last row's start plus `width` passes the end of the canvas, those lengths go negative and wrap. The model excludes this with the precondition `FillFits`. `RatioOneFillFits` shows it always holds for ratio 1.
  - The excluded case includes the ordinary fill-on downsampling call. Halving a 1000 x 1000 tile onto a 500 x 500 canvas is accepted unchanged, yet fails `FillFits` (`HalvingWideTileBreaksFill`). More generally, any accepted request that writes more than one row with `width > dst_w` fails it (`WideRowsBreakFill`).

## Model

| member | source | states |
|---|---|---|
| Rounding.CDiv | library/src/main/jni/image/image_utils.c:178 | C's `temp / ratio` truncates toward zero: for a non-negative dividend the quotient times the divisor is at most the dividend and within one divisor of it; for a negative dividend, mirrored |
| Rounding.CRem | library/src/main/jni/image/image_utils.c:73 | C's `num % multiple`: its sign follows num, its magnitude is below the divisor, and num minus it is a multiple |
| Rounding.Floor | library/src/main/jni/image/image_utils.c:81-88 | the result is a multiple of `multiple`; for num >= 0 it is the multiple at most num and above num - multiple; for negative num it lies between num and 0, within one multiple of num (truncation toward zero) |
| Rounding.Ceil | library/src/main/jni/image/image_utils.c:72-79 | the result is a multiple; for num >= 0 it is at least num and below num + multiple |
| Rounding.FloorIsGreatest | library/src/main/jni/image/image_utils.c:81-88 | for num >= 0, every multiple of m that is at most num is at most `floor(num, m)`, so floor gives the largest one |
| Rounding.CeilIsLeast | library/src/main/jni/image/image_utils.c:72-79 | for num >= 0, every multiple of m that is at least num is at least `ceil(num, m)`, so ceil gives the smallest one |
| Pixels.ConvertColor | library/src/main/jni/image/image_utils.c:44-62 | the reordered colour holds the same four bytes (a permutation), and `RestoreColor` recovers the logical colour from it |
| Pixels.RestoreColor | library/src/main/jni/image/image_utils.c:49-59 | the inverse byte reordering is also a permutation of the four bytes |
| Pixels.ConvertRestore | library/src/main/jni/image/image_utils.c:49-59 | restoring and then converting gives back the native cell: the two reorderings are mutually inverse |
| Pixels.ConvertInjective | library/src/main/jni/image/image_utils.c:49-59 | distinct logical colours convert to distinct native cells |
| Pixels.LittleInvolution | library/src/main/jni/image/image_utils.c:54-59 | the little-endian branch swaps bytes 0 and 2, so applying it twice is the identity |
| Pixels.BigRotationOrder | library/src/main/jni/image/image_utils.c:49-53 | the big-endian branch rotates the bytes left by one: four applications are the identity, and one application changes any cell whose first two bytes differ |
| BoxAverage.AverageStep | library/src/main/jni/image/image_utils.c:90-97 | in byte arithmetic one step adds the sample to `q * count + r` modulo 256, and while r < count <= 128 the remainder stays below count |
| BoxAverage.AverageStepExact | library/src/main/jni/image/image_utils.c:90-97 | while `q * count + r` stays below `256 * count` with r < count and count <= 128, one step adds the sample to `q * count + r` and keeps r < count |
| BoxAverage.RemainderWrapsAtRatio12 | library/src/main/jni/image/image_utils.c:90-97 | with count 144 (ratio 12) two samples of 143 leave the byte accumulators at (0, 30), not at the true quotient and remainder (1, 142): the remainder byte wraps |
| BoxAverage.FoldExact | library/src/main/jni/image/image_utils.c:117-133 | for count <= 128 and at most count samples, the accumulators after the samples are exactly the quotient and remainder of their sum by count |
| BoxAverage.BlockAverageIsMean | library/src/main/jni/image/image_utils.c:117-133 | for `ratio * ratio <= 128`, each channel of the block average is the channel's sum over the `ratio x ratio` block divided by `ratio * ratio`, rounded down |
| BoxAverage.AverageOfFourSamples | library/src/main/jni/image/image_utils.c:117-133 | samples 10, 20, 30, 40 with ratio 2 average to 25 |
| BoxAverage.AccumulateRun | library/src/main/jni/image/image_utils.c:123-130 | the inner loop leaves each channel's accumulators at the fold of all samples so far followed by the `ratio` cells of the run |
| BoxAverage.BilinearColor | library/src/main/jni/image/image_utils.c:117-133 | the result is the block average of the `ratio x ratio` block at pos with row stride w; for `ratio * ratio <= 128` every channel is the truncated mean of the block |
| Geometry.ClipLeading | library/src/main/jni/image/image_utils.c:174-186 | after the leading clip both offsets are non-negative, the extent stays a whole number of blocks, the far edge and `src - ratio * dst` are unchanged, offsets only grow, and an axis already non-negative is untouched |
| Geometry.TrimToSource | library/src/main/jni/image/image_utils.c:208-212 | the extent shrinks by whole blocks until it ends inside the source, offsets unchanged; an axis already inside is untouched |
| Geometry.TrimToDest | library/src/main/jni/image/image_utils.c:213-216 | the extent shrinks by whole blocks until its `len / ratio` destination cells end inside the destination, offsets unchanged; an axis already inside is untouched |
| Geometry.ClipTrailing | library/src/main/jni/image/image_utils.c:208-219 | the trailing clip keeps the offsets, keeps whole blocks, never grows, and ends inside both buffers |
| Geometry.TrimToSourceMaximal | library/src/main/jni/image/image_utils.c:208-212 | the source trim removes no more than it must: any whole-block extent that fits the source is at most the trimmed one |
| Geometry.TrimToDestMaximal | library/src/main/jni/image/image_utils.c:213-216 | the destination trim removes no more than it must |
| Geometry.ClipTrailingMaximal | library/src/main/jni/image/image_utils.c:208-219 | any whole-block extent that fits both buffers from the same offsets is at most the clipped extent |
| Geometry.Clamp | library/src/main/jni/image/image_utils.c:160-232 | an accepted region is non-empty and whole blocks on both axes, has non-negative offsets, lies inside source and destination, keeps `src - ratio * dst` on both axes and lies within the requested (floored) rectangle; ratio <= 0 or a ratio above the floored width or height is rejected |
| Geometry.ClampKeepsPlaced | library/src/main/jni/image/image_utils.c:160-232 | a request that is already whole blocks and inside both buffers is accepted unchanged |
| Geometry.ClampIdempotent | library/src/main/jni/image/image_utils.c:160-232 | clamping the clamped region again gives the same region |
| Geometry.ClampRejectsOffSource | library/src/main/jni/image/image_utils.c:160-232 | a request whose source rectangle lies wholly outside the source buffer is rejected |
| Geometry.ClampNegativeDstExample | library/src/main/jni/image/image_utils.c:181-186 | a 4 x 2 request with ratio 2 at destination column -1 loses one block and starts at destination column 0, source column 2 |
| Blit.MemsetInt | library/src/main/jni/image/image_utils.c:64-70 | exactly the `size` cells from the start index become val; every other cell is unchanged |
| Blit.CopyColorInternal | library/src/main/jni/image/image_utils.c:135-140 | the `count` cells from dstPos become the block averages of successive blocks, the source moving `ratio` cells per output; nothing else changes |
| Blit.CopyColor | library/src/main/jni/image/image_utils.c:142-148 | the `count / ratio` cells from dstPos become the row's output (straight copies for ratio 1, block averages otherwise); nothing else changes |
| Blit.ClampShape | library/src/main/jni/image/image_utils.c:160-232 | an accepted region has at least one destination row and column, `height` and `width` are exact multiples of ratio, and the rows and columns written fit both buffers |
| Blit.DestRowFits | library/src/main/jni/image/image_utils.c:247-260 | every destination row the copier writes lies inside the canvas |
| Blit.SourceRowFits | library/src/main/jni/image/image_utils.c:235-261 | every source cell read for a destination row, all `ratio` source rows of it, lies inside the source buffer |
| Blit.SrcRowNext | library/src/main/jni/image/image_utils.c:237-261 | adding `src_stride` (`src_w * ratio` cells) moves the source cursor to the next destination row's band |
| Blit.PaintedNone | library/src/main/jni/image/image_utils.c:239-244 | before any row is copied only the cells before the first written cell are painted, and only with fill |
| Blit.PaintedStep | library/src/main/jni/image/image_utils.c:252-262 | copying row `line` adds that row's cells and, with fill, paints from `width` past the previous row's start up to this row's start; every other cell is as before |
| Blit.RowStep | library/src/main/jni/image/image_utils.c:252-262 | the gap fill and the row copy of one pass take the canvas from `line` rows to `line + 1` rows |
| Blit.GapIsBeforeRow | library/src/main/jni/image/image_utils.c:255-258 | the gap memset (skipped when the gap length is 0) produces the canvas the next row is copied onto |
| Blit.CopyIsAfterRow | library/src/main/jni/image/image_utils.c:259 | copying the row onto that canvas gives the canvas after one more row |
| Blit.FinishBlit | library/src/main/jni/image/image_utils.c:264-267 | after the last row, with fill, painting from the cursor to the end of the canvas gives the final canvas; without fill the rows alone do |
| Blit.NextRow | library/src/main/jni/image/image_utils.c:254-262 | one loop pass takes the canvas from `line` to `line + 1` copied rows and moves both cursors by one row |
| Blit.CopyRegion | library/src/main/jni/image/image_utils.c:234-269 | the copy half leaves the canvas equal to the final canvas for the clamped region, cursor gap included |
| Blit.CopyPixelsInternal | library/src/main/jni/image/image_utils.c:150-270 | it returns true exactly when clamping accepts; then the canvas is the blit result, otherwise it is unchanged |
| Blit.CopyPixels | library/src/main/jni/image/image_utils.c:272-284 | the canvas ends as the blit result with the converted fill colour; a rejected request with fill paints every cell |
| Blit.UnfilledIgnoresColor | library/src/main/jni/image/image_utils.c:275-278 | without fill the colour (0 in the source) plays no part in the result |
| Blit.OffSourceFillsAll | library/src/main/jni/image/image_utils.c:280-283 | with fill, a request whose source rectangle is wholly outside the source leaves every canvas cell at the fill colour |
| Blit.RatioOneFillFits | library/src/main/jni/image/image_utils.c:253-266 | for ratio 1 the fill lengths never go negative |
| Blit.WideRowsBreakFill | library/src/main/jni/image/image_utils.c:253-258 | an accepted request writing more than one row with `width > dst_w` has a negative gap length, so `FillFits` fails |
| Blit.HalvingWideTileBreaksFill | library/src/main/jni/image/image_utils.c:160-258 | the request halving a 1000 x 1000 tile onto a 500 x 500 canvas is accepted unchanged and fails `FillFits` |
| Blit.RectOffsets | library/src/main/jni/image/image_utils.c:247-260 | a cell is at row slot l < rows and column c < cols from the first written cell exactly when it is at grid row `dst_y + l`, column `dst_x + c` |
| Blit.BlitGrid | library/src/main/jni/image/image_utils.c:234-269 | for an accepted request, a cell in the rectangle holds its copied cell. Without fill, every cell outside it keeps its old value, for any width. With fill and `width <= dst_w`, a cell outside it holds the fill colour, except the skipped gap cells, which keep their old value. Gap cells are never in the rectangle |
| Blit.RatioOneBlit | library/src/main/jni/image/image_utils.c:234-269 | for ratio 1, a rectangle cell holds the source cell at the same offset (read in bounds); every other cell holds the fill colour with fill, or its old value without |
| Blit.DownsampledCell | library/src/main/jni/image/image_utils.c:135-148 | for ratio above 1, a rectangle cell holds the average of its `ratio x ratio` source block (which lies in bounds), and for `ratio * ratio <= 128` each channel is the block's truncated mean |
| Blit.GapKeepsOldCells | library/src/main/jni/image/image_utils.c:249-258 | with fill, a cell the cursor skips lies outside the rectangle and keeps its old value |
| Blit.WrappedGapExample | library/src/main/jni/image/image_utils.c:247-266 | an 8 x 4 tile halved to column 6 of a 10 x 10 canvas with fill meets `FillFits`; cells 10 and 20 (column 0 of grid rows 1 and 2) keep their old value, and cell 14, in the gap memset, holds the colour |
| Blit.GapNonEmpty | library/src/main/jni/image/image_utils.c:249-258 | for ratio above 1 such a skipped cell exists: the one `width / ratio` cells past the first written cell |

## Left out

- `library/src/main/java/com/hippo/image/ImageBitmap.java` is not part of this model. It holds Android drawing, animation scheduling, reference counting and weak-reference callbacks.
- The runtime endianness probe and its cached global (image_utils.c lines 28-42): the byte order is the explicit parameter `Endian`.
- `color_to_rgba` / `rgba_to_color`: a cell is kept as its four bytes in memory order, so these are field access.
- Raw `void*` byte offsets and `memcpy`. Positions are cell indices. The bulk copy of a ratio-1 row is a simultaneous per-cell assignment.
- Blit.CopyPixels: requires `FillFits` when fill is on. With a ratio above 1, the source computes the gap and tail lengths as `size_t` and would write out of bounds when they go negative. That case is excluded, not modelled.
- Blit.CopyPixelsInternal: requires `FillFits` when fill is on, for the same reason.
- 32-bit integer overflow (for example `dst_w * dst_h * 4`, `src_w * 4 * ratio`, `ratio * ratio`, and negating `INT_MIN`). Integers are unbounded, and `Buffers` assumes the buffer lengths equal the declared dimension products.
- BoxAverage.BlockAverageIsMean: states the exact truncated mean only for `ratio * ratio <= 128`. Above that the remainder byte can wrap (see `RemainderWrapsAtRatio12`), and the result is only characterised as the byte-exact `BlockAverage`.
- BoxAverage.BilinearColor: states the mean only for `ratio * ratio <= 128`, for the same reason.
- Blit.DownsampledCell: states the mean only for `ratio * ratio <= 128`, for the same reason.
- Blit.BlitGrid: with fill, characterises cells outside the rectangle only when `width <= dst_w`. Otherwise the cursor's row slots overlap, and the cell-by-cell statement is left to `Blitted` itself. Without fill it covers every width.
- Rounding.Ceil: for negative num the result is only stated to be a multiple. The clamper calls it only with positive arguments.
- Aliasing or overlap between the source and destination buffers. The source is an immutable sequence, separate from the destination array.
