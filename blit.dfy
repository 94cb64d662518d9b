/**
  * The pixel copier of image_utils.c: `memset_int`, `copy_color_internal`,
  * `copy_color`, the copy half of `copy_pixels_internal` and `copy_pixels`.
  * Buffers are arrays of cells, row-major without padding; byte offsets of
  * the source become cell indices.
  *
  * The destination cursor of `copy_pixels_internal` advances by the source
  * extent `width` after each row and then by `dst_w - width`, so rows start
  * `dst_w` cells apart as they should, but the fill between rows starts
  * `width` cells after the row start even though only `width / ratio` cells
  * were written. The specification below (`Painted`, `Blitted`) follows the
  * code: for ratio > 1 the cells in between keep their old contents.
  */
module Blit {
  import opened Wrappers
  import opened Rounding
  import opened Pixels
  import opened BoxAverage
  import opened Geometry

  /** s with the `size` cells from index `from` on set to val. */
  function Fill(s: seq<Cell>, from: int, size: int, val: Cell): seq<Cell>
    requires 0 <= from && 0 <= size && from + size <= |s|
  {
    seq(|s|, i requires 0 <= i < |s| => if from <= i < from + size then val else s[i])
  }

  /** s with row written over it from index pos on. */
  function Overlay(s: seq<Cell>, pos: int, row: seq<Cell>): seq<Cell>
    requires 0 <= pos && pos + |row| <= |s|
  {
    seq(|s|, i requires 0 <= i < |s| => if pos <= i < pos + |row| then row[i - pos] else s[i])
  }

  /** `memset_int`: writes `size` copies of val from index `from` on, and nothing else. */
  method MemsetInt(dst: array<Cell>, from: int, size: int, val: Cell)
    requires 0 <= from && 0 <= size && from + size <= dst.Length
    modifies dst
    ensures dst[..] == Fill(old(dst[..]), from, size, val)
  {
    var ptr := from;
    while ptr < from + size
      invariant from <= ptr <= from + size
      invariant forall i :: 0 <= i < dst.Length ==> dst[i] == if from <= i < ptr then val else old(dst[i])
    {
      dst[ptr] := val;
      ptr := ptr + 1;
    }
  }

  /**
    * A source row of `cols` output cells starting at srcPos can be read:
    * its last block (ratio rows of ratio cells, rows srcW apart) ends inside src.
    */
  predicate RowFits(src: seq<Cell>, srcW: int, srcPos: int, ratio: int, cols: int) {
    ratio >= 1 && srcW >= 0 && srcPos >= 0 && cols >= 0 &&
    srcPos + (ratio - 1) * srcW + cols * ratio <= |src|
  }

  /** Every block of a row that fits lies inside src. */
  lemma BlockInRow(src: seq<Cell>, srcW: int, srcPos: int, ratio: int, cols: int, k: int)
    requires RowFits(src, srcW, srcPos, ratio, cols) && 0 <= k < cols
    ensures BlockFits(src, srcW, srcPos + k * ratio, ratio)
  {
    MulMonotone(k + 1, cols, ratio);
  }

  /**
    * Output cell k of a row: a straight copy when ratio is 1, otherwise the
    * average of the ratio x ratio block starting k * ratio cells further on.
    */
  function OutputCell(src: seq<Cell>, srcW: int, srcPos: int, ratio: int, cols: int, k: int): Cell
    requires RowFits(src, srcW, srcPos, ratio, cols) && 0 <= k < cols
  {
    if ratio == 1 then src[srcPos + k] else AveragedCell(src, srcW, srcPos, ratio, cols, k)
  }

  /** The average of block k of a row, the block starting k * ratio cells after srcPos. */
  function AveragedCell(src: seq<Cell>, srcW: int, srcPos: int, ratio: int, cols: int, k: int): Cell
    requires RowFits(src, srcW, srcPos, ratio, cols) && 0 <= k < cols
  {
    BlockInRow(src, srcW, srcPos, ratio, cols, k);
    BlockAverage(src, srcW, srcPos + k * ratio, ratio)
  }

  /** The cells one row of the output gets: cols output cells from srcPos on. */
  function RowOut(src: seq<Cell>, srcW: int, srcPos: int, ratio: int, cols: int): (row: seq<Cell>)
    requires RowFits(src, srcW, srcPos, ratio, cols)
    ensures |row| == cols
  {
    seq(cols, k requires 0 <= k < cols => OutputCell(src, srcW, srcPos, ratio, cols, k))
  }

  /** `copy_color_internal`: count averaged cells, the source cursor moving ratio cells each time. */
  method CopyColorInternal(dst: array<Cell>, dstPos: int, src: seq<Cell>, srcW: int, srcPos: int, count: int, ratio: int)
    requires ratio > 1 && RowFits(src, srcW, srcPos, ratio, count)
    requires 0 <= dstPos && dstPos + count <= dst.Length
    modifies dst
    ensures dst[..] == Overlay(old(dst[..]), dstPos, RowOut(src, srcW, srcPos, ratio, count))
  {
    var n := 0;
    var s := srcPos;
    while n < count
      invariant 0 <= n <= count && s == srcPos + n * ratio
      invariant forall i :: 0 <= i < dst.Length ==>
                  dst[i] == if dstPos <= i < dstPos + n
                            then AveragedCell(src, srcW, srcPos, ratio, count, i - dstPos)
                            else old(dst[i])
    {
      BlockInRow(src, srcW, srcPos, ratio, count, n);
      var c := BilinearColor(src, srcW, s, ratio);
      assert c == AveragedCell(src, srcW, srcPos, ratio, count, n);
      dst[dstPos + n] := c;
      assert s + ratio == srcPos + (n + 1) * ratio;
      n := n + 1;
      s := s + ratio;
    }
  }

  /**
    * `copy_color`: one row. With ratio 1 a bulk copy of count cells (the
    * source's memcpy, here a simultaneous assignment); otherwise
    * count / ratio averaged cells.
    */
  method CopyColor(dst: array<Cell>, dstPos: int, src: seq<Cell>, srcW: int, srcPos: int, count: int, ratio: int)
    requires ratio >= 1 && count >= 0 && RowFits(src, srcW, srcPos, ratio, count / ratio)
    requires 0 <= dstPos && dstPos + count / ratio <= dst.Length
    modifies dst
    ensures dst[..] == Overlay(old(dst[..]), dstPos, RowOut(src, srcW, srcPos, ratio, count / ratio))
  {
    if ratio == 1 {
      forall k | 0 <= k < count {
        dst[dstPos + k] := src[srcPos + k];
      }
    } else {
      CopyColorInternal(dst, dstPos, src, srcW, srcPos, count / ratio, ratio);
    }
  }

  /** Both buffers have the sizes the request declares for them. */
  predicate Buffers(q: Request, srcLen: int, dstLen: int) {
    q.dstW >= 0 && q.dstH >= 0 && q.srcW >= 0 && q.srcH >= 0 &&
    dstLen == q.dstW * q.dstH && srcLen == q.srcW * q.srcH
  }

  /** Destination rows written: `height / ratio`. */
  function Rows(q: Request, g: Region): int
    requires q.ratio > 0
  {
    g.y.len / q.ratio
  }

  /** Destination cells written per row: `width / ratio`. */
  function Cols(q: Request, g: Region): int
    requires q.ratio > 0
  {
    g.x.len / q.ratio
  }

  /** Index of the first destination cell written: `dst_y * dst_w + dst_x`. */
  function Start(q: Request, g: Region): int {
    g.y.dst * q.dstW + g.x.dst
  }

  /** Index of the first source cell read for destination row l. */
  function SrcRow(q: Request, g: Region, l: int): int {
    (g.y.src + l * q.ratio) * q.srcW + g.x.src
  }

  /**
    * The shape of a clamped region in the units the copier uses: whole
    * blocks of ratio cells, at least one in each direction, inside both
    * buffers.
    */
  predicate Shaped(q: Request, g: Region) {
    q.ratio >= 1 &&
    Rows(q, g) >= 1 && Rows(q, g) * q.ratio == g.y.len &&
    Cols(q, g) >= 1 && Cols(q, g) * q.ratio == g.x.len && Cols(q, g) <= g.x.len &&
    0 <= g.x.dst && g.x.dst + Cols(q, g) <= q.dstW && 0 <= g.y.dst && g.y.dst + Rows(q, g) <= q.dstH &&
    0 <= g.x.src && g.x.src + g.x.len <= q.srcW && 0 <= g.y.src && g.y.src + g.y.len <= q.srcH
  }

  /** Every region the clamper accepts has that shape. */
  lemma ClampShape(q: Request, g: Region)
    requires Clamp(q) == Some(g)
    ensures Shaped(q, g)
  {
    PlacedBlocks(g.x, q.ratio, q.srcW, q.dstW);
    PlacedBlocks(g.y, q.ratio, q.srcH, q.dstH);
  }

  /** A placed axis holds a whole number (at least one, at most its length) of blocks. */
  lemma PlacedBlocks(a: Axis, ratio: int, srcSize: int, dstSize: int)
    requires Placed(a, ratio, srcSize, dstSize)
    ensures a.len / ratio >= 1 && (a.len / ratio) * ratio == a.len && a.len / ratio <= a.len
  {
    var n := a.len / ratio;
    assert n * ratio == a.len;
    MulStrict(0, n, ratio);
    MulMonotone(1, ratio, n);
  }

  /** Destination row l < Rows lies inside the destination buffer. */
  lemma DestRowFits(q: Request, g: Region, l: int)
    requires Shaped(q, g) && q.dstW >= 0 && q.dstH >= 0 && 0 <= l < Rows(q, g)
    ensures 0 <= Start(q, g) + l * q.dstW
    ensures Start(q, g) + l * q.dstW + Cols(q, g) <= q.dstW * q.dstH
  {
    GridRow(g.y.dst, l, g.x.dst, Cols(q, g), q.dstW, q.dstH);
  }

  /** Row y0 + l of a w-by-h grid, from column x for cols cells, is inside the grid. */
  lemma GridRow(y0: int, l: int, x: int, cols: int, w: int, h: int)
    requires w >= 0 && 0 <= y0 && 0 <= l && y0 + l < h && 0 <= x && x + cols <= w
    ensures 0 <= y0 * w + x + l * w
    ensures y0 * w + x + l * w + cols <= w * h
  {
    var y := y0 + l;
    assert y0 * w + l * w == y * w;
    MulMonotone(0, y, w);
    MulMonotone(y + 1, h, w);
    assert (y + 1) * w == y * w + w;
  }

  /** Every source read for destination row l < Rows stays inside the source buffer. */
  lemma SourceRowFits(q: Request, g: Region, src: seq<Cell>, l: int)
    requires Shaped(q, g) && q.srcW >= 0 && q.srcH >= 0 && |src| == q.srcW * q.srcH
    requires 0 <= l < Rows(q, g)
    ensures RowFits(src, q.srcW, SrcRow(q, g, l), q.ratio, Cols(q, g))
  {
    SourceGrid(g.y.src, l, q.ratio, Rows(q, g), g.x.src, Cols(q, g), q.srcW, q.srcH);
  }

  /**
    * The ratio-high band of source rows for destination row l, from column
    * xs for cols blocks of ratio cells, is inside a sw-by-sh source.
    */
  lemma SourceGrid(ys: int, l: int, r: int, rows: int, xs: int, cols: int, sw: int, sh: int)
    requires r >= 1 && sw >= 0 && 0 <= ys && 0 <= l < rows && ys + rows * r <= sh
    requires 0 <= xs && xs + cols * r <= sw
    ensures 0 <= (ys + l * r) * sw + xs
    ensures (ys + l * r) * sw + xs + (r - 1) * sw + cols * r <= sw * sh
  {
    var top := ys + l * r;
    MulMonotone(0, l, r);
    MulMonotone(0, top, sw);
    MulMonotone(l + 1, rows, r);
    assert (l + 1) * r == l * r + r;
    MulMonotone(top + r, sh, sw);
    assert (top + r) * sw == top * sw + (r - 1) * sw + sw;
  }

  /** The cell destination row l gets at column c (c < Cols): the `copy_color` output for that row. */
  function RowCell(q: Request, g: Region, src: seq<Cell>, l: int, c: int): Cell
    requires Shaped(q, g) && q.srcW >= 0 && q.srcH >= 0 && |src| == q.srcW * q.srcH
    requires 0 <= l < Rows(q, g) && 0 <= c < Cols(q, g)
  {
    SourceRowFits(q, g, src, l);
    OutputCell(src, q.srcW, SrcRow(q, g, l), q.ratio, Cols(q, g), c)
  }

  /**
    * With fill, the whole destination can be painted without writing past
    * its end: between rows the gap `dst_w - width` is not negative, and the
    * last row's start plus `width` is inside the buffer. Both always hold
    * for ratio 1 (see `RatioOneFillFits`); for ratio > 1 the source computes
    * these lengths as `size_t` and would write out of bounds otherwise.
    */
  predicate FillFits(q: Request) {
    match Clamp(q)
    case None => true
    case Some(g) => ClampShape(q, g); RegionFillFits(q, g)
  }

  /** `FillFits` for the clamped region g. */
  predicate RegionFillFits(q: Request, g: Region)
    requires q.ratio > 0
  {
    (Rows(q, g) == 1 || g.x.len <= q.dstW) &&
    Start(q, g) + (Rows(q, g) - 1) * q.dstW + g.x.len <= q.dstW * q.dstH
  }


  /** Where an offset from `Start` stands after some rows of a blit. */
  datatype Slot = Copied(row: int, col: int) | Filled | Kept

  /**
    * Offset j lies in row slot j / w at column j % w. It is copied when its
    * slot is below done and its column below cols; with fill it is painted
    * when it precedes the first row, or lies between two copied rows at a
    * column from width on; otherwise it keeps its old value.
    */
  function Classify(j: int, w: int, done: int, cols: int, width: int, fill: bool): (s: Slot)
    requires w > 0
    ensures s.Copied? ==> 0 <= s.row < done && 0 <= s.col < cols && 0 <= s.col < w && j == s.row * w + s.col
  {
    var l, c := j / w, j % w;
    if 0 <= j && l < done && c < cols then Copied(l, c)
    else if fill && (j < 0 || (l < done - 1 && c >= width)) then Filled
    else Kept
  }

  /** Before any row is copied only the offsets before the first row are filled. */
  lemma ClassifyNone(j: int, w: int, cols: int, width: int, fill: bool)
    requires w > 0
    ensures Classify(j, w, 0, cols, width, fill) == if fill && j < 0 then Filled else Kept
  {
    if j >= 0 {
      EuclidFacts(j, w);
    }
  }

  /**
    * Copying row `line` turns that row's first cols offsets into copies and,
    * with fill and after the first row, fills the gap from width offsets
    * after the previous row's start up to this row's start.
    */
  lemma ClassifyStep(j: int, w: int, line: int, cols: int, width: int, fill: bool)
    requires w > 0 && line >= 0 && 0 <= cols <= width && cols <= w
    requires fill && line >= 1 ==> width <= w
    ensures Classify(j, w, line + 1, cols, width, fill)
         == if line * w <= j < line * w + cols then Copied(line, j - line * w)
            else if fill && line >= 1 && line * w - w + width <= j < line * w then Filled
            else Classify(j, w, line, cols, width, fill)
  {
    assert line * w - w == (line - 1) * w;
    if line * w <= j < line * w + cols {
      DivModUnique(j, w, line, j - line * w);
    } else if fill && line >= 1 && line * w - w + width <= j < line * w {
      DivModUnique(j, w, line - 1, j - (line - 1) * w);
    } else if j >= 0 {
      EuclidFacts(j, w);
    }
  }

  /**
    * The destination after the first `done` rows of a clamped blit, d0 being
    * the destination before, classified by offset from `Start` with rows of
    * `dst_w` cells, `Cols` copied cells and a gap from `width` on.
    */
  function Painted(q: Request, g: Region, src: seq<Cell>, d0: seq<Cell>, fill: bool, color: Cell,
                   done: int, i: int): Cell
    requires Shaped(q, g) && Buffers(q, |src|, |d0|)
    requires 0 <= done <= Rows(q, g) && 0 <= i < |d0|
  {
    match Classify(i - Start(q, g), q.dstW, done, Cols(q, g), g.x.len, fill)
    case Copied(l, c) => RowCell(q, g, src, l, c)
    case Filled => color
    case Kept => d0[i]
  }

  /**
    * The destination after `copy_pixels` with the native fill colour color:
    * a rejected request leaves it unchanged, or paints it all with fill; an
    * accepted one is `Painted` after all rows, with fill also painting from
    * `width` cells after the last row's start to the end.
    */
  function Blitted(q: Request, src: seq<Cell>, d0: seq<Cell>, fill: bool, color: Cell): (r: seq<Cell>)
    requires Buffers(q, |src|, |d0|)
    ensures |r| == |d0|
  {
    match Clamp(q)
    case None => if fill then seq(|d0|, _ => color) else d0
    case Some(g) =>
      ClampShape(q, g);
      BlittedRegion(q, g, src, d0, fill, color)
  }

  /** `Blitted` for an accepted request with clamped region g. */
  function BlittedRegion(q: Request, g: Region, src: seq<Cell>, d0: seq<Cell>, fill: bool, color: Cell): (r: seq<Cell>)
    requires Shaped(q, g) && Buffers(q, |src|, |d0|)
    ensures |r| == |d0|
  {
    seq(|d0|, i requires 0 <= i < |d0| =>
      if fill && i - Start(q, g) >= (Rows(q, g) - 1) * q.dstW + g.x.len then color
      else Painted(q, g, src, d0, fill, color, Rows(q, g), i))
  }

  /** Before any row is copied only the leading fill has been applied. */
  lemma PaintedNone(q: Request, g: Region, src: seq<Cell>, d0: seq<Cell>, fill: bool, color: Cell, i: int)
    requires Shaped(q, g) && Buffers(q, |src|, |d0|) && 0 <= i < |d0|
    ensures Painted(q, g, src, d0, fill, color, 0, i) == if fill && i < Start(q, g) then color else d0[i]
  {
    ClassifyNone(i - Start(q, g), q.dstW, Cols(q, g), g.x.len, fill);
  }

  /**
    * Copying row `line` adds that row's cells and, with fill and after the
    * first row, paints the gap from `width` cells after the previous row's
    * start up to this row's start.
    */
  lemma PaintedStep(q: Request, g: Region, src: seq<Cell>, d0: seq<Cell>, fill: bool, color: Cell,
                    line: int, i: int)
    requires Shaped(q, g) && Buffers(q, |src|, |d0|)
    requires 0 <= line < Rows(q, g) && 0 <= i < |d0|
    requires fill && line >= 1 ==> g.x.len <= q.dstW
    ensures var rowStart := Start(q, g) + line * q.dstW;
            Painted(q, g, src, d0, fill, color, line + 1, i)
            == if rowStart <= i < rowStart + Cols(q, g)
               then RowCell(q, g, src, line, i - rowStart)
               else if fill && line >= 1 && rowStart - q.dstW + g.x.len <= i < rowStart then color
               else Painted(q, g, src, d0, fill, color, line, i)
  {
    ClassifyStep(i - Start(q, g), q.dstW, line, Cols(q, g), g.x.len, fill);
  }

  /** One source stride (`src_w * ratio` cells) moves to the next destination row's band. */
  lemma SrcRowNext(q: Request, g: Region, l: int)
    ensures SrcRow(q, g, l) + q.srcW * q.ratio == SrcRow(q, g, l + 1)
  {
    assert (g.y.src + (l + 1) * q.ratio) * q.srcW == (g.y.src + l * q.ratio) * q.srcW + q.srcW * q.ratio;
  }

  /** The whole destination after the first `done` rows. */
  function PaintedSeq(q: Request, g: Region, src: seq<Cell>, d0: seq<Cell>, fill: bool, color: Cell,
                      done: int): (r: seq<Cell>)
    requires Shaped(q, g) && Buffers(q, |src|, |d0|) && 0 <= done <= Rows(q, g)
    ensures |r| == |d0|
  {
    seq(|d0|, i requires 0 <= i < |d0| => Painted(q, g, src, d0, fill, color, done, i))
  }

  /**
    * The destination just before row `line` is copied: for the first row,
    * with fill, the cells before `Start` painted; for a later row, with
    * fill and a non-empty gap, the `dst_w - width` cells from `width`
    * cells past the previous row's start painted.
    */
  function BeforeRow(q: Request, g: Region, src: seq<Cell>, d0: seq<Cell>, fill: bool, color: Cell,
                     line: int): (r: seq<Cell>)
    requires Shaped(q, g) && Buffers(q, |src|, |d0|) && 0 <= line < Rows(q, g)
    requires fill && line >= 1 ==> g.x.len <= q.dstW
    ensures |r| == |d0|
  {
    DestRowFits(q, g, 0);
    if line == 0 then
      if fill then Fill(d0, 0, Start(q, g), color) else d0
    else
      DestRowFits(q, g, line - 1);
      DestRowFits(q, g, line);
      assert Start(q, g) + (line - 1) * q.dstW + q.dstW == Start(q, g) + line * q.dstW;
      var p := PaintedSeq(q, g, src, d0, fill, color, line);
      if fill && q.dstW - g.x.len != 0
      then Fill(p, Start(q, g) + (line - 1) * q.dstW + g.x.len, q.dstW - g.x.len, color)
      else p
  }

  /** The destination after row `line` is copied over `BeforeRow`. */
  function AfterRow(q: Request, g: Region, src: seq<Cell>, d0: seq<Cell>, fill: bool, color: Cell,
                    line: int): (r: seq<Cell>)
    requires Shaped(q, g) && Buffers(q, |src|, |d0|) && 0 <= line < Rows(q, g)
    requires fill && line >= 1 ==> g.x.len <= q.dstW
    ensures |r| == |d0|
  {
    DestRowFits(q, g, line);
    SourceRowFits(q, g, src, line);
    Overlay(BeforeRow(q, g, src, d0, fill, color, line), Start(q, g) + line * q.dstW,
            RowOut(src, q.srcW, SrcRow(q, g, line), q.ratio, Cols(q, g)))
  }

  /** Copying row `line` (with the fill before it) takes `Painted` from line rows to line + 1. */
  lemma RowStep(q: Request, g: Region, src: seq<Cell>, d0: seq<Cell>, fill: bool, color: Cell, line: int)
    requires Shaped(q, g) && Buffers(q, |src|, |d0|) && 0 <= line < Rows(q, g)
    requires fill && line >= 1 ==> g.x.len <= q.dstW
    ensures AfterRow(q, g, src, d0, fill, color, line) == PaintedSeq(q, g, src, d0, fill, color, line + 1)
  {
    var after := AfterRow(q, g, src, d0, fill, color, line);
    var before := BeforeRow(q, g, src, d0, fill, color, line);
    var rowStart := Start(q, g) + line * q.dstW;
    assert rowStart - q.dstW == Start(q, g) + (line - 1) * q.dstW;
    forall i | 0 <= i < |d0|
      ensures after[i] == Painted(q, g, src, d0, fill, color, line + 1, i)
    {
      PaintedStep(q, g, src, d0, fill, color, line, i);
      if line == 0 {
        PaintedNone(q, g, src, d0, fill, color, i);
      }
      if !(rowStart <= i < rowStart + Cols(q, g)) {
        assert after[i] == before[i];
      }
    }
  }

  /** Where the gap before row `line` (line >= 1) starts and ends, and that the row fits after it. */
  lemma GapBounds(q: Request, g: Region, line: int)
    requires Shaped(q, g) && q.dstW >= 0 && q.dstH >= 0 && 1 <= line < Rows(q, g)
    ensures 0 <= Start(q, g) + (line - 1) * q.dstW + g.x.len
    ensures Start(q, g) + (line - 1) * q.dstW + g.x.len + (q.dstW - g.x.len) == Start(q, g) + line * q.dstW
    ensures 0 <= Start(q, g) + line * q.dstW && Start(q, g) + line * q.dstW + Cols(q, g) <= q.dstW * q.dstH
  {
    DestRowFits(q, g, line - 1);
    DestRowFits(q, g, line);
    assert (line - 1) * q.dstW + q.dstW == line * q.dstW;
  }

  /** The gap fill of `NextRow` produces `BeforeRow`. */
  lemma GapIsBeforeRow(q: Request, g: Region, src: seq<Cell>, d0: seq<Cell>, fill: bool, color: Cell,
                       line: int, prev: seq<Cell>, gapped: seq<Cell>)
    requires Shaped(q, g) && Buffers(q, |src|, |d0|) && 1 <= line < Rows(q, g)
    requires fill ==> g.x.len <= q.dstW
    requires prev == PaintedSeq(q, g, src, d0, fill, color, line)
    requires fill && q.dstW - g.x.len != 0 ==>
      0 <= Start(q, g) + (line - 1) * q.dstW + g.x.len &&
      Start(q, g) + (line - 1) * q.dstW + g.x.len + (q.dstW - g.x.len) <= |prev| &&
      gapped == Fill(prev, Start(q, g) + (line - 1) * q.dstW + g.x.len, q.dstW - g.x.len, color)
    requires !(fill && q.dstW - g.x.len != 0) ==> gapped == prev
    ensures gapped == BeforeRow(q, g, src, d0, fill, color, line)
  {
  }

  /** The row copy of `NextRow` turns `BeforeRow` into `Painted` for one more row. */
  lemma CopyIsAfterRow(q: Request, g: Region, src: seq<Cell>, d0: seq<Cell>, fill: bool, color: Cell,
                       line: int, gapped: seq<Cell>, out: seq<Cell>)
    requires Shaped(q, g) && Buffers(q, |src|, |d0|) && 0 <= line < Rows(q, g)
    requires fill && line >= 1 ==> g.x.len <= q.dstW
    requires gapped == BeforeRow(q, g, src, d0, fill, color, line)
    requires RowFits(src, q.srcW, SrcRow(q, g, line), q.ratio, g.x.len / q.ratio)
    requires 0 <= Start(q, g) + line * q.dstW && Start(q, g) + line * q.dstW + g.x.len / q.ratio <= |gapped|
    requires out == Overlay(gapped, Start(q, g) + line * q.dstW,
                            RowOut(src, q.srcW, SrcRow(q, g, line), q.ratio, g.x.len / q.ratio))
    ensures out == PaintedSeq(q, g, src, d0, fill, color, line + 1)
  {
    RowStep(q, g, src, d0, fill, color, line);
  }

  /**
    * After the last row, with fill, painting from the cursor (`width` cells
    * past the last row's start) to the end gives `BlittedRegion`; without
    * fill the rows alone do.
    */
  lemma FinishBlit(q: Request, g: Region, src: seq<Cell>, d0: seq<Cell>, fill: bool, color: Cell, out: seq<Cell>)
    requires Shaped(q, g) && Buffers(q, |src|, |d0|)
    requires fill ==> RegionFillFits(q, g)
    requires fill ==> 0 <= Start(q, g) + (Rows(q, g) - 1) * q.dstW + g.x.len
    requires out == if fill
      then Fill(PaintedSeq(q, g, src, d0, fill, color, Rows(q, g)), Start(q, g) + (Rows(q, g) - 1) * q.dstW + g.x.len,
                q.dstW * q.dstH - (Start(q, g) + (Rows(q, g) - 1) * q.dstW + g.x.len), color)
      else PaintedSeq(q, g, src, d0, fill, color, Rows(q, g))
    ensures out == BlittedRegion(q, g, src, d0, fill, color)
  {
    var b := BlittedRegion(q, g, src, d0, fill, color);
    forall i | 0 <= i < |d0|
      ensures out[i] == b[i]
    {
    }
  }

  /**
    * `copy_pixels_internal`: clamps the request and, when it is accepted,
    * copies the clamped region (`CopyRegion`); a rejected request changes
    * nothing.
    */
  method CopyPixelsInternal(dst: array<Cell>, src: seq<Cell>, q: Request, fillBlank: bool, fillColor: Cell)
      returns (ok: bool)
    requires Buffers(q, |src|, dst.Length)
    requires fillBlank ==> FillFits(q)
    modifies dst
    ensures ok == Clamp(q).Some?
    ensures dst[..] == if ok then Blitted(q, src, old(dst[..]), fillBlank, fillColor) else old(dst[..])
  {
    var clamped := Clamp(q);
    if clamped.None? {
      return false;
    }
    ClampShape(q, clamped.value);
    CopyRegion(dst, src, q, clamped.value, fillBlank, fillColor);
    return true;
  }

  /**
    * One pass of the row loop of `copy_pixels_internal`: fills the gap of
    * blank cells after the previous row when filling and blank is not 0,
    * copies row `line`, and advances both cursors.
    */
  method NextRow(dst: array<Cell>, src: seq<Cell>, q: Request, g: Region, ghost d0: seq<Cell>,
                 fillBlank: bool, fillColor: Cell, line: int, dstPos: int, srcPos: int, blank: int)
      returns (dstPos': int, srcPos': int)
    requires Shaped(q, g) && Buffers(q, |src|, dst.Length) && |d0| == dst.Length
    requires fillBlank ==> RegionFillFits(q, g)
    requires 1 <= line < Rows(q, g) && blank == q.dstW - g.x.len
    requires dstPos == Start(q, g) + (line - 1) * q.dstW + g.x.len && srcPos == SrcRow(q, g, line)
    requires dst[..] == PaintedSeq(q, g, src, d0, fillBlank, fillColor, line)
    modifies dst
    ensures dstPos' == Start(q, g) + line * q.dstW + g.x.len && srcPos' == SrcRow(q, g, line + 1)
    ensures dst[..] == PaintedSeq(q, g, src, d0, fillBlank, fillColor, line + 1)
  {
    GapBounds(q, g, line);
    ghost var prev := dst[..];
    if fillBlank && blank != 0 {
      MemsetInt(dst, dstPos, blank, fillColor);
    }
    GapIsBeforeRow(q, g, src, d0, fillBlank, fillColor, line, prev, dst[..]);
    var rowPos := dstPos + blank;
    SourceRowFits(q, g, src, line);
    ghost var gapped := dst[..];
    CopyColor(dst, rowPos, src, q.srcW, srcPos, g.x.len, q.ratio);
    CopyIsAfterRow(q, g, src, d0, fillBlank, fillColor, line, gapped, dst[..]);
    SrcRowNext(q, g, line);
    dstPos', srcPos' := rowPos + g.x.len, srcPos + q.srcW * q.ratio;
  }

  /**
    * The copying half of `copy_pixels_internal`, from its initial cursors
    * on: copies `height / ratio` rows of `width / ratio` cells, moving the
    * destination cursor by `width` per row plus `dst_w - width` between
    * rows; with fill it paints the leading cells, the gaps (when not empty)
    * and everything from the cursor to the end with fillColor.
    */
  method CopyRegion(dst: array<Cell>, src: seq<Cell>, q: Request, g: Region, fillBlank: bool, fillColor: Cell)
    requires Shaped(q, g) && Buffers(q, |src|, dst.Length)
    requires fillBlank ==> RegionFillFits(q, g)
    modifies dst
    ensures dst[..] == BlittedRegion(q, g, src, old(dst[..]), fillBlank, fillColor)
  {
    ghost var d0 := dst[..];
    var ratio, width := q.ratio, g.x.len;
    var srcPos := (g.y.src * q.srcW + g.x.src);
    assert srcPos == SrcRow(q, g, 0);

    // The leading blank and the first row.
    var blank := g.y.dst * q.dstW + g.x.dst;
    DestRowFits(q, g, 0);
    if fillBlank {
      MemsetInt(dst, 0, blank, fillColor);
    }
    assert dst[..] == BeforeRow(q, g, src, d0, fillBlank, fillColor, 0);
    var dstPos := blank;
    SourceRowFits(q, g, src, 0);
    CopyColor(dst, dstPos, src, q.srcW, srcPos, width, ratio);
    assert dst[..] == AfterRow(q, g, src, d0, fillBlank, fillColor, 0);
    RowStep(q, g, src, d0, fillBlank, fillColor, 0);
    dstPos := dstPos + width;
    SrcRowNext(q, g, 0);
    srcPos := srcPos + q.srcW * ratio;

    // The other rows, each after a gap of dst_w - width cells.
    blank := q.dstW - width;
    var line := 1;
    while line < g.y.len / ratio
      invariant 1 <= line <= Rows(q, g)
      invariant dstPos == Start(q, g) + (line - 1) * q.dstW + width
      invariant srcPos == SrcRow(q, g, line)
      invariant dst[..] == PaintedSeq(q, g, src, d0, fillBlank, fillColor, line)
    {
      dstPos, srcPos := NextRow(dst, src, q, g, d0, fillBlank, fillColor, line, dstPos, srcPos, blank);
      line := line + 1;
    }

    // The trailing blank.
    DestRowFits(q, g, line - 1);
    if fillBlank {
      MemsetInt(dst, dstPos, q.dstW * q.dstH - dstPos, fillColor);
    }
    FinishBlit(q, g, src, d0, fillBlank, fillColor, dst[..]);
  }

  /**
    * `copy_pixels`: converts the fill colour to the native byte order (the
    * colour is 0 without fill), runs the internal copy, and when the
    * request is rejected and fill is on paints the whole destination.
    */
  method CopyPixels(e: Endian, dst: array<Cell>, src: seq<Cell>, q: Request, fillBlank: bool, fillColor: Cell)
    requires Buffers(q, |src|, dst.Length)
    requires fillBlank ==> FillFits(q)
    modifies dst
    ensures dst[..] == Blitted(q, src, old(dst[..]), fillBlank, ConvertColor(e, fillColor))
  {
    var color := Cell(0, 0, 0, 0);
    if fillBlank {
      color := ConvertColor(e, fillColor);
    }
    ghost var d0 := dst[..];
    var ok := CopyPixelsInternal(dst, src, q, fillBlank, color);
    if !ok && fillBlank {
      MemsetInt(dst, 0, q.dstW * q.dstH, color);
    }
    UnfilledIgnoresColor(q, src, d0, color, ConvertColor(e, fillColor));
  }

  /** Without fill the colour plays no part in the result. */
  lemma UnfilledIgnoresColor(q: Request, src: seq<Cell>, d0: seq<Cell>, c1: Cell, c2: Cell)
    requires Buffers(q, |src|, |d0|)
    ensures Blitted(q, src, d0, false, c1) == Blitted(q, src, d0, false, c2)
  {
    match Clamp(q)
    case None =>
    case Some(g) =>
      ClampShape(q, g);
      forall i | 0 <= i < |d0|
        ensures Blitted(q, src, d0, false, c1)[i] == Blitted(q, src, d0, false, c2)[i]
      {
      }
  }

  /**
    * A request whose source rectangle lies wholly outside the source is
    * rejected, so with fill the whole destination becomes the colour.
    */
  lemma OffSourceFillsAll(q: Request, src: seq<Cell>, d0: seq<Cell>, color: Cell)
    requires Buffers(q, |src|, |d0|)
    requires q.srcX >= q.srcW || q.srcX + q.width <= 0 || q.srcY >= q.srcH || q.srcY + q.height <= 0
    ensures forall i :: 0 <= i < |d0| ==> Blitted(q, src, d0, true, color)[i] == color
  {
    ClampRejectsOffSource(q);
  }

  /** With ratio 1 the fill precondition always holds. */
  lemma RatioOneFillFits(q: Request)
    requires q.ratio == 1 && q.dstW >= 0 && q.dstH >= 0
    ensures FillFits(q)
  {
    match Clamp(q)
    case None =>
    case Some(g) =>
      ClampShape(q, g);
      DestRowFits(q, g, Rows(q, g) - 1);
  }

  /**
    * The fill precondition fails whenever more than one row is written and
    * `width` exceeds `dst_w`: the gap length `dst_w - width` of line 253 is
    * then negative.
    */
  lemma WideRowsBreakFill(q: Request, g: Region)
    requires Clamp(q) == Some(g) && Rows(q, g) > 1 && g.x.len > q.dstW
    ensures !FillFits(q)
  {
  }

  /**
    * That happens for ordinary calls: halving a 1000 x 1000 tile onto a
    * 500 x 500 canvas is accepted unchanged and writes 500 rows.
    */
  lemma HalvingWideTileBreaksFill(q: Request)
    requires q == Request(500, 500, 0, 0, 1000, 1000, 0, 0, 1000, 1000, 2)
    ensures Clamp(q) == Some(Region(Axis(0, 0, 1000), Axis(0, 0, 1000)))
    ensures !FillFits(q)
  {
    var g := Region(Axis(0, 0, 1000), Axis(0, 0, 1000));
    HalvingWideTileShape(q, g);
    ClampKeepsPlaced(q);
    WideRowsBreakFill(q, g);
  }

  /** The arithmetic of that request: whole blocks inside both buffers, 500 rows of 1000. */
  lemma HalvingWideTileShape(q: Request, g: Region)
    requires q == Request(500, 500, 0, 0, 1000, 1000, 0, 0, 1000, 1000, 2)
    requires g == Region(Axis(0, 0, 1000), Axis(0, 0, 1000))
    ensures g.x == Axis(q.srcX, q.dstX, q.width) && g.y == Axis(q.srcY, q.dstY, q.height)
    ensures Placed(g.x, q.ratio, q.srcW, q.dstW) && Placed(g.y, q.ratio, q.srcH, q.dstH)
    ensures Rows(q, g) == 500 && g.x.len > q.dstW
  {
  }

  /**
    * Cell i of the destination lies in the written rectangle: rows
    * `dst_y ..` and columns `dst_x ..` spanning `Rows` by `Cols` cells.
    */
  predicate InRect(q: Request, g: Region, i: int)
    requires q.ratio > 0
  {
    q.dstW > 0 &&
    g.y.dst <= i / q.dstW < g.y.dst + Rows(q, g) && g.x.dst <= i % q.dstW < g.x.dst + Cols(q, g)
  }

  /**
    * Cell i is one the cursor skips: its offset from `Start` falls in a
    * written row slot at a column from `Cols` up to (not including) `width`.
    * Only a ratio above 1 leaves such cells.
    */
  predicate InGap(q: Request, g: Region, i: int)
    requires q.ratio > 0
  {
    var j := i - Start(q, g);
    q.dstW > 0 && 0 <= j && j / q.dstW < Rows(q, g) && Cols(q, g) <= j % q.dstW < g.x.len
  }

  /** The copied cell at destination index i inside the rectangle. */
  function RectCell(q: Request, g: Region, src: seq<Cell>, i: int): Cell
    requires Shaped(q, g) && q.srcW >= 0 && q.srcH >= 0 && |src| == q.srcW * q.srcH
    requires InRect(q, g, i)
  {
    RowCell(q, g, src, i / q.dstW - g.y.dst, i % q.dstW - g.x.dst)
  }

  /**
    * Offsets from the rectangle's first cell and grid coordinates agree: a
    * cell is in row slot l < rows at column c < cols exactly when it is in
    * grid row Y + l at grid column X + c.
    */
  lemma RectOffsets(i: int, w: int, y0: int, x0: int, rows: int, cols: int)
    requires w > 0 && i >= 0 && 0 <= y0 && 0 <= x0 && x0 + cols <= w
    ensures var j := i - (y0 * w + x0);
      (0 <= j && j / w < rows && j % w < cols)
      <==> (y0 <= i / w < y0 + rows && x0 <= i % w < x0 + cols)
    ensures var j := i - (y0 * w + x0);
      y0 <= i / w < y0 + rows && x0 <= i % w < x0 + cols ==> j / w == i / w - y0 && j % w == i % w - x0
  {
    var j := i - (y0 * w + x0);
    if y0 <= i / w < y0 + rows && x0 <= i % w < x0 + cols {
      GridToOffset(i, w, y0, x0);
    }
    if 0 <= j && j / w < rows && j % w < cols {
      OffsetToGrid(j, w, y0, x0);
    }
  }

  /** A cell at or right of (x0, y0) in the grid is at offset (row, column) from it. */
  lemma GridToOffset(i: int, w: int, y0: int, x0: int)
    requires w > 0 && i >= 0 && 0 <= x0 && y0 <= i / w && x0 <= i % w
    ensures var j := i - (y0 * w + x0); j / w == i / w - y0 && j % w == i % w - x0
  {
    EuclidFacts(i, w);
    var j := i - (y0 * w + x0);
    assert j == (i / w - y0) * w + (i % w - x0);
    DivModUnique(j, w, i / w - y0, i % w - x0);
  }

  /** Offset j from (x0, y0), with a column inside the row, is grid cell (x0 + column, y0 + row). */
  lemma OffsetToGrid(j: int, w: int, y0: int, x0: int)
    requires w > 0 && j >= 0 && 0 <= x0 && x0 + j % w < w
    ensures var i := j + (y0 * w + x0); i / w == y0 + j / w && i % w == x0 + j % w
  {
    EuclidFacts(j, w);
    var i := j + (y0 * w + x0);
    assert i == (y0 + j / w) * w + (x0 + j % w);
    DivModUnique(i, w, y0 + j / w, x0 + j % w);
  }

  /**
    * The classification of every cell after all rows, in grid terms: the
    * rectangle is copied; outside it, with fill, the cells before the first
    * row, from `width` past the last row's start on, and between rows at
    * columns from `width` on are painted; the skipped gap cells and, without
    * fill, everything else keep their value.
    */
  lemma ClassifyGrid(i: int, w: int, y0: int, x0: int, rows: int, cols: int, width: int, fill: bool)
    requires w > 0 && i >= 0 && 0 <= y0 && 0 <= x0 && x0 + cols <= w
    requires rows >= 1 && 1 <= cols <= width
    ensures var j := i - (y0 * w + x0);
      var s := Classify(j, w, rows, cols, width, fill);
      var tail := fill && j >= (rows - 1) * w + width;
      var gap := 0 <= j && j / w < rows && cols <= j % w < width;
      if y0 <= i / w < y0 + rows && x0 <= i % w < x0 + cols
      then s == Copied(i / w - y0, i % w - x0) && !tail
      else !s.Copied? && ((width <= w || !fill) ==> (tail || s == if fill && !gap then Filled else Kept) && (tail ==> !gap))
  {
    RectOffsets(i, w, y0, x0, rows, cols);
    ClassifyOffsets(i - (y0 * w + x0), w, rows, cols, width, fill);
  }

  /** `ClassifyGrid` in offsets from the rectangle's first cell. */
  lemma ClassifyOffsets(j: int, w: int, rows: int, cols: int, width: int, fill: bool)
    requires w > 0 && rows >= 1 && 1 <= cols <= width
    ensures var s := Classify(j, w, rows, cols, width, fill);
      var tail := fill && j >= (rows - 1) * w + width;
      var gap := 0 <= j && j / w < rows && cols <= j % w < width;
      if 0 <= j && j / w < rows && j % w < cols
      then s == Copied(j / w, j % w) && !tail
      else !s.Copied? && ((width <= w || !fill) ==> (tail || s == if fill && !gap then Filled else Kept) && (tail ==> !gap))
  {
    if j >= 0 {
      EuclidFacts(j, w);
      var l, c := j / w, j % w;
      if l < rows - 1 {
        MulMonotone(l + 1, rows - 1, w);
        assert j < (rows - 1) * w;
      } else if l >= rows {
        MulMonotone(rows, l, w);
        assert j >= (rows - 1) * w + w;
      } else {
        assert j == (rows - 1) * w + c;
      }
    }
  }

  /**
    * The whole result of an accepted blit, cell by cell: the rectangle
    * holds the copied cells. Without fill every other cell is unchanged,
    * whatever `width` is. With fill, when `width` fits in a destination row
    * (always so for ratio 1, and implied by `FillFits` when more than one
    * row is written), every other cell except the skipped gap holds the
    * colour, and the gap cells are unchanged.
    */
  lemma BlitGrid(q: Request, g: Region, src: seq<Cell>, d0: seq<Cell>, fill: bool, color: Cell, i: int)
    requires Clamp(q) == Some(g) && Buffers(q, |src|, |d0|) && 0 <= i < |d0|
    ensures Shaped(q, g)
    ensures InGap(q, g, i) ==> !InRect(q, g, i)
    ensures InRect(q, g, i) ==> Blitted(q, src, d0, fill, color)[i] == RectCell(q, g, src, i)
    ensures (g.x.len <= q.dstW || !fill) && !InRect(q, g, i) ==>
      Blitted(q, src, d0, fill, color)[i] == if fill && !InGap(q, g, i) then color else d0[i]
  {
    ClampShape(q, g);
    assert Blitted(q, src, d0, fill, color) == BlittedRegion(q, g, src, d0, fill, color);
    RegionGrid(q, g, src, d0, fill, color, i);
  }

  /** `BlitGrid` for the clamped region g. */
  lemma RegionGrid(q: Request, g: Region, src: seq<Cell>, d0: seq<Cell>, fill: bool, color: Cell, i: int)
    requires Shaped(q, g) && Buffers(q, |src|, |d0|) && 0 <= i < |d0|
    ensures InGap(q, g, i) ==> !InRect(q, g, i)
    ensures InRect(q, g, i) ==> BlittedRegion(q, g, src, d0, fill, color)[i] == RectCell(q, g, src, i)
    ensures (g.x.len <= q.dstW || !fill) && !InRect(q, g, i) ==>
      BlittedRegion(q, g, src, d0, fill, color)[i] == if fill && !InGap(q, g, i) then color else d0[i]
  {
    ClassifyGrid(i, q.dstW, g.y.dst, g.x.dst, Rows(q, g), Cols(q, g), g.x.len, fill);
    var b := BlittedRegion(q, g, src, d0, fill, color);
    var j := i - Start(q, g);
    if InRect(q, g, i) {
      assert !(fill && j >= (Rows(q, g) - 1) * q.dstW + g.x.len);
      assert b[i] == Painted(q, g, src, d0, fill, color, Rows(q, g), i);
    } else if g.x.len <= q.dstW || !fill {
      if fill && j >= (Rows(q, g) - 1) * q.dstW + g.x.len {
        assert b[i] == color;
      } else {
        assert b[i] == Painted(q, g, src, d0, fill, color, Rows(q, g), i);
      }
    }
  }

  /**
    * Ratio 1 is a plain rectangle copy: destination cell (x, y) of the
    * rectangle holds source cell (x - dst_x + src_x, y - dst_y + src_y),
    * read in bounds; outside it every cell holds the fill colour with
    * fill, or is unchanged without.
    */
  lemma RatioOneBlit(q: Request, g: Region, src: seq<Cell>, d0: seq<Cell>, fill: bool, color: Cell, i: int)
    requires Clamp(q) == Some(g) && q.ratio == 1 && Buffers(q, |src|, |d0|) && 0 <= i < |d0|
    ensures InRect(q, g, i) ==>
      0 <= (i / q.dstW - g.y.dst + g.y.src) * q.srcW + (i % q.dstW - g.x.dst + g.x.src) < |src|
    ensures Blitted(q, src, d0, fill, color)[i]
      == if InRect(q, g, i) then src[(i / q.dstW - g.y.dst + g.y.src) * q.srcW + (i % q.dstW - g.x.dst + g.x.src)]
         else if fill then color
         else d0[i]
  {
    BlitGrid(q, g, src, d0, fill, color, i);
    if InRect(q, g, i) {
      RatioOneCell(q, g, src, i);
    }
  }

  /** With ratio 1 the copied cell is the source cell at the same offset into the rectangle. */
  lemma RatioOneCell(q: Request, g: Region, src: seq<Cell>, i: int)
    requires Shaped(q, g) && q.ratio == 1 && q.srcW >= 0 && q.srcH >= 0 && |src| == q.srcW * q.srcH
    requires InRect(q, g, i)
    ensures 0 <= (i / q.dstW - g.y.dst + g.y.src) * q.srcW + (i % q.dstW - g.x.dst + g.x.src) < |src|
    ensures RectCell(q, g, src, i) == src[(i / q.dstW - g.y.dst + g.y.src) * q.srcW + (i % q.dstW - g.x.dst + g.x.src)]
  {
    var l, c := i / q.dstW - g.y.dst, i % q.dstW - g.x.dst;
    SourceRowFits(q, g, src, l);
    assert l * q.ratio == l;
    assert SrcRow(q, g, l) + c == (l + g.y.src) * q.srcW + (c + g.x.src);
  }

  /**
    * The source index of the top-left cell of destination cell i's block:
    * `ratio` times its offset into the rectangle, past (src_x, src_y).
    */
  function BlockStart(q: Request, g: Region, i: int): int
    requires q.dstW > 0
  {
    (g.y.src + (i / q.dstW - g.y.dst) * q.ratio) * q.srcW + g.x.src + (i % q.dstW - g.x.dst) * q.ratio
  }

  /**
    * With ratio above 1, destination cell (x, y) of the rectangle holds the
    * average of the ratio-by-ratio source block whose top-left cell is
    * `ratio` times its offset into the rectangle past (src_x, src_y); when
    * `ratio * ratio <= 128` each channel is exactly the truncated mean of
    * that channel over the block.
    */
  lemma DownsampledCell(q: Request, g: Region, src: seq<Cell>, d0: seq<Cell>, fill: bool, color: Cell, i: int)
    requires Clamp(q) == Some(g) && q.ratio > 1 && Buffers(q, |src|, |d0|) && 0 <= i < |d0|
    requires InRect(q, g, i)
    ensures BlockFits(src, q.srcW,
      BlockStart(q, g, i), q.ratio)
    ensures Blitted(q, src, d0, fill, color)[i]
      == BlockAverage(src, q.srcW,
           BlockStart(q, g, i), q.ratio)
    ensures q.ratio * q.ratio <= 128 ==>
      forall k: Channel :: Chan(Blitted(q, src, d0, fill, color)[i], k) as int
        == Sum(Block(src, q.srcW,
                 BlockStart(q, g, i),
                 q.ratio, q.ratio), k) / (q.ratio * q.ratio)
  {
    BlitGrid(q, g, src, d0, fill, color, i);
    RectCellAverage(q, g, src, i);
    if q.ratio * q.ratio <= 128 {
      BlockAverageIsMean(src, q.srcW,
        BlockStart(q, g, i), q.ratio);
    }
  }

  /** A rectangle cell at ratio above 1 is the average of its source block. */
  lemma RectCellAverage(q: Request, g: Region, src: seq<Cell>, i: int)
    requires Shaped(q, g) && q.ratio > 1 && q.srcW >= 0 && q.srcH >= 0 && |src| == q.srcW * q.srcH
    requires InRect(q, g, i)
    ensures BlockFits(src, q.srcW,
      BlockStart(q, g, i), q.ratio)
    ensures RectCell(q, g, src, i)
      == BlockAverage(src, q.srcW,
           BlockStart(q, g, i), q.ratio)
  {
    var l, c := i / q.dstW - g.y.dst, i % q.dstW - g.x.dst;
    SourceRowFits(q, g, src, l);
    BlockInRow(src, q.srcW, SrcRow(q, g, l), q.ratio, Cols(q, g), c);
  }

  /**
    * With fill, the skipped cells keep their old value: the cursor advances
    * by `width` per row, but only `width / ratio` cells are written, and
    * the gap fill starts at the cursor.
    */
  lemma GapKeepsOldCells(q: Request, g: Region, src: seq<Cell>, d0: seq<Cell>, color: Cell, i: int)
    requires Clamp(q) == Some(g) && Buffers(q, |src|, |d0|) && 0 <= i < |d0|
    requires g.x.len <= q.dstW && InGap(q, g, i)
    ensures !InRect(q, g, i)
    ensures Blitted(q, src, d0, true, color)[i] == d0[i]
  {
    BlitGrid(q, g, src, d0, true, color, i);
  }

  /**
    * The skipped cells follow each row's last copied cell in memory order,
    * so when `dst_x + width > dst_w` they run into the first columns of the
    * next grid row. Halving an 8 x 4 tile to column 6 of a 10 x 10 canvas
    * with fill is accepted unchanged and meets `FillFits`, yet cells 10 and
    * 20 (column 0 of grid rows 1 and 2, left of and below the rectangle)
    * keep their old value, while cell 14, in the memset between rows,
    * holds the colour.
    */
  lemma WrappedGapExample(q: Request, src: seq<Cell>, d0: seq<Cell>, color: Cell)
    requires q == Request(10, 10, 6, 0, 10, 10, 0, 0, 8, 4, 2) && Buffers(q, |src|, |d0|)
    ensures FillFits(q)
    ensures Blitted(q, src, d0, true, color)[10] == d0[10]
    ensures Blitted(q, src, d0, true, color)[20] == d0[20]
    ensures Blitted(q, src, d0, true, color)[14] == color
  {
    var g := Region(Axis(0, 6, 8), Axis(0, 0, 4));
    WrappedGapShape(q, g);
    ClampKeepsPlaced(q);
    ClampShape(q, g);
    GapKeepsOldCells(q, g, src, d0, color, 10);
    GapKeepsOldCells(q, g, src, d0, color, 20);
    BlitGrid(q, g, src, d0, true, color, 14);
  }

  /** The arithmetic of `WrappedGapExample`'s request, kept apart from `Clamp`. */
  lemma WrappedGapShape(q: Request, g: Region)
    requires q == Request(10, 10, 6, 0, 10, 10, 0, 0, 8, 4, 2)
    requires g == Region(Axis(0, 6, 8), Axis(0, 0, 4))
    ensures g.x == Axis(q.srcX, q.dstX, q.width) && g.y == Axis(q.srcY, q.dstY, q.height)
    ensures Placed(g.x, q.ratio, q.srcW, q.dstW) && Placed(g.y, q.ratio, q.srcH, q.dstH)
    ensures RegionFillFits(q, g) && g.x.len <= q.dstW
    ensures InGap(q, g, 10) && InGap(q, g, 20)
    ensures !InRect(q, g, 14) && !InGap(q, g, 14)
  {
    assert Rows(q, g) == 2 && Cols(q, g) == 4 && Start(q, g) == 6;
  }

  /**
    * With ratio above 1 there are skipped cells: the one `width / ratio`
    * cells past the rectangle's first cell is one.
    */
  lemma GapNonEmpty(q: Request, g: Region)
    requires Clamp(q) == Some(g) && q.ratio > 1 && g.x.len <= q.dstW && q.dstH >= 0
    ensures InGap(q, g, Start(q, g) + g.x.len / q.ratio)
  {
    ClampShape(q, g);
    FirstSkipped(q, g);
  }

  /** The cell `width / ratio` past the rectangle's first cell is a skipped one. */
  lemma FirstSkipped(q: Request, g: Region)
    requires Shaped(q, g) && q.ratio > 1 && g.x.len <= q.dstW
    ensures InGap(q, g, Start(q, g) + Cols(q, g))
  {
    var cols := Cols(q, g);
    MulMonotone(2, q.ratio, cols);
    DivModUnique(cols, q.dstW, 0, cols);
  }
}
