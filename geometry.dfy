/**
  * The geometry clamper: the first half of `copy_pixels_internal` in
  * image_utils.c. It normalises a blit request against the real sizes of
  * both buffers and either rejects it or yields a non-empty rectangle that
  * is a whole number of ratio x ratio blocks and lies inside both buffers.
  * The source code repeats the same steps for the x and the y axis; here
  * one axis is an `Axis` and each step is written once.
  */
module Geometry {
  import opened Wrappers
  import opened Rounding

  /**
    * A blit request, with the parameters of `copy_pixels`: destination size
    * and offset, source size and offset, the extent to copy (in source
    * cells) and the downsampling ratio.
    */
  datatype Request = Request(
    dstW: int, dstH: int, dstX: int, dstY: int,
    srcW: int, srcH: int, srcX: int, srcY: int,
    width: int, height: int, ratio: int)

  /** One axis of a blit: source offset, destination offset and extent in source cells. */
  datatype Axis = Axis(src: int, dst: int, len: int)

  /** A clamped blit rectangle. */
  datatype Region = Region(x: Axis, y: Axis)

  /** Where on the source the destination origin falls: kept by every clipping step. */
  function Skew(a: Axis, ratio: int): int {
    a.src - ratio * a.dst
  }

  /**
    * An axis is placed when it is a whole, non-empty number of blocks and
    * lies inside a source of `srcSize` cells and a destination of `dstSize` cells.
    */
  predicate Placed(a: Axis, ratio: int, srcSize: int, dstSize: int) {
    ratio > 0 && 0 < a.len && a.len % ratio == 0 &&
    0 <= a.src && a.src + a.len <= srcSize &&
    0 <= a.dst && a.dst + a.len / ratio <= dstSize
  }

  /**
    * Clipping of the leading edge (image_utils.c lines 175-186 for x,
    * 192-203 for y): first a negative source offset is rounded up to the
    * next block boundary, then a negative destination offset is removed;
    * the far edge stays where it was.
    */
  function ClipLeading(a: Axis, ratio: int): (r: Axis)
    requires ratio > 0 && a.len % ratio == 0
    ensures r.src >= 0 && r.dst >= 0
    ensures r.len % ratio == 0
    ensures Skew(r, ratio) == Skew(a, ratio)
    ensures r.src + r.len == a.src + a.len
    ensures r.src >= a.src && r.dst >= a.dst
    ensures r.dst > a.dst ==> r.src < ratio || r.dst == 0
    ensures a.src >= 0 && a.dst >= 0 ==> r == a
  {
    var s := if a.src < 0 then
               var temp := Ceil(-a.src, ratio);
               CDivExact(temp, ratio);
               Shifted(a, temp / ratio, ratio);
               Axis(a.src + temp, a.dst + temp / ratio, a.len - temp)
             else a;
    if s.dst < 0 then
      var temp := -s.dst * ratio;
      Shifted(s, -s.dst, ratio);
      Axis(s.src + temp, 0, s.len - temp)
    else s
  }

  /**
    * Moving the leading edge by t whole blocks (t * ratio source cells,
    * t destination cells) keeps the correspondence, the far edge and the
    * block alignment.
    */
  lemma Shifted(a: Axis, t: int, ratio: int)
    requires ratio > 0 && a.len % ratio == 0
    ensures var r := Axis(a.src + t * ratio, a.dst + t, a.len - t * ratio);
            Skew(r, ratio) == Skew(a, ratio) && r.len % ratio == 0 && r.src + r.len == a.src + a.len
            && t * ratio == ratio * t
  {
    var n := a.len / ratio;
    assert a.len == n * ratio;
    assert a.len - t * ratio == (n - t) * ratio;
    ModMul(n - t, ratio);
    assert ratio * (a.dst + t) == ratio * a.dst + ratio * t;
  }

  /**
    * Clipping of the trailing edge (lines 209-216 for x, 222-229 for y):
    * the extent first loses the overhang past the source, rounded up to
    * whole blocks, then whatever still overhangs the destination.
    */
  function ClipTrailing(a: Axis, ratio: int, srcSize: int, dstSize: int): (r: Axis)
    requires ratio > 0 && a.len % ratio == 0
    ensures r.src == a.src && r.dst == a.dst
    ensures r.len % ratio == 0 && r.len <= a.len
    ensures r.src + r.len <= srcSize
    ensures r.dst + r.len / ratio <= dstSize
    ensures a.src + a.len <= srcSize && a.dst + a.len / ratio <= dstSize ==> r == a
  {
    TrimToDest(TrimToSource(a, ratio, srcSize), ratio, dstSize)
  }

  /** Lines 209-212: shrink by the source overhang, rounded up to whole blocks. */
  function TrimToSource(a: Axis, ratio: int, srcSize: int): (r: Axis)
    requires ratio > 0 && a.len % ratio == 0
    ensures r.src == a.src && r.dst == a.dst
    ensures r.len % ratio == 0 && r.len <= a.len
    ensures r.src + r.len <= srcSize
    ensures a.src + a.len <= srcSize ==> r == a
  {
    var over := a.src + a.len - srcSize;
    if over > 0 then
      var cut := Ceil(over, ratio);
      CDivExact(cut, ratio);
      Trimmed(a.len, cut / ratio, ratio);
      Axis(a.src, a.dst, a.len - cut)
    else a
  }

  /** Lines 213-216: shrink by the destination overhang, counted in blocks. */
  function TrimToDest(a: Axis, ratio: int, dstSize: int): (r: Axis)
    requires ratio > 0 && a.len % ratio == 0
    ensures r.src == a.src && r.dst == a.dst
    ensures r.len % ratio == 0 && r.len <= a.len
    ensures r.dst + r.len / ratio <= dstSize
    ensures a.dst + a.len / ratio <= dstSize ==> r == a
  {
    var over := a.dst + CDiv(a.len, ratio) - dstSize;
    CDivExact(a.len, ratio);
    Trimmed(a.len, over, ratio);
    if over > 0 then
      Axis(a.src, a.dst, a.len - over * ratio)
    else a
  }

  /** Removing k whole blocks from a whole number of blocks leaves k fewer blocks. */
  lemma Trimmed(len: int, k: int, ratio: int)
    requires ratio > 0 && len % ratio == 0
    ensures (len - k * ratio) % ratio == 0 && (len - k * ratio) / ratio == len / ratio - k
  {
    var n := len / ratio;
    assert len == n * ratio;
    assert len - k * ratio == (n - k) * ratio;
    ModMul(n - k, ratio);
  }

  /**
    * The clamper (lines 160-232): rejects a non-positive ratio, truncates the
    * extents to whole blocks, rejects extents smaller than one block, then
    * clips both axes, rejecting as soon as an extent becomes empty.
    */
  function Clamp(q: Request): (r: Option<Region>)
    ensures r.Some? ==> Placed(r.value.x, q.ratio, q.srcW, q.dstW)
    ensures r.Some? ==> Placed(r.value.y, q.ratio, q.srcH, q.dstH)
    ensures r.Some? ==> Skew(r.value.x, q.ratio) == q.srcX - q.ratio * q.dstX
    ensures r.Some? ==> Skew(r.value.y, q.ratio) == q.srcY - q.ratio * q.dstY
    ensures r.Some? ==> q.srcX <= r.value.x.src && r.value.x.src + r.value.x.len <= q.srcX + Floor(q.width, q.ratio)
    ensures r.Some? ==> q.srcY <= r.value.y.src && r.value.y.src + r.value.y.len <= q.srcY + Floor(q.height, q.ratio)
    ensures q.ratio <= 0 ==> r.None?
    ensures q.ratio > 0 && (q.ratio > Floor(q.width, q.ratio) || q.ratio > Floor(q.height, q.ratio)) ==> r.None?
  {
    if q.ratio <= 0 then None
    else
      var width := Floor(q.width, q.ratio);
      var height := Floor(q.height, q.ratio);
      if q.ratio > width || q.ratio > height then None
      else
        var x := ClipLeading(Axis(q.srcX, q.dstX, width), q.ratio);
        if x.len <= 0 then None
        else
          var y := ClipLeading(Axis(q.srcY, q.dstY, height), q.ratio);
          if y.len <= 0 then None
          else
            var x' := ClipTrailing(x, q.ratio, q.srcW, q.dstW);
            if x'.len <= 0 then None
            else
              var y' := ClipTrailing(y, q.ratio, q.srcH, q.dstH);
              if y'.len <= 0 then None
              else Some(Region(x', y'))
  }

  /**
    * The trailing clip removes no more than it must: any whole number of
    * blocks that fits both buffers from the same offsets is at most the
    * clipped extent.
    */
  lemma ClipTrailingMaximal(a: Axis, ratio: int, srcSize: int, dstSize: int, l: int)
    requires ratio > 0 && a.len % ratio == 0
    requires l % ratio == 0 && l <= a.len
    requires a.src + l <= srcSize && a.dst + l / ratio <= dstSize
    ensures l <= ClipTrailing(a, ratio, srcSize, dstSize).len
  {
    TrimToSourceMaximal(a, ratio, srcSize, l);
    TrimToDestMaximal(TrimToSource(a, ratio, srcSize), ratio, dstSize, l);
  }

  lemma TrimToSourceMaximal(a: Axis, ratio: int, srcSize: int, l: int)
    requires ratio > 0 && a.len % ratio == 0
    requires l % ratio == 0 && l <= a.len && a.src + l <= srcSize
    ensures l <= TrimToSource(a, ratio, srcSize).len
  {
    var over := a.src + a.len - srcSize;
    if over > 0 {
      BlocksDifference(a.len, l, ratio);
      CeilIsLeast(over, ratio, (a.len - l) / ratio);
    }
  }

  lemma TrimToDestMaximal(a: Axis, ratio: int, dstSize: int, l: int)
    requires ratio > 0 && a.len % ratio == 0
    requires l % ratio == 0 && l <= a.len && a.dst + l / ratio <= dstSize
    ensures l <= TrimToDest(a, ratio, dstSize).len
  {
    var over := a.dst + CDiv(a.len, ratio) - dstSize;
    CDivExact(a.len, ratio);
    if over > 0 {
      var nl, na := l / ratio, a.len / ratio;
      assert l == nl * ratio;
      MulMonotone(nl, na - over, ratio);
      Trimmed(a.len, over, ratio);
    }
  }

  /** The difference of two whole numbers of blocks is a whole number of blocks. */
  lemma BlocksDifference(x: int, y: int, ratio: int)
    requires ratio > 0 && x % ratio == 0 && y % ratio == 0
    ensures x - y == ((x - y) / ratio) * ratio
  {
    var nx, ny := x / ratio, y / ratio;
    assert x == nx * ratio && y == ny * ratio;
    assert x - y == (nx - ny) * ratio;
    ModMul(nx - ny, ratio);
  }

  /** A request that is already whole blocks and inside both buffers passes unchanged. */
  lemma ClampKeepsPlaced(q: Request)
    requires Placed(Axis(q.srcX, q.dstX, q.width), q.ratio, q.srcW, q.dstW)
    requires Placed(Axis(q.srcY, q.dstY, q.height), q.ratio, q.srcH, q.dstH)
    ensures Clamp(q) == Some(Region(Axis(q.srcX, q.dstX, q.width), Axis(q.srcY, q.dstY, q.height)))
  {
    WholeBlocks(q.width, q.ratio);
    WholeBlocks(q.height, q.ratio);
  }

  /** A positive multiple is unchanged by Floor and is at least one block. */
  lemma WholeBlocks(len: int, ratio: int)
    requires ratio > 0 && 0 < len && len % ratio == 0
    ensures Floor(len, ratio) == len && ratio <= len
  {
    var n := len / ratio;
    assert len == n * ratio;
    MulMonotone(1, n, ratio);
  }

  /** Clamping is idempotent: a clamped region, requested again, comes back unchanged. */
  lemma ClampIdempotent(q: Request)
    requires Clamp(q).Some?
    ensures var g := Clamp(q).value;
            Clamp(Request(q.dstW, q.dstH, g.x.dst, g.y.dst, q.srcW, q.srcH, g.x.src, g.y.src,
                          g.x.len, g.y.len, q.ratio)) == Some(g)
  {
    var g := Clamp(q).value;
    ClampKeepsPlaced(Request(q.dstW, q.dstH, g.x.dst, g.y.dst, q.srcW, q.srcH, g.x.src, g.y.src,
                             g.x.len, g.y.len, q.ratio));
  }

  /** A request whose source rectangle lies wholly outside the source buffer is rejected. */
  lemma ClampRejectsOffSource(q: Request)
    requires q.srcX >= q.srcW || q.srcX + q.width <= 0 || q.srcY >= q.srcH || q.srcY + q.height <= 0
    ensures Clamp(q).None?
  {
  }

  /**
    * The worked example: a 4 x 2 region with ratio 2 placed one destination
    * cell left of a 10 x 10 canvas loses its first block; the rest starts at
    * destination column 0 and source column 2.
    */
  lemma ClampNegativeDstExample()
    ensures Clamp(Request(10, 10, -1, 0, 10, 10, 0, 0, 4, 2, 2))
         == Some(Region(Axis(2, 0, 2), Axis(0, 0, 2)))
  {
    ExampleSteps();
  }

  lemma ExampleSteps()
    ensures Floor(4, 2) == 4 && Floor(2, 2) == 2
    ensures ClipLeading(Axis(0, -1, 4), 2) == Axis(2, 0, 2)
    ensures ClipLeading(Axis(0, 0, 2), 2) == Axis(0, 0, 2)
    ensures ClipTrailing(Axis(2, 0, 2), 2, 10, 10) == Axis(2, 0, 2)
    ensures ClipTrailing(Axis(0, 0, 2), 2, 10, 10) == Axis(0, 0, 2)
  {
    assert CDiv(4, 2) == 2 && CDiv(2, 2) == 1;
  }
}
