/**
  * The box averager of image_utils.c (`average_step`, `bilinear_color`).
  * Despite its name, `bilinear_color` takes the plain mean of a
  * ratio x ratio block of cells. Each channel keeps a quotient byte and a
  * remainder byte; both are `unsigned char` in the source, so every update
  * is taken modulo 256 here.
  */
module BoxAverage {
  import opened Pixels
  import opened Rounding

  /** The two accumulator bytes of one channel: quotient `x` and remainder `y`. */
  datatype Acc = Acc(q: byte, r: byte)

  /** Storing an int into an `unsigned char` keeps it modulo 256. */
  function Wrap(v: int): byte {
    (v % 256) as byte
  }

  /** Wrapping changes a value by a multiple of 256. */
  lemma WrapOffset(v: int) returns (k: int)
    ensures Wrap(v) as int == v + 256 * k
  {
    k := -(v / 256);
  }

  /**
    * Moving `e` units from the remainder into the quotient (each worth `c`),
    * then wrapping both by multiples of 256, changes `a*c + b` by a multiple of 256.
    */
  lemma ShiftPair(a: int, b: int, c: int, e: int, k1: int, k2: int, t: int, m: int)
    requires a * c + b - t == 256 * m
    ensures (a + e + 256 * k1) * c + (b - e * c + 256 * k2) - t == 256 * (m + k1 * c + k2)
  {
    assert (a + e + 256 * k1) * c == a * c + e * c + 256 * (k1 * c);
  }

  /** A multiple of 256 leaves no remainder. */
  lemma MultipleOf256(v: int, m: int)
    requires v == 256 * m
    ensures v % 256 == 0
  {
  }

  /** The step's congruence, stated on the four stored bytes. */
  lemma StepCongruent(num: byte, count: int, acc: Acc)
    requires count > 0
    ensures var x := Wrap(acc.q as int + num as int / count);
            var y := Wrap(acc.r as int + num as int % count);
            var t := acc.q as int * count + acc.r as int + num as int;
            (x as int * count + y as int - t) % 256 == 0
            && (Wrap(x as int + 1) as int * count + Wrap(y as int - count) as int - t) % 256 == 0
  {
    var q, r, n := acc.q as int, acc.r as int, num as int;
    var t := q * count + r + n;
    var x := Wrap(q + n / count);
    var y := Wrap(r + n % count);
    var kx := WrapOffset(q + n / count);
    var ky := WrapOffset(r + n % count);
    var kx1 := WrapOffset(x as int + 1);
    var ky1 := WrapOffset(y as int - count);
    EuclidFacts(n, count);
    ShiftPair(q, r + n, count, n / count, kx, ky, t, 0);
    var m1 := kx * count + ky;
    ShiftPair(x as int, y as int, count, 1, kx1, ky1, t, m1);
    MultipleOf256(x as int * count + y as int - t, m1);
    MultipleOf256(Wrap(x as int + 1) as int * count + Wrap(y as int - count) as int - t, m1 + kx1 * count + ky1);
  }

  /** While the remainder is below `count <= 128`, the remainder sum cannot wrap. */
  lemma StepRemainder(num: byte, count: int, acc: Acc)
    requires count > 0
    ensures acc.r as int < count <= 128 ==>
      var y := Wrap(acc.r as int + num as int % count);
      y as int == acc.r as int + num as int % count && (y as int >= count ==> Wrap(y as int - count) as int < count)
  {
    if acc.r as int < count <= 128 {
      EuclidFacts(num as int, count);
      var v := acc.r as int + num as int % count;
      WrapId(v);
      if v >= count {
        WrapId(v - count);
      }
    }
  }

  /**
    * `average_step`: adds one sample to a channel's accumulator, in byte
    * arithmetic. Modulo 256, `q*count + r` grows by exactly the sample, and
    * while no remainder sum can reach 256 the remainder stays below `count`.
    */
  function AverageStep(num: byte, count: int, acc: Acc): (r: Acc)
    requires count > 0
    ensures (r.q as int * count + r.r as int - (acc.q as int * count + acc.r as int + num as int)) % 256 == 0
    ensures acc.r as int < count <= 128 ==> r.r as int < count
  {
    StepCongruent(num, count, acc);
    StepRemainder(num, count, acc);
    var x := Wrap(acc.q as int + num as int / count);
    var y := Wrap(acc.r as int + num as int % count);
    if y as int >= count then
      Acc(Wrap(x as int + 1), Wrap(y as int - count))
    else
      Acc(x, y)
  }

  /**
    * The invariant `average_step` keeps: when the remainder is below `count`
    * and the running total still fits in a byte quotient, the new accumulator
    * again satisfies `q * count + r == total` with `r < count`.
    */
  lemma AverageStepExact(num: byte, count: int, acc: Acc)
    requires 0 < count <= 128 && acc.r as int < count
    requires acc.q as int * count + acc.r as int + num as int < 256 * count
    ensures var next := AverageStep(num, count, acc);
            next.q as int * count + next.r as int == acc.q as int * count + acc.r as int + num as int &&
            next.r as int < count
  {
    var q, r, n := acc.q as int, acc.r as int, num as int;
    SplitTotal(q, r, n, count);
    var xs, ys := q + n / count, r + n % count;
    WrapId(ys);
    if ys < count {
      MulStrict(xs, 256, count);
      WrapId(xs);
      assert AverageStep(num, count, acc) == Acc(Wrap(xs), Wrap(ys));
    } else {
      assert (xs + 1) * count == xs * count + count;
      MulStrict(xs + 1, 256, count);
      WrapId(xs);
      WrapId(xs + 1);
      WrapId(ys - count);
      assert AverageStep(num, count, acc) == Acc(Wrap(xs + 1), Wrap(ys - count));
    }
  }

  /** Adding n to `q * count + r` adds `n / count` to q and `n % count` to r. */
  lemma SplitTotal(q: int, r: int, n: int, count: int)
    requires count > 0 && n >= 0
    ensures (q + n / count) * count + (r + n % count) == q * count + r + n
    ensures 0 <= n % count < count && n / count >= 0
  {
    EuclidFacts(n, count);
    assert (q + n / count) * count == q * count + (n / count) * count;
  }

  lemma WrapId(v: int)
    requires 0 <= v < 256
    ensures Wrap(v) as int == v
  {
  }

  /** The accumulator of channel k after the samples of s, visited in order. */
  function Fold(s: seq<Cell>, k: Channel, count: int): Acc
    requires count > 0
  {
    if |s| == 0 then Acc(0, 0)
    else AverageStep(Chan(s[|s| - 1], k), count, Fold(s[..|s| - 1], k, count))
  }

  /** Adding one more sample is one more `average_step`. */
  lemma FoldSnoc(s: seq<Cell>, c: Cell, k: Channel, count: int)
    requires count > 0
    ensures Fold(s + [c], k, count) == AverageStep(Chan(c, k), count, Fold(s, k, count))
  {
    assert (s + [c])[..|s|] == s;
  }

  /** One more sample is one more `average_step` on every channel. */
  lemma FoldSnocAll(s: seq<Cell>, c: Cell, count: int)
    requires count > 0
    ensures Fold(s + [c], 0, count) == AverageStep(c.b0, count, Fold(s, 0, count))
    ensures Fold(s + [c], 1, count) == AverageStep(c.b1, count, Fold(s, 1, count))
    ensures Fold(s + [c], 2, count) == AverageStep(c.b2, count, Fold(s, 2, count))
    ensures Fold(s + [c], 3, count) == AverageStep(c.b3, count, Fold(s, 3, count))
  {
    FoldSnoc(s, c, 0, count);
    FoldSnoc(s, c, 1, count);
    FoldSnoc(s, c, 2, count);
    FoldSnoc(s, c, 3, count);
  }

  /** Extending a run by one cell appends that cell. */
  lemma RunSnoc(done: seq<Cell>, src: seq<Cell>, row: int, j: int)
    requires 0 <= row && 0 <= j && row + j < |src|
    ensures done + src[row .. row + j + 1] == (done + src[row .. row + j]) + [src[row + j]]
  {
    assert src[row .. row + j + 1] == src[row .. row + j] + [src[row + j]];
  }

  /** The sum of channel k over the samples of s. */
  function Sum(s: seq<Cell>, k: Channel): int {
    if |s| == 0 then 0 else Sum(s[..|s| - 1], k) + Chan(s[|s| - 1], k) as int
  }

  lemma {:induction false} SumBound(s: seq<Cell>, k: Channel)
    ensures 0 <= Sum(s, k) <= 255 * |s|
  {
    if |s| > 0 {
      SumBound(s[..|s| - 1], k);
    }
  }

  /**
    * The quotient/remainder invariant of `average_step`: while at most
    * `count` samples have been added and `count <= 128` (so the remainder
    * byte cannot wrap), `q * count + r` is the exact sum and `r < count`.
    */
  lemma {:induction false} FoldExact(s: seq<Cell>, k: Channel, count: int)
    requires 0 < count <= 128 && |s| <= count
    ensures Fold(s, k, count).q as int * count + Fold(s, k, count).r as int == Sum(s, k)
    ensures Fold(s, k, count).r as int < count
  {
    if |s| > 0 {
      var init := s[..|s| - 1];
      FoldExact(init, k, count);
      SumBound(s, k);
      MulMonotone(|s|, count, 255);
      AverageStepExact(Chan(s[|s| - 1], k), count, Fold(init, k, count));
    }
  }

  /**
    * The cells of a block: `rows` runs of `ratio` consecutive cells, the
    * first starting at `pos` and each next one `w` cells further on.
    */
  function Block(src: seq<Cell>, w: nat, pos: nat, ratio: nat, rows: nat): seq<Cell>
    requires rows == 0 || pos + (rows - 1) * w + ratio <= |src|
  {
    if rows == 0 then []
    else
      MulMonotone(rows - 2, rows - 1, w);
      Block(src, w, pos, ratio, rows - 1) + src[pos + (rows - 1) * w .. pos + (rows - 1) * w + ratio]
  }

  /** A block of `rows` runs holds rows * ratio samples. */
  lemma {:induction false} BlockLength(src: seq<Cell>, w: nat, pos: nat, ratio: nat, rows: nat)
    requires rows == 0 || pos + (rows - 1) * w + ratio <= |src|
    ensures |Block(src, w, pos, ratio, rows)| == rows * ratio
  {
    if rows > 0 {
      MulMonotone(rows - 2, rows - 1, w);
      BlockLength(src, w, pos, ratio, rows - 1);
      BlockSnoc(src, w, pos, ratio, rows - 1);
      assert rows * ratio == (rows - 1) * ratio + ratio;
    }
  }

  /** One more run of a block is the next `ratio` cells, `w` cells further down. */
  lemma BlockSnoc(src: seq<Cell>, w: nat, pos: nat, ratio: nat, i: nat)
    requires pos + i * w + ratio <= |src|
    ensures i == 0 || pos + (i - 1) * w + ratio <= |src|
    ensures Block(src, w, pos, ratio, i + 1) == Block(src, w, pos, ratio, i) + src[pos + i * w .. pos + i * w + ratio]
  {
    MulMonotone(i - 1, i, w);
  }


  /** A ratio x ratio block fits in src when its last run ends inside src. */
  predicate BlockFits(src: seq<Cell>, w: int, pos: int, ratio: int) {
    w >= 0 && pos >= 0 && ratio >= 1 && pos + (ratio - 1) * w + ratio <= |src|
  }

  /** The cell that `bilinear_color` produces for the ratio x ratio block at pos. */
  function BlockAverage(src: seq<Cell>, w: int, pos: int, ratio: int): Cell
    requires BlockFits(src, w, pos, ratio)
  {
    var b := Block(src, w, pos, ratio, ratio);
    var count := ratio * ratio;
    Cell(Fold(b, 0, count).q, Fold(b, 1, count).q, Fold(b, 2, count).q, Fold(b, 3, count).q)
  }

  /**
    * For ratio*ratio <= 128 each channel of the block average is the exact
    * mean of the block's samples, rounded down.
    */
  lemma BlockAverageIsMean(src: seq<Cell>, w: int, pos: int, ratio: int)
    requires BlockFits(src, w, pos, ratio) && ratio * ratio <= 128
    ensures forall k: Channel :: Chan(BlockAverage(src, w, pos, ratio), k) as int
                                 == Sum(Block(src, w, pos, ratio, ratio), k) / (ratio * ratio)
  {
    var b := Block(src, w, pos, ratio, ratio);
    var count := ratio * ratio;
    BlockLength(src, w, pos, ratio, ratio);
    forall k: Channel
      ensures Chan(BlockAverage(src, w, pos, ratio), k) as int == Sum(b, k) / count
    {
      FoldExact(b, k, count);
      DivModUnique(Sum(b, k), count, Fold(b, k, count).q as int, Fold(b, k, count).r as int);
    }
  }

  /** The reference case: samples 10, 20, 30, 40 with ratio 2 average to 25. */
  lemma AverageOfFourSamples()
    ensures BlockAverage([Cell(10, 0, 0, 0), Cell(20, 0, 0, 0), Cell(30, 0, 0, 0), Cell(40, 0, 0, 0)], 2, 0, 2)
            == Cell(25, 0, 0, 0)
  {
    var src := [Cell(10, 0, 0, 0), Cell(20, 0, 0, 0), Cell(30, 0, 0, 0), Cell(40, 0, 0, 0)];
    assert Block(src, 2, 0, 2, 1) == src[..2];
    assert Block(src, 2, 0, 2, 2) == src;
    BlockAverageIsMean(src, 2, 0, 2);
    assert src[..3][..2] == src[..2] && src[..2][..1] == src[..1] && src[..1][..0] == [];
    forall k: Channel ensures Sum(src, k) == if k == 0 then 100 else 0 {
      assert Sum(src[..1], k) == Chan(src[0], k) as int;
      assert Sum(src[..2], k) == Sum(src[..1], k) + Chan(src[1], k) as int;
      assert Sum(src[..3], k) == Sum(src[..2], k) + Chan(src[2], k) as int;
      assert Sum(src, k) == Sum(src[..3], k) + Chan(src[3], k) as int;
    }
    var avg := BlockAverage(src, 2, 0, 2);
    assert Chan(avg, 0) as int == 100 / 4 && Chan(avg, 1) as int == 0;
    assert Chan(avg, 2) as int == 0 && Chan(avg, 3) as int == 0;
  }

  /**
    * Past count = 128 the remainder byte wraps: with count = 144 (ratio 12)
    * two samples of 143 leave the accumulator at (0, 30) although their sum
    * is 286 = 1 * 144 + 142.
    */
  lemma RemainderWrapsAtRatio12()
    ensures Fold([Cell(143, 0, 0, 0), Cell(143, 0, 0, 0)], 0, 144) == Acc(0, 30)
  {
    var s := [Cell(143, 0, 0, 0), Cell(143, 0, 0, 0)];
    assert s[..1] == [Cell(143, 0, 0, 0)];
    assert s[..1][..0] == [];
  }

  /** Row i < ratio of a block that fits lies inside src. */
  lemma RunFits(src: seq<Cell>, w: int, pos: int, ratio: int, i: int)
    requires BlockFits(src, w, pos, ratio) && 0 <= i < ratio
    ensures 0 <= pos + w * i && pos + w * i + ratio <= |src|
    ensures i == 0 || pos + (i - 1) * w + ratio <= |src|
    ensures pos + i * w == pos + w * i
  {
    if w > 0 {
      MulMonotone(i, ratio - 1, w);
      MulMonotone(i - 1, i, w);
    }
  }

  /**
    * The inner loop of `bilinear_color`: the `ratio` samples of one run,
    * left to right, each fed through `average_step` on all four channels.
    */
  method AccumulateRun(src: seq<Cell>, row: int, ratio: int, count: int, ghost done: seq<Cell>,
                       r0: Acc, g0: Acc, b0: Acc, a0: Acc) returns (r1: Acc, g1: Acc, b1: Acc, a1: Acc)
    requires count > 0 && 0 <= row && 0 <= ratio && row + ratio <= |src|
    requires r0 == Fold(done, 0, count) && g0 == Fold(done, 1, count)
    requires b0 == Fold(done, 2, count) && a0 == Fold(done, 3, count)
    ensures r1 == Fold(done + src[row .. row + ratio], 0, count) && g1 == Fold(done + src[row .. row + ratio], 1, count)
    ensures b1 == Fold(done + src[row .. row + ratio], 2, count) && a1 == Fold(done + src[row .. row + ratio], 3, count)
  {
    r1, g1, b1, a1 := r0, g0, b0, a0;
    var j := 0;
    ghost var cur := done;
    assert cur == done + src[row .. row];
    while j < ratio
      invariant 0 <= j <= ratio
      invariant cur == done + src[row .. row + j]
      invariant r1 == Fold(cur, 0, count) && g1 == Fold(cur, 1, count)
      invariant b1 == Fold(cur, 2, count) && a1 == Fold(cur, 3, count)
    {
      var c := src[row + j];
      FoldSnocAll(cur, c, count);
      RunSnoc(done, src, row, j);
      cur := cur + [c];
      r1 := AverageStep(c.b0, count, r1);
      g1 := AverageStep(c.b1, count, g1);
      b1 := AverageStep(c.b2, count, b1);
      a1 := AverageStep(c.b3, count, a1);
      j := j + 1;
    }
  }

  /**
    * `bilinear_color`: walks the block row by row, feeding every sample of
    * each channel through `average_step`, and packs the four quotients.
    */
  method BilinearColor(src: seq<Cell>, w: int, pos: int, ratio: int) returns (result: Cell)
    requires BlockFits(src, w, pos, ratio)
    ensures result == BlockAverage(src, w, pos, ratio)
    ensures ratio * ratio <= 128 ==>
              forall k: Channel :: Chan(result, k) as int == Sum(Block(src, w, pos, ratio, ratio), k) / (ratio * ratio)
  {
    var count := ratio * ratio;
    MulMonotone(1, ratio, ratio);
    var r1, g1, b1, a1 := Acc(0, 0), Acc(0, 0), Acc(0, 0), Acc(0, 0);
    ghost var done: seq<Cell> := [];
    var i := 0;
    while i < ratio
      invariant 0 <= i <= ratio
      invariant done == Block(src, w, pos, ratio, i)
      invariant r1 == Fold(done, 0, count) && g1 == Fold(done, 1, count)
      invariant b1 == Fold(done, 2, count) && a1 == Fold(done, 3, count)
    {
      RunFits(src, w, pos, ratio, i);
      var row := pos + i * w;
      r1, g1, b1, a1 := AccumulateRun(src, row, ratio, count, done, r1, g1, b1, a1);
      BlockSnoc(src, w, pos, ratio, i);
      done := done + src[row .. row + ratio];
      i := i + 1;
    }
    result := Cell(r1.q, g1.q, b1.q, a1.q);
    if ratio * ratio <= 128 {
      BlockAverageIsMean(src, w, pos, ratio);
    }
  }
}
