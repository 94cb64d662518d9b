/** Tiny shared datatypes. */
module Wrappers {
  datatype Option<+T> = None | Some(value: T)
}

/**
  * C integer division and remainder (both truncate toward zero), and the
  * `floor` / `ceil` helpers of image_utils.c that round to a multiple.
  * Every divisor in the blit engine is the (already checked) positive ratio,
  * so only positive divisors are modelled.
  */
module Rounding {

  /** C's `a / b` for b > 0: the quotient is truncated toward zero. */
  function CDiv(a: int, b: int): (q: int)
    requires b > 0
    ensures a >= 0 ==> 0 <= q * b <= a < q * b + b
    ensures a < 0 ==> q * b - b < a <= q * b <= 0
  {
    if a >= 0 then
      EuclidFacts(a, b);
      a / b
    else
      EuclidFacts(-a, b);
      assert -((-a) / b) * b == -(((-a) / b) * b);
      -((-a) / b)
  }

  /** Dafny's division of a non-negative number, spelled out. */
  lemma EuclidFacts(a: int, b: int)
    requires a >= 0 && b > 0
    ensures a == (a / b) * b + a % b && 0 <= a % b < b
    ensures a / b >= 0 && (a / b) * b >= 0
  {
    assert a == (a / b) * b + a % b;
    MulMonotone(0, a / b, b);
  }

  /** C's `a % b` for b > 0, defined as C does: `a - (a / b) * b`; its sign follows a. */
  function CRem(a: int, b: int): (r: int)
    requires b > 0
    ensures a >= 0 ==> 0 <= r < b && r <= a
    ensures a < 0 ==> -b < r <= 0 && a <= r
    ensures (a - r) % b == 0
  {
    ModMul(CDiv(a, b), b);
    a - CDiv(a, b) * b
  }

  /** `floor(num, multiple)`: drops the C remainder, so negatives move up toward zero. */
  function Floor(num: int, multiple: int): (r: int)
    requires multiple > 0
    ensures r % multiple == 0
    ensures num >= 0 ==> 0 <= r <= num < r + multiple
    ensures num < 0 ==> num <= r <= 0 && r < num + multiple
  {
    var remainder := CRem(num, multiple);
    if remainder == 0 then num else num - remainder
  }

  /**
    * `ceil(num, multiple)`: the least multiple that is at least num. The
    * clamper only calls it with num > 0; for negative num (not reached) the
    * result is the truncation toward zero plus one multiple.
    */
  function Ceil(num: int, multiple: int): (r: int)
    requires multiple > 0
    ensures r % multiple == 0
    ensures num >= 0 ==> num <= r < num + multiple
  {
    var remainder := CRem(num, multiple);
    if remainder == 0 then num
    else
      var k := (num - remainder) / multiple;
      assert num - remainder == k * multiple;
      assert num - remainder + multiple == (k + 1) * multiple;
      ModMul(k + 1, multiple);
      num - remainder + multiple
  }

  /** Every multiple of m that is at most num is at most Floor(num, m) (num >= 0). */
  lemma FloorIsGreatest(num: int, m: int, k: int)
    requires m > 0 && num >= 0
    requires k * m <= num
    ensures k * m <= Floor(num, m)
  {
    var f := Floor(num, m);
    var q := f / m;
    assert f == q * m;
    assert (q + 1) * m == f + m;
    MulStrict(k, q + 1, m);
    MulMonotone(k, q, m);
  }

  /** Every multiple of m that is at least num is at least Ceil(num, m) (num >= 0). */
  lemma CeilIsLeast(num: int, m: int, k: int)
    requires m > 0 && num >= 0
    requires k * m >= num
    ensures k * m >= Ceil(num, m)
  {
    var c := Ceil(num, m);
    var q := c / m;
    assert c == q * m;
    assert (q - 1) * m == c - m;
    MulStrict(q - 1, k, m);
    MulMonotone(q, k, m);
  }

  /** Multiplying by a non-negative number keeps the order. */
  lemma MulMonotone(a: int, b: int, m: int)
    requires m >= 0 && a <= b
    ensures a * m <= b * m
  {
    assert b * m - a * m == (b - a) * m;
  }

  /** Dividing out a positive factor keeps a strict order. */
  lemma MulStrict(a: int, b: int, m: int)
    requires m > 0 && a * m < b * m
    ensures a < b
  {
    assert (b - a) * m == b * m - a * m;
  }

  /** A multiple of m divides exactly. */
  lemma ModMul(k: int, m: int)
    requires m > 0
    ensures (k * m) % m == 0 && (k * m) / m == k
  {
    DivModUnique(k * m, m, k, 0);
  }

  /** On an exact multiple, C division and Dafny division agree and are exact. */
  lemma CDivExact(a: int, b: int)
    requires b > 0 && a % b == 0
    ensures CDiv(a, b) == a / b && (a / b) * b == a
  {
    if a < 0 {
      ModMul(-(a / b), b);
      assert -a == -(a / b) * b;
    }
  }

  /** The quotient and remainder of a division are determined by a decomposition. */
  lemma DivModUnique(n: int, m: int, q: int, r: int)
    requires m > 0 && 0 <= r < m && n == q * m + r
    ensures n / m == q && n % m == r
  {
    var q' := n / m;
    var r' := n % m;
    assert (q' - q) * m == r - r';
    MulStrict(q' - q, 1, m);
    MulStrict(-1, q' - q, m);
  }
}
