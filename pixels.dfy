/**
  * Pixel cells and the fill-colour byte-order conversion of image_utils.c.
  * A cell is one 32-bit packed colour, kept as its four bytes in memory
  * order, so that reinterpreting an `int` through an `unsigned char*`
  * (`color_to_rgba`, `rgba_to_color`, `convert_color`) is plain field access.
  */
module Pixels {

  newtype byte = x: int | 0 <= x < 256

  /** A packed colour cell: byte i is the i-th byte of the cell in memory. */
  datatype Cell = Cell(b0: byte, b1: byte, b2: byte, b3: byte)

  /** Byte i (0..3) of a cell, the channel order `color_to_rgba` reads them in. */
  type Channel = k: int | 0 <= k < 4

  function Chan(c: Cell, k: Channel): byte {
    match k
    case 0 => c.b0
    case 1 => c.b1
    case 2 => c.b2
    case 3 => c.b3
  }

  /** The platform's integer byte order, probed once by the source and passed explicitly here. */
  datatype Endian = Little | Big

  /**
    * `convert_color`: reorders the bytes of a logical fill colour into the
    * native cell order. Big-endian rotates the bytes left by one position;
    * little-endian swaps bytes 0 and 2.
    */
  function ConvertColor(e: Endian, origin: Cell): (result: Cell)
    ensures RestoreColor(e, result) == origin
    ensures multiset{result.b0, result.b1, result.b2, result.b3}
         == multiset{origin.b0, origin.b1, origin.b2, origin.b3}
  {
    match e
    case Big => Cell(origin.b1, origin.b2, origin.b3, origin.b0)
    case Little => Cell(origin.b2, origin.b1, origin.b0, origin.b3)
  }

  /** The inverse reordering: native cell order back to the logical colour. */
  function RestoreColor(e: Endian, native: Cell): (origin: Cell)
    ensures multiset{origin.b0, origin.b1, origin.b2, origin.b3}
         == multiset{native.b0, native.b1, native.b2, native.b3}
  {
    match e
    case Big => Cell(native.b3, native.b0, native.b1, native.b2)
    case Little => Cell(native.b2, native.b1, native.b0, native.b3)
  }

  /** Converting back and then forth again also gives the original cell. */
  lemma ConvertRestore(e: Endian, native: Cell)
    ensures ConvertColor(e, RestoreColor(e, native)) == native
  {
  }

  /** Distinct logical colours give distinct native cells. */
  lemma ConvertInjective(e: Endian, c1: Cell, c2: Cell)
    requires ConvertColor(e, c1) == ConvertColor(e, c2)
    ensures c1 == c2
  {
    assert RestoreColor(e, ConvertColor(e, c1)) == c1;
  }

  /** On a little-endian platform the conversion is its own inverse. */
  lemma LittleInvolution(c: Cell)
    ensures ConvertColor(Little, ConvertColor(Little, c)) == c
  {
  }

  /** On a big-endian platform four conversions are the identity (a rotation of four bytes). */
  lemma BigRotationOrder(c: Cell)
    ensures ConvertColor(Big, ConvertColor(Big, ConvertColor(Big, ConvertColor(Big, c)))) == c
    ensures c.b0 != c.b1 ==> ConvertColor(Big, c) != c
  {
  }
}
