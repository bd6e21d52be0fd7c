/**
 * The RGBA byte buffer: a flat sequence of bytes, four per pixel in the
 * order red, green, blue, alpha, pixels stored row by row.
 */
module Pixels {
  /** One channel value, as stored in the canvas's clamped byte array. */
  type Byte = b: int | 0 <= b < 256

  /** A colour, or the content of one pixel. */
  datatype Rgba = Rgba(r: Byte, g: Byte, b: Byte, a: Byte)

  /** Opaque white, the content of every pixel of a fresh canvas. */
  const White: Rgba := Rgba(255, 255, 255, 255)

  /**
   * The index of the pixel in row `row` and column `column` of a buffer
   * stored row by row, `width` pixels to a row. Nothing bounds the column:
   * column `width` is pixel 0 of the next row.
   */
  function Offset(width: int, row: int, column: int): int
  {
    width * row + column
  }

  /** The pixel with index `k`, read from its four bytes at `4 * k`. */
  function PixelAt(s: seq<Byte>, k: nat): Rgba
    requires 4 * k + 3 < |s|
  {
    Rgba(s[4 * k], s[4 * k + 1], s[4 * k + 2], s[4 * k + 3])
  }

  /** The buffer with pixel `k` overwritten by `c`: only the four bytes at `4 * k` change. */
  function WithPixel(s: seq<Byte>, k: nat, c: Rgba): (r: seq<Byte>)
    requires 4 * k + 3 < |s|
    ensures |r| == |s|
    ensures PixelAt(r, k) == c
    ensures forall i :: 0 <= i < |s| && !(4 * k <= i < 4 * k + 4) ==> r[i] == s[i]
  {
    s[4 * k := c.r][4 * k + 1 := c.g][4 * k + 2 := c.b][4 * k + 3 := c.a]
  }

  /** Writing a pixel leaves every other pixel as it was. */
  lemma WithPixelOthers(s: seq<Byte>, k: nat, c: Rgba, j: nat)
    requires 4 * k + 3 < |s| && 4 * j + 3 < |s| && j != k
    ensures PixelAt(WithPixel(s, k, c), j) == PixelAt(s, j)
  {
  }
}
