/** The image record of DCT.h and the byte-level conversions the C code performs implicitly. */
module ImageData {

  /** Side of a square transform block (BLOCK_SIZE). */
  const BLOCK_SIZE: int := 8

  /** Number of coefficients in one block, the length of the local `int dct_coeffs[64]`. */
  const BLOCK_AREA: int := BLOCK_SIZE * BLOCK_SIZE

  /** An `unsigned char`. */
  type byte = x: int | 0 <= x < 256

  /** One payload bit. */
  type bit = x: int | 0 <= x < 2

  /** Storing an `int` into an `unsigned char`: C reduces the value modulo 256. */
  function ToByte(x: int): (r: byte)
    ensures (x - r) % 256 == 0
    ensures 0 <= x < 256 ==> r == x
  {
    x % 256
  }

  /**
   * `struct Image`: the dimensions and the interleaved pixel bytes, which the
   * pipeline overwrites in place.
   */
  class Image {
    var width: int
    var height: int
    var channels: int
    var data: array<byte>

    /** The buffer holds `width * height` pixels of `channels` bytes each. */
    ghost predicate Valid()
      reads this
    {
      0 <= width && 0 <= height && 0 <= channels && data.Length == width * height * channels
    }

    constructor (w: int, h: int, c: int, pixels: seq<byte>)
      requires 0 <= w && 0 <= h && 0 <= c && |pixels| == w * h * c
      ensures Valid() && fresh(data)
      ensures width == w && height == h && channels == c && data[..] == pixels
    {
      width, height, channels := w, h, c;
      data := new byte[|pixels|](k requires 0 <= k < |pixels| => pixels[k]);
    }
  }
}
