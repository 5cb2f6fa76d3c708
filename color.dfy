/**
 * The per-pixel loops of `convert_rgb_to_ycbcr` and `convert_ycbcr_to_rgb`.
 * The floating-point colour formulas are parameters; what is modelled is the
 * walk over the pixels, which bytes each step reads and writes, and the
 * integer clamp the inverse conversion applies before storing a byte.
 */
module Color {
  import opened ImageData
  import opened Arith

  /** `(unsigned char)(x < 0 ? 0 : (x > 255 ? 255 : x))`. */
  function Clamp(x: int): (r: byte)
    ensures 0 <= x < 256 ==> r == x
  {
    if x < 0 then 0 else if x > 255 then 255 else x
  }

  /** The distance between two integers. */
  function Dist(a: int, b: int): nat
  {
    if a < b then b - a else a - b
  }

  /** Clamp picks the byte nearest to `x`. */
  lemma ClampNearest(x: int, v: byte)
    ensures Dist(Clamp(x), x) <= Dist(v, x)
  {
  }

  /** Clamp preserves order. */
  lemma ClampMonotone(x: int, y: int)
    requires x <= y
    ensures Clamp(x) <= Clamp(y)
  {
  }

  /** Channel `q` (0, 1 or 2) of a pixel value. */
  function Channel(t: (byte, byte, byte), q: nat): byte
    requires q < 3
  {
    if q == 0 then t.0 else if q == 1 then t.1 else t.2
  }

  /** A formula whose three results are clamped to bytes, as the inverse conversion stores them. */
  function Clamped(f: (byte, byte, byte) -> (int, int, int)): (byte, byte, byte) -> (byte, byte, byte)
  {
    (y, cb, cr) => var t := f(y, cb, cr); (Clamp(t.0), Clamp(t.1), Clamp(t.2))
  }

  /** Pixel `p` of `numPixels` pixels of `channels >= 3` bytes: its three first bytes lie in the buffer. */
  lemma PixelInBuffer(p: nat, numPixels: nat, channels: int)
    requires p < numPixels && 3 <= channels
    ensures p * channels + channels <= numPixels * channels
  {
    MulMonotone(p + 1, numPixels, channels);
  }

  /**
   * The buffer after the per-pixel loop: for each of the first `numPixels`
   * pixels, bytes 0..2 (at stride `channels`) become `f` of their old values;
   * every other byte stays.
   */
  function MapPixels(d: seq<byte>, channels: int, numPixels: nat, f: (byte, byte, byte) -> (byte, byte, byte)): (r: seq<byte>)
    requires 3 <= channels && numPixels * channels <= |d|
    ensures |r| == |d|
  {
    seq(|d|, k requires 0 <= k < |d| =>
      var p, q := k / channels, k % channels;
      if p < numPixels && q < 3 then
        PixelInBuffer(p, numPixels, channels);
        Channel(f(d[p * channels], d[p * channels + 1], d[p * channels + 2]), q)
      else d[k])
  }

  /** Channel `q < 3` of pixel `p` becomes channel `q` of `f` applied to that pixel's old three bytes. */
  lemma MapPixelsAt(d: seq<byte>, channels: int, numPixels: nat, f: (byte, byte, byte) -> (byte, byte, byte), p: nat, q: nat)
    requires 3 <= channels && numPixels * channels <= |d| && p < numPixels && q < 3
    ensures p * channels + channels <= |d|
    ensures MapPixels(d, channels, numPixels, f)[p * channels + q]
         == Channel(f(d[p * channels], d[p * channels + 1], d[p * channels + 2]), q)
  {
    PixelInBuffer(p, numPixels, channels);
    DivModUnique(p * channels + q, channels, p, q);
  }

  /** Bytes 3 and up of every pixel (an alpha channel, say) and the bytes past the last pixel are left as they were. */
  lemma MapPixelsKeepsOtherBytes(d: seq<byte>, channels: int, numPixels: nat, f: (byte, byte, byte) -> (byte, byte, byte), p: nat, q: nat)
    requires 3 <= channels && numPixels * channels <= |d| && 3 <= q < channels
    requires p * channels + q < |d|
    ensures MapPixels(d, channels, numPixels, f)[p * channels + q] == d[p * channels + q]
  {
    DivModUnique(p * channels + q, channels, p, q);
  }

  /** The loop does not go past its pixels: bytes from `numPixels * channels` on are unchanged. */
  lemma MapPixelsKeepsTail(d: seq<byte>, channels: int, numPixels: nat, f: (byte, byte, byte) -> (byte, byte, byte), k: nat)
    requires 3 <= channels && numPixels * channels <= k < |d|
    ensures MapPixels(d, channels, numPixels, f)[k] == d[k]
  {
    var p := k / channels;
    if p < numPixels {
      MulMonotone(p + 1, numPixels, channels);
      assert false;
    }
  }

  /** After pixel `i` is rewritten, its `channels` bytes hold what MapPixels gives them. */
  lemma MapPixelsPixel(d: seq<byte>, channels: int, numPixels: nat, f: (byte, byte, byte) -> (byte, byte, byte), i: nat, k: nat)
    requires 3 <= channels && numPixels * channels <= |d| && i < numPixels
    requires i * channels <= k < i * channels + channels
    ensures i * channels + channels <= |d|
    ensures k - i * channels < 3 ==>
      MapPixels(d, channels, numPixels, f)[k] == Channel(f(d[i * channels], d[i * channels + 1], d[i * channels + 2]), k - i * channels)
    ensures 3 <= k - i * channels ==> MapPixels(d, channels, numPixels, f)[k] == d[k]
  {
    PixelInBuffer(i, numPixels, channels);
    var q := k - i * channels;
    if q < 3 {
      MapPixelsAt(d, channels, numPixels, f, i, q);
    } else {
      MapPixelsKeepsOtherBytes(d, channels, numPixels, f, i, q);
    }
  }

  /**
   * `convert_rgb_to_ycbcr`: for each of the `width * height` pixels, read bytes
   * 0..2 at offset `i * channels` and overwrite them with `toYcbcr` of those
   * values (the C code's truncated floating-point luma/chroma formulas).
   */
  method ConvertRgbToYcbcr(image: Image, toYcbcr: (byte, byte, byte) -> (byte, byte, byte))
    requires image.Valid() && 3 <= image.channels
    modifies image.data
    ensures image.data[..] == MapPixels(old(image.data[..]), image.channels, image.width * image.height, toYcbcr)
  {
    ghost var before := image.data[..];
    var numPixels := image.width * image.height;
    ghost var goal := MapPixels(before, image.channels, numPixels, toYcbcr);
    var i := 0;
    while i < numPixels
      invariant 0 <= i <= numPixels
      invariant forall k :: 0 <= k < image.data.Length ==>
        image.data[k] == if k < i * image.channels then goal[k] else before[k]
    {
      PixelInBuffer(i, numPixels, image.channels);
      var pixel := i * image.channels;
      var r, g, b := image.data[pixel], image.data[pixel + 1], image.data[pixel + 2];
      var t := toYcbcr(r, g, b);
      image.data[pixel] := t.0;
      image.data[pixel + 1] := t.1;
      image.data[pixel + 2] := t.2;
      forall k | i * image.channels <= k < i * image.channels + image.channels
        ensures image.data[k] == goal[k]
      {
        MapPixelsPixel(before, image.channels, numPixels, toYcbcr, i, k);
      }
      assert (i + 1) * image.channels == i * image.channels + image.channels;
      i := i + 1;
    }
  }

  /**
   * `convert_ycbcr_to_rgb`: the same walk; `toRgb` (the C code's floating-point
   * formulas truncated to `int`) gives three integers for the pixel, and each
   * is clamped to 0..255 before it is stored.
   */
  method ConvertYcbcrToRgb(image: Image, toRgb: (byte, byte, byte) -> (int, int, int))
    requires image.Valid() && 3 <= image.channels
    modifies image.data
    ensures image.data[..] == MapPixels(old(image.data[..]), image.channels, image.width * image.height, Clamped(toRgb))
  {
    ghost var before := image.data[..];
    var numPixels := image.width * image.height;
    ghost var goal := MapPixels(before, image.channels, numPixels, Clamped(toRgb));
    var i := 0;
    while i < numPixels
      invariant 0 <= i <= numPixels
      invariant forall k :: 0 <= k < image.data.Length ==>
        image.data[k] == if k < i * image.channels then goal[k] else before[k]
    {
      PixelInBuffer(i, numPixels, image.channels);
      var pixel := i * image.channels;
      var y, cb, cr := image.data[pixel], image.data[pixel + 1], image.data[pixel + 2];
      var t := toRgb(y, cb, cr);
      image.data[pixel] := Clamp(t.0);
      image.data[pixel + 1] := Clamp(t.1);
      image.data[pixel + 2] := Clamp(t.2);
      forall k | i * image.channels <= k < i * image.channels + image.channels
        ensures image.data[k] == goal[k]
      {
        MapPixelsPixel(before, image.channels, numPixels, Clamped(toRgb), i, k);
      }
      assert (i + 1) * image.channels == i * image.channels + image.channels;
      i := i + 1;
    }
  }
}
