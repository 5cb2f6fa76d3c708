/**
 * `image_steganography_dct`: convert the image to luma/chroma, walk the 8 x 8
 * blocks, and for each one gather it, transform it, embed the message in its
 * coefficients, transform it back and write it back; then convert to RGB.
 * The forward and inverse transforms (`perform_dct`, `perform_inverse_dct`)
 * and the colour formulas are parameters.
 */
module Stego {
  import opened ImageData
  import opened Codec
  import opened Blocks
  import opened Color
  import opened Arith

  /** A block transform maps the 64 coefficients of a block to 64 coefficients. */
  ghost predicate KeepsBlockShape(f: seq<int> -> seq<int>)
  {
    forall x: seq<int> :: |x| == BLOCK_AREA ==> |f(x)| == BLOCK_AREA
  }

  /** What one iteration of the block loop writes back: transform, embed `bits` from bit 0, transform back. */
  function BlockOutput(block: seq<int>, bits: seq<bit>, fdct: seq<int> -> seq<int>, idct: seq<int> -> seq<int>): (out: seq<int>)
    requires |block| == BLOCK_AREA && |bits| <= BLOCK_AREA
    requires KeepsBlockShape(fdct) && KeepsBlockShape(idct)
    ensures |out| == BLOCK_AREA
  {
    idct(EmbedParities(fdct(block), bits))
  }

  /** The image buffer after the first `n` iterations of the block loop, each embedding the same `bits`. */
  function EmbedBlocks(data: seq<byte>, width: int, height: int, n: nat, bits: seq<bit>,
                       fdct: seq<int> -> seq<int>, idct: seq<int> -> seq<int>): (r: seq<byte>)
    requires Tiles(width, height) && width * height <= |data| && n <= NumBlocks(width, height)
    requires n == 0 || |bits| <= BLOCK_AREA
    requires KeepsBlockShape(fdct) && KeepsBlockShape(idct)
    ensures |r| == |data|
    decreases n
  {
    if n == 0 then data
    else
      var prev := EmbedBlocks(data, width, height, n - 1, bits, fdct, idct);
      Scatter(prev, width, height, n - 1, BlockOutput(Gather(prev, width, height, n - 1), bits, fdct, idct))
  }

  /**
   * Blocks do not interfere: after `n` iterations, a cell of a block already
   * visited holds that block's output computed from the ORIGINAL buffer, and
   * every other byte is the original.
   */
  lemma {:induction false} EmbedBlocksAt(data: seq<byte>, width: int, height: int, n: nat, bits: seq<bit>,
                                         fdct: seq<int> -> seq<int>, idct: seq<int> -> seq<int>, k: nat)
    requires Tiles(width, height) && width * height <= |data| && n <= NumBlocks(width, height)
    requires n == 0 || |bits| <= BLOCK_AREA
    requires KeepsBlockShape(fdct) && KeepsBlockShape(idct)
    requires k < |data|
    ensures 0 < width && k < width * height && Locate(width, k).block < n ==>
      EmbedBlocks(data, width, height, n, bits, fdct, idct)[k]
        == ToByte(BlockOutput(Gather(data, width, height, Locate(width, k).block), bits, fdct, idct)[Cell(width, k)])
    ensures !(0 < width && k < width * height && Locate(width, k).block < n) ==>
      EmbedBlocks(data, width, height, n, bits, fdct, idct)[k] == data[k]
    decreases n, 0
  {
    if n > 0 {
      var b := n - 1;
      var prev := EmbedBlocks(data, width, height, b, bits, fdct, idct);
      var out := BlockOutput(Gather(data, width, height, b), bits, fdct, idct);
      assert EmbedBlocks(data, width, height, n, bits, fdct, idct) == Scatter(prev, width, height, b, out) by {
        GatherUnvisited(data, width, height, b, bits, fdct, idct, b);
      }
      EmbedBlocksAt(data, width, height, b, bits, fdct, idct, k);
      ScatterAtAddress(prev, width, height, b, out, k);
      if 0 < width && k < width * height && Locate(width, k).block == b {
        assert EmbedBlocks(data, width, height, n, bits, fdct, idct)[k] == ToByte(out[Cell(width, k)]);
      } else {
        assert EmbedBlocks(data, width, height, n, bits, fdct, idct)[k] == prev[k];
      }
    }
  }

  /** A block the loop has not reached yet still gathers to its original contents. */
  lemma {:induction false} GatherUnvisited(data: seq<byte>, width: int, height: int, n: nat, bits: seq<bit>,
                                           fdct: seq<int> -> seq<int>, idct: seq<int> -> seq<int>, b: nat)
    requires Tiles(width, height) && width * height <= |data| && n <= b < NumBlocks(width, height)
    requires |bits| <= BLOCK_AREA
    requires KeepsBlockShape(fdct) && KeepsBlockShape(idct)
    ensures Gather(EmbedBlocks(data, width, height, n, bits, fdct, idct), width, height, b) == Gather(data, width, height, b)
    decreases n, 1
  {
    var prev := EmbedBlocks(data, width, height, n, bits, fdct, idct);
    forall c | 0 <= c < BLOCK_AREA
      ensures Gather(prev, width, height, b)[c] == Gather(data, width, height, b)[c]
    {
      var i, j := c / BLOCK_SIZE, c % BLOCK_SIZE;
      GatherAt(prev, width, height, b, i, j);
      GatherAt(data, width, height, b, i, j);
      AddressLocates(width, b, i, j);
      EmbedBlocksAt(data, width, height, n, bits, fdct, idct, BlockAddress(width, b, i, j));
    }
  }

  /**
   * The whole block loop, inside the blocks: each of the first `width * height`
   * bytes is the byte its own block's output puts there.
   */
  lemma EmbedAllBlocks(data: seq<byte>, width: int, height: int, bits: seq<bit>,
                       fdct: seq<int> -> seq<int>, idct: seq<int> -> seq<int>, k: nat)
    requires Tiles(width, height) && width * height <= |data|
    requires NumBlocks(width, height) == 0 || |bits| <= BLOCK_AREA
    requires KeepsBlockShape(fdct) && KeepsBlockShape(idct)
    requires k < width * height
    ensures 0 < width && Locate(width, k).block < NumBlocks(width, height) && |bits| <= BLOCK_AREA
    ensures EmbedBlocks(data, width, height, NumBlocks(width, height), bits, fdct, idct)[k]
         == ToByte(BlockOutput(Gather(data, width, height, Locate(width, k).block), bits, fdct, idct)[Cell(width, k)])
  {
    LocateAddress(width, height, k);
    EmbedBlocksAt(data, width, height, NumBlocks(width, height), bits, fdct, idct, k);
  }

  /** The whole block loop, past the blocks: the bytes after the first `width * height` are untouched. */
  lemma EmbedBlocksKeepTail(data: seq<byte>, width: int, height: int, bits: seq<bit>,
                            fdct: seq<int> -> seq<int>, idct: seq<int> -> seq<int>, k: nat)
    requires Tiles(width, height) && width * height <= k < |data|
    requires NumBlocks(width, height) == 0 || |bits| <= BLOCK_AREA
    requires KeepsBlockShape(fdct) && KeepsBlockShape(idct)
    ensures EmbedBlocks(data, width, height, NumBlocks(width, height), bits, fdct, idct)[k] == data[k]
  {
    EmbedBlocksAt(data, width, height, NumBlocks(width, height), bits, fdct, idct, k);
  }

  /**
   * No cursor runs across blocks: the coefficients every block hands to the
   * inverse transform carry the whole payload from its first bit.
   */
  lemma EveryBlockCarriesPayload(data: seq<byte>, width: int, height: int, b: nat, s: CString, fdct: seq<int> -> seq<int>)
    requires Tiles(width, height) && width * height <= |data| && b < NumBlocks(width, height)
    requires 8 * StrLen(s) <= BLOCK_AREA && KeepsBlockShape(fdct)
    ensures |fdct(Gather(data, width, height, b))| == BLOCK_AREA
    ensures DecodeParities(EmbedParities(fdct(Gather(data, width, height, b)), MessageBits(Payload(s))), StrLen(s)) == Payload(s)
  {
    DecodeEmbedded(fdct(Gather(data, width, height, b)), Payload(s));
  }

  /** `perform_dct(dct_coeffs)` / `perform_inverse_dct(dct_coeffs)`: the block is replaced by its transform. */
  method ApplyTransform(dctCoeffs: array<int>, transform: seq<int> -> seq<int>)
    requires dctCoeffs.Length == BLOCK_AREA && KeepsBlockShape(transform)
    modifies dctCoeffs
    ensures dctCoeffs[..] == transform(old(dctCoeffs[..]))
  {
    var t := transform(dctCoeffs[..]);
    forall k | 0 <= k < BLOCK_AREA {
      dctCoeffs[k] := t[k];
    }
  }

  /**
   * One iteration of the block loop: gather block `block` into a fresh
   * `int[64]`, transform it, embed the message, transform it back and write it
   * back. It takes the buffer from the state after `block` iterations to the
   * state after `block + 1`.
   */
  method EmbedInBlock(image: Image, block: nat, secretMessage: CString,
                      fdct: seq<int> -> seq<int>, idct: seq<int> -> seq<int>, ghost original: seq<byte>, ghost bits: seq<bit>)
    requires Tiles(image.width, image.height) && image.width * image.height <= |original| == image.data.Length
    requires block < NumBlocks(image.width, image.height) && 8 * StrLen(secretMessage) <= BLOCK_AREA
    requires bits == MessageBits(Payload(secretMessage))
    requires KeepsBlockShape(fdct) && KeepsBlockShape(idct)
    requires image.data[..] == EmbedBlocks(original, image.width, image.height, block, bits, fdct, idct)
    modifies image.data
    ensures image.data[..] == EmbedBlocks(original, image.width, image.height, block + 1, bits, fdct, idct)
  {
    var dctCoeffs := new int[BLOCK_AREA];
    GatherBlock(image, block, dctCoeffs);
    ApplyTransform(dctCoeffs, fdct);
    EmbedSecretData(dctCoeffs, secretMessage);
    ApplyTransform(dctCoeffs, idct);
    ScatterBlock(image, block, dctCoeffs);
  }

  /**
   * The block loop of `image_steganography_dct`: `num_blocks` iterations, each
   * embedding the whole message again.
   */
  method EmbedInBlocks(image: Image, secretMessage: CString, fdct: seq<int> -> seq<int>, idct: seq<int> -> seq<int>)
    requires Tiles(image.width, image.height) && image.width * image.height <= image.data.Length
    requires NumBlocks(image.width, image.height) == 0 || 8 * StrLen(secretMessage) <= BLOCK_AREA
    requires KeepsBlockShape(fdct) && KeepsBlockShape(idct)
    modifies image.data
    ensures image.data[..] == EmbedBlocks(old(image.data[..]), image.width, image.height, NumBlocks(image.width, image.height),
                                          MessageBits(Payload(secretMessage)), fdct, idct)
  {
    ghost var original := image.data[..];
    ghost var bits := MessageBits(Payload(secretMessage));
    ghost var width, height := image.width, image.height;
    var numBlocks := (image.width * image.height) / (BLOCK_SIZE * BLOCK_SIZE);
    assert numBlocks == NumBlocks(width, height);
    assert numBlocks == 0 || |bits| <= BLOCK_AREA;
    var block := 0;
    while block < numBlocks
      invariant 0 <= block <= numBlocks
      invariant image.data[..] == EmbedBlocks(original, width, height, block, bits, fdct, idct)
    {
      EmbedInBlock(image, block, secretMessage, fdct, idct, original, bits);
      block := block + 1;
    }
  }

  /** The buffer `image_steganography_dct` leaves behind, from the one it was given. */
  function StegoImage(data: seq<byte>, width: int, height: int, channels: int, secretMessage: CString,
                      toYcbcr: (byte, byte, byte) -> (byte, byte, byte), toRgb: (byte, byte, byte) -> (int, int, int),
                      fdct: seq<int> -> seq<int>, idct: seq<int> -> seq<int>): (r: seq<byte>)
    requires Tiles(width, height) && 3 <= channels && |data| == width * height * channels
    requires NumBlocks(width, height) == 0 || 8 * StrLen(secretMessage) <= BLOCK_AREA
    requires KeepsBlockShape(fdct) && KeepsBlockShape(idct)
    ensures |r| == |data|
  {
    LumaFits(width, height, channels);
    var ycbcr := MapPixels(data, channels, width * height, toYcbcr);
    var embedded := EmbedBlocks(ycbcr, width, height, NumBlocks(width, height), MessageBits(Payload(secretMessage)), fdct, idct);
    MapPixels(embedded, channels, width * height, Clamped(toRgb))
  }

  /** A buffer of `width * height` pixels of at least one byte holds the `width * height` bytes the blocks address. */
  lemma LumaFits(width: int, height: int, channels: int)
    requires 0 <= width && 0 <= height && 1 <= channels
    ensures width * height <= width * height * channels
  {
    MulMonotone(1, channels, width * height);
  }

  /**
   * `image_steganography_dct` without its file input and output: colour
   * conversion, the block loop, and the conversion back, in place on the buffer.
   */
  method ImageSteganographyDct(image: Image, secretMessage: CString,
                               toYcbcr: (byte, byte, byte) -> (byte, byte, byte), toRgb: (byte, byte, byte) -> (int, int, int),
                               fdct: seq<int> -> seq<int>, idct: seq<int> -> seq<int>)
    requires image.Valid() && 3 <= image.channels && Tiles(image.width, image.height)
    requires NumBlocks(image.width, image.height) == 0 || 8 * StrLen(secretMessage) <= BLOCK_AREA
    requires KeepsBlockShape(fdct) && KeepsBlockShape(idct)
    modifies image.data
    ensures image.data[..] == StegoImage(old(image.data[..]), image.width, image.height, image.channels, secretMessage,
                                         toYcbcr, toRgb, fdct, idct)
  {
    LumaFits(image.width, image.height, image.channels);
    ConvertRgbToYcbcr(image, toYcbcr);
    EmbedInBlocks(image, secretMessage, fdct, idct);
    ConvertYcbcrToRgb(image, toRgb);
  }
}
