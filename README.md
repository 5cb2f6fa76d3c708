# DCT image steganography, modelled in Dafny

This project models the core of a small C program that hides a text message
in an image. The program converts the pixels from RGB to luma/chroma
(YCbCr). It then walks the image in 8 x 8 blocks. Each block is copied into
an `int[64]`, transformed with a discrete cosine transform, and the message
is embedded into the parities of its coefficients. The block is transformed
back and written into the image. Finally the pixels are converted back to
RGB.

The model is split into one module per concern:

- `ImageData` (`image.dfy`): `struct Image` as a class with `width`,
  `height`, `channels` and a byte buffer. It also holds the block size and
  the conversion of an `int` to `unsigned char` (reduction modulo 256).
- `Codec` (`codec.dfy`): `embed_secret_data` as a method on an
  `array<int>`, proved equal to a specification function `EmbedParities`
  applied to the message's bit stream. Next to it is a decoder for the
  parities, which is what the declared `extract_secret_data` stands for. It
  is proved to invert the embedder in both directions.
- `Blocks` (`blocks.dfy`): the block count, the address of cell `(i, j)` of
  block `b` exactly as the C code computes it, its inverse `Locate`, and the
  gather and write-back loops as methods over specification functions
  `Gather` and `Scatter`.
- `Color` (`color.dfy`): the two per-pixel conversion loops as methods that
  change the buffer in place, over a specification function `MapPixels`.
  The floating-point formulas are function parameters. The integer clamp of
  the inverse conversion is modelled exactly.
- `Stego` (`stego.dfy`): the block loop of `image_steganography_dct` as
  methods, over a specification function `EmbedBlocks` that folds the
  per-block step over the blocks, and the whole routine without its file
  input and output.
- `Arith` (`arith.dfy`): facts about division and multiplication used by the
  addressing proofs.

Behaviour kept as the C code has it:

- The block address is `((b / (w/8)) * 8 + i) * w + (b % (w/8)) * 8 + j`.
  It has no factor for the number of channels. On an interleaved RGB buffer
  the blocks therefore cover the first `width * height` bytes, not the luma
  byte of each pixel. The model proves that these addresses are in bounds,
  injective and cover exactly the first `width * height` bytes.
- Every block restarts the message at bit 0: `embed_secret_data` is called
  with the same string for each block.
- The C string is modelled as a byte sequence that contains a zero byte.
  Only the bytes before the first zero are read.
- Writing an `int` coefficient back into an `unsigned char` keeps it modulo
  256 (`ToByte`). Negative or large values after the inverse transform wrap.
- `coeff % 2 != 0` in C is true for odd negative values too, because C's
  `%` truncates toward zero. Dafny's `%` is Euclidean and gives the same
  truth value, so `IsOdd` uses it directly.
- Width and height must be multiples of 8 (`Tiles`). The C code never checks
  this. For many other sizes its block loop still stays inside the buffer
  but rewrites bytes past the first `width * height` (channel bytes of later
  pixels): a 64 x 12 RGB image has 12 blocks whose last cell is byte 991,
  past 768 but inside the 2304-byte buffer. A height below 8 can run past
  the buffer (64 x 1 x 3: byte 455 of 192), and a width below 8 divides by
  zero once there is a block. `Tiles` excludes all of these sizes.
- The message must fit into one block: `8 * strlen(message) <= 64`. The C
  code indexes `dct_coeffs[index * 8 + bit_index]` without a bound check.

## Model

| member | source | states |
|---|---|---|
| ImageData.ToByte | DCT.c:238 | storing an `int` into an `unsigned char` keeps a value congruent to it modulo 256, and a value already in 0..255 unchanged |
| ImageData.Image.constructor | DCT.h:11-16 | an image holds the given width, height, channels and pixel bytes in a fresh buffer |
| Codec.StrLen | DCT.c:160 | the loop guard stops at the first zero byte: the byte at the returned position is zero and every earlier byte is not |
| Codec.Payload | DCT.c:160-161 | the bytes the embedder reads are a zero-free prefix of the string, followed in the string by a zero byte |
| Codec.MessageBitAt | DCT.c:162-164 | bit `8n + k` of the stream is `(byte n >> (7 - k)) & 1`: bytes in order, each most significant bit first |
| Codec.SetParity | DCT.c:163-170 | one parity step moves a coefficient by at most one; its full meaning is proved in SetParityMeaning (odd exactly for a 1 bit, moved only when the parity differs, down for 0 and up for 1) and EmbedChangesAtMostOne (at most one step per coefficient) |
| Codec.SetParityMeaning | DCT.c:165-170 | after one step the coefficient is odd exactly for a 1 bit; it is unchanged exactly when its parity already matched; it goes down by one exactly for a 0 bit on an odd value and up by one exactly for a 1 bit on an even value |
| Codec.EmbedSecretData | DCT.c:154-176 | the method leaves the array equal to `EmbedParities` of the old array and the message's bit stream |
| Codec.EmbeddedParity | DCT.c:162-170 | after embedding, coefficient `8n + k` is odd if and only if bit `k` (most significant first) of byte `n` is 1 |
| Codec.EmbedChangesAtMostOne | DCT.c:165-170 | each coefficient moves by at most one, downward only for a 0 bit on an odd value, upward only for a 1 bit on an even value, and coefficients past the message are untouched |
| Codec.EmbedIdempotent | DCT.c:165-170 | embedding the same bits a second time changes nothing |
| Codec.PayloadIgnoresTail | DCT.c:160-161 | two strings that agree up to and including the first zero byte embed the same payload |
| Codec.DecodeParities | DCT.h:31 | decodes `size` bytes, byte `n` most significant bit first from the parities of coefficients `8n .. 8n+7`; its meaning is proved in DecodedBitAt (bit `i` is 1 exactly when coefficient `i` is odd), DecodeEmbedded (it inverts the embedder) and EmbedDecoded (re-embedding what it decodes changes nothing) |
| Codec.ByteBitsRoundTrip | DCT.c:164 | packing the eight extracted bits of a byte, most significant first, gives the byte back |
| Codec.PackBitsOf | DCT.c:164 | a value below `2^w` is rebuilt by packing its low `w` bits |
| Codec.BitsOfPack | DCT.c:164 | splitting a packed bit string back into bits gives the same bits |
| Codec.DecodeEmbedded | DCT.c:154-176 | decoding the parities of the embedded coefficients gives back the message |
| Codec.DecodedBitAt | DCT.h:31 | bit `i` of what the coefficients decode to is 1 exactly when coefficient `i` is odd |
| Codec.EmbedDecoded | DCT.c:165-170 | embedding what the coefficients already decode to leaves every coefficient unchanged |
| Codec.EmbedSecretDataRoundTrip | DCT.c:154-176 | the payload decodes from the embedded array, and the coefficients after its `8 * strlen` bits are unchanged |
| Blocks.NumBlocks | DCT.c:212 | the block count `(w * h) / 64` is never negative for non-negative dimensions; NumBlocksExact shows it is the number of block rows times the number of block columns |
| Blocks.BlockAddress | DCT.c:221 | the address of cell `(i, j)` of block `b` as the loop computes it is never negative; its full meaning is proved in AddressInImage (inside the first `w * h` bytes), AddressLocates (Locate inverts it), AddressInjective (distinct cells, distinct addresses) and LocateAddress (every one of the first `w * h` bytes is reached) |
| Blocks.NumBlocksExact | DCT.c:212 | for dimensions that are multiples of 8, `(w * h) / 64` is the number of block rows times the number of block columns |
| Blocks.Locate | DCT.c:221 | every address splits into a block number and a row and column inside the block, both below 8 |
| Blocks.Cell | DCT.c:222 | the cell index `row * 8 + col` of an address is below 64 |
| Blocks.AddressInImage | DCT.c:221 | every cell of every block the loop visits lies in the first `w * h` bytes |
| Blocks.AddressLocates | DCT.c:221 | `Locate` inverts the address computation, for every block number |
| Blocks.AddressInjective | DCT.c:221 | distinct block cells have distinct addresses |
| Blocks.LocateAddress | DCT.c:215-224 | every one of the first `w * h` bytes is a cell of a block the loop visits |
| Blocks.GatherAt | DCT.c:219-224 | cell `(i, j)` of a gathered block is the byte at that cell's address |
| Blocks.ScatterAt | DCT.c:236-240 | after the write-back, the byte at cell `(i, j)`'s address is the coefficient reduced modulo 256 |
| Blocks.ScatterAtAddress | DCT.c:236-240 | the write-back sets an address to its cell's coefficient modulo 256 if the address lies in the block, and leaves it alone otherwise |
| Blocks.ScatterOnlyItsBlock | DCT.c:236-240 | a byte the write-back changes is one of the block's 64 cells |
| Blocks.ScatterGathered | DCT.c:219-240 | writing back a block exactly as it was gathered leaves the buffer unchanged |
| Blocks.GatherOtherBlock | DCT.c:215-240 | writing back one block does not change what is gathered from any other block |
| Blocks.GatherScattered | DCT.c:219-240 | gathering a block just written back gives its values modulo 256 |
| Blocks.GatherBlock | DCT.c:219-224 | the gather loop fills the 64 coefficients with `Gather` of the buffer |
| Blocks.ScatterBlock | DCT.c:236-240 | the write-back loop leaves the buffer equal to `Scatter` of the old buffer and the coefficients |
| Color.Clamp | DCT.c:76-78 | the clamp returns a byte, and a value already in 0..255 unchanged |
| Color.ClampNearest | DCT.c:76-78 | the clamped byte is the byte nearest to the value |
| Color.ClampMonotone | DCT.c:76-78 | clamping preserves order |
| Color.MapPixelsAt | DCT.c:35-50 | byte `q < 3` of pixel `p` becomes byte `q` of the formula applied to that pixel's old three bytes |
| Color.MapPixelsKeepsOtherBytes | DCT.c:36-49 | bytes 3 and up of every pixel are left as they were |
| Color.MapPixelsKeepsTail | DCT.c:33-35 | bytes after the last pixel are left as they were |
| Color.ConvertRgbToYcbcr | DCT.c:27-54 | the loop leaves the buffer equal to `MapPixels` of the old buffer with the forward formula |
| Color.ConvertYcbcrToRgb | DCT.c:56-82 | the loop leaves the buffer equal to `MapPixels` of the old buffer with the inverse formula clamped to bytes |
| Stego.EmbedBlocksAt | DCT.c:215-241 | blocks do not interfere: after `n` iterations a cell of a visited block holds that block's output computed from the original buffer, and every other byte is the original |
| Stego.EmbedAllBlocks | DCT.c:212-241 | after the whole loop each of the first `w * h` bytes is the byte its own block's output puts there |
| Stego.EmbedBlocksKeepTail | DCT.c:212-241 | after the whole loop the bytes past the first `w * h` are untouched |
| Stego.EveryBlockCarriesPayload | DCT.c:215-233 | the coefficients every block hands to the inverse transform decode to the whole payload from its first bit |
| Stego.ApplyTransform | DCT.c:227 | a transform call replaces the 64 coefficients by the transform of the old ones |
| Stego.EmbedInBlock | DCT.c:215-240 | one iteration takes the buffer from the state after `block` iterations to the state after `block + 1` |
| Stego.EmbedInBlocks | DCT.c:212-241 | the block loop leaves the buffer equal to `EmbedBlocks` over all `(w * h) / 64` blocks |
| Stego.ImageSteganographyDct | DCT.c:200-253 | the colour conversion, the block loop and the conversion back leave the buffer equal to `StegoImage` of the old buffer |

## Left out

- `perform_dct` and `perform_inverse_dct` (DCT.c:84-152): floating-point cosine sums truncated to `int`. They are function parameters `fdct` and `idct` that only promise to map 64 coefficients to 64 coefficients.
- The colour formulas (DCT.c:47-49, 72-74): floating-point arithmetic. They are function parameters. The clamp of DCT.c:76-78 is modelled exactly.
- `load_image`, `save_image` and `main` (DCT.c:2-24, 178-198, 255 on): file and console input and output. The model starts from an image already in memory and ends with the buffer.
- All `printf` calls: console output only.
- `free(image)` at the end of `convert_rgb_to_ycbcr` (DCT.c:53) and `free(image.data)` (DCT.c:250): memory management. The model keeps using the image afterwards, as the C code does.
- `if (!pixel) break;` (DCT.c:38-41, 63-66): the address of a byte inside an allocated buffer is never null, so the branch never fires.
- `extract_secret_data` (DCT.h:31) is declared but has no definition. `Codec.DecodeParities` is the decoder its signature and the embedder imply.
- 32-bit overflow of `width * height`, `i * channels` and the unsigned loop indices: the model uses unbounded integers and requires the buffer to be as large as the products say.
- The source as given does not compile (`image` is declared as `struct Image *` but used with `.` in `image_steganography_dct`, and `load_image` is called with two arguments). The model follows the evident intent: one image, updated in place.
- Color.ConvertRgbToYcbcr, Color.ConvertYcbcrToRgb: require at least three channels, because the C code reads bytes 0..2 of every pixel without checking.
- Stego.EmbedInBlocks: requires `8 * strlen(message) <= 64` when there is at least one block, because the C code writes past `dct_coeffs[64]` otherwise, and width and height multiples of 8 (`Tiles`), because for other sizes the C code rewrites bytes past the first `w * h`, runs past the buffer (heights below 8) or divides by zero (widths below 8).
