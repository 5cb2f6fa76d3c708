/**
 * The 8 x 8 block walk of `image_steganography_dct`: how many blocks there are,
 * the byte offset of each block cell in `image.data`, and the two copy loops
 * that gather a block into `int dct_coeffs[64]` and scatter it back.
 *
 * The offset is computed exactly as the C code writes it: rows of `width`
 * bytes, with no factor for the number of channels, so on an interleaved
 * multi-channel buffer the blocks cover the first `width * height` bytes
 * rather than the first channel of every pixel.
 */
module Blocks {
  import opened ImageData
  import opened Arith

  /** `num_blocks = (width * height) / (BLOCK_SIZE * BLOCK_SIZE)`. */
  function NumBlocks(width: int, height: int): (n: int)
    ensures 0 <= width && 0 <= height ==> 0 <= n
  {
    ProductNonNegative(width, height);
    (width * height) / BLOCK_AREA
  }

  /** Dimensions made of whole blocks, which the block loop needs but never checks. */
  predicate Tiles(width: int, height: int)
  {
    0 <= width && 0 <= height && width % BLOCK_SIZE == 0 && height % BLOCK_SIZE == 0
  }

  /** The offset into `image.data` of row `i`, column `j` of block `b`, blocks numbered row by row. */
  function BlockAddress(width: int, b: nat, i: nat, j: nat): (a: int)
    requires 0 < width && width % BLOCK_SIZE == 0
    ensures 0 <= a
  {
    ((b / (width / BLOCK_SIZE)) * BLOCK_SIZE + i) * width + ((b % (width / BLOCK_SIZE)) * BLOCK_SIZE + j)
  }

  /** A cell of a block: the block's number and the row and column inside it. */
  datatype Position = Position(block: int, row: int, col: int)

  /** The block cell whose address is `k`: the inverse of BlockAddress. */
  function Locate(width: int, k: nat): (p: Position)
    requires 0 < width && width % BLOCK_SIZE == 0
    ensures 0 <= p.block && 0 <= p.row < BLOCK_SIZE && 0 <= p.col < BLOCK_SIZE
  {
    var row: nat, col: nat := k / width, k % width;
    var blockRow: nat, blockCols: nat := row / BLOCK_SIZE, width / BLOCK_SIZE;
    MulMonotone(0, blockRow, blockCols);
    Position(blockRow * blockCols + col / BLOCK_SIZE, row % BLOCK_SIZE, col % BLOCK_SIZE)
  }

  // ---------------------------------------------------------------------------
  // Addressing

  /** On whole blocks, `(width * height) / 64` is the number of block rows times the number of block columns. */
  lemma NumBlocksExact(width: int, height: int)
    requires Tiles(width, height)
    ensures NumBlocks(width, height) == (width / BLOCK_SIZE) * (height / BLOCK_SIZE)
  {
    var bw, bh := width / BLOCK_SIZE, height / BLOCK_SIZE;
    assert width * height == (bw * bh) * BLOCK_AREA;
    DivModUnique(width * height, BLOCK_AREA, bw * bh, 0);
  }

  /** Every cell of every block the loop visits lies inside the first `width * height` bytes. */
  lemma AddressInImage(width: int, height: int, b: nat, i: nat, j: nat)
    requires Tiles(width, height) && b < NumBlocks(width, height) && i < BLOCK_SIZE && j < BLOCK_SIZE
    ensures 0 < width
    ensures 0 <= BlockAddress(width, b, i, j) < width * height
  {
    NumBlocksExact(width, height);
    var bw, bh := width / BLOCK_SIZE, height / BLOCK_SIZE;
    assert 0 < bw;
    QuotientBound(b, bw, bh);
    var r, c := b / bw, b % bw;
    var row, col := r * BLOCK_SIZE + i, c * BLOCK_SIZE + j;
    assert BlockAddress(width, b, i, j) == row * width + col;
    RowMajorBound(row, col, height, width);
  }

  /** Block row `b / bw` of block `b < bw * bh` is between 0 and `bh`. */
  lemma QuotientBound(b: nat, bw: int, bh: int)
    requires 0 < bw && b < bw * bh
    ensures 0 <= b / bw < bh
  {
    var r := b / bw;
    DivModParts(b, bw);
    if r < 0 {
      MulMonotone(r + 1, 0, bw);
      assert false;
    }
    assert r * bw <= b;
    if bh <= r {
      MulMonotone(bh, r, bw);
      assert false;
    }
  }

  /** Row-major offset `row * width + col` of a cell of a `width x height` grid is below `width * height`. */
  lemma RowMajorBound(row: nat, col: nat, height: int, width: int)
    requires row < height && col < width
    ensures row * width + col < width * height
  {
    MulMonotone(row + 1, height, width);
    assert (row + 1) * width == row * width + width;
  }

  /** Locate splits a row-major offset `row * width + col` into its row and column before splitting those into blocks. */
  lemma LocateRowMajor(width: int, row: nat, col: nat)
    requires 0 < width && width % BLOCK_SIZE == 0 && col < width
    ensures row * width + col >= 0
    ensures Locate(width, row * width + col)
         == Position((row / BLOCK_SIZE) * (width / BLOCK_SIZE) + col / BLOCK_SIZE, row % BLOCK_SIZE, col % BLOCK_SIZE)
  {
    MulMonotone(0, row, width);
    DivModUnique(row * width + col, width, row, col);
  }

  /** Cell `(i, j)` of the block in block row `r`, block column `c` is located back to that block row, column and cell. */
  lemma LocateCell(width: int, bw: int, r: nat, c: nat, i: nat, j: nat)
    requires width == bw * BLOCK_SIZE && c < bw && i < BLOCK_SIZE && j < BLOCK_SIZE
    ensures (r * BLOCK_SIZE + i) * width + (c * BLOCK_SIZE + j) >= 0
    ensures Locate(width, (r * BLOCK_SIZE + i) * width + (c * BLOCK_SIZE + j)) == Position(r * bw + c, i, j)
  {
    var row, col := r * BLOCK_SIZE + i, c * BLOCK_SIZE + j;
    LocateRowMajor(width, row, col);
    DivModUnique(width, BLOCK_SIZE, bw, 0);
    DivModUnique(row, BLOCK_SIZE, r, i);
    DivModUnique(col, BLOCK_SIZE, c, j);
  }

  /** Locate undoes BlockAddress, for every block number. */
  lemma AddressLocates(width: int, b: nat, i: nat, j: nat)
    requires 0 < width && width % BLOCK_SIZE == 0 && i < BLOCK_SIZE && j < BLOCK_SIZE
    ensures BlockAddress(width, b, i, j) >= 0
    ensures Locate(width, BlockAddress(width, b, i, j)) == Position(b, i, j)
  {
    var bw := width / BLOCK_SIZE;
    DivModParts(b, bw);
    LocateCell(width, bw, b / bw, b % bw, i, j);
  }

  /** Distinct block cells have distinct addresses. */
  lemma AddressInjective(width: int, b: nat, i: nat, j: nat, b': nat, i': nat, j': nat)
    requires 0 < width && width % BLOCK_SIZE == 0
    requires i < BLOCK_SIZE && j < BLOCK_SIZE && i' < BLOCK_SIZE && j' < BLOCK_SIZE
    requires BlockAddress(width, b, i, j) == BlockAddress(width, b', i', j')
    ensures b == b' && i == i' && j == j'
  {
    AddressLocates(width, b, i, j);
    AddressLocates(width, b', i', j');
  }

  /** Every one of the first `width * height` bytes is a cell of exactly one block the loop visits. */
  lemma LocateAddress(width: int, height: int, k: nat)
    requires Tiles(width, height) && k < width * height
    ensures 0 < width
    ensures Locate(width, k).block < NumBlocks(width, height)
    ensures BlockAddress(width, Locate(width, k).block, Locate(width, k).row, Locate(width, k).col) == k
  {
    NumBlocksExact(width, height);
    var bw, bh := width / BLOCK_SIZE, height / BLOCK_SIZE;
    var row, col := k / width, k % width;
    assert k == row * width + col;
    if height <= row {
      MulMonotone(height, row, width);
      assert false;
    }
    var r, i := row / BLOCK_SIZE, row % BLOCK_SIZE;
    var c, j := col / BLOCK_SIZE, col % BLOCK_SIZE;
    assert c < bw && r < bh;
    var b := r * bw + c;
    DivModUnique(b, bw, r, c);
    MulMonotone(r + 1, bh, bw);
    assert b < (r + 1) * bw;
    assert Locate(width, k) == Position(b, i, j);
    assert BlockAddress(width, b, i, j) == (r * BLOCK_SIZE + i) * width + (c * BLOCK_SIZE + j);
  }

  /** An address lying in block `b` at cell `i * 8 + j` is the address of `(b, i, j)`. */
  lemma CellDetermines(width: int, height: int, b: nat, i: nat, j: nat, k: nat)
    requires Tiles(width, height) && k < width * height && i < BLOCK_SIZE && j < BLOCK_SIZE
    ensures 0 < width
    ensures Locate(width, k).block == b && Cell(width, k) == i * BLOCK_SIZE + j ==> BlockAddress(width, b, i, j) == k
  {
    LocateAddress(width, height, k);
    var p := Locate(width, k);
    if p.block == b && Cell(width, k) == i * BLOCK_SIZE + j {
      assert p.row == i && p.col == j;
    }
  }

  // ---------------------------------------------------------------------------
  // The two copy loops, as functions of the buffer

  /** The 64 values the gather loop copies out of block `b`, row by row. */
  function Gather(data: seq<byte>, width: int, height: int, b: nat): (block: seq<int>)
    requires Tiles(width, height) && width * height <= |data| && b < NumBlocks(width, height)
    ensures |block| == BLOCK_AREA
  {
    seq(BLOCK_AREA, k requires 0 <= k < BLOCK_AREA =>
      AddressInImage(width, height, b, k / BLOCK_SIZE, k % BLOCK_SIZE);
      data[BlockAddress(width, b, k / BLOCK_SIZE, k % BLOCK_SIZE)])
  }

  /** The buffer after the write-back loop stores `block` into block `b`, each value reduced modulo 256. */
  function Scatter(data: seq<byte>, width: int, height: int, b: nat, block: seq<int>): (r: seq<byte>)
    requires Tiles(width, height) && width * height <= |data| && b < NumBlocks(width, height)
    requires |block| == BLOCK_AREA
    ensures |r| == |data|
  {
    AddressInImage(width, height, b, 0, 0);
    seq(|data|, k requires 0 <= k < |data| =>
      var p := Locate(width, k);
      if k < width * height && p.block == b then ToByte(block[p.row * BLOCK_SIZE + p.col]) else data[k])
  }

  /** What Scatter leaves at address `k`: the block's value there if `k` lies in block `b`, the old byte otherwise. */
  lemma ScatterAtAddress(data: seq<byte>, width: int, height: int, b: nat, block: seq<int>, k: nat)
    requires Tiles(width, height) && width * height <= |data| && b < NumBlocks(width, height)
    requires |block| == BLOCK_AREA && k < |data|
    ensures 0 < width
    ensures k < width * height && Locate(width, k).block == b ==>
      Scatter(data, width, height, b, block)[k] == ToByte(block[Cell(width, k)])
    ensures !(k < width * height && Locate(width, k).block == b) ==>
      Scatter(data, width, height, b, block)[k] == data[k]
  {
    AddressInImage(width, height, b, 0, 0);
  }

  /** Gather reads cell `(i, j)` of block `b` at its address. */
  lemma GatherAt(data: seq<byte>, width: int, height: int, b: nat, i: nat, j: nat)
    requires Tiles(width, height) && width * height <= |data| && b < NumBlocks(width, height)
    requires i < BLOCK_SIZE && j < BLOCK_SIZE
    ensures 0 < width && 0 <= BlockAddress(width, b, i, j) < |data|
    ensures Gather(data, width, height, b)[i * BLOCK_SIZE + j] == data[BlockAddress(width, b, i, j)]
  {
    AddressInImage(width, height, b, i, j);
    assert (i * BLOCK_SIZE + j) / BLOCK_SIZE == i && (i * BLOCK_SIZE + j) % BLOCK_SIZE == j;
  }

  /** Scatter stores cell `(i, j)` of the block, modulo 256, at its address. */
  lemma ScatterAt(data: seq<byte>, width: int, height: int, b: nat, block: seq<int>, i: nat, j: nat)
    requires Tiles(width, height) && width * height <= |data| && b < NumBlocks(width, height)
    requires |block| == BLOCK_AREA && i < BLOCK_SIZE && j < BLOCK_SIZE
    ensures 0 < width && 0 <= BlockAddress(width, b, i, j) < |data|
    ensures Scatter(data, width, height, b, block)[BlockAddress(width, b, i, j)] == ToByte(block[i * BLOCK_SIZE + j])
  {
    AddressInImage(width, height, b, i, j);
    AddressLocates(width, b, i, j);
  }

  /** Scattering block `b` changes no byte other than its 64 cells. */
  lemma ScatterOnlyItsBlock(data: seq<byte>, width: int, height: int, b: nat, block: seq<int>, k: nat)
    requires Tiles(width, height) && width * height <= |data| && b < NumBlocks(width, height)
    requires |block| == BLOCK_AREA && k < |data|
    requires Scatter(data, width, height, b, block)[k] != data[k]
    ensures 0 < width
    ensures exists i: nat, j: nat :: i < BLOCK_SIZE && j < BLOCK_SIZE && k == BlockAddress(width, b, i, j)
  {
    AddressInImage(width, height, b, 0, 0);
    LocateAddress(width, height, k);
    var p := Locate(width, k);
    assert k == BlockAddress(width, b, p.row, p.col);
  }

  /** Writing back a block exactly as it was gathered leaves the buffer unchanged. */
  lemma ScatterGathered(data: seq<byte>, width: int, height: int, b: nat)
    requires Tiles(width, height) && width * height <= |data| && b < NumBlocks(width, height)
    ensures Scatter(data, width, height, b, Gather(data, width, height, b)) == data
  {
    var g := Gather(data, width, height, b);
    var r := Scatter(data, width, height, b, g);
    forall k | 0 <= k < |data|
      ensures r[k] == data[k]
    {
      if k < width * height {
        LocateAddress(width, height, k);
        var p := Locate(width, k);
        if p.block == b {
          GatherAt(data, width, height, b, p.row, p.col);
        }
      }
    }
  }

  /** Scattering one block does not change what is gathered from any other block. */
  lemma GatherOtherBlock(data: seq<byte>, width: int, height: int, b: nat, block: seq<int>, b': nat)
    requires Tiles(width, height) && width * height <= |data| && b < NumBlocks(width, height)
    requires |block| == BLOCK_AREA && b' < NumBlocks(width, height) && b' != b
    ensures Gather(Scatter(data, width, height, b, block), width, height, b') == Gather(data, width, height, b')
  {
    var r := Scatter(data, width, height, b, block);
    forall k | 0 <= k < BLOCK_AREA
      ensures Gather(r, width, height, b')[k] == Gather(data, width, height, b')[k]
    {
      var i, j := k / BLOCK_SIZE, k % BLOCK_SIZE;
      GatherAt(r, width, height, b', i, j);
      GatherAt(data, width, height, b', i, j);
      AddressLocates(width, b', i, j);
    }
  }

  /** Gathering a block just scattered gives back its values modulo 256. */
  lemma GatherScattered(data: seq<byte>, width: int, height: int, b: nat, block: seq<int>, k: nat)
    requires Tiles(width, height) && width * height <= |data| && b < NumBlocks(width, height)
    requires |block| == BLOCK_AREA && k < BLOCK_AREA
    ensures Gather(Scatter(data, width, height, b, block), width, height, b)[k] == ToByte(block[k])
  {
    var i, j := k / BLOCK_SIZE, k % BLOCK_SIZE;
    GatherAt(Scatter(data, width, height, b, block), width, height, b, i, j);
    ScatterAt(data, width, height, b, block, i, j);
  }

  // ---------------------------------------------------------------------------
  // The loops themselves

  /** The gather loop: `dct_coeffs[i * 8 + j] = image.data[address of (block, i, j)]`. */
  method GatherBlock(image: Image, block: nat, dctCoeffs: array<int>)
    requires Tiles(image.width, image.height) && image.width * image.height <= image.data.Length
    requires block < NumBlocks(image.width, image.height) && dctCoeffs.Length == BLOCK_AREA
    modifies dctCoeffs
    ensures dctCoeffs[..] == Gather(image.data[..], image.width, image.height, block)
  {
    ghost var g := Gather(image.data[..], image.width, image.height, block);
    var i := 0;
    while i < BLOCK_SIZE
      invariant 0 <= i <= BLOCK_SIZE
      invariant forall k :: 0 <= k < i * BLOCK_SIZE ==> dctCoeffs[k] == g[k]
    {
      var j := 0;
      while j < BLOCK_SIZE
        invariant 0 <= j <= BLOCK_SIZE
        invariant forall k :: 0 <= k < i * BLOCK_SIZE + j ==> dctCoeffs[k] == g[k]
      {
        GatherAt(image.data[..], image.width, image.height, block, i, j);
        var y := image.data[BlockAddress(image.width, block, i, j)];
        dctCoeffs[i * BLOCK_SIZE + j] := y;
        j := j + 1;
      }
      i := i + 1;
    }
  }

  /** The write-back loop: `image.data[address of (block, i, j)] = dct_coeffs[i * 8 + j]`, an int stored into a byte. */
  method ScatterBlock(image: Image, block: nat, dctCoeffs: array<int>)
    requires Tiles(image.width, image.height) && image.width * image.height <= image.data.Length
    requires block < NumBlocks(image.width, image.height) && dctCoeffs.Length == BLOCK_AREA
    modifies image.data
    ensures image.data[..] == Scatter(old(image.data[..]), image.width, image.height, block, dctCoeffs[..])
  {
    ghost var before := image.data[..];
    ghost var w, h := image.width, image.height;
    AddressInImage(w, h, block, 0, 0);
    var i := 0;
    while i < BLOCK_SIZE
      invariant 0 <= i <= BLOCK_SIZE
      invariant forall k :: 0 <= k < image.data.Length ==>
        image.data[k] == if k < w * h && Written(w, block, i * BLOCK_SIZE, k) then ToByte(dctCoeffs[Cell(w, k)]) else before[k]
    {
      var j := 0;
      while j < BLOCK_SIZE
        invariant 0 <= j <= BLOCK_SIZE
        invariant forall k :: 0 <= k < image.data.Length ==>
          image.data[k] == if k < w * h && Written(w, block, i * BLOCK_SIZE + j, k) then ToByte(dctCoeffs[Cell(w, k)]) else before[k]
      {
        AddressInImage(w, h, block, i, j);
        AddressLocates(w, block, i, j);
        var a := BlockAddress(image.width, block, i, j);
        image.data[a] := ToByte(dctCoeffs[i * BLOCK_SIZE + j]);
        forall k | 0 <= k < w * h && k != a
          ensures Locate(w, k).block == block ==> Cell(w, k) != i * BLOCK_SIZE + j
        {
          CellDetermines(w, h, block, i, j, k);
        }
        j := j + 1;
      }
      i := i + 1;
    }
  }

  /** Cell number `row * 8 + col` of the block cell at address `k`. */
  function Cell(width: int, k: nat): (n: nat)
    requires 0 < width && width % BLOCK_SIZE == 0
    ensures n < BLOCK_AREA
  {
    Locate(width, k).row * BLOCK_SIZE + Locate(width, k).col
  }

  /** Whether address `k` is one of the first `count` cells of block `b`. */
  predicate Written(width: int, b: nat, count: nat, k: nat)
    requires 0 < width && width % BLOCK_SIZE == 0
  {
    Locate(width, k).block == b && Cell(width, k) < count
  }
}
