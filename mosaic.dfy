/** `construct_mosaic`: every block of the matched grid becomes the tile
    stored under its colour, laid out scanline by scanline. */
module Mosaic {
  import opened Common
  import opened Catalog
  import Palette
  import Arith

  /** The panics of `construct_mosaic`, as an error: the block colour has no
      tile, or its tile is too short to be indexed (lines 317-319). */
  datatype MosaicError = TileNotFound(key: Key)

  /** Byte j of the tile stored under `key`, or 0 where there is none. */
  function TileByte(m: seq<Entry>, key: Key, j: nat): Byte
  {
    var t := Lookup(m, key);
    if t.Some? && j < |t.value| then t.value[j] else 0
  }

  /** The map holds a tile of T x T pixels (at least) for `key`. */
  predicate HasTile(m: seq<Entry>, key: Key, T: nat)
  {
    var t := Lookup(m, key);
    t.Some? && |t.value| >= T * T * 3
  }

  /** The colour of block b of a Wb x Hb grid. */
  function BlockColour(grid: seq<Byte>, Wb: nat, Hb: nat, b: nat): Key
    requires |grid| == Wb * Hb * 3 && b < Wb * Hb
  {
    Palette.PixelColour(grid, b)
  }

  /** Every block colour of the grid has a tile (nothing is looked up when
      the tiles have no pixels). */
  predicate Complete(grid: seq<Byte>, m: seq<Entry>, T: nat, Wb: nat, Hb: nat)
    requires |grid| == Wb * Hb * 3
  {
    T == 0 || forall b :: 0 <= b < Wb * Hb ==> HasTile(m, BlockColour(grid, Wb, Hb, b), T)
  }

  lemma BlockOfPixel(X: nat, Y: nat, T: nat, Wb: nat, Hb: nat)
    requires T > 0 && X < Wb * T && Y < Hb * T
    ensures 0 <= Y / T * Wb + X / T < Wb * Hb
    ensures 0 <= (Y % T * T + X % T) * 3 && (Y % T * T + X % T) * 3 + 3 <= T * T * 3
  {
    Arith.DivLtBound(X, T, Wb);
    Arith.DivLtBound(Y, T, Hb);
    Arith.DivNonneg(X, T);
    Arith.DivNonneg(Y, T);
    CellInGrid(X / T, Y / T, Wb, Hb);
    CellInGrid(X % T, Y % T, T, T);
  }

  /** Cell (a, b) of a W x H grid, counted row by row, is in the grid. */
  lemma CellInGrid(a: nat, b: nat, W: nat, H: nat)
    requires a < W && b < H
    ensures 0 <= b * W + a < W * H
  {
    Arith.MulLeMono(b, H - 1, W);
    assert (H - 1) * W + W == W * H;
  }

  /** The mosaic's byte c of pixel (X, Y): byte c of pixel (X % T, Y % T) of
      the tile of block (X / T, Y / T). */
  function ImageByte(grid: seq<Byte>, m: seq<Entry>, T: nat, Wb: nat, Hb: nat, X: nat, Y: nat, c: nat): Byte
    requires |grid| == Wb * Hb * 3 && T > 0 && X < Wb * T && Y < Hb * T && c < 3
  {
    BlockOfPixel(X, Y, T, Wb, Hb);
    var block := Y / T * Wb + X / T;
    TileByte(m, BlockColour(grid, Wb, Hb, block), (Y % T * T + X % T) * 3 + c)
  }

  lemma PixelOfIndex(i: nat, W: nat, H: nat)
    requires i < W * H * 3
    ensures W > 0 && i / 3 / W < H && i / 3 % W < W
  {
    Arith.DivLtBound(i, 3, W * H);
    assert W > 0;
    Arith.DivLtBound(i / 3, W, H);
  }

  /** The mosaic image, (Wb * T) x (Hb * T) RGB pixels in row-major order. */
  function Mosaic(grid: seq<Byte>, m: seq<Entry>, T: nat, Wb: nat, Hb: nat): (r: seq<Byte>)
    requires |grid| == Wb * Hb * 3
    ensures |r| == (Wb * T) * (Hb * T) * 3
  {
    seq((Wb * T) * (Hb * T) * 3, i requires 0 <= i < (Wb * T) * (Hb * T) * 3 =>
      PixelOfIndex(i, Wb * T, Hb * T);
      ImageByte(grid, m, T, Wb, Hb, i / 3 % (Wb * T), i / 3 / (Wb * T), i % 3))
  }

  /** The byte of pixel (X, Y) and channel c sits at (Y * width + X) * 3 + c. */
  lemma MosaicAt(grid: seq<Byte>, m: seq<Entry>, T: nat, Wb: nat, Hb: nat, X: nat, Y: nat, c: nat)
    requires |grid| == Wb * Hb * 3 && T > 0 && X < Wb * T && Y < Hb * T && c < 3
    ensures (Y * (Wb * T) + X) * 3 + c < |Mosaic(grid, m, T, Wb, Hb)|
    ensures Mosaic(grid, m, T, Wb, Hb)[(Y * (Wb * T) + X) * 3 + c] == ImageByte(grid, m, T, Wb, Hb, X, Y, c)
  {
    PixelIndex(X, Y, c, Wb * T, Hb * T);
  }

  /** Where byte c of pixel (X, Y) of a W x H RGB image lies, and back. */
  lemma PixelIndex(X: nat, Y: nat, c: nat, W: nat, H: nat)
    requires X < W && Y < H && c < 3
    ensures var i := (Y * W + X) * 3 + c;
      i < W * H * 3 && i / 3 % W == X && i / 3 / W == Y && i % 3 == c
  {
    var q := Y * W + X;
    Arith.MulLeMono(Y, H - 1, W);
    assert (H - 1) * W + W == W * H;
    var i := q * 3 + c;
    Arith.DivModUnique(i, 3, q, c);
    Arith.DivModUnique(q, W, Y, X);
  }

  /** Byte k of pixel p of row t of block (bw, bh) is byte k of pixel p of
      row t of that block's tile, wherever the block sits in the output. */
  lemma MosaicBlockByte(grid: seq<Byte>, m: seq<Entry>, T: nat, Wb: nat, Hb: nat,
                        bw: nat, bh: nat, t: nat, p: nat, k: nat, i: nat, j: nat)
    requires |grid| == Wb * Hb * 3 && bw < Wb && bh < Hb && t < T && p < T && k < 3
    requires i == ((bh * T + t) * (Wb * T) + bw * T + p) * 3 + k && j == (t * T + p) * 3 + k
    ensures bh * Wb + bw < Wb * Hb && j < T * T * 3 && i < |Mosaic(grid, m, T, Wb, Hb)|
    ensures Mosaic(grid, m, T, Wb, Hb)[i] == TileByte(m, BlockColour(grid, Wb, Hb, bh * Wb + bw), j)
    ensures HasTile(m, BlockColour(grid, Wb, Hb, bh * Wb + bw), T) ==>
      Mosaic(grid, m, T, Wb, Hb)[i] == Lookup(m, BlockColour(grid, Wb, Hb, bh * Wb + bw)).value[j]
  {
    CellInGrid(bw, bh, Wb, Hb);
    CellInGrid(p, t, T, T);
    var X, Y := bw * T + p, bh * T + t;
    CellInGrid(p, bw, T, Wb);
    CellInGrid(t, bh, T, Hb);
    Arith.DivModUnique(X, T, bw, p);
    Arith.DivModUnique(Y, T, bh, t);
    MosaicAt(grid, m, T, Wb, Hb, X, Y, k);
    assert (Y * (Wb * T) + X) * 3 + k == i;
  }

  /** Pixel p of chunk r lies in image column r % Wb * T + p. */
  lemma ChunkColumn(r: nat, p: nat, T: nat, Wb: nat)
    requires Wb > 0 && p < T
    ensures 0 <= r % Wb * T && r % Wb * T + p < Wb * T
    ensures (r % Wb * T + p) / T == r % Wb && (r % Wb * T + p) % T == p
  {
    Arith.MulLeMono(r % Wb, Wb - 1, T);
    assert (Wb - 1) * T + T == Wb * T;
    Arith.DivModUnique(r % Wb * T + p, T, r % Wb, p);
  }

  /** Chunk r lies in image row r / Wb, in block row r / (Wb * T). */
  lemma ChunkRow(r: nat, T: nat, Wb: nat, Hb: nat)
    requires r < Hb * Wb * T
    ensures Wb > 0 && T > 0
    ensures 0 <= r / Wb < Hb * T && r / Wb / T == r / (Wb * T)
    ensures 0 <= r / Wb % T * T
  {
    assert Wb > 0 && T > 0;
    Arith.DivNonneg(r, Wb);
    Arith.DivLtBound(r, Wb, Hb * T) by {
      assert Hb * Wb * T == (Hb * T) * Wb;
    }
    Arith.DivDiv(r, Wb, T);
  }

  /** The first byte of chunk r is pixel r * T of the scanline-ordered image. */
  lemma ChunkOffset(r: nat, p: nat, T: nat, Wb: nat)
    requires Wb > 0
    ensures r * T + p == r / Wb * (Wb * T) + (r % Wb * T + p)
  {
    var y := r / Wb;
    var x := r % Wb;
    assert r == y * Wb + x;
    assert r * T == (y * Wb + x) * T;
    assert (y * Wb + x) * T == y * (Wb * T) + x * T;
  }

  /** The encoded image is (Wb * T) x (Hb * T) pixels: the buffer of
      `|grid| * (T * T)` bytes is exactly that many RGB pixels. */
  lemma OutputDimensions(grid: seq<Byte>, T: nat, Wb: nat, Hb: nat)
    requires |grid| == Wb * Hb * 3
    ensures |grid| * (T * T) == (Wb * T) * (Hb * T) * 3
    ensures (Hb * Wb * T) * T * 3 == (Wb * T) * (Hb * T) * 3
  {
    assert (Wb * Hb * 3) * (T * T) == (Wb * T) * (Hb * T) * 3;
  }

  /** Chunk r's T pixels fit in the output. */
  lemma ChunkFits(r: nat, T: nat, Wb: nat, Hb: nat)
    requires r < Hb * Wb * T
    ensures 0 <= r * T * 3 && (r + 1) * T * 3 == r * T * 3 + T * 3
    ensures r * T * 3 + T * 3 <= (Hb * Wb * T) * T * 3
  {
    Arith.MulLeMono(r + 1, Hb * Wb * T, T * 3);
    assert (Hb * Wb * T) * (T * 3) == (Hb * Wb * T) * T * 3;
  }

  /** The write position of (chunk r, pixel p, byte b) determines all three:
      no output byte is written twice. */
  lemma WritesDistinct(r: nat, p: nat, b: nat, r': nat, p': nat, b': nat, T: nat)
    requires p < T && b < 3 && p' < T && b' < 3
    requires r * T * 3 + p * 3 + b == r' * T * 3 + p' * 3 + b'
    ensures r == r' && p == p' && b == b'
  {
    var q := r * T + p;
    var q' := r' * T + p';
    Arith.DivModUnique(q * 3 + b, 3, q, b);
    Arith.DivModUnique(q' * 3 + b', 3, q', b');
    Arith.DivModUnique(q, T, r, p);
    Arith.DivModUnique(q', T, r', p');
  }

  /** Every output byte is written: it is the write of chunk i / (T * 3),
      pixel i / 3 % T and byte i % 3. */
  lemma WritesCover(i: nat, T: nat, Wb: nat, Hb: nat)
    requires i < (Wb * Hb * 3) * (T * T)
    ensures T > 0 && i / 3 / T < Hb * Wb * T && i / 3 % T < T
    ensures i == i / 3 / T * T * 3 + i / 3 % T * 3 + i % 3
  {
    assert T > 0;
    assert (Wb * Hb * 3) * (T * T) == (Hb * Wb * T) * T * 3;
    Arith.DivLtBound(i, 3, (Hb * Wb * T) * T);
    Arith.DivLtBound(i / 3, T, Hb * Wb * T);
  }

  /** A single block is drawn as the first T x T pixels of its tile. */
  lemma SingleBlock(grid: seq<Byte>, m: seq<Entry>, T: nat)
    requires |grid| == 3 && T > 0 && Complete(grid, m, T, 1, 1)
    ensures HasTile(m, Palette.PixelColour(grid, 0), T)
    ensures Mosaic(grid, m, T, 1, 1) == Lookup(m, Palette.PixelColour(grid, 0)).value[..T * T * 3]
  {
    var tile := Lookup(m, Palette.PixelColour(grid, 0));
    assert BlockColour(grid, 1, 1, 0) == Palette.PixelColour(grid, 0);
    forall i | 0 <= i < T * T * 3 ensures Mosaic(grid, m, T, 1, 1)[i] == tile.value[i] {
      SingleBlockByte(grid, m, T, i);
    }
  }

  lemma SingleBlockByte(grid: seq<Byte>, m: seq<Entry>, T: nat, i: nat)
    requires |grid| == 3 && T > 0 && i < T * T * 3
    ensures i < |Mosaic(grid, m, T, 1, 1)|
    ensures Mosaic(grid, m, T, 1, 1)[i] == TileByte(m, BlockColour(grid, 1, 1, 0), i)
  {
    var q := i / 3;
    var c := i % 3;
    Arith.DivLtBound(i, 3, T * T);
    var X := q % T;
    var Y := q / T;
    Arith.DivModSplit(q, T);
    Arith.DivLtBound(q, T, T);
    Arith.DivModUnique(X, T, 0, X);
    Arith.DivModUnique(Y, T, 0, Y);
    assert Y * (1 * T) + X == q;
    MosaicAt(grid, m, T, 1, 1, X, Y, c);
    assert Y / T * 1 + X / T == 0;
    assert (Y % T * T + X % T) * 3 + c == i;
  }

  /** Chunk r of the output lies in block row r / (Wb * T), block column
      r % Wb. */
  lemma ChunkBlock(r: nat, T: nat, Wb: nat, Hb: nat)
    requires r < Hb * Wb * T
    ensures Wb > 0 && T > 0 && Hb > 0
    ensures 0 <= r % Wb + r / (Wb * T) * Wb < Wb * Hb
  {
    assert Wb > 0 && T > 0 && Hb > 0;
    Arith.DivLtBound(r, Wb * T, Hb) by {
      assert Hb * Wb * T == Hb * (Wb * T);
    }
    Arith.DivNonneg(r, Wb * T);
    Arith.MulLeMono(r / (Wb * T), Hb - 1, Wb);
    assert (Hb - 1) * Wb + Wb == Wb * Hb;
  }

  /** The colour of the block that chunk r belongs to. */
  function ChunkColour(grid: seq<Byte>, T: nat, Wb: nat, Hb: nat, r: nat): Key
    requires |grid| == Wb * Hb * 3 && r < Hb * Wb * T
  {
    ChunkBlock(r, T, Wb, Hb);
    BlockColour(grid, Wb, Hb, r % Wb + r / (Wb * T) * Wb)
  }

  /** The colour `construct_mosaic` reads for chunk r, at block `loc`. */
  lemma ChunkKey(grid: seq<Byte>, T: nat, Wb: nat, Hb: nat, r: nat, loc: int)
    requires |grid| == Wb * Hb * 3 && r < Hb * Wb * T
    requires Wb > 0 && T > 0 && loc == r % Wb + r / (Wb * T) * Wb
    ensures 0 <= loc && loc * 3 + 3 <= |grid|
    ensures Key(grid[loc * 3], grid[loc * 3 + 1], grid[loc * 3 + 2]) == ChunkColour(grid, T, Wb, Hb, r)
  {
    ChunkBlock(r, T, Wb, Hb);
  }

  /** A chunk without a tile leaves the grid incomplete. */
  lemma ChunkIncomplete(grid: seq<Byte>, m: seq<Entry>, T: nat, Wb: nat, Hb: nat, r: nat)
    requires |grid| == Wb * Hb * 3 && r < Hb * Wb * T
    requires !HasTile(m, ChunkColour(grid, T, Wb, Hb, r), T)
    ensures !Complete(grid, m, T, Wb, Hb)
  {
    ChunkBlock(r, T, Wb, Hb);
  }

  /** Block b is reached by its first chunk, (b / Wb) * T * Wb + b % Wb. */
  lemma FirstChunk(b: nat, T: nat, Wb: nat, Hb: nat) returns (r: nat)
    requires T > 0 && b < Wb * Hb
    ensures r < Hb * Wb * T && r % Wb + r / (Wb * T) * Wb == b
  {
    assert Wb > 0;
    var row := b / Wb;
    var col := b % Wb;
    Arith.DivModSplit(b, Wb);
    Arith.DivLtBound(b, Wb, Hb) by {
      assert Wb * Hb == Hb * Wb;
    }
    r := row * (Wb * T) + col;
    ChunkOfBlockBound(row, col, T, Wb, Hb);
    ChunkOfBlockSplit(row, col, T, Wb);
  }

  lemma ChunkOfBlockBound(row: nat, col: nat, T: nat, Wb: nat, Hb: nat)
    requires T > 0 && row < Hb && col < Wb
    ensures row * (Wb * T) + col < Hb * Wb * T
  {
    Arith.MulLeMono(row, Hb - 1, Wb * T);
    Arith.MulLeMono(1, T, Wb);
    assert (Hb - 1) * (Wb * T) + Wb * T == Hb * Wb * T;
  }

  lemma ChunkOfBlockSplit(row: nat, col: nat, T: nat, Wb: nat)
    requires T > 0 && col < Wb
    ensures (row * (Wb * T) + col) % Wb == col
    ensures (row * (Wb * T) + col) / (Wb * T) == row
  {
    Arith.MulLeMono(1, T, Wb);
    Arith.DivModUnique(row * (Wb * T) + col, Wb * T, row, col);
    assert row * (Wb * T) + col == (row * T) * Wb + col;
    Arith.DivModUnique(row * (Wb * T) + col, Wb, row * T, col);
  }

  /** When every chunk found its tile, the grid is complete. */
  lemma AllChunksComplete(grid: seq<Byte>, m: seq<Entry>, T: nat, Wb: nat, Hb: nat)
    requires |grid| == Wb * Hb * 3
    requires forall r :: 0 <= r < Hb * Wb * T ==> HasTile(m, ChunkColour(grid, T, Wb, Hb, r), T)
    ensures Complete(grid, m, T, Wb, Hb)
  {
    if T > 0 {
      forall b | 0 <= b < Wb * Hb ensures HasTile(m, BlockColour(grid, Wb, Hb, b), T) {
        var r := FirstChunk(b, T, Wb, Hb);
        assert ChunkColour(grid, T, Wb, Hb, r) == BlockColour(grid, Wb, Hb, b);
      }
    }
  }

  /** The byte `construct_mosaic` copies for chunk r, pixel p and byte b is
      the mosaic's byte at the position it is copied to; `start` is where
      chunk r begins in the output and `row` where its tile row begins. */
  lemma ChunkByte(grid: seq<Byte>, m: seq<Entry>, T: nat, Wb: nat, Hb: nat, r: nat, p: nat, b: nat,
                  tile: seq<Byte>, start: nat, row: nat)
    requires |grid| == Wb * Hb * 3 && Wb > 0 && T > 0 && r < Hb * Wb * T && p < T && b < 3
    requires Lookup(m, ChunkColour(grid, T, Wb, Hb, r)) == Some(tile) && |tile| >= T * T * 3
    requires start == r * T * 3 && row == r / Wb % T * T * 3
    ensures start + p * 3 + b < |Mosaic(grid, m, T, Wb, Hb)|
    ensures p * 3 + b + row < |tile|
    ensures Mosaic(grid, m, T, Wb, Hb)[start + p * 3 + b] == tile[p * 3 + b + row]
  {
    ChunkRow(r, T, Wb, Hb);
    ChunkColumn(r, p, T, Wb);
    ChunkOffset(r, p, T, Wb);
    var X := r % Wb * T + p;
    var Y := r / Wb;
    var block := r % Wb + r / (Wb * T) * Wb;
    var j := p * 3 + b + row;
    assert Y / T * Wb + X / T == block;
    assert (Y % T * T + X % T) * 3 + b == j;
    assert (Y * (Wb * T) + X) * 3 + b == start + p * 3 + b;
    BlockOfPixel(X, Y, T, Wb, Hb);
    MosaicAt(grid, m, T, Wb, Hb, X, Y, b);
    assert ChunkColour(grid, T, Wb, Hb, r) == BlockColour(grid, Wb, Hb, block);
  }

  /** The T pixels of chunk r are tile row r / Wb % T of the chunk's tile. */
  lemma ChunkRowBytes(grid: seq<Byte>, m: seq<Entry>, T: nat, Wb: nat, Hb: nat, r: nat,
                      tile: seq<Byte>, start: nat, row: nat)
    requires |grid| == Wb * Hb * 3 && Wb > 0 && T > 0 && r < Hb * Wb * T
    requires Lookup(m, ChunkColour(grid, T, Wb, Hb, r)) == Some(tile) && |tile| >= T * T * 3
    requires start == r * T * 3 && row == r / Wb % T * T * 3
    ensures start + T * 3 <= |Mosaic(grid, m, T, Wb, Hb)|
    ensures row + T * 3 <= |tile|
    ensures forall i :: start <= i < start + T * 3 ==> Mosaic(grid, m, T, Wb, Hb)[i] == tile[i - start + row]
  {
    ChunkByte(grid, m, T, Wb, Hb, r, T - 1, 2, tile, start, row);
    forall i | start <= i < start + T * 3
      ensures Mosaic(grid, m, T, Wb, Hb)[i] == tile[i - start + row]
    {
      ChunkByteAt(grid, m, T, Wb, Hb, r, tile, start, row, i);
    }
  }

  lemma ChunkByteAt(grid: seq<Byte>, m: seq<Entry>, T: nat, Wb: nat, Hb: nat, r: nat,
                    tile: seq<Byte>, start: nat, row: nat, i: nat)
    requires |grid| == Wb * Hb * 3 && Wb > 0 && T > 0 && r < Hb * Wb * T
    requires Lookup(m, ChunkColour(grid, T, Wb, Hb, r)) == Some(tile) && |tile| >= T * T * 3
    requires start == r * T * 3 && row == r / Wb % T * T * 3 && start <= i < start + T * 3
    ensures i < |Mosaic(grid, m, T, Wb, Hb)| && i - start + row < |tile|
    ensures Mosaic(grid, m, T, Wb, Hb)[i] == tile[i - start + row]
  {
    var k := i - start;
    Arith.DivModSplit(k, 3);
    Arith.DivLtBound(k, 3, T);
    var p, b := k / 3, k % 3;
    assert start + p * 3 + b == i && p * 3 + b + row == i - start + row;
    ChunkByte(grid, m, T, Wb, Hb, r, p, b, tile, start, row);
  }

  /** The two inner loops of `construct_mosaic`: pixel by pixel and byte by
      byte, the tile row starting at byte `scanline * 3` of the tile is
      copied to the output from byte `start` on. When that row is the
      mosaic's and the output already agrees with the mosaic before
      `start`, it then agrees with it up to the end of the row. */
  method CopyScanline(finalBuffer: array<Byte>, tile: seq<Byte>, start: nat, scanline: nat, T: nat,
                      ghost mosaic: seq<Byte>)
    requires start + T * 3 <= finalBuffer.Length && scanline * 3 + T * 3 <= |tile|
    requires start + T * 3 <= |mosaic|
    requires forall i :: 0 <= i < start ==> finalBuffer[i] == mosaic[i]
    requires forall i :: start <= i < start + T * 3 ==> mosaic[i] == tile[i - start + scanline * 3]
    modifies finalBuffer
    ensures forall i :: 0 <= i < finalBuffer.Length ==>
      finalBuffer[i] == if start <= i < start + T * 3 then tile[i - start + scanline * 3] else old(finalBuffer[i])
    ensures forall i :: 0 <= i < start + T * 3 ==> finalBuffer[i] == mosaic[i]
  {
    for pixelInterval := 0 to T
      invariant forall i :: 0 <= i < finalBuffer.Length ==>
        finalBuffer[i] == if start <= i < start + pixelInterval * 3 then tile[i - start + scanline * 3] else old(finalBuffer[i])
    {
      for byteInterval := 0 to 3
        invariant forall i :: 0 <= i < finalBuffer.Length ==>
          finalBuffer[i] ==
            if start <= i < start + pixelInterval * 3 + byteInterval then tile[i - start + scanline * 3]
            else old(finalBuffer[i])
      {
        finalBuffer[start + pixelInterval * 3 + byteInterval] := tile[pixelInterval * 3 + byteInterval + scanline * 3];
      }
    }
  }

  /** `construct_mosaic`: for each chunk (one tile row of one block), look
      up the block's tile and copy that tile row into the output. */
  method ConstructMosaic(targetColorBuffer: seq<Byte>, sourceChunkDimensions: nat,
                         targetWidth: nat, targetHeight: nat, sourceColors: seq<Entry>)
    returns (r: Result<seq<Byte>, MosaicError>)
    requires |targetColorBuffer| == targetWidth * targetHeight * 3
    ensures r.Ok? <==> Complete(targetColorBuffer, sourceColors, sourceChunkDimensions, targetWidth, targetHeight)
    ensures r.Ok? ==> r.value == Mosaic(targetColorBuffer, sourceColors, sourceChunkDimensions, targetWidth, targetHeight)
  {
    var T, Wb, Hb := sourceChunkDimensions, targetWidth, targetHeight;
    ghost var grid := targetColorBuffer;
    ghost var mosaic := Mosaic(grid, sourceColors, T, Wb, Hb);
    OutputDimensions(grid, T, Wb, Hb);
    var finalBuffer := new Byte[|targetColorBuffer| * (T * T)](_ => 0);
    for chunkInterval := 0 to Hb * Wb * T
      invariant chunkInterval * T * 3 <= finalBuffer.Length
      invariant forall i :: 0 <= i < chunkInterval * T * 3 ==> finalBuffer[i] == mosaic[i]
      invariant forall c :: 0 <= c < chunkInterval ==> HasTile(sourceColors, ChunkColour(grid, T, Wb, Hb, c), T)
    {
      var finalChunkLocation := chunkInterval % Wb + chunkInterval / (Wb * T) * Wb;
      var scanlineNumber := chunkInterval / Wb % T * T;
      ChunkKey(grid, T, Wb, Hb, chunkInterval, finalChunkLocation);
      ChunkFits(chunkInterval, T, Wb, Hb);
      ChunkRow(chunkInterval, T, Wb, Hb);
      var colorKey := Key(targetColorBuffer[finalChunkLocation * 3], targetColorBuffer[finalChunkLocation * 3 + 1],
                          targetColorBuffer[finalChunkLocation * 3 + 2]);
      var tile := Lookup(sourceColors, colorKey);
      if tile.None? || |tile.value| < T * T * 3 {
        ChunkIncomplete(grid, sourceColors, T, Wb, Hb, chunkInterval);
        return Err(TileNotFound(colorKey));
      }
      ChunkRowBytes(grid, sourceColors, T, Wb, Hb, chunkInterval, tile.value, chunkInterval * T * 3, scanlineNumber * 3);
      CopyScanline(finalBuffer, tile.value, chunkInterval * T * 3, scanlineNumber, T, mosaic);
    }
    AllChunksComplete(grid, sourceColors, T, Wb, Hb);
    assert finalBuffer[..] == mosaic;
    r := Ok(finalBuffer[..]);
  }
}
