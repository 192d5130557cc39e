/** Block averaging: `accumulate_pixels`, `reduce_pixels` and their
    composition `pixelate`, on an already-decoded buffer. */
module Pixelation {
  import opened Common
  import Arith

  // ---------------------------------------------------------------------
  // Reference definitions in image coordinates

  /** Channel k of every pixel of an interleaved buffer, in row-major order. */
  function Channel(buf: seq<Byte>, bpp: nat, k: nat): (plane: seq<Byte>)
    requires k < bpp
    ensures |plane| == |buf| / bpp
  {
    seq(|buf| / bpp, p requires 0 <= p < |buf| / bpp =>
      Arith.MulLeMono(p + 1, |buf| / bpp, bpp);
      buf[p * bpp + k])
  }

  /** The row-major position of pixel (x, y) in an image `width` pixels wide. */
  function Flat(width: nat, x: nat, y: nat): nat
  {
    y * width + x
  }

  /** plane[i], or 0 past the end of the plane. */
  function At(plane: seq<Byte>, i: nat): Byte
  {
    if i < |plane| then plane[i] else 0
  }

  /** plane[start] + ... + plane[start + n - 1]. */
  function RowSum(plane: seq<Byte>, start: nat, n: nat): nat
    decreases n
  {
    if n == 0 then 0 else RowSum(plane, start, n - 1) + At(plane, start + n - 1)
  }

  /** Sum over the first `rows` rows of a block `side` pixels wide whose
      top-left pixel is at `start`, consecutive rows being `stride` apart. */
  function BlockSum(plane: seq<Byte>, start: nat, stride: nat, side: nat, rows: nat): nat
    decreases rows
  {
    if rows == 0 then 0
    else BlockSum(plane, start, stride, side, rows - 1) + RowSum(plane, start + (rows - 1) * stride, side)
  }

  lemma {:induction false} RowSumBound(plane: seq<Byte>, start: nat, n: nat)
    ensures RowSum(plane, start, n) <= 255 * n
  {
    if n > 0 {
      RowSumBound(plane, start, n - 1);
    }
  }

  lemma {:induction false} BlockSumBound(plane: seq<Byte>, start: nat, stride: nat, side: nat, rows: nat)
    ensures BlockSum(plane, start, stride, side, rows) <= 255 * (side * rows)
  {
    if rows > 0 {
      BlockSumBound(plane, start, stride, side, rows - 1);
      RowSumBound(plane, start + (rows - 1) * stride, side);
      assert side * rows == side * (rows - 1) + side;
    }
  }

  /** The truncated mean of channel k over block (bw, bh) of side s. The
      result never exceeds 255, so the narrowing `as u8` is exact. */
  function BlockMean(img: Image, s: nat, bw: nat, bh: nat, k: nat): (m: nat)
    requires s > 0 && k < 3 <= img.bpp
    ensures m <= 255
  {
    var plane := Channel(img.pixels, img.bpp, k);
    var start := Flat(img.width, bw * s, bh * s);
    BlockSumBound(plane, start, img.width, s, s);
    var sum := BlockSum(plane, start, img.width, s, s);
    var area := s * s;
    Arith.MulPos(s, s);
    Arith.DivLeBound(sum, 255, area);
    Arith.DivNonneg(sum, area);
    var m := sum / area;
    assert 0 <= m <= 255;
    m
  }

  /** Position of channel k of block (bw, bh) in a grid `cw` blocks wide. */
  function CellIndex(cw: nat, ch: nat, bw: nat, bh: nat, k: nat): (c: nat)
    requires bw < cw && bh < ch && k < 3
    ensures c < ch * cw * 3
  {
    Arith.MulLeMono(bh + 1, ch, cw);
    (bh * cw + bw) * 3 + k
  }

  /** Every grid position is the position of exactly one (block, channel). */
  lemma CellIndexSplit(c: nat, cw: nat, ch: nat)
    requires c < ch * cw * 3
    ensures cw > 0 && 0 <= c / 3 % cw < cw && 0 <= c / 3 / cw < ch && 0 <= c % 3 < 3
    ensures CellIndex(cw, ch, c / 3 % cw, c / 3 / cw, c % 3) == c
  {
    var b := c / 3;
    Arith.DivLtBound(c, 3, ch * cw);
    assert cw > 0;
    Arith.DivLtBound(b, cw, ch);
    Arith.DivModUnique(b, cw, b / cw, b % cw);
    Arith.DivNonneg(b, cw);
  }

  lemma CellIndexInjective(cw: nat, ch: nat, bw: nat, bh: nat, k: nat)
    requires bw < cw && bh < ch && k < 3
    ensures var c := CellIndex(cw, ch, bw, bh, k); c / 3 % cw == bw && c / 3 / cw == bh && c % 3 == k
  {
    var c := CellIndex(cw, ch, bw, bh, k);
    Arith.DivModUnique(c, 3, bh * cw + bw, k);
    Arith.DivModUnique(bh * cw + bw, cw, bh, bw);
  }

  /** The value at position c of the pixelated grid. */
  function GridCell(img: Image, s: nat, c: nat): Byte
    requires s > 0 && 3 <= img.bpp && c < (img.height / s) * (img.width / s) * 3
  {
    var cw := img.width / s;
    var ch := img.height / s;
    CellIndexSplit(c, cw, ch);
    BlockMean(img, s, c / 3 % cw, c / 3 / cw, c % 3)
  }

  /** The pixelated grid: channel k of block (bw, bh) holds that block's mean. */
  function PixelatedGrid(img: Image, s: nat): (g: seq<Byte>)
    requires s > 0 && 3 <= img.bpp
    ensures |g| == (img.height / s) * (img.width / s) * 3
  {
    var n := (img.height / s) * (img.width / s) * 3;
    seq(n, c requires 0 <= c < n => GridCell(img, s, c))
  }

  lemma PixelatedGridAt(img: Image, s: nat, bw: nat, bh: nat, k: nat)
    requires s > 0 && 3 <= img.bpp
    requires bw < img.width / s && bh < img.height / s && k < 3
    ensures PixelatedGrid(img, s)[CellIndex(img.width / s, img.height / s, bw, bh, k)] == BlockMean(img, s, bw, bh, k)
  {
    CellIndexInjective(img.width / s, img.height / s, bw, bh, k);
  }

  // ---------------------------------------------------------------------
  // What `accumulate_pixels` adds where

  /** The accumulator cell byte i of the buffer is added to: channel
      `i % bpp` of the block holding its pixel, or none for an alpha byte. */
  function AccumulatorCell(i: nat, width: nat, bpp: nat, s: nat, cw: nat): Option<int>
    requires width > 0 && bpp > 0 && s > 0 && cw > 0
  {
    var bufferIndex := i / bpp / s % cw + (i / width / bpp / s) * cw;
    if i % bpp == 3 then None else Some(bufferIndex * 3 + i % bpp)
  }

  /** AccumulatorCell for each of the first n bytes. */
  function Cells(n: nat, width: nat, bpp: nat, s: nat, cw: nat): (cells: seq<Option<int>>)
    requires width > 0 && bpp > 0 && s > 0 && cw > 0
    ensures |cells| == n
  {
    seq(n, i requires 0 <= i < n => AccumulatorCell(i, width, bpp, s, cw))
  }

  /** The sum of those bytes among buf[..n] that `cells` routes to `cell`. */
  function Routed(buf: seq<Byte>, cells: seq<Option<int>>, n: nat, cell: int): nat
    requires n <= |buf| && n <= |cells|
  {
    if n == 0 then 0
    else Routed(buf, cells, n - 1, cell) + (if cells[n - 1] == Some(cell) then buf[n - 1] else 0)
  }

  /** The block of pixel p, as the accumulator computes it. */
  function PixelBlock(p: nat, width: nat, s: nat, cw: nat): int
    requires width > 0 && s > 0 && cw > 0
  {
    p / s % cw + (p / width / s) * cw
  }

  /** PixelBlock for each of the first n pixels. */
  function Blocks(n: nat, width: nat, s: nat, cw: nat): (blocks: seq<int>)
    requires width > 0 && s > 0 && cw > 0
    ensures |blocks| == n
  {
    seq(n, p requires 0 <= p < n => PixelBlock(p, width, s, cw))
  }

  lemma CellOfByte(i: nat, q: nat, j: nat, width: nat, bpp: nat, s: nat, cw: nat)
    requires width > 0 && bpp > 0 && s > 0 && cw > 0
    requires i / bpp == q && i % bpp == j && i / width / bpp == q / width
    ensures AccumulatorCell(i, width, bpp, s, cw)
         == if j == 3 then None else Some(PixelBlock(q, width, s, cw) * 3 + j)
  {
  }

  /** Byte j of pixel q goes to channel j of the pixel's block, or nowhere
      when it is the alpha byte. */
  lemma ByteCell(q: nat, j: nat, width: nat, bpp: nat, s: nat, cw: nat)
    requires width > 0 && bpp > 0 && s > 0 && cw > 0 && j < bpp
    ensures AccumulatorCell(q * bpp + j, width, bpp, s, cw)
         == if j == 3 then None else Some(PixelBlock(q, width, s, cw) * 3 + j)
  {
    var i := q * bpp + j;
    Arith.DivModUnique(i, bpp, q, j);
    Arith.DivSwap(i, width, bpp);
    CellOfByte(i, q, j, width, bpp, s, cw);
  }

  /** In an image whose width is cw blocks of s pixels, pixel (x, y) lies in
      block (x / s, y / s). */
  lemma PixelBlockAt(x: nat, y: nat, width: nat, s: nat, cw: nat)
    requires s > 0 && cw > 0 && width == cw * s && x < width
    ensures PixelBlock(Flat(width, x, y), width, s, cw) == (y / s) * cw + x / s
    ensures 0 <= x / s < cw && 0 <= y / s
  {
    var p := Flat(width, x, y);
    assert p == (y * cw) * s + x;
    Arith.DivMulAdd(y * cw, x, s);
    Arith.DivLtBound(x, s, cw);
    Arith.DivNonneg(x, s);
    Arith.DivNonneg(y, s);
    Arith.DivModUnique(y * cw + x / s, cw, y, x / s);
    Arith.DivModUnique(p, width, y, x);
  }

  /** Block b = bh * cw + bw of a grid cw blocks wide is that block. */
  lemma BlockBracket(x: nat, y: nat, width: nat, s: nat, cw: nat, bw: nat, bh: nat)
    requires s > 0 && cw > 0 && width == cw * s && x < width && bw < cw
    ensures PixelBlock(Flat(width, x, y), width, s, cw) == bh * cw + bw
        <==> bw * s <= x < bw * s + s && bh * s <= y < bh * s + s
  {
    PixelBlockAt(x, y, width, s, cw);
    if y / s == bh && x / s == bw {
    } else if (y / s) * cw + x / s == bh * cw + bw {
      Arith.DivModUnique((y / s) * cw + x / s, cw, y / s, x / s);
      Arith.DivModUnique(bh * cw + bw, cw, bh, bw);
      assert false;
    }
    Arith.DivBracket(x, s, bw);
    Arith.DivBracket(y, s, bh);
  }

  /** Byte k of pixel (x, y) goes to channel k of block (x / s, y / s); the
      alpha byte goes nowhere. */
  lemma PixelByteCell(x: nat, y: nat, k: nat, width: nat, height: nat, bpp: nat, s: nat, cw: nat, ch: nat)
    requires 3 <= bpp <= 4 && s > 0 && cw > 0 && width == cw * s && height == ch * s
    requires x < width && y < height && k < bpp
    ensures x / s < cw && y / s < ch
    ensures AccumulatorCell(Flat(width, x, y) * bpp + k, width, bpp, s, cw)
         == if k == 3 then None else Some(CellIndex(cw, ch, x / s, y / s, k))
  {
    ByteCell(Flat(width, x, y), k, width, bpp, s, cw);
    PixelBlockAt(x, y, width, s, cw);
    Arith.DivLtBound(y, s, ch);
  }

  /** Every pixel of a width x height image lies in one of the ch x cw blocks. */
  lemma BlockInRange(q: nat, width: nat, height: nat, s: nat, cw: nat, ch: nat)
    requires s > 0 && cw > 0 && width == cw * s && height == ch * s && q < width * height
    ensures 0 <= PixelBlock(q, width, s, cw) < ch * cw
  {
    var y, x := q / width, q % width;
    Arith.DivModUnique(q, width, y, x);
    Arith.DivLtBound(q, width, height);
    Arith.DivNonneg(q, width);
    assert q == Flat(width, x, y);
    PixelBlockAt(x, y, width, s, cw);
    Arith.DivLtBound(y, s, ch);
    Arith.MulLeMono(y / s + 1, ch, cw);
  }

  /** Every byte the accumulator routes somewhere lands inside the grid. */
  lemma CellInRange(i: nat, width: nat, height: nat, bpp: nat, s: nat, cw: nat, ch: nat)
    requires 3 <= bpp <= 4 && s > 0 && cw > 0 && width == cw * s && height == ch * s
    requires i < width * height * bpp
    ensures var cell := AccumulatorCell(i, width, bpp, s, cw);
      cell.Some? ==> 0 <= cell.value < ch * cw * 3
  {
    var q, j := i / bpp, i % bpp;
    assert i == q * bpp + j;
    Arith.DivLtBound(i, bpp, width * height);
    Arith.DivNonneg(i, bpp);
    ByteCell(q, j, width, bpp, s, cw);
    BlockInRange(q, width, height, s, cw, ch);
  }

  // ---------------------------------------------------------------------
  // Regrouping the byte-by-byte sums: bytes to pixels, pixels to rows,
  // rows to blocks

  /** The sum of plane[q] over those q < p with blocks[q] == b. */
  function PixelRouted(plane: seq<Byte>, blocks: seq<int>, p: nat, b: int): nat
    requires p <= |plane| && p <= |blocks|
  {
    if p == 0 then 0
    else PixelRouted(plane, blocks, p - 1, b) + (if blocks[p - 1] == b then plane[p - 1] else 0)
  }

  /** The bytes of pixel q are routed to the cells of block blocks[q] (its
      alpha byte nowhere), and plane[q] is the pixel's channel k. */
  predicate PixelRoutedTo(buf: seq<Byte>, cells: seq<Option<int>>, plane: seq<Byte>, blocks: seq<int>,
                          bpp: nat, k: nat, q: nat)
  {
    var i := q * bpp;
    q < |plane| && q < |blocks| && 3 <= bpp <= 4 && k < 3 && i + bpp <= |buf| && i + bpp <= |cells| &&
    plane[q] == buf[i + k] &&
    cells[i] == Some(blocks[q] * 3) &&
    cells[i + 1] == Some(blocks[q] * 3 + 1) &&
    cells[i + 2] == Some(blocks[q] * 3 + 2) &&
    (bpp == 4 ==> cells[i + 3] == None)
  }

  lemma RoutedPixelStep(buf: seq<Byte>, cells: seq<Option<int>>, plane: seq<Byte>, blocks: seq<int>,
                        bpp: nat, k: nat, q: nat, b: int)
    requires PixelRoutedTo(buf, cells, plane, blocks, bpp, k, q)
    ensures Routed(buf, cells, q * bpp + bpp, b * 3 + k)
         == Routed(buf, cells, q * bpp, b * 3 + k) + (if blocks[q] == b then plane[q] else 0)
  {
    var i := q * bpp;
    var c := b * 3 + k;
    var hit := blocks[q] == b;
    assert Routed(buf, cells, i + 1, c) == Routed(buf, cells, i, c) + (if hit && k == 0 then buf[i] else 0);
    assert Routed(buf, cells, i + 2, c) == Routed(buf, cells, i + 1, c) + (if hit && k == 1 then buf[i + 1] else 0);
    assert Routed(buf, cells, i + 3, c) == Routed(buf, cells, i + 2, c) + (if hit && k == 2 then buf[i + 2] else 0);
    if bpp == 4 {
      assert Routed(buf, cells, i + 4, c) == Routed(buf, cells, i + 3, c);
    }
  }

  /** PixelRoutedTo holds for each of the first n pixels. */
  predicate AllRoutedTo(buf: seq<Byte>, cells: seq<Option<int>>, plane: seq<Byte>, blocks: seq<int>,
                        bpp: nat, k: nat, n: nat)
  {
    forall q :: 0 <= q < n ==> PixelRoutedTo(buf, cells, plane, blocks, bpp, k, q)
  }

  lemma {:induction false} RoutedByPixel(buf: seq<Byte>, cells: seq<Option<int>>, plane: seq<Byte>, blocks: seq<int>,
                                         bpp: nat, k: nat, p: nat, b: int)
    requires p <= |plane| && p <= |blocks| && p * bpp <= |buf| && p * bpp <= |cells|
    requires AllRoutedTo(buf, cells, plane, blocks, bpp, k, p)
    ensures Routed(buf, cells, p * bpp, b * 3 + k) == PixelRouted(plane, blocks, p, b)
  {
    if p > 0 {
      assert PixelRoutedTo(buf, cells, plane, blocks, bpp, k, p - 1);
      assert (p - 1) * bpp + bpp == p * bpp;
      RoutedByPixel(buf, cells, plane, blocks, bpp, k, p - 1, b);
      RoutedPixelStep(buf, cells, plane, blocks, bpp, k, p - 1, b);
    }
  }

  /** Pixel (x, y) is in block b exactly when it lies in the s x s square
      whose top-left pixel is (x0, y0). */
  predicate BlockMembership(blocks: seq<int>, width: nat, height: nat, b: int, x0: nat, y0: nat, s: nat)
  {
    forall x: nat, y: nat :: x < width && y < height && Flat(width, x, y) < |blocks| ==>
      (blocks[Flat(width, x, y)] == b <==> x0 <= x < x0 + s && y0 <= y < y0 + s)
  }

  /** min(max(v, 0), hi) */
  function Clamp(v: int, hi: nat): (c: nat)
    ensures c <= hi
  {
    if v < 0 then 0 else if v > hi then hi else v
  }

  lemma RowFits(width: nat, height: nat, y: nat)
    requires y < height
    ensures Flat(width, 0, y) + width <= width * height
  {
    Arith.MulLeMono(y + 1, height, width);
  }

  /** Scanning row y up to column x adds the part of the block's row that
      lies before x. */
  lemma {:induction false} RowScan(plane: seq<Byte>, blocks: seq<int>, width: nat, height: nat, b: int,
                                   x0: nat, y0: nat, s: nat, y: nat, x: nat)
    requires BlockMembership(blocks, width, height, b, x0, y0, s)
    requires x0 + s <= width && y < height && x <= width
    requires Flat(width, 0, y) + width <= |plane| && Flat(width, 0, y) + width <= |blocks|
    ensures PixelRouted(plane, blocks, Flat(width, x, y), b)
         == PixelRouted(plane, blocks, Flat(width, 0, y), b)
            + (if y0 <= y < y0 + s then RowSum(plane, Flat(width, x0, y), Clamp(x - x0, s)) else 0)
  {
    if x > 0 {
      RowScan(plane, blocks, width, height, b, x0, y0, s, y, x - 1);
      var p := Flat(width, x - 1, y);
      assert p + 1 == Flat(width, x, y);
      assert blocks[p] == b <==> x0 <= x - 1 < x0 + s && y0 <= y < y0 + s;
      if x0 <= x - 1 < x0 + s {
        assert Flat(width, x0, y) + Clamp(x - x0, s) - 1 == p;
      }
    }
  }

  lemma FlatSteps(width: nat, x0: nat, y0: nat, y: nat)
    requires y0 < y
    ensures Flat(width, width, y - 1) == Flat(width, 0, y)
    ensures Flat(width, x0, y0) + (y - 1 - y0) * width == Flat(width, x0, y - 1)
  {
    assert (y - 1 - y0) * width + y0 * width == (y - 1) * width;
  }

  /** k rows below (x, y) is (x, y + k). */
  lemma FlatRow(width: nat, x: nat, y: nat, k: nat)
    ensures Flat(width, x, y) + k * width == Flat(width, x, y + k)
  {
    assert (y + k) * width == y * width + k * width;
  }

  /** Scanning the rows above y adds the rows of the block above y. */
  lemma {:induction false} ColumnScan(plane: seq<Byte>, blocks: seq<int>, width: nat, height: nat, b: int,
                                      x0: nat, y0: nat, s: nat, y: nat)
    requires BlockMembership(blocks, width, height, b, x0, y0, s)
    requires x0 + s <= width && y <= height && |plane| == width * height && |blocks| == width * height
    ensures Flat(width, 0, y) <= width * height
    ensures PixelRouted(plane, blocks, Flat(width, 0, y), b)
         == BlockSum(plane, Flat(width, x0, y0), width, s, Clamp(y - y0, s))
  {
    if y == 0 {
      assert Flat(width, 0, y) == 0;
    } else {
      RowFits(width, height, y - 1);
      ColumnScan(plane, blocks, width, height, b, x0, y0, s, y - 1);
      RowScan(plane, blocks, width, height, b, x0, y0, s, y - 1, width);
      FlatSteps(width, 0, 0, y);
      var rows := Clamp(y - y0, s);
      if y0 <= y - 1 < y0 + s {
        FlatSteps(width, x0, y0, y);
        assert rows == Clamp(y - 1 - y0, s) + 1;
      } else {
        assert rows == Clamp(y - 1 - y0, s);
      }
    }
  }

  /** The buffer's bytes, the accumulator's cells and the pixel blocks are
      related as PixelRoutedTo says, pixel by pixel. */
  lemma PixelRoutedAt(buf: seq<Byte>, width: nat, height: nat, bpp: nat, s: nat, cw: nat, k: nat, q: nat)
    requires 3 <= bpp <= 4 && s > 0 && cw > 0 && width == cw * s && k < 3
    requires |buf| == width * height * bpp && q < width * height
    ensures PixelRoutedTo(buf, Cells(|buf|, width, bpp, s, cw), Channel(buf, bpp, k),
                          Blocks(width * height, width, s, cw), bpp, k, q)
  {
    PixelInBuffer(q, width * height, bpp);
    CellsOfPixel(|buf|, width, bpp, s, cw, q);
  }

  lemma CellOfPixelByte(n: nat, width: nat, bpp: nat, s: nat, cw: nat, q: nat, j: nat)
    requires bpp > 0 && s > 0 && cw > 0 && width > 0 && j < bpp && q * bpp + j < n
    ensures Cells(n, width, bpp, s, cw)[q * bpp + j]
         == if j == 3 then None else Some(PixelBlock(q, width, s, cw) * 3 + j)
  {
    ByteCell(q, j, width, bpp, s, cw);
  }

  /** The four (or three) cells of pixel q's bytes. */
  lemma CellsOfPixel(n: nat, width: nat, bpp: nat, s: nat, cw: nat, q: nat)
    requires 3 <= bpp <= 4 && s > 0 && cw > 0 && width > 0 && q * bpp + bpp <= n
    ensures var cells, i, block := Cells(n, width, bpp, s, cw), q * bpp, PixelBlock(q, width, s, cw);
      cells[i] == Some(block * 3) && cells[i + 1] == Some(block * 3 + 1) &&
      cells[i + 2] == Some(block * 3 + 2) && (bpp == 4 ==> cells[i + 3] == None)
  {
    CellOfPixelByte(n, width, bpp, s, cw, q, 0);
    CellOfPixelByte(n, width, bpp, s, cw, q, 1);
    CellOfPixelByte(n, width, bpp, s, cw, q, 2);
    if bpp == 4 {
      CellOfPixelByte(n, width, bpp, s, cw, q, 3);
    }
  }

  lemma PixelInBuffer(q: nat, n: nat, bpp: nat)
    requires q < n && bpp > 0
    ensures q < (n * bpp) / bpp && q * bpp + bpp <= n * bpp
  {
    Arith.MulDivExact(n, bpp);
    Arith.MulLeMono(q + 1, n, bpp);
  }

  lemma AllPixelsRouted(buf: seq<Byte>, width: nat, height: nat, bpp: nat, s: nat, cw: nat, k: nat)
    requires 3 <= bpp <= 4 && s > 0 && cw > 0 && width == cw * s && k < 3
    requires |buf| == width * height * bpp
    ensures |Channel(buf, bpp, k)| == width * height
    ensures AllRoutedTo(buf, Cells(|buf|, width, bpp, s, cw), Channel(buf, bpp, k),
                        Blocks(width * height, width, s, cw), bpp, k, width * height)
  {
    Arith.MulDivExact(width * height, bpp);
    forall q | 0 <= q < width * height
      ensures PixelRoutedTo(buf, Cells(|buf|, width, bpp, s, cw), Channel(buf, bpp, k),
                            Blocks(width * height, width, s, cw), bpp, k, q)
    {
      PixelRoutedAt(buf, width, height, bpp, s, cw, k, q);
    }
  }

  lemma MembershipOfBlock(width: nat, height: nat, s: nat, cw: nat, bw: nat, bh: nat)
    requires s > 0 && cw > 0 && width == cw * s && bw < cw
    ensures BlockMembership(Blocks(width * height, width, s, cw), width, height, bh * cw + bw, bw * s, bh * s, s)
  {
    var blocks := Blocks(width * height, width, s, cw);
    forall x: nat, y: nat | x < width && y < height && Flat(width, x, y) < |blocks|
      ensures blocks[Flat(width, x, y)] == bh * cw + bw <==> bw * s <= x < bw * s + s && bh * s <= y < bh * s + s
    {
      BlockBracket(x, y, width, s, cw, bw, bh);
    }
  }

  /** Regrouping in general: if every pixel's bytes are routed to its block's
      cells, the bytes routed to channel k of block b sum to the block sum. */
  lemma Regroup(buf: seq<Byte>, cells: seq<Option<int>>, plane: seq<Byte>, blocks: seq<int>,
                width: nat, height: nat, bpp: nat, k: nat, b: int, x0: nat, y0: nat, s: nat, n: nat, c: int)
    requires n == width * height && |plane| == n && |blocks| == n
    requires |buf| == n * bpp && |cells| == |buf| && c == b * 3 + k
    requires AllRoutedTo(buf, cells, plane, blocks, bpp, k, n)
    requires BlockMembership(blocks, width, height, b, x0, y0, s)
    requires x0 + s <= width && y0 + s <= height
    ensures Routed(buf, cells, |buf|, c) == BlockSum(plane, Flat(width, x0, y0), width, s, s)
  {
    RoutedByPixel(buf, cells, plane, blocks, bpp, k, n, b);
    ColumnScan(plane, blocks, width, height, b, x0, y0, s, height);
    assert Flat(width, 0, height) == n;
    assert Clamp(height - y0, s) == s;
  }

  /** The whole-buffer byte sum routed to a cell is the block sum of its
      channel: the regrouping behind `accumulate_pixels`. */
  lemma RoutedIsBlockSum(buf: seq<Byte>, width: nat, height: nat, bpp: nat, s: nat, cw: nat, ch: nat,
                         bw: nat, bh: nat, k: nat)
    requires 3 <= bpp <= 4 && s > 0 && cw > 0 && width == cw * s && height == ch * s
    requires |buf| == width * height * bpp && bw < cw && bh < ch && k < 3
    ensures Routed(buf, Cells(|buf|, width, bpp, s, cw), |buf|, CellIndex(cw, ch, bw, bh, k))
         == BlockSum(Channel(buf, bpp, k), Flat(width, bw * s, bh * s), width, s, s)
  {
    var c := CellIndex(cw, ch, bw, bh, k);
    CellIndexIsBlock(cw, ch, bw, bh, k);
    AllPixelsRouted(buf, width, height, bpp, s, cw, k);
    MembershipOfBlock(width, height, s, cw, bw, bh);
    BlockInGrid(cw, ch, s, bw, bh);
    Regroup(buf, Cells(|buf|, width, bpp, s, cw), Channel(buf, bpp, k), Blocks(width * height, width, s, cw),
            width, height, bpp, k, bh * cw + bw, bw * s, bh * s, s, width * height, c);
  }

  lemma CellIndexIsBlock(cw: nat, ch: nat, bw: nat, bh: nat, k: nat)
    requires bw < cw && bh < ch && k < 3
    ensures CellIndex(cw, ch, bw, bh, k) == (bh * cw + bw) * 3 + k
  {
  }

  lemma BlockInGrid(cw: nat, ch: nat, s: nat, bw: nat, bh: nat)
    requires bw < cw && bh < ch
    ensures bw * s + s <= cw * s && bh * s + s <= ch * s
  {
    Arith.MulLeMono(bw + 1, cw, s);
    Arith.MulLeMono(bh + 1, ch, s);
  }

  // ---------------------------------------------------------------------
  // The three operations

  lemma NonemptyDims(width: nat, height: nat, bpp: nat, s: nat, cw: nat, n: nat)
    requires width == cw * s && n == width * height * bpp && n > 0
    ensures width > 0 && cw > 0
  {
  }

  /** Where byte i goes, in the terms the loop of `accumulate_pixels`
      computes it. */
  lemma AccumulateStep(buf: seq<Byte>, width: nat, height: nat, bpp: nat, s: nat, cw: nat, ch: nat,
                        cells: seq<Option<int>>, i: nat, bufferIndex: int, channel: nat)
    requires 3 <= bpp <= 4 && s > 0 && width == cw * s && height == ch * s && width > 0 && cw > 0
    requires |buf| == width * height * bpp && i < |buf| && cells == Cells(|buf|, width, bpp, s, cw)
    requires bufferIndex == i / bpp / s % cw + (i / width / bpp / s) * cw && channel == i % bpp
    ensures i < |cells| && cells[i] == (if channel == 3 then None else Some(bufferIndex * 3 + channel))
    ensures channel != 3 ==> 0 <= bufferIndex * 3 + channel < ch * cw * 3
  {
    CellInRange(i, width, height, bpp, s, cw, ch);
  }

  /** Adding byte i to the total of the cell it is routed to keeps every
      total equal to its routed sum. */
  lemma RoutedAdvance(buf: seq<Byte>, cells: seq<Option<int>>, i: nat, before: seq<nat>, temp: array<nat>)
    requires i < |buf| && i < |cells| && temp.Length == |before|
    requires forall c :: 0 <= c < |before| ==> before[c] == Routed(buf, cells, i, c)
    requires forall c :: 0 <= c < temp.Length ==>
      temp[c] == if cells[i] == Some(c) then before[c] + buf[i] else before[c]
    ensures forall c :: 0 <= c < temp.Length ==> temp[c] == Routed(buf, cells, i + 1, c)
  {
  }

  /** `accumulate_pixels`: one pass over the buffer, adding each colour byte
      to the running total of its block and channel. Total k of block
      (bw, bh) ends up as the sum of channel k over the block's pixels. */
  method AccumulatePixels(cw: nat, ch: nat, bpp: nat, buf: seq<Byte>, s: nat, width: nat, height: nat)
    returns (acc: seq<nat>)
    requires 3 <= bpp <= 4 && s > 0 && width == cw * s && height == ch * s
    requires |buf| == width * height * bpp
    ensures |acc| == ch * cw * 3
    ensures forall bw: nat, bh: nat, k: nat :: bw < cw && bh < ch && k < 3 ==>
      acc[CellIndex(cw, ch, bw, bh, k)] == BlockSum(Channel(buf, bpp, k), Flat(width, bw * s, bh * s), width, s, s)
  {
    var temp := new nat[ch * cw * 3](_ => 0);
    if |buf| > 0 {
      NonemptyDims(width, height, bpp, s, cw, |buf|);
    }
    ghost var cells: seq<Option<int>> := if |buf| > 0 then Cells(|buf|, width, bpp, s, cw) else [];
    var i := 0;
    while i < |buf|
      invariant 0 <= i <= |buf| == |cells|
      invariant forall c :: 0 <= c < temp.Length ==> temp[c] == Routed(buf, cells, i, c)
    {
      var bufferIndex := i / bpp / s % cw + (i / width / bpp / s) * cw;
      var channel := i % bpp;
      AccumulateStep(buf, width, height, bpp, s, cw, ch, cells, i, bufferIndex, channel);
      ghost var before := temp[..];
      if channel != 3 {
        var cell := bufferIndex * 3 + channel;
        temp[cell] := temp[cell] + buf[i];
      }
      RoutedAdvance(buf, cells, i, before, temp);
      i := i + 1;
    }
    acc := temp[..];
    RoutedTotals(buf, width, height, bpp, s, cw, ch, cells, acc);
  }

  /** Totals equal to the routed sums of the whole buffer are the block sums. */
  lemma RoutedTotals(buf: seq<Byte>, width: nat, height: nat, bpp: nat, s: nat, cw: nat, ch: nat,
                     cells: seq<Option<int>>, totals: seq<nat>)
    requires 3 <= bpp <= 4 && s > 0 && width == cw * s && height == ch * s
    requires |buf| == width * height * bpp && |buf| == |cells| && |totals| == ch * cw * 3
    requires |buf| > 0 ==> width > 0 && cw > 0 && cells == Cells(|buf|, width, bpp, s, cw)
    requires forall c :: 0 <= c < |totals| ==> totals[c] == Routed(buf, cells, |buf|, c)
    ensures forall bw: nat, bh: nat, k: nat :: bw < cw && bh < ch && k < 3 ==>
      totals[CellIndex(cw, ch, bw, bh, k)] == BlockSum(Channel(buf, bpp, k), Flat(width, bw * s, bh * s), width, s, s)
  {
    forall bw: nat, bh: nat, k: nat | bw < cw && bh < ch && k < 3
      ensures totals[CellIndex(cw, ch, bw, bh, k)] == BlockSum(Channel(buf, bpp, k), Flat(width, bw * s, bh * s), width, s, s)
    {
      RoutedIsBlockSum(buf, width, height, bpp, s, cw, ch, bw, bh, k);
    }
  }

  /** `reduce_pixels`: each total divided by the block side twice and
      narrowed to a byte. When the total is that of a block of s * s pixels
      the narrowing loses nothing and the result is the block's mean. */
  method ReducePixels(cw: nat, ch: nat, acc: seq<nat>, s: nat) returns (grid: seq<Byte>)
    requires s > 0 && |acc| == ch * cw * 3
    ensures |grid| == |acc|
    ensures forall c :: 0 <= c < |grid| ==> grid[c] == acc[c] / s / s % 256
    ensures forall c :: 0 <= c < |grid| && acc[c] <= 255 * (s * s) ==> grid[c] == acc[c] / (s * s)
  {
    var colorBuffer := new Byte[ch * cw * 3](_ => 0);
    for i := 0 to |acc|
      invariant forall c :: 0 <= c < i ==> colorBuffer[c] == acc[c] / s / s % 256
    {
      colorBuffer[i] := acc[i] / s / s % 256;
    }
    grid := colorBuffer[..];
    forall c | 0 <= c < |grid| && acc[c] <= 255 * (s * s)
      ensures grid[c] == acc[c] / (s * s)
    {
      NarrowMean(acc[c], s);
    }
  }

  /** A total of at most 255 * s * s divided by s twice fits a byte. */
  lemma NarrowMean(total: nat, s: nat)
    requires s > 0 && total <= 255 * (s * s)
    ensures total / s / s % 256 == total / (s * s) <= 255
  {
    Arith.DivDiv(total, s, s);
    Arith.MulPos(s, s);
    Arith.DivLeBound(total, 255, s * s);
    Arith.DivNonneg(total, s * s);
  }

  /** Cell c of the reduced accumulator is cell c of the pixelated grid. */
  lemma ReducedCell(img: Image, s: nat, acc: seq<nat>, c: nat)
    requires Decodable(img) && s > 0 && img.width % s == 0 && img.height % s == 0
    requires |acc| == (img.height / s) * (img.width / s) * 3 && c < |acc|
    requires var cw, ch := img.width / s, img.height / s;
      forall bw: nat, bh: nat, k: nat :: bw < cw && bh < ch && k < 3 ==>
        acc[CellIndex(cw, ch, bw, bh, k)]
          == BlockSum(Channel(img.pixels, img.bpp, k), Flat(img.width, bw * s, bh * s), img.width, s, s)
    ensures acc[c] <= 255 * (s * s) && acc[c] / (s * s) == PixelatedGrid(img, s)[c]
  {
    var cw, ch := img.width / s, img.height / s;
    CellIndexSplit(c, cw, ch);
    var bw, bh, k := c / 3 % cw, c / 3 / cw, c % 3;
    var plane := Channel(img.pixels, img.bpp, k);
    var start := Flat(img.width, bw * s, bh * s);
    BlockSumBound(plane, start, img.width, s, s);
    assert acc[CellIndex(cw, ch, bw, bh, k)] == BlockSum(plane, start, img.width, s, s);
    assert acc[c] == BlockSum(plane, start, img.width, s, s);
    assert PixelatedGrid(img, s)[c] == GridCell(img, s, c);
    assert GridCell(img, s, c) == BlockMean(img, s, bw, bh, k);
  }

  /** `pixelate`: the grid of block means of a decoded image, with the grid's
      width and height in blocks. */
  method Pixelate(img: Image, s: nat) returns (grid: seq<Byte>, cw: nat, ch: nat)
    requires Decodable(img) && s > 0 && img.width % s == 0 && img.height % s == 0
    ensures cw == img.width / s && ch == img.height / s
    ensures |grid| == ch * cw * 3
    ensures grid == PixelatedGrid(img, s)
  {
    cw := img.width / s;
    ch := img.height / s;
    Arith.DivModUnique(img.width, s, cw, 0);
    Arith.DivModUnique(img.height, s, ch, 0);
    var acc := AccumulatePixels(cw, ch, img.bpp, img.pixels, s, img.width, img.height);
    grid := ReducePixels(cw, ch, acc, s);
    forall c | 0 <= c < |grid|
      ensures grid[c] == PixelatedGrid(img, s)[c]
    {
      ReducedCell(img, s, acc, c);
    }
  }

  // ---------------------------------------------------------------------
  // Properties of the pixelated grid

  /** Channel k of pixel (x, y), or 0 outside the image. */
  function PixelChannel(img: Image, x: nat, y: nat, k: nat): Byte
    requires k < img.bpp
  {
    At(Channel(img.pixels, img.bpp, k), Flat(img.width, x, y))
  }

  lemma {:induction false} UniformRow(plane: seq<Byte>, width: nat, x0: nat, y: nat, n: nat, v: Byte)
    requires forall x: nat :: x0 <= x < x0 + n ==> At(plane, Flat(width, x, y)) == v
    ensures RowSum(plane, Flat(width, x0, y), n) == v * n
  {
    if n > 0 {
      UniformRow(plane, width, x0, y, n - 1, v);
      assert Flat(width, x0, y) + n - 1 == Flat(width, x0 + n - 1, y);
    }
  }

  lemma {:induction false} UniformRows(plane: seq<Byte>, width: nat, x0: nat, y0: nat, s: nat, rows: nat, v: Byte)
    requires forall x: nat, y: nat :: x0 <= x < x0 + s && y0 <= y < y0 + rows ==> At(plane, Flat(width, x, y)) == v
    ensures BlockSum(plane, Flat(width, x0, y0), width, s, rows) == v * (s * rows)
  {
    if rows > 0 {
      var k: nat := rows - 1;
      UniformRows(plane, width, x0, y0, s, k, v);
      FlatRow(width, x0, y0, k);
      UniformRow(plane, width, x0, y0 + k, s, v);
      Arith.MulStep(v, s, rows);
    }
  }

  /** A block whose pixels all carry the same value v in channel k has mean v. */
  lemma UniformBlockMean(img: Image, s: nat, bw: nat, bh: nat, k: nat, v: Byte)
    requires Decodable(img) && s > 0 && k < 3
    requires forall x: nat, y: nat :: bw * s <= x < bw * s + s && bh * s <= y < bh * s + s ==>
      PixelChannel(img, x, y, k) == v
    ensures BlockMean(img, s, bw, bh, k) == v
  {
    var plane := Channel(img.pixels, img.bpp, k);
    forall x: nat, y: nat | bw * s <= x < bw * s + s && bh * s <= y < bh * s + s
      ensures At(plane, Flat(img.width, x, y)) == v
    {
      assert PixelChannel(img, x, y, k) == v;
    }
    UniformRows(plane, img.width, bw * s, bh * s, s, s, v);
    Arith.MulDivExact(v, s * s);
  }

  /** Two black and two white pixels in a 2 x 2 block average to 127: the
      mean 127.5 is truncated. */
  lemma HalfGreyExample(k: nat)
    requires k < 3
    ensures BlockMean(Image(2, 2, 3, [0, 0, 0, 0, 0, 0, 255, 255, 255, 255, 255, 255]), 2, 0, 0, k) == 127
  {
    var img := Image(2, 2, 3, [0, 0, 0, 0, 0, 0, 255, 255, 255, 255, 255, 255]);
    var plane := Channel(img.pixels, 3, k);
    assert plane == [0, 0, 255, 255];
    assert RowSum(plane, 0, 2) == 0;
    assert RowSum(plane, 2, 2) == 510;
    assert BlockSum(plane, 0, 2, 2, 2) == 510;
  }

  /** With blocks of one pixel the grid is the image's colour bytes: an RGB
      image comes back unchanged. */
  lemma UnitBlocksKeepPixels(img: Image)
    requires Decodable(img) && img.bpp == 3
    ensures PixelatedGrid(img, 1) == img.pixels
  {
    var g := PixelatedGrid(img, 1);
    forall c | 0 <= c < |g|
      ensures g[c] == img.pixels[c]
    {
      UnitBlockCell(img, c);
    }
  }

  lemma UnitBlockCell(img: Image, c: nat)
    requires Decodable(img) && img.bpp == 3 && c < |PixelatedGrid(img, 1)|
    ensures PixelatedGrid(img, 1)[c] == img.pixels[c]
  {
    var w, h := img.width, img.height;
    CellIndexSplit(c, w, h);
    var bw, bh, k := c / 3 % w, c / 3 / w, c % 3;
    var plane := Channel(img.pixels, 3, k);
    var p := Flat(w, bw, bh);
    Arith.MulDivExact(w * h, 3);
    assert p * 3 + k == c;
    assert PixelatedGrid(img, 1)[c] == BlockMean(img, 1, bw, bh, k);
    assert BlockSum(plane, p, w, 1, 1) == At(plane, p);
  }
}
