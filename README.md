# png_mosaic: a verified model of the mosaic pipeline

`png_mosaic` turns a target PNG into a photomosaic made from a directory of
square source PNGs. This project models, in Dafny, the numeric core of
`Code/png_mosaic/src/main.rs` and proves what each stage computes. The
decoded images and the directory listing are given as values.

1. **Chunk-size search** (`pixels_per_chunk_gcf`), in `Chunking`. The search
   walks up from a guess to the first block side that divides both image
   sides.
2. **Block averaging** (`accumulate_pixels`, `reduce_pixels`, `pixelate`),
   in `Pixelation`.
   - Every colour byte of an RGB or RGBA buffer is added to the total for its
     block and channel. Alpha bytes are skipped.
   - Each total is divided by the block side twice and narrowed to a byte.
   - The reference definition is `PixelatedGrid`: the truncated mean of
     every block and channel.
3. **Source tiles** (`analyze_source`), in `Source`. The size filter keeps
   only square images 416 pixels wide. Each kept image is pixelated into an
   8 x 8 grid of RGB pixels, and that grid is the stored tile.
4. **Source map** (`generate_source_map`), in `Catalog`.
   - Each tile is inserted under its per-channel truncated mean. A later
     tile with the same mean replaces an earlier one.
   - The `HashMap` is modelled as a sequence of entries with distinct keys.
5. **Palette** (`apply_source_palette`), in `Palette`.
   - Each whole pixel of the grid, in place, becomes the key nearest to it.
     The scan keeps a key only when it is strictly closer, starting from
     distance 1000, so a tie goes to the earlier key.
   - The reference definition is `Recolour`.
6. **Composition** (`construct_mosaic`), in `Mosaic`.
   - Each block becomes its tile, written scanline by scanline. Row t of
     every tile in a block row is written before row t + 1 of any of them.
   - The reference definition is `Mosaic`: pixel (X, Y) of the output is
     pixel (X % T, Y % T) of the tile of block (X / T, Y / T).
7. **`main`** (`Pipeline.Run`). It chains the stages with the program's
   constants: guesses 4 and 52, source side 416, giving tiles of
   8 x 8 pixels.
   - The result is the encoded mosaic.
   - Otherwise it is the reason the program stops: no block size,
     undecodable target, a panicking source directory, or a missing tile.

The methods follow the loops of the source. Each one is proved against a
pure function. The properties that matter are then proved as lemmas about
that function: round trips, bounds, ordering, idempotence and exact
indexing. `Arith` holds small arithmetic lemmas that the other modules use.

## Model

| member | source | states |
|---|---|---|
| Chunking.PixelsPerChunk | Code/png_mosaic/src/main.rs:86-96 | A guess of 0 fails. A result is the least block side at or above the guess that divides both sides, and it is at most both sides when they are positive. Any other failure means the guess itself does not divide both sides, and no value from the guess up to the smaller side does. |
| Chunking.ChunkSizeUnique | Code/png_mosaic/src/main.rs:86-96 | The search has one answer: two block sides that both satisfy its result condition are equal. |
| Chunking.ChunkSizeExamples | Code/png_mosaic/src/main.rs:332-336 | The unit tests: (5, 101, 101) gives 101, (4, 2048, 1024) gives 4, (7, 1000, 2000) gives 8. Also (52, 416, 416) gives 52, the source setting of lines 14-25. |
| Chunking.NoChunkSizeFor417 | Code/png_mosaic/src/main.rs:339-341 | No block side satisfies the result condition for (417, 2000, 17), the call of the panicking test. |
| Chunking.ChunkSizeClient | Code/png_mosaic/src/main.rs:331-343 | From the search's contract alone: the three asserting tests give 101, 4 and 8, (417, 2000, 17) fails with no common divisor, and (0, 200, 400) fails with a zero guess. |
| Pixelation.BlockMean | Code/png_mosaic/src/main.rs:176-179 | The truncated mean of a channel over a block never exceeds 255. |
| Pixelation.BlockSumBound | Code/png_mosaic/src/main.rs:146-165 | A block's channel total is at most 255 times its pixel count. |
| Pixelation.CellIndex | Code/png_mosaic/src/main.rs:147 | Cell (bw, bh, k) lies inside the accumulator of ch * cw * 3 cells. |
| Pixelation.CellIndexSplit | Code/png_mosaic/src/main.rs:146-147 | Every accumulator position is the cell of one block and channel, recovered by / 3, % cw and % 3. |
| Pixelation.CellIndexInjective | Code/png_mosaic/src/main.rs:146-147 | The cell of (bw, bh, k) decodes back to bw, bh and k. |
| Pixelation.PixelByteCell | Code/png_mosaic/src/main.rs:150-162 | With s dividing the width, byte k of pixel (x, y) is added to channel k of block (x / s, y / s). The alpha byte is added nowhere. |
| Pixelation.ByteCell | Code/png_mosaic/src/main.rs:150-162 | Byte j of pixel q goes to channel j of the pixel's block, or nowhere when j is 3. |
| Pixelation.PixelBlockAt | Code/png_mosaic/src/main.rs:150-153 | The block index computed at lines 150-153 for pixel (x, y) is (y / s) * cw + x / s. |
| Pixelation.BlockBracket | Code/png_mosaic/src/main.rs:150-153 | Pixel (x, y) is routed to block (bw, bh) exactly when x lies in [bw*s, bw*s + s) and y lies in [bh*s, bh*s + s). |
| Pixelation.CellInRange | Code/png_mosaic/src/main.rs:146-163 | Every byte that is added lands inside the accumulator. |
| Pixelation.RoutedIsBlockSum | Code/png_mosaic/src/main.rs:149-165 | The total the loop gathers in a cell equals the reference block sum of that block and channel. |
| Pixelation.AccumulatePixels | Code/png_mosaic/src/main.rs:137-167 | The accumulator has ch * cw * 3 cells, and cell (bw, bh, k) holds the sum of channel k over block (bw, bh). |
| Pixelation.NarrowMean | Code/png_mosaic/src/main.rs:179 | A total of at most 255 * s * s, divided by s twice and cast to u8, equals the total divided by s * s. The cast loses nothing. |
| Pixelation.ReducePixels | Code/png_mosaic/src/main.rs:169-183 | The output has the accumulator's length. Each byte is total / s / s narrowed to a byte, which is total / (s * s) whenever the total fits a block. |
| Pixelation.ReducedCell | Code/png_mosaic/src/main.rs:126-134 | When the accumulator holds the block sums, each total is at most 255 * s * s and dividing it by s * s gives that cell of the pixelated grid. |
| Pixelation.Pixelate | Code/png_mosaic/src/main.rs:98-135 | The grid measures width / s by height / s blocks, and it is the grid of block means (PixelatedGrid). |
| Pixelation.PixelatedGridAt | Code/png_mosaic/src/main.rs:98-135 | Cell (bw, bh, k) of the pixelated grid is the mean of channel k over block (bw, bh). |
| Pixelation.UniformBlockMean | Code/png_mosaic/src/main.rs:169-183 | A block whose pixels all share a channel value averages to exactly that value. |
| Pixelation.UniformRows | Code/png_mosaic/src/main.rs:149-165 | Uniform rows of value v have total v times their pixel count. |
| Pixelation.HalfGreyExample | Code/png_mosaic/src/main.rs:176-179 | Two black and two white pixels in one 2 x 2 block average to 127. The mean 127.5 is truncated. |
| Pixelation.UnitBlocksKeepPixels | Code/png_mosaic/src/main.rs:98-135 | With one-pixel blocks, an RGB image is its own pixelated grid. |
| Source.TileSize | Code/png_mosaic/src/main.rs:205-215 | An image that passes the filter yields a tile of scd x scd pixels. |
| Source.TilesOutcome | Code/png_mosaic/src/main.rs:195-220 | The walk fails exactly when some entry is fatal: one that cannot be opened, or a kept image that cannot be decoded. Otherwise there is one tile of scd * scd * 3 bytes per entry that passes the filter. |
| Source.ErrorSticks | Code/png_mosaic/src/main.rs:195-220 | After a panic, later entries change nothing. |
| Source.AnalyzeSource | Code/png_mosaic/src/main.rs:185-223 | The loop returns the reference walk Tiles. Unreadable entries and non-PNGs are skipped, the square-side filter is applied, and kept images are pixelated in listing order. |
| Catalog.Lookup | Code/png_mosaic/src/main.rs:317 | A lookup finds a tile exactly when the key is in the map, and then that (key, tile) pair is an entry. |
| Catalog.Insert | Code/png_mosaic/src/main.rs:242 | The keys become the old keys plus the new one. The size grows by one only for a new key. |
| Catalog.InsertLookup | Code/png_mosaic/src/main.rs:242 | After an insert, the key maps to the new tile and every other key keeps its lookup. |
| Catalog.InsertDistinct | Code/png_mosaic/src/main.rs:242 | An insert keeps keys pairwise distinct. |
| Catalog.InsertEntries | Code/png_mosaic/src/main.rs:242 | Every entry after an insert is an old entry or the new one. |
| Catalog.LookupDistinct | Code/png_mosaic/src/main.rs:317 | With distinct keys, looking up an entry's key finds its tile. |
| Catalog.ChannelTotalStep | Code/png_mosaic/src/main.rs:234-237 | Byte n is added to the total of channel n % 3 only. |
| Catalog.ChannelTotalBound | Code/png_mosaic/src/main.rs:234-237 | A channel total over m whole pixels is at most 255 * m. |
| Catalog.TileMeanIsColour | Code/png_mosaic/src/main.rs:239-241 | The average colour of a tile of whole pixels has every channel at most 255. |
| Catalog.AverageColor | Code/png_mosaic/src/main.rs:232-241 | The two inner loops compute TileMean: each channel total divided by the number of pixels. |
| Catalog.BuildMap | Code/png_mosaic/src/main.rs:229-244 | The map built from the tiles has distinct keys and no more entries than tiles. |
| Catalog.LastWithMeanIs | Code/png_mosaic/src/main.rs:231-243 | The last tile with a given mean is the one found. |
| Catalog.LastWithMeanNone | Code/png_mosaic/src/main.rs:231-243 | Nothing is found for a mean no tile has. |
| Catalog.LastWithMeanFound | Code/png_mosaic/src/main.rs:231-243 | A tile is found exactly when some tile has that mean, and what is found is one of the tiles. |
| Catalog.BuildMapLookup | Code/png_mosaic/src/main.rs:231-243 | A lookup in the built map finds the last tile with that mean: later tiles overwrite earlier ones. |
| Catalog.BuildMapKeySet | Code/png_mosaic/src/main.rs:229-244 | The keys of the map are exactly the means of the tiles, and every stored tile is one of the tiles. |
| Catalog.BuildMapColourKeys | Code/png_mosaic/src/main.rs:229-244 | From tiles of whole pixels, every key is a colour. |
| Catalog.BuildMapNonEmpty | Code/png_mosaic/src/main.rs:229-244 | At least one tile gives at least one entry. |
| Catalog.GenerateSourceMap | Code/png_mosaic/src/main.rs:225-245 | The loop builds BuildMap: each tile is inserted in order under its average. |
| Palette.ScanIsFirstNearest | Code/png_mosaic/src/main.rs:254-271 | After n entries, the kept distance is at most 1000² and at most every scanned distance. At 1000² the colour is still black. Below it, the colour is the first scanned key at that distance, all earlier keys being strictly farther. |
| Palette.SqDistZero | Code/png_mosaic/src/main.rs:256-266 | The distance is 0 exactly when the colours are equal. |
| Palette.ColoursWithinSentinel | Code/png_mosaic/src/main.rs:254 | Two byte colours are always closer than the starting bound, so the first key is always taken. |
| Palette.MatchEmpty | Code/png_mosaic/src/main.rs:253-254 | With an empty map the match is black. |
| Palette.MatchIsNearestKey | Code/png_mosaic/src/main.rs:252-271 | Against a non-empty map of colours, the match is a key at least distance. It is the first such key in map order. |
| Palette.MatchIsColourKey | Code/png_mosaic/src/main.rs:252-271 | Against a non-empty map of colours, the match is a key and a colour. |
| Palette.MatchOfKey | Code/png_mosaic/src/main.rs:255-270 | A colour that is a key is matched to itself, since distance 0 is the unique minimum. |
| Palette.NearestExample | Code/png_mosaic/src/main.rs:255-270 | Against black and white, the grey (10, 10, 10) becomes black. |
| Palette.FullSqDist | Code/png_mosaic/src/main.rs:256-266 | The per-channel loop sums to the squared distance. |
| Palette.Nearest | Code/png_mosaic/src/main.rs:253-271 | The scan loop over the map returns Match: a strictly closer key replaces the one kept. |
| Palette.Recolour | Code/png_mosaic/src/main.rs:252-276 | The recoloured buffer has the length of the input. |
| Palette.RecolourAt | Code/png_mosaic/src/main.rs:272-275 | Byte j of whole pixel p becomes channel j of its match, cast to u8. |
| Palette.RecolourTail | Code/png_mosaic/src/main.rs:252 | Bytes after the last whole pixel are left alone. |
| Palette.RecolourEmpty | Code/png_mosaic/src/main.rs:253-275 | With an empty map every whole pixel becomes zeros. |
| Palette.RecolouredPixel | Code/png_mosaic/src/main.rs:272-275 | Pixel p of the result is its match, narrowed channel by channel. |
| Palette.RecolouredPixelsAreKeys | Code/png_mosaic/src/main.rs:252-276 | After matching against a non-empty map of colours, every pixel is a key of the map. |
| Palette.KeyPixelFixed | Code/png_mosaic/src/main.rs:255-274 | A pixel that is already a key keeps its bytes. |
| Palette.RecolourIdempotent | Code/png_mosaic/src/main.rs:252-276 | For any map whose keys are byte colours (`ColourKeys`, which `Catalog.BuildMapColourKeys` supplies), the empty map included, applying the palette twice gives the same result as applying it once. |
| Palette.PaintPixel | Code/png_mosaic/src/main.rs:272-275 | The channel loop writes the three bytes of whole pixel p from its match. Afterwards the bytes before the pixel's end are recoloured and the rest are untouched. |
| Palette.ApplySourcePalette | Code/png_mosaic/src/main.rs:247-278 | In place on the buffer's array: afterwards the buffer is Recolour of its old contents. |
| Mosaic.Mosaic | Code/png_mosaic/src/main.rs:288-292 | The mosaic has (Wb*T) * (Hb*T) RGB pixels. |
| Mosaic.MosaicAt | Code/png_mosaic/src/main.rs:311-320 | Byte (Y * Wb*T + X) * 3 + c of the mosaic is byte c of pixel (X % T, Y % T) of the tile of block (X / T, Y / T). |
| Mosaic.PixelIndex | Code/png_mosaic/src/main.rs:313-316 | Byte c of pixel (X, Y) of a W x H image is inside the buffer and decodes back to X, Y and c. |
| Mosaic.MosaicBlockByte | Code/png_mosaic/src/main.rs:294-320 | Byte k of pixel p of row t of block (bw, bh) sits at ((bh*T + t) * Wb*T + bw*T + p) * 3 + k. It is byte (t*T + p) * 3 + k of that block's tile. |
| Mosaic.BlockOfPixel | Code/png_mosaic/src/main.rs:295-300 | Every output pixel lies in a block of the grid, at a pixel of a T x T tile. |
| Mosaic.ChunkColumn | Code/png_mosaic/src/main.rs:295-297 | Pixel p of chunk r is output column r % Wb * T + p, in block column r % Wb. |
| Mosaic.ChunkRow | Code/png_mosaic/src/main.rs:296-300 | Chunk r is in output row r / Wb and block row r / (Wb*T). |
| Mosaic.ChunkOffset | Code/png_mosaic/src/main.rs:313-316 | The write position r * T + p of chunk r is its pixel in scanline order. |
| Mosaic.ChunkBlock | Code/png_mosaic/src/main.rs:295-297 | `final_chunk_location` is a block of the grid. |
| Mosaic.ChunkKey | Code/png_mosaic/src/main.rs:302-309 | The colour key read for chunk r is the colour of its block. |
| Mosaic.OutputDimensions | Code/png_mosaic/src/main.rs:288-292 | The output buffer of \|grid\| * T * T bytes is exactly (Wb*T) x (Hb*T) RGB pixels, the size passed to the encoder at lines 74-78. |
| Mosaic.ChunkFits | Code/png_mosaic/src/main.rs:294 | The T pixels of every chunk fit inside the output. |
| Mosaic.WritesDistinct | Code/png_mosaic/src/main.rs:313-316 | No output byte is written twice: the write position determines chunk, pixel and byte. |
| Mosaic.WritesCover | Code/png_mosaic/src/main.rs:294 | Every output byte is written by some chunk, pixel and byte. |
| Mosaic.SingleBlock | Code/png_mosaic/src/main.rs:280-325 | A 1 x 1 grid is drawn as the first T*T*3 bytes of its tile. |
| Mosaic.FirstChunk | Code/png_mosaic/src/main.rs:294-297 | Every block is reached by some chunk. |
| Mosaic.AllChunksComplete | Code/png_mosaic/src/main.rs:294-317 | If every chunk finds its tile, every block has a tile. |
| Mosaic.ChunkIncomplete | Code/png_mosaic/src/main.rs:317 | A chunk without a tile means some block has none. |
| Mosaic.ChunkByte | Code/png_mosaic/src/main.rs:311-320 | Byte b of pixel p written for chunk r is the mosaic's byte at that position. |
| Mosaic.ChunkByteAt | Code/png_mosaic/src/main.rs:311-320 | The byte copied to each position of chunk r is the mosaic's byte there. |
| Mosaic.ChunkRowBytes | Code/png_mosaic/src/main.rs:311-320 | Chunk r's T*3 bytes of the mosaic are the tile row starting at `scanline_number * 3`. |
| Mosaic.CopyScanline | Code/png_mosaic/src/main.rs:311-322 | The two inner loops write the tile row into positions start to start + T*3 and change nothing else. The output then agrees with the mosaic up to the row's end. |
| Mosaic.ConstructMosaic | Code/png_mosaic/src/main.rs:280-325 | Succeeds exactly when every block colour has a full tile, and then returns the Mosaic. |
| Pipeline.SourceChunkSize | Code/png_mosaic/src/main.rs:13-25 | The source search gives 52, so a tile is 416 / 52 = 8 blocks on a side. |
| Pipeline.TilesAreFull | Code/png_mosaic/src/main.rs:43-52 | Every source tile is 8 x 8 RGB pixels. |
| Pipeline.PaletteCompletesGrid | Code/png_mosaic/src/main.rs:52-68 | With at least one tile, every recoloured block finds a full tile, so composition cannot fail. |
| Pipeline.PositiveBlocks | Code/png_mosaic/src/main.rs:34-39 | A target with positive sides has at least one block for any block size the search returns. |
| Pipeline.EmptyCatalogIncomplete | Code/png_mosaic/src/main.rs:56-68 | With no tiles, a grid with a block has a block without a tile. |
| Pipeline.GridSize | Code/png_mosaic/src/main.rs:34-39 | The target is pixelated into (width / c) x (height / c) pixels. |
| Pipeline.Expected | Code/png_mosaic/src/main.rs:74-83 | The encoded image's buffer holds width x height RGB pixels. |
| Pipeline.Run | Code/png_mosaic/src/main.rs:7-84 | A success is the expected mosaic for the block size the search finds, of (width / c * 8) x (height / c * 8) pixels. Each failure says why: no block size, an undecodable target, a panicking source directory, or an empty set of tiles. A run with no tiles and a non-empty target always fails. |

## Left out

- PNG decoding and encoding are not modelled: `Decoder`, `read_info`, `next_frame`, `Encoder` and `write_image_data` are library calls (lines 27-29, 72-83, 109-112, 198-204). An image is given already decoded, as width, height, bytes per pixel and bytes. `Decodable` states what decoding guarantees: RGB or RGBA, and a buffer of exactly the frame's size. A source whose header cannot be read is the `NotPng` entry.
- The filesystem is not modelled: `read_dir`, `File::open`, `File::create` and `BufWriter` are I/O. The directory is the sequence of its entries in listing order. An unreadable entry is skipped and a file that fails to open is an error, as at lines 196-197.
- The command line is not modelled: the argument check and its silent return at lines 8-11 concern process arguments. The `println!` progress lines are output only.
- Floating point is not modelled: distances are exact integer sums of squares (`SqDist`) compared with `<`. The start value 1000.0 becomes 1000 * 1000. The f64 computation agrees with this because distances are at most 3 * 255², which `f64` holds exactly. Square root is monotone and separates distinct integers of that size.
- HashMap hashing and iteration order are not modelled: the map is a sequence of entries in insertion order, and an insert on an existing key keeps its position. Tie-breaking is proved relative to that order. Rust's randomised order is out of scope.
- `u32` overflow is not modelled, and all quantities are unbounded naturals. The accumulator totals are proved to stay at most 255 * s * s, so the `as u8` casts in `reduce_pixels` lose nothing. Once s >= 4105, though, 255 * s * s exceeds `u32::MAX`. The search can return such an s, for instance when both target sides are the same prime above 4104. The `+=` at line 163 can then overflow, panicking in a debug build and wrapping in a release build. The model's `nat` totals do not overflow. The casts are still written as `% 256`, as is the `as u8` in `apply_source_palette`.
- Pixelation.AccumulatePixels: the width and height must be multiples of the block side. For other sizes the code has no correct behaviour, because the cell index can pass the accumulator's end.
- Pixelation.Pixelate: same as AccumulatePixels. The colour types other than RGB and RGBA (the panic at line 107) are the `Decodable` condition. The `_ =>` arm at line 161 cannot be reached once bpp is 3 or 4, so it is not modelled, and an undecodable image becomes an error result where `pixelate` is called.
- Catalog.AverageColor and Catalog.GenerateSourceMap require tiles of at least 3 bytes: `generate_source_map` divides by zero on shorter buffers. Every tile from the source walk has 192 bytes (`Pipeline.TilesAreFull`). `AverageColor` is the body of the outer loop of `generate_source_map`, written as a method of its own.
- Mosaic.ConstructMosaic requires the grid to hold exactly Wb x Hb pixels, as `pixelate` guarantees. Two panics at lines 317-320 both become `TileNotFound`: the `HashMap` index panic for a missing key, and the `Vec` index panic for a tile shorter than T*T*3 bytes. It is raised for the first such chunk, before that chunk is copied. The key is read as one triple rather than by the push loop at lines 302-309.
- Four behaviours of the program, modelled as the code does them:
  - The stored tile is the pixelated 8 x 8 grid (lines 210-219), not the decoded source image.
  - A source file that cannot be opened is fatal (`expect` at line 197).
  - An empty map makes every block black, and composition then fails at the lookup. There is no error of its own during matching.
  - Ties go to the earlier key in map order, with no sorting.
