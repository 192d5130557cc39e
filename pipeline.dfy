/** `main`: the five stages chained on an already-decoded target image and
    source directory listing, with the program's fixed parameters. */
module Pipeline {
  import opened Common
  import Chunking
  import Pixelation
  import Source
  import opened Catalog
  import Palette
  import Mosaic
  import Arith

  /** The starting guesses and the source tile side of `main`. */
  const TargetGuess: nat := 4
  const SourceGuess: nat := 52
  const SourceDimensions: nat := 416

  /** `source_pixels_per_chunk` after the search, and the tile side in
      blocks, `source_chunk_dimensions`. */
  const SourceChunk: nat := 52
  const TileSide: nat := 8

  /** Why the program stops before writing the mosaic. */
  datatype Failure =
    | ChunkFailed(reason: Chunking.ChunkError)   // no block size for the target
    | TargetUndecodable                          // the target is not 8-bit RGB or RGBA
    | SourceFailed(source: Source.SourceError)   // `analyze_source` panicked
    | MissingTile(key: Key)                      // `construct_mosaic` found no tile

  /** What is handed to the PNG encoder: the image size and its RGB bytes. */
  datatype Encoded = Encoded(width: nat, height: nat, data: seq<Byte>)

  /** The search from 52 over a 416 x 416 tile gives 52, so a tile is
      8 x 8 blocks. */
  lemma SourceChunkSize()
    ensures Chunking.IsChunkSize(SourceGuess, SourceDimensions, SourceDimensions, SourceChunk)
    ensures SourceDimensions / SourceChunk == TileSide
  {
    Chunking.ChunkSizeExamples();
  }

  /** The tiles of the source listing are 8 x 8 RGB pixels each. */
  lemma TilesAreFull(entries: seq<Source.DirEntry>)
    requires Source.Tiles(entries, SourceChunk, TileSide).Ok?
    ensures var tiles := Source.Tiles(entries, SourceChunk, TileSide).value;
      AllTilesNonEmpty(tiles) &&
      (forall i :: 0 <= i < |tiles| ==> |tiles[i]| == TileSide * TileSide * 3)
  {
    Source.TilesOutcome(entries, SourceChunk, TileSide);
    var tiles := Source.Tiles(entries, SourceChunk, TileSide).value;
    assert forall i :: 0 <= i < |tiles| ==> tiles[i] in tiles;
  }

  /** After the palette has been applied with a map built from at least one
      full tile, every block finds its tile. */
  lemma PaletteCompletesGrid(grid: seq<Byte>, tiles: seq<seq<Byte>>, Wb: nat, Hb: nat)
    requires |grid| == Wb * Hb * 3 && |tiles| > 0
    requires AllTilesNonEmpty(tiles)
    requires forall i :: 0 <= i < |tiles| ==> |tiles[i]| == TileSide * TileSide * 3
    ensures var m := BuildMap(tiles);
      Mosaic.Complete(Palette.Recolour(grid, m), m, TileSide, Wb, Hb)
  {
    var m := BuildMap(tiles);
    var recoloured := Palette.Recolour(grid, m);
    BuildMapNonEmpty(tiles);
    BuildMapColourKeys(tiles);
    forall b | 0 <= b < Wb * Hb
      ensures Mosaic.HasTile(m, Mosaic.BlockColour(recoloured, Wb, Hb, b), TileSide)
    {
      Palette.RecolouredPixelsAreKeys(grid, m, b);
      var key := Palette.PixelColour(recoloured, b);
      BuildMapKeySet(tiles, key);
      var t := Lookup(m, key).value;
      var i :| 0 <= i < |tiles| && tiles[i] == t;
    }
  }

  /** With no tiles the map is empty, and a target with at least one block
      has a block without a tile. */
  lemma EmptyCatalogIncomplete(grid: seq<Byte>, Wb: nat, Hb: nat)
    requires |grid| == Wb * Hb * 3 && Wb * Hb > 0
    ensures !Mosaic.Complete(grid, [], TileSide, Wb, Hb)
  {
    assert !Mosaic.HasTile([], Mosaic.BlockColour(grid, Wb, Hb, 0), TileSide);
  }

  /** A non-empty image has at least one block. */
  lemma PositiveBlocks(width: nat, height: nat, c: nat)
    requires Chunking.DividesBoth(c, width, height) && width > 0 && height > 0
    ensures (width / c) * (height / c) > 0
  {
    Chunking.DivisorAtMost(width, c);
    Chunking.DivisorAtMost(height, c);
    Arith.DivBracket(width, c, 0);
    Arith.DivBracket(height, c, 0);
    Arith.MulPos(width / c, height / c);
  }

  /** The mosaic `main` encodes for a target whose block size is c. */
  function Expected(target: Image, entries: seq<Source.DirEntry>, c: nat): (e: Encoded)
    requires Decodable(target) && Chunking.DividesBoth(c, target.width, target.height)
    requires Source.Tiles(entries, SourceChunk, TileSide).Ok?
    ensures |e.data| == e.width * e.height * 3
  {
    TilesAreFull(entries);
    var tiles := Source.Tiles(entries, SourceChunk, TileSide).value;
    var m := BuildMap(tiles);
    var Wb := target.width / c;
    var Hb := target.height / c;
    GridSize(target, c);
    var recoloured := Palette.Recolour(Pixelation.PixelatedGrid(target, c), m);
    Encoded(Wb * TileSide, Hb * TileSide, Mosaic.Mosaic(recoloured, m, TileSide, Wb, Hb))
  }

  lemma GridSize(target: Image, c: nat)
    requires Decodable(target) && Chunking.DividesBoth(c, target.width, target.height)
    ensures |Pixelation.PixelatedGrid(target, c)| == (target.width / c) * (target.height / c) * 3
  {
    assert (target.height / c) * (target.width / c) == (target.width / c) * (target.height / c);
  }

  /** `main` after argument handling and decoding: either the encoded mosaic
      of the target, built from the tiles of the listing, or the reason the
      program stops. */
  method Run(target: Image, entries: seq<Source.DirEntry>) returns (r: Result<Encoded, Failure>)
    ensures r.Ok? ==>
      Decodable(target) && Source.Tiles(entries, SourceChunk, TileSide).Ok? &&
      exists c :: Chunking.IsChunkSize(TargetGuess, target.width, target.height, c) &&
        r.value == Expected(target, entries, c)
    ensures r.Ok? ==> |r.value.data| == r.value.width * r.value.height * 3
    ensures r.Err? && r.error.ChunkFailed? ==>
      r.error.reason == Chunking.NoCommonDivisor &&
      forall d :: TargetGuess <= d <= target.width && d <= target.height ==>
        !Chunking.DividesBoth(d, target.width, target.height)
    ensures r == Err(TargetUndecodable) ==> !Decodable(target)
    ensures r.Err? && r.error.SourceFailed? ==> Source.Tiles(entries, SourceChunk, TileSide) == Err(r.error.source)
    ensures r.Err? && r.error.MissingTile? ==> Source.Tiles(entries, SourceChunk, TileSide) == Ok([])
    ensures Source.Tiles(entries, SourceChunk, TileSide) == Ok([]) && target.width > 0 && target.height > 0 ==>
      r.Err?
  {
    var sourcePixelsPerChunk := Chunking.PixelsPerChunk(SourceGuess, SourceDimensions, SourceDimensions);
    SourceChunkSize();
    assert sourcePixelsPerChunk == Ok(SourceChunk) by {
      if sourcePixelsPerChunk.Ok? {
        Chunking.ChunkSizeUnique(SourceGuess, SourceDimensions, SourceDimensions,
                                 sourcePixelsPerChunk.value, SourceChunk);
      }
    }
    var sourceChunkDimensions := SourceDimensions / sourcePixelsPerChunk.value;

    var targetPixelsPerChunk := Chunking.PixelsPerChunk(TargetGuess, target.width, target.height);
    if targetPixelsPerChunk.Err? {
      return Err(ChunkFailed(targetPixelsPerChunk.error));
    }
    var c := targetPixelsPerChunk.value;
    if !Decodable(target) {
      return Err(TargetUndecodable);
    }
    var targetColorBuffer, targetWidth, targetHeight := Pixelation.Pixelate(target, c);

    var sourceColorBuffers := Source.AnalyzeSource(entries, sourcePixelsPerChunk.value, sourceChunkDimensions);
    if sourceColorBuffers.Err? {
      return Err(SourceFailed(sourceColorBuffers.error));
    }
    var tiles := sourceColorBuffers.value;
    TilesAreFull(entries);
    var sourceColors := GenerateSourceMap(tiles);

    var buffer := new Byte[|targetColorBuffer|](i requires 0 <= i < |targetColorBuffer| => targetColorBuffer[i]);
    assert buffer[..] == targetColorBuffer;
    Palette.ApplySourcePalette(buffer, sourceColors);
    var recoloured := buffer[..];

    assert |recoloured| == targetWidth * targetHeight * 3 by {
      assert targetHeight * targetWidth == targetWidth * targetHeight;
    }
    var finalBuffer := Mosaic.ConstructMosaic(recoloured, sourceChunkDimensions, targetWidth, targetHeight,
                                              sourceColors);
    if |tiles| == 0 && target.width > 0 && target.height > 0 {
      PositiveBlocks(target.width, target.height, c);
      EmptyCatalogIncomplete(recoloured, targetWidth, targetHeight);
    }
    if finalBuffer.Err? {
      if |tiles| > 0 {
        PaletteCompletesGrid(targetColorBuffer, tiles, targetWidth, targetHeight);
      }
      return Err(MissingTile(finalBuffer.error.key));
    }
    Mosaic.OutputDimensions(recoloured, sourceChunkDimensions, targetWidth, targetHeight);
    r := Ok(Encoded(targetWidth * sourceChunkDimensions, targetHeight * sourceChunkDimensions, finalBuffer.value));
    assert r.value == Expected(target, entries, c);
  }
}
