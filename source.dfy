/** `analyze_source`: the tiles made from the source directory, each the
    pixelated grid of a square source image of the expected size. */
module Source {
  import opened Common
  import Pixelation
  import Arith

  /** One entry of the source directory, as the program comes to see it. */
  datatype DirEntry =
    | Unreadable          // the directory iterator yields an error: skipped
    | CannotOpen          // `File::open` fails: the program panics
    | NotPng              // `read_info` fails: skipped
    | Png(image: Image)   // a PNG header and the frame the decoder delivers

  /** The panics of `analyze_source`, as errors. */
  datatype SourceError =
    | OpenFailed          // "Failed to open source file"
    | Undecodable         // an image of the right size that `pixelate` cannot decode

  /** The size filter: square, and exactly `scd` blocks of `s` pixels wide. */
  predicate Qualifies(img: Image, s: nat, scd: nat)
  {
    img.width == img.height && img.width == scd * s
  }

  /** An entry the program cannot get past. */
  predicate Fatal(e: DirEntry, s: nat, scd: nat)
  {
    e.CannotOpen? || (e.Png? && Qualifies(e.image, s, scd) && !Decodable(e.image))
  }

  /** The tiles of a directory listing, in listing order, or the first
      panic it runs into. */
  function Tiles(entries: seq<DirEntry>, s: nat, scd: nat): Result<seq<seq<Byte>>, SourceError>
    requires s > 0
  {
    if |entries| == 0 then Ok([])
    else
      var before := Tiles(entries[..|entries| - 1], s, scd);
      if before.Err? then before
      else
        match entries[|entries| - 1]
        case Unreadable => before
        case NotPng => before
        case CannotOpen => Err(OpenFailed)
        case Png(img) =>
          if !Qualifies(img, s, scd) then before
          else if !Decodable(img) then Err(Undecodable)
          else Ok(before.value + [Pixelation.PixelatedGrid(img, s)])
  }

  /** The number of entries that pass the size filter. */
  function QualifyingCount(entries: seq<DirEntry>, s: nat, scd: nat): nat
  {
    if |entries| == 0 then 0
    else
      var e := entries[|entries| - 1];
      QualifyingCount(entries[..|entries| - 1], s, scd) + (if e.Png? && Qualifies(e.image, s, scd) then 1 else 0)
  }

  /** A qualifying image yields a tile of scd x scd pixels. */
  lemma TileSize(img: Image, s: nat, scd: nat)
    requires s > 0 && Qualifies(img, s, scd) && Decodable(img)
    ensures |Pixelation.PixelatedGrid(img, s)| == scd * scd * 3
  {
    Arith.MulDivExact(scd, s);
  }

  /** The listing fails exactly when one of its entries is fatal; otherwise
      it holds one tile of scd x scd pixels per qualifying entry. */
  lemma {:induction false} TilesOutcome(entries: seq<DirEntry>, s: nat, scd: nat)
    requires s > 0
    ensures Tiles(entries, s, scd).Err? <==> exists i :: 0 <= i < |entries| && Fatal(entries[i], s, scd)
    ensures Tiles(entries, s, scd).Ok? ==>
      |Tiles(entries, s, scd).value| == QualifyingCount(entries, s, scd) &&
      forall t :: t in Tiles(entries, s, scd).value ==> |t| == scd * scd * 3
  {
    if |entries| > 0 {
      var n := |entries| - 1;
      var init := entries[..n];
      TilesOutcome(init, s, scd);
      assert forall i :: 0 <= i < n ==> init[i] == entries[i];
      var e := entries[n];
      if e.Png? && Qualifies(e.image, s, scd) && Decodable(e.image) {
        TileSize(e.image, s, scd);
      }
      if Tiles(init, s, scd).Ok? && !Fatal(e, s, scd) {
        forall i | 0 <= i < |entries| ensures !Fatal(entries[i], s, scd) {
          if i < n {
            assert init[i] == entries[i];
          }
        }
      }
    }
  }

  /** Once the walk has panicked, later entries change nothing. */
  lemma {:induction false} ErrorSticks(entries: seq<DirEntry>, s: nat, scd: nat, i: nat)
    requires s > 0 && i <= |entries| && Tiles(entries[..i], s, scd).Err?
    ensures Tiles(entries, s, scd) == Tiles(entries[..i], s, scd)
    decreases |entries| - i
  {
    if i < |entries| {
      var n := |entries| - 1;
      assert entries[..n][..i] == entries[..i];
      ErrorSticks(entries[..n], s, scd, i);
    } else {
      assert entries[..i] == entries;
    }
  }

  /** `analyze_source`: walk the listing, skip what cannot be read or does
      not pass the size filter, and pixelate the rest. */
  method AnalyzeSource(entries: seq<DirEntry>, s: nat, scd: nat) returns (r: Result<seq<seq<Byte>>, SourceError>)
    requires s > 0
    ensures r == Tiles(entries, s, scd)
  {
    var sourceColorBuffers: seq<seq<Byte>> := [];
    for i := 0 to |entries|
      invariant Tiles(entries[..i], s, scd) == Ok(sourceColorBuffers)
    {
      assert entries[..i + 1][..i] == entries[..i];
      match entries[i]
      case Unreadable =>
      case NotPng =>
      case CannotOpen =>
        ErrorSticks(entries, s, scd, i + 1);
        return Err(OpenFailed);
      case Png(img) =>
        if Qualifies(img, s, scd) {
          if !Decodable(img) {
            ErrorSticks(entries, s, scd, i + 1);
            return Err(Undecodable);
          }
          Arith.MulDivExact(scd, s);
          var grid, _, _ := Pixelation.Pixelate(img, s);
          sourceColorBuffers := sourceColorBuffers + [grid];
        }
    }
    assert entries[..|entries|] == entries;
    r := Ok(sourceColorBuffers);
  }
}
