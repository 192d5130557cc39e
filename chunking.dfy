/** The chunk-size negotiation of `pixels_per_chunk_gcf`: a forward search,
    starting at a guess, for a block side that divides both image sides. */
module Chunking {
  import opened Common
  import Arith

  datatype ChunkError =
    | ZeroGuess        // `width % 0` traps before any other check
    | NoCommonDivisor  // the search passed the width or the height

  predicate DividesBoth(c: nat, width: nat, height: nat)
  {
    c > 0 && width % c == 0 && height % c == 0
  }

  /** c is what the search started at `guess` stops at: the least common
      divisor of both sides that is at least `guess`. */
  predicate IsChunkSize(guess: nat, width: nat, height: nat, c: nat)
  {
    guess <= c && DividesBoth(c, width, height) &&
    forall d :: guess <= d < c ==> !DividesBoth(d, width, height)
  }

  /** A positive multiple of c is at least c. */
  lemma DivisorAtMost(n: nat, c: nat)
    requires c > 0 && n > 0 && n % c == 0
    ensures c <= n
  {
    if n < c {
      Arith.DivModUnique(n, c, 0, n);
      assert false;
    }
  }

  method PixelsPerChunk(guess: nat, width: nat, height: nat) returns (r: Result<nat, ChunkError>)
    ensures guess == 0 ==> r == Err(ZeroGuess)
    ensures r.Ok? ==> IsChunkSize(guess, width, height, r.value)
    ensures r.Ok? && width > 0 && height > 0 ==> r.value <= width && r.value <= height
    ensures r.Err? && guess > 0 ==>
              r.error == NoCommonDivisor && !DividesBoth(guess, width, height) &&
              forall d :: guess <= d && d <= width && d <= height ==> !DividesBoth(d, width, height)
  {
    if guess == 0 {
      return Err(ZeroGuess);
    }
    var c := guess;
    while true
      invariant guess <= c
      invariant forall d :: guess <= d < c ==> !DividesBoth(d, width, height)
      decreases width + 1 - c
    {
      if width % c == 0 && height % c == 0 {
        if width > 0 && height > 0 {
          DivisorAtMost(width, c);
          DivisorAtMost(height, c);
        }
        return Ok(c);
      }
      if c > width || c > height || c == 0 {
        return Err(NoCommonDivisor);
      }
      c := c + 1;
    }
  }

  /** Two results of the search from the same guess are the same value. */
  lemma ChunkSizeUnique(guess: nat, width: nat, height: nat, c: nat, c': nat)
    requires IsChunkSize(guess, width, height, c) && IsChunkSize(guess, width, height, c')
    ensures c == c'
  {
  }

  /** 101 is prime, so a search from 5 has to go all the way to 101. */
  lemma NoDivisorOf101Below(d: nat)
    requires 5 <= d < 101
    ensures 101 % d != 0
  {
    var q := if d >= 51 then 1 else if d >= 34 then 2 else if d >= 26 then 3
             else if d >= 21 then 4 else if d >= 17 then 5 else if d >= 15 then 6
             else if d >= 13 then 7 else if d == 12 then 8 else if d == 11 then 9
             else if d == 10 then 10 else if d == 9 then 11 else if d == 8 then 12
             else if d == 7 then 14 else if d == 6 then 16 else 20;
    Arith.DivModUnique(101, d, q, 101 - q * d);
  }

  /** The unit tests of `pixels_per_chunk_gcf`, as facts about the result. */
  lemma ChunkSizeExamples()
    ensures IsChunkSize(5, 101, 101, 101)
    ensures IsChunkSize(4, 2048, 1024, 4)
    ensures IsChunkSize(7, 1000, 2000, 8)
    ensures IsChunkSize(52, 416, 416, 52)
  {
    forall d | 5 <= d < 101 ensures !DividesBoth(d, 101, 101) {
      NoDivisorOf101Below(d);
    }
  }

  /** The failing unit test: from 417, no block side fits a 17-pixel side. */
  lemma NoChunkSizeFor417(c: nat)
    ensures !IsChunkSize(417, 2000, 17, c)
  {
    if DividesBoth(c, 2000, 17) {
      DivisorAtMost(17, c);
    }
  }

  /** The unit tests of lines 331-343 run through the search, seen by a
      caller that knows only its contract. The panicking test stops at its
      first call; the zero guess is asked separately. */
  method ChunkSizeClient() returns (a: Result<nat, ChunkError>, b: Result<nat, ChunkError>,
                                    c: Result<nat, ChunkError>, e: Result<nat, ChunkError>,
                                    z: Result<nat, ChunkError>)
    ensures a == Ok(101) && b == Ok(4) && c == Ok(8)
    ensures e == Err(NoCommonDivisor) && z == Err(ZeroGuess)
  {
    ChunkSizeExamples();
    assert DividesBoth(101, 101, 101) && DividesBoth(4, 2048, 1024) && DividesBoth(8, 1000, 2000);
    a := PixelsPerChunk(5, 101, 101);
    ChunkSizeUnique(5, 101, 101, a.value, 101);
    b := PixelsPerChunk(4, 2048, 1024);
    ChunkSizeUnique(4, 2048, 1024, b.value, 4);
    c := PixelsPerChunk(7, 1000, 2000);
    ChunkSizeUnique(7, 1000, 2000, c.value, 8);
    forall k: nat ensures !IsChunkSize(417, 2000, 17, k) {
      NoChunkSizeFor417(k);
    }
    e := PixelsPerChunk(417, 2000, 17);
    z := PixelsPerChunk(0, 200, 400);
  }
}
