/** `apply_source_palette`: every pixel of the pixelated target is replaced
    by the nearest average colour in the source map. */
module Palette {
  import opened Common
  import opened Catalog
  import Arith

  /** `last_distance` starts at 1000.0 and is compared with square roots of
      distances; on squared distances the bound is 1000 * 1000. */
  const Sentinel: nat := 1000 * 1000

  function Square(d: int): nat
  {
    d * d
  }

  /** The squared Euclidean distance between two colours. */
  function SqDist(a: Key, b: Key): nat
  {
    Square(a.c0 - b.c0) + Square(a.c1 - b.c1) + Square(a.c2 - b.c2)
  }

  /** The state of the scan over the map: the colour kept so far and its
      (squared) distance. */
  datatype Choice = Choice(colour: Key, distance: nat)

  /** The scan over the first n entries: a strictly closer entry replaces
      the colour kept, which starts as black at distance Sentinel. */
  function Scan(target: Key, m: seq<Entry>, n: nat): Choice
    requires n <= |m|
  {
    if n == 0 then Choice(Key(0, 0, 0), Sentinel)
    else
      var c := Scan(target, m, n - 1);
      var d := SqDist(target, m[n - 1].key);
      if d < c.distance then Choice(m[n - 1].key, d) else c
  }

  /** The colour a pixel of colour `target` is given. */
  function Match(target: Key, m: seq<Entry>): Key
  {
    Scan(target, m, |m|).colour
  }

  /** The scan keeps the first entry of least distance, provided that
      distance is below the sentinel; otherwise it keeps black. */
  lemma {:induction false} ScanIsFirstNearest(target: Key, m: seq<Entry>, n: nat)
    requires n <= |m|
    ensures var c := Scan(target, m, n);
      c.distance <= Sentinel &&
      (forall j :: 0 <= j < n ==> c.distance <= SqDist(target, m[j].key)) &&
      (c.distance == Sentinel ==> c.colour == Key(0, 0, 0)) &&
      (c.distance < Sentinel ==>
        exists i :: 0 <= i < n && m[i].key == c.colour && SqDist(target, m[i].key) == c.distance &&
          forall j :: 0 <= j < i ==> c.distance < SqDist(target, m[j].key))
  {
    if n > 0 {
      ScanIsFirstNearest(target, m, n - 1);
      var c := Scan(target, m, n - 1);
      var d := SqDist(target, m[n - 1].key);
      if d < c.distance {
        assert Scan(target, m, n) == Choice(m[n - 1].key, d);
        assert forall j :: 0 <= j < n - 1 ==> d < SqDist(target, m[j].key);
      }
    }
  }

  lemma SqDistZero(a: Key, b: Key)
    ensures SqDist(a, b) == 0 <==> a == b
  {
    if a.c0 != b.c0 {
      SquarePos(a.c0 - b.c0);
    }
    if a.c1 != b.c1 {
      SquarePos(a.c1 - b.c1);
    }
    if a.c2 != b.c2 {
      SquarePos(a.c2 - b.c2);
    }
  }

  lemma SquarePos(d: int)
    requires d != 0
    ensures Square(d) > 0
  {
    if d > 0 {
      Arith.MulPos(d, d);
    } else {
      Arith.MulPos(-d, -d);
    }
  }

  lemma SquareBound(a: nat, b: nat)
    requires a <= 255 && b <= 255
    ensures Square(a - b) <= 255 * 255
  {
    var d: nat := if a >= b then a - b else b - a;
    assert Square(a - b) == d * d;
    Arith.MulLeMono(d, 255, d);
    Arith.MulLeMono(d, 255, 255);
  }

  /** Two colours are always closer than the sentinel. */
  lemma ColoursWithinSentinel(a: Key, b: Key)
    requires IsColour(a) && IsColour(b)
    ensures SqDist(a, b) < Sentinel
  {
    SquareBound(a.c0, b.c0);
    SquareBound(a.c1, b.c1);
    SquareBound(a.c2, b.c2);
  }

  /** With no map entries every pixel becomes black. */
  lemma MatchEmpty(target: Key)
    ensures Match(target, []) == Key(0, 0, 0)
  {
  }

  /** A colour matched against a non-empty map of colours gets one of its
      keys: the nearest, the first of them on a tie. */
  lemma MatchIsNearestKey(target: Key, m: seq<Entry>)
    requires |m| > 0 && IsColour(target) && ColourKeys(m)
    ensures exists i :: 0 <= i < |m| && m[i].key == Match(target, m) &&
              (forall j :: 0 <= j < |m| ==> SqDist(target, m[i].key) <= SqDist(target, m[j].key)) &&
              (forall j :: 0 <= j < i ==> SqDist(target, m[i].key) < SqDist(target, m[j].key))
  {
    ScanIsFirstNearest(target, m, |m|);
    ColoursWithinSentinel(target, m[0].key);
  }

  /** A colour that is itself a key is matched to itself. */
  lemma MatchOfKey(target: Key, m: seq<Entry>)
    requires target in KeySet(m)
    ensures Match(target, m) == target
  {
    var k :| 0 <= k < |m| && m[k].key == target;
    SqDistZero(target, target);
    ScanIsFirstNearest(target, m, |m|);
    var c := Scan(target, m, |m|);
    assert c.distance == 0;
    var i :| 0 <= i < |m| && m[i].key == c.colour && SqDist(target, m[i].key) == c.distance;
    SqDistZero(target, m[i].key);
  }

  // ---------------------------------------------------------------------
  // The whole buffer

  /** The colour of pixel p of an RGB buffer. */
  function PixelColour(buf: seq<Byte>, p: nat): Key
    requires p * 3 + 3 <= |buf|
  {
    Key(buf[p * 3], buf[p * 3 + 1], buf[p * 3 + 2])
  }

  lemma PixelOfByte(i: nat, n: nat)
    requires i < n / 3 * 3
    ensures i / 3 * 3 + 3 <= n && i == i / 3 * 3 + i % 3
  {
  }

  /** The buffer after matching: each whole pixel takes its match, each
      channel narrowed to a byte; trailing bytes of a partial pixel stay. */
  function Recolour(buf: seq<Byte>, m: seq<Entry>): (r: seq<Byte>)
    ensures |r| == |buf|
  {
    seq(|buf|, i requires 0 <= i < |buf| =>
      if i < |buf| / 3 * 3 then
        PixelOfByte(i, |buf|);
        Match(PixelColour(buf, i / 3), m).At(i % 3) % 256
      else buf[i])
  }

  /** With an empty map every whole pixel is painted black. */
  lemma RecolourEmpty(buf: seq<Byte>)
    ensures forall i :: 0 <= i < |buf| / 3 * 3 ==> Recolour(buf, [])[i] == 0
  {
    forall i | 0 <= i < |buf| / 3 * 3 ensures Recolour(buf, [])[i] == 0 {
      PixelOfByte(i, |buf|);
      MatchEmpty(PixelColour(buf, i / 3));
    }
  }

  /** Byte j of whole pixel p after matching is channel j of its match. */
  lemma RecolourAt(buf: seq<Byte>, m: seq<Entry>, p: nat, j: nat)
    requires j < 3 && p * 3 + 3 <= |buf|
    ensures p * 3 + j < |Recolour(buf, m)|
    ensures Recolour(buf, m)[p * 3 + j] == Match(PixelColour(buf, p), m).At(j) % 256
  {
    var i := p * 3 + j;
    Arith.DivModUnique(i, 3, p, j);
    Arith.DivLeBound(i, |buf| / 3, 3) by {
      Arith.DivModUnique(|buf|, 3, |buf| / 3, |buf| % 3);
    }
    assert i < |buf| / 3 * 3 by {
      Arith.DivModUnique(|buf|, 3, |buf| / 3, |buf| % 3);
      Arith.DivLtBound(p * 3 + 2, 3, |buf| / 3) by {
        assert p * 3 + 2 < |buf|;
      }
    }
  }

  /** Bytes past the last whole pixel are left as they are. */
  lemma RecolourTail(buf: seq<Byte>, m: seq<Entry>, i: nat)
    requires |buf| / 3 * 3 <= i < |buf|
    ensures Recolour(buf, m)[i] == buf[i]
  {
  }

  lemma RecolouredPixel(buf: seq<Byte>, m: seq<Entry>, p: nat)
    requires p * 3 + 3 <= |buf|
    ensures p * 3 + 3 <= |Recolour(buf, m)|
    ensures var k := Match(PixelColour(buf, p), m);
      PixelColour(Recolour(buf, m), p) == Key(k.c0 % 256, k.c1 % 256, k.c2 % 256)
  {
    var k := Match(PixelColour(buf, p), m);
    var r := Recolour(buf, m);
    RecolourAt(buf, m, p, 0);
    assert r[p * 3] == k.c0 % 256;
    RecolourAt(buf, m, p, 1);
    assert r[p * 3 + 1] == k.c1 % 256;
    RecolourAt(buf, m, p, 2);
    assert r[p * 3 + 2] == k.c2 % 256;
    assert PixelColour(r, p) == Key(r[p * 3], r[p * 3 + 1], r[p * 3 + 2]);
  }

  /** The match of a colour against a non-empty map of colours is a key,
      and so a colour. */
  lemma MatchIsColourKey(target: Key, m: seq<Entry>)
    requires |m| > 0 && IsColour(target) && ColourKeys(m)
    ensures Match(target, m) in KeySet(m) && IsColour(Match(target, m))
  {
    MatchIsNearestKey(target, m);
    var i :| 0 <= i < |m| && m[i].key == Match(target, m);
    assert IsColour(m[i].key);
  }

  lemma NarrowColour(k: Key)
    requires IsColour(k)
    ensures Key(k.c0 % 256, k.c1 % 256, k.c2 % 256) == k
  {
  }

  /** After matching against a non-empty map of colours, every pixel's colour
      is a key of the map. */
  lemma RecolouredPixelsAreKeys(buf: seq<Byte>, m: seq<Entry>, p: nat)
    requires |m| > 0 && ColourKeys(m) && p * 3 + 3 <= |buf|
    ensures p * 3 + 3 <= |Recolour(buf, m)| && PixelColour(Recolour(buf, m), p) in KeySet(m)
  {
    RecolouredPixel(buf, m, p);
    var target := PixelColour(buf, p);
    MatchIsColourKey(target, m);
    NarrowColour(Match(target, m));
  }

  /** A pixel whose colour is already a key keeps its bytes. */
  lemma KeyPixelFixed(buf: seq<Byte>, m: seq<Entry>, p: nat, j: nat)
    requires j < 3 && p * 3 + 3 <= |buf|
    requires PixelColour(buf, p) in KeySet(m)
    ensures p * 3 + j < |Recolour(buf, m)| && Recolour(buf, m)[p * 3 + j] == buf[p * 3 + j]
  {
    MatchOfKey(PixelColour(buf, p), m);
    RecolourAt(buf, m, p, j);
  }

  /** One byte of a twice-matched buffer. */
  lemma RecolourFixedByte(buf: seq<Byte>, m: seq<Entry>, p: nat, j: nat)
    requires |m| > 0 && ColourKeys(m) && j < 3 && p * 3 + 3 <= |buf|
    ensures p * 3 + j < |Recolour(Recolour(buf, m), m)|
    ensures Recolour(Recolour(buf, m), m)[p * 3 + j] == Recolour(buf, m)[p * 3 + j]
  {
    RecolouredPixelsAreKeys(buf, m, p);
    KeyPixelFixed(Recolour(buf, m), m, p, j);
  }

  /** Matching twice is matching once. */
  lemma RecolourIdempotent(buf: seq<Byte>, m: seq<Entry>)
    requires ColourKeys(m)
    ensures Recolour(Recolour(buf, m), m) == Recolour(buf, m)
  {
    var r := Recolour(buf, m);
    var rr := Recolour(r, m);
    if m == [] {
      RecolourEmpty(buf);
      RecolourEmpty(r);
    }
    forall i | 0 <= i < |buf| ensures rr[i] == r[i] {
      if i < |buf| / 3 * 3 && m == [] {
        assert rr[i] == 0 && r[i] == 0;
      } else if i < |buf| / 3 * 3 {
        PixelOfByte(i, |buf|);
        RecolourFixedByte(buf, m, i / 3, i % 3);
      } else {
        RecolourTail(buf, m, i);
        RecolourTail(r, m, i);
      }
    }
  }

  /** Black and white against a dark grey: the grey is painted black. */
  lemma NearestExample()
    ensures Match(Key(10, 10, 10), [Entry(Key(0, 0, 0), []), Entry(Key(255, 255, 255), [])]) == Key(0, 0, 0)
  {
    var m := [Entry(Key(0, 0, 0), []), Entry(Key(255, 255, 255), [])];
    assert SqDist(Key(10, 10, 10), Key(0, 0, 0)) == 300;
    assert Scan(Key(10, 10, 10), m, 1) == Choice(Key(0, 0, 0), 300);
  }

  /** The buffer with its first n bytes matched and the rest untouched. */
  function Painted(buf: seq<Byte>, m: seq<Entry>, n: nat): (r: seq<Byte>)
    requires n <= |buf|
    ensures |r| == |buf|
  {
    Recolour(buf, m)[..n] + buf[n..]
  }

  lemma PaintStep(buf: seq<Byte>, m: seq<Entry>, n: nat)
    requires n < |buf|
    ensures Painted(buf, m, n + 1) == Painted(buf, m, n)[n := Recolour(buf, m)[n]]
  {
  }

  /** Painting byte j of whole pixel p writes channel j of the pixel's match. */
  lemma PaintByte(buf: seq<Byte>, m: seq<Entry>, p: nat, j: nat, index: nat, colour: Key,
                  before: seq<Byte>, after: seq<Byte>)
    requires j < 3 && p * 3 + 3 <= |buf| && index == p * 3 + j
    requires colour == Match(PixelColour(buf, p), m)
    requires before == Painted(buf, m, index) && index < |before|
    requires after == before[index := colour.At(j) % 256]
    ensures index + 1 <= |buf| && after == Painted(buf, m, index + 1)
  {
    RecolourAt(buf, m, p, j);
    PaintStep(buf, m, index);
  }

  lemma PaintedAll(buf: seq<Byte>, m: seq<Entry>)
    ensures |buf| / 3 * 3 <= |buf|
    ensures Painted(buf, m, |buf| / 3 * 3) == Recolour(buf, m)
  {
    var n := |buf| / 3 * 3;
    forall i | n <= i < |buf| ensures Recolour(buf, m)[i] == buf[i] {
      RecolourTail(buf, m, i);
    }
  }

  /** The nearest key to `target`, found as `apply_source_palette` finds
      it: a scan keeping a strictly closer key each time. */
  method Nearest(target: Key, sourceColors: seq<Entry>) returns (colour: Key)
    ensures colour == Match(target, sourceColors)
  {
    colour := Key(0, 0, 0);
    var lastDistance: nat := Sentinel;
    for e := 0 to |sourceColors|
      invariant Scan(target, sourceColors, e) == Choice(colour, lastDistance)
    {
      var averageColor := sourceColors[e].key;
      var distance: nat := 0;
      for value := 0 to 3
        invariant distance == PartialSqDist(target, averageColor, value)
      {
        var d := target.At(value) - averageColor.At(value);
        distance := distance + Square(d);
      }
      FullSqDist(target, averageColor);
      if distance < lastDistance {
        lastDistance := distance;
        colour := averageColor;
      }
    }
  }

  /** The inner loop of `apply_source_palette`: the three channels of whole
      pixel `interval` receive its match, which paints one more pixel. */
  method PaintPixel(targetColorBuffer: array<Byte>, interval: nat, colour: Key,
                    sourceColors: seq<Entry>, ghost original: seq<Byte>)
    requires targetColorBuffer.Length == |original| && interval * 3 + 3 <= |original|
    requires colour == Match(PixelColour(original, interval), sourceColors)
    requires targetColorBuffer[..] == Painted(original, sourceColors, interval * 3)
    modifies targetColorBuffer
    ensures targetColorBuffer[..] == Painted(original, sourceColors, interval * 3 + 3)
  {
    for tempInterval := 0 to 3
      invariant targetColorBuffer[..] == Painted(original, sourceColors, interval * 3 + tempInterval)
    {
      var index := interval * 3 + tempInterval;
      ghost var before := targetColorBuffer[..];
      targetColorBuffer[index] := colour.At(tempInterval) % 256;
      PaintByte(original, sourceColors, interval, tempInterval, index, colour,
                before, targetColorBuffer[..]);
    }
  }

  /** `apply_source_palette`, in place on the target's colour buffer: each
      whole pixel in turn gets its nearest key, written channel by channel. */
  method ApplySourcePalette(targetColorBuffer: array<Byte>, sourceColors: seq<Entry>)
    modifies targetColorBuffer
    ensures targetColorBuffer[..] == Recolour(old(targetColorBuffer[..]), sourceColors)
  {
    ghost var original := targetColorBuffer[..];
    var n := targetColorBuffer.Length;
    for interval := 0 to n / 3
      invariant interval * 3 <= n
      invariant targetColorBuffer[..] == Painted(original, sourceColors, interval * 3)
    {
      var target := Key(targetColorBuffer[interval * 3], targetColorBuffer[interval * 3 + 1],
                        targetColorBuffer[interval * 3 + 2]);
      assert target == PixelColour(original, interval);
      var tempTargetColor := Nearest(target, sourceColors);
      PaintPixel(targetColorBuffer, interval, tempTargetColor, sourceColors, original);
    }
    PaintedAll(original, sourceColors);
  }

  /** The squared distance over the first `count` channels. */
  function PartialSqDist(a: Key, b: Key, count: nat): nat
    requires count <= 3
  {
    if count == 0 then 0
    else PartialSqDist(a, b, count - 1) + Square(a.At(count - 1) - b.At(count - 1))
  }

  lemma FullSqDist(a: Key, b: Key)
    ensures PartialSqDist(a, b, 3) == SqDist(a, b)
  {
    assert PartialSqDist(a, b, 1) == Square(a.c0 - b.c0);
    assert PartialSqDist(a, b, 2) == Square(a.c0 - b.c0) + Square(a.c1 - b.c1);
  }
}
