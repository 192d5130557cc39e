/** The source map built by `generate_source_map`: each tile keyed by its
    average colour. The HashMap is modelled as a sequence of entries with
    pairwise distinct keys; `insert` on a present key replaces its tile. */
module Catalog {
  import opened Common
  import Arith

  /** An average colour: the `Vec<u32>` of one value per channel, of
      length 3 in the program, written here as a triple. */
  datatype Key = Key(c0: nat, c1: nat, c2: nat)
  {
    function At(j: nat): nat
      requires j < 3
    {
      if j == 0 then c0 else if j == 1 then c1 else c2
    }
  }

  datatype Entry = Entry(key: Key, tile: seq<Byte>)

  predicate DistinctKeys(m: seq<Entry>)
  {
    forall i, j :: 0 <= i < j < |m| ==> m[i].key != m[j].key
  }

  function KeySet(m: seq<Entry>): set<Key>
  {
    set i | 0 <= i < |m| :: m[i].key
  }

  /** `source_colors.get(key)` */
  function Lookup(m: seq<Entry>, key: Key): (r: Option<seq<Byte>>)
    ensures r.Some? <==> key in KeySet(m)
    ensures r.Some? ==> Entry(key, r.value) in m
  {
    if |m| == 0 then None
    else if m[0].key == key then Some(m[0].tile)
    else
      var r := Lookup(m[1..], key);
      assert KeySet(m) == {m[0].key} + KeySet(m[1..]) by {
        forall k | k in KeySet(m) ensures k in {m[0].key} + KeySet(m[1..]) {
          var i :| 0 <= i < |m| && m[i].key == k;
          if i > 0 {
            assert m[1..][i - 1].key == k;
          }
        }
      }
      r
  }

  /** `source_colors.insert(key, tile)`: an entry already holding `key`
      has its tile replaced, otherwise a new entry is added. */
  function Insert(m: seq<Entry>, key: Key, tile: seq<Byte>): (r: seq<Entry>)
    ensures |r| == if key in KeySet(m) then |m| else |m| + 1
    ensures KeySet(r) == KeySet(m) + {key}
  {
    if |m| == 0 then
      var r := [Entry(key, tile)];
      SplitKeys(r);
      assert r[1..] == [];
      r
    else if m[0].key == key then
      var r := [Entry(key, tile)] + m[1..];
      assert r[1..] == m[1..];
      SplitKeys(r);
      SplitKeys(m);
      r
    else
      var rest := Insert(m[1..], key, tile);
      var r := [m[0]] + rest;
      assert r[1..] == rest;
      SplitKeys(r);
      SplitKeys(m);
      r
  }

  /** After the insertion `key` maps to `tile` and every other key keeps
      what it mapped to. */
  lemma {:induction false} InsertLookup(m: seq<Entry>, key: Key, tile: seq<Byte>, k: Key)
    ensures Lookup(Insert(m, key, tile), k) == if k == key then Some(tile) else Lookup(m, k)
  {
    if |m| > 0 && m[0].key != key {
      InsertLookup(m[1..], key, tile, k);
      assert Insert(m, key, tile)[1..] == Insert(m[1..], key, tile);
    } else if |m| > 0 {
      assert Insert(m, key, tile)[1..] == m[1..];
    }
  }

  /** Insertion keeps the keys pairwise distinct. */
  lemma {:induction false} InsertDistinct(m: seq<Entry>, key: Key, tile: seq<Byte>)
    requires DistinctKeys(m)
    ensures DistinctKeys(Insert(m, key, tile))
  {
    var r := Insert(m, key, tile);
    if |m| > 0 && m[0].key != key {
      var rest := Insert(m[1..], key, tile);
      assert r[1..] == rest;
      InsertDistinct(m[1..], key, tile);
      SplitKeys(m);
      assert m[0].key !in KeySet(m[1..]) by {
        forall i | 0 <= i < |m[1..]| ensures m[1..][i].key != m[0].key {
          assert m[1..][i] == m[i + 1];
        }
      }
      forall i, j | 0 <= i < j < |r| ensures r[i].key != r[j].key {
        if i == 0 {
          assert r[j] == rest[j - 1];
          assert r[j].key in KeySet(rest);
        }
      }
    } else if |m| > 0 {
      assert r[1..] == m[1..];
      forall i, j | 0 <= i < j < |r| ensures r[i].key != r[j].key {
        assert r[j] == m[j];
        if i > 0 {
          assert r[i] == m[i];
        }
      }
    }
  }

  /** Every entry after the insertion was there before or is the new one. */
  lemma {:induction false} InsertEntries(m: seq<Entry>, key: Key, tile: seq<Byte>)
    ensures forall e :: e in Insert(m, key, tile) ==> e in m || e == Entry(key, tile)
  {
    if |m| > 0 && m[0].key != key {
      InsertEntries(m[1..], key, tile);
      assert Insert(m, key, tile) == [m[0]] + Insert(m[1..], key, tile);
    } else if |m| > 0 {
      assert Insert(m, key, tile) == [Entry(key, tile)] + m[1..];
    }
  }

  lemma SplitKeys(m: seq<Entry>)
    requires |m| > 0
    ensures KeySet(m) == {m[0].key} + KeySet(m[1..])
  {
    forall k | k in KeySet(m) ensures k in {m[0].key} + KeySet(m[1..]) {
      var i :| 0 <= i < |m| && m[i].key == k;
      if i > 0 {
        assert m[1..][i - 1].key == k;
      }
    }
    forall k | k in KeySet(m[1..]) ensures k in KeySet(m) {
      var i :| 0 <= i < |m[1..]| && m[1..][i].key == k;
      assert m[i + 1].key == k;
    }
  }

  /** With distinct keys, an entry of the map is what Lookup finds. */
  lemma {:induction false} LookupDistinct(m: seq<Entry>, i: nat)
    requires DistinctKeys(m) && i < |m|
    ensures Lookup(m, m[i].key) == Some(m[i].tile)
  {
    if i > 0 {
      assert m[0].key != m[i].key;
      assert m[1..][i - 1] == m[i];
      LookupDistinct(m[1..], i - 1);
    }
  }

  // ---------------------------------------------------------------------
  // Average colours

  /** The total of channel j (the bytes at positions congruent to j modulo
      3) among tile[..n]. */
  function ChannelTotal(tile: seq<Byte>, j: nat, n: nat): nat
    requires n <= |tile|
  {
    if n == 0 then 0
    else ChannelTotal(tile, j, n - 1) + (if (n - 1) % 3 == j then tile[n - 1] else 0)
  }

  /** The key `generate_source_map` computes for a tile: each channel total
      divided by the number of whole pixels. */
  function TileMean(tile: seq<Byte>): Key
    requires |tile| >= 3
  {
    var pixels := |tile| / 3;
    Key(Average(ChannelTotal(tile, 0, |tile|), pixels),
        Average(ChannelTotal(tile, 1, |tile|), pixels),
        Average(ChannelTotal(tile, 2, |tile|), pixels))
  }

  /** `*color /= current_interval / final_color_type` */
  function Average(total: nat, pixels: nat): nat
    requires pixels > 0
  {
    total / pixels
  }

  lemma {:induction false} ChannelTotalBound(tile: seq<Byte>, j: nat, m: nat)
    requires j < 3 && 3 * m <= |tile|
    ensures ChannelTotal(tile, j, 3 * m) <= 255 * m
  {
    if m > 0 {
      ChannelTotalBound(tile, j, m - 1);
      var n := 3 * m;
      assert (n - 3) % 3 == 0 && (n - 2) % 3 == 1 && (n - 1) % 3 == 2;
      assert ChannelTotal(tile, j, n - 2) <= ChannelTotal(tile, j, n - 3) + (if j == 0 then 255 else 0);
      assert ChannelTotal(tile, j, n - 1) <= ChannelTotal(tile, j, n - 2) + (if j == 1 then 255 else 0);
      assert ChannelTotal(tile, j, n) <= ChannelTotal(tile, j, n - 1) + (if j == 2 then 255 else 0);
    }
  }

  /** The average colour of a tile of whole pixels is a colour: no channel
      exceeds 255. */
  lemma TileMeanIsColour(tile: seq<Byte>)
    requires |tile| >= 3 && |tile| % 3 == 0
    ensures forall j :: 0 <= j < 3 ==> TileMean(tile).At(j) <= 255
  {
    var m := |tile| / 3;
    assert |tile| == 3 * m;
    forall j | 0 <= j < 3 ensures TileMean(tile).At(j) <= 255 {
      ChannelTotalBound(tile, j, m);
      DivAtMost(ChannelTotal(tile, j, |tile|), m);
    }
  }

  lemma DivAtMost(total: nat, m: nat)
    requires m > 0 && total <= 255 * m
    ensures total / m <= 255
  {
    Arith.DivLeBound(total, 255, m);
  }

  /** A key every channel of which fits a byte. */
  predicate IsColour(k: Key)
  {
    k.c0 <= 255 && k.c1 <= 255 && k.c2 <= 255
  }

  predicate ColourKeys(m: seq<Entry>)
  {
    forall i :: 0 <= i < |m| ==> IsColour(m[i].key)
  }

  // ---------------------------------------------------------------------
  // The whole map

  predicate AllTilesNonEmpty(tiles: seq<seq<Byte>>)
  {
    forall i :: 0 <= i < |tiles| ==> |tiles[i]| >= 3
  }

  /** The map after inserting every tile, in order, under its average. */
  function BuildMap(tiles: seq<seq<Byte>>): (m: seq<Entry>)
    requires AllTilesNonEmpty(tiles)
    ensures DistinctKeys(m)
    ensures |m| <= |tiles|
  {
    if |tiles| == 0 then []
    else
      var last := tiles[|tiles| - 1];
      var init := BuildMap(tiles[..|tiles| - 1]);
      InsertDistinct(init, TileMean(last), last);
      Insert(init, TileMean(last), last)
  }

  /** The last tile whose average is `key`, searching from the end. */
  function LastWithMean(tiles: seq<seq<Byte>>, key: Key): Option<seq<Byte>>
    requires AllTilesNonEmpty(tiles)
  {
    if |tiles| == 0 then None
    else if TileMean(tiles[|tiles| - 1]) == key then Some(tiles[|tiles| - 1])
    else LastWithMean(tiles[..|tiles| - 1], key)
  }

  /** When tile i has average `key` and no later tile does, LastWithMean
      finds tile i. */
  lemma {:induction false} LastWithMeanIs(tiles: seq<seq<Byte>>, key: Key, i: nat)
    requires AllTilesNonEmpty(tiles) && i < |tiles| && TileMean(tiles[i]) == key
    requires forall j :: i < j < |tiles| ==> TileMean(tiles[j]) != key
    ensures LastWithMean(tiles, key) == Some(tiles[i])
  {
    var n := |tiles| - 1;
    if i < n {
      var init := tiles[..n];
      assert init[i] == tiles[i];
      forall j | i < j < |init| ensures TileMean(init[j]) != key {
        assert init[j] == tiles[j];
      }
      LastWithMeanIs(init, key, i);
    }
  }

  /** When no tile has average `key`, LastWithMean finds nothing. */
  lemma {:induction false} LastWithMeanNone(tiles: seq<seq<Byte>>, key: Key)
    requires AllTilesNonEmpty(tiles)
    requires forall j :: 0 <= j < |tiles| ==> TileMean(tiles[j]) != key
    ensures LastWithMean(tiles, key) == None
  {
    if |tiles| > 0 {
      var init := tiles[..|tiles| - 1];
      forall j | 0 <= j < |init| ensures TileMean(init[j]) != key {
        assert init[j] == tiles[j];
      }
      LastWithMeanNone(init, key);
    }
  }

  /** Looking a key up in the built map finds the last tile with that
      average: later tiles with the same average overwrite earlier ones. */
  lemma {:induction false} BuildMapLookup(tiles: seq<seq<Byte>>, key: Key)
    requires AllTilesNonEmpty(tiles)
    ensures Lookup(BuildMap(tiles), key) == LastWithMean(tiles, key)
  {
    if |tiles| > 0 {
      var last := tiles[|tiles| - 1];
      BuildMapLookup(tiles[..|tiles| - 1], key);
      InsertLookup(BuildMap(tiles[..|tiles| - 1]), TileMean(last), last, key);
    }
  }

  /** Tiles of whole pixels give a map whose keys are all colours. */
  lemma {:induction false} BuildMapColourKeys(tiles: seq<seq<Byte>>)
    requires AllTilesNonEmpty(tiles)
    requires forall i :: 0 <= i < |tiles| ==> |tiles[i]| % 3 == 0
    ensures ColourKeys(BuildMap(tiles))
  {
    if |tiles| > 0 {
      var n := |tiles| - 1;
      var last := tiles[n];
      var init := BuildMap(tiles[..n]);
      BuildMapColourKeys(tiles[..n]);
      TileMeanIsColour(last);
      assert IsColour(TileMean(last)) by {
        assert TileMean(last).At(0) <= 255 && TileMean(last).At(1) <= 255 && TileMean(last).At(2) <= 255;
      }
      InsertEntries(init, TileMean(last), last);
      var m := Insert(init, TileMean(last), last);
      forall i | 0 <= i < |m| ensures IsColour(m[i].key) {
        assert m[i] in m;
      }
    }
  }

  /** LastWithMean finds a tile exactly when some tile has average `key`,
      and what it finds is one of the tiles. */
  lemma {:induction false} LastWithMeanFound(tiles: seq<seq<Byte>>, key: Key)
    requires AllTilesNonEmpty(tiles)
    ensures LastWithMean(tiles, key).Some? <==> exists i :: 0 <= i < |tiles| && TileMean(tiles[i]) == key
    ensures LastWithMean(tiles, key).Some? ==> LastWithMean(tiles, key).value in tiles
  {
    if |tiles| > 0 {
      var n := |tiles| - 1;
      var init := tiles[..n];
      assert forall i :: 0 <= i < n ==> init[i] == tiles[i];
      LastWithMeanFound(init, key);
      if TileMean(tiles[n]) == key {
        assert tiles[n] in tiles;
      } else {
        assert LastWithMean(tiles, key) == LastWithMean(init, key);
        assert forall i :: 0 <= i < |tiles| && TileMean(tiles[i]) == key ==> i < n;
      }
    }
  }

  /** The keys of the built map are exactly the averages of the tiles, and
      every tile it holds is one of the tiles. */
  lemma BuildMapKeySet(tiles: seq<seq<Byte>>, key: Key)
    requires AllTilesNonEmpty(tiles)
    ensures key in KeySet(BuildMap(tiles)) <==> exists i :: 0 <= i < |tiles| && TileMean(tiles[i]) == key
    ensures Lookup(BuildMap(tiles), key).Some? ==> Lookup(BuildMap(tiles), key).value in tiles
  {
    BuildMapLookup(tiles, key);
    LastWithMeanFound(tiles, key);
  }

  /** Some tile gives some entry. */
  lemma BuildMapNonEmpty(tiles: seq<seq<Byte>>)
    requires AllTilesNonEmpty(tiles) && |tiles| > 0
    ensures |BuildMap(tiles)| > 0
  {
    BuildMapKeySet(tiles, TileMean(tiles[0]));
  }

  /** Byte n is added to the total of channel n % 3 only. */
  lemma ChannelTotalStep(tile: seq<Byte>, n: nat, k: nat)
    requires n < |tile| && k == n % 3
    ensures k < 3
    ensures forall j :: 0 <= j < 3 ==>
      ChannelTotal(tile, j, n + 1) == ChannelTotal(tile, j, n) + (if j == k then tile[n] else 0)
  {
  }

  /** The inner loops of `generate_source_map`: the channel totals of one
      tile, then each divided by the tile's number of pixels. */
  method AverageColor(tile: seq<Byte>) returns (key: Key)
    requires |tile| >= 3
    ensures key == TileMean(tile)
  {
    var averageColor := new nat[3](_ => 0);
    var currentInterval := 0;
    for n := 0 to |tile|
      invariant currentInterval == n
      invariant forall j :: 0 <= j < 3 ==> averageColor[j] == ChannelTotal(tile, j, n)
    {
      var k := currentInterval % 3;
      ChannelTotalStep(tile, n, k);
      averageColor[k] := averageColor[k] + tile[n];
      currentInterval := currentInterval + 1;
    }
    ghost var totals := averageColor[..];
    var pixels: nat := currentInterval / 3;
    assert pixels == |tile| / 3 > 0;
    for j := 0 to 3
      invariant forall i :: 0 <= i < j ==> averageColor[i] == Average(totals[i], pixels)
      invariant forall i :: j <= i < 3 ==> averageColor[i] == totals[i]
    {
      averageColor[j] := averageColor[j] / pixels;
    }
    key := Key(averageColor[0], averageColor[1], averageColor[2]);
  }

  /** `generate_source_map`: each tile, in order, inserted under its
      average colour. */
  method GenerateSourceMap(tiles: seq<seq<Byte>>) returns (sourceColors: seq<Entry>)
    requires AllTilesNonEmpty(tiles)
    ensures sourceColors == BuildMap(tiles)
  {
    sourceColors := [];
    for t := 0 to |tiles|
      invariant sourceColors == BuildMap(tiles[..t])
    {
      var tile := tiles[t];
      var averageColor := AverageColor(tile);
      assert tiles[..t + 1][..t] == tiles[..t];
      sourceColors := Insert(sourceColors, averageColor, tile);
    }
    assert tiles[..|tiles|] == tiles;
  }
}
