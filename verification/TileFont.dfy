/** The packed reader font: width bits, four tile numbers per glyph, and each distinct 8x8 tile once. */
module TileFont {
  import opened Bytes
  import opened Wrappers

  const GLYPH_SIZE: nat := 33
  const TILE_SIZE: nat := 8
  const TILES_PER_GLYPH: nat := 4
  const MAXIMUM_TILES: nat := 0x1_0000

  type Tile = t: seq<byte> | |t| == TILE_SIZE witness [0, 0, 0, 0, 0, 0, 0, 0]

  // --- bits of a byte -----------------------------------------------------------------

  function BitAt(b: nat, k: nat): bool {
    if k == 0 then b % 2 == 1 else BitAt(b / 2, k - 1)
  }

  /** `b` with bit `k` set. */
  function WithBit(b: nat, k: nat): nat {
    if k == 0 then b / 2 * 2 + 1 else 2 * WithBit(b / 2, k - 1) + b % 2
  }

  function Power(n: nat): nat { if n == 0 then 1 else 2 * Power(n - 1) }

  lemma {:induction false} BitsAfterSet(b: nat, k: nat, j: nat)
    ensures BitAt(WithBit(b, k), j) <==> j == k || BitAt(b, j)
  {
    if k > 0 {
      var rest := WithBit(b / 2, k - 1);
      assert (2 * rest + b % 2) / 2 == rest && (2 * rest + b % 2) % 2 == b % 2;
      if j > 0 {
        BitsAfterSet(b / 2, k - 1, j - 1);
      }
    } else if j > 0 {
      assert (b / 2 * 2 + 1) / 2 == b / 2;
    }
  }

  lemma HalfStaysBelow(b: nat, p: nat)
    requires b < 2 * p
    ensures b / 2 < p && b / 2 * 2 + 1 < 2 * p
  {
  }

  lemma {:induction false} SetStaysSmall(b: nat, k: nat, n: nat)
    requires b < Power(n) && k < n
    ensures WithBit(b, k) < Power(n)
  {
    HalfStaysBelow(b, Power(n - 1));
    if k > 0 {
      SetStaysSmall(b / 2, k - 1, n - 1);
    }
  }

  lemma {:induction false} ZeroHasNoBits(k: nat)
    ensures !BitAt(0, k)
  {
    if k > 0 {
      ZeroHasNoBits(k - 1);
    }
  }

  // --- what packing means --------------------------------------------------------------

  /** Where row `row` of tile `t` lies in a glyph, and which row of which tile lies at byte `1 + p` of it. */
  function Place(t: nat, row: nat): (p: nat)
    ensures t < TILES_PER_GLYPH && row < TILE_SIZE ==> 1 <= p < GLYPH_SIZE
  {
    1 + (t / 2 * 8 + row) * 2 + t % 2
  }

  function TileNumber(p: nat): (t: nat)
    ensures p < 32 ==> t < TILES_PER_GLYPH
  {
    p / 16 * 2 + p % 2
  }

  function RowNumber(p: nat): (row: nat)
    ensures row < TILE_SIZE
  {
    p / 2 % 8
  }

  lemma OnePlace(t: nat, row: nat)
    requires t < TILES_PER_GLYPH && row < TILE_SIZE
    ensures TileNumber(Place(t, row) - 1) == t && RowNumber(Place(t, row) - 1) == row
  {
    var a, b := t / 2, t % 2;
    var q := 16 * a + 2 * row + b;
    assert t == 2 * a + b && Place(t, row) == 1 + q;
    assert q / 16 == a && q % 2 == b && q / 2 == 8 * a + row;
  }

  lemma OnePosition(p: nat)
    requires p < 32
    ensures Place(TileNumber(p), RowNumber(p)) == 1 + p
  {
    var a, b, row := p / 16, p % 2, p / 2 % 8;
    assert p / 2 == 8 * a + row && p == 2 * (p / 2) + b;
    assert (2 * a + b) / 2 == a && (2 * a + b) % 2 == b;
  }

  /** The two readings of a position are inverse. */
  lemma PlacesAreDistinct()
    ensures forall p: nat :: p < 32 ==> Place(TileNumber(p), RowNumber(p)) == 1 + p
    ensures forall t: nat, row: nat :: t < TILES_PER_GLYPH && row < TILE_SIZE ==>
      TileNumber(Place(t, row) - 1) == t && RowNumber(Place(t, row) - 1) == row
  {
    hide Place, TileNumber, RowNumber;
    forall p: nat | p < 32
      ensures Place(TileNumber(p), RowNumber(p)) == 1 + p
    {
      OnePosition(p);
    }
    forall t: nat, row: nat | t < TILES_PER_GLYPH && row < TILE_SIZE
      ensures TileNumber(Place(t, row) - 1) == t && RowNumber(Place(t, row) - 1) == row
    {
      OnePlace(t, row);
    }
  }

  function WidthBytes(count: nat): nat { (count + 7) / 8 }

  /** Tile `t` of a glyph: rows 0-7 and then 8-15, left column and then right. */
  function TileOf(glyph: seq<byte>, t: nat): Tile
    requires |glyph| == GLYPH_SIZE && t < TILES_PER_GLYPH
  {
    seq(TILE_SIZE, row requires 0 <= row < TILE_SIZE => glyph[Place(t, row)])
  }

  function GlyphAt(raw: seq<byte>, index: nat): (g: seq<byte>)
    requires GLYPH_SIZE * index + GLYPH_SIZE <= |raw|
    ensures |g| == GLYPH_SIZE
  {
    raw[GLYPH_SIZE * index..GLYPH_SIZE * index + GLYPH_SIZE]
  }

  function TileAt(raw: seq<byte>, k: nat): Tile
    requires GLYPH_SIZE * (k / TILES_PER_GLYPH) + GLYPH_SIZE <= |raw|
  {
    TileOf(GlyphAt(raw, k / TILES_PER_GLYPH), k % TILES_PER_GLYPH)
  }

  predicate WholeGlyphs(raw: seq<byte>) { |raw| % GLYPH_SIZE == 0 }

  function Count(raw: seq<byte>): nat { |raw| / GLYPH_SIZE }

  /** The distinct tiles among the first `k`, in order of first occurrence. */
  function Dictionary(raw: seq<byte>, k: nat): (d: seq<Tile>)
    requires WholeGlyphs(raw) && k <= TILES_PER_GLYPH * Count(raw)
  {
    if k == 0 then []
    else
      var d := Dictionary(raw, k - 1);
      if TileAt(raw, k - 1) in d then d else d + [TileAt(raw, k - 1)]
  }

  predicate Packable(raw: seq<byte>) {
    raw != [] && WholeGlyphs(raw) &&
    (forall i :: 0 <= i < Count(raw) ==> raw[GLYPH_SIZE * i] == 8 || raw[GLYPH_SIZE * i] == 16) &&
    |Dictionary(raw, TILES_PER_GLYPH * Count(raw))| <= MAXIMUM_TILES
  }

  function IdBytes(s: seq<byte>, base: nat, k: nat): uint16
    requires base + 2 * k + 2 <= |s|
  {
    Get16(s[base + 2 * k..base + 2 * k + 2])
  }

  /** Every width bit, every tile number and every tile is where it belongs. */
  ghost predicate Packs(packed: seq<byte>, raw: seq<byte>)
    requires WholeGlyphs(raw)
  {
    var count := Count(raw);
    var tiles := Dictionary(raw, TILES_PER_GLYPH * count);
    var base := WidthBytes(count);
    |packed| == base + 8 * count + TILE_SIZE * |tiles| &&
    (forall i :: 0 <= i < count ==> (BitAt(packed[i / 8] as nat, i % 8) <==> raw[GLYPH_SIZE * i] == 16)) &&
    (forall k :: 0 <= k < TILES_PER_GLYPH * count ==>
      IdBytes(packed, base, k) as nat < |tiles| && tiles[IdBytes(packed, base, k)] == TileAt(raw, k)) &&
    forall d :: 0 <= d < |tiles| ==> TileIn(packed, base + 8 * count, d) == tiles[d]
  }

  function TileIn(packed: seq<byte>, base: nat, d: nat): seq<byte>
    requires base + TILE_SIZE * d + TILE_SIZE <= |packed|
  {
    packed[base + TILE_SIZE * d..base + TILE_SIZE * d + TILE_SIZE]
  }

  /** The dictionary holds exactly the tiles that occur, and none twice. */
  lemma {:induction false} DictionaryIsExact(raw: seq<byte>, k: nat)
    requires WholeGlyphs(raw) && k <= TILES_PER_GLYPH * Count(raw)
    ensures var d := Dictionary(raw, k);
            (forall i, j :: 0 <= i < j < |d| ==> d[i] != d[j]) &&
            (forall i :: 0 <= i < k ==> TileAt(raw, i) in d) &&
            forall t <- d :: exists i :: 0 <= i < k && TileAt(raw, i) == t
  {
    hide TileAt;
    if k > 0 {
      DictionaryIsExact(raw, k - 1);
      assert TileAt(raw, k - 1) in Dictionary(raw, k);
    }
  }

  lemma {:induction false} DictionaryGrows(raw: seq<byte>, k: nat, m: nat)
    requires WholeGlyphs(raw) && k <= m <= TILES_PER_GLYPH * Count(raw)
    ensures Dictionary(raw, k) <= Dictionary(raw, m)
  {
    if k < m {
      DictionaryGrows(raw, k, m - 1);
    }
  }

  // --- packing -----------------------------------------------------------------------------

  function Joined(tiles: seq<Tile>): (s: seq<byte>)
    ensures |s| == TILE_SIZE * |tiles|
  {
    if tiles == [] then [] else Joined(tiles[..|tiles| - 1]) + tiles[|tiles| - 1]
  }

  lemma {:induction false} JoinedAt(tiles: seq<Tile>, d: nat)
    requires d < |tiles|
    ensures TileIn(Joined(tiles), 0, d) == tiles[d]
  {
    var front := tiles[..|tiles| - 1];
    if d < |front| {
      JoinedAt(front, d);
      assert TileIn(Joined(tiles), 0, d) == TileIn(Joined(front), 0, d);
    }
  }

  /** The tile numbers written so far name the tiles read so far. */
  ghost predicate Numbered(raw: seq<byte>, indices: seq<byte>, k: nat)
    requires WholeGlyphs(raw) && k <= TILES_PER_GLYPH * Count(raw)
  {
    var d := Dictionary(raw, k);
    |indices| == 2 * k &&
    forall j :: 0 <= j < k ==> IdBytes(indices, 0, j) as nat < |d| && d[IdBytes(indices, 0, j)] == TileAt(raw, j)
  }

  ghost predicate Lookup(ids: map<Tile, nat>, order: seq<Tile>) {
    (forall t <- ids :: ids[t] < |order| && order[ids[t]] == t) && forall t <- order :: t in ids
  }

  lemma NumberedGrows(raw: seq<byte>, indices: seq<byte>, k: nat, id: nat)
    requires WholeGlyphs(raw) && k < TILES_PER_GLYPH * Count(raw) && Numbered(raw, indices, k)
    requires id < MAXIMUM_TILES && id < |Dictionary(raw, k + 1)| && Dictionary(raw, k + 1)[id] == TileAt(raw, k)
    ensures Numbered(raw, indices + Le16(id as uint16), k + 1)
  {
    hide Le16, Get16;
    var more := indices + Le16(id as uint16);
    Get16Le16(id as uint16);
    assert more[2 * k..2 * k + 2] == Le16(id as uint16);
    forall j | 0 <= j < k
      ensures IdBytes(more, 0, j) == IdBytes(indices, 0, j)
    {
      assert more[2 * j..2 * j + 2] == indices[2 * j..2 * j + 2];
    }
  }

  /** The width bits of the first `n` glyphs are set, and no other. */
  ghost predicate Widths(raw: seq<byte>, widths: seq<byte>, n: nat)
    requires WholeGlyphs(raw)
  {
    |widths| == WidthBytes(Count(raw)) &&
    forall i :: 0 <= i < Count(raw) ==> (BitAt(widths[i / 8] as nat, i % 8) <==> i < n && raw[GLYPH_SIZE * i] == 16)
  }

  lemma WidthsGrow(raw: seq<byte>, widths: seq<byte>, n: nat)
    requires WholeGlyphs(raw) && n < Count(raw) && Widths(raw, widths, n)
    ensures |widths| == WidthBytes(Count(raw)) && WithBit(widths[n / 8] as nat, n % 8) < 0x100
    ensures Widths(raw, if raw[GLYPH_SIZE * n] == 16 then widths[n / 8 := WithBit(widths[n / 8] as nat, n % 8) as byte]
                        else widths, n + 1)
  {
    var was := widths[n / 8] as nat;
    assert Power(8) == 0x100;
    SetStaysSmall(was, n % 8, 8);
    forall i | 0 <= i < Count(raw) && i / 8 == n / 8
      ensures BitAt(WithBit(was, n % 8), i % 8) <==> i == n || BitAt(was, i % 8)
    {
      BitsAfterSet(was, n % 8, i % 8);
    }
  }

  lemma NoWidths(raw: seq<byte>, widths: seq<byte>)
    requires WholeGlyphs(raw) && |widths| == WidthBytes(Count(raw)) && forall i :: 0 <= i < |widths| ==> widths[i] == 0
    ensures Widths(raw, widths, 0)
  {
    forall i | 0 <= i < Count(raw)
      ensures !BitAt(widths[i / 8] as nat, i % 8)
    {
      ZeroHasNoBits(i % 8);
    }
  }

  lemma PartsPack(raw: seq<byte>, widths: seq<byte>, indices: seq<byte>)
    requires WholeGlyphs(raw) && Widths(raw, widths, Count(raw)) && Numbered(raw, indices, TILES_PER_GLYPH * Count(raw))
    ensures Packs(widths + indices + Joined(Dictionary(raw, TILES_PER_GLYPH * Count(raw))), raw)
  {
    hide Dictionary, TileAt, Get16;
    var count := Count(raw);
    var tiles := Dictionary(raw, TILES_PER_GLYPH * count);
    var base := WidthBytes(count);
    var packed := widths + indices + Joined(tiles);
    forall k | 0 <= k < TILES_PER_GLYPH * count
      ensures IdBytes(packed, base, k) == IdBytes(indices, 0, k)
    {
      assert packed[base + 2 * k..base + 2 * k + 2] == indices[2 * k..2 * k + 2];
    }
    forall d | 0 <= d < |tiles|
      ensures TileIn(packed, base + 8 * count, d) == tiles[d]
    {
      JoinedAt(tiles, d);
      assert TileIn(packed, base + 8 * count, d) == TileIn(Joined(tiles), 0, d);
    }
    forall i | 0 <= i < count
      ensures packed[i / 8] == widths[i / 8]
    {
    }
  }

  method PackGlyphs(raw: seq<byte>) returns (packed: Option<seq<byte>>)
    ensures packed.Some? <==> Packable(raw)
    ensures packed.Some? ==> Packs(packed.value, raw)
  {
    hide Dictionary, Widths, Numbered, TileOf, Lookup;
    if raw == [] || |raw| % GLYPH_SIZE != 0 {
      return None;
    }
    var count := |raw| / GLYPH_SIZE;
    var widths: seq<byte> := seq(WidthBytes(count), _ => 0);
    NoWidths(raw, widths);
    var indices: seq<byte>, order: seq<Tile>, ids: map<Tile, nat> := [], [], map[];
    NothingNumbered(raw);
    for index := 0 to count
      invariant Widths(raw, widths, index)
      invariant forall i :: 0 <= i < index ==> raw[GLYPH_SIZE * i] == 8 || raw[GLYPH_SIZE * i] == 16
      invariant order == Dictionary(raw, TILES_PER_GLYPH * index) && |order| <= MAXIMUM_TILES && Lookup(ids, order)
      invariant Numbered(raw, indices, TILES_PER_GLYPH * index)
    {
      var glyph := GlyphAt(raw, index);
      if glyph[0] != 8 && glyph[0] != 16 {
        return None;
      }
      WidthsGrow(raw, widths, index);
      assert |widths| == WidthBytes(count);
      if glyph[0] == 16 {
        assert index / 8 < WidthBytes(count);
        widths := widths[index / 8 := WithBit(widths[index / 8] as nat, index % 8) as byte];
      }
      for part := 0 to TILES_PER_GLYPH
        invariant order == Dictionary(raw, TILES_PER_GLYPH * index + part) && |order| <= MAXIMUM_TILES
        invariant Lookup(ids, order)
        invariant Numbered(raw, indices, TILES_PER_GLYPH * index + part)
      {
        var tile := TileOf(glyph, part);
        ghost var k := TILES_PER_GLYPH * index + part;
        assert k / TILES_PER_GLYPH == index && k % TILES_PER_GLYPH == part && tile == TileAt(raw, k);
        DictionaryStep(raw, k, ids, order);
        if tile !in ids {
          ids := ids[tile := |order|];
          order := order + [tile];
        }
        var id := ids[tile];
        if id > 0xffff {
          DictionaryGrows(raw, k + 1, TILES_PER_GLYPH * count);
          return None;
        }
        NumberedGrows(raw, indices, k, id);
        indices := indices + Le16(id as uint16);
      }
    }
    PartsPack(raw, widths, indices);
    packed := Some(widths + indices + Joined(order));
  }

  lemma NothingNumbered(raw: seq<byte>)
    requires WholeGlyphs(raw)
    ensures Numbered(raw, [], 0) && Dictionary(raw, 0) == [] && Lookup(map[], [])
  {
  }

  /** Looking a tile up, or adding it, follows the dictionary. */
  lemma DictionaryStep(raw: seq<byte>, k: nat, ids: map<Tile, nat>, order: seq<Tile>)
    requires WholeGlyphs(raw) && k < TILES_PER_GLYPH * Count(raw) && order == Dictionary(raw, k) && Lookup(ids, order)
    ensures var tile := TileAt(raw, k);
            if tile in ids then
              Dictionary(raw, k + 1) == order && ids[tile] < |order| && order[ids[tile]] == tile
            else
              Dictionary(raw, k + 1) == order + [tile] && Lookup(ids[tile := |order|], order + [tile])
  {
    hide TileAt;
  }

  // --- unpacking ------------------------------------------------------------------------------

  /** Where the tile of one quarter of a glyph begins. */
  function TileOffset(source: seq<byte>, index: nat, count: nat, t: nat): nat
    requires index < count && t < TILES_PER_GLYPH && |source| >= WidthBytes(count) + 8 * count
  {
    var base := WidthBytes(count);
    base + 8 * count + TILE_SIZE * IdBytes(source, base, TILES_PER_GLYPH * index + t) as nat
  }

  function Unpacked(source: seq<byte>, index: int, count: nat): Option<seq<byte>> {
    var base := WidthBytes(count) + 8 * count;
    if !(0 <= index < count) || |source| < base || (|source| - base) % TILE_SIZE != 0 then None
    else if exists t :: 0 <= t < TILES_PER_GLYPH && TileOffset(source, index, count, t) + TILE_SIZE > |source| then None
    else
      Some([if BitAt(source[index / 8] as nat, index % 8) then 16 else 8] +
           seq(32, p requires 0 <= p < 32 => source[TileOffset(source, index, count, TileNumber(p)) + RowNumber(p)]))
  }

  /** Every glyph is unpacked exactly as it was packed. */
  lemma UnpackInvertsPack(raw: seq<byte>, packed: seq<byte>, index: nat)
    requires Packable(raw) && Packs(packed, raw) && index < Count(raw)
    ensures Unpacked(packed, index, Count(raw)) == Some(GlyphAt(raw, index))
  {
    hide Dictionary, IdBytes, BitAt, TileOffset, Place, TileNumber, RowNumber;
    PlacesAreDistinct();
    var count, glyph := Count(raw), GlyphAt(raw, index);
    UnpackTile(raw, packed, index, 0);
    UnpackTile(raw, packed, index, 1);
    UnpackTile(raw, packed, index, 2);
    UnpackTile(raw, packed, index, 3);
    assert forall t: nat :: t < TILES_PER_GLYPH ==> TileOffset(packed, index, count, t) + TILE_SIZE <= |packed|;
    var r := Unpacked(packed, index, count).value;
    forall i | 1 <= i < GLYPH_SIZE
      ensures r[i] == glyph[i]
    {
      var p := i - 1;
      UnpackTile(raw, packed, index, TileNumber(p));
      assert glyph[i] == glyph[Place(TileNumber(p), RowNumber(p))];
    }
    assert r[0] == glyph[0];
    assert r == glyph;
  }

  lemma UnpackTile(raw: seq<byte>, packed: seq<byte>, index: nat, t: nat)
    requires WholeGlyphs(raw) && Packs(packed, raw) && index < Count(raw) && t < TILES_PER_GLYPH
    ensures var o := TileOffset(packed, index, Count(raw), t);
            o + TILE_SIZE <= |packed| &&
            forall row: nat :: row < TILE_SIZE ==> packed[o + row] == GlyphAt(raw, index)[Place(t, row)]
  {
    hide Dictionary, Get16, Place;
    var k, base := TILES_PER_GLYPH * index + t, WidthBytes(Count(raw));
    assert k / TILES_PER_GLYPH == index && k % TILES_PER_GLYPH == t;
    var id := IdBytes(packed, base, k) as nat;
    var tile := TileIn(packed, base + 8 * Count(raw), id);
    assert tile == TileAt(raw, k);
    var o := TileOffset(packed, index, Count(raw), t);
    assert packed[o..o + TILE_SIZE] == tile;
    forall row: nat | row < TILE_SIZE
      ensures packed[o + row] == GlyphAt(raw, index)[Place(t, row)]
    {
      assert packed[o..o + TILE_SIZE][row] == tile[row];
    }
  }

  method UnpackGlyph(source: seq<byte>, index: int, count: nat) returns (glyph: Option<seq<byte>>)
    ensures glyph == Unpacked(source, index, count)
  {
    hide IdBytes, Get16, BitAt, Place, TileNumber, RowNumber, Filled;
    var widthBytes := (count + 7) / 8;
    var tileBase := widthBytes + count * 8;
    if !(0 <= index < count) || |source| < tileBase || (|source| - tileBase) % 8 != 0 {
      return None;
    }
    var g := new byte[GLYPH_SIZE](_ => 0);
    g[0] := if BitAt(source[index / 8] as nat, index % 8) then 16 else 8;
    NothingFilled(g[..], source, index, count);
    for tile := 0 to TILES_PER_GLYPH
      invariant g[0] == if BitAt(source[index / 8] as nat, index % 8) then 16 else 8
      invariant forall t :: 0 <= t < tile ==> TileOffset(source, index, count, t) + TILE_SIZE <= |source|
      invariant Filled(g[..], source, index, count, tile, 0)
    {
      var position := widthBytes + index * 8 + tile * 2;
      TilePosition(source, index, count, tile);
      var offset := tileBase + Get16(source[position..position + 2]) as nat * 8;
      if offset + 8 > |source| {
        return None;
      }
      for row := 0 to 8
        invariant g[0] == if BitAt(source[index / 8] as nat, index % 8) then 16 else 8
        invariant Filled(g[..], source, index, count, tile, row)
      {
        FilledOn(g[..], source, index, count, tile, row);
        g[Place(tile, row)] := source[offset + row];
      }
      TileFilled(g[..], source, index, count, tile);
    }
    AllFilled(g[..], source, index, count);
    glyph := Some(g[..]);
  }

  lemma TilePosition(source: seq<byte>, index: nat, count: nat, t: nat)
    requires index < count && t < TILES_PER_GLYPH && |source| >= WidthBytes(count) + 8 * count
    ensures var position := WidthBytes(count) + index * 8 + t * 2;
            TileOffset(source, index, count, t) ==
            WidthBytes(count) + 8 * count + Get16(source[position..position + 2]) as nat * 8
  {
  }

  /** The rows before row `row` of tile `tile` are in place. */
  ghost predicate Filled(g: seq<byte>, source: seq<byte>, index: nat, count: nat, tile: nat, row: nat)
    requires |g| == GLYPH_SIZE && index < count && |source| >= WidthBytes(count) + 8 * count
  {
    forall p: nat :: p < 32 && (TileNumber(p) < tile || (TileNumber(p) == tile && RowNumber(p) < row)) ==>
      var offset := TileOffset(source, index, count, TileNumber(p));
      offset + TILE_SIZE <= |source| && g[1 + p] == source[offset + RowNumber(p)]
  }

  lemma NothingFilled(g: seq<byte>, source: seq<byte>, index: nat, count: nat)
    requires |g| == GLYPH_SIZE && index < count && |source| >= WidthBytes(count) + 8 * count
    ensures Filled(g, source, index, count, 0, 0)
  {
  }

  lemma FilledOn(g: seq<byte>, source: seq<byte>, index: nat, count: nat, tile: nat, row: nat)
    requires |g| == GLYPH_SIZE && index < count && |source| >= WidthBytes(count) + 8 * count
    requires tile < TILES_PER_GLYPH && row < TILE_SIZE && Filled(g, source, index, count, tile, row)
    requires TileOffset(source, index, count, tile) + TILE_SIZE <= |source|
    ensures Filled(g[Place(tile, row) := source[TileOffset(source, index, count, tile) + row]], source, index, count,
                   tile, row + 1)
  {
    hide Place, TileNumber, RowNumber, TileOffset;
    PlacesAreDistinct();
  }

  lemma TileFilled(g: seq<byte>, source: seq<byte>, index: nat, count: nat, tile: nat)
    requires |g| == GLYPH_SIZE && index < count && |source| >= WidthBytes(count) + 8 * count
    requires Filled(g, source, index, count, tile, TILE_SIZE)
    ensures Filled(g, source, index, count, tile + 1, 0)
  {
    hide TileNumber, RowNumber, TileOffset;
  }

  lemma AllFilled(g: seq<byte>, source: seq<byte>, index: nat, count: nat)
    requires |g| == GLYPH_SIZE && index < count && |source| >= WidthBytes(count) + 8 * count
    requires (|source| - WidthBytes(count) - 8 * count) % TILE_SIZE == 0
    requires Filled(g, source, index, count, TILES_PER_GLYPH, 0)
    requires forall t :: 0 <= t < TILES_PER_GLYPH ==> TileOffset(source, index, count, t) + TILE_SIZE <= |source|
    requires g[0] == if BitAt(source[index / 8] as nat, index % 8) then 16 else 8
    ensures Unpacked(source, index, count) == Some(g)
  {
    hide TileNumber, RowNumber, TileOffset, BitAt;
    var r := Unpacked(source, index, count).value;
    forall i | 1 <= i < GLYPH_SIZE
      ensures g[i] == r[i]
    {
      var p := i - 1;
      assert TileNumber(p) < TILES_PER_GLYPH;
      assert g[1 + p] == r[1 + p];
    }
    assert g == r;
  }
}
