/** Digit glyphs cut into square tiles that share one dictionary, and painted back from it. */
module DigitTiles {
  import opened Bytes
  import opened Arithmetic
  import opened Wrappers
  import D = DigitCodec

  /** A bit for each pixel, one where it is black. */
  datatype Image = Image(width: nat, height: nat, rows: seq<seq<int>>)

  datatype Shape = Shape(width: nat, height: nat)

  datatype TileError = IndexError | Undecodable(error: D.CodecError) | UnexpectedIndices

  ghost predicate IsImage(img: Image) {
    |img.rows| == img.height &&
    forall y :: 0 <= y < img.height ==> |img.rows[y]| == img.width && D.AreBits(img.rows[y])
  }

  function White(width: nat, height: nat): (img: Image)
    ensures IsImage(img)
  {
    Image(width, height, seq(height, _ => seq(width, _ => 0)))
  }

  /** A pixel, white outside of the image. */
  function Pixel(img: Image, x: nat, y: nat): (bit: int)
    ensures IsImage(img) ==> bit == 0 || bit == 1
  {
    if y < |img.rows| && x < |img.rows[y]| then img.rows[y][x] else 0
  }

  // --- one tile -----------------------------------------------------------------------

  function TileRow(img: Image, x: nat, y: nat, size: nat): (row: seq<int>)
    ensures |row| == size
  {
    seq(size, i requires 0 <= i < size => Pixel(img, x + i, y))
  }

  /** The first `n` rows of the tile at (x, y), one behind the other. */
  function TileBits(img: Image, x: nat, y: nat, size: nat, n: nat): (bits: seq<int>)
    ensures |bits| == n * size
  {
    if n == 0 then [] else TileBits(img, x, y, size, n - 1) + TileRow(img, x, y + n - 1, size)
  }

  lemma {:induction false} TileBitAt(img: Image, x: nat, y: nat, size: nat, n: nat, row: nat, column: nat)
    requires row < n && column < size
    ensures row * size + column < n * size
    ensures TileBits(img, x, y, size, n)[row * size + column] == Pixel(img, x + column, y + row)
  {
    MultiplyMonotone(row + 1, n, size);
    assert (row + 1) * size == row * size + size;
    if row < n - 1 {
      TileBitAt(img, x, y, size, n - 1, row, column);
    }
  }

  lemma {:induction false} TileIsBits(img: Image, x: nat, y: nat, size: nat, n: nat)
    requires IsImage(img)
    ensures D.AreBits(TileBits(img, x, y, size, n))
  {
    if n > 0 {
      TileIsBits(img, x, y, size, n - 1);
      RowIsBits(img, x, y + n - 1, size);
    }
  }

  lemma RowIsBits(img: Image, x: nat, y: nat, size: nat)
    requires IsImage(img)
    ensures D.AreBits(TileRow(img, x, y, size))
  {
    var row := TileRow(img, x, y, size);
    forall i | 0 <= i < size
      ensures row[i] == 0 || row[i] == 1
    {
      assert row[i] == Pixel(img, x + i, y);
    }
  }

  /** The image with a tile of bits pasted at (x, y), cut off at its edges. */
  function Pasted(img: Image, bits: seq<int>, x: nat, y: nat, size: nat): (r: Image)
    requires |bits| == size * size
    ensures r.width == img.width && r.height == img.height
  {
    Image(img.width, img.height,
          seq(|img.rows|, v requires 0 <= v < |img.rows| => PastedRow(img.rows[v], bits, x, v - y, size)))
  }

  function PastedRow(row: seq<int>, bits: seq<int>, x: nat, v: int, size: nat): (r: seq<int>)
    requires |bits| == size * size
    ensures |r| == |row|
  {
    seq(|row|, u requires 0 <= u < |row| =>
      if 0 <= v < size && x <= u < x + size then BitOf(bits, v, u - x, size) else row[u])
  }

  function BitOf(bits: seq<int>, row: nat, column: nat, size: nat): int
    requires |bits| == size * size && row < size && column < size
  {
    MultiplyMonotone(row + 1, size, size);
    assert (row + 1) * size == row * size + size;
    bits[row * size + column]
  }

  // --- cutting and painting in order ----------------------------------------------------

  /** The packed tiles from (x, y) on, row of tiles by row of tiles. */
  ghost function TilesFrom(img: Image, size: nat, x: nat, y: nat): seq<seq<byte>>
    requires size > 0 && IsImage(img)
    decreases if y < img.height then img.height - y else 0, if x < img.width then img.width - x else 0
  {
    if y >= img.height then []
    else if x >= img.width then TilesFrom(img, size, 0, y + size)
    else
      TileIsBits(img, x, y, size, size);
      [D.Pack(TileBits(img, x, y, size, size))] + TilesFrom(img, size, x + size, y)
  }

  ghost function TilesOf(glyphs: seq<Image>, size: nat): seq<seq<byte>>
    requires size > 0 && forall i :: 0 <= i < |glyphs| ==> IsImage(glyphs[i])
  {
    if glyphs == [] then [] else TilesFrom(glyphs[0], size, 0, 0) + TilesOf(glyphs[1..], size)
  }

  /** A canvas and how many indices were used for it. */
  datatype Painted = Painted(canvas: Image, cursor: nat)

  function TileFor(dictionary: seq<seq<byte>>, indices: seq<nat>, cursor: nat, size: nat): (r: Result<seq<int>, TileError>)
    ensures r.Success? ==> |r.value| == size * size && cursor < |indices|
  {
    if cursor >= |indices| || indices[cursor] >= |dictionary| then Failure(IndexError)
    else
      match D.Decode(dictionary[indices[cursor]], size, size, 0)
      case Failure(e) => Failure(Undecodable(e))
      case Success(bits) => Success(bits)
  }

  function PaintFrom(canvas: Image, dictionary: seq<seq<byte>>, indices: seq<nat>, cursor: nat, size: nat, x: nat, y: nat)
    : Result<Painted, TileError>
    requires size > 0
    decreases if y < canvas.height then canvas.height - y else 0, if x < canvas.width then canvas.width - x else 0
  {
    if y >= canvas.height then Success(Painted(canvas, cursor))
    else if x >= canvas.width then PaintFrom(canvas, dictionary, indices, cursor, size, 0, y + size)
    else
      match TileFor(dictionary, indices, cursor, size)
      case Failure(e) => Failure(e)
      case Success(bits) =>
        PaintFrom(Pasted(canvas, bits, x, y, size), dictionary, indices, cursor + 1, size, x + size, y)
  }

  function UnpackedFrom(dictionary: seq<seq<byte>>, indices: seq<nat>, shapes: seq<Shape>, size: nat, cursor: nat)
    : Result<seq<Image>, TileError>
    requires size > 0
    decreases |shapes|
  {
    if shapes == [] then (if cursor == |indices| then Success([]) else Failure(UnexpectedIndices))
    else
      match PaintFrom(White(shapes[0].width, shapes[0].height), dictionary, indices, cursor, size, 0, 0)
      case Failure(e) => Failure(e)
      case Success(painted) =>
        match UnpackedFrom(dictionary, indices, shapes[1..], size, painted.cursor)
        case Failure(e) => Failure(e)
        case Success(rest) => Success([painted.canvas] + rest)
  }

  // --- the dictionary --------------------------------------------------------------------

  /** Each index names its tile, and each tile of the dictionary occurs, once. */
  ghost predicate Names(dictionary: seq<seq<byte>>, indices: seq<nat>, tiles: seq<seq<byte>>) {
    NamesAll(dictionary, indices, tiles) &&
    (forall i, j :: 0 <= i < j < |dictionary| ==> dictionary[i] != dictionary[j]) &&
    forall i :: 0 <= i < |dictionary| ==> dictionary[i] in tiles
  }

  ghost predicate Lookup(lookup: map<seq<byte>, nat>, dictionary: seq<seq<byte>>) {
    (forall t <- lookup :: lookup[t] < |dictionary| && dictionary[lookup[t]] == t) &&
    forall i :: 0 <= i < |dictionary| ==> dictionary[i] in lookup && lookup[dictionary[i]] == i
  }

  lemma NamesGrow(dictionary: seq<seq<byte>>, indices: seq<nat>, tiles: seq<seq<byte>>, lookup: map<seq<byte>, nat>,
                  tile: seq<byte>)
    requires Names(dictionary, indices, tiles) && Lookup(lookup, dictionary)
    ensures tile in lookup ==> Names(dictionary, indices + [lookup[tile]], tiles + [tile])
    ensures tile !in lookup ==>
      Names(dictionary + [tile], indices + [|dictionary|], tiles + [tile]) &&
      Lookup(lookup[tile := |dictionary|], dictionary + [tile])
  {
    assert tile in tiles + [tile];
  }

  /** The shared dictionary, the number of each tile in order, and the shape of each glyph. */
  method TilePack(glyphs: seq<Image>, size: nat)
    returns (dictionary: seq<seq<byte>>, indices: seq<nat>, shapes: seq<Shape>)
    requires size > 0 && forall i :: 0 <= i < |glyphs| ==> IsImage(glyphs[i])
    ensures Names(dictionary, indices, TilesOf(glyphs, size))
    ensures shapes == ShapesOf(glyphs)
  {
    hide Names, Lookup, IsImage, TilesFrom;
    dictionary, indices, shapes := [], [], [];
    var lookup: map<seq<byte>, nat> := map[];
    ghost var tiles: seq<seq<byte>> := [];
    NothingNamed();
    assert glyphs[0..] == glyphs && [] + TilesOf(glyphs, size) == TilesOf(glyphs, size);
    for g := 0 to |glyphs|
      invariant Names(dictionary, indices, tiles) && Lookup(lookup, dictionary)
      invariant tiles + TilesOf(glyphs[g..], size) == TilesOf(glyphs, size)
      invariant shapes == ShapesOf(glyphs[..g])
    {
      var image := glyphs[g];
      ghost var before, rest := tiles, TilesOf(glyphs[g + 1..], size);
      shapes := shapes + [Shape(image.width, image.height)];
      assert glyphs[..g + 1] == glyphs[..g] + [image];
      assert glyphs[g..][1..] == glyphs[g + 1..];
      dictionary, indices, lookup := CutGlyph(image, size, dictionary, indices, lookup, tiles);
      tiles := tiles + TilesFrom(image, size, 0, 0);
      assert before + (TilesFrom(image, size, 0, 0) + rest) == tiles + rest;
    }
    assert glyphs[..|glyphs|] == glyphs;
    assert tiles + [] == tiles;
  }

  /** Cuts one glyph, adding tiles that are not in the dictionary yet. */
  method CutGlyph(image: Image, size: nat, known: seq<seq<byte>>, numbered: seq<nat>, found: map<seq<byte>, nat>,
                  ghost before: seq<seq<byte>>)
    returns (dictionary: seq<seq<byte>>, indices: seq<nat>, lookup: map<seq<byte>, nat>)
    requires size > 0 && IsImage(image) && Names(known, numbered, before) && Lookup(found, known)
    ensures Names(dictionary, indices, before + TilesFrom(image, size, 0, 0)) && Lookup(lookup, dictionary)
  {
    hide Names, Lookup, IsImage, TilesFrom, TileBits, D.Pack, D.AreBits;
    dictionary, indices, lookup := known, numbered, found;
    ghost var tiles, all := before, before + TilesFrom(image, size, 0, 0);
    var y: nat := 0;
    while y < image.height
      invariant Names(dictionary, indices, tiles) && Lookup(lookup, dictionary)
      invariant tiles + TilesFrom(image, size, 0, y) == all
      decreases image.height - y
    {
      var x: nat := 0;
      while x < image.width
        invariant Names(dictionary, indices, tiles) && Lookup(lookup, dictionary)
        invariant tiles + TilesFrom(image, size, x, y) == all
        decreases image.width - x
      {
        NextTile(image, size, x, y);
        var data := D.Pack(TileBits(image, x, y, size, size));
        NamesGrow(dictionary, indices, tiles, lookup, data);
        if data !in lookup {
          lookup := lookup[data := |dictionary|];
          dictionary := dictionary + [data];
        }
        indices := indices + [lookup[data]];
        Associates(tiles, [data], TilesFrom(image, size, x + size, y));
        tiles := tiles + [data];
        x := x + size;
      }
      NextRow(image, size, x, y);
      y := y + size;
    }
    LastRow(image, size, y);
    assert tiles + [] == tiles;
  }

  lemma Associates(a: seq<seq<byte>>, b: seq<seq<byte>>, c: seq<seq<byte>>)
    ensures a + (b + c) == a + b + c
  {
  }

  function ShapesOf(glyphs: seq<Image>): (shapes: seq<Shape>)
    ensures |shapes| == |glyphs|
  {
    seq(|glyphs|, i requires 0 <= i < |glyphs| => Shape(glyphs[i].width, glyphs[i].height))
  }

  lemma NothingNamed()
    ensures Names([], [], []) && Lookup(map[], [])
  {
  }

  lemma NextTile(img: Image, size: nat, x: nat, y: nat)
    requires IsImage(img) && size > 0 && x < img.width && y < img.height
    ensures D.AreBits(TileBits(img, x, y, size, size))
    ensures TilesFrom(img, size, x, y) ==
            [D.Pack(TileBits(img, x, y, size, size))] + TilesFrom(img, size, x + size, y)
  {
    TileIsBits(img, x, y, size, size);
  }

  lemma NextRow(img: Image, size: nat, x: nat, y: nat)
    requires IsImage(img) && size > 0 && x >= img.width && y < img.height
    ensures TilesFrom(img, size, x, y) == TilesFrom(img, size, 0, y + size)
  {
  }

  lemma LastRow(img: Image, size: nat, y: nat)
    requires IsImage(img) && size > 0 && y >= img.height
    ensures TilesFrom(img, size, 0, y) == []
  {
  }

  method TileUnpack(dictionary: seq<seq<byte>>, indices: seq<nat>, shapes: seq<Shape>, size: nat)
    returns (r: Result<seq<Image>, TileError>)
    requires size > 0
    ensures r == UnpackedFrom(dictionary, indices, shapes, size, 0)
  {
    hide TileFor, Pasted;
    var result: seq<Image> := [];
    var cursor := 0;
    assert shapes[0..] == shapes;
    assert forall rest: seq<Image> :: [] + rest == rest;
    for g := 0 to |shapes|
      invariant UnpackedFrom(dictionary, indices, shapes, size, 0) ==
                match UnpackedFrom(dictionary, indices, shapes[g..], size, cursor)
                case Failure(e) => Failure(e)
                case Success(rest) => Success(result + rest)
    {
      assert shapes[g..][1..] == shapes[g + 1..];
      var width, height := shapes[g].width, shapes[g].height;
      var image := White(width, height);
      ghost var start := PaintFrom(image, dictionary, indices, cursor, size, 0, 0);
      ghost var whole := UnpackedFrom(dictionary, indices, shapes[g..], size, cursor);
      var y := 0;
      while y < height
        invariant image.width == width && image.height == height
        invariant start == PaintFrom(image, dictionary, indices, cursor, size, 0, y)
        decreases height - y
      {
        var x := 0;
        while x < width
          invariant image.width == width && image.height == height
          invariant start == PaintFrom(image, dictionary, indices, cursor, size, x, y)
          decreases width - x
        {
          var bits := TileFor(dictionary, indices, cursor, size);
          if bits.Failure? {
            return Failure(bits.error);
          }
          image := Pasted(image, bits.value, x, y, size);
          cursor := cursor + 1;
          x := x + size;
        }
        y := y + size;
      }
      assert start == Success(Painted(image, cursor));
      assert forall rest: seq<Image> :: result + ([image] + rest) == result + [image] + rest;
      result := result + [image];
    }
    if cursor != |indices| {
      return Failure(UnexpectedIndices);
    }
    assert result + [] == result;
    r := Success(result);
  }

  // --- painting undoes cutting ----------------------------------------------------------------

  /** The rows of tiles above y, and those left of x in the current one, are as in the image. */
  ghost predicate Agrees(canvas: Image, img: Image, size: nat, x: nat, y: nat) {
    canvas.width == img.width && canvas.height == img.height && |canvas.rows| == |img.rows| &&
    (forall v :: 0 <= v < |img.rows| ==> |canvas.rows[v]| == |img.rows[v]|) &&
    forall v, u :: 0 <= v < |img.rows| && 0 <= u < |img.rows[v]| && (v < y || (v < y + size && u < x)) ==>
      canvas.rows[v][u] == img.rows[v][u]
  }

  lemma TileDecodes(img: Image, size: nat, x: nat, y: nat)
    requires IsImage(img) && size > 0
    ensures var bits := TileBits(img, x, y, size, size);
            D.AreBits(bits) && D.Decode(D.Pack(bits), size, size, 0) == Success(bits)
  {
    var bits := TileBits(img, x, y, size, size);
    TileIsBits(img, x, y, size, size);
    MultiplyMonotone(1, size, size);
    DivModOf(size, 0, size);
    D.CodecRoundTrip(bits, size, 0);
  }

  lemma PastedPixel(canvas: Image, img: Image, size: nat, x: nat, y: nat, v: nat, u: nat)
    requires v < |canvas.rows| && u < |canvas.rows[v]| && v < y + size && u < x + size
    ensures var r := Pasted(canvas, TileBits(img, x, y, size, size), x, y, size);
            |r.rows| == |canvas.rows| && |r.rows[v]| == |canvas.rows[v]| &&
            r.rows[v][u] == if y <= v && x <= u then Pixel(img, u, v) else canvas.rows[v][u]
  {
    var bits := TileBits(img, x, y, size, size);
    var r := Pasted(canvas, bits, x, y, size);
    assert r.rows[v] == PastedRow(canvas.rows[v], bits, x, v - y, size);
    if y <= v && x <= u {
      assert r.rows[v][u] == BitOf(bits, v - y, u - x, size);
      TileBitAt(img, x, y, size, size, v - y, u - x);
    }
  }

  lemma PastedElsewhere(canvas: Image, bits: seq<int>, size: nat, x: nat, y: nat, v: nat, u: nat)
    requires v < |canvas.rows| && u < |canvas.rows[v]| && |bits| == size * size && (v >= y + size || u >= x + size)
    ensures var r := Pasted(canvas, bits, x, y, size);
            |r.rows| == |canvas.rows| && |r.rows[v]| == |canvas.rows[v]| && r.rows[v][u] == canvas.rows[v][u]
  {
  }

  lemma PasteAgrees(canvas: Image, img: Image, size: nat, x: nat, y: nat)
    requires IsImage(img) && Agrees(canvas, img, size, x, y)
    ensures Agrees(Pasted(canvas, TileBits(img, x, y, size, size), x, y, size), img, size, x + size, y)
  {
    var bits := TileBits(img, x, y, size, size);
    var r := Pasted(canvas, bits, x, y, size);
    assert |r.rows| == |canvas.rows| && forall v :: 0 <= v < |r.rows| ==> |r.rows[v]| == |canvas.rows[v]|;
    hide Pasted, TileBits;
    forall v, u | 0 <= v < |img.rows| && 0 <= u < |img.rows[v]| && (v < y || (v < y + size && u < x + size))
      ensures r.rows[v][u] == img.rows[v][u]
    {
      if u < x + size {
        PastedPixel(canvas, img, size, x, y, v, u);
      } else {
        PastedElsewhere(canvas, bits, size, x, y, v, u);
      }
    }
  }

  ghost predicate NamesAll(dictionary: seq<seq<byte>>, indices: seq<nat>, tiles: seq<seq<byte>>) {
    |indices| == |tiles| &&
    forall k :: 0 <= k < |tiles| ==> indices[k] < |dictionary| && dictionary[indices[k]] == tiles[k]
  }

  /** The indices from the cursor on name the tiles still to be painted. */
  ghost predicate NamesFrom(dictionary: seq<seq<byte>>, indices: seq<nat>, cursor: nat, tiles: seq<seq<byte>>) {
    cursor + |tiles| <= |indices| && NamesAll(dictionary, indices[cursor..cursor + |tiles|], tiles)
  }

  lemma PaintsTile(canvas: Image, dictionary: seq<seq<byte>>, indices: seq<nat>, cursor: nat, size: nat, x: nat, y: nat,
                   bits: seq<int>)
    requires size > 0 && y < canvas.height && x < canvas.width && cursor < |indices| && indices[cursor] < |dictionary|
    requires D.Decode(dictionary[indices[cursor]], size, size, 0) == Success(bits)
    ensures |bits| == size * size
    ensures PaintFrom(canvas, dictionary, indices, cursor, size, x, y) ==
            PaintFrom(Pasted(canvas, bits, x, y, size), dictionary, indices, cursor + 1, size, x + size, y)
  {
    hide Pasted, D.Decode;
    assert TileFor(dictionary, indices, cursor, size) == Success(bits);
  }

  lemma PaintsNextRow(canvas: Image, dictionary: seq<seq<byte>>, indices: seq<nat>, cursor: nat, size: nat, x: nat, y: nat)
    requires size > 0 && x >= canvas.width
    ensures PaintFrom(canvas, dictionary, indices, cursor, size, x, y) ==
            if y >= canvas.height then Success(Painted(canvas, cursor))
            else PaintFrom(canvas, dictionary, indices, cursor, size, 0, y + size)
  {
    hide Pasted, TileFor;
  }

  lemma SameSize(canvas: Image, img: Image, size: nat, x: nat, y: nat)
    requires Agrees(canvas, img, size, x, y)
    ensures canvas.width == img.width && canvas.height == img.height
  {
  }

  lemma {:induction false} PaintUndoesCut(canvas: Image, img: Image, dictionary: seq<seq<byte>>, indices: seq<nat>,
                                          cursor: nat, size: nat, x: nat, y: nat)
    requires IsImage(img) && size > 0 && Agrees(canvas, img, size, x, y)
    requires NamesFrom(dictionary, indices, cursor, TilesFrom(img, size, x, y))
    ensures PaintFrom(canvas, dictionary, indices, cursor, size, x, y) ==
            Success(Painted(img, cursor + |TilesFrom(img, size, x, y)|))
    decreases if y < img.height then img.height - y else 0, if x < img.width then img.width - x else 0
  {
    hide IsImage, Pasted, TileBits, Agrees, NamesFrom, D.Decode, D.Pack, D.AreBits, TileFor;
    SameSize(canvas, img, size, x, y);
    if y >= img.height {
      AllAgree(canvas, img, size, x, y);
    } else if x >= img.width {
      NextRow(img, size, x, y);
      PaintsNextRow(canvas, dictionary, indices, cursor, size, x, y);
      hide PaintFrom, TilesFrom;
      RowAgrees(canvas, img, size, x, y);
      PaintUndoesCut(canvas, img, dictionary, indices, cursor, size, 0, y + size);
    } else {
      hide PaintFrom, TilesFrom;
      NextTile(img, size, x, y);
      var rest := TilesFrom(img, size, x + size, y);
      var tiles := TilesFrom(img, size, x, y);
      assert tiles[0] == D.Pack(TileBits(img, x, y, size, size)) && tiles[1..] == rest;
      TileDecodes(img, size, x, y);
      PasteAgrees(canvas, img, size, x, y);
      NamesRest(dictionary, indices, cursor, tiles);
      var bits := TileBits(img, x, y, size, size);
      PaintsTile(canvas, dictionary, indices, cursor, size, x, y, bits);
      PaintUndoesCut(Pasted(canvas, bits, x, y, size), img, dictionary, indices, cursor + 1, size, x + size, y);
    }
  }

  lemma NamesRest(dictionary: seq<seq<byte>>, indices: seq<nat>, cursor: nat, tiles: seq<seq<byte>>)
    requires NamesFrom(dictionary, indices, cursor, tiles) && tiles != []
    ensures indices[cursor] < |dictionary| && dictionary[indices[cursor]] == tiles[0]
    ensures NamesFrom(dictionary, indices, cursor + 1, tiles[1..])
  {
    var part := indices[cursor..cursor + |tiles|];
    assert part[0] == indices[cursor];
    assert part[1..] == indices[cursor + 1..cursor + 1 + |tiles[1..]|];
  }

  lemma AllAgree(canvas: Image, img: Image, size: nat, x: nat, y: nat)
    requires IsImage(img) && Agrees(canvas, img, size, x, y) && y >= img.height
    ensures canvas == img
  {
    forall v | 0 <= v < |img.rows|
      ensures canvas.rows[v] == img.rows[v]
    {
    }
    assert canvas.rows == img.rows;
  }

  lemma RowAgrees(canvas: Image, img: Image, size: nat, x: nat, y: nat)
    requires IsImage(img) && Agrees(canvas, img, size, x, y) && x >= img.width
    ensures Agrees(canvas, img, size, 0, y + size)
  {
  }

  /** Painting from the dictionary gives back every glyph that was cut into it. */
  lemma {:induction false} UnpackInvertsPack(glyphs: seq<Image>, dictionary: seq<seq<byte>>, indices: seq<nat>,
                                             size: nat, cursor: nat)
    requires size > 0 && forall i :: 0 <= i < |glyphs| ==> IsImage(glyphs[i])
    requires NamesFrom(dictionary, indices, cursor, TilesOf(glyphs, size))
    requires cursor + |TilesOf(glyphs, size)| == |indices|
    ensures UnpackedFrom(dictionary, indices, ShapesOf(glyphs), size, cursor) == Success(glyphs)
    decreases |glyphs|
  {
    hide IsImage, TilesFrom, PaintFrom;
    if glyphs != [] {
      var img, tiles := glyphs[0], TilesFrom(glyphs[0], size, 0, 0);
      var rest := TilesOf(glyphs[1..], size);
      FirstTiles(dictionary, indices, cursor, tiles, rest);
      WhiteAgrees(img, size);
      PaintUndoesCut(White(img.width, img.height), img, dictionary, indices, cursor, size, 0, 0);
      UnpackInvertsPack(glyphs[1..], dictionary, indices, size, cursor + |tiles|);
      assert ShapesOf(glyphs)[1..] == ShapesOf(glyphs[1..]);
      assert [img] + glyphs[1..] == glyphs;
    }
  }

  lemma WhiteAgrees(img: Image, size: nat)
    requires IsImage(img)
    ensures Agrees(White(img.width, img.height), img, size, 0, 0)
  {
  }

  lemma FirstTiles(dictionary: seq<seq<byte>>, indices: seq<nat>, cursor: nat, tiles: seq<seq<byte>>,
                   rest: seq<seq<byte>>)
    requires NamesFrom(dictionary, indices, cursor, tiles + rest)
    ensures NamesFrom(dictionary, indices, cursor, tiles) && NamesFrom(dictionary, indices, cursor + |tiles|, rest)
  {
    var all, n := tiles + rest, |tiles|;
    var part := indices[cursor..cursor + |all|];
    assert part[..n] == indices[cursor..cursor + n] && all[..n] == tiles;
    assert part[n..] == indices[cursor + n..cursor + n + |rest|] && all[n..] == rest;
  }

  /** What packing returns is unpacked to the glyphs that were packed, and leaves no index over. */
  lemma PackedGlyphsUnpack(glyphs: seq<Image>, dictionary: seq<seq<byte>>, indices: seq<nat>, size: nat)
    requires size > 0 && forall i :: 0 <= i < |glyphs| ==> IsImage(glyphs[i])
    requires Names(dictionary, indices, TilesOf(glyphs, size))
    ensures UnpackedFrom(dictionary, indices, ShapesOf(glyphs), size, 0) == Success(glyphs)
  {
    hide IsImage, TilesOf;
    UnpackInvertsPack(glyphs, dictionary, indices, size, 0);
  }
}
