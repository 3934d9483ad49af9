/** The 8x8 tiling of DS graphics and the untiling pass of `ncgr_get_pixels`. A tiled
    buffer stores the image tile by tile, tiles in row-major order, and each tile's 64
    pixels in row-major order. */
module Tiles {
  import opened Bytes

  /** Where pixel (x, y) of an image `width` pixels wide sits in the tiled buffer. */
  function TileIndex(width: int, x: int, y: int): int
  {
    ((y / 8) * (width / 8) + x / 8) * 64 + (y % 8) * 8 + x % 8
  }

  /** The pixel (x, y) stored at position `j` of the tiled buffer. */
  function TileCoords(width: int, j: int): (int, int)
    requires width / 8 > 0
  {
    var t, w := j / 64, j % 64;
    ((t % (width / 8)) * 8 + w % 8, (t / (width / 8)) * 8 + w / 8)
  }

  /** A position below width * height lies in one of the `height` rows. */
  lemma RowBound(k: int, width: int, height: int)
    requires 0 <= k < width * height && 0 < width
    ensures 0 <= k / width < height
  {
  }

  /** The last pixel of a row below the last row of the image is inside it. */
  lemma RowEnd(x: int, y: int, width: int, height: int)
    requires 0 <= x < width && 0 <= y < height
    ensures y * width + x < width * height
  {
    MulMono(y + 1, height, width);
    assert (y + 1) * width == y * width + width;
  }

  /** The buffer position of every pixel in the first 8 * (height / 8) rows lies below
      the (height / 8) * (width / 8) * 64 pixels the tiles hold. */
  lemma TileIndexBound(width: int, height: int, x: int, y: int)
    requires width % 8 == 0 && 0 <= x < width && 0 <= y < 8 * (height / 8)
    ensures 0 <= TileIndex(width, x, y) < (height / 8) * (width / 8) * 64
  {
    var tw, th, tx, ty := width / 8, height / 8, x / 8, y / 8;
    assert 0 <= tx < tw && 0 <= ty < th;
    assert 0 <= ty * tw;
    assert (th - ty - 1) * tw >= 0;
    assert (ty + 1) * tw <= th * tw;
    assert ty * tw + tx + 1 <= (ty + 1) * tw;
    assert TileIndex(width, x, y) < (ty * tw + tx + 1) * 64;
  }

  /** Decoding a position gives back the pixel it was computed from. */
  lemma TileDecode(width: int, x: int, y: int)
    requires width > 0 && width % 8 == 0 && 0 <= x < width && 0 <= y
    ensures TileCoords(width, TileIndex(width, x, y)) == (x, y)
  {
    var tw, tx, ty := width / 8, x / 8, y / 8;
    var t, w := ty * tw + tx, (y % 8) * 8 + x % 8;
    assert TileIndex(width, x, y) == t * 64 + w;
    DivModUnique(TileIndex(width, x, y), 64, t, w);
    DivModUnique(w, 8, y % 8, x % 8);
    DivModUnique(t, tw, ty, tx);
  }

  /** Encoding the pixel a position decodes to gives back the position. */
  lemma TileEncode(width: int, j: int)
    requires width > 0 && width % 8 == 0 && 0 <= j
    ensures var (x, y) := TileCoords(width, j);
      0 <= x < width && 0 <= y && TileIndex(width, x, y) == j
  {
    var tw := width / 8;
    var t, w := j / 64, j % 64;
    var (x, y) := TileCoords(width, j);
    DivModUnique(x, 8, t % tw, w % 8);
    DivModUnique(y, 8, t / tw, w / 8);
    assert t == (t / tw) * tw + t % tw;
    assert w == (w / 8) * 8 + w % 8;
    assert (t % tw) * 8 + 8 <= width;
  }

  /** Distinct pixels have distinct buffer positions. */
  lemma TileIndexInjective(width: int, x: int, y: int, x2: int, y2: int)
    requires width > 0 && width % 8 == 0
    requires 0 <= x < width && 0 <= y && 0 <= x2 < width && 0 <= y2
    requires TileIndex(width, x, y) == TileIndex(width, x2, y2)
    ensures x == x2 && y == y2
  {
    TileDecode(width, x, y);
    TileDecode(width, x2, y2);
  }

  /** What the untiling pass requires of its buffer: rows of `width` pixels (a whole
      number of tiles), enough rows to hold the buffer, and every pixel of the whole
      tiles there. The C code reads past the buffer when the last requirement fails. */
  predicate UntileDefined(n: int, width: int, height: int)
  {
    width % 8 == 0 && 0 <= height && n <= width * height && (height / 8) * (width / 8) * 64 <= n
  }

  /** Pixel `k` (in row-major order) of the untiled image: the tiled buffer's pixel for
      it when it lies in a whole row of tiles, 0 (the `memset`) when it does not. */
  function UntiledAt(buf: seq<byte>, width: int, height: int, k: int): byte
    requires UntileDefined(|buf|, width, height) && 0 <= k < |buf|
  {
    PositiveWidth(|buf|, width, height);
    var x, y := k % width, k / width;
    ColumnBound(k, width);
    if y < 8 * (height / 8) then
      TileIndexBound(width, height, x, y);
      buf[TileIndex(width, x, y)]
    else 0
  }

  /** The untiled image, in row-major order. */
  function Untile(buf: seq<byte>, width: int, height: int): (r: seq<byte>)
    requires UntileDefined(|buf|, width, height)
    ensures |r| == |buf|
  {
    seq(|buf|, k requires 0 <= k < |buf| => UntiledAt(buf, width, height, k))
  }

  /** The inverse arrangement: a row-major image put back into tile order. */
  function Retile(img: seq<byte>, width: int, height: int): (r: seq<byte>)
    requires width > 0 && width % 8 == 0 && height % 8 == 0 && 0 <= height
    requires |img| == width * height
    ensures |r| == |img|
  {
    seq(|img|, j requires 0 <= j < |img| =>
      var (x, y) := TileCoords(width, j);
      TileEncode(width, j);
      TileRow(width, height, j);
      img[y * width + x])
  }

  /** A position of a buffer of whole tiles decodes to a pixel inside the image. */
  lemma TileRow(width: int, height: int, j: int)
    requires width > 0 && width % 8 == 0 && height % 8 == 0 && 0 <= height
    requires 0 <= j < width * height
    ensures var (x, y) := TileCoords(width, j);
      0 <= y < height && y * width + x < width * height
  {
    var tw, th := width / 8, height / 8;
    assert width * height == 64 * (tw * th) by {
      assert width == 8 * tw && height == 8 * th;
    }
    var t := j / 64;
    RowBound(j, 64, tw * th);
    RowBound(t, tw, th);
    TileEncode(width, j);
    var (x, y) := TileCoords(width, j);
    assert y < height;
    RowEnd(x, y, width, height);
  }

  /** The untiling pass of `ncgr_get_pixels`: the tiles are visited in the order they
      are stored, each writes its 8x8 block into a zeroed image, and the image then
      replaces the buffer. */
  method UntileInPlace(pixels: array<byte>, width: int, height: int)
    requires UntileDefined(pixels.Length, width, height)
    modifies pixels
    ensures pixels[..] == Untile(old(pixels[..]), width, height)
  {
    if pixels.Length == 0 {
      // no pixel to move
      return;
    }
    PositiveWidth(pixels.Length, width, height);
    var tmp := new byte[height, width]((_, _) => 0);
    FillTiles(tmp, pixels, width, height);
    CopyBack(tmp, pixels, width, height);
  }

  /** The column and row of position `k` of a row-major image. */
  lemma ColumnBound(k: int, width: int)
    requires width > 0 && k >= 0
    ensures 0 <= k % width < width && 0 <= k / width
  {
  }

  /** A buffer with pixels in it has a positive width. */
  lemma PositiveWidth(n: int, width: int, height: int)
    requires UntileDefined(n, width, height) && n > 0
    ensures width > 0
  {
    if width <= 0 {
      MulMono(0, height, -width);
      assert false;
    }
  }

  /** The four nested loops: the tiles in storage order, 64 buffer pixels each. */
  method FillTiles(tmp: array2<byte>, pixels: array<byte>, width: int, height: int)
    requires tmp.Length0 == height && tmp.Length1 == width && 0 < width
    requires UntileDefined(pixels.Length, width, height)
    requires forall r, c :: 0 <= r < height && 0 <= c < width ==> tmp[r, c] == 0
    modifies tmp
    ensures TmpHolds(tmp, pixels[..], width, height, (height / 8) * (width / 8) * 64)
  {
    ghost var buf := pixels[..];
    var tw := width / 8;
    var i := 0;
    var y := 0;
    while y < height / 8
      invariant 0 <= y <= height / 8
      invariant i == y * tw * 64
      invariant TmpHolds(tmp, buf, width, height, i)
      modifies tmp
    {
      var x := 0;
      while x < tw
        invariant 0 <= x <= tw
        invariant i == (y * tw + x) * 64
        invariant TmpHolds(tmp, buf, width, height, i)
        modifies tmp
      {
        TileEnd(tw, height / 8, x, y);
        i := TileBlock(tmp, pixels, width, height, x, y, i);
        x := x + 1;
      }
      assert (y + 1) * tw == y * tw + tw;
      y := y + 1;
    }
  }

  /** The end of tile (x, y) is within the tiles of the image. */
  lemma TileEnd(tw: int, th: int, x: int, y: int)
    requires 0 <= x < tw && 0 <= y < th
    ensures (y * tw + x + 1) * 64 <= th * tw * 64
  {
    MulMono(y + 1, th, tw);
    assert (y + 1) * tw == y * tw + tw;
  }

  /** The closing `memcpy`: the image, row by row, back into the buffer. */
  method CopyBack(tmp: array2<byte>, pixels: array<byte>, width: int, height: int)
    requires TmpHolds(tmp, pixels[..], width, height, (height / 8) * (width / 8) * 64)
    modifies pixels
    ensures pixels[..] == Untile(old(pixels[..]), width, height)
  {
    ghost var buf := pixels[..];
    ghost var i := (height / 8) * (width / 8) * 64;
    forall r, c | 0 <= r < height && 0 <= c < width && r < 8 * (height / 8)
      ensures 0 <= TileIndex(width, c, r) < i
    {
      TileIndexBound(width, height, c, r);
    }
    for k := 0 to pixels.Length
      invariant forall j :: 0 <= j < k ==> pixels[j] == UntiledAt(buf, width, height, j)
    {
      RowBound(k, width, height);
      pixels[k] := tmp[k / width, k % width];
    }
    assert pixels[..] == Untile(buf, width, height);
  }

  /** How much of the image the untiling pass has written once it has copied the
      first `i` pixels of `buf`: exactly the pixels whose buffer position is below `i`. */
  ghost predicate TmpHolds(tmp: array2<byte>, buf: seq<byte>, width: int, height: int, i: int)
    reads tmp
  {
    && tmp.Length0 == height && tmp.Length1 == width
    && UntileDefined(|buf|, width, height) && 0 < width && 0 <= i <= |buf|
    && forall r, c :: 0 <= r < height && 0 <= c < width ==>
         tmp[r, c] == (if r < 8 * (height / 8) && 0 <= TileIndex(width, c, r) < i
                       then buf[TileIndex(width, c, r)] else 0)
  }

  /** One tile: the two inner loops, which copy 64 consecutive pixels of the buffer
      into the tile's 8x8 block. */
  method TileBlock(tmp: array2<byte>, pixels: array<byte>, width: int, height: int,
                   x: int, y: int, i0: int) returns (i: int)
    requires TmpHolds(tmp, pixels[..], width, height, i0)
    requires 0 <= x < width / 8 && 0 <= y < height / 8 && i0 == (y * (width / 8) + x) * 64
    requires i0 + 64 <= pixels.Length
    modifies tmp
    ensures i == i0 + 64
    ensures TmpHolds(tmp, pixels[..], width, height, i)
  {
    TileIndexBound(width, height, 8 * x + 7, 8 * y + 7);
    i := i0;
    var ty := 0;
    while ty < 8
      invariant 0 <= ty <= 8 && i == i0 + ty * 8
      invariant TmpHolds(tmp, pixels[..], width, height, i)
    {
      i := TileRowCopy(tmp, pixels, width, height, x, y, ty, i);
      ty := ty + 1;
    }
  }

  /** The innermost loop: one row of one tile, 8 consecutive pixels of the buffer. */
  method TileRowCopy(tmp: array2<byte>, pixels: array<byte>, width: int, height: int,
                     x: int, y: int, ty: int, i0: int) returns (i: int)
    requires TmpHolds(tmp, pixels[..], width, height, i0)
    requires 0 <= x < width / 8 && 0 <= y < height / 8 && 0 <= ty < 8
    requires i0 == (y * (width / 8) + x) * 64 + ty * 8 && i0 + 8 <= pixels.Length
    modifies tmp
    ensures i == i0 + 8
    ensures TmpHolds(tmp, pixels[..], width, height, i)
  {
    i := i0;
    var tx := 0;
    while tx < 8
      invariant 0 <= tx <= 8 && i == i0 + tx
      invariant TmpHolds(tmp, pixels[..], width, height, i)
    {
      var cy, cx := y * 8 + ty, x * 8 + tx;
      TilePos(width, x, y, tx, ty);
      WritePixel(tmp, pixels, width, height, cx, cy, i);
      i := i + 1;
      tx := tx + 1;
    }
  }

  /** Pixel (8x + tx, 8y + ty) is pixel (tx, ty) of tile (x, y). */
  lemma TilePos(width: int, x: int, y: int, tx: int, ty: int)
    requires 0 <= x && 0 <= y && 0 <= tx < 8 && 0 <= ty < 8
    ensures TileIndex(width, x * 8 + tx, y * 8 + ty) == (y * (width / 8) + x) * 64 + ty * 8 + tx
  {
    assert (y * 8 + ty) / 8 == y && (y * 8 + ty) % 8 == ty;
    assert (x * 8 + tx) / 8 == x && (x * 8 + tx) % 8 == tx;
  }

  /** No pixel but (cx, cy) has the buffer position of (cx, cy). */
  lemma OtherPixels(width: int, i: int, cx: int, cy: int)
    requires width > 0 && width % 8 == 0 && 0 <= cx < width && 0 <= cy && TileIndex(width, cx, cy) == i
    ensures forall r, c :: 0 <= r && 0 <= c < width && (r, c) != (cy, cx) ==> TileIndex(width, c, r) != i
  {
    forall r, c | 0 <= r && 0 <= c < width && (r, c) != (cy, cx)
      ensures TileIndex(width, c, r) != i
    {
      if TileIndex(width, c, r) == i {
        TileIndexInjective(width, c, r, cx, cy);
      }
    }
  }

  /** The innermost statement: pixel `i` of the buffer goes to its place (cx, cy), which
      extends what is written to the positions below `i + 1`. */
  method WritePixel(tmp: array2<byte>, pixels: array<byte>, width: int, height: int,
                    cx: int, cy: int, i: int)
    requires TmpHolds(tmp, pixels[..], width, height, i) && i < pixels.Length
    requires 0 <= cx < width && 0 <= cy < 8 * (height / 8) && TileIndex(width, cx, cy) == i
    modifies tmp
    ensures TmpHolds(tmp, pixels[..], width, height, i + 1)
  {
    OtherPixels(width, i, cx, cy);
    tmp[cy, cx] := pixels[i];
  }

  /** Untiling a buffer of whole tiles is a permutation: putting the image back into
      tile order restores the buffer, and untiling a retiled image restores the image. */
  lemma {:induction false} UntileRetile(buf: seq<byte>, width: int, height: int)
    requires width > 0 && width % 8 == 0 && height % 8 == 0 && 0 <= height
    requires |buf| == width * height
    ensures UntileDefined(|buf|, width, height)
    ensures Retile(Untile(buf, width, height), width, height) == buf
  {
    WholeTiles(width, height);
    forall j | 0 <= j < |buf|
      ensures Retile(Untile(buf, width, height), width, height)[j] == buf[j]
    {
      UntileRetileAt(buf, width, height, j);
    }
  }

  lemma {:induction false} RetileUntile(img: seq<byte>, width: int, height: int)
    requires width > 0 && width % 8 == 0 && height % 8 == 0 && 0 <= height
    requires |img| == width * height
    ensures UntileDefined(|img|, width, height)
    ensures Untile(Retile(img, width, height), width, height) == img
  {
    WholeTiles(width, height);
    forall k | 0 <= k < |img|
      ensures Untile(Retile(img, width, height), width, height)[k] == img[k]
    {
      RetileUntileAt(img, width, height, k);
    }
  }

  /** An image of whole tiles holds exactly the pixels of its tiles. */
  lemma WholeTiles(width: int, height: int)
    requires width % 8 == 0 && height % 8 == 0
    ensures (height / 8) * (width / 8) * 64 == width * height
  {
    assert width == 8 * (width / 8) && height == 8 * (height / 8);
  }

  /** Position `j` of the buffer survives untiling and retiling. */
  lemma UntileRetileAt(buf: seq<byte>, width: int, height: int, j: int)
    requires width > 0 && width % 8 == 0 && height % 8 == 0 && 0 <= height
    requires |buf| == width * height && 0 <= j < |buf|
    ensures UntileDefined(|buf|, width, height)
    ensures Retile(Untile(buf, width, height), width, height)[j] == buf[j]
  {
    WholeTiles(width, height);
    var (x, y) := TileCoords(width, j);
    TileEncode(width, j);
    TileRow(width, height, j);
    var k := y * width + x;
    DivModUnique(k, width, y, x);
    assert Untile(buf, width, height)[k] == UntiledAt(buf, width, height, k);
  }

  /** Untiling fills the image from the buffer exactly up to the last whole row of
      tiles: every pixel at or past `width * 8 * (height / 8)` is blank. */
  lemma UntileBlanksPartialRow(buf: seq<byte>, width: int, height: int, k: int)
    requires UntileDefined(|buf|, width, height) && 0 <= k < |buf|
    ensures width > 0
    ensures k / width < 8 * (height / 8) <==> k < width * (8 * (height / 8))
    ensures k >= width * (8 * (height / 8)) ==> Untile(buf, width, height)[k] == 0
  {
    PositiveWidth(|buf|, width, height);
    RowOfPixel(k, width, 8 * (height / 8));
    assert Untile(buf, width, height)[k] == UntiledAt(buf, width, height, k);
  }

  /** Pixel `k` of a row-major image lies above row `rows` exactly when it comes before
      the first pixel of that row. */
  lemma RowOfPixel(k: int, width: int, rows: int)
    requires 0 <= k && 0 < width && 0 <= rows
    ensures k / width < rows <==> k < width * rows
  {
    var y := k / width;
    assert k == y * width + k % width;
    if y < rows {
      MulMono(y + 1, rows, width);
    } else {
      MulMono(rows, y, width);
    }
  }

  /** Pixel `k` of the image survives retiling and untiling. */
  lemma RetileUntileAt(img: seq<byte>, width: int, height: int, k: int)
    requires width > 0 && width % 8 == 0 && height % 8 == 0 && 0 <= height
    requires |img| == width * height && 0 <= k < |img|
    ensures UntileDefined(|img|, width, height)
    ensures Untile(Retile(img, width, height), width, height)[k] == img[k]
  {
    WholeTiles(width, height);
    var x, y := k % width, k / width;
    assert k == y * width + x;
    RowBound(k, width, height);
    TileIndexBound(width, height, x, y);
    TileDecode(width, x, y);
    assert Retile(img, width, height)[TileIndex(width, x, y)] == img[y * width + x];
  }

  /** A single 8x8 tile is already in row-major order. */
  lemma SingleTile(buf: seq<byte>)
    requires |buf| == 64
    ensures UntileDefined(64, 8, 8) && Untile(buf, 8, 8) == buf
  {
    forall k | 0 <= k < 64
      ensures Untile(buf, 8, 8)[k] == buf[k]
    {
      assert TileIndex(8, k % 8, k / 8) == k;
    }
  }

  /** In an image two tiles wide, the second pixel of the top row of the second tile,
      pixel (9, 0), comes from position 65 of the buffer. */
  lemma SecondTile(buf: seq<byte>)
    requires |buf| == 128
    ensures UntileDefined(128, 16, 8) && Untile(buf, 16, 8)[9] == buf[65]
  {
    assert TileIndex(16, 9, 0) == 65;
  }
}
